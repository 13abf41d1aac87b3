/**
 * How the structure parser cuts a symbol's name out of the IL text once the
 * keyword recogniser has fired: class names up to the end of the line (or the
 * generic arity mark), field names before an initializer, method and property
 * names before the opening parenthesis, generic names back to their balanced
 * '<'.  Every place where the original indexes outside the string or passes a
 * bad index to Substring/IndexOf is an explicit exception here.
 */
module NameExtraction {
  import opened Outcomes
  import opened NetString

  /** A name and the index of its first character. */
  datatype NameAt = NameAt(start: int, name: string)

  /** The reader's own LastIndexOf: the last `c` in s[start..end] (both ends included), or -1. */
  function LastIndexOf(s: string, c: char, start: nat, end: int): (r: int)
    requires end < |s|
    ensures r == -1 || (start <= r <= end && s[r] == c)
    ensures forall j :: start <= j <= end && r < j ==> s[j] != c
    decreases end - start
  {
    if end < start then -1
    else if s[end] == c then end
    else LastIndexOf(s, c, start, end - 1)
  }

  /**
   * Where a class name ends: the end of the line, or, for a generic class, two
   * characters after the backtick of the arity mark (three when a quote follows).
   */
  function ClassNameEnd(s: string, index: int, lastIndex: int): (r: Outcome<int>)
    ensures !(0 <= index <= lastIndex <= |s|) ==> r == Raised(ArgumentOutOfRange)
    ensures r.Value? ==> 0 <= index && r.value < |s|
  {
    if !(0 <= index <= lastIndex <= |s|) then Raised(ArgumentOutOfRange)
    else
      var g := IndexOfCharIn(s, '`', index, lastIndex - index);
      if g == -1 then
        if lastIndex >= |s| then Raised(IndexOutOfRange) else Value(lastIndex)
      else if g + 2 >= |s| then Raised(IndexOutOfRange)
      else
        var last := if s[g + 2] == '\'' then g + 3 else g + 2;
        if last >= |s| then Raised(IndexOutOfRange)
        else Value(last)
  }

  /** The end is the line end when no backtick precedes it, else just past the arity digit
    * after the first backtick (and past a closing quote). */
  lemma ClassNameEndAt(s: string, index: int, lastIndex: int)
    ensures var r := ClassNameEnd(s, index, lastIndex);
            && (r.Value? && (forall k :: index <= k < lastIndex ==> s[k] != '`') ==> r.value == lastIndex)
            && (r.Value? && r.value != lastIndex ==>
                  exists g :: && index <= g < lastIndex && s[g] == '`' && g < |s| - 2
                              && (forall k :: index <= k < g ==> s[k] != '`')
                              && r.value == (if s[g + 2] == '\'' then g + 3 else g + 2))
  {
    if 0 <= index <= lastIndex <= |s| {
      var g := IndexOfCharIn(s, '`', index, lastIndex - index);
      if g != -1 {
        assert s[g] == '`';
      }
    }
  }

  /**
   * ExtractClassName: the word after the last space before the name's end; no
   * space at all gives no name (null in the original).
   */
  function ExtractClassName(s: string, index: int, lastIndex: int): (r: Outcome<Option<NameAt>>)
    ensures r.Raised? <==> ClassNameEnd(s, index, lastIndex).Raised?
  {
    var end := ClassNameEnd(s, index, lastIndex);
    if end.Raised? then Raised(end.error)
    else
      var e := end.value;
      var k := LastIndexOf(s, ' ', index, e);
      if k == -1 then Value(None) else Value(Some(NameAt(k + 1, Trim(s[k..e]))))
  }

  /** The class name is the trimmed word after the last space before the name's end; with no
    * space there is no name. */
  lemma ClassNameIsLastWord(s: string, index: int, lastIndex: int)
    ensures var r := ExtractClassName(s, index, lastIndex);
            && (r.Value? && r.value.Some? ==>
                  var e := ClassNameEnd(s, index, lastIndex).value;
                  var n := r.value.value;
                  && index + 1 <= n.start <= e + 1 && s[n.start - 1] == ' '
                  && (forall j :: n.start <= j <= e ==> s[j] != ' ')
                  && n.name == Trim(s[n.start - 1..e]))
            && (r.Value? && r.value.None? ==>
                  var e := ClassNameEnd(s, index, lastIndex).value;
                  forall j :: index <= j <= e ==> s[j] != ' ')
  {
  }

  /**
   * Where a field's declaration stops: the first " = ", else the first " at ",
   * else -1.
   */
  function FieldInitializer(line: string): (k: int)
    ensures -1 <= k < |line|
  {
    var a := IndexOf(line, " = ", 0);
    if a != -1 then a else IndexOf(line, " at ", 0)
  }

  /** The first " = " wins; only a line without one is cut at its first " at ". */
  lemma FieldInitializerFirst(line: string)
    ensures var k := FieldInitializer(line);
            && (k == -1 <==> (forall j :: !IsAt(line, " = ", j)) && (forall j :: !IsAt(line, " at ", j)))
            && (k != -1 && (exists j :: IsAt(line, " = ", j)) ==>
                  IsAt(line, " = ", k) && forall j :: j < k ==> !IsAt(line, " = ", j))
            && (k != -1 && (forall j :: !IsAt(line, " = ", j)) ==>
                  IsAt(line, " at ", k) && forall j :: j < k ==> !IsAt(line, " at ", j))
  {
  }

  /**
   * ExtractFieldName: the word before the initializer (or ending the line),
   * with its index within the line.
   */
  function ExtractFieldName(line: string): (r: NameAt)
    ensures 0 <= r.start <= |line|
  {
    var k := FieldInitializer(line);
    var e := if k == -1 then |line| else k;
    var start := LastIndexOf(line, ' ', 0, e - 1) + 1;
    NameAt(start, Trim(line[start..e]))
  }

  /** The field name is the trimmed word that ends at the initializer (or the line's end). */
  lemma FieldNameIsLastWord(line: string)
    ensures var k := FieldInitializer(line);
            var e := if k == -1 then |line| else k;
            var r := ExtractFieldName(line);
            && 0 <= r.start <= e
            && (r.start == 0 || line[r.start - 1] == ' ')
            && (forall j :: r.start <= j < e ==> line[j] != ' ')
            && r.name == Trim(line[r.start..e])
  {
  }

  /** Net nesting of the characters s(lo..hi]: each '>' counts +1, each '<' counts -1. */
  function Depth(s: string, lo: int, hi: int): int
    requires -1 <= lo && hi < |s|
    decreases hi - lo
  {
    if hi <= lo then 0
    else Depth(s, lo + 1, hi) + (if s[lo + 1] == '>' then 1 else if s[lo + 1] == '<' then -1 else 0)
  }

  /** Some '>' lies in s(lo..hi]. */
  predicate SeesClose(s: string, lo: int, hi: int)
    requires -1 <= lo && hi < |s|
    decreases hi - lo
  {
    hi > lo && (s[lo + 1] == '>' || SeesClose(s, lo + 1, hi))
  }

  /**
   * The first loop of FindStartOfGenericName: walk left from `i` until a '>'
   * has been passed and the angle brackets passed since `e` balance.
   */
  function BalanceBack(s: string, start: nat, e: nat, i: int, counter: int, seen: bool): (r: int)
    requires e < |s| && (start <= i <= e || i == e)
    requires counter == Depth(s, i, e) && seen == SeesClose(s, i, e)
    ensures r <= i && (start <= i ==> start <= r)
    ensures r <= start || (Depth(s, r, e) <= 0 && SeesClose(s, r, e))
    ensures forall j :: r < j <= i ==> start < j && (Depth(s, j, e) > 0 || !SeesClose(s, j, e))
    decreases i
  {
    if i > start && (counter > 0 || !seen) then
      if s[i] == '>' then BalanceBack(s, start, e, i - 1, counter + 1, true)
      else if s[i] == '<' then BalanceBack(s, start, e, i - 1, counter - 1, seen)
      else BalanceBack(s, start, e, i - 1, counter, seen)
    else i
  }

  /** The second loop: walk left to the nearest space, never past `start`. */
  function BackToSpace(s: string, start: nat, i: int): (r: int)
    requires i < |s|
    ensures r <= i && (start <= i ==> start <= r)
    ensures r <= start || s[r] == ' '
    ensures forall j :: r < j <= i ==> start < j && s[j] != ' '
    decreases i
  {
    if i > start && s[i] != ' ' then BackToSpace(s, start, i - 1) else i
  }

  /**
   * FindStartOfGenericName: a name ending in '>' starts after the space that
   * precedes its balanced '<'.
   */
  function FindStartOfGenericName(s: string, start: nat, end: nat): (r: int)
    requires end < |s|
    ensures start < end ==> start + 1 <= r <= end
    ensures end <= start ==> r == end + 1
  {
    var b := BalanceBack(s, start, end, end, 0, false);
    BackToSpace(s, start, b) + 1
  }

  /** A generic name starts just after the space (or the search start) that precedes the
    * point where its angle brackets balance. */
  lemma GenericNameStart(s: string, start: nat, end: nat)
    requires end < |s| && start < end
    ensures var r := FindStartOfGenericName(s, start, end);
            && (r - 1 == start || s[r - 1] == ' ')
            && exists b :: && r - 1 <= b < end
                           && (b == start || (Depth(s, b, end) <= 0 && SeesClose(s, b, end)))
                           && (forall j :: r <= j <= b ==> s[j] != ' ')
  {
    var b := BalanceBack(s, start, end, end, 0, false);
    var r := BackToSpace(s, start, b) + 1;
    assert r - 1 <= b < end;
  }

  /** The character before an occurrence at k is a space or '<' (such an occurrence is skipped). */
  predicate Spaced(s: string, k: int)
  {
    1 <= k <= |s| && (s[k - 1] == ' ' || s[k - 1] == '<')
  }

  /** The occurrence at k directly follows the word "pinvokeimpl". */
  predicate AfterPInvoke(s: string, k: int)
  {
    11 <= k <= |s| && s[k - 11..k] == "pinvokeimpl"
  }

  /**
   * The skipping loop of FindNameEndIndex.  Its guard reads the character
   * before the occurrence first, so an occurrence at 0, or running out of
   * occurrences (index -1), reads outside the string.
   */
  function SkipSpaced(s: string, phrase: string, n: int): (r: Outcome<int>)
    requires |phrase| > 0 && IsAt(s, phrase, n)
    ensures r.Value? ==> n <= r.value && IsAt(s, phrase, r.value) && !Spaced(s, r.value) && r.value >= 1
    ensures r.Value? ==> forall k :: n <= k < r.value && IsAt(s, phrase, k) ==> Spaced(s, k)
    ensures r.Raised? ==> r.error == IndexOutOfRange
    ensures r.Raised? ==> n == 0 || forall k :: n <= k && IsAt(s, phrase, k) ==> Spaced(s, k)
    decreases |s| - n
  {
    if n == 0 then Raised(IndexOutOfRange)
    else if Spaced(s, n) then
      var m := IndexOf(s, phrase, n + 1);
      if m == -1 then Raised(IndexOutOfRange) else SkipSpaced(s, phrase, m)
    else Value(n)
  }

  /**
   * FindNameEndIndex: the first occurrence of the end phrase not preceded by a
   * space or '<'; when that one follows "pinvokeimpl", the next occurrence.
   */
  function FindNameEndIndex(s: string, phrase: string, start: nat): (r: Outcome<int>)
    requires |phrase| > 0 && start <= |s|
    ensures r.Value? && r.value != -1 ==> start <= r.value && r.value >= 1 && r.value + |phrase| <= |s|
  {
    var n := IndexOf(s, phrase, start);
    if n == -1 then Value(-1)
    else
      match SkipSpaced(s, phrase, n)
      case Raised(x) => Raised(x)
      case Value(q) =>
        if AfterPInvoke(s, q) then
          var m := IndexOf(s, phrase, q + 1);
          if m == -1 then Value(-1) else Value(m)
        else Value(q)
  }

  /** The end is the first occurrence not preceded by a space or '<', or the occurrence after
    * it when it follows "pinvokeimpl"; no occurrence at all gives -1. */
  lemma NameEndIsFirstUnspaced(s: string, phrase: string, start: nat)
    requires |phrase| > 0 && start <= |s|
    ensures var r := FindNameEndIndex(s, phrase, start);
            && (IndexOf(s, phrase, start) == -1 ==> r == Value(-1))
            && (r.Value? && r.value != -1 ==> IsAt(s, phrase, r.value))
            && (r.Value? && r.value != -1 ==>
                  exists q :: && start <= q <= r.value && IsAt(s, phrase, q) && !Spaced(s, q)
                              && (forall k :: start <= k < q && IsAt(s, phrase, k) ==> Spaced(s, k))
                              && if AfterPInvoke(s, q) then q < r.value && forall k :: q < k < r.value ==> !IsAt(s, phrase, k)
                                 else q == r.value)
            && (r.Raised? ==> r.error == IndexOutOfRange)
  {
    var n := IndexOf(s, phrase, start);
    if n != -1 {
      var sk := SkipSpaced(s, phrase, n);
      if sk.Value? {
        assert IsAt(s, phrase, sk.value);
      }
    }
  }

  /** FindNameStartIndex: generic names go back to their balanced '<', others to the last space. */
  function FindNameStartIndex(s: string, start: nat, end: nat): (r: int)
    requires 1 <= end < |s|
    ensures 0 <= r <= end + 1
  {
    if s[end - 1] == '>' then FindStartOfGenericName(s, start, end)
    else LastIndexOf(s, ' ', start, end) + 1
  }

  /** A name ending in '>' starts where its generic part does; any other starts after the last
    * space before its end. */
  lemma NameStartIndex(s: string, start: nat, end: nat)
    requires 1 <= end < |s|
    ensures var r := FindNameStartIndex(s, start, end);
            && (r == 0 || r - 1 <= start || s[r - 1] == ' ')
            && (s[end - 1] == '>' ==> r == FindStartOfGenericName(s, start, end))
            && (s[end - 1] != '>' ==> (r == 0 || start < r) && forall j :: start <= j <= end && r <= j ==> s[j] != ' ')
  {
    if s[end - 1] == '>' && start < end {
      GenericNameStart(s, start, end);
    }
  }

  /**
   * GetMethodPropertyName: the text between the name's start and the end
   * phrase; no end phrase gives no name (null in the original).
   */
  function GetMethodPropertyName(s: string, endPhrase: string, index: nat): (r: Outcome<Option<NameAt>>)
    requires |endPhrase| > 0 && index <= |s|
  {
    match FindNameEndIndex(s, endPhrase, index)
    case Raised(x) => Raised(x)
    case Value(e) =>
      if e == -1 then Value(None)
      else
        var st := FindNameStartIndex(s, index, e);
        if st > e then Raised(ArgumentOutOfRange)
        else Value(Some(NameAt(st, s[st..e])))
  }

  /** The name runs from its start index up to its end index; no end gives no name, and a
    * start past the end is the Substring's ArgumentOutOfRange. */
  lemma MethodPropertyNameSpan(s: string, endPhrase: string, index: nat)
    requires |endPhrase| > 0 && index <= |s|
    ensures var r := GetMethodPropertyName(s, endPhrase, index);
            var e := FindNameEndIndex(s, endPhrase, index);
            && (r == Value(None) <==> e == Value(-1))
            && (r.Value? && r.value.Some? ==>
                  var n := r.value.value;
                  && 0 <= n.start && n.start + |n.name| < |s|
                  && n.name == s[n.start..n.start + |n.name|]
                  && Value(n.start + |n.name|) == e
                  && n.start == FindNameStartIndex(s, index, n.start + |n.name|))
            && (r.Raised? ==> e.Raised?
                              || (r.error == ArgumentOutOfRange && e.value >= 1 &&
                                  FindNameStartIndex(s, index, e.value) == e.value + 1))
  {
  }
}
