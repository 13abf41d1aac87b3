/**
 * The ordinal semantics of the System.String operations the core relies on:
 * IndexOf, Replace, Trim, EndsWith, Join.  Strings are sequences of UTF-16
 * code units, modelled as `seq<char>`.
 */
module NetString {

  /** `p` occurs in `s` starting at index `k`. */
  predicate IsAt(s: string, p: string, k: int)
  {
    0 <= k && k + |p| <= |s| && s[k..k + |p|] == p
  }

  /** Occurrences in a suffix are occurrences in the whole string, shifted. */
  lemma IsAtSuffix(s: string, p: string, o: nat, k: int)
    requires o <= |s|
    ensures IsAt(s[o..], p, k) <==> (0 <= k && IsAt(s, p, o + k))
  {
    if 0 <= k && k + |p| <= |s| - o {
      assert s[o..][k..k + |p|] == s[o + k..o + k + |p|];
    }
  }

  /** String.IndexOf(value, startIndex): the first occurrence of `p` at or after `from`, or -1. */
  function IndexOf(s: string, p: string, from: nat): (r: int)
    requires |p| > 0 && from <= |s|
    ensures r == -1 || (from <= r && IsAt(s, p, r))
    ensures r == -1 ==> forall k :: from <= k ==> !IsAt(s, p, k)
    ensures r != -1 ==> forall k :: from <= k < r ==> !IsAt(s, p, k)
    decreases |s| - from
  {
    if from + |p| > |s| then -1
    else if s[from..from + |p|] == p then from
    else IndexOf(s, p, from + 1)
  }

  /** The first-occurrence contract determines IndexOf completely. */
  lemma IndexOfUnique(s: string, p: string, from: nat, r: int)
    requires |p| > 0 && from <= |s|
    requires r == -1 || (from <= r && IsAt(s, p, r))
    requires r == -1 ==> forall k :: from <= k ==> !IsAt(s, p, k)
    requires r != -1 ==> forall k :: from <= k < r ==> !IsAt(s, p, k)
    ensures IndexOf(s, p, from) == r
  {
    var q := IndexOf(s, p, from);
    assert q != -1 ==> IsAt(s, p, q);
    assert r != -1 ==> IsAt(s, p, r);
  }

  /** Searching a suffix finds the same occurrence as searching the whole string. */
  lemma IndexOfSuffix(s: string, p: string, o: nat, from: nat)
    requires |p| > 0 && o + from <= |s|
    ensures IndexOf(s[o..], p, from) ==
            (var r := IndexOf(s, p, o + from); if r == -1 then -1 else r - o)
  {
    var r := IndexOf(s, p, o + from);
    var q := if r == -1 then -1 else r - o;
    forall k | true
      ensures IsAt(s[o..], p, k) <==> (0 <= k && IsAt(s, p, o + k))
    {
      IsAtSuffix(s, p, o, k);
    }
    IndexOfUnique(s[o..], p, from, q);
  }

  /** String.IndexOf(value, startIndex, count): the first occurrence lying wholly in s[from..from+count]. */
  function IndexOfIn(s: string, p: string, from: nat, count: nat): (r: int)
    requires |p| > 0 && from + count <= |s|
    ensures r == -1 || (from <= r && r + |p| <= from + count && IsAt(s, p, r))
    ensures r == -1 ==> forall k :: from <= k && k + |p| <= from + count ==> !IsAt(s, p, k)
    ensures r != -1 ==> forall k :: from <= k < r ==> !IsAt(s, p, k)
  {
    var w := s[..from + count];
    var r := IndexOf(w, p, from);
    assert forall k :: 0 <= k && k + |p| <= from + count ==> (IsAt(w, p, k) <==> IsAt(s, p, k)) by {
      forall k | 0 <= k && k + |p| <= from + count
        ensures IsAt(w, p, k) <==> IsAt(s, p, k)
      {
        assert w[k..k + |p|] == s[k..k + |p|];
      }
    }
    r
  }

  /** String.IndexOf(char, startIndex, count): the first `c` in s[from..from+count], or -1. */
  function IndexOfCharIn(s: string, c: char, from: nat, count: nat): (r: int)
    requires from + count <= |s|
    ensures r == -1 || (from <= r < from + count && s[r] == c)
    ensures forall k :: from <= k < (if r == -1 then from + count else r) ==> s[k] != c
    decreases count
  {
    if count == 0 then -1
    else if s[from] == c then from
    else IndexOfCharIn(s, c, from + 1, count - 1)
  }

  /** Searching a window of a suffix is searching the same window of the whole string. */
  lemma IndexOfInSuffix(s: string, p: string, o: nat, from: nat, count: nat)
    requires |p| > 0 && o + from + count <= |s|
    ensures IndexOfIn(s[o..], p, from, count) ==
            (var r := IndexOfIn(s, p, o + from, count); if r == -1 then -1 else r - o)
  {
    var w := s[..o + from + count];
    assert s[o..][..from + count] == w[o..];
    IndexOfSuffix(w, p, o, from);
  }

  /**
   * String.Replace(oldValue, newValue): ordinal, left to right, non-overlapping.
   * An empty oldValue makes .NET throw, so it is excluded.
   */
  function Replace(s: string, oldValue: string, newValue: string): string
    requires |oldValue| > 0
  {
    ReplaceFrom(s, oldValue, newValue, 0)
  }

  /** The result of Replace for the text of `s` from index `i` on, scanning left to right. */
  function ReplaceFrom(s: string, oldValue: string, newValue: string, i: nat): string
    requires |oldValue| > 0 && i <= |s|
    decreases |s| - i
  {
    if i + |oldValue| > |s| then s[i..]
    else if IsAt(s, oldValue, i) then newValue + ReplaceFrom(s, oldValue, newValue, i + |oldValue|)
    else [s[i]] + ReplaceFrom(s, oldValue, newValue, i + 1)
  }

  /** The pieces between the leftmost non-overlapping occurrences of `sep`. */
  function Split(s: string, sep: string): (parts: seq<string>)
    requires |sep| > 0
    ensures |parts| >= 1
    decreases |s|
  {
    var k := IndexOf(s, sep, 0);
    if k == -1 then [s] else [s[..k]] + Split(s[k + |sep|..], sep)
  }

  /** Joining a first part onto at least one more puts the separator between them. */
  lemma JoinCons(p: string, parts: seq<string>, sep: string)
    requires |parts| >= 1
    ensures Join([p] + parts, sep) == p + sep + Join(parts, sep)
  {
    assert ([p] + parts)[1..] == parts;
  }

  /** Split at a first occurrence: the text before it, then the pieces of the text after it. */
  lemma SplitAtFirst(s: string, sep: string)
    requires |sep| > 0 && IndexOf(s, sep, 0) != -1
    ensures var k := IndexOf(s, sep, 0);
            Split(s, sep) == [s[..k]] + Split(s[k + |sep|..], sep)
  {
  }

  /** String.Join(separator, values). */
  function Join(parts: seq<string>, sep: string): string
  {
    if |parts| == 0 then []
    else if |parts| == 1 then parts[0]
    else parts[0] + sep + Join(parts[1..], sep)
  }

  /** Scanning `s` from `o + i` is scanning its suffix `s[o..]` from `i`. */
  lemma {:induction false} ReplaceFromSuffix(s: string, oldValue: string, newValue: string, o: nat, i: nat)
    requires |oldValue| > 0 && o + i <= |s|
    ensures ReplaceFrom(s, oldValue, newValue, o + i) == ReplaceFrom(s[o..], oldValue, newValue, i)
    decreases |s| - o - i, 1
  {
    if o + i + |oldValue| > |s| {
      assert s[o + i..] == s[o..][i..];
    } else if IsAt(s, oldValue, o + i) {
      ReplaceFromSuffixMatch(s, oldValue, newValue, o, i);
    } else {
      ReplaceFromSuffixCopy(s, oldValue, newValue, o, i);
    }
  }

  /** The case of ReplaceFromSuffix where oldValue occurs at `o + i`. */
  lemma {:induction false} ReplaceFromSuffixMatch(s: string, oldValue: string, newValue: string, o: nat, i: nat)
    requires |oldValue| > 0 && o + i + |oldValue| <= |s| && IsAt(s, oldValue, o + i)
    ensures ReplaceFrom(s, oldValue, newValue, o + i) == ReplaceFrom(s[o..], oldValue, newValue, i)
    decreases |s| - o - i, 0
  {
    var t := s[o..];
    var j := i + |oldValue|;
    IsAtSuffix(s, oldValue, o, i);
    calc {
      ReplaceFrom(s, oldValue, newValue, o + i);
      newValue + ReplaceFrom(s, oldValue, newValue, o + j);
      { ReplaceFromSuffix(s, oldValue, newValue, o, j); }
      newValue + ReplaceFrom(t, oldValue, newValue, j);
      ReplaceFrom(t, oldValue, newValue, i);
    }
  }

  /** The case of ReplaceFromSuffix where oldValue does not occur at `o + i`. */
  lemma {:induction false} ReplaceFromSuffixCopy(s: string, oldValue: string, newValue: string, o: nat, i: nat)
    requires |oldValue| > 0 && o + i + |oldValue| <= |s| && !IsAt(s, oldValue, o + i)
    ensures ReplaceFrom(s, oldValue, newValue, o + i) == ReplaceFrom(s[o..], oldValue, newValue, i)
    decreases |s| - o - i, 0
  {
    var t := s[o..];
    var j := i + 1;
    IsAtSuffix(s, oldValue, o, i);
    calc {
      ReplaceFrom(s, oldValue, newValue, o + i);
      [s[o + i]] + ReplaceFrom(s, oldValue, newValue, o + j);
      { ReplaceFromSuffix(s, oldValue, newValue, o, j); }
      [t[i]] + ReplaceFrom(t, oldValue, newValue, j);
      ReplaceFrom(t, oldValue, newValue, i);
    }
  }

  /** Text with no occurrence of oldValue starting in [i, k) is copied through unchanged. */
  lemma {:induction false} ReplaceFromCopies(s: string, oldValue: string, newValue: string, i: nat, k: nat)
    requires |oldValue| > 0 && i <= k <= |s|
    requires forall j :: i <= j < k ==> !IsAt(s, oldValue, j)
    ensures ReplaceFrom(s, oldValue, newValue, i) == s[i..k] + ReplaceFrom(s, oldValue, newValue, k)
    decreases k - i
  {
    if i == k {
      assert s[i..k] == [];
    } else if i + |oldValue| > |s| {
      assert s[i..k] + s[k..] == s[i..];
    } else {
      assert !IsAt(s, oldValue, i);
      ReplaceFromCopies(s, oldValue, newValue, i + 1, k);
      assert [s[i]] + s[i + 1..k] == s[i..k];
    }
  }

  /** Text before the first occurrence of `oldValue` is copied through unchanged. */
  lemma ReplaceCopiesPrefix(s: string, oldValue: string, newValue: string, k: nat)
    requires |oldValue| > 0 && k <= |s|
    requires forall j :: 0 <= j < k ==> !IsAt(s, oldValue, j)
    ensures Replace(s, oldValue, newValue) == s[..k] + Replace(s[k..], oldValue, newValue)
  {
    ReplaceFromCopies(s, oldValue, newValue, 0, k);
    ReplaceFromSuffix(s, oldValue, newValue, k, 0);
  }

  /** At the first occurrence k, Replace copies the text before it, writes newValue, and goes on after it. */
  lemma ReplaceAtFirst(s: string, oldValue: string, newValue: string, k: nat)
    requires |oldValue| > 0 && IsAt(s, oldValue, k) && forall j :: 0 <= j < k ==> !IsAt(s, oldValue, j)
    ensures Replace(s, oldValue, newValue) == s[..k] + newValue + Replace(s[k + |oldValue|..], oldValue, newValue)
  {
    ReplaceCopiesPrefix(s, oldValue, newValue, k);
    var u := s[k..];
    assert IsAt(u, oldValue, 0);
    var rest := s[k + |oldValue|..];
    assert u[|oldValue|..] == rest;
    ReplaceFromSuffix(u, oldValue, newValue, |oldValue|, 0);
    var tail := Replace(rest, oldValue, newValue);
    assert Replace(u, oldValue, newValue) == newValue + tail;
    assert s[..k] + (newValue + tail) == s[..k] + newValue + tail;
  }

  /** Splitting at the first occurrence and joining again does the same. */
  lemma SplitJoinAtFirst(s: string, oldValue: string, newValue: string)
    requires |oldValue| > 0 && IndexOf(s, oldValue, 0) != -1
    ensures var k := IndexOf(s, oldValue, 0);
            Join(Split(s, oldValue), newValue) == s[..k] + newValue + Join(Split(s[k + |oldValue|..], oldValue), newValue)
  {
    var k := IndexOf(s, oldValue, 0);
    SplitAtFirst(s, oldValue);
    JoinCons(s[..k], Split(s[k + |oldValue|..], oldValue), newValue);
  }

  /** Replace agrees with the reference definition "split on oldValue, join with newValue". */
  lemma {:induction false} ReplaceIsSplitJoin(s: string, oldValue: string, newValue: string)
    requires |oldValue| > 0
    ensures Replace(s, oldValue, newValue) == Join(Split(s, oldValue), newValue)
    decreases |s|
  {
    var k := IndexOf(s, oldValue, 0);
    if k == -1 {
      ReplaceCopiesPrefix(s, oldValue, newValue, |s|);
      assert s[|s|..] == [];
      assert s[..|s|] == s;
    } else {
      var rest := s[k + |oldValue|..];
      ReplaceAtFirst(s, oldValue, newValue, k);
      ReplaceIsSplitJoin(rest, oldValue, newValue);
      SplitJoinAtFirst(s, oldValue, newValue);
    }
  }

  /** Text with no occurrence of oldValue is left unchanged. */
  lemma ReplaceAbsent(s: string, oldValue: string, newValue: string)
    requires |oldValue| > 0
    requires forall j :: 0 <= j < |s| ==> !IsAt(s, oldValue, j)
    ensures Replace(s, oldValue, newValue) == s
  {
    ReplaceCopiesPrefix(s, oldValue, newValue, |s|);
    assert s[..|s|] == s;
  }

  /** String.Replace(char, char). */
  function ReplaceChar(s: string, a: char, b: char): (r: string)
    ensures |r| == |s|
    ensures a != b ==> a !in r
  {
    seq(|s|, i requires 0 <= i < |s| => if s[i] == a then b else s[i])
  }

  /** Replacing a character is replacing the one-character string holding it. */
  lemma ReplaceCharIsReplace(s: string, a: char, b: char)
    ensures ReplaceChar(s, a, b) == Replace(s, [a], [b])
  {
    ReplaceCharFrom(s, a, b, 0);
  }

  /** ReplaceCharIsReplace, for the text from index i on. */
  lemma {:induction false} ReplaceCharFrom(s: string, a: char, b: char, i: nat)
    requires i <= |s|
    ensures ReplaceFrom(s, [a], [b], i) == ReplaceChar(s, a, b)[i..]
    decreases |s| - i
  {
    var r := ReplaceChar(s, a, b);
    if i < |s| {
      assert s[i..i + 1] == [s[i]];
      ReplaceCharFrom(s, a, b, i + 1);
      assert r[i..] == [r[i]] + r[i + 1..];
    }
  }

  /** Char.IsWhiteSpace. */
  predicate IsWhiteSpace(c: char)
  {
    c == ' ' || ('\t' <= c <= '\r') || c == '\U{85}' || c == '\U{A0}' || c == '\U{1680}'
    || ('\U{2000}' <= c <= '\U{200A}') || c == '\U{2028}' || c == '\U{2029}' || c == '\U{202F}'
    || c == '\U{205F}' || c == '\U{3000}'
  }

  /** Leading white space removed. */
  function TrimStart(s: string): (r: string)
    ensures |r| <= |s|
  {
    if |s| > 0 && IsWhiteSpace(s[0]) then TrimStart(s[1..]) else s
  }

  /** TrimStart drops a white prefix and stops at the first other character. */
  lemma {:induction false} TrimStartShape(s: string)
    ensures var r := TrimStart(s);
            && r == s[|s| - |r|..]
            && (forall i :: 0 <= i < |s| - |r| ==> IsWhiteSpace(s[i]))
            && (r != [] ==> !IsWhiteSpace(r[0]))
    decreases |s|
  {
    if |s| > 0 && IsWhiteSpace(s[0]) {
      TrimStartShape(s[1..]);
    }
  }

  /** Trailing white space removed. */
  function TrimEnd(s: string): (r: string)
    ensures |r| <= |s|
  {
    if |s| > 0 && IsWhiteSpace(s[|s| - 1]) then TrimEnd(s[..|s| - 1]) else s
  }

  /** TrimEnd drops a white suffix and stops at the last other character. */
  lemma {:induction false} TrimEndShape(s: string)
    ensures var r := TrimEnd(s);
            && r == s[..|r|]
            && (forall i :: |r| <= i < |s| ==> IsWhiteSpace(s[i]))
            && (r != [] ==> !IsWhiteSpace(r[|r| - 1]))
    decreases |s|
  {
    if |s| > 0 && IsWhiteSpace(s[|s| - 1]) {
      TrimEndShape(s[..|s| - 1]);
    }
  }

  /** String.Trim(). */
  function Trim(s: string): (r: string)
    ensures |r| <= |s|
  {
    TrimEnd(TrimStart(s))
  }

  /** Trim returns the slice s[a..b] that drops the leading and trailing white space. */
  lemma TrimShape(s: string)
    ensures var r := Trim(s);
            && (exists a, b ::
                  && 0 <= a <= b <= |s| && r == s[a..b]
                  && (forall i :: 0 <= i < a ==> IsWhiteSpace(s[i]))
                  && (forall i :: b <= i < |s| ==> IsWhiteSpace(s[i])))
            && (r != [] ==> !IsWhiteSpace(r[0]) && !IsWhiteSpace(r[|r| - 1]))
  {
    var t := TrimStart(s);
    var r := TrimEnd(t);
    TrimStartShape(s);
    TrimEndShape(t);
    var a := |s| - |t|;
    assert r == s[a..a + |r|];
    forall i | a + |r| <= i < |s|
      ensures IsWhiteSpace(s[i])
    {
      assert s[i] == t[i - a];
    }
  }

  /** String.EndsWith(value), ordinal. */
  predicate EndsWith(s: string, suffix: string)
  {
    |suffix| <= |s| && s[|s| - |suffix|..] == suffix
  }

  /** ASCII lower-casing: the case folding OrdinalIgnoreCase applies to ASCII letters. */
  function LowerAscii(c: char): char
  {
    if 'A' <= c <= 'Z' then (c as int + 32) as char else c
  }

  function LowerAsciiString(s: string): (r: string)
    ensures |r| == |s| && forall i :: 0 <= i < |r| ==> !('A' <= r[i] <= 'Z')
  {
    seq(|s|, i requires 0 <= i < |s| => LowerAscii(s[i]))
  }

  /** String.EndsWith(value, StringComparison.OrdinalIgnoreCase), for ASCII letters. */
  predicate EndsWithIgnoreCase(s: string, suffix: string)
  {
    EndsWith(LowerAsciiString(s), LowerAsciiString(suffix))
  }
}
