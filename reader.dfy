/**
 * ILReader: where an assembly's IL file goes, and how ParseAssemblies splits an
 * assembly's IL text into jobs that are parsed on their own and merged back in
 * job order.
 */
module Reader {
  import opened Outcomes
  import opened NetString
  import Paths
  import opened ClassScan

  const ILDirectory := "ILFiles"
  const ClassIdentifier := ".class"

  /** The assembly's file name without extension, its spaces made underscores. */
  function AssemblyName(path: string): (r: string)
    ensures |r| == |Paths.FileNameWithoutExt(path)|
  {
    ReplaceChar(Paths.FileNameWithoutExt(path), ' ', '_')
  }

  /** GetILPath: ILFiles\<name>\<name>.il. */
  function GetILPath(path: string): (r: string)
    ensures |r| == |ILDirectory| + 2 * |AssemblyName(path)| + 5
  {
    var n := AssemblyName(path);
    ILDirectory + "\\" + n + "\\" + n + ".il"
  }

  /** An assembly name holds neither separators nor spaces. */
  lemma AssemblyNameShape(path: string)
    ensures var n := AssemblyName(path);
            Paths.HasNoSeparator(n) && forall i :: 0 <= i < |n| ==> n[i] != ' '
  {
    var f := Paths.FileName(path);
    var s := Paths.FileNameWithoutExt(path);
    assert s == f[..|s|];
  }

  /** The name with ".il" appended: its last dot is the one before "il". */
  lemma StemOfIL(n: string)
    ensures Paths.Stem(n + ".il") == n
  {
    var w := n + ".il";
    assert w[|n|] == '.' && w[|n| + 1] == 'i' && w[|n| + 2] == 'l';
    Paths.LastDotIs(w, |n|);
    assert w[..|n|] == n;
  }

  /** The IL file sits in a directory of its own, both named after the assembly. */
  lemma ILPathParts(path: string)
    ensures var n := AssemblyName(path);
            var p := GetILPath(path);
            && Paths.FileName(p) == n + ".il"
            && Paths.DirectoryName(p) == ILDirectory + "\\" + n
            && Paths.FileNameWithoutExt(p) == n
  {
    var n := AssemblyName(path);
    AssemblyNameShape(path);
    ILFileName(n);
    ILPathRegrouped(n);
    Paths.CombinedPath(ILDirectory + "\\" + n, n + ".il");
  }

  lemma ILFileName(n: string)
    requires Paths.HasNoSeparator(n)
    ensures Paths.HasNoSeparator(n + ".il") && Paths.Stem(n + ".il") == n
  {
    assert forall i :: 0 <= i < |n| + 3 ==> (n + ".il")[i] == (if i < |n| then n[i] else ".il"[i - |n|]);
    StemOfIL(n);
  }

  lemma ILPathRegrouped(n: string)
    ensures ILDirectory + "\\" + n + "\\" + n + ".il" == (ILDirectory + "\\" + n) + "\\" + (n + ".il")
  {
  }

  /** The IL path of an IL file is that file itself. */
  lemma GetILPathIdempotent(path: string)
    ensures GetILPath(GetILPath(path)) == GetILPath(path)
  {
    var n := AssemblyName(path);
    ILPathParts(path);
    AssemblyNameShape(path);
    assert AssemblyName(GetILPath(path)) == n;
  }

  /**
   * IsNestedClass: whether "nested" occurs on the line of the ".class" at start.
   * When no line break follows, the original hands IndexOf a negative count.
   */
  function IsNestedClass(code: string, start: nat): (r: Outcome<bool>)
    requires start <= |code|
  {
    var newLineIndex := IndexOf(code, NewLine, start);
    if newLineIndex == -1 then Raised(ArgumentOutOfRange)
    else Value(IndexOfIn(code, "nested", start, newLineIndex - start) != -1)
  }

  /** "nested" lies wholly between start and the line break at nl. */
  predicate NestedBefore(code: string, start: int, nl: int)
  {
    exists k :: start <= k && k + 6 <= nl && IsAt(code, "nested", k)
  }

  /** IsNestedClass fails exactly when no line break follows, and otherwise says whether
    * "nested" occurs before the first one. */
  lemma IsNestedClassMeans(code: string, start: nat)
    requires start <= |code|
    ensures var nl := IndexOf(code, NewLine, start);
            && (IsNestedClass(code, start).Raised? <==> nl == -1)
            && (nl != -1 ==> (IsNestedClass(code, start) == Value(true) <==> NestedBefore(code, start, nl)))
  {
    var nl := IndexOf(code, NewLine, start);
    if nl != -1 {
      var r := IndexOfIn(code, "nested", start, nl - start);
      if r != -1 {
        assert IsAt(code, "nested", r);
      }
    }
  }

  /** Checking a ".class" of a suffix is checking it in the whole text. */
  lemma IsNestedClassSuffix(code: string, o: nat, start: nat)
    requires o + start <= |code|
    ensures IsNestedClass(code[o..], start) == IsNestedClass(code, o + start)
  {
    IndexOfSuffix(code, NewLine, o, start);
    var nl := IndexOf(code, NewLine, o + start);
    if nl != -1 {
      IndexOfInSuffix(code, "nested", o, start, nl - o - start);
    }
  }

  /** One round of the inner loop of DivideWorkForParallelProcessing: it stops at the next
    * ".class" (or -1) unless that class is nested, and then goes on past it. */
  datatype Round = Stop(outcome: Outcome<int>) | Skip(next: nat)

  function SearchRound(code: string, from: nat): (r: Round)
    requires from <= |code|
    ensures r.Skip? ==> from < r.next <= |code|
  {
    var e := IndexOf(code, ClassIdentifier, from);
    if e == -1 then Stop(Value(-1))
    else match IsNestedClass(code, e)
      case Raised(x) => Stop(Raised(x))
      case Value(nested) => if nested then Skip(e + |ClassIdentifier|) else Stop(Value(e))
  }

  /** Where the inner loop stops: the first ".class" at or after from that is not nested, or -1. */
  function NextSplit(code: string, from: nat): (r: Outcome<int>)
    ensures r.Value? ==> r.value == -1 || from <= r.value <= |code| - |ClassIdentifier|
    decreases |code| - from
  {
    if from > |code| then Raised(ArgumentOutOfRange)
    else match SearchRound(code, from)
    case Stop(r) => r
    case Skip(next) => NextSplit(code, next)
  }

  /** A ".class" whose line does not say "nested". */
  predicate TopLevelClassAt(code: string, k: int)
  {
    0 <= k <= |code| && IsAt(code, ClassIdentifier, k) && IsNestedClass(code, k) == Value(false)
  }

  /** Two occurrences of ".class" never overlap. */
  lemma ClassIdentifierApart(code: string, e: int, k: int)
    requires IsAt(code, ClassIdentifier, e) && IsAt(code, ClassIdentifier, k) && e <= k
    ensures k == e || k >= e + |ClassIdentifier|
  {
    if k < e + |ClassIdentifier| {
      assert code[k] == code[e..e + |ClassIdentifier|][k - e] == ClassIdentifier[k - e];
      assert code[k] == code[k..k + |ClassIdentifier|][0] == '.';
    }
  }

  /** The split is the first top-level ".class" from the search start on. */
  lemma {:induction false} NextSplitFinds(code: string, from: nat)
    requires from <= |code| && NextSplit(code, from).Value?
    ensures var e := NextSplit(code, from).value;
            && (e != -1 ==> TopLevelClassAt(code, e))
            && forall k :: from <= k && (e == -1 || k < e) ==> !TopLevelClassAt(code, k)
    decreases |code| - from
  {
    var e := IndexOf(code, ClassIdentifier, from);
    if e != -1 && IsNestedClass(code, e) == Value(true) {
      var e' := e + |ClassIdentifier|;
      NextSplitFinds(code, e');
      forall k | from <= k < e'
        ensures !TopLevelClassAt(code, k)
      {
        if k > e && TopLevelClassAt(code, k) {
          ClassIdentifierApart(code, e, k);
        }
      }
    }
  }

  /** A job: a slice of the IL text and the position where it starts. */
  datatype Job = Job(offset: nat, ilCode: string)

  /** The jobs done followed by the jobs of rest, unless dividing the rest failed. */
  function Prefixed(done: seq<Job>, rest: Outcome<seq<Job>>): Outcome<seq<Job>>
  {
    match rest
    case Raised(x) => Raised(x)
    case Value(jobs) => Value(done + jobs)
  }

  lemma PrefixedNone(rest: Outcome<seq<Job>>)
    ensures Prefixed([], rest) == rest
  {
    if rest.Value? {
      assert [] + rest.value == rest.value;
    }
  }

  lemma PrefixedTwice(a: seq<Job>, b: seq<Job>, rest: Outcome<seq<Job>>)
    ensures Prefixed(a, Prefixed(b, rest)) == Prefixed(a + b, rest)
  {
    if rest.Value? {
      assert a + (b + rest.value) == (a + b) + rest.value;
    }
  }

  /** A search result in the rest of the text that starts at start, counted in the whole text. */
  function Within(r: Outcome<int>, start: nat): Outcome<int>
  {
    match r
    case Raised(x) => Raised(x)
    case Value(e) => if e == -1 then Value(-1) else Value(start + e)
  }

  /**
   * splits holds, for each place start where the rest of the text may begin, where the round
   * that searches that rest from partLength on stops, counted in the whole text.
   */
  ghost predicate IsSplitTable(code: string, partLength: nat, splits: seq<Outcome<int>>)
  {
    && |splits| == |code| + 1
    && forall start: nat {:trigger NextSplit(code[start..], partLength)} :: start <= |code| ==>
         splits[start] == Within(NextSplit(code[start..], partLength), start)
  }

  lemma SplitTableExists(code: string, partLength: nat)
    ensures exists splits :: IsSplitTable(code, partLength, splits)
  {
    var splits := seq(|code| + 1, start requires 0 <= start <= |code| => Within(NextSplit(code[start..], partLength), start));
    assert IsSplitTable(code, partLength, splits);
  }

  /** The split table of the text. */
  ghost function SplitTable(code: string, partLength: nat): (splits: seq<Outcome<int>>)
    ensures IsSplitTable(code, partLength, splits)
  {
    SplitTableExists(code, partLength);
    var splits :| IsSplitTable(code, partLength, splits);
    splits
  }

  /** What the table holds only looks forward: a split found in the rest lies between
    * partLength past its start and the end of the text. */
  ghost predicate Forward(code: string, partLength: nat, splits: seq<Outcome<int>>)
  {
    && |splits| == |code| + 1
    && forall start :: 0 <= start < |splits| && splits[start].Value? && splits[start].value != -1 ==>
         start + partLength <= splits[start].value <= |code|
  }

  lemma SplitTableForward(code: string, partLength: nat, splits: seq<Outcome<int>>)
    requires IsSplitTable(code, partLength, splits)
    ensures Forward(code, partLength, splits)
  {
    forall start | 0 <= start < |splits| && splits[start].Value? && splits[start].value != -1
      ensures start + partLength <= splits[start].value <= |code|
    {
      assert splits[start] == Within(NextSplit(code[start..], partLength), start);
    }
  }

  /**
   * The outer loop of DivideWorkForParallelProcessing, on the whole text: the text still
   * to divide starts at start and rounds iterations are left. Each round searches from
   * partLength past start, looking the outcome up in splits.
   */
  function Divide(code: string, splits: seq<Outcome<int>>, start: nat, partLength: nat, rounds: nat): (r: Outcome<seq<Job>>)
    requires start <= |code| && Forward(code, partLength, splits)
    decreases rounds
  {
    if rounds == 0 || partLength >= |code| - start then Value([Job(start, code[start..])])
    else match splits[start]
      case Raised(x) => Raised(x)
      case Value(e) =>
        if e == -1 then Value([Job(start, code[start..])])
        else Prefixed([Job(start, code[start..e])], Divide(code, splits, e, partLength, rounds - 1))
  }

  /** DivideWorkForParallelProcessing on processorCount processors. */
  ghost function Partition(code: string, processorCount: nat): Outcome<seq<Job>>
    requires processorCount >= 1
  {
    var partLength := |code| / processorCount;
    var splits := SplitTable(code, partLength);
    SplitTableForward(code, partLength, splits);
    Divide(code, splits, 0, partLength, processorCount - 1)
  }

  /** The job texts one after the other. */
  function Joined(jobs: seq<Job>): string
  {
    if jobs == [] then [] else jobs[0].ilCode + Joined(jobs[1..])
  }

  /** The jobs tile the text: the first starts at offset, and each next one where the one
    * before it ends. */
  predicate Tiles(jobs: seq<Job>, offset: nat)
    decreases |jobs|
  {
    && |jobs| >= 1 && jobs[0].offset == offset
    && (|jobs| > 1 ==> Tiles(jobs[1..], offset + |jobs[0].ilCode|))
  }

  lemma JoinedCons(j: Job, rest: seq<Job>)
    ensures Joined([j] + rest) == j.ilCode + Joined(rest)
  {
    assert ([j] + rest)[1..] == rest;
  }

  lemma TilesCons(j: Job, rest: seq<Job>)
    requires Tiles(rest, j.offset + |j.ilCode|)
    ensures Tiles([j] + rest, j.offset)
  {
    assert ([j] + rest)[1..] == rest;
  }

  /** What a division promises: at most rounds + 1 jobs that put back together give the text
    * from start on, each job but the last at least partLength long. */
  lemma {:induction false} DivideTiles(code: string, splits: seq<Outcome<int>>, start: nat, partLength: nat, rounds: nat)
    requires start <= |code| && Forward(code, partLength, splits)
    requires Divide(code, splits, start, partLength, rounds).Value?
    ensures var jobs := Divide(code, splits, start, partLength, rounds).value;
            && |jobs| <= rounds + 1
            && Tiles(jobs, start)
            && Joined(jobs) == code[start..]
            && (forall k :: 0 <= k < |jobs| - 1 ==> |jobs[k].ilCode| >= partLength)
    decreases rounds
  {
    if rounds > 0 && partLength < |code| - start && splits[start].value != -1 {
      var e := splits[start].value;
      var j := Job(start, code[start..e]);
      var rest := Divide(code, splits, e, partLength, rounds - 1).value;
      DivideTiles(code, splits, e, partLength, rounds - 1);
      JoinedCons(j, rest);
      TilesCons(j, rest);
      assert code[start..e] + code[e..] == code[start..];
    } else {
      assert Joined([Job(start, code[start..])]) == code[start..] + Joined([]);
      assert Tiles([Job(start, code[start..])], start);
    }
  }

  /** Each job but the first starts where a search in the table stopped. */
  lemma {:induction false} DivideAtSplits(code: string, splits: seq<Outcome<int>>, start: nat, partLength: nat, rounds: nat)
    requires start <= |code| && Forward(code, partLength, splits)
    requires Divide(code, splits, start, partLength, rounds).Value?
    ensures var jobs := Divide(code, splits, start, partLength, rounds).value;
            forall k :: 1 <= k < |jobs| ==> Value(jobs[k].offset) in splits
    decreases rounds
  {
    if rounds > 0 && partLength < |code| - start && splits[start].value != -1 {
      var e := splits[start].value;
      var jobs := Divide(code, splits, start, partLength, rounds).value;
      var rest := Divide(code, splits, e, partLength, rounds - 1).value;
      DivideAtSplits(code, splits, e, partLength, rounds - 1);
      DivideTiles(code, splits, e, partLength, rounds - 1);
      assert jobs == [Job(start, code[start..e])] + rest;
    }
  }

  /** A top-level class of the rest of the text is one of the whole text. */
  lemma TopLevelSuffix(code: string, o: nat, k: nat)
    requires o + k <= |code|
    ensures TopLevelClassAt(code[o..], k) ==> TopLevelClassAt(code, o + k)
  {
    IsAtSuffix(code, ClassIdentifier, o, k);
    IsNestedClassSuffix(code, o, k);
  }

  /** Where the search stops, unless at -1, is a top-level class. */
  lemma {:induction false} NextSplitTopLevel(code: string, from: nat)
    requires NextSplit(code, from).Value? && NextSplit(code, from).value != -1
    ensures TopLevelClassAt(code, NextSplit(code, from).value)
    decreases |code| - from
  {
    match SearchRound(code, from)
    case Stop(r) =>
    case Skip(next) =>
      NextSplitTopLevel(code, next);
  }

  /** A class NextSplit finds in the rest of the text is a top-level class of the whole text. */
  lemma SplitFoundAt(code: string, start: nat, from: nat, e: nat)
    requires start <= |code| && NextSplit(code[start..], from) == Value(e)
    ensures TopLevelClassAt(code, start + e)
  {
    NextSplitTopLevel(code[start..], from);
    TopLevelSuffix(code, start, e);
  }

  /** Each place the table says a round stops at is a top-level ".class". */
  lemma SplitsAtClasses(code: string, partLength: nat, splits: seq<Outcome<int>>, v: int)
    requires IsSplitTable(code, partLength, splits) && Value(v) in splits && v != -1
    ensures TopLevelClassAt(code, v)
  {
    var start :| 0 <= start < |splits| && splits[start] == Value(v);
    SplitEntryAt(code, partLength, splits, start);
  }

  lemma SplitEntryAt(code: string, partLength: nat, splits: seq<Outcome<int>>, start: nat)
    requires IsSplitTable(code, partLength, splits) && start <= |code|
    requires splits[start].Value? && splits[start].value != -1
    ensures TopLevelClassAt(code, splits[start].value)
  {
    assert splits[start] == Within(NextSplit(code[start..], partLength), start);
    SplitFoundAt(code, start, partLength, NextSplit(code[start..], partLength).value);
  }

  /** Each job but the first starts at a top-level ".class" of the text. */
  lemma PartitionAtClasses(code: string, processorCount: nat)
    requires processorCount >= 1 && Partition(code, processorCount).Value?
    ensures var jobs := Partition(code, processorCount).value;
            forall k :: 1 <= k < |jobs| ==> TopLevelClassAt(code, jobs[k].offset)
  {
    var partLength := |code| / processorCount;
    var splits := SplitTable(code, partLength);
    SplitTableForward(code, partLength, splits);
    var jobs := Partition(code, processorCount).value;
    DivideAtSplits(code, splits, 0, partLength, processorCount - 1);
    forall k | 1 <= k < |jobs|
      ensures TopLevelClassAt(code, jobs[k].offset)
    {
      SplitsAtClasses(code, partLength, splits, jobs[k].offset);
    }
  }

  /** The jobs of a division put back together give the whole text: there are at most
    * processorCount of them, they follow one another from position 0 on, and each but the last
    * is at least the text length divided by processorCount long. */
  lemma PartitionTiles(code: string, processorCount: nat)
    requires processorCount >= 1 && Partition(code, processorCount).Value?
    ensures var jobs := Partition(code, processorCount).value;
            && |jobs| <= processorCount
            && Tiles(jobs, 0)
            && Joined(jobs) == code
            && forall k :: 0 <= k < |jobs| - 1 ==> |jobs[k].ilCode| >= |code| / processorCount
  {
    var partLength := |code| / processorCount;
    var splits := SplitTable(code, partLength);
    SplitTableForward(code, partLength, splits);
    DivideTiles(code, splits, 0, partLength, processorCount - 1);
    assert code[0..] == code;
  }

  /**
   * The rounds of DivideWorkForParallelProcessing, seen from its loop: target is the whole
   * division, result the jobs cut so far and the rest of the text starts at offset.
   */

  /** A round that cuts the rest at e, counted in the rest, adds one job and moves offset to the cut. */
  lemma DivideAdvance(code: string, splits: seq<Outcome<int>>, target: Outcome<seq<Job>>, result: seq<Job>,
                      offset: nat, partLength: nat, rounds: nat, e: nat)
    requires offset <= |code| && Forward(code, partLength, splits) && rounds > 0 && partLength < |code| - offset
    requires splits[offset] == Value(offset + e)
    requires target == Prefixed(result, Divide(code, splits, offset, partLength, rounds))
    ensures offset + e <= |code|
    ensures target == Prefixed(result + [Job(offset, code[offset..][..e])], Divide(code, splits, offset + e, partLength, rounds - 1))
  {
    assert code[offset..][..e] == code[offset..offset + e];
    PrefixedTwice(result, [Job(offset, code[offset..offset + e])], Divide(code, splits, offset + e, partLength, rounds - 1));
  }

  /** A round whose search fails makes the whole division fail the same way. */
  lemma DivideFails(code: string, splits: seq<Outcome<int>>, target: Outcome<seq<Job>>, result: seq<Job>,
                    offset: nat, partLength: nat, rounds: nat, x: Exception)
    requires offset <= |code| && Forward(code, partLength, splits) && rounds > 0 && partLength < |code| - offset
    requires splits[offset] == Raised(x)
    requires target == Prefixed(result, Divide(code, splits, offset, partLength, rounds))
    ensures target == Raised(x)
  {
  }

  /** The last round: the rest of the text is the last job. */
  lemma DivideStops(code: string, splits: seq<Outcome<int>>, target: Outcome<seq<Job>>, result: seq<Job>,
                    offset: nat, partLength: nat, rounds: nat)
    requires offset <= |code| && Forward(code, partLength, splits)
    requires rounds == 0 || partLength >= |code| - offset || splits[offset] == Value(-1)
    requires target == Prefixed(result, Divide(code, splits, offset, partLength, rounds))
    ensures target == Value(result + [Job(offset, code[offset..])])
  {
  }

  /**
   * The inner loop of DivideWorkForParallelProcessing: from partLength on, skip each ".class"
   * whose line says "nested"; stop at the first other one, or at -1 when none is left.
   * ilCode is the rest of the text code from offset on, and the outcome is what splits
   * records for that rest.
   */
  method FindSplit(ilCode: string, partLength: nat, ghost code: string, ghost splits: seq<Outcome<int>>, ghost offset: nat)
    returns (r: Outcome<int>)
    requires partLength <= |ilCode| && offset <= |code| && ilCode == code[offset..]
    requires IsSplitTable(code, partLength, splits)
    ensures r.Value? ==> r.value == -1 || partLength <= r.value <= |ilCode|
    ensures splits[offset] == Within(r, offset)
  {
    var endIndex: nat := partLength;
    while true
      invariant endIndex <= |ilCode| && NextSplit(ilCode, endIndex) == NextSplit(ilCode, partLength)
      decreases |ilCode| - endIndex
    {
      match SearchRound(ilCode, endIndex)
      case Stop(outcome) =>
        r := outcome;
        break;
      case Skip(next) =>
        endIndex := next;
    }
    assert splits[offset] == Within(NextSplit(code[offset..], partLength), offset);
  }

  /**
   * DivideWorkForParallelProcessing: cuts the IL text into at most processorCount jobs,
   * each cut just before a top-level ".class" found from partLength past the last cut.
   */
  method DivideWorkForParallelProcessing(il: string, processorCount: nat) returns (r: Outcome<seq<Job>>)
    requires processorCount >= 1
    ensures r == Partition(il, processorCount)
  {
    var result: seq<Job> := [];
    var offset: nat := 0;
    var ilCode := il;
    var partLength: nat := |il| / processorCount;
    ghost var splits := SplitTable(il, partLength);
    SplitTableForward(il, partLength, splits);
    ghost var target := Partition(il, processorCount);
    var i := 0;
    PrefixedNone(target);
    while i < processorCount - 1 && partLength < |ilCode|
      invariant i <= processorCount - 1 && offset <= |il| && ilCode == il[offset..]
      invariant target == Prefixed(result, Divide(il, splits, offset, partLength, processorCount - 1 - i))
    {
      var endIndex := FindSplit(ilCode, partLength, il, splits, offset);
      if endIndex.Raised? {
        DivideFails(il, splits, target, result, offset, partLength, processorCount - 1 - i, endIndex.error);
        return Raised(endIndex.error);
      }
      if endIndex.value == -1 {
        break;
      }
      var e := endIndex.value;
      DivideAdvance(il, splits, target, result, offset, partLength, processorCount - 1 - i, e);
      result := result + [Job(offset, ilCode[..e])];
      ilCode := ilCode[e..];
      offset := offset + e;
      i := i + 1;
    }
    DivideStops(il, splits, target, result, offset, partLength, processorCount - 1 - i);
    result := result + [Job(offset, ilCode)];
    return Value(result);
  }
}
