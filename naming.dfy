/**
 * The renaming scheme both obfuscators share: the growing seed that yields
 * short fresh names, the generic-arity suffix a new name keeps, the
 * longest-first order in which an assembly's classes are renamed, and what a
 * run of renames does to an IL text and to the per-assembly rename map.
 */
module Naming {
  import opened NetString
  import opened Models
  import opened Lists

  // ---------------------------------------------------------------- seeds

  /** The shape every seed has: some 'z's, then one lower-case letter. */
  predicate IsSeed(s: string)
  {
    && |s| > 0
    && 'a' <= s[|s| - 1] <= 'z'
    && forall i :: 0 <= i < |s| - 1 ==> s[i] == 'z'
  }

  /** The position of a seed in the order the generator visits seeds: "a" is 0, "z" 25, "za" 26. */
  function Rank(s: string): int
    requires |s| > 0
  {
    26 * (|s| - 1) + (s[|s| - 1] as int - 'a' as int)
  }

  /**
   * One step of GenerateNewName on the seed: after a trailing 'z' an 'a' is
   * appended, any other last letter moves on by one.
   */
  function Bump(s: string): (r: string)
    requires |s| > 0 && 'a' <= s[|s| - 1] <= 'z'
    ensures |r| > 0 && 'a' <= r[|r| - 1] <= 'z'
  {
    var last := s[|s| - 1];
    if last == 'z' then s + "a"
    else s[..|s| - 1] + [(last as int + 1) as char]
  }

  /** A bump keeps a seed a seed and moves it one place further in the visiting order. */
  lemma BumpRank(s: string)
    requires IsSeed(s)
    ensures IsSeed(Bump(s)) && Rank(Bump(s)) == Rank(s) + 1
  {
    var r := Bump(s);
    assert forall i :: 0 <= i < |s| - 1 ==> r[i] == s[i];
  }

  /** The seed after `n` bumps of the initial "a". */
  function SeedAt(n: nat): (r: string)
    ensures |r| > 0 && 'a' <= r[|r| - 1] <= 'z'
  {
    if n == 0 then "a" else Bump(SeedAt(n - 1))
  }

  /** The n-th seed is a seed of rank n. */
  lemma {:induction false} SeedAtIsSeed(n: nat)
    ensures IsSeed(SeedAt(n)) && Rank(SeedAt(n)) == n
  {
    if n > 0 {
      SeedAtIsSeed(n - 1);
      BumpRank(SeedAt(n - 1));
    }
  }

  /** A seed is determined by its rank. */
  lemma RankInjective(s: string, t: string)
    requires IsSeed(s) && IsSeed(t) && Rank(s) == Rank(t)
    ensures s == t
  {
    if |s| == |t| {
      assert forall i :: 0 <= i < |s| ==> s[i] == t[i];
    }
  }

  /** The generator visits every seed exactly once: the seed of rank n is SeedAt(n). */
  lemma SeedAtRank(s: string)
    requires IsSeed(s)
    ensures Rank(s) >= 0 && SeedAt(Rank(s)) == s
  {
    SeedAtIsSeed(Rank(s));
    RankInjective(SeedAt(Rank(s)), s);
  }

  /** The first names handed out: "b", ..., "z", then "za". */
  lemma FirstSeeds()
    ensures SeedAt(0) == "a" && SeedAt(1) == "b" && SeedAt(25) == "z" && SeedAt(26) == "za"
  {
    SeedAtRank("b");
    SeedAtRank("z");
    SeedAtRank("za");
  }

  /** Seeds only grow: the n-th one has n / 26 + 1 letters. */
  lemma SeedLength(n: nat)
    ensures |SeedAt(n)| == n / 26 + 1
  {
    var s := SeedAt(n);
    SeedAtIsSeed(n);
    var x := s[|s| - 1] as int - 'a' as int;
    assert n == 26 * (|s| - 1) + x && 0 <= x < 26;
  }

  /** Distinct bump counts give distinct seeds, and a later seed is never shorter. */
  lemma SeedsDistinct(i: nat, j: nat)
    requires i < j
    ensures SeedAt(i) != SeedAt(j) && |SeedAt(i)| <= |SeedAt(j)|
  {
    SeedLength(i);
    SeedLength(j);
    SeedAtIsSeed(i);
    SeedAtIsSeed(j);
  }

  // --------------------------------------------------------- arity suffix

  /** `k` is the index of the first backtick of `s`. */
  predicate FirstBacktickAt(s: string, k: int)
  {
    0 <= k < |s| && s[k] == '`' && forall i :: 0 <= i < k ==> s[i] != '`'
  }

  /**
   * The generic-arity part a new name keeps: the old name from its first
   * backtick on, with one trailing quote dropped; empty without a backtick.
   */
  function AritySuffix(oldName: string): string
  {
    SuffixFrom(oldName, 0)
  }

  /** AritySuffix, searching for the first backtick from index `i` on. */
  function SuffixFrom(oldName: string, i: nat): string
    requires i <= |oldName|
    decreases |oldName| - i
  {
    if i == |oldName| then []
    else if oldName[i] == '`' then DropFinalQuote(oldName[i..])
    else SuffixFrom(oldName, i + 1)
  }

  /** The text less one final quote, if it ends with one. */
  function DropFinalQuote(s: string): string
  {
    if s != [] && s[|s| - 1] == '\'' then s[..|s| - 1] else s
  }

  /** Searching from `i` finds the suffix at String.IndexOf's first backtick from `i`. */
  lemma {:induction false} SuffixFromIndexOf(oldName: string, i: nat)
    requires i <= |oldName|
    ensures var k := IndexOfCharIn(oldName, '`', i, |oldName| - i);
            SuffixFrom(oldName, i) == if k == -1 then [] else DropFinalQuote(oldName[k..])
    decreases |oldName| - i
  {
    if i < |oldName| && oldName[i] != '`' {
      SuffixFromIndexOf(oldName, i + 1);
    }
  }

  /**
   * The suffix is empty exactly when the old name has no backtick; otherwise
   * it is the old name from its first backtick on, less a final quote.
   */
  lemma AritySuffixShape(oldName: string)
    ensures var r := AritySuffix(oldName);
            && (r == [] <==> forall i :: 0 <= i < |oldName| ==> oldName[i] != '`')
            && (r != [] ==> exists k :: (FirstBacktickAt(oldName, k) &&
                 (oldName[k..] == r + "'" || (oldName[k..] == r && r[|r| - 1] != '\''))))
  {
    var k := IndexOfCharIn(oldName, '`', 0, |oldName|);
    SuffixFromIndexOf(oldName, 0);
    if k != -1 {
      assert FirstBacktickAt(oldName, k);
      var suffix := oldName[k..];
      assert suffix[0] == '`';
      if suffix[|suffix| - 1] == '\'' {
        assert suffix[..|suffix| - 1] + "'" == suffix;
      }
    }
  }

  /** The name GenerateNewName returns on its n-th call for a class called `oldName`. */
  function NewName(n: nat, oldName: string): string
  {
    SeedAt(n) + AritySuffix(oldName)
  }

  /** A suffix that is not empty starts with the old name's first backtick. */
  lemma AritySuffixStart(oldName: string)
    ensures AritySuffix(oldName) == [] || AritySuffix(oldName)[0] == '`'
  {
    AritySuffixShape(oldName);
    var r := AritySuffix(oldName);
    if r != [] {
      var k :| FirstBacktickAt(oldName, k) && (oldName[k..] == r + "'" || (oldName[k..] == r && r[|r| - 1] != '\''));
      assert oldName[k..][0] == '`';
    }
  }

  /**
   * Different calls hand out different names, whatever the old names: a seed
   * is all letters and a suffix is empty or starts with a backtick, so the
   * seed is what a new name holds before its first backtick.
   */
  lemma NewNamesDistinct(i: nat, j: nat, x: string, y: string)
    requires i != j
    ensures NewName(i, x) != NewName(j, y)
  {
    if i < j {
      NewNamesDiffer(i, j, x, y);
    } else {
      NewNamesDiffer(j, i, y, x);
    }
  }

  /** NewNamesDistinct for an earlier call i and a later call j. */
  lemma NewNamesDiffer(i: nat, j: nat, x: string, y: string)
    requires i < j
    ensures NewName(i, x) != NewName(j, y)
  {
    var a, b := SeedAt(i), SeedAt(j);
    var sx, sy := AritySuffix(x), AritySuffix(y);
    SeedsDistinct(i, j);
    SeedAtIsSeed(j);
    AritySuffixStart(x);
    if |a| == |b| {
      assert (a + sx)[..|a|] == a && (b + sy)[..|a|] == b;
    } else if sx == [] {
      assert |a + sx| < |b + sy|;
    } else {
      assert (a + sx)[|a|] == '`' && (b + sy)[|a|] == b[|a|] != '`';
    }
  }

  // ------------------------------------------------------ longest first

  /** Names ordered by non-increasing length. */
  predicate LongestFirstOrder(s: seq<string>)
  {
    forall i, j :: 0 <= i < j < |s| ==> |s[i]| >= |s[j]|
  }

  /**
   * Places `x` after the names at the end of `s` that are shorter than it:
   * in a longest-first list, right after every name at least as long.
   */
  function InsertByLength(s: seq<string>, x: string): (r: seq<string>)
    ensures |r| == |s| + 1
  {
    if s == [] || |s[|s| - 1]| >= |x| then s + [x]
    else InsertByLength(s[..|s| - 1], x) + [s[|s| - 1]]
  }

  /** Inserting adds `x` to the names. */
  lemma {:induction false} InsertByLengthAdds(s: seq<string>, x: string)
    ensures multiset(InsertByLength(s, x)) == multiset(s) + multiset{x}
  {
    if s != [] && |s[|s| - 1]| < |x| {
      InsertByLengthAdds(s[..|s| - 1], x);
      assert s == s[..|s| - 1] + [s[|s| - 1]];
    }
  }

  /** Inserting keeps the names longest first. */
  lemma {:induction false} InsertByLengthSorts(s: seq<string>, x: string)
    requires LongestFirstOrder(s)
    ensures LongestFirstOrder(InsertByLength(s, x))
  {
    if s == [] || |s[|s| - 1]| >= |x| {
      var r := s + [x];
      forall i, j | 0 <= i < j < |r|
        ensures |r[i]| >= |r[j]|
      {
        if j == |s| {
          assert |s[i]| >= |s[|s| - 1]|;
        }
      }
    } else {
      var init, last := s[..|s| - 1], s[|s| - 1];
      assert LongestFirstOrder(init);
      var rest := InsertByLength(init, x);
      InsertByLengthSorts(init, x);
      InsertByLengthAdds(init, x);
      forall j | 0 <= j < |rest|
        ensures |rest[j]| >= |last|
      {
        assert rest[j] in multiset(rest);
        if rest[j] != x {
          assert rest[j] in multiset(init);
          var k :| 0 <= k < |init| && init[k] == rest[j];
          assert init[k] == s[k];
        }
      }
      var r := rest + [last];
      forall i, j | 0 <= i < j < |r|
        ensures |r[i]| >= |r[j]|
      {
        assert r[i] == rest[i];
      }
    }
  }

  /**
   * OrderByDescending(name length): a stable sort, so names of equal length
   * keep their list order.  Each name is inserted after the equally long
   * names that precede it.
   */
  function LongestFirst(names: seq<string>): (r: seq<string>)
    ensures |r| == |names|
  {
    if names == [] then []
    else InsertByLength(LongestFirst(names[..|names| - 1]), names[|names| - 1])
  }

  /** LongestFirst reorders the names, longest first. */
  lemma {:induction false} LongestFirstSorts(names: seq<string>)
    ensures multiset(LongestFirst(names)) == multiset(names)
    ensures LongestFirstOrder(LongestFirst(names))
  {
    if names != [] {
      var init, last := names[..|names| - 1], names[|names| - 1];
      LongestFirstSorts(init);
      InsertByLengthAdds(LongestFirst(init), last);
      InsertByLengthSorts(LongestFirst(init), last);
      assert names == init + [last];
    }
  }

  /** The order among equally long names is their order in the input. */
  lemma {:induction false} LongestFirstStable(names: seq<string>, len: nat)
    ensures Filter(LongestFirst(names), len) == Filter(names, len)
  {
    if names != [] {
      var init, last := names[..|names| - 1], names[|names| - 1];
      LongestFirstStable(init, len);
      LongestFirstSorts(init);
      InsertStable(LongestFirst(init), last, len);
    }
  }

  /** The names of length `len`, in order. */
  function Filter(s: seq<string>, len: nat): (r: seq<string>)
    ensures |r| <= |s| && SubList(r, s)
    ensures forall i :: 0 <= i < |r| ==> |r[i]| == len
    ensures forall i :: 0 <= i < |s| && |s[i]| == len ==> s[i] in r
  {
    if s == [] then []
    else
      var init, last := s[..|s| - 1], s[|s| - 1];
      assert s == init + [last];
      SubListSnoc(Filter(init, len), init, last, |last| == len);
      Filter(init, len) + (if |last| == len then [last] else [])
  }

  /** Inserting keeps the order of the names of each length, putting `x` last among its own. */
  lemma {:induction false} InsertStable(s: seq<string>, x: string, len: nat)
    requires LongestFirstOrder(s)
    ensures Filter(InsertByLength(s, x), len) == Filter(s, len) + (if |x| == len then [x] else [])
  {
    if s == [] || |s[|s| - 1]| >= |x| {
      assert (s + [x])[..|s|] == s;
    } else {
      var init, last := s[..|s| - 1], s[|s| - 1];
      assert LongestFirstOrder(init);
      InsertStable(init, x, len);
      var rest := InsertByLength(init, x);
      assert (rest + [last])[..|rest|] == rest;
    }
  }

  // -------------------------------------------------------------- renames

  /**
   * One rename: the class `oldName` of the assembly whose file name is
   * `file` becomes `newName`.
   */
  datatype Rename = Rename(file: string, oldName: string, newName: string)

  /** What the obfuscator reads of an assembly: its file name and its top-level class names, in list order. */
  datatype Owner = Owner(file: string, names: seq<string>)

  /** The names of a list of classes, in list order. */
  function ClassNames(classes: seq<ILClass>): (r: seq<string>)
    reads set c | c in classes
    ensures |r| == |classes|
  {
    if classes == [] then []
    else ClassNames(classes[..|classes| - 1]) + [classes[|classes| - 1].name]
  }

  /** The class names of each assembly of a list, in list order. */
  function NameLists(assemblies: seq<Assembly>): (r: seq<seq<string>>)
    reads set a | a in assemblies
    reads set a, c | a in assemblies && c in a.classes :: c
    ensures |r| == |assemblies|
  {
    if assemblies == [] then []
    else
      var a := assemblies[|assemblies| - 1];
      NameLists(assemblies[..|assemblies| - 1]) + [ClassNames(a.classes)]
  }

  /** The obfuscator's view of a list of assemblies whose class names are `lists`, in list order. */
  function Owners(assemblies: seq<Assembly>, lists: seq<seq<string>>): (r: seq<Owner>)
    requires |lists| == |assemblies|
    ensures |r| == |assemblies|
  {
    if assemblies == [] then []
    else
      var n := |assemblies|;
      Owners(assemblies[..n - 1], lists[..n - 1]) + [Owner(assemblies[n - 1].FileName(), lists[n - 1])]
  }

  /** The i-th owner is the i-th assembly's file name and class names. */
  lemma {:induction false} OwnerAt(assemblies: seq<Assembly>, lists: seq<seq<string>>, i: nat)
    requires |lists| == |assemblies| && i < |assemblies|
    ensures Owners(assemblies, lists)[i] == Owner(assemblies[i].FileName(), lists[i])
    decreases |assemblies|
  {
    var n := |assemblies|;
    if i < n - 1 {
      OwnerAt(assemblies[..n - 1], lists[..n - 1], i);
    }
  }

  /** The IL texts of a list of assemblies, in list order. */
  function Codes(assemblies: seq<Assembly>): (r: seq<string>)
    reads set a | a in assemblies
    ensures |r| == |assemblies|
  {
    if assemblies == [] then [] else Codes(assemblies[..|assemblies| - 1]) + [assemblies[|assemblies| - 1].ilCode]
  }

  /** The k-th text is the k-th assembly's. */
  lemma {:induction false} CodesAt(assemblies: seq<Assembly>)
    ensures forall k :: 0 <= k < |assemblies| ==> Codes(assemblies)[k] == assemblies[k].ilCode
    decreases |assemblies|
  {
    if assemblies != [] {
      var n := |assemblies|;
      CodesAt(assemblies[..n - 1]);
      assert forall k :: 0 <= k < n - 1 ==> assemblies[..n - 1][k] == assemblies[k];
    }
  }

  /**
   * The renames of one assembly: its classes, longest name first, the i-th
   * taking the name of the generator's (first + i + 1)-th call.
   */
  function Renames(owner: Owner, first: nat): (r: seq<Rename>)
  {
    RenamesInOrder(owner.file, LongestFirst(owner.names), first)
  }

  /** The renames of the classes `names` of assembly `file`, in that order. */
  function RenamesInOrder(file: string, names: seq<string>, first: nat): (r: seq<Rename>)
    ensures |r| == |names|
  {
    if names == [] then []
    else
      var n := |names|;
      RenamesInOrder(file, names[..n - 1], first) + [Rename(file, names[n - 1], NewName(first + n, names[n - 1]))]
  }

  /** No class name is empty. */
  predicate NonEmpty(names: seq<string>)
  {
    forall k :: 0 <= k < |names| ==> |names[k]| > 0
  }

  /** The i-th rename is of the i-th class, in the given assembly. */
  lemma {:induction false} RenamesInOrderNames(file: string, names: seq<string>, first: nat)
    ensures var r := RenamesInOrder(file, names, first);
            forall i :: 0 <= i < |names| ==> r[i].file == file && r[i].oldName == names[i]
    decreases |names|
  {
    if names != [] {
      var n := |names|;
      RenamesInOrderNames(file, names[..n - 1], first);
      var p := RenamesInOrder(file, names[..n - 1], first);
      var r := RenamesInOrder(file, names, first);
      assert forall i :: 0 <= i < n - 1 ==> r[i] == p[i] && names[..n - 1][i] == names[i];
    }
  }

  /** Renaming one more class appends its rename, numbered next. */
  lemma RenamesInOrderSnoc(file: string, names: seq<string>, first: nat, j: nat, n: nat)
    requires j < |names| && n == first + j + 1
    ensures RenamesInOrder(file, names[..j + 1], first)
            == RenamesInOrder(file, names[..j], first) + [Rename(file, names[j], NewName(n, names[j]))]
  {
    assert names[..j + 1][..j] == names[..j];
  }

  /** The i-th class renamed takes the name of the generator's (first + i + 1)-th call. */
  lemma {:induction false} RenamesInOrderNumbered(file: string, names: seq<string>, first: nat)
    ensures NumberedFrom(RenamesInOrder(file, names, first), first)
    decreases |names|
  {
    if names != [] {
      var n := |names|;
      RenamesInOrderNumbered(file, names[..n - 1], first);
      var p := RenamesInOrder(file, names[..n - 1], first);
      var r := RenamesInOrder(file, names, first);
      assert forall i :: 0 <= i < n - 1 ==> r[i] == p[i];
    }
  }

  /** Every class name of every owner is non-empty, as String.Replace demands of the name it replaces. */
  predicate Named(owners: seq<Owner>)
  {
    forall i :: 0 <= i < |owners| ==> NonEmpty(owners[i].names)
  }

  /** Every rename of a run of assemblies, assembly by assembly, numbering the generator's calls on from `first`. */
  function Plan(owners: seq<Owner>, first: nat): seq<Rename>
  {
    PlanUpTo(owners, |owners|, first)
  }

  /** The renames of the first `k` assemblies. */
  function PlanUpTo(owners: seq<Owner>, k: nat, first: nat): seq<Rename>
    requires k <= |owners|
  {
    if k == 0 then [] else PlanStep(PlanUpTo(owners, k - 1, first), owners[k - 1], first)
  }

  /** The plan `before` followed by the renames of one more assembly, numbered on from it. */
  function PlanStep(before: seq<Rename>, owner: Owner, first: nat): seq<Rename>
  {
    before + Renames(owner, first + |before|)
  }

  lemma PlanUpToSnoc(owners: seq<Owner>, first: nat, i: nat)
    requires i < |owners|
    ensures PlanUpTo(owners, i + 1, first) == PlanStep(PlanUpTo(owners, i, first), owners[i], first)
  {
  }

  lemma PlanStepIs(before: seq<Rename>, owner: Owner, first: nat, n: nat)
    requires n == first + |before|
    ensures PlanStep(before, owner, first) == before + Renames(owner, n)
  {
  }

  /** Sorting class names that are all non-empty keeps them so. */
  lemma SortedNamed(owner: Owner)
    requires NonEmpty(owner.names)
    ensures NonEmpty(LongestFirst(owner.names))
  {
    var sorted := LongestFirst(owner.names);
    LongestFirstSorts(owner.names);
    forall k | 0 <= k < |sorted|
      ensures |sorted[k]| > 0
    {
      assert sorted[k] in multiset(owner.names);
    }
    assert NonEmpty(sorted);
  }

  /** Each assembly contributes each of its classes once, longest first, tagged with its file name. */
  lemma RenamesOrder(owner: Owner, first: nat)
    ensures var r := Renames(owner, first);
            && |r| == |owner.names|
            && (forall i :: 0 <= i < |r| ==> r[i].file == owner.file)
            && multiset(seq(|r|, i requires 0 <= i < |r| => r[i].oldName)) == multiset(owner.names)
            && (forall i, j :: 0 <= i < j < |r| ==> |r[i].oldName| >= |r[j].oldName|)
  {
    var sorted := LongestFirst(owner.names);
    LongestFirstSorts(owner.names);
    assert |sorted| == |multiset(sorted)| == |multiset(owner.names)| == |owner.names|;
    var r := Renames(owner, first);
    RenamesInOrderNames(owner.file, sorted, first);
    assert seq(|r|, i requires 0 <= i < |r| => r[i].oldName) == sorted;
  }

  /**
   * The generator is called once per rename, in plan order: the i-th rename
   * gets the seed of call first + i + 1, so no two renames of a run share a
   * seed.
   */
  lemma PlanNames(owners: seq<Owner>, first: nat)
    ensures NumberedFrom(Plan(owners, first), first)
  {
    PlanUpToNames(owners, |owners|, first);
  }

  /** PlanNames for the first `k` assemblies. */
  lemma {:induction false} PlanUpToNames(owners: seq<Owner>, k: nat, first: nat)
    requires k <= |owners|
    ensures NumberedFrom(PlanUpTo(owners, k, first), first)
  {
    if k > 0 {
      var before := PlanUpTo(owners, k - 1, first);
      assert PlanUpTo(owners, k, first) == PlanStep(before, owners[k - 1], first);
      PlanUpToNames(owners, k - 1, first);
      PlanStepNames(before, owners[k - 1], first);
    }
  }

  /** One more assembly's renames continue the numbering. */
  lemma PlanStepNames(before: seq<Rename>, owner: Owner, first: nat)
    requires NumberedFrom(before, first)
    ensures NumberedFrom(PlanStep(before, owner, first), first)
  {
    RenamesInOrderNumbered(owner.file, LongestFirst(owner.names), first + |before|);
    NumberedAppend(before, Renames(owner, first + |before|), first);
  }

  /** Numbering carries over to a concatenation. */
  lemma NumberedAppend(p: seq<Rename>, q: seq<Rename>, first: nat)
    requires NumberedFrom(p, first) && NumberedFrom(q, first + |p|)
    ensures NumberedFrom(p + q, first)
  {
    forall i | 0 <= i < |p + q|
      ensures (p + q)[i].newName == NewName(first + i + 1, (p + q)[i].oldName)
    {
      if i >= |p| {
        assert (p + q)[i] == q[i - |p|];
      }
    }
  }

  /** The i-th rename of `plan` takes the name of the generator's (first + i + 1)-th call. */
  predicate NumberedFrom(plan: seq<Rename>, first: nat)
  {
    forall i :: 0 <= i < |plan| ==> plan[i].newName == NewName(first + i + 1, plan[i].oldName)
  }

  /** The renames of a numbered run hand out pairwise different new names. */
  lemma NumberedDistinct(plan: seq<Rename>, first: nat)
    requires NumberedFrom(plan, first)
    ensures forall i, j :: 0 <= i < j < |plan| ==> plan[i].newName != plan[j].newName
  {
    forall i, j | 0 <= i < j < |plan|
      ensures plan[i].newName != plan[j].newName
    {
      NewNamesDistinct(first + i + 1, first + j + 1, plan[i].oldName, plan[j].oldName);
    }
  }

  /**
   * The text after the renames of `plan`, each replacing every occurrence of
   * its old name, in plan order.  String.Replace rejects an empty old name;
   * the obfuscator never renames one (its methods require class names to be
   * non-empty), and here such a rename leaves the text alone.
   */
  function ApplyRenames(code: string, plan: seq<Rename>): string
  {
    if plan == [] then code
    else
      var last := plan[|plan| - 1];
      var before := ApplyRenames(code, plan[..|plan| - 1]);
      if |last.oldName| == 0 then before else Replace(before, last.oldName, last.newName)
  }

  /** One more rename replaces its old name in the text produced by the renames before it. */
  lemma ApplyRenamesSnoc(code: string, plan: seq<Rename>, r: Rename)
    requires |r.oldName| > 0
    ensures ApplyRenames(code, plan + [r]) == Replace(ApplyRenames(code, plan), r.oldName, r.newName)
  {
    assert (plan + [r])[..|plan|] == plan;
    assert forall i :: 0 <= i < |plan| ==> plan[i] == (plan + [r])[i];
    assert (plan + [r])[|plan|] == r;
  }

  /** Renaming by a run split in two is renaming by the first part, then by the second. */
  lemma {:induction false} ApplyRenamesAppend(code: string, p: seq<Rename>, q: seq<Rename>)
    ensures ApplyRenames(code, p + q) == ApplyRenames(ApplyRenames(code, p), q)
    decreases |q|
  {
    assert forall i :: 0 <= i < |p| ==> p[i] == (p + q)[i];
    assert forall i :: 0 <= i < |q| ==> q[i] == (p + q)[|p| + i];
    if q == [] {
      assert p + q == p;
    } else {
      var q' := q[..|q| - 1];
      assert (p + q)[..|p + q| - 1] == p + q';
      ApplyRenamesAppend(code, p, q');
    }
  }

  /** Every text of a list, each renamed by `plan`. */
  function ApplyAll(codes: seq<string>, plan: seq<Rename>): (r: seq<string>)
    ensures |r| == |codes|
  {
    if codes == [] then [] else ApplyAll(codes[..|codes| - 1], plan) + [ApplyRenames(codes[|codes| - 1], plan)]
  }

  /** The k-th text of ApplyAll is the k-th text, renamed by the plan. */
  lemma {:induction false} ApplyAllAt(codes: seq<string>, plan: seq<Rename>)
    ensures forall k :: 0 <= k < |codes| ==> ApplyAll(codes, plan)[k] == ApplyRenames(codes[k], plan)
    decreases |codes|
  {
    if codes != [] {
      var n := |codes|;
      ApplyAllAt(codes[..n - 1], plan);
      assert forall k :: 0 <= k < n - 1 ==> codes[..n - 1][k] == codes[k];
    }
  }

  /** Every text of a list, each with `oldValue` replaced by `newValue`. */
  function ReplaceAll(codes: seq<string>, oldValue: string, newValue: string): (r: seq<string>)
    requires |oldValue| > 0
    ensures |r| == |codes|
  {
    if codes == [] then [] else ReplaceAll(codes[..|codes| - 1], oldValue, newValue) + [Replace(codes[|codes| - 1], oldValue, newValue)]
  }

  /** The k-th text of ReplaceAll is the k-th text with the replacement made. */
  lemma {:induction false} ReplaceAllAt(codes: seq<string>, oldValue: string, newValue: string)
    requires |oldValue| > 0
    ensures forall k :: 0 <= k < |codes| ==> ReplaceAll(codes, oldValue, newValue)[k] == Replace(codes[k], oldValue, newValue)
    decreases |codes|
  {
    if codes != [] {
      var n := |codes|;
      ReplaceAllAt(codes[..n - 1], oldValue, newValue);
      assert forall k :: 0 <= k < n - 1 ==> codes[..n - 1][k] == codes[k];
    }
  }

  /** No renames leave every text alone. */
  lemma ApplyAllNone(codes: seq<string>)
    ensures ApplyAll(codes, []) == codes
  {
    ApplyAllAt(codes, []);
  }

  /** ApplyRenamesSnoc, for every text of a list. */
  lemma ApplyAllSnoc(codes: seq<string>, plan: seq<Rename>, r: Rename)
    requires |r.oldName| > 0
    ensures ApplyAll(codes, plan + [r]) == ReplaceAll(ApplyAll(codes, plan), r.oldName, r.newName)
  {
    ApplyAllAt(codes, plan + [r]);
    ApplyAllAt(codes, plan);
    ReplaceAllAt(ApplyAll(codes, plan), r.oldName, r.newName);
    forall k | 0 <= k < |codes| {
      ApplyRenamesSnoc(codes[k], plan, r);
    }
  }

  /** ApplyRenamesAppend, for every text of a list. */
  lemma ApplyAllAppend(codes: seq<string>, p: seq<Rename>, q: seq<Rename>)
    ensures ApplyAll(codes, p + q) == ApplyAll(ApplyAll(codes, p), q)
  {
    ApplyAllAt(codes, p + q);
    ApplyAllAt(codes, p);
    ApplyAllAt(ApplyAll(codes, p), q);
    forall k | 0 <= k < |codes| {
      ApplyRenamesAppend(codes[k], p, q);
    }
  }

  /** A text in which no old name of the run occurs comes through unchanged. */
  lemma {:induction false} ApplyRenamesAbsent(code: string, plan: seq<Rename>)
    requires forall i, k :: 0 <= i < |plan| && 0 <= k < |code| ==> !IsAt(code, plan[i].oldName, k)
    ensures ApplyRenames(code, plan) == code
    decreases |plan|
  {
    if plan != [] {
      var p := plan[..|plan| - 1];
      assert forall i :: 0 <= i < |p| ==> p[i] == plan[i];
      ApplyRenamesAbsent(code, p);
      var last := plan[|plan| - 1];
      if |last.oldName| > 0 {
        ReplaceAbsent(code, last.oldName, last.newName);
      }
    }
  }

  // ------------------------------------------------------- the rename map

  /** ObfuscationMap: per assembly file name, each renamed class's new name. */
  type RenameMap = map<string, map<string, string>>

  /** Records one rename: the assembly's inner map is created when missing, then its entry for `oldName` is set. */
  function Record(m: RenameMap, file: string, oldName: string, newName: string): RenameMap
  {
    var inner := if file in m then m[file] else map[];
    m[file := inner[oldName := newName]]
  }

  /** Recording sets one entry, adds at most the assembly, and changes nothing else. */
  lemma RecordEntries(m: RenameMap, file: string, oldName: string, newName: string)
    ensures var r := Record(m, file, oldName, newName);
            && file in r && oldName in r[file] && r[file][oldName] == newName
            && (forall f :: f in r <==> f in m || f == file)
            && (forall f :: f in m && f != file ==> r[f] == m[f])
            && (forall x :: x != oldName ==>
                  (x in r[file] <==> file in m && x in m[file]) &&
                  (x in r[file] ==> r[file][x] == m[file][x]))
  {
  }

  /** The map `m` after recording the renames of `plan`, in order. */
  function RecordAll(m: RenameMap, plan: seq<Rename>): RenameMap
  {
    if plan == [] then m
    else
      var last := plan[|plan| - 1];
      Record(RecordAll(m, plan[..|plan| - 1]), last.file, last.oldName, last.newName)
  }

  /** One more rename is recorded on top of the map the renames before it made. */
  lemma RecordAllSnoc(m: RenameMap, plan: seq<Rename>, r: Rename)
    ensures RecordAll(m, plan + [r]) == Record(RecordAll(m, plan), r.file, r.oldName, r.newName)
  {
    assert (plan + [r])[..|plan|] == plan;
  }

  /** The map made by the renames of `plan`, starting from an empty one. */
  function MapOf(plan: seq<Rename>): RenameMap
  {
    RecordAll(map[], plan)
  }

  /** Recording a run split in two is recording the first part, then the second. */
  lemma {:induction false} RecordAllAppend(m: RenameMap, p: seq<Rename>, q: seq<Rename>)
    ensures RecordAll(m, p + q) == RecordAll(RecordAll(m, p), q)
    decreases |q|
  {
    if q == [] {
      assert p + q == p;
    } else {
      var q' := q[..|q| - 1];
      assert (p + q)[..|p + q| - 1] == p + q';
      assert (p + q)[|p + q| - 1] == q[|q| - 1];
      RecordAllAppend(m, p, q');
    }
  }

  /** The index of the last rename of class `x` of assembly `f` in `plan`, or -1. */
  function LastRenameOf(plan: seq<Rename>, f: string, x: string): (r: int)
    ensures -1 <= r < |plan|
    ensures r >= 0 ==> plan[r].file == f && plan[r].oldName == x
    ensures forall j :: r < j < |plan| ==> !(plan[j].file == f && plan[j].oldName == x)
  {
    if plan == [] then -1
    else if plan[|plan| - 1].file == f && plan[|plan| - 1].oldName == x then |plan| - 1
    else LastRenameOf(plan[..|plan| - 1], f, x)
  }

  /** The map knows an assembly iff one of its classes was renamed. */
  lemma {:induction false} MapOfFiles(plan: seq<Rename>, f: string)
    ensures f in MapOf(plan) <==> exists i :: 0 <= i < |plan| && plan[i].file == f
    decreases |plan|
  {
    if plan != [] {
      var p := plan[..|plan| - 1];
      var last := plan[|plan| - 1];
      RecordEntries(MapOf(p), last.file, last.oldName, last.newName);
      MapOfFiles(p, f);
      if exists i :: 0 <= i < |plan| && plan[i].file == f {
        var i :| 0 <= i < |plan| && plan[i].file == f;
        if i < |p| {
          assert p[i] == plan[i];
        }
      }
      if exists i :: 0 <= i < |p| && p[i].file == f {
        var i :| 0 <= i < |p| && p[i].file == f;
        assert plan[i] == p[i];
      }
    }
  }

  /** The map sends a renamed class to the name its last rename gave it, and knows no other class. */
  lemma {:induction false} MapOfLookup(plan: seq<Rename>, f: string, x: string)
    ensures var m := MapOf(plan);
            var i := LastRenameOf(plan, f, x);
            && (f in m && x in m[f] <==> i >= 0)
            && (i >= 0 ==> m[f][x] == plan[i].newName)
    decreases |plan|
  {
    if plan != [] {
      var p := plan[..|plan| - 1];
      MapOfLookup(p, f, x);
      var last := plan[|plan| - 1];
      RecordEntries(MapOf(p), last.file, last.oldName, last.newName);
      if !(last.file == f && last.oldName == x) {
        assert LastRenameOf(plan, f, x) == LastRenameOf(p, f, x);
        var i := LastRenameOf(p, f, x);
        if i >= 0 {
          assert p[i] == plan[i];
        }
      }
    }
  }
}
