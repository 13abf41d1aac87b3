/**
 * The reader's driver: ParseAssemblies divides each assembly's IL into jobs,
 * parses every job into a container of its own and then merges the
 * containers' top-level classes into the assembly, in job order.  What the
 * merge appends is described by value (ClassHeader) so that it can be
 * related to the functional scan of each job.
 */
module Assemblies {
  import opened Outcomes
  import opened NetString
  import opened ClassScan
  import opened Models
  import opened Parser
  import opened Reader

  /** Where a class is and what it is called. */
  datatype ClassHeader = ClassHeader(name: string, nameStartIndex: int, startIndex: int, endIndex: int)

  function Header(c: ILClass): ClassHeader
    reads c
  {
    ClassHeader(c.name, c.nameStartIndex, c.startIndex, c.endIndex)
  }

  /** The header the parser gives the object of node n of a job at offset. */
  function NodeHeader(n: Node, offset: nat): ClassHeader
  {
    ClassHeader(n.name, offset + n.nameStartIndex, offset + n.startIndex, Shifted(n.endIndex, offset))
  }

  /** The headers of the top-level classes of a job's scan, in the container's order. */
  function RootHeaders(st: ScanState, offset: nat): seq<ClassHeader>
    requires forall j :: 0 <= j < |st.roots| ==> st.roots[j] < |st.nodes|
  {
    seq(|st.roots|, i requires 0 <= i < |st.roots| => NodeHeader(st.nodes[st.roots[i]], offset))
  }

  /** The roots of a completed scan are nodes of it. */
  lemma ParseRoots(text: string)
    requires Parse(text).Value?
    ensures var st := Parse(text).value;
            forall j :: 0 <= j < |st.roots| ==> st.roots[j] < |st.nodes|
  {
    var st := Parse(text).value;
    assert Forest(st.nodes, st.roots);
    forall j | 0 <= j < |st.roots|
      ensures st.roots[j] < |st.nodes|
    {
      assert st.roots[j] in st.roots;
    }
  }

  /** The roots of a completed scan are exactly its parentless nodes, in creation order. */
  lemma ParseRootsOrdered(text: string)
    requires Parse(text).Value?
    ensures var st := Parse(text).value;
            && Increasing(st.roots)
            && forall c :: 0 <= c < |st.nodes| ==> (c in st.roots <==> st.nodes[c].parent.None?)
  {
    var st := Parse(text).value;
    assert Forest(st.nodes, st.roots);
  }

  /** The headers of the top-level classes a job's parse produces. */
  function JobRoots(job: Job): seq<ClassHeader>
    requires Parse(job.ilCode).Value?
  {
    ParseRoots(job.ilCode);
    RootHeaders(Parse(job.ilCode).value, job.offset)
  }

  /** Every job's text scans to completion. */
  ghost predicate Parsed(jobs: seq<Job>)
  {
    forall k :: 0 <= k < |jobs| ==> Parse(jobs[k].ilCode).Value?
  }

  /** The headers the merge appends for jobs: each job's top-level classes, in job order. */
  ghost function Appended(jobs: seq<Job>): seq<ClassHeader>
    requires Parsed(jobs)
  {
    if jobs == [] then []
    else
      Appended(jobs[..|jobs| - 1]) + JobRoots(jobs[|jobs| - 1])
  }

  /** The headers of the jobs up to k are those before k followed by job k's. */
  lemma AppendedStep(jobs: seq<Job>, k: nat)
    requires Parsed(jobs) && k < |jobs|
    ensures Parsed(jobs[..k + 1]) && Appended(jobs[..k + 1]) == Appended(jobs[..k]) + JobRoots(jobs[k])
  {
    assert jobs[..k + 1][..k] == jobs[..k];
  }

  /** Container c holds the top-level classes of job's scan, parentless and owned by asm.
    * Held under a quantifier that fires only where the job's top-level headers are in view. */
  ghost predicate ContainerHolds(c: ILClass, job: Job, asm: Assembly)
    requires Parse(job.ilCode).Value?
    reads c, c.classes
  {
    forall q {:trigger JobRoots(q)} :: q == job ==>
      var hs := JobRoots(q);
      && |c.classes| == |hs|
      && forall i :: 0 <= i < |hs| ==> Header(c.classes[i]) == hs[i] && c.classes[i].parentClass == null && c.classes[i].parentAssembly == asm
  }

  /** after is before followed by classes with headers hs, parentless and owned by asm. */
  predicate Merged(before: seq<ILClass>, after: seq<ILClass>, hs: seq<ClassHeader>, asm: Assembly)
    reads after
  {
    && |after| == |before| + |hs|
    && after[..|before|] == before
    && forall i :: 0 <= i < |hs| ==>
         var c := after[|before| + i];
         Header(c) == hs[i] && c.parentClass == null && c.parentAssembly == asm
  }

  /** Container c and arena objs hold the whole scan of job: c lists the objects of the scan's
    * roots, and every object of the arena holds its node, nested classes and members included.
    * Held under a quantifier that fires only where the scan of the job is in view. */
  ghost predicate Holds(c: ILClass, objs: seq<ILClass>, job: Job, asm: Assembly)
    reads c, set k | 0 <= k < |objs| :: objs[k]
  {
    forall text {:trigger Parse(text)} :: text == job.ilCode ==>
      && Parse(text).Value?
      && var st := Parse(text).value;
         Mirrors(objs, st.nodes, st.roots, c, [], asm, job.offset)
  }

  /** The classes of the containers, one container after the other. */
  function Gathered(containers: seq<ILClass>): seq<ILClass>
    reads containers
  {
    if containers == [] then [] else Gathered(containers[..|containers| - 1]) + containers[|containers| - 1].classes
  }

  /** Gathering the containers concatenates their lists of classes. */
  lemma {:induction false} GatheredLists(containers: seq<ILClass>, lists: seq<seq<ILClass>>)
    requires |lists| == |containers| && forall j :: 0 <= j < |containers| ==> lists[j] == containers[j].classes
    ensures Gathered(containers) == Concat(lists)
    decreases |containers|
  {
    if containers != [] {
      var n := |containers| - 1;
      GatheredLists(containers[..n], lists[..n]);
    }
  }

  /** jobs is what the division of il yields.  Held, like Yields below, under a quantifier that
    * fires only where the division of il is in view. */
  ghost predicate DividedInto(il: string, processorCount: nat, jobs: seq<Job>)
  {
    forall q: nat {:trigger Partition(il, q)} :: q == processorCount ==> q >= 1 && Partition(il, q) == Value(jobs)
  }

  /** The merge by object: after is before followed by the containers' classes, and the
    * containers with their arenas hold the scans of the jobs il divides into. */
  ghost predicate MergedTrees(before: seq<ILClass>, after: seq<ILClass>, il: string, processorCount: nat,
                              jobs: seq<Job>, containers: seq<ILClass>, arenas: seq<seq<ILClass>>, asm: Assembly)
    reads containers, set j, k | 0 <= j < |arenas| && 0 <= k < |arenas[j]| :: arenas[j][k]
  {
    && DividedInto(il, processorCount, jobs)
    && |containers| == |jobs| && |arenas| == |jobs|
    && after == before + Gathered(containers)
    && forall j :: 0 <= j < |jobs| ==> Holds(containers[j], arenas[j], jobs[j], asm)
  }

  /** What ParseClasses leaves in a fresh container: the headers of the scan's roots. */
  lemma MirroredHeaders(objs: seq<ILClass>, c: ILClass, job: Job, asm: Assembly)
    requires Parse(job.ilCode).Value?
    requires var st := Parse(job.ilCode).value;
             Mirrors(objs, st.nodes, st.roots, c, [], asm, job.offset)
    ensures ContainerHolds(c, job, asm)
  {
    var st := Parse(job.ilCode).value;
    forall i | 0 <= i < |st.roots|
      ensures Header(c.classes[i]) == NodeHeader(st.nodes[st.roots[i]], job.offset)
      ensures c.classes[i].parentClass == null && c.classes[i].parentAssembly == asm
    {
      var k := st.roots[i];
      assert c.classes[i] == objs[k];
      assert NodeIs(objs[k], st.nodes[k], objs, asm, job.offset);
    }
  }

  /** Appending one more class with the next header keeps the merge described. */
  lemma MergedGrow(before: seq<ILClass>, after: seq<ILClass>, hs: seq<ClassHeader>, asm: Assembly, c: ILClass, h: ClassHeader)
    requires Merged(before, after, hs, asm)
    requires Header(c) == h && c.parentClass == null && c.parentAssembly == asm
    ensures Merged(before, after + [c], hs + [h], asm)
  {
    assert (after + [c])[..|before|] == after[..|before|];
  }

  /** Dividing the IL succeeds and every job scans to completion. */
  ghost predicate Succeeds(il: string, processorCount: nat)
    requires processorCount >= 1
  {
    Partition(il, processorCount).Value? && Parsed(Partition(il, processorCount).value)
  }

  /** The job's text is the IL code from the job's offset on. */
  predicate JobIn(code: string, job: Job)
  {
    job.offset + |job.ilCode| <= |code| && code[job.offset..job.offset + |job.ilCode|] == job.ilCode
  }

  /** A class header that points at the IL code: it starts at a ".class" and, once closed,
    * ends just after a '}' that follows its start. */
  predicate HeaderAt(code: string, h: ClassHeader)
  {
    && IsAt(code, ClassIdentifier, h.startIndex)
    && (h.endIndex == 0 || (h.startIndex < h.endIndex <= |code| && code[h.endIndex - 1] == '}'))
  }

  /** Jobs that tile a slice of the code each sit at their offset, one right after the other. */
  lemma {:induction false} TilesSlices(code: string, jobs: seq<Job>, o: nat)
    requires Tiles(jobs, o)
    requires o + |Joined(jobs)| <= |code| && code[o..o + |Joined(jobs)|] == Joined(jobs)
    ensures forall k :: 0 <= k < |jobs| ==> JobIn(code, jobs[k])
    ensures forall k :: 0 <= k < |jobs| - 1 ==> jobs[k].offset + |jobs[k].ilCode| == jobs[k + 1].offset
    decreases |jobs|
  {
    var j := jobs[0];
    var rest := jobs[1..];
    JoinedCons(j, rest);
    assert jobs == [j] + rest;
    var n := o + |j.ilCode|;
    assert code[o..n] == j.ilCode by {
      assert code[o..o + |Joined(jobs)|][..|j.ilCode|] == code[o..n];
    }
    if |jobs| > 1 {
      assert code[n..n + |Joined(rest)|] == Joined(rest) by {
        assert code[o..o + |Joined(jobs)|][|j.ilCode|..] == code[n..n + |Joined(rest)|];
      }
      TilesSlices(code, rest, n);
      assert forall k :: 1 <= k < |jobs| ==> jobs[k] == rest[k - 1];
    }
  }

  /** The classes of one job point at the IL code, lie within the job's slice and are in text
    * order. */
  lemma JobHeaders(code: string, job: Job)
    requires JobIn(code, job) && Parse(job.ilCode).Value?
    ensures InOrderAt(code, JobRoots(job))
    ensures forall i :: 0 <= i < |JobRoots(job)| ==>
              job.offset <= JobRoots(job)[i].startIndex
              && JobRoots(job)[i].startIndex + |ClassIdentifier| <= job.offset + |job.ilCode|
  {
    ParseLocated(job.ilCode);
    ParseRoots(job.ilCode);
    RootsAt(code, job, Parse(job.ilCode).value);
  }

  /** The same for any scan state whose roots are located nodes of the job's text. */
  lemma RootsAt(code: string, job: Job, st: ScanState)
    requires JobIn(code, job)
    requires forall j :: 0 <= j < |st.roots| ==> st.roots[j] < |st.nodes|
    requires Increasing(st.roots) && Located(job.ilCode, |job.ilCode|, st.nodes)
    ensures var hs := RootHeaders(st, job.offset);
            && InOrderAt(code, hs)
            && forall i :: 0 <= i < |hs| ==>
                 job.offset <= hs[i].startIndex && hs[i].startIndex + |ClassIdentifier| <= job.offset + |job.ilCode|
  {
    var text := job.ilCode;
    var hs := RootHeaders(st, job.offset);
    forall i | 0 <= i < |hs|
      ensures HeaderAt(code, hs[i]) && job.offset <= hs[i].startIndex
      ensures hs[i].startIndex + |ClassIdentifier| <= job.offset + |text|
    {
      var n := st.nodes[st.roots[i]];
      assert ClassAt(text, |text|, n.startIndex);
      IsAtWithin(code, text, job.offset, ClassIdentifier, n.startIndex);
      if n.endIndex != 0 {
        assert ClosedAt(text, |text|, n);
        CharWithin(code, text, job.offset, n.endIndex - 1);
      }
    }
    assert forall i, j :: 0 <= i < j < |hs| ==> st.roots[i] < st.roots[j];
  }

  /** An occurrence in a slice of the code is an occurrence in the code, shifted by the slice's offset. */
  lemma IsAtWithin(code: string, text: string, o: nat, p: string, s: int)
    requires o + |text| <= |code| && code[o..o + |text|] == text && IsAt(text, p, s)
    ensures IsAt(code, p, o + s)
  {
    forall k | o + s <= k < o + s + |p|
      ensures code[k] == text[k - o]
    {
      assert code[o..o + |text|][k - o] == code[k];
    }
    assert code[o + s..o + s + |p|] == text[s..s + |p|];
  }

  /** A character of a slice of the code is the code's character at the shifted index. */
  lemma CharWithin(code: string, text: string, o: nat, k: nat)
    requires o + |text| <= |code| && code[o..o + |text|] == text && k < |text|
    ensures code[o + k] == text[k]
  {
    assert code[o..o + |text|][k] == code[o + k];
  }

  /** Headers that point at the IL code, in strictly increasing text order. */
  predicate InOrderAt(code: string, hs: seq<ClassHeader>)
  {
    && (forall i :: 0 <= i < |hs| ==> HeaderAt(code, hs[i]))
    && (forall i, j :: 0 <= i < j < |hs| ==> hs[i].startIndex < hs[j].startIndex)
  }

  predicate StartBefore(hs: seq<ClassHeader>, bound: int)
  {
    forall i :: 0 <= i < |hs| ==> hs[i].startIndex < bound
  }

  /** Two runs in text order, the first wholly before the second, make one run in text order. */
  lemma InOrderJoin(code: string, done: seq<ClassHeader>, hs: seq<ClassHeader>, bound: int)
    requires InOrderAt(code, done) && InOrderAt(code, hs) && StartBefore(done, bound)
    requires forall i :: 0 <= i < |hs| ==> bound <= hs[i].startIndex
    ensures InOrderAt(code, done + hs)
  {
    var all := done + hs;
    forall i | 0 <= i < |all|
      ensures HeaderAt(code, all[i])
    {
      if i >= |done| {
        assert all[i] == hs[i - |done|];
      }
    }
    forall i, j | 0 <= i < j < |all|
      ensures all[i].startIndex < all[j].startIndex
    {
      if j < |done| {
        assert all[i] == done[i] && all[j] == done[j];
      } else if i >= |done| {
        assert all[i] == hs[i - |done|] && all[j] == hs[j - |done|];
      } else {
        assert all[i] == done[i] && all[j] == hs[j - |done|];
      }
    }
  }

  /** Runs of headers (or of classes), one after the other. */
  function Concat<T>(runs: seq<seq<T>>): (r: seq<T>)
  {
    if runs == [] then [] else Concat(runs[..|runs| - 1]) + runs[|runs| - 1]
  }

  /** Appending run k to the concatenation of the runs before it gives the runs up to k. */
  lemma ConcatStep<T>(prefix: seq<T>, done: seq<T>, next: seq<T>, runs: seq<seq<T>>, k: nat)
    requires k < |runs| && done == prefix + Concat(runs[..k]) && next == done + runs[k]
    ensures next == prefix + Concat(runs[..k + 1])
  {
    assert runs[..k + 1][..k] == runs[..k];
  }

  /** The top-level classes of each job. */
  ghost function Runs(jobs: seq<Job>): seq<seq<ClassHeader>>
    requires Parsed(jobs)
  {
    seq(|jobs|, k requires 0 <= k < |jobs| => JobRoots(jobs[k]))
  }

  /** The merge appends the jobs' runs one after the other. */
  lemma {:induction false} AppendedRuns(jobs: seq<Job>, n: nat)
    requires Parsed(jobs) && n <= |jobs|
    ensures Parsed(jobs[..n]) && Appended(jobs[..n]) == Concat(Runs(jobs)[..n])
    decreases n
  {
    if n > 0 {
      AppendedRuns(jobs, n - 1);
      assert jobs[..n][..n - 1] == jobs[..n - 1];
      assert Runs(jobs)[..n][..n - 1] == Runs(jobs)[..n - 1];
    }
  }

  /** Runs that each point at the IL code in text order and lie each within its job's slice,
    * the jobs following one another, make one run in text order, all before the end of job
    * n - 1. */
  lemma {:induction false} RunsInOrder(code: string, jobs: seq<Job>, runs: seq<seq<ClassHeader>>, n: nat)
    requires |runs| == |jobs| && n <= |jobs|
    requires forall k :: 0 <= k < |runs| ==> InOrderAt(code, runs[k])
    requires forall k, i :: 0 <= k < |runs| && 0 <= i < |runs[k]| ==>
               jobs[k].offset <= runs[k][i].startIndex < jobs[k].offset + |jobs[k].ilCode|
    requires forall k :: 0 <= k < |jobs| - 1 ==> jobs[k].offset + |jobs[k].ilCode| == jobs[k + 1].offset
    ensures InOrderAt(code, Concat(runs[..n]))
    ensures n > 0 ==> StartBefore(Concat(runs[..n]), jobs[n - 1].offset + |jobs[n - 1].ilCode|)
    decreases n
  {
    if n > 0 {
      var job := jobs[n - 1];
      var done := Concat(runs[..n - 1]);
      var hs := runs[n - 1];
      assert runs[..n][..n - 1] == runs[..n - 1];
      assert Concat(runs[..n]) == done + hs;
      RunsInOrder(code, jobs, runs, n - 1);
      if n > 1 {
        assert jobs[n - 2].offset + |jobs[n - 2].ilCode| == job.offset;
      }
      InOrderJoin(code, done, hs, job.offset);
      assert StartBefore(done + hs, job.offset + |job.ilCode|) by {
        forall i | 0 <= i < |done + hs|
          ensures (done + hs)[i].startIndex < job.offset + |job.ilCode|
        {
          if i >= |done| {
            assert (done + hs)[i] == hs[i - |done|];
          }
        }
      }
    }
  }

  /** What ParseAssembly does to an assembly with IL il: None when it throws, otherwise the
    * headers of the classes it appends. */
  ghost function ParseOutcome(il: string, processorCount: nat): Option<seq<ClassHeader>>
    requires processorCount >= 1
  {
    if Succeeds(il, processorCount) then Some(Appended(Partition(il, processorCount).value)) else None
  }

  /**
   * e is ParseOutcome(il, processorCount).  The definition is held under a
   * quantifier that fires only where the division of il is in view, so that
   * proofs about a whole list of assemblies do not unfold every division and
   * every scan.
   */
  ghost predicate Yields(il: string, processorCount: nat, e: Option<seq<ClassHeader>>)
  {
    forall q: nat {:trigger Partition(il, q)} :: q == processorCount && q >= 1 ==> e == ParseOutcome(il, q)
  }

  lemma YieldsExists(il: string, processorCount: nat)
    requires processorCount >= 1
    ensures exists e :: Yields(il, processorCount, e)
  {
    assert Yields(il, processorCount, ParseOutcome(il, processorCount));
  }

  /** ParseOutcome, as the assembly-level contracts see it. */
  ghost function Expected(il: string, processorCount: nat): (e: Option<seq<ClassHeader>>)
    requires processorCount >= 1
    ensures Yields(il, processorCount, e)
  {
    YieldsExists(il, processorCount);
    var e :| Yields(il, processorCount, e);
    e
  }

  /** ParseAssembly's classes, in the order it appends them, sit at ".class" occurrences of
    * the assembly's IL in strictly increasing text order. */
  lemma ExpectedInOrder(code: string, processorCount: nat)
    requires processorCount >= 1 && Expected(code, processorCount).Some?
    ensures InOrderAt(code, Expected(code, processorCount).value)
  {
    var jobs := Partition(code, processorCount).value;
    PartitionTiles(code, processorCount);
    assert code[0..0 + |Joined(jobs)|] == Joined(jobs);
    TilesSlices(code, jobs, 0);
    var runs := Runs(jobs);
    forall k | 0 <= k < |jobs|
      ensures InOrderAt(code, runs[k])
      ensures forall i :: 0 <= i < |runs[k]| ==> jobs[k].offset <= runs[k][i].startIndex < jobs[k].offset + |jobs[k].ilCode|
    {
      JobHeaders(code, jobs[k]);
    }
    RunsInOrder(code, jobs, runs, |jobs|);
    AppendedRuns(jobs, |jobs|);
    assert jobs[..|jobs|] == jobs && runs[..|jobs|] == runs;
  }

  /**
   * One round of the loop of ParseAssemblies: divide, parse each job into a
   * new container, then append the containers' classes in job order.  An
   * exception of the division or of a job's parse leaves the assembly's
   * classes as they were: the merge comes after all jobs have finished.
   */
  method ParseAssembly(assembly: Assembly, processorCount: nat)
      returns (r: Outcome<()>, ghost jobs: seq<Job>, ghost containers: seq<ILClass>, ghost arenas: seq<seq<ILClass>>)
    requires processorCount >= 1
    modifies assembly
    ensures assembly.ilCode == old(assembly.ilCode)
    ensures r.Value? <==> Expected(assembly.ilCode, processorCount).Some?
    ensures r.Raised? ==> assembly.classes == old(assembly.classes)
    ensures r.Value? ==> Merged(old(assembly.classes), assembly.classes, Expected(assembly.ilCode, processorCount).value, assembly)
    ensures r.Value? ==> MergedTrees(old(assembly.classes), assembly.classes, assembly.ilCode, processorCount, jobs, containers, arenas, assembly)
  {
    jobs, containers, arenas := [], [], [];
    var division := DivideWorkForParallelProcessing(assembly.ilCode, processorCount);
    if division.Raised? {
      r := Raised(division.error);
      return;
    }
    var parallelJobs := division.value;
    // A job whose scan throws makes its task fault; waiting for the tasks then throws.
    for k := 0 to |parallelJobs|
      invariant forall j :: 0 <= j < k ==> Parse(parallelJobs[j].ilCode).Value?
    {
      var scan := Parse(parallelJobs[k].ilCode);
      if scan.Raised? {
        r := Raised(scan.error);
        return;
      }
    }
    var results;
    results, arenas := ParseJobs(assembly, parallelJobs);
    Merge(assembly, results, parallelJobs);
    r, jobs, containers := Value(()), parallelJobs, results;
  }

  /** The parallel part: each job parsed into a new container of its own. */
  method ParseJobs(assembly: Assembly, parallelJobs: seq<Job>) returns (results: seq<ILClass>, ghost arenas: seq<seq<ILClass>>)
    requires Parsed(parallelJobs)
    ensures |results| == |parallelJobs| && |arenas| == |parallelJobs|
    ensures forall j :: 0 <= j < |results| ==> ContainerHolds(results[j], parallelJobs[j], assembly)
    ensures forall j :: 0 <= j < |results| ==> Holds(results[j], arenas[j], parallelJobs[j], assembly)
  {
    results, arenas := [], [];
    for k := 0 to |parallelJobs|
      invariant |results| == k && |arenas| == k
      invariant forall j :: 0 <= j < k ==> ContainerHolds(results[j], parallelJobs[j], assembly)
      invariant forall j :: 0 <= j < k ==> Holds(results[j], arenas[j], parallelJobs[j], assembly)
    {
      var result := new ILClass();
      ghost var objs := ParseClasses(assembly, result, parallelJobs[k].ilCode, parallelJobs[k].offset);
      MirroredHeaders(objs, result, parallelJobs[k], assembly);
      results, arenas := results + [result], arenas + [objs];
    }
  }

  /** Appends the classes of one job's container, in their order. */
  method MergeContainer(assembly: Assembly, container: ILClass, ghost classes: seq<ILClass>, ghost job: Job,
                        ghost before: seq<ILClass>, ghost done: seq<ClassHeader>)
    requires container.classes == classes
    requires Parse(job.ilCode).Value? && ContainerHolds(container, job, assembly)
    requires Merged(before, assembly.classes, done, assembly)
    modifies assembly
    ensures assembly.ilCode == old(assembly.ilCode)
    ensures Merged(before, assembly.classes, done + JobRoots(job), assembly)
    ensures assembly.classes == old(assembly.classes) + classes
  {
    ghost var hs := JobRoots(job);
    var list := container.classes;
    assert done + hs[..0] == done;
    for i := 0 to |list|
      invariant assembly.ilCode == old(assembly.ilCode)
      invariant Merged(before, assembly.classes, done + hs[..i], assembly)
      invariant assembly.classes == old(assembly.classes) + list[..i]
    {
      MergedGrow(before, assembly.classes, done + hs[..i], assembly, list[i], hs[i]);
      assert done + hs[..i] + [hs[i]] == done + hs[..i + 1];
      assembly.classes := assembly.classes + [list[i]];
      assert list[..i] + [list[i]] == list[..i + 1];
    }
    assert hs[..|list|] == hs && list[..|list|] == list;
  }

  /** The merge: every container's classes appended to the assembly's, in job order. */
  method Merge(assembly: Assembly, results: seq<ILClass>, parallelJobs: seq<Job>)
    requires Parsed(parallelJobs) && |results| == |parallelJobs|
    requires forall j :: 0 <= j < |results| ==> ContainerHolds(results[j], parallelJobs[j], assembly)
    modifies assembly
    ensures assembly.ilCode == old(assembly.ilCode)
    ensures Merged(old(assembly.classes), assembly.classes, Appended(parallelJobs), assembly)
    ensures assembly.classes == old(assembly.classes) + Gathered(results)
  {
    ghost var lists := seq(|results|, j requires 0 <= j < |results| reads results => results[j].classes);
    GatheredLists(results, lists);
    for k := 0 to |results|
      invariant assembly.ilCode == old(assembly.ilCode)
      invariant Merged(old(assembly.classes), assembly.classes, Appended(parallelJobs[..k]), assembly)
      invariant assembly.classes == old(assembly.classes) + Concat(lists[..k])
    {
      ghost var done := Appended(parallelJobs[..k]);
      AppendedStep(parallelJobs, k);
      ghost var merged := assembly.classes;
      MergeContainer(assembly, results[k], lists[k], parallelJobs[k], old(assembly.classes), done);
      ConcatStep(old(assembly.classes), merged, assembly.classes, lists, k);
    }
    assert lists[..|lists|] == lists && parallelJobs[..|parallelJobs|] == parallelJobs;
  }

  /** ILReader: the assemblies to read, each added once, in the order they were added. */
  class ILReader {
    var assemblies: seq<Assembly>

    /** Each assembly is in the list once: AddILCode always adds a new one. */
    ghost predicate Valid()
      reads this
    {
      Distinct(assemblies)
    }

    /** Assembly asm, whose classes were before, has been parsed: its classes are before followed
      * by the classes of its IL's jobs, by header and by object, the jobs' containers and arenas
      * holding their scans. */
    ghost predicate ParsedInto(asm: Assembly, before: seq<ILClass>, processorCount: nat,
                               jobs: seq<Job>, containers: seq<ILClass>, arenas: seq<seq<ILClass>>)
      reads asm, asm.classes, containers, set j, k | 0 <= j < |arenas| && 0 <= k < |arenas[j]| :: arenas[j][k]
    {
      && processorCount >= 1 && Expected(asm.ilCode, processorCount).Some?
      && Merged(before, asm.classes, Expected(asm.ilCode, processorCount).value, asm)
      && MergedTrees(before, asm.classes, asm.ilCode, processorCount, jobs, containers, arenas, asm)
    }

    /** The first n assemblies divide and scan without an exception. */
    ghost predicate AllSucceed(n: nat, processorCount: nat)
      requires n <= |assemblies| && processorCount >= 1
      reads this, assemblies
    {
      forall i :: 0 <= i < n ==> Expected(assemblies[i].ilCode, processorCount).Some?
    }

    constructor ()
      ensures assemblies == [] && Valid()
    {
      assemblies := [];
    }

    /** AddILCode: a new assembly, named by the given path, holding the given IL and no classes. */
    method AddILCode(assemblyName: string, ilCode: string)
      requires Valid()
      modifies this
      ensures Valid()
      ensures |assemblies| == |old(assemblies)| + 1 && assemblies[..|old(assemblies)|] == old(assemblies)
      ensures var a := assemblies[|old(assemblies)|];
              fresh(a) && a.filePath == assemblyName && a.ilCode == ilCode && a.classes == []
    {
      var a := new Assembly(assemblyName);
      a.ilCode := ilCode;
      assemblies := assemblies + [a];
    }

    /**
     * ParseAssemblies: every assembly in turn gets the classes of its IL
     * appended.  The first exception stops the loop: the assemblies before
     * the failing one (parsed of them) are parsed, the failing one and those
     * after it are left as they were.
     */
    method ParseAssemblies(processorCount: nat)
        returns (r: Outcome<()>, ghost parsed: nat,
                 ghost jobs: seq<seq<Job>>, ghost containers: seq<seq<ILClass>>, ghost arenas: seq<seq<seq<ILClass>>>)
      requires Valid() && processorCount >= 1
      modifies assemblies
      ensures forall j :: 0 <= j < |assemblies| ==> assemblies[j].ilCode == old(assemblies[j].ilCode)
      ensures parsed <= |assemblies| && AllSucceed(parsed, processorCount)
      ensures r.Value? <==> AllSucceed(|assemblies|, processorCount)
      ensures r.Value? <==> parsed == |assemblies|
      ensures r.Raised? ==> Expected(assemblies[parsed].ilCode, processorCount).None?
      ensures |jobs| == |containers| == |arenas| == |assemblies|
      ensures forall j :: 0 <= j < parsed ==>
                ParsedInto(assemblies[j], old(assemblies[j].classes), processorCount, jobs[j], containers[j], arenas[j])
      ensures forall j :: parsed <= j < |assemblies| ==> assemblies[j].classes == old(assemblies[j].classes)
    {
      jobs, containers, arenas := seq(|assemblies|, _ => []), seq(|assemblies|, _ => []), seq(|assemblies|, _ => []);
      ghost var before := seq(|assemblies|, j reads this, assemblies requires 0 <= j < |assemblies| => assemblies[j].classes);
      ghost var ils := seq(|assemblies|, j reads this, assemblies requires 0 <= j < |assemblies| => assemblies[j].ilCode);
      var k := 0;
      while k < |assemblies|
        invariant k <= |assemblies| && forall j :: 0 <= j < k ==> Expected(ils[j], processorCount).Some?
        invariant |jobs| == |containers| == |arenas| == |assemblies| == |before| == |ils|
        invariant forall j :: 0 <= j < |assemblies| ==> before[j] == old(assemblies[j].classes)
        invariant forall j :: 0 <= j < |assemblies| ==> ils[j] == old(assemblies[j].ilCode)
        invariant forall j :: 0 <= j < |assemblies| ==> assemblies[j].ilCode == ils[j]
        invariant forall j :: 0 <= j < k ==>
                    ParsedInto(assemblies[j], before[j], processorCount, jobs[j], containers[j], arenas[j])
        invariant forall j :: k <= j < |assemblies| ==> assemblies[j].classes == before[j]
      {
        r, jobs, containers, arenas := ParseNext(k, processorCount, before, jobs, containers, arenas);
        if r.Raised? {
          parsed := k;
          return;
        }
        k := k + 1;
      }
      r, parsed := Value(()), k;
    }

    /** One round of ParseAssemblies' loop: assembly k parsed, and its jobs, containers and
      * arenas recorded at k, the record of the assemblies before it kept. */
    method ParseNext(k: nat, processorCount: nat, ghost before: seq<seq<ILClass>>,
                     ghost jobs: seq<seq<Job>>, ghost containers: seq<seq<ILClass>>, ghost arenas: seq<seq<seq<ILClass>>>)
        returns (r: Outcome<()>,
                 ghost jobs': seq<seq<Job>>, ghost containers': seq<seq<ILClass>>, ghost arenas': seq<seq<seq<ILClass>>>)
      requires Valid() && processorCount >= 1 && k < |assemblies|
      requires |jobs| == |containers| == |arenas| == |assemblies| == |before|
      requires forall j :: 0 <= j < k ==>
                 ParsedInto(assemblies[j], before[j], processorCount, jobs[j], containers[j], arenas[j])
      requires assemblies[k].classes == before[k]
      modifies assemblies[k]
      ensures forall j :: 0 <= j < |assemblies| ==> assemblies[j].ilCode == old(assemblies[j].ilCode)
      ensures forall j :: 0 <= j < |assemblies| && j != k ==> assemblies[j].classes == old(assemblies[j].classes)
      ensures r.Value? <==> Expected(assemblies[k].ilCode, processorCount).Some?
      ensures r.Raised? ==> assemblies[k].classes == before[k]
      ensures |jobs'| == |containers'| == |arenas'| == |assemblies|
      ensures forall j :: 0 <= j < k ==>
                ParsedInto(assemblies[j], before[j], processorCount, jobs'[j], containers'[j], arenas'[j])
      ensures r.Value? ==>
                ParsedInto(assemblies[k], before[k], processorCount, jobs'[k], containers'[k], arenas'[k])
    {
      ghost var js, cs, ars;
      r, js, cs, ars := ParseAssembly(assemblies[k], processorCount);
      jobs', containers', arenas' := jobs[k := js], containers[k := cs], arenas[k := ars];
    }

    /** RefreshAssemblies: every assembly's classes are dropped, then all are parsed again. */
    method RefreshAssemblies(processorCount: nat)
        returns (r: Outcome<()>, ghost parsed: nat, ghost jobs: seq<seq<Job>>, ghost containers: seq<seq<ILClass>>, ghost arenas: seq<seq<seq<ILClass>>>)
      requires Valid() && processorCount >= 1
      modifies assemblies
      ensures forall j :: 0 <= j < |assemblies| ==> assemblies[j].ilCode == old(assemblies[j].ilCode)
      ensures parsed <= |assemblies| && AllSucceed(parsed, processorCount)
      ensures r.Value? <==> AllSucceed(|assemblies|, processorCount)
      ensures r.Value? <==> parsed == |assemblies|
      ensures r.Raised? ==> Expected(assemblies[parsed].ilCode, processorCount).None?
      ensures |jobs| == |containers| == |arenas| == |assemblies|
      ensures forall j :: 0 <= j < parsed ==>
                ParsedInto(assemblies[j], [], processorCount, jobs[j], containers[j], arenas[j])
      ensures forall j :: parsed <= j < |assemblies| ==> assemblies[j].classes == []
    {
      for k := 0 to |assemblies|
        invariant forall j :: 0 <= j < |assemblies| ==> assemblies[j].ilCode == old(assemblies[j].ilCode)
        invariant forall j :: 0 <= j < k ==> assemblies[j].classes == []
      {
        assemblies[k].classes := [];
      }
      r, parsed, jobs, containers, arenas := ParseAssemblies(processorCount);
    }
  }
}
