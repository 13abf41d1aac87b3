/**
 * ParseClasses on the heap: the loop builds ILClass objects and appends to
 * their lists in place.  Its ghost arena (the nodes of ClassScan, one object
 * per node) ties every object to the functional scan, so what is proved
 * about the scan holds of the tree the method builds.
 */
module Parser {
  import opened Outcomes
  import opened NetString
  import opened KeywordMachine
  import opened NameExtraction
  import opened ClassScan
  import opened Models

  /** The object standing for an optional arena id (null for none). */
  function ObjectOf(id: Option<nat>, objs: seq<ILClass>): ILClass?
  {
    if id.Some? && id.value < |objs| then objs[id.value] else null
  }

  predicate InArena(ids: seq<nat>, objs: seq<ILClass>)
  {
    forall j :: 0 <= j < |ids| ==> ids[j] < |objs|
  }

  /** A list of arena ids as the list of their objects. */
  function Objects(ids: seq<nat>, objs: seq<ILClass>): seq<ILClass>
    requires InArena(ids, objs)
  {
    seq(|ids|, j requires 0 <= j < |ids| => objs[ids[j]])
  }

  /** The ILUnit the parser appends for a member: its name start shifted by the job's offset,
    * owned by the assembly and by class o. */
  function UnitOf(m: Member, asm: Assembly, o: ILClass?, offset: nat): Unit
  {
    Unit(m.name, offset + m.nameStartIndex, asm, o)
  }

  function Units(ms: seq<Member>, asm: Assembly, o: ILClass, offset: nat): seq<Unit>
  {
    seq(|ms|, j requires 0 <= j < |ms| => UnitOf(ms[j], asm, o, offset))
  }

  /** A position of the job's text in the whole IL code; an end index of 0 (still open) stays 0. */
  function Shifted(p: int, offset: nat): int
  {
    if p == 0 then 0 else offset + p
  }

  /** Object o holds what arena node n says, positions shifted by the job's offset and links
    * resolved through objs. */
  predicate NodeIs(o: ILClass, n: Node, objs: seq<ILClass>, asm: Assembly, offset: nat)
    reads o
  {
    && o.name == n.name && o.nameStartIndex == offset + n.nameStartIndex
    && o.startIndex == offset + n.startIndex && o.endIndex == Shifted(n.endIndex, offset)
    && o.bracketsCounter == n.brackets
    && o.parentAssembly == asm
    && (n.parent.Some? ==> n.parent.value < |objs|)
    && o.parentClass == ObjectOf(n.parent, objs)
    && InArena(n.classes, objs) && o.classes == Objects(n.classes, objs)
    && o.methods == Units(n.methods, asm, o, offset)
    && o.fields == Units(n.fields, asm, o, offset)
    && o.properties == Units(n.properties, asm, o, offset)
    && o.events == Units(n.events, asm, o, offset)
  }

  /**
   * The heap mirrors the arena: one distinct object per node, each holding its
   * node, and the container's list ends with the objects of the roots.
   */
  predicate Mirrors(objs: seq<ILClass>, nodes: seq<Node>, roots: seq<nat>, container: ILClass, prefix: seq<ILClass>, asm: Assembly, offset: nat)
    reads set k | 0 <= k < |objs| :: objs[k]
    reads container
  {
    && |objs| == |nodes|
    && (forall j, k :: 0 <= j < k < |objs| ==> objs[j] != objs[k])
    && (forall k :: 0 <= k < |objs| ==> objs[k] != container)
    && (forall k {:trigger NodeIs(objs[k], nodes[k], objs, asm, offset)} :: 0 <= k < |objs| ==> NodeIs(objs[k], nodes[k], objs, asm, offset))
    && InArena(roots, objs)
    && container.classes == prefix + Objects(roots, objs)
  }

  /** Growing the arena leaves the objects of existing ids alone. */
  lemma ObjectsGrow(ids: seq<nat>, objs: seq<ILClass>, x: ILClass)
    requires InArena(ids, objs)
    ensures InArena(ids, objs + [x]) && Objects(ids, objs + [x]) == Objects(ids, objs)
  {
    assert forall j :: 0 <= j < |ids| ==> Objects(ids, objs + [x])[j] == Objects(ids, objs)[j];
  }

  /** A node's object still holds it once the arena grows. */
  lemma NodeIsGrown(o: ILClass, n: Node, objs: seq<ILClass>, asm: Assembly, offset: nat, x: ILClass)
    requires NodeIs(o, n, objs, asm, offset)
    ensures NodeIs(o, n, objs + [x], asm, offset)
  {
    ObjectsGrow(n.classes, objs, x);
  }

  /** The class branch: a new ILClass starting five characters before the keyword's last
    * letter, owned by the assembly and linked to the open class, and appended to that class's
    * list or else to the container's. */
  method AttachClass(assembly: Assembly, container: ILClass, currentClass: ILClass?, name: NameAt, i: int, offset: nat,
                     ghost nodes: seq<Node>, ghost roots: seq<nat>, ghost cur: Option<nat>,
                     ghost objs: seq<ILClass>, ghost prefix: seq<ILClass>)
    returns (c: ILClass)
    requires Mirrors(objs, nodes, roots, container, prefix, assembly, offset)
    requires (cur.Some? ==> cur.value < |objs|) && currentClass == ObjectOf(cur, objs)
    modifies container, currentClass
    ensures fresh(c)
    ensures Mirrors(objs + [c], Adopt(nodes, cur, Node(name.name, name.start, i - 5, 0, cur, [], [], [], [], [], 0)),
                    if cur.None? then roots + [|nodes|] else roots, container, prefix, assembly, offset)
  {
    c := new ILClass();
    c.startIndex := offset + i - 5;
    c.nameStartIndex := offset + name.start;
    c.name := name.name;
    c.parentAssembly := assembly;
    c.parentClass := currentClass;
    ghost var node := Node(name.name, name.start, i - 5, 0, cur, [], [], [], [], [], 0);
    assert Objects([], objs + [c]) == [] && Units([], assembly, c, offset) == [];
    assert NodeIs(c, node, objs + [c], assembly, offset);
    Link(assembly, container, currentClass, c, node, offset, nodes, roots, cur, objs, prefix);
  }

  /** The new class joins the list of its parent, or of the container when it has none. */
  method Link(assembly: Assembly, container: ILClass, currentClass: ILClass?, c: ILClass, ghost node: Node, ghost offset: nat,
              ghost nodes: seq<Node>, ghost roots: seq<nat>, ghost cur: Option<nat>,
              ghost objs: seq<ILClass>, ghost prefix: seq<ILClass>)
    requires Mirrors(objs, nodes, roots, container, prefix, assembly, offset)
    requires (cur.Some? ==> cur.value < |objs|) && currentClass == ObjectOf(cur, objs)
    requires c.parentClass == currentClass && NodeIs(c, node, objs + [c], assembly, offset)
    requires c != container && forall k :: 0 <= k < |objs| ==> objs[k] != c
    modifies container, currentClass
    ensures Mirrors(objs + [c], Adopt(nodes, cur, node), if cur.None? then roots + [|nodes|] else roots, container, prefix, assembly, offset)
  {
    MirrorsGrown(objs, nodes, assembly, offset, c);
    AdoptShape(nodes, cur, node);
    if c.parentClass != null {
      LinkToParent(assembly, container, c.parentClass, c, node, offset, nodes, roots, cur.value, objs, prefix);
    } else {
      LinkToContainer(assembly, container, c, node, offset, nodes, roots, objs, prefix);
    }
  }

  /** Every node's object still holds it once the arena grows. */
  lemma MirrorsGrown(objs: seq<ILClass>, nodes: seq<Node>, asm: Assembly, offset: nat, x: ILClass)
    requires |objs| == |nodes| && forall k :: 0 <= k < |objs| ==> NodeIs(objs[k], nodes[k], objs, asm, offset)
    ensures forall k :: 0 <= k < |objs| ==> NodeIs(objs[k], nodes[k], objs + [x], asm, offset)
  {
    forall k | 0 <= k < |objs|
      ensures NodeIs(objs[k], nodes[k], objs + [x], asm, offset)
    {
      NodeIsGrown(objs[k], nodes[k], objs, asm, offset, x);
    }
  }

  method LinkToParent(assembly: Assembly, container: ILClass, parent: ILClass, c: ILClass, ghost node: Node, ghost offset: nat,
                      ghost nodes: seq<Node>, ghost roots: seq<nat>, ghost p: nat,
                      ghost objs: seq<ILClass>, ghost prefix: seq<ILClass>)
    requires Mirrors(objs, nodes, roots, container, prefix, assembly, offset)
    requires p < |objs| && parent == objs[p] && NodeIs(c, node, objs + [c], assembly, offset)
    requires forall k :: 0 <= k < |objs| ==> NodeIs(objs[k], nodes[k], objs + [c], assembly, offset)
    requires c != container && forall k :: 0 <= k < |objs| ==> objs[k] != c
    modifies parent
    ensures Mirrors(objs + [c], Adopt(nodes, Some(p), node), roots, container, prefix, assembly, offset)
  {
    parent.classes := parent.classes + [c];
    ghost var objs' := objs + [c];
    ghost var nodes' := Adopt(nodes, Some(p), node);
    AdoptShape(nodes, Some(p), node);
    assert NodeIs(parent, nodes'[p], objs', assembly, offset) by {
      assert Objects(nodes'[p].classes, objs') == Objects(nodes[p].classes, objs') + [c];
    }
    ObjectsGrow(roots, objs, c);
  }

  method LinkToContainer(assembly: Assembly, container: ILClass, c: ILClass, ghost node: Node, ghost offset: nat,
                         ghost nodes: seq<Node>, ghost roots: seq<nat>,
                         ghost objs: seq<ILClass>, ghost prefix: seq<ILClass>)
    requires Mirrors(objs, nodes, roots, container, prefix, assembly, offset)
    requires NodeIs(c, node, objs + [c], assembly, offset)
    requires forall k :: 0 <= k < |objs| ==> NodeIs(objs[k], nodes[k], objs + [c], assembly, offset)
    requires c != container && forall k :: 0 <= k < |objs| ==> objs[k] != c
    modifies container
    ensures Mirrors(objs + [c], Adopt(nodes, None, node), roots + [|nodes|], container, prefix, assembly, offset)
  {
    container.classes := container.classes + [c];
    AdoptShape(nodes, None, node);
    ObjectsGrow(roots, objs, c);
    assert Objects(roots + [|nodes|], objs + [c]) == Objects(roots, objs) + [c];
  }

  /** A member branch: the ILUnit, its name start shifted by the offset, goes to the matching
    * list of the open class. */
  method AttachMember(assembly: Assembly, container: ILClass, currentClass: ILClass, kind: StateId, m: Member, offset: nat,
                      ghost st: ScanState, ghost objs: seq<ILClass>, ghost prefix: seq<ILClass>)
    requires Sane(st) && Mirrors(objs, st.nodes, st.roots, container, prefix, assembly, offset)
    requires st.current.Some? && st.current.value < |objs| && currentClass == objs[st.current.value]
    modifies currentClass
    ensures var r := Record(st, kind, m);
            Mirrors(objs, r.nodes, r.roots, container, prefix, assembly, offset)
  {
    var u := UnitOf(m, assembly, currentClass, offset);
    if kind == Method {
      currentClass.methods := currentClass.methods + [u];
    } else if kind == Property {
      currentClass.properties := currentClass.properties + [u];
    } else if kind == Field {
      currentClass.fields := currentClass.fields + [u];
    } else if kind == Event {
      currentClass.events := currentClass.events + [u];
    }
    ghost var c := st.current.value;
    ghost var r := Record(st, kind, m);
    ghost var n, n' := st.nodes[c], r.nodes[c];
    assert old(NodeIs(currentClass, n, objs, assembly, offset));
    UnitsAppend(n.methods, kind == Method, m, assembly, currentClass, offset);
    UnitsAppend(n.properties, kind == Property, m, assembly, currentClass, offset);
    UnitsAppend(n.fields, kind == Field, m, assembly, currentClass, offset);
    UnitsAppend(n.events, kind == Event, m, assembly, currentClass, offset);
    assert NodeIs(currentClass, n', objs, assembly, offset);
    forall k | 0 <= k < |objs| && k != c
      ensures NodeIs(objs[k], r.nodes[k], objs, assembly, offset)
    {
      assert old(NodeIs(objs[k], st.nodes[k], objs, assembly, offset));
    }
  }

  /** Appending a member, or nothing, to a node's list appends its ILUnit, or nothing. */
  lemma UnitsAppend(ms: seq<Member>, add: bool, m: Member, asm: Assembly, o: ILClass, offset: nat)
    ensures Units(ms + (if add then [m] else []), asm, o, offset) == Units(ms, asm, o, offset) + (if add then [UnitOf(m, asm, o, offset)] else [])
  {
    if !add {
      assert ms + [] == ms;
    }
  }

  /** '{' of the open class: its counter goes up. */
  method OpenBraceObject(assembly: Assembly, container: ILClass, currentClass: ILClass, offset: nat,
                         ghost st: ScanState, ghost objs: seq<ILClass>, ghost prefix: seq<ILClass>)
    requires Sane(st) && Mirrors(objs, st.nodes, st.roots, container, prefix, assembly, offset)
    requires st.current.Some? && st.current.value < |objs| && currentClass == objs[st.current.value]
    modifies currentClass
    ensures var r := OpenBrace(st);
            Mirrors(objs, r.nodes, r.roots, container, prefix, assembly, offset)
  {
    currentClass.bracketsCounter := currentClass.bracketsCounter + 1;
    ghost var r := OpenBrace(st);
    ghost var c := st.current.value;
    assert old(NodeIs(currentClass, st.nodes[c], objs, assembly, offset));
    assert NodeIs(currentClass, r.nodes[c], objs, assembly, offset);
    forall k | 0 <= k < |objs| && k != c
      ensures NodeIs(objs[k], r.nodes[k], objs, assembly, offset)
    {
      assert old(NodeIs(objs[k], st.nodes[k], objs, assembly, offset));
    }
  }

  /** '}' at i of the open class: its counter goes down; at zero after a line break it ends
    * just after the brace and its parent (possibly null) becomes the open class. */
  method CloseBraceObject(assembly: Assembly, container: ILClass, currentClass: ILClass, newLine: bool, i: nat, offset: nat,
                          ghost st: ScanState, ghost objs: seq<ILClass>, ghost prefix: seq<ILClass>)
    returns (open: ILClass?)
    requires Sane(st) && Mirrors(objs, st.nodes, st.roots, container, prefix, assembly, offset)
    requires st.current.Some? && st.current.value < |objs| && currentClass == objs[st.current.value]
    requires newLine == st.newLine
    modifies currentClass
    ensures var r := CloseBrace(st, i + 1);
            && Mirrors(objs, r.nodes, r.roots, container, prefix, assembly, offset)
            && (r.current.Some? ==> r.current.value < |objs|) && open == ObjectOf(r.current, objs)
  {
    currentClass.bracketsCounter := currentClass.bracketsCounter - 1;
    open := currentClass;
    if currentClass.bracketsCounter == 0 && newLine {
      currentClass.endIndex := offset + i + 1;
      open := currentClass.parentClass;
    }
    ghost var r := CloseBrace(st, i + 1);
    ghost var c := st.current.value;
    assert old(NodeIs(currentClass, st.nodes[c], objs, assembly, offset));
    assert NodeIs(currentClass, r.nodes[c], objs, assembly, offset);
    forall k | 0 <= k < |objs| && k != c
      ensures NodeIs(objs[k], r.nodes[k], objs, assembly, offset)
    {
      assert old(NodeIs(objs[k], st.nodes[k], objs, assembly, offset));
    }
  }

  /** The loop's variables agree with arena state st: the heap mirrors it, the open class is
    * the object of its open node and the flag is its flag. */
  predicate Agrees(objs: seq<ILClass>, st: ScanState, container: ILClass, prefix: seq<ILClass>, asm: Assembly, offset: nat,
                   currentClass: ILClass?, newLine: bool)
    reads set k | 0 <= k < |objs| :: objs[k]
    reads container
  {
    && Mirrors(objs, st.nodes, st.roots, container, prefix, asm, offset)
    && (st.current.Some? ==> st.current.value < |objs|) && currentClass == ObjectOf(st.current, objs)
    && newLine == st.newLine
  }

  /** The iteration at i when ".class" has just been read. */
  method ClassStep(assembly: Assembly, container: ILClass, currentClass: ILClass?, text: string, offset: nat, i: nat,
                   ghost st: ScanState, ghost objs: seq<ILClass>, ghost prefix: seq<ILClass>)
    returns (c: ILClass, ghost objs': seq<ILClass>)
    requires i < |text| && Sane(st)
    requires Next(st.fms, text[i]).isFinal && Next(st.fms, text[i]).id == Class
    requires ClassFound(text, i, st, Next(st.fms, text[i])).Value?
    requires Agrees(objs, st, container, prefix, assembly, offset, currentClass, st.newLine)
    modifies container, currentClass
    ensures fresh(c) && objs' == objs + [c]
    ensures var next := ClassFound(text, i, st, Next(st.fms, text[i])).value;
            && Agrees(objs', next, container, prefix, assembly, offset, c, st.newLine)
            && next.fms == Restarted(Next(st.fms, text[i]))
  {
    var newLineIndex := IndexOf(text, NewLine, i);
    var name := ExtractClassName(text, i, newLineIndex).value.value;
    c := AttachClass(assembly, container, currentClass, name, i, offset, st.nodes, st.roots, st.current, objs, prefix);
    objs' := objs + [c];
  }

  /** The iteration at i when a member keyword has just been read. */
  method MemberStep(assembly: Assembly, container: ILClass, currentClass: ILClass?, text: string, offset: nat, i: nat,
                    kind: StateId, ghost st: ScanState, ghost objs: seq<ILClass>, ghost prefix: seq<ILClass>)
    requires i < |text| && Sane(st)
    requires kind == Next(st.fms, text[i]).id && Next(st.fms, text[i]).isFinal && kind != Class
    requires MemberFound(text, i, st, Next(st.fms, text[i])).Value?
    requires Agrees(objs, st, container, prefix, assembly, offset, currentClass, st.newLine)
    modifies currentClass
    ensures var next := MemberFound(text, i, st, Next(st.fms, text[i])).value;
            && Agrees(objs, next, container, prefix, assembly, offset, currentClass, st.newLine)
            && next.fms == Restarted(Next(st.fms, text[i]))
  {
    var m := MemberName(text, i, kind).value;
    AttachMember(assembly, container, currentClass, kind, m, offset, st, objs, prefix);
  }

  /** The iteration at i when no keyword completed: line breaks and the open class's braces. */
  method PlainStep(assembly: Assembly, container: ILClass, currentClass: ILClass?, newLine: bool, text: string, offset: nat, i: nat,
                   ghost st: ScanState, ghost objs: seq<ILClass>, ghost prefix: seq<ILClass>)
    returns (open: ILClass?, seenNewLine: bool)
    requires i < |text| && Sane(st)
    requires !Next(st.fms, text[i]).isFinal
    requires Agrees(objs, st, container, prefix, assembly, offset, currentClass, newLine)
    modifies currentClass
    ensures var next := Plain(text, i, st, Next(st.fms, text[i]));
            && Agrees(objs, next, container, prefix, assembly, offset, open, seenNewLine)
            && next.fms == Next(st.fms, text[i])
  {
    open, seenNewLine := currentClass, newLine;
    if text[i] == '\n' {
      seenNewLine := true;
    } else if currentClass != null && text[i] == '{' {
      OpenBraceObject(assembly, container, currentClass, offset, st, objs, prefix);
      seenNewLine := false;
    } else if currentClass != null && text[i] == '}' {
      open := CloseBraceObject(assembly, container, currentClass, newLine, i, offset, st, objs, prefix);
    }
  }

  /** What the loop does once the recogniser has read text[i]: isFinal and kind are the
    * recogniser's flag and state. */
  method Act(assembly: Assembly, container: ILClass, currentClass: ILClass?, newLine: bool,
             text: string, offset: nat, i: nat, isFinal: bool, kind: StateId,
             ghost st: ScanState, ghost objs: seq<ILClass>, ghost prefix: seq<ILClass>)
    returns (open: ILClass?, seenNewLine: bool, ghost objs': seq<ILClass>)
    requires i < |text| && Sane(st) && Step(text, i, st).Value?
    requires isFinal == Next(st.fms, text[i]).isFinal && kind == Next(st.fms, text[i]).id
    requires Agrees(objs, st, container, prefix, assembly, offset, currentClass, newLine)
    modifies container, currentClass
    ensures var next := Step(text, i, st).value;
            && Agrees(objs', next, container, prefix, assembly, offset, open, seenNewLine)
            && next.fms == (var f := Next(st.fms, text[i]); if isFinal then Restarted(f) else f)
    ensures |objs| <= |objs'| && objs'[..|objs|] == objs
    ensures forall k :: |objs| <= k < |objs'| ==> fresh(objs'[k])
  {
    StepCases(text, i, st);
    open, seenNewLine, objs' := currentClass, newLine, objs;
    if isFinal {
      if kind == Class {
        open, objs' := ClassStep(assembly, container, currentClass, text, offset, i, st, objs, prefix);
      } else {
        MemberStep(assembly, container, currentClass, text, offset, i, kind, st, objs, prefix);
      }
    } else {
      open, seenNewLine := PlainStep(assembly, container, currentClass, newLine, text, offset, i, st, objs, prefix);
    }
  }

  /** One iteration of the loop of ParseClasses: step the recogniser, act on what it saw, and
    * restart it after a keyword. */
  method Iterate(assembly: Assembly, container: ILClass, fms: Machine, currentClass: ILClass?, newLine: bool,
                 text: string, offset: nat, i: nat, ghost sts: seq<ScanState>, ghost objs: seq<ILClass>, ghost prefix: seq<ILClass>)
    returns (open: ILClass?, seenNewLine: bool, ghost objs': seq<ILClass>)
    requires IsTrace(text, sts) && i < |text|
    requires fms.Current() == sts[i].fms
    requires Agrees(objs, sts[i], container, prefix, assembly, offset, currentClass, newLine)
    modifies fms, container, currentClass
    ensures var next := sts[i + 1];
            && fms.Current() == next.fms
            && Agrees(objs', next, container, prefix, assembly, offset, open, seenNewLine)
    ensures |objs| <= |objs'| && objs'[..|objs|] == objs
    ensures forall k :: |objs| <= k < |objs'| ==> fresh(objs'[k])
  {
    TraceStep(text, sts, i);
    fms.GoToNextState(text[i]);
    open, seenNewLine, objs' := Act(assembly, container, currentClass, newLine, text, offset, i, fms.isFinal, fms.stateId, sts[i], objs, prefix);
    if fms.isFinal {
      fms.Restart();
    }
  }

  /**
   * ParseClasses(assembly, classContainer, ilCode, offset).  The original
   * throws on malformed text (a member before any class, a class line without a
   * space, a method name with no terminator after it), leaving a half-built
   * tree; the caller must hand it text on which the scan completes.
   */
  method ParseClasses(assembly: Assembly, container: ILClass, text: string, offset: nat) returns (ghost objs: seq<ILClass>)
    requires Parse(text).Value?
    modifies container
    ensures var st := Parse(text).value;
            Mirrors(objs, st.nodes, st.roots, container, old(container.classes), assembly, offset)
    ensures forall k :: 0 <= k < |objs| ==> fresh(objs[k])
  {
    var newLine := false;
    var fms := new Machine();
    var currentClass: ILClass? := null;
    ghost var sts := Trace(text);
    ghost var prefix := container.classes;
    objs := [];
    var i := 0;
    while i < |text|
      invariant i <= |text|
      invariant fresh(fms) && fms.Current() == sts[i].fms
      invariant Agrees(objs, sts[i], container, prefix, assembly, offset, currentClass, newLine)
      invariant forall k :: 0 <= k < |objs| ==> fresh(objs[k])
    {
      ghost var objs0 := objs;
      currentClass, newLine, objs := Iterate(assembly, container, fms, currentClass, newLine, text, offset, i, sts, objs, prefix);
      assert forall k :: 0 <= k < |objs| ==> k < |objs0| || fresh(objs[k]);
      i := i + 1;
    }
  }
}
