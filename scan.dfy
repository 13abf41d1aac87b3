/**
 * ParseClasses as a function: one step per character of a job's text, over an
 * arena of class nodes (a node's id is its creation order).  The open class
 * and its ancestors form the stack that the original keeps through ParentClass.
 */
module ClassScan {
  import opened Outcomes
  import opened NetString
  import opened KeywordMachine
  import opened NameExtraction

  /** Environment.NewLine on the platform the tools run on. */
  const NewLine := "\r\n"
  const MethodNameEndToken := "("
  const PropertyNameEndToken := "("

  /** A member as the parser records it: its name and where the name starts. */
  datatype Member = Member(name: string, nameStartIndex: int)

  /** A class node: its located name, its extent (endIndex 0 while open), its links and members. */
  datatype Node = Node(
    name: string,
    nameStartIndex: int,
    startIndex: int,
    endIndex: int,
    parent: Option<nat>,
    classes: seq<nat>,
    methods: seq<Member>,
    fields: seq<Member>,
    properties: seq<Member>,
    events: seq<Member>,
    brackets: int)

  /** The loop's variables: the nodes built so far, the container's list, the open class,
    * the newLine flag and the keyword machine. */
  datatype ScanState = ScanState(nodes: seq<Node>, roots: seq<nat>, current: Option<nat>, newLine: bool, fms: State)

  const InitialScan := ScanState([], [], None, false, Initial)

  predicate Increasing(s: seq<nat>)
  {
    forall i, j :: 0 <= i < j < |s| ==> s[i] < s[j]
  }

  predicate ParentsBefore(nodes: seq<Node>)
  {
    forall k :: 0 <= k < |nodes| && nodes[k].parent.Some? ==> nodes[k].parent.value < k
  }

  /** A class is listed under k exactly when it names k as its parent. */
  predicate Linked(nodes: seq<Node>)
  {
    && ParentsBefore(nodes)
    && (forall k, c {:trigger c in nodes[k].classes} :: 0 <= k < |nodes| && c in nodes[k].classes ==>
          c < |nodes| && nodes[c].parent == Some(k))
    && (forall c :: 0 <= c < |nodes| && nodes[c].parent.Some? ==> c in nodes[nodes[c].parent.value].classes)
  }

  /**
   * The nodes form a forest: a node is listed among its parent's classes
   * exactly when it names that parent, roots are exactly the parentless nodes,
   * and every list is in creation order.
   */
  predicate Forest(nodes: seq<Node>, roots: seq<nat>)
  {
    && Linked(nodes)
    && (forall c :: c in roots ==> c < |nodes| && nodes[c].parent.None?)
    && (forall c :: 0 <= c < |nodes| && nodes[c].parent.None? ==> c in roots)
    && Increasing(roots)
    && (forall k :: 0 <= k < |nodes| ==> Increasing(nodes[k].classes))
  }

  /** The open class and all its ancestors are still open (no EndIndex yet). */
  predicate OpenChain(nodes: seq<Node>, cur: Option<nat>)
    requires ParentsBefore(nodes)
    decreases if cur.Some? then cur.value + 1 else 0
  {
    cur.None? || (cur.value < |nodes| && nodes[cur.value].endIndex == 0 && OpenChain(nodes, nodes[cur.value].parent))
  }

  /** What a step needs: a machine that may be fed, and an open class that is a node. */
  predicate Steppable(st: ScanState)
  {
    && WellFormed(st.fms) && !st.fms.isFinal
    && (st.current.Some? ==> st.current.value < |st.nodes|)
  }

  /** The invariant of the loop's state. */
  predicate Sane(st: ScanState)
  {
    && Steppable(st)
    && Forest(st.nodes, st.roots)
    && OpenChain(st.nodes, st.current)
  }

  /** Changing nodes other than the chain's, or adding nodes, leaves an open chain open. */
  lemma {:induction false} OpenChainFrame(nodes: seq<Node>, nodes': seq<Node>, cur: Option<nat>)
    requires ParentsBefore(nodes) && ParentsBefore(nodes') && |nodes| <= |nodes'|
    requires cur.Some? ==> cur.value < |nodes|
    requires cur.Some? ==> forall k :: 0 <= k <= cur.value ==>
               nodes'[k].parent == nodes[k].parent && (nodes[k].endIndex == 0 ==> nodes'[k].endIndex == 0)
    requires OpenChain(nodes, cur)
    ensures OpenChain(nodes', cur)
    decreases if cur.Some? then cur.value + 1 else 0
  {
    if cur.Some? {
      var p := nodes[cur.value].parent;
      assert p.Some? ==> p.value < cur.value;
      OpenChainFrame(nodes, nodes', p);
    }
  }

  /** Changes that keep every node's links keep the forest. */
  lemma ForestFrame(nodes: seq<Node>, nodes': seq<Node>, roots: seq<nat>)
    requires Forest(nodes, roots) && |nodes'| == |nodes|
    requires forall k :: 0 <= k < |nodes| ==> nodes'[k].parent == nodes[k].parent && nodes'[k].classes == nodes[k].classes
    ensures Forest(nodes', roots)
  {
    forall c | 0 <= c < |nodes'| && nodes'[c].parent.Some?
      ensures c in nodes'[nodes'[c].parent.value].classes
    {
      assert c in nodes[nodes[c].parent.value].classes;
    }
  }

  /** A node appended to the arena, its id appended to its parent's classes. */
  function Adopt(nodes: seq<Node>, parent: Option<nat>, node: Node): seq<Node>
    requires parent.Some? ==> parent.value < |nodes|
  {
    var linked := if parent.None? then nodes
                  else nodes[parent.value := nodes[parent.value].(classes := nodes[parent.value].classes + [|nodes|])];
    linked + [node]
  }

  /** Adopting changes the parent's list and adds the node, and touches nothing else. */
  lemma AdoptShape(nodes: seq<Node>, parent: Option<nat>, node: Node)
    requires parent.Some? ==> parent.value < |nodes|
    ensures var r := Adopt(nodes, parent, node);
            && |r| == |nodes| + 1 && r[|nodes|] == node
            && (forall k :: 0 <= k < |nodes| && parent != Some(k) ==> r[k] == nodes[k])
            && (parent.Some? ==> r[parent.value] == nodes[parent.value].(classes := nodes[parent.value].classes + [|nodes|]))
  {
  }

  /** `.class` found: a new open node, appended to the open class or to the container. */
  function AddClass(st: ScanState, name: string, nameStart: int, start: int): ScanState
    requires Steppable(st)
  {
    var k := |st.nodes|;
    var node := Node(name, nameStart, start, 0, st.current, [], [], [], [], [], 0);
    ScanState(Adopt(st.nodes, st.current, node), if st.current.None? then st.roots + [k] else st.roots, Some(k), st.newLine, st.fms)
  }

  /** Adding a class keeps the forest, and the new open class's chain is open. */
  lemma AddClassSane(st: ScanState, name: string, nameStart: int, start: int)
    requires Sane(st)
    ensures Sane(AddClass(st, name, nameStart, start))
  {
    var r := AddClass(st, name, nameStart, start);
    AdoptShape(st.nodes, st.current, r.nodes[|st.nodes|]);
    if st.current.None? {
      AddRootForest(st.nodes, st.roots, r.nodes);
    } else {
      AddChildForest(st.nodes, st.roots, r.nodes, st.current.value);
    }
    OpenChainFrame(st.nodes, r.nodes, st.current);
  }

  /** A new parentless node, appended to the roots, keeps the forest. */
  lemma AddRootForest(nodes: seq<Node>, roots: seq<nat>, nodes': seq<Node>)
    requires Forest(nodes, roots)
    requires |nodes'| == |nodes| + 1 && nodes'[..|nodes|] == nodes
    requires nodes'[|nodes|].parent.None? && nodes'[|nodes|].classes == []
    ensures Forest(nodes', roots + [|nodes|])
  {
    var k := |nodes|;
    var roots' := roots + [k];
    assert forall c :: 0 <= c < k ==> nodes'[c] == nodes[c];
    forall c | 0 <= c < |nodes'| && nodes'[c].parent.Some?
      ensures c in nodes'[nodes'[c].parent.value].classes
    {
      assert c in nodes[nodes[c].parent.value].classes;
    }
    forall p, c | 0 <= p < |nodes'| && c in nodes'[p].classes
      ensures c < |nodes'| && nodes'[c].parent == Some(p)
    {
      assert c in nodes[p].classes;
    }
    forall c | c in roots'
      ensures c < |nodes'| && nodes'[c].parent.None?
    {
      if c != k {
        assert c in roots;
      }
    }
    forall c | 0 <= c < |nodes'| && nodes'[c].parent.None?
      ensures c in roots'
    {
      if c < k {
        assert c in roots;
      }
    }
    assert forall i :: 0 <= i < |roots| ==> roots[i] in roots;
    assert Increasing(roots');
  }

  /** The links after a new node with parent p is appended to p's classes. */
  lemma AddChildLinked(nodes: seq<Node>, nodes': seq<Node>, p: nat)
    requires Linked(nodes) && p < |nodes|
    requires |nodes'| == |nodes| + 1
    requires forall c :: 0 <= c < |nodes| && c != p ==> nodes'[c] == nodes[c]
    requires nodes'[p].parent == nodes[p].parent && nodes'[p].classes == nodes[p].classes + [|nodes|]
    requires nodes'[|nodes|].parent == Some(p) && nodes'[|nodes|].classes == []
    ensures Linked(nodes')
  {
    var k := |nodes|;
    forall c | 0 <= c < |nodes'| && nodes'[c].parent.Some?
      ensures c in nodes'[nodes'[c].parent.value].classes
    {
      if c < k {
        assert c in nodes[nodes[c].parent.value].classes;
      }
    }
    forall q, c | 0 <= q < |nodes'| && c in nodes'[q].classes
      ensures c < |nodes'| && nodes'[c].parent == Some(q)
    {
      if c != k {
        assert c in nodes[q].classes;
      }
    }
  }

  /** A new node with parent p, appended to p's classes, keeps the forest. */
  lemma AddChildForest(nodes: seq<Node>, roots: seq<nat>, nodes': seq<Node>, p: nat)
    requires Forest(nodes, roots) && p < |nodes|
    requires |nodes'| == |nodes| + 1
    requires forall c :: 0 <= c < |nodes| && c != p ==> nodes'[c] == nodes[c]
    requires nodes'[p].parent == nodes[p].parent && nodes'[p].classes == nodes[p].classes + [|nodes|]
    requires nodes'[|nodes|].parent == Some(p) && nodes'[|nodes|].classes == []
    ensures Forest(nodes', roots)
  {
    AddChildLinked(nodes, nodes', p);
    assert forall i :: 0 <= i < |nodes[p].classes| ==> nodes[p].classes[i] in nodes[p].classes;
    assert Increasing(nodes'[p].classes);
  }

  /** A member appended to the matching list of node c. */
  function AddMember(nodes: seq<Node>, c: nat, kind: StateId, m: Member): (r: seq<Node>)
    requires c < |nodes|
    ensures |r| == |nodes| && forall k :: 0 <= k < |nodes| && k != c ==> r[k] == nodes[k]
    ensures r[c].methods == nodes[c].methods + (if kind == Method then [m] else [])
    ensures r[c].properties == nodes[c].properties + (if kind == Property then [m] else [])
    ensures r[c].fields == nodes[c].fields + (if kind == Field then [m] else [])
    ensures r[c].events == nodes[c].events + (if kind == Event then [m] else [])
    ensures r[c] == nodes[c].(methods := r[c].methods, properties := r[c].properties,
                              fields := r[c].fields, events := r[c].events)
  {
    var n := nodes[c];
    nodes[c := match kind
               case Method => n.(methods := n.methods + [m])
               case Property => n.(properties := n.properties + [m])
               case Field => n.(fields := n.fields + [m])
               case Event => n.(events := n.events + [m])
               case _ => n]
  }

  /** SetEventName: from the last space before the line end up to the line end; the name keeps
    * that space. */
  function EventName(text: string, i: nat): (r: Outcome<Member>)
    requires i <= |text|
    ensures r.Raised? ==> r.error == ArgumentOutOfRange
  {
    var nl := IndexOf(text, NewLine, i);
    if nl == -1 then Raised(ArgumentOutOfRange)
    else
      var k := LastIndexOf(text, ' ', i, nl);
      if k == -1 then Raised(ArgumentOutOfRange)
      else Value(Member(text[k..nl], k))
  }

  /** An event's name runs from the last space of its line to the line break. */
  lemma EventNameIsLastWord(text: string, i: nat)
    requires i <= |text|
    ensures var r := EventName(text, i);
            r.Value? ==> exists k, nl :: && i <= k < nl && IsAt(text, NewLine, nl) && text[k] == ' '
                                         && r.value == Member(text[k..nl], k)
                                         && (forall j :: k < j < nl ==> text[j] != ' ')
                                         && (forall j :: i <= j < nl ==> !IsAt(text, NewLine, j))
  {
    var nl := IndexOf(text, NewLine, i);
    if nl != -1 {
      assert text[nl] == NewLine[0];
    }
  }

  /** SetFieldName: ExtractFieldName on the rest of the line, shifted back into the text. */
  function FieldName(text: string, i: nat): (r: Outcome<Member>)
    requires i <= |text|
    ensures r.Raised? <==> IndexOf(text, NewLine, i) == -1
  {
    var nl := IndexOf(text, NewLine, i);
    if nl == -1 then Raised(ArgumentOutOfRange)
    else
      var n := ExtractFieldName(text[i..nl]);
      Value(Member(n.name, i + n.start))
  }

  /** A field's name is ExtractFieldName of the rest of its line, placed back in the text. */
  lemma FieldNameOnLine(text: string, i: nat)
    requires i <= |text|
    ensures var r := FieldName(text, i);
            r.Value? ==> exists nl :: && i <= nl && IsAt(text, NewLine, nl)
                                      && (forall j :: i <= j < nl ==> !IsAt(text, NewLine, j))
                                      && var n := ExtractFieldName(text[i..nl]);
                                         r.value == Member(n.name, i + n.start)
  {
  }

  /** SetPropertyMethodName: a missing name is dereferenced, so it raises NullReference. */
  function MethodPropertyName(text: string, i: nat, endPhrase: string): (r: Outcome<Member>)
    requires |endPhrase| > 0 && i <= |text|
  {
    match GetMethodPropertyName(text, endPhrase, i)
    case Raised(x) => Raised(x)
    case Value(n) => if n.None? then Raised(NullReference) else Value(Member(n.value.name, n.value.start))
  }

  /** The name of the member whose keyword ended at i. */
  function MemberName(text: string, i: nat, kind: StateId): Outcome<Member>
    requires i <= |text|
  {
    if kind == Method then MethodPropertyName(text, i, MethodNameEndToken)
    else if kind == Property then MethodPropertyName(text, i, PropertyNameEndToken)
    else if kind == Field then FieldName(text, i)
    else EventName(text, i)
  }

  /** '}' of the open class: one level fewer; at zero, after a line break, the class closes
    * and its parent becomes the open class again. */
  function CloseBrace(st: ScanState, end: int): ScanState
    requires Steppable(st) && st.current.Some?
  {
    var c := st.current.value;
    var b := st.nodes[c].brackets - 1;
    if b == 0 && st.newLine then
      st.(nodes := st.nodes[c := st.nodes[c].(brackets := 0, endIndex := end)], current := st.nodes[c].parent)
    else
      st.(nodes := st.nodes[c := st.nodes[c].(brackets := b)])
  }

  /** Closing a class (a nonzero end index) hands the chain to its parent, which is open. */
  lemma CloseBraceSane(st: ScanState, end: int)
    requires Sane(st) && st.current.Some? && end != 0
    ensures Sane(CloseBrace(st, end))
  {
    var c := st.current.value;
    var r := CloseBrace(st, end);
    ForestFrame(st.nodes, r.nodes, st.roots);
    if r.current != st.current {
      OpenChainFrame(st.nodes, r.nodes, st.nodes[c].parent);
    } else {
      OpenChainFrame(st.nodes, r.nodes, st.current);
    }
  }

  /** '{' of the open class: one level more, and the newLine flag is cleared. */
  function OpenBrace(st: ScanState): ScanState
    requires Steppable(st) && st.current.Some?
  {
    var c := st.current.value;
    st.(nodes := st.nodes[c := st.nodes[c].(brackets := st.nodes[c].brackets + 1)], newLine := false)
  }

  lemma OpenBraceSane(st: ScanState)
    requires Sane(st) && st.current.Some?
    ensures Sane(OpenBrace(st))
  {
    ForestFrame(st.nodes, OpenBrace(st).nodes, st.roots);
    OpenChainFrame(st.nodes, OpenBrace(st).nodes, st.current);
  }

  /** A member of the open class recorded in the list of its kind. */
  function Record(st: ScanState, kind: StateId, m: Member): ScanState
    requires Steppable(st) && st.current.Some?
  {
    st.(nodes := AddMember(st.nodes, st.current.value, kind, m))
  }

  lemma RecordSane(st: ScanState, kind: StateId, m: Member)
    requires Sane(st) && st.current.Some?
    ensures Sane(Record(st, kind, m))
  {
    ForestFrame(st.nodes, Record(st, kind, m).nodes, st.roots);
    OpenChainFrame(st.nodes, Record(st, kind, m).nodes, st.current);
  }

  /**
   * Where the nodes sit in the job's text: each class
   * starts at an occurrence of ".class" met in the first n characters, classes
   * are created in text order, and a closed class ends just after a '}' that
   * follows its start.
   */
  predicate Located(text: string, n: nat, nodes: seq<Node>)
    requires n <= |text|
  {
    StartsAt(text, n, nodes) && NamedAfterKeyword(nodes) && InTextOrder(nodes) && EndsAt(text, n, nodes)
  }

  /** Each class's name starts after its ".class". */
  predicate NamedAfterKeyword(nodes: seq<Node>)
  {
    forall k :: 0 <= k < |nodes| ==> nodes[k].startIndex + 6 <= nodes[k].nameStartIndex
  }

  /** Each class starts at a ".class" wholly inside the first n characters. */
  predicate StartsAt(text: string, n: nat, nodes: seq<Node>)
    requires n <= |text|
  {
    forall k :: 0 <= k < |nodes| ==> ClassAt(text, n, nodes[k].startIndex)
  }

  predicate ClassAt(text: string, n: nat, s: int)
    requires n <= |text|
  {
    0 <= s && s + 6 <= n && IsAt(text, ".class", s)
  }

  predicate InTextOrder(nodes: seq<Node>)
  {
    forall j, k :: 0 <= j < k < |nodes| ==> nodes[j].startIndex < nodes[k].startIndex
  }

  /** Each closed class ends just after a '}' met in the first n characters. */
  predicate EndsAt(text: string, n: nat, nodes: seq<Node>)
    requires n <= |text|
  {
    forall k :: 0 <= k < |nodes| && nodes[k].endIndex != 0 ==> ClosedAt(text, n, nodes[k])
  }

  predicate ClosedAt(text: string, n: nat, node: Node)
    requires n <= |text|
  {
    0 < node.endIndex && node.startIndex < node.endIndex <= n && text[node.endIndex - 1] == '}'
  }

  /** The invariant of the loop after i characters: a sane state, a machine that agrees with
    * the text read, located nodes. */
  predicate Tracks(text: string, i: nat, st: ScanState)
    requires i <= |text|
  {
    Sane(st) && Consistent(st.fms, text[..i]) && Located(text, i, st.nodes)
  }

  /** A character that touches no start and no end keeps the nodes located. */
  lemma LocatedKept(text: string, i: nat, nodes: seq<Node>, nodes': seq<Node>)
    requires i < |text| && Located(text, i, nodes) && |nodes'| == |nodes|
    requires forall k :: 0 <= k < |nodes| ==>
               nodes'[k].startIndex == nodes[k].startIndex && nodes'[k].endIndex == nodes[k].endIndex
    requires forall k :: 0 <= k < |nodes| ==> nodes'[k].nameStartIndex == nodes[k].nameStartIndex
    ensures Located(text, i + 1, nodes')
  {
    forall k | 0 <= k < |nodes'|
      ensures ClassAt(text, i + 1, nodes'[k].startIndex)
    {
      assert ClassAt(text, i, nodes[k].startIndex);
    }
    forall k | 0 <= k < |nodes'| && nodes'[k].endIndex != 0
      ensures ClosedAt(text, i + 1, nodes'[k])
    {
      assert ClosedAt(text, i, nodes[k]);
    }
  }

  /** The '}' at i closing class c keeps the nodes located. */
  lemma LocatedClosed(text: string, i: nat, nodes: seq<Node>, nodes': seq<Node>, c: nat)
    requires i < |text| && Located(text, i, nodes) && |nodes'| == |nodes| && c < |nodes|
    requires text[i] == '}'
    requires forall k :: 0 <= k < |nodes| ==>
               nodes'[k].startIndex == nodes[k].startIndex && nodes'[k].nameStartIndex == nodes[k].nameStartIndex
    requires forall k :: 0 <= k < |nodes| && k != c ==> nodes'[k].endIndex == nodes[k].endIndex
    requires nodes'[c].endIndex == i + 1
    ensures Located(text, i + 1, nodes')
  {
    forall k | 0 <= k < |nodes'|
      ensures ClassAt(text, i + 1, nodes'[k].startIndex)
    {
      assert ClassAt(text, i, nodes[k].startIndex);
    }
    forall k | 0 <= k < |nodes'| && nodes'[k].endIndex != 0
      ensures ClosedAt(text, i + 1, nodes'[k])
    {
      if k != c {
        assert ClosedAt(text, i, nodes[k]);
      } else {
        assert ClassAt(text, i, nodes[k].startIndex);
      }
    }
  }

  /** A class whose ".class" ends at i keeps the nodes located. */
  lemma LocatedAdded(text: string, i: nat, nodes: seq<Node>, nodes': seq<Node>)
    requires i < |text| && Located(text, i, nodes) && |nodes'| == |nodes| + 1
    requires 5 <= i && IsAt(text, ".class", i - 5)
    requires forall k :: 0 <= k < |nodes| ==>
               nodes'[k].startIndex == nodes[k].startIndex && nodes'[k].endIndex == nodes[k].endIndex
    requires forall k :: 0 <= k < |nodes| ==> nodes'[k].nameStartIndex == nodes[k].nameStartIndex
    requires nodes'[|nodes|].startIndex == i - 5 && nodes'[|nodes|].endIndex == 0 && nodes'[|nodes|].nameStartIndex >= i + 1
    ensures Located(text, i + 1, nodes')
  {
    forall k | 0 <= k < |nodes'|
      ensures ClassAt(text, i + 1, nodes'[k].startIndex)
    {
      if k < |nodes| {
        assert ClassAt(text, i, nodes[k].startIndex);
      }
    }
    forall j, k | 0 <= j < k < |nodes'|
      ensures nodes'[j].startIndex < nodes'[k].startIndex
    {
      assert ClassAt(text, i, nodes[j].startIndex);
      if k < |nodes| {
        assert nodes[j].startIndex < nodes[k].startIndex;
      } else {
        // The earlier ".class" cannot overlap the one ending at i.
        assert nodes[j].startIndex + 6 <= i;
      }
    }
    forall k | 0 <= k < |nodes'| && nodes'[k].endIndex != 0
      ensures ClosedAt(text, i + 1, nodes'[k])
    {
      assert ClosedAt(text, i, nodes[k]);
    }
  }

  /** The machine fires on ".class" only after reading those six characters. */
  lemma ClassKeyword(text: string, i: nat, f: State)
    requires i < |text| && WellFormed(f) && Consistent(f, text[..i + 1]) && f.isFinal && f.id == Class
    ensures 5 <= i && IsAt(text, ".class", i - 5)
  {
    FinalMeansKeyword(f, text[..i + 1]);
    assert text[..i + 1][i + 1 - 6..] == text[i - 5..i + 1];
  }

  /**
   * One iteration of the loop of ParseClasses at index i of a job's text.
   * Positions are relative to the job; the original adds the job's offset in
   * the whole IL code, which the heap mirror adds back.  The exceptions are those the
   * original raises: a member before any class and a class line without a
   * space dereference null; the name helpers raise their own.
   */
  function Step(text: string, i: nat, st: ScanState): Outcome<ScanState>
    requires i < |text| && Steppable(st)
  {
    var f := Next(st.fms, text[i]);
    if f.isFinal && f.id == Class then ClassFound(text, i, st, f)
    else if f.isFinal then MemberFound(text, i, st, f)
    else Value(Plain(text, i, st, f))
  }

  /** ".class" just completed: the class's name is read from the rest of the line. */
  function ClassFound(text: string, i: nat, st: ScanState, f: State): Outcome<ScanState>
    requires i < |text| && Steppable(st) && WellFormed(f) && f.isFinal && f.id == Class
  {
    match ExtractClassName(text, i, IndexOf(text, NewLine, i))
    case Raised(x) => Raised(x)
    case Value(name) =>
      if name.None? then Raised(NullReference)
      else Value(AddClass(st, name.value.name, name.value.start, i - 5).(fms := Restarted(f)))
  }

  /** A member keyword just completed: its name goes to the open class's list. */
  function MemberFound(text: string, i: nat, st: ScanState, f: State): Outcome<ScanState>
    requires i < |text| && Steppable(st) && WellFormed(f) && f.isFinal && f.id != Class
  {
    match MemberName(text, i, f.id)
    case Raised(x) => Raised(x)
    case Value(m) =>
      if st.current.None? then Raised(NullReference)
      else Value(Record(st, f.id, m).(fms := Restarted(f)))
  }

  /** Any other character: line breaks and the braces of the open class. */
  function Plain(text: string, i: nat, st: ScanState, f: State): ScanState
    requires i < |text| && Steppable(st) && WellFormed(f) && !f.isFinal
  {
    if text[i] == '\n' then st.(newLine := true, fms := f)
    else if st.current.Some? && text[i] == '{' then OpenBrace(st).(fms := f)
    else if st.current.Some? && text[i] == '}' then CloseBrace(st, i + 1).(fms := f)
    else st.(fms := f)
  }

  /** A step keeps the forest and the open chain, and leaves the machine ready for the next
    * character. */
  lemma StepSane(text: string, i: nat, st: ScanState)
    requires i < |text| && Sane(st)
    ensures Step(text, i, st).Value? ==> Sane(Step(text, i, st).value)
  {
    var f := Next(st.fms, text[i]);
    if f.isFinal && f.id == Class {
      ClassFoundSane(text, i, st, f);
    } else if f.isFinal {
      MemberFoundSane(text, i, st, f);
    } else {
      PlainSane(text, i, st, f);
    }
  }

  lemma ClassFoundSane(text: string, i: nat, st: ScanState, f: State)
    requires i < |text| && Sane(st) && WellFormed(f) && f.isFinal && f.id == Class
    ensures ClassFound(text, i, st, f).Value? ==> Sane(ClassFound(text, i, st, f).value)
  {
    var name := ExtractClassName(text, i, IndexOf(text, NewLine, i));
    if name.Value? && name.value.Some? {
      var n := name.value.value;
      var r := AddClass(st, n.name, n.start, i - 5);
      AddClassSane(st, n.name, n.start, i - 5);
      assert Sane(r.(fms := Restarted(f)));
      assert ClassFound(text, i, st, f) == Value(r.(fms := Restarted(f)));
    }
  }

  lemma MemberFoundSane(text: string, i: nat, st: ScanState, f: State)
    requires i < |text| && Sane(st) && WellFormed(f) && f.isFinal && f.id != Class
    ensures MemberFound(text, i, st, f).Value? ==> Sane(MemberFound(text, i, st, f).value)
  {
    var m := MemberName(text, i, f.id);
    if m.Value? && st.current.Some? {
      RecordSane(st, f.id, m.value);
    }
  }

  lemma PlainSane(text: string, i: nat, st: ScanState, f: State)
    requires i < |text| && Sane(st) && WellFormed(f) && !f.isFinal
    ensures Sane(Plain(text, i, st, f))
  {
    if text[i] == '\n' {
    } else if st.current.Some? && text[i] == '{' {
      OpenBraceSane(st);
    } else if st.current.Some? && text[i] == '}' {
      CloseBraceSane(st, i + 1);
    }
  }

  /** Step by cases of what the recogniser saw. */
  lemma StepCases(text: string, i: nat, st: ScanState)
    requires i < |text| && Steppable(st)
    ensures var f := Next(st.fms, text[i]);
            && (f.isFinal && f.id == Class ==> Step(text, i, st) == ClassFound(text, i, st, f))
            && (f.isFinal && f.id != Class ==> Step(text, i, st) == MemberFound(text, i, st, f))
            && (!f.isFinal ==> Step(text, i, st) == Value(Plain(text, i, st, f)))
  {
  }

  /** A class found at i is located at the ".class" that ends at i. */
  lemma ClassFoundLocated(text: string, i: nat, st: ScanState, f: State)
    requires i < |text| && Steppable(st) && WellFormed(f) && f.isFinal && f.id == Class
    requires Consistent(f, text[..i + 1]) && Located(text, i, st.nodes)
    ensures ClassFound(text, i, st, f).Value? ==> Located(text, i + 1, ClassFound(text, i, st, f).value.nodes)
  {
    var name := ExtractClassName(text, i, IndexOf(text, NewLine, i));
    if name.Value? && name.value.Some? {
      var n := name.value.value;
      var r := AddClass(st, n.name, n.start, i - 5);
      AdoptShape(st.nodes, st.current, r.nodes[|st.nodes|]);
      ClassKeyword(text, i, f);
      ClassNameIsLastWord(text, i, IndexOf(text, NewLine, i));
      LocatedAdded(text, i, st.nodes, r.nodes);
      assert ClassFound(text, i, st, f) == Value(r.(fms := Restarted(f)));
    }
  }

  /** Recording a member moves no class. */
  lemma MemberFoundLocated(text: string, i: nat, st: ScanState, f: State)
    requires i < |text| && Steppable(st) && WellFormed(f) && f.isFinal && f.id != Class
    requires Located(text, i, st.nodes)
    ensures MemberFound(text, i, st, f).Value? ==> Located(text, i + 1, MemberFound(text, i, st, f).value.nodes)
  {
    var m := MemberName(text, i, f.id);
    if m.Value? && st.current.Some? {
      LocatedKept(text, i, st.nodes, Record(st, f.id, m.value).nodes);
    }
  }

  /** A brace either moves no class or closes the open one just after the '}'. */
  lemma PlainLocated(text: string, i: nat, st: ScanState, f: State)
    requires i < |text| && Steppable(st) && WellFormed(f) && !f.isFinal
    requires Located(text, i, st.nodes)
    ensures Located(text, i + 1, Plain(text, i, st, f).nodes)
  {
    var r := Plain(text, i, st, f);
    if text[i] == '}' && st.current.Some? && st.nodes[st.current.value].brackets == 1 && st.newLine {
      LocatedClosed(text, i, st.nodes, r.nodes, st.current.value);
    } else {
      LocatedKept(text, i, st.nodes, r.nodes);
    }
  }

  /** A step keeps the machine consistent with the text and the nodes located in it. */
  lemma StepTracks(text: string, i: nat, st: ScanState)
    requires i < |text| && Tracks(text, i, st) && Step(text, i, st).Value?
    ensures Tracks(text, i + 1, Step(text, i, st).value)
  {
    var f := Next(st.fms, text[i]);
    assert text[..i] + [text[i]] == text[..i + 1];
    NextConsistent(st.fms, text[..i], text[i]);
    StepSane(text, i, st);
    if f.isFinal && f.id == Class {
      ClassFoundLocated(text, i, st, f);
    } else if f.isFinal {
      MemberFoundLocated(text, i, st, f);
    } else {
      PlainLocated(text, i, st, f);
    }
  }

  /** Iteration i, unfolded once. */
  lemma ScanStep(text: string, i: nat)
    requires i < |text| && ScanTo(text, i).Value?
    ensures ScanTo(text, i + 1) == Step(text, i, ScanTo(text, i).value)
  {
    assert ScanTo(text, i + 1) == Advance(text, i);
  }

  /** The loop after its first n iterations (an exception ends the loop for good). */
  function ScanTo(text: string, n: nat): (r: Outcome<ScanState>)
    requires n <= |text|
    ensures r.Value? ==> Sane(r.value)
    decreases n, 0
  {
    if n == 0 then Value(InitialScan) else Advance(text, n - 1)
  }

  /** Iteration i on the state the first i iterations left. */
  function Advance(text: string, i: nat): (r: Outcome<ScanState>)
    requires i < |text|
    ensures r.Value? ==> Sane(r.value)
    decreases i, 1
  {
    match ScanTo(text, i)
    case Raised(x) => Raised(x)
    case Value(st) => StepSane(text, i, st); Step(text, i, st)
  }

  /** Once the loop has thrown it stays thrown: a run that completes completed every prefix. */
  lemma {:induction false} ScanPrefix(text: string, m: nat, n: nat)
    requires m <= n <= |text|
    requires ScanTo(text, n).Value?
    ensures ScanTo(text, m).Value?
    decreases n - m
  {
    if m < n {
      ScanPrefix(text, m + 1, n);
      assert ScanTo(text, m + 1) == Advance(text, m);
      assert Advance(text, m).Value? ==> ScanTo(text, m).Value?;
    }
  }

  /** sts lists the state after each prefix of the text. */
  predicate IsTrace(text: string, sts: seq<ScanState>)
  {
    |sts| == |text| + 1 && forall n :: 0 <= n <= |text| ==> ScanTo(text, n) == Value(sts[n])
  }

  /** A scan that completes on the whole text completed every prefix: the states it went
    * through, from the initial one to the final one. */
  ghost function Trace(text: string): (sts: seq<ScanState>)
    requires Parse(text).Value?
    ensures IsTrace(text, sts) && sts[0] == InitialScan && sts[|text|] == Parse(text).value
  {
    PrefixesScan(text);
    seq(|text| + 1, n requires 0 <= n <= |text| => ScanTo(text, n).value)
  }

  lemma PrefixesScan(text: string)
    requires Parse(text).Value?
    ensures forall n :: 0 <= n <= |text| ==> ScanTo(text, n).Value?
  {
    forall n | 0 <= n <= |text|
      ensures ScanTo(text, n).Value?
    {
      ScanPrefix(text, n, |text|);
    }
  }

  /** Consecutive states of a trace are one step apart. */
  lemma TraceStep(text: string, sts: seq<ScanState>, i: nat)
    requires IsTrace(text, sts) && i < |text|
    ensures Sane(sts[i]) && Step(text, i, sts[i]) == Value(sts[i + 1])
  {
    ScanStep(text, i);
  }

  /** After n characters of a completed scan the machine agrees with them and the classes
    * sit where ".class" and '}' were read. */
  lemma {:induction false} TraceTracks(text: string, sts: seq<ScanState>, n: nat)
    requires IsTrace(text, sts) && n <= |text|
    ensures Tracks(text, n, sts[n])
    decreases n
  {
    if n == 0 {
      assert ScanTo(text, 0) == Value(InitialScan);
    } else {
      TraceTracks(text, sts, n - 1);
      TraceStep(text, sts, n - 1);
      StepTracks(text, n - 1, sts[n - 1]);
    }
  }

  /** A completed scan leaves a forest whose classes sit at ".class" occurrences of the text,
    * in text order, each closed one ending just after a '}' that follows its start. */
  lemma ParseLocated(text: string)
    requires Parse(text).Value?
    ensures Forest(Parse(text).value.nodes, Parse(text).value.roots)
    ensures Located(text, |text|, Parse(text).value.nodes)
  {
    var sts := Trace(text);
    TraceTracks(text, sts, |text|);
  }

  /** The whole loop of ParseClasses. */
  function Parse(text: string): Outcome<ScanState>
  {
    ScanTo(text, |text|)
  }
}
