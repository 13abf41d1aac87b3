/**
 * The symbol tree: assemblies own a forest of classes; a class is itself a
 * named, located unit that contains nested classes and members.
 */
module Models {
  import Paths

  /** ILUnit: a member's name, the offset of that name, and its owners. */
  datatype Unit = Unit(name: string, nameStartIndex: int, parentAssembly: Assembly, parentClass: ILClass?)

  /**
   * ILClass: a class node.  The parser sets the indices, appends to the five
   * child lists and moves the brace counter; nothing else writes them.
   */
  class ILClass {
    var name: string
    var nameStartIndex: int
    var parentAssembly: Assembly?
    var parentClass: ILClass?
    var startIndex: int
    var endIndex: int
    var classes: seq<ILClass>
    var methods: seq<Unit>
    var fields: seq<Unit>
    var properties: seq<Unit>
    var events: seq<Unit>
    var bracketsCounter: int

    /** A new node: empty child lists, a zero brace counter, no owners yet. */
    constructor ()
      ensures classes == [] && methods == [] && fields == [] && properties == [] && events == []
      ensures bracketsCounter == 0 && startIndex == 0 && endIndex == 0
      ensures name == [] && nameStartIndex == 0 && parentClass == null && parentAssembly == null
    {
      name := [];
      nameStartIndex := 0;
      parentAssembly := null;
      parentClass := null;
      startIndex := 0;
      endIndex := 0;
      classes := [];
      methods := [];
      fields := [];
      properties := [];
      events := [];
      bracketsCounter := 0;
    }
  }

  /** No assembly appears twice in the list. */
  predicate Distinct(assemblies: seq<Assembly>)
  {
    forall i, j :: 0 <= i < j < |assemblies| ==> assemblies[i] != assemblies[j]
  }

  /** Assembly: identified by its path, holding its IL text and its top-level classes. */
  class Assembly {
    const filePath: string
    var classes: seq<ILClass>
    var ilCode: string

    /** The IL text starts empty (null in the original) until the reader assigns it. */
    constructor (filePath: string)
      ensures this.filePath == filePath && classes == [] && ilCode == []
    {
      this.filePath := filePath;
      classes := [];
      ilCode := [];
    }

    /** The last component of the path. */
    function FileName(): string
    {
      Paths.FileName(filePath)
    }

    /** The last component of the path without its extension. */
    function FileNameWithoutExt(): (r: string)
      ensures r == FileName() || (|r| < |FileName()| && r == FileName()[..|r|] && FileName()[|r|] == '.')
    {
      Paths.FileNameParts(filePath);
      Paths.ExtensionShape(filePath);
      Paths.FileNameWithoutExt(filePath)
    }
  }
}
