/**
 * The obfuscator: every top-level class of every assembly is renamed to a
 * short generated name throughout the IL text of all the assemblies, and the
 * renames are recorded per assembly.  Recompiling then needs three decisions:
 * which resource files follow their class's rename, which arguments ilasm
 * gets, and whether every assembly came out of the compiler.
 */
module Obfuscation {
  import opened Outcomes
  import opened NetString
  import Paths
  import opened Models
  import Reader
  import opened Naming
  import opened Lists

  /** The directory the recompiled assemblies are moved to. */
  const ObfuscatedDirectory := "Obfuscated"

  /** Obfuscator: the name generator's seed and the renames made so far. */
  class Obfuscator {
    var currentName: string
    var obfuscationMap: RenameMap
    /** How many names the generator has handed out. */
    ghost var calls: nat

    /** The seed has been bumped once per name handed out. */
    ghost predicate Valid()
      reads this
    {
      currentName == SeedAt(calls)
    }

    /** The seed starts at "a"; no map exists before the first run (an empty one here). */
    constructor ()
      ensures Valid() && calls == 0 && currentName == "a" && obfuscationMap == map[]
    {
      currentName := "a";
      obfuscationMap := map[];
      calls := 0;
    }

    /**
     * GenerateNewName: bumps the seed and returns it followed by the old
     * name's generic-arity suffix.
     */
    method GenerateNewName(oldName: string) returns (r: string)
      requires Valid()
      modifies this
      ensures Valid() && calls == old(calls) + 1
      ensures obfuscationMap == old(obfuscationMap)
      ensures r == NewName(calls, oldName)
    {
      currentName := Bump(currentName);
      calls := calls + 1;
      r := currentName + AritySuffix(oldName);
    }

    /**
     * ObfuscateName: records the rename under the owning assembly's file
     * name, then replaces the old name by the new one in the IL text of every
     * assembly.  Class trees are left as they are.
     */
    method ObfuscateName(assemblies: seq<Assembly>, assembly: Assembly, oldName: string, newName: string)
      requires Distinct(assemblies) && |oldName| > 0
      modifies this, assemblies`ilCode
      ensures obfuscationMap == Record(old(obfuscationMap), assembly.FileName(), oldName, newName)
      ensures currentName == old(currentName) && calls == old(calls)
      ensures Codes(assemblies) == ReplaceAll(old(Codes(assemblies)), oldName, newName)
    {
      CodesAt(assemblies);
      ghost var before := Codes(assemblies);
      var file := assembly.FileName();
      var inner := if file in obfuscationMap then obfuscationMap[file] else map[];
      obfuscationMap := obfuscationMap[file := inner[oldName := newName]];

      for i := 0 to |assemblies|
        invariant obfuscationMap == Record(old(obfuscationMap), file, oldName, newName)
        invariant currentName == old(currentName) && calls == old(calls)
        invariant forall k :: 0 <= k < i ==> assemblies[k].ilCode == Replace(old(assemblies[k].ilCode), oldName, newName)
        invariant forall k :: i <= k < |assemblies| ==> assemblies[k].ilCode == old(assemblies[k].ilCode)
      {
        var a := assemblies[i];
        a.ilCode := Replace(a.ilCode, oldName, newName);
      }
      CodesAt(assemblies);
      ReplaceAllAt(before, oldName, newName);
    }

    /**
     * The inner loop of Obfuscate: renames the classes `names` of one
     * assembly, longest name first, each to a freshly generated name.
     */
    method ObfuscateAssembly(assemblies: seq<Assembly>, assembly: Assembly, names: seq<string>)
      requires Valid() && Distinct(assemblies)
      requires NonEmpty(names)
      modifies this, assemblies`ilCode
      ensures Valid() && calls == old(calls) + |names|
      ensures var renames := Renames(Owner(assembly.FileName(), names), old(calls));
              && obfuscationMap == RecordAll(old(obfuscationMap), renames)
              && Codes(assemblies) == ApplyAll(old(Codes(assemblies)), renames)
    {
      var sorted := LongestFirst(names);
      SortedNamed(Owner(assembly.FileName(), names));
      ghost var file := assembly.FileName();
      ghost var codes := Codes(assemblies);
      ApplyAllNone(codes);
      ghost var done: seq<Rename> := [];
      for j := 0 to |sorted|
        invariant Valid() && calls == old(calls) + j
        invariant done == RenamesInOrder(file, sorted[..j], old(calls))
        invariant obfuscationMap == RecordAll(old(obfuscationMap), done)
        invariant Codes(assemblies) == ApplyAll(codes, done)
      {
        var newName := GenerateNewName(sorted[j]);
        ObfuscateName(assemblies, assembly, sorted[j], newName);
        ghost var r := Rename(file, sorted[j], newName);
        RenamesInOrderSnoc(file, sorted, old(calls), j, calls);
        RecordAllSnoc(old(obfuscationMap), done, r);
        ApplyAllSnoc(codes, done, r);
        done := done + [r];
      }
      assert sorted[..|sorted|] == sorted;
    }

    /**
     * One pass of Obfuscate's outer loop: the classes of the `i`-th assembly
     * are renamed, so the renames made so far grow from the plan of the first
     * `i` owners to the plan of the first `i + 1`.
     */
    method ObfuscateNext(assemblies: seq<Assembly>, lists: seq<seq<string>>, ghost owners: seq<Owner>, i: nat,
                         ghost first: nat, ghost codes: seq<string>)
      requires Valid() && Distinct(assemblies)
      requires |lists| == |assemblies| == |owners| && Named(owners) && i < |assemblies|
      requires owners[i] == Owner(assemblies[i].FileName(), lists[i])
      requires calls == first + |PlanUpTo(owners, i, first)|
      requires obfuscationMap == MapOf(PlanUpTo(owners, i, first))
      requires Codes(assemblies) == ApplyAll(codes, PlanUpTo(owners, i, first))
      modifies this, assemblies`ilCode
      ensures Valid() && calls == first + |PlanUpTo(owners, i + 1, first)|
      ensures obfuscationMap == MapOf(PlanUpTo(owners, i + 1, first))
      ensures Codes(assemblies) == ApplyAll(codes, PlanUpTo(owners, i + 1, first))
    {
      ghost var done := PlanUpTo(owners, i, first);
      ghost var renames := Renames(owners[i], calls);
      PlanUpToSnoc(owners, first, i);
      PlanStepIs(done, owners[i], first, calls);
      ObfuscateAssembly(assemblies, assemblies[i], lists[i]);
      RecordAllAppend(map[], done, renames);
      ApplyAllAppend(codes, done, renames);
    }

    /**
     * Obfuscate's loop, over the class names read from the assemblies before
     * any renaming: the map holds exactly the plan's renames, and every
     * assembly's text goes through every rename of the plan, in order.
     */
    method ObfuscateOwners(assemblies: seq<Assembly>, lists: seq<seq<string>>)
      requires Valid() && Distinct(assemblies)
      requires |lists| == |assemblies| && Named(Owners(assemblies, lists))
      modifies this, assemblies`ilCode
      ensures Valid() && calls == old(calls) + |Plan(Owners(assemblies, lists), old(calls))|
      ensures obfuscationMap == MapOf(Plan(Owners(assemblies, lists), old(calls)))
      ensures Codes(assemblies) == ApplyAll(old(Codes(assemblies)), Plan(Owners(assemblies, lists), old(calls)))
    {
      ghost var owners := Owners(assemblies, lists);
      forall k | 0 <= k < |assemblies|
        ensures owners[k] == Owner(assemblies[k].FileName(), lists[k])
      {
        OwnerAt(assemblies, lists, k);
      }
      obfuscationMap := map[];
      ObfuscateAll(assemblies, lists, owners);
    }

    /** The loop itself, starting from an empty map, over the owners of the assemblies. */
    method ObfuscateAll(assemblies: seq<Assembly>, lists: seq<seq<string>>, ghost owners: seq<Owner>)
      requires Valid() && Distinct(assemblies) && obfuscationMap == map[]
      requires |lists| == |assemblies| == |owners| && Named(owners)
      requires forall k :: 0 <= k < |assemblies| ==> owners[k] == Owner(assemblies[k].FileName(), lists[k])
      modifies this, assemblies`ilCode
      ensures Valid() && calls == old(calls) + |Plan(owners, old(calls))|
      ensures obfuscationMap == MapOf(Plan(owners, old(calls)))
      ensures Codes(assemblies) == ApplyAll(old(Codes(assemblies)), Plan(owners, old(calls)))
    {
      ghost var first := calls;
      ghost var codes := Codes(assemblies);
      ApplyAllNone(codes);
      for i := 0 to |assemblies|
        invariant Valid()
        invariant calls == first + |PlanUpTo(owners, i, first)|
        invariant obfuscationMap == MapOf(PlanUpTo(owners, i, first))
        invariant Codes(assemblies) == ApplyAll(codes, PlanUpTo(owners, i, first))
      {
        ObfuscateNext(assemblies, lists, owners, i, first, codes);
      }
    }

    /**
     * Obfuscate, up to recompilation: starts a fresh map, then renames the
     * top-level classes assembly by assembly, longest name first.  Every
     * assembly's text goes through every rename of the plan, in order.
     */
    method Obfuscate(assemblies: seq<Assembly>)
      requires Valid() && Distinct(assemblies) && Named(Owners(assemblies, NameLists(assemblies)))
      modifies this, assemblies`ilCode
      ensures Valid()
      ensures var plan := Plan(Owners(assemblies, old(NameLists(assemblies))), old(calls));
              && calls == old(calls) + |plan|
              && obfuscationMap == MapOf(plan)
              && Codes(assemblies) == ApplyAll(old(Codes(assemblies)), plan)
    {
      ObfuscateOwners(assemblies, NameLists(assemblies));
    }
  }

  // ------------------------------------------------------------ resources

  /**
   * RenameResourcesFiles, for one file of the IL directory: when the file's
   * base name is a class renamed in this assembly, its new path, in `dir`,
   * named after the class's new name with the file's own extension.
   */
  function ResourceTarget(m: RenameMap, assemblyFileName: string, dir: string, file: string): (r: Option<string>)
    ensures r.Some? <==> assemblyFileName in m && Paths.FileNameWithoutExt(file) in m[assemblyFileName]
  {
    var withoutExt := Paths.FileNameWithoutExt(file);
    if assemblyFileName in m && withoutExt in m[assemblyFileName] then
      Some(dir + "\\" + m[assemblyFileName][withoutExt] + Paths.Extension(file))
    else None
  }

  /**
   * A renamed resource stays in `dir`, keeps its extension, and has the
   * class's new name as its base name, when that name holds no dot and no
   * separator (generated names never do).
   */
  lemma ResourceTargetParts(m: RenameMap, assemblyFileName: string, dir: string, file: string)
    requires ResourceTarget(m, assemblyFileName, dir, file).Some?
    requires var newName := m[assemblyFileName][Paths.FileNameWithoutExt(file)];
             Paths.HasNoSeparator(newName) && forall i :: 0 <= i < |newName| ==> newName[i] != '.'
    ensures var t := ResourceTarget(m, assemblyFileName, dir, file).value;
            && Paths.DirectoryName(t) == dir
            && Paths.FileNameWithoutExt(t) == m[assemblyFileName][Paths.FileNameWithoutExt(file)]
            && Paths.Extension(t) == Paths.Extension(file)
  {
    var newName := m[assemblyFileName][Paths.FileNameWithoutExt(file)];
    Paths.ExtensionNoSeparator(file);
    Paths.ExtensionShape(file);
    Paths.JoinedPathParts(dir, newName, Paths.Extension(file));
  }

  /** The IL directory's listing after RenameResourcesFiles. */
  function RenamedListing(m: RenameMap, assemblyFileName: string, dir: string, files: seq<string>): (r: seq<string>)
    ensures |r| == |files|
  {
    seq(|files|, i requires 0 <= i < |files| =>
      match ResourceTarget(m, assemblyFileName, dir, files[i])
      case Some(t) => t
      case None => files[i])
  }

  // ------------------------------------------------------------ arguments

  /** The ilasm command line: "/DLL " for a library, the quoted IL path, then the resource arguments. */
  function Arguments(fileName: string, ilPath: string, resArguments: string): string
  {
    (if EndsWithIgnoreCase(fileName, ".dll") then "/DLL " else "") + "\"" + ilPath + "\" " + resArguments
  }

  /** A file name ends in ".dll", ignoring case, iff it ends in '.' and then "dll" in any mix of cases. */
  lemma DllSuffix(fileName: string)
    ensures EndsWithIgnoreCase(fileName, ".dll") <==>
              var n := |fileName|;
              n >= 4 && fileName[n - 4] == '.' && fileName[n - 3] in "dD" && fileName[n - 2] in "lL" && fileName[n - 1] in "lL"
  {
    var n := |fileName|;
    var low := LowerAsciiString(fileName);
    assert LowerAsciiString(".dll") == ".dll";
    if n >= 4 {
      forall k | n - 4 <= k < n
        ensures low[k] == LowerAscii(fileName[k])
      {
      }
      assert low[n - 4..] == ".dll" <==> low[n - 4] == '.' && low[n - 3] == 'd' && low[n - 2] == 'l' && low[n - 1] == 'l';
    }
  }

  /** The arguments open with "/DLL " exactly for a file name ending in ".dll", in any case. */
  lemma ArgumentsFlag(fileName: string, ilPath: string, resArguments: string)
    ensures var a := Arguments(fileName, ilPath, resArguments);
            && (|a| >= 5 && a[..5] == "/DLL " <==> EndsWithIgnoreCase(fileName, ".dll"))
            && EndsWith(a, "\"" + ilPath + "\" " + resArguments)
  {
    var a := Arguments(fileName, ilPath, resArguments);
    var tail := "\"" + ilPath + "\" " + resArguments;
    if EndsWithIgnoreCase(fileName, ".dll") {
      assert a == "/DLL " + tail;
      assert a[..5] == "/DLL ";
    } else {
      assert a == tail && a[0] == '"';
    }
  }

  /** The .res file CompileAssemblies looks for: the assembly's base name in the IL directory. */
  function ResPath(filePath: string): string
  {
    Paths.DirectoryName(Reader.GetILPath(filePath)) + "\\" + Paths.FileNameWithoutExt(filePath) + ".res"
  }

  /** The resource part of the arguments: the quoted .res path when the file exists, else nothing. */
  function ResArguments(resName: string, present: bool): string
  {
    if present then " /res:\"" + resName + "\"" else ""
  }

  /**
   * The arguments CompileAssemblies passes to ilasm for the assembly at
   * `filePath`, given the IL directory's listing before its resources are
   * renamed: the .res file is passed iff it exists after the renaming.
   */
  function IlasmArguments(m: RenameMap, filePath: string, files: seq<string>): string
  {
    var ilPath := Reader.GetILPath(filePath);
    var dir := Paths.DirectoryName(ilPath);
    var resName := ResPath(filePath);
    var res := ResArguments(resName, resName in RenamedListing(m, Paths.FileName(filePath), dir, files));
    Arguments(Paths.FileName(filePath), ilPath, res)
  }

  /** The arguments end with the resource argument exactly when the .res file exists. */
  lemma ArgumentsRes(fileName: string, ilPath: string, resName: string, present: bool)
    ensures EndsWith(Arguments(fileName, ilPath, ResArguments(resName, present)), " /res:\"" + resName + "\"")
            <==> present
  {
    var flag := " /res:\"" + resName + "\"";
    var head := (if EndsWithIgnoreCase(fileName, ".dll") then "/DLL " else "") + "\"" + ilPath + "\" ";
    var a := Arguments(fileName, ilPath, ResArguments(resName, present));
    if present {
      assert a == head + flag;
      assert a[|a| - |flag|..] == flag;
    } else {
      assert a == head;
      assert a[|a| - 1] == ' ' && flag[|flag| - 1] == '"';
    }
  }

  /** The resource argument is present exactly when the .res file exists once the resources are renamed. */
  lemma IlasmArgumentsRes(m: RenameMap, filePath: string, files: seq<string>)
    ensures var dir := Paths.DirectoryName(Reader.GetILPath(filePath));
            EndsWith(IlasmArguments(m, filePath, files), " /res:\"" + ResPath(filePath) + "\"")
            <==> ResPath(filePath) in RenamedListing(m, Paths.FileName(filePath), dir, files)
  {
    var ilPath := Reader.GetILPath(filePath);
    var dir := Paths.DirectoryName(ilPath);
    ArgumentsRes(Paths.FileName(filePath), ilPath, ResPath(filePath),
                 ResPath(filePath) in RenamedListing(m, Paths.FileName(filePath), dir, files));
  }

  // --------------------------------------------------------- verification

  const CompileFailure := "Could not compile some assemblies: "

  /** The file names of compiled output paths. */
  function CompiledNames(outputFiles: seq<string>): (r: seq<string>)
    ensures |r| == |outputFiles|
    ensures forall i :: 0 <= i < |r| ==> Paths.HasNoSeparator(r[i]) && EndsWith(outputFiles[i], r[i])
  {
    seq(|outputFiles|, i requires 0 <= i < |outputFiles| => Paths.FileName(outputFiles[i]))
  }

  /** The names not among `compiled`, in their order. */
  function Missing(names: seq<string>, compiled: seq<string>): (r: seq<string>)
    ensures |r| <= |names| && SubList(r, names)
    ensures forall i :: 0 <= i < |r| ==> r[i] !in compiled
  {
    if names == [] then []
    else
      var init, last := names[..|names| - 1], names[|names| - 1];
      assert names == init + [last];
      SubListSnoc(Missing(init, compiled), init, last, last !in compiled);
      Missing(init, compiled) + (if last in compiled then [] else [last])
  }

  /** A name is missing iff it is one of the names and was not compiled. */
  lemma {:induction false} MissingMembers(names: seq<string>, compiled: seq<string>, x: string)
    ensures x in Missing(names, compiled) <==> x in names && x !in compiled
    decreases |names|
  {
    if names != [] {
      var init := names[..|names| - 1];
      MissingMembers(init, compiled, x);
      assert names == init + [names[|names| - 1]];
    }
  }

  /**
   * The message list VerifyAssemblies builds: each name appended, with ", "
   * in front of it whenever the text so far is not empty.
   */
  function Listing(names: seq<string>): string
  {
    if names == [] then ""
    else
      var acc := Listing(names[..|names| - 1]);
      acc + (if |acc| != 0 then ", " else "") + names[|names| - 1]
  }

  /** Without empty names, the listing is the names joined with ", ". */
  lemma {:induction false} ListingIsJoin(names: seq<string>)
    requires forall i :: 0 <= i < |names| ==> names[i] != []
    ensures Listing(names) == Join(names, ", ")
    decreases |names|
  {
    if |names| == 1 {
      assert names[..0] == [];
    } else if |names| > 1 {
      var init := names[..|names| - 1];
      var last := names[|names| - 1];
      ListingIsJoin(init);
      JoinHead(init, ", ");
      JoinSnoc(init, last, ", ");
      assert init + [last] == names;
    }
  }

  /** Join of a non-empty list starts with its first element. */
  lemma JoinHead(parts: seq<string>, sep: string)
    requires |parts| > 0
    ensures |Join(parts, sep)| >= |parts[0]|
  {
  }

  /** Joining one more part appends the separator and the part. */
  lemma {:induction false} JoinSnoc(parts: seq<string>, last: string, sep: string)
    requires |parts| > 0
    ensures Join(parts + [last], sep) == Join(parts, sep) + sep + last
    decreases |parts|
  {
    if |parts| > 1 {
      JoinSnoc(parts[1..], last, sep);
      assert (parts + [last])[1..] == parts[1..] + [last];
    } else {
      assert (parts + [last])[1..] == [last];
    }
  }

  /**
   * A list joined with ", " splits back into the same list, as long as no
   * part holds ", " itself.
   */
  lemma {:induction false} SplitJoin(parts: seq<string>)
    requires |parts| > 0
    requires forall i, k :: 0 <= i < |parts| && 0 <= k ==> !IsAt(parts[i], ", ", k)
    ensures Split(Join(parts, ", "), ", ") == parts
    decreases |parts|
  {
    var sep := ", ";
    var s := Join(parts, sep);
    if |parts| == 1 {
      IndexOfUnique(s, sep, 0, -1);
    } else {
      var p0 := parts[0];
      var rest := Join(parts[1..], sep);
      assert s == p0 + sep + rest;
      forall k | 0 <= k < |p0|
        ensures !IsAt(s, sep, k)
      {
        if k + 2 <= |p0| {
          assert s[k..k + 2] == p0[k..k + 2];
          assert !IsAt(p0, sep, k);
        } else {
          assert s[k + 1] == ',';
        }
      }
      assert IsAt(s, sep, |p0|);
      IndexOfUnique(s, sep, 0, |p0|);
      assert s[|p0| + 2..] == rest;
      assert s[..|p0|] == p0;
      SplitJoin(parts[1..]);
    }
  }

  /**
   * VerifyAssemblies: fails iff some assembly's file name is not among the
   * file names of the compiled output, with a message listing every missing
   * name in assembly order.
   */
  method VerifyAssemblies(fileNames: seq<string>, outputFiles: seq<string>) returns (r: Outcome<()>)
    ensures r.Value? <==> forall n :: n in fileNames ==> n in CompiledNames(outputFiles)
    ensures r.Raised? ==> r.error == Failure(CompileFailure + Listing(Missing(fileNames, CompiledNames(outputFiles))))
  {
    var compiled := CompiledNames(outputFiles);
    var missing := Missing(fileNames, compiled);
    forall n | n in fileNames
      ensures n in compiled <==> n !in missing
    {
      MissingMembers(fileNames, compiled, n);
    }
    if |missing| > 0 {
      var message := "";
      for i := 0 to |missing|
        invariant message == Listing(missing[..i])
      {
        if |message| != 0 {
          message := message + ", ";
        }
        message := message + missing[i];
        assert missing[..i + 1][..i] == missing[..i];
      }
      assert missing[..|missing|] == missing;
      assert missing[0] in missing;
      MissingMembers(fileNames, compiled, missing[0]);
      return Raised(Failure(CompileFailure + message));
    }
    return Value(());
  }
}
