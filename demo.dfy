/**
 * The older obfuscator of the Demo project.  It renames classes exactly as
 * the main obfuscator does, but keeps no rename map: ObfuscateName only
 * rewrites IL text.  Its compilation step passes to ilasm every file of the
 * IL directory that ends in "<name>.resource" or "<name>.res", in listing
 * order, instead of renaming resources and looking for one .res file.
 */
module DemoObfuscation {
  import opened NetString
  import Paths
  import opened Models
  import Reader
  import opened Naming
  import Obfuscation
  import opened Lists

  class DemoObfuscator {
    var currentName: string
    /** How many names the generator has handed out. */
    ghost var calls: nat

    /** The seed has been bumped once per name handed out. */
    ghost predicate Valid()
      reads this
    {
      currentName == SeedAt(calls)
    }

    /** The seed starts at "a". */
    constructor ()
      ensures Valid() && calls == 0 && currentName == "a"
    {
      currentName := "a";
      calls := 0;
    }

    /**
     * GenerateNewName: bumps the seed ('a' appended after a final 'z', the
     * last letter moved on otherwise) and returns it followed by the old
     * name's generic-arity suffix.
     */
    method GenerateNewName(oldName: string) returns (r: string)
      requires Valid()
      modifies this
      ensures Valid() && calls == old(calls) + 1
      ensures r == NewName(calls, oldName)
    {
      currentName := Bump(currentName);
      calls := calls + 1;
      r := currentName + AritySuffix(oldName);
    }

    /** ObfuscateName: replaces the old name by the new one in the IL text of every assembly, and nothing else. */
    method ObfuscateName(assemblies: seq<Assembly>, oldName: string, newName: string)
      requires Distinct(assemblies) && |oldName| > 0
      modifies assemblies`ilCode
      ensures Codes(assemblies) == ReplaceAll(old(Codes(assemblies)), oldName, newName)
    {
      CodesAt(assemblies);
      ghost var before := Codes(assemblies);
      for i := 0 to |assemblies|
        invariant forall k :: 0 <= k < i ==> assemblies[k].ilCode == Replace(old(assemblies[k].ilCode), oldName, newName)
        invariant forall k :: i <= k < |assemblies| ==> assemblies[k].ilCode == old(assemblies[k].ilCode)
      {
        var a := assemblies[i];
        a.ilCode := Replace(a.ilCode, oldName, newName);
      }
      CodesAt(assemblies);
      ReplaceAllAt(before, oldName, newName);
    }

    /**
     * The inner loop of Obfuscate: renames the classes `names` of one
     * assembly, longest name first, each to a freshly generated name.
     */
    method ObfuscateAssembly(assemblies: seq<Assembly>, ghost file: string, names: seq<string>)
      requires Valid() && Distinct(assemblies)
      requires NonEmpty(names)
      modifies this, assemblies`ilCode
      ensures Valid() && calls == old(calls) + |names|
      ensures Codes(assemblies) == ApplyAll(old(Codes(assemblies)), Renames(Owner(file, names), old(calls)))
    {
      var sorted := LongestFirst(names);
      SortedNamed(Owner(file, names));
      ghost var codes := Codes(assemblies);
      ApplyAllNone(codes);
      assert sorted[..0] == [];
      for j := 0 to |sorted|
        invariant Valid() && calls == old(calls) + j
        invariant Codes(assemblies) == ApplyAll(codes, RenamesInOrder(file, sorted[..j], old(calls)))
      {
        RenameNext(assemblies, file, sorted, j, old(calls), codes);
      }
      assert sorted[..|sorted|] == sorted;
    }

    /**
     * One pass of ObfuscateAssembly's loop: the `j`-th name of `sorted` is
     * given the next generated name and replaced in every assembly.
     */
    method RenameNext(assemblies: seq<Assembly>, ghost file: string, sorted: seq<string>, j: nat, ghost first: nat, ghost codes: seq<string>)
      requires Valid() && Distinct(assemblies) && NonEmpty(sorted)
      requires j < |sorted| && calls == first + j
      requires Codes(assemblies) == ApplyAll(codes, RenamesInOrder(file, sorted[..j], first))
      modifies this, assemblies`ilCode
      ensures Valid() && calls == first + j + 1
      ensures Codes(assemblies) == ApplyAll(codes, RenamesInOrder(file, sorted[..j + 1], first))
    {
      ghost var done := RenamesInOrder(file, sorted[..j], first);
      var newName := GenerateNewName(sorted[j]);
      ObfuscateName(assemblies, sorted[j], newName);
      RenamesInOrderSnoc(file, sorted, first, j, calls);
      ApplyAllSnoc(codes, done, Rename(file, sorted[j], newName));
    }

    /**
     * One pass of Obfuscate's outer loop: the classes of the `i`-th assembly
     * are renamed, so the text has gone through the plan of the first
     * `i + 1` owners.
     */
    method ObfuscateNext(assemblies: seq<Assembly>, owners: seq<Owner>, i: nat, ghost first: nat, ghost codes: seq<string>)
      requires Valid() && Distinct(assemblies) && Named(owners)
      requires i < |owners|
      requires calls == first + |PlanUpTo(owners, i, first)|
      requires Codes(assemblies) == ApplyAll(codes, PlanUpTo(owners, i, first))
      modifies this, assemblies`ilCode
      ensures Valid() && calls == first + |PlanUpTo(owners, i + 1, first)|
      ensures Codes(assemblies) == ApplyAll(codes, PlanUpTo(owners, i + 1, first))
    {
      ghost var done := PlanUpTo(owners, i, first);
      ghost var renames := Renames(owners[i], calls);
      PlanUpToSnoc(owners, first, i);
      PlanStepIs(done, owners[i], first, calls);
      ObfuscateAssembly(assemblies, owners[i].file, owners[i].names);
      ApplyAllAppend(codes, done, renames);
    }

    /**
     * Obfuscate's loop, over the owners read from the assemblies before any
     * renaming: every assembly's text goes through every rename of the plan,
     * in order, with names drawn from one running seed.
     */
    method ObfuscateOwners(assemblies: seq<Assembly>, owners: seq<Owner>)
      requires Valid() && Distinct(assemblies) && Named(owners)
      modifies this, assemblies`ilCode
      ensures Valid() && calls == old(calls) + |Plan(owners, old(calls))|
      ensures Codes(assemblies) == ApplyAll(old(Codes(assemblies)), Plan(owners, old(calls)))
    {
      ghost var first := calls;
      ghost var codes := Codes(assemblies);
      ApplyAllNone(codes);
      for i := 0 to |owners|
        invariant Valid()
        invariant calls == first + |PlanUpTo(owners, i, first)|
        invariant Codes(assemblies) == ApplyAll(codes, PlanUpTo(owners, i, first))
      {
        ObfuscateNext(assemblies, owners, i, first, codes);
      }
    }

    /**
     * Obfuscate, up to compilation: renames the classes assembly by
     * assembly, longest name first, with names drawn from one running seed.
     */
    method Obfuscate(assemblies: seq<Assembly>)
      requires Valid() && Distinct(assemblies) && Named(Owners(assemblies, NameLists(assemblies)))
      modifies this, assemblies`ilCode
      ensures Valid()
      ensures var plan := Plan(Owners(assemblies, old(NameLists(assemblies))), old(calls));
              && calls == old(calls) + |plan|
              && Codes(assemblies) == ApplyAll(old(Codes(assemblies)), plan)
    {
      ObfuscateOwners(assemblies, Owners(assemblies, NameLists(assemblies)));
    }
  }

  // ------------------------------------------------------------ resources

  /** A file of the IL directory is a resource of the assembly named `baseName` when it ends in "<baseName>.resource" or "<baseName>.res". */
  predicate IsResource(file: string, baseName: string)
  {
    EndsWith(file, baseName + ".resource") || EndsWith(file, baseName + ".res")
  }

  /** The resource files of a listing, in listing order. */
  function ResourceFiles(files: seq<string>, baseName: string): (r: seq<string>)
    ensures |r| <= |files| && SubList(r, files)
    ensures forall i :: 0 <= i < |r| ==> IsResource(r[i], baseName)
  {
    if files == [] then []
    else
      var init, last := files[..|files| - 1], files[|files| - 1];
      assert files == init + [last];
      SubListSnoc(ResourceFiles(init, baseName), init, last, IsResource(last, baseName));
      ResourceFiles(init, baseName) + (if IsResource(last, baseName) then [last] else [])
  }

  /** The resource arguments built from a list of files: ` /res:"<file>"` for each, in order. */
  function ResourceArguments(files: seq<string>): string
  {
    if files == [] then ""
    else ResourceArguments(files[..|files| - 1]) + Obfuscation.ResArguments(files[|files| - 1], true)
  }

  /** The ilasm command line CompileAssemblies builds for the assembly at `filePath`, given its IL directory's listing. */
  function DemoArguments(filePath: string, files: seq<string>): string
  {
    var resources := ResourceArguments(ResourceFiles(files, Paths.FileNameWithoutExt(filePath)));
    Obfuscation.Arguments(Paths.FileName(filePath), Reader.GetILPath(filePath), resources)
  }

  /** Exactly the listed files that end in the assembly's resource names are selected. */
  lemma {:induction false} ResourceFilesMembers(files: seq<string>, baseName: string, x: string)
    ensures x in ResourceFiles(files, baseName) <==> x in files && IsResource(x, baseName)
    decreases |files|
  {
    if files != [] {
      var init := files[..|files| - 1];
      ResourceFilesMembers(init, baseName, x);
      assert files == init + [files[|files| - 1]];
    }
  }

  /** Selection keeps listing order: selecting from two listings one after the other is selecting from their concatenation. */
  lemma {:induction false} ResourceFilesAppend(a: seq<string>, b: seq<string>, baseName: string)
    ensures ResourceFiles(a + b, baseName) == ResourceFiles(a, baseName) + ResourceFiles(b, baseName)
    decreases |b|
  {
    if b == [] {
      assert a + b == a;
    } else {
      var init := b[..|b| - 1];
      ResourceFilesAppend(a, init, baseName);
      assert (a + b)[..|a + b| - 1] == a + init;
    }
  }

  /** The argument for each file follows the arguments of the files before it. */
  lemma {:induction false} ResourceArgumentsAppend(a: seq<string>, b: seq<string>)
    ensures ResourceArguments(a + b) == ResourceArguments(a) + ResourceArguments(b)
    decreases |b|
  {
    if b == [] {
      assert a + b == a;
    } else {
      var init := b[..|b| - 1];
      var last := Obfuscation.ResArguments(b[|b| - 1], true);
      ResourceArgumentsAppend(a, init);
      assert (a + b)[..|a + b| - 1] == a + init;
      calc {
        ResourceArguments(a + b);
        ResourceArguments(a + init) + last;
        ResourceArguments(a) + ResourceArguments(init) + last;
      }
    }
  }

  /** No resource argument is passed exactly when no file is selected. */
  lemma ResourceArgumentsEmpty(files: seq<string>)
    ensures ResourceArguments(files) == "" <==> files == []
  {
  }

  /**
   * The arguments open with "/DLL " exactly for a file name ending in ".dll",
   * in any case, and end with the quoted IL path and the resource arguments
   * of the selected files.
   */
  lemma DemoArgumentsShape(filePath: string, files: seq<string>)
    ensures var a := DemoArguments(filePath, files);
            var resources := ResourceArguments(ResourceFiles(files, Paths.FileNameWithoutExt(filePath)));
            && (|a| >= 5 && a[..5] == "/DLL " <==> EndsWithIgnoreCase(Paths.FileName(filePath), ".dll"))
            && EndsWith(a, "\"" + Reader.GetILPath(filePath) + "\" " + resources)
  {
    var resources := ResourceArguments(ResourceFiles(files, Paths.FileNameWithoutExt(filePath)));
    Obfuscation.ArgumentsFlag(Paths.FileName(filePath), Reader.GetILPath(filePath), resources);
  }
}
