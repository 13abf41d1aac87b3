# ILTools core in Dafny

This project models the core of ILTools. ILTools reads the textual IL that ildasm
produces for .NET assemblies, indexes the classes and their members, and
obfuscates class names before it recompiles with ilasm.

The model covers four parts:

- **The keyword recogniser ILFMS** (`keyword_machine.dfy`). It is a state machine
  fed one character at a time, and it raises its final flag on the last letter of
  `.class`, `.method`, `.property`, `.field` or `.event`. It is modelled as a class
  whose fields hold the state record. Its steps are proved against a step function,
  and the function is proved sound and complete for the five keywords.
- **The structure reader ILReader**:
  - `names.dfy`: the "Names Extracting" helpers.
  - `scan.dfy`: ParseClasses as a function over an arena of class nodes.
  - `parser.dfy`: ParseClasses as a method that builds ILClass objects on the heap,
    proved to mirror the function.
  - `reader.dfy`: GetILPath, IsNestedClass and DivideWorkForParallelProcessing.
  - `assemblies.dfy`: the ParseAssemblies merge, RefreshAssemblies and the reader
    object.
- **The obfuscator**:
  - `naming.dfy`: the seed, the generic-arity suffix, the longest-first order, and
    what a run of renames does to the IL texts and to the rename map.
  - `obfuscator.dfy`: the Obfuscator class and the decision rules of
    CompileAssemblies and VerifyAssemblies.
  - `demo.dfy`: the older Demo obfuscator.
- **The data model**:
  - `models.dfy`: ILClass, Assembly and ILUnit.
  - `netstring.dfy` and `paths.dfy`: the ordinal `System.String` operations and the
    `System.IO.Path` functions the code relies on.
  - `outcomes.dfy`: the exceptions the code can raise, as values.

Exceptions the C# code raises on unexpected input are modelled as
`Outcome.Raised(...)` values. Examples are a member before any class, a class line
without a space, and an end phrase with no terminator after it. A method whose
precondition is "the scan succeeds" is one that the original would abandon halfway
with an exception.

`Environment.NewLine` is `"\r\n"`. `Environment.ProcessorCount` is a parameter of
at least 1.

The model follows the code in these details:

- Method and property names end at `"("`.
- Anomalies in the IL text raise exceptions rather than being skipped.
- An event's name keeps the space that precedes it (`ILReader.cs:231-234` takes the
  substring from the space).

## Model

| member | source | states |
|---|---|---|
| KeywordMachine.Token | ILStructureParser/ILFMS.cs:36-43 | each keyword state spells its keyword (after the dot), at least five letters long |
| KeywordMachine.Next | ILStructureParser/ILFMS.cs:58-81 | a step keeps the machine well formed (progress inside the keyword, final exactly on its last letter); progress in a keyword state only ever grows by one |
| KeywordMachine.Restarted | ILStructureParser/ILFMS.cs:83-87 | Restart yields Start with the final flag cleared, a well-formed state |
| KeywordMachine.StartStep | ILStructureParser/ILFMS.cs:60-66 | in Start only '.' moves the machine (to DotToken); nothing in Start is final |
| KeywordMachine.DotStep | ILStructureParser/ILFMS.cs:67-71 | after a dot, c/m/p/f/e select Class/Method/Property/Field/Event with progress 0; any other character goes back to Start |
| KeywordMachine.KeywordStep | ILStructureParser/ILFMS.cs:72-80 | in a keyword state the next keyword letter advances progress by one and raises the flag exactly on the last letter; any other character, a dot included, goes to Start |
| KeywordMachine.NextConsistent | ILStructureParser/ILFMS.cs:58-81 | every step keeps the state consistent with the text read: DotToken after a dot, a keyword state after the dot and the matched letters |
| KeywordMachine.FinalMeansKeyword | ILStructureParser/ILFMS.cs:72-76 | soundness: when the flag is up, the text read ends with "." and the whole keyword of the state |
| KeywordMachine.Feed | ILStructureParser/ILFMS.cs:58-81 | feeding any text keeps the machine well formed |
| KeywordMachine.FeedSnoc | ILStructureParser/ILFMS.cs:58-81 | feeding one more character is one more step, unless the flag is already up |
| KeywordMachine.FeedKeywordPrefix | ILStructureParser/ILFMS.cs:72-76 | after the dot and n + 1 letters of a keyword the machine is in that keyword's state at progress n, final only at the last letter |
| KeywordMachine.RecognisesKeyword | ILStructureParser/ILFMS.cs:27-43 | completeness: from Start, ".class" (and each other keyword) ends final in its own state on the last letter, and no shorter prefix is final |
| KeywordMachine.DoubleDotHidesClass | ILStructureParser/ILFMS.cs:60-71 | a dot just before ".class" sends the machine back to Start: "..class" raises no flag, while ".class" alone does |
| KeywordMachine.Machine.constructor | ILStructureParser/ILFMS.cs:47-50 | a fresh machine is in Start, progress 0, not final |
| KeywordMachine.Machine.GoToNextState | ILStructureParser/ILFMS.cs:58-81 | the fields, updated in place, hold the step function's next state; requires the flag down |
| KeywordMachine.Machine.Restart | ILStructureParser/ILFMS.cs:83-87 | the fields hold Start with the flag cleared; progress is left as it was |
| NameExtraction.LastIndexOf | ILStructureParser/ILReader.cs:256-267 | -1, or the greatest index in [start, end] holding the character; nothing after it in the range holds it |
| NameExtraction.ClassNameEnd | ILStructureParser/ILReader.cs:271-279 | a bad index or count raises ArgumentOutOfRange; otherwise the end lies inside the text |
| NameExtraction.ClassNameEndAt | ILStructureParser/ILReader.cs:271-279 | the name ends at the line end without a backtick, else two past the first backtick, three when a quote follows |
| NameExtraction.ExtractClassName | ILStructureParser/ILReader.cs:269-287 | it raises exactly when the end computation raises |
| NameExtraction.ClassNameIsLastWord | ILStructureParser/ILReader.cs:280-286 | the name is the trimmed text from the last space before the end, starting one past that space; without a space there is no name (null) |
| NameExtraction.FieldInitializer | ILStructureParser/ILReader.cs:306-307 | the cut lies inside the line or is -1 |
| NameExtraction.FieldInitializerFirst | ILStructureParser/ILReader.cs:306-307 | the first " = " wins; only a line without one is cut at its first " at "; -1 when neither occurs |
| NameExtraction.ExtractFieldName | ILStructureParser/ILReader.cs:301-321 | the name's start lies within the line |
| NameExtraction.FieldNameIsLastWord | ILStructureParser/ILReader.cs:309-318 | the name starts one past the last space before the cut (or the line end) and is the trimmed text from there to the cut |
| NameExtraction.BalanceBack | ILStructureParser/ILReader.cs:328-341 | the first loop stops at the start, or at the first point to the left where a '>' has been passed and the brackets balance |
| NameExtraction.BackToSpace | ILStructureParser/ILReader.cs:343-346 | the second loop stops at the nearest space to the left, never past the start |
| NameExtraction.FindStartOfGenericName | ILStructureParser/ILReader.cs:323-349 | for start < end the result lies in [start + 1, end]; otherwise it is end + 1 |
| NameExtraction.GenericNameStart | ILStructureParser/ILReader.cs:323-349 | the result is one past the space (or the start) before the point where the angle brackets balance |
| NameExtraction.SkipSpaced | ILStructureParser/ILReader.cs:359-362 | the loop stops at the first occurrence not preceded by ' ' or '<'; reading before index 0 or running out of occurrences raises IndexOutOfRange |
| NameExtraction.FindNameEndIndex | ILStructureParser/ILReader.cs:351-372 | a found end lies at or after the start and leaves room for the phrase |
| NameExtraction.NameEndIsFirstUnspaced | ILStructureParser/ILReader.cs:351-372 | -1 when the phrase never occurs; else the first unspaced occurrence, or the next occurrence when that one follows "pinvokeimpl" |
| NameExtraction.FindNameStartIndex | ILStructureParser/ILReader.cs:374-384 | the start lies in [0, end + 1] |
| NameExtraction.NameStartIndex | ILStructureParser/ILReader.cs:374-384 | a name ending in '>' starts where its generic part starts; any other starts one past the last space before its end |
| NameExtraction.MethodPropertyNameSpan | ILStructureParser/ILReader.cs:289-299 | no end gives no name; otherwise the name is the text from its start index to its end index, and a start past the end raises ArgumentOutOfRange |
| ClassScan.OpenChainFrame | ILStructureParser/ILReader.cs:176-183 | adding nodes or changing nodes off the chain leaves the open chain open |
| ClassScan.ForestFrame | ILStructureParser/ILReader.cs:176-183 | changes that keep every node's parent and class list keep the forest |
| ClassScan.AdoptShape | ILStructureParser/ILReader.cs:176-183 | a new class is appended to its parent's list (or none), and no other node changes |
| ClassScan.AddClassSane | ILStructureParser/ILReader.cs:162-184 | adding a class keeps the forest, and the new class becomes the open class with an open chain |
| ClassScan.AddRootForest | ILStructureParser/ILReader.cs:180-183 | a parentless class appended to the container keeps the forest |
| ClassScan.AddChildLinked | ILStructureParser/ILReader.cs:176-179 | a class appended to its parent's list keeps every "listed under p iff its parent is p" link |
| ClassScan.AddChildForest | ILStructureParser/ILReader.cs:176-179 | a class appended to the open class's list keeps the forest |
| ClassScan.AddMember | ILStructureParser/ILReader.cs:185-204 | the member goes to the end of exactly the list of its kind in the open class; nothing else changes |
| ClassScan.EventName | ILStructureParser/ILReader.cs:228-235 | a failure is the Substring's ArgumentOutOfRange |
| ClassScan.EventNameIsLastWord | ILStructureParser/ILReader.cs:228-235 | an event's name runs from the last space of its line (included) to the line break; no line break raises |
| ClassScan.FieldName | ILStructureParser/ILReader.cs:237-245 | it raises exactly when no line break follows |
| ClassScan.FieldNameOnLine | ILStructureParser/ILReader.cs:237-245 | a field's name is ExtractFieldName of the rest of its line, its start shifted back into the text |
| ClassScan.CloseBraceSane | ILStructureParser/ILReader.cs:217-224 | closing a class hands the open chain to its parent, which is still open |
| ClassScan.OpenBraceSane | ILStructureParser/ILReader.cs:212-216 | '{' keeps the loop invariant |
| ClassScan.RecordSane | ILStructureParser/ILReader.cs:185-204 | recording a member keeps the loop invariant |
| ClassScan.LocatedKept | ILStructureParser/ILReader.cs:155-225 | a character that starts and closes nothing keeps every class at its ".class" and its closing '}' |
| ClassScan.LocatedClosed | ILStructureParser/ILReader.cs:217-224 | the '}' at i closing a class gives it EndIndex i + 1, just after that brace |
| ClassScan.LocatedAdded | ILStructureParser/ILReader.cs:162-173 | a class whose ".class" ends at i starts at i - 5, after every earlier class |
| ClassScan.ClassKeyword | ILStructureParser/ILReader.cs:162-168 | the machine reports Class only after the six characters ".class" ending at i |
| ClassScan.StepSane | ILStructureParser/ILReader.cs:155-225 | one iteration keeps the forest and the open chain, and leaves the machine restarted or unflagged |
| ClassScan.ClassFoundSane | ILStructureParser/ILReader.cs:162-184 | the class branch keeps the loop invariant |
| ClassScan.MemberFoundSane | ILStructureParser/ILReader.cs:185-206 | the member branches keep the loop invariant |
| ClassScan.PlainSane | ILStructureParser/ILReader.cs:208-224 | line breaks and braces keep the loop invariant |
| ClassScan.StepCases | ILStructureParser/ILReader.cs:157-224 | an iteration is the class branch, a member branch or the brace/newline branch, by what the machine reports |
| ClassScan.ClassFoundLocated | ILStructureParser/ILReader.cs:162-173 | a new class starts at the ".class" that ends at i (StartIndex = i - 5) |
| ClassScan.MemberFoundLocated | ILStructureParser/ILReader.cs:185-204 | recording a member moves no class |
| ClassScan.PlainLocated | ILStructureParser/ILReader.cs:208-224 | a brace either moves no class or closes the open one just after the '}' |
| ClassScan.StepTracks | ILStructureParser/ILReader.cs:155-225 | an iteration keeps the machine consistent with the text and the classes located in it |
| ClassScan.ScanStep | ILStructureParser/ILReader.cs:155-225 | iteration i acts on the state the first i iterations left |
| ClassScan.ScanTo | ILStructureParser/ILReader.cs:155-225 | every state the loop reaches keeps the forest and the open chain |
| ClassScan.Advance | ILStructureParser/ILReader.cs:155-225 | iteration i, when the loop has not thrown, keeps the loop invariant |
| ClassScan.ScanPrefix | ILStructureParser/ILReader.cs:155-225 | an exception ends the loop: a scan that completes completed every prefix |
| ClassScan.Trace | ILStructureParser/ILReader.cs:155-225 | a completed scan has a state for every prefix, from the initial one to the final one, each one step apart |
| ClassScan.PrefixesScan | ILStructureParser/ILReader.cs:155-225 | a completed scan completed on every prefix |
| ClassScan.TraceStep | ILStructureParser/ILReader.cs:155-225 | consecutive states of a completed scan are one iteration apart, and each keeps the invariant |
| ClassScan.TraceTracks | ILStructureParser/ILReader.cs:155-225 | after n characters the machine agrees with them and the classes are located in them |
| ClassScan.ParseLocated | ILStructureParser/ILReader.cs:148-226 | a completed scan leaves a forest; every class starts at a ".class" of the text and its name starts after that ".class", classes are in text order, and a closed class ends just after a '}' that follows its start |
| Parser.ObjectsGrow | ILStructureParser/ILReader.cs:166-173 | creating a class leaves the objects of earlier ids alone |
| Parser.NodeIsGrown | ILStructureParser/ILReader.cs:166-173 | creating a class leaves every earlier object holding its node |
| Parser.AttachClass | ILStructureParser/ILReader.cs:162-184 | a fresh ILClass with StartIndex offset + i - 5, the name's start shifted, ParentClass the open class, linked under it or the container; the heap mirrors the arena with the class added |
| Parser.Link | ILStructureParser/ILReader.cs:176-183 | the new class is appended to its parent's Classes, or to the container's when it has none |
| Parser.MirrorsGrown | ILStructureParser/ILReader.cs:166-173 | every node's object still holds its node once the arena grows |
| Parser.LinkToParent | ILStructureParser/ILReader.cs:176-179 | appending to the parent's Classes mirrors adopting the node under that parent |
| Parser.LinkToContainer | ILStructureParser/ILReader.cs:180-183 | appending to the container's Classes mirrors adding a root |
| Parser.AttachMember | ILStructureParser/ILReader.cs:185-204 | the ILUnit (name start shifted, owners set) is appended to the open class's list of its kind, mirroring Record |
| Parser.UnitsAppend | ILStructureParser/ILReader.cs:185-204 | appending a member to a node appends its ILUnit to the object's list |
| Parser.OpenBraceObject | ILStructureParser/ILReader.cs:212-216 | the open class's BracketsCounter goes up by one, mirroring OpenBrace |
| Parser.CloseBraceObject | ILStructureParser/ILReader.cs:217-224 | BracketsCounter goes down; at zero after a line break EndIndex becomes offset + i + 1 and the parent becomes the open class, mirroring CloseBrace |
| Parser.ClassStep | ILStructureParser/ILReader.cs:162-184 | the class iteration creates one fresh object and leaves the heap mirroring the functional class branch |
| Parser.MemberStep | ILStructureParser/ILReader.cs:185-204 | a member iteration leaves the heap mirroring the functional member branch |
| Parser.PlainStep | ILStructureParser/ILReader.cs:208-224 | a newline or brace iteration leaves the heap and newLine mirroring the functional branch |
| Parser.Act | ILStructureParser/ILReader.cs:159-224 | after the machine's step, the heap mirrors the scan's next state; existing objects stay, new ones are fresh |
| Parser.Iterate | ILStructureParser/ILReader.cs:157-225 | one iteration, machine included, takes the heap from the scan's state at i to its state at i + 1 |
| Parser.ParseClasses | ILStructureParser/ILReader.cs:148-226 | the container's new Classes and every object below them mirror the completed functional scan, positions shifted by the offset |
| Assemblies.ParseRoots | ILStructureParser/ILReader.cs:148-226 | the roots of a completed scan are nodes of it |
| Assemblies.ParseRootsOrdered | ILStructureParser/ILReader.cs:165-183 | the container's classes are exactly the classes created with no open class around them, in creation order |
| Assemblies.MirroredHeaders | ILStructureParser/ILReader.cs:82-84 | a job parsed into a fresh container leaves it holding the scan's top-level classes, parentless and owned by the assembly |
| Assemblies.MergedGrow | ILStructureParser/ILReader.cs:92-95 | appending one more class with the next header keeps the merge described |
| Assemblies.AppendedStep | ILStructureParser/ILReader.cs:90-96 | the headers merged from the jobs up to k are those of the jobs before k followed by job k's |
| Assemblies.ConcatStep | ILStructureParser/ILReader.cs:90-96 | appending one more container's list after the lists before it gives the lists up to it |
| Assemblies.GatheredLists | ILStructureParser/ILReader.cs:90-96 | gathering the containers is concatenating their lists of classes, container by container |
| Assemblies.TilesSlices | ILStructureParser/ILReader.cs:109-140 | jobs that tile a slice of the code each sit at their offset, each starting where the one before ends |
| Assemblies.JobHeaders | ILStructureParser/ILReader.cs:84 | a job's classes point at ".class" occurrences of the whole IL, lie within the job's slice, and are in text order |
| Assemblies.RootsAt | ILStructureParser/ILReader.cs:168 | the same, for any scan state whose roots are located in the job's text |
| Assemblies.IsAtWithin | ILStructureParser/ILReader.cs:168 | an occurrence in a job's text is an occurrence in the whole IL at the shifted position |
| Assemblies.CharWithin | ILStructureParser/ILReader.cs:221 | a character of a job's text is the IL's character at the shifted position |
| Assemblies.InOrderJoin | ILStructureParser/ILReader.cs:90-96 | two runs of classes in text order, the first wholly before the second, make one run in text order |
| Assemblies.AppendedRuns | ILStructureParser/ILReader.cs:90-96 | the merge is the concatenation of the jobs' runs (a sequential map, then a concatenation) |
| Assemblies.RunsInOrder | ILStructureParser/ILReader.cs:90-96 | runs that are each in text order within consecutive job slices concatenate to one run in text order |
| Assemblies.YieldsExists | ILStructureParser/ILReader.cs:71-97 | each IL text has an outcome: the merged headers or an exception |
| Assemblies.Expected | ILStructureParser/ILReader.cs:71-97 | the outcome of dividing, parsing every job and merging one assembly's IL |
| Assemblies.ExpectedInOrder | ILStructureParser/ILReader.cs:71-97 | an assembly's merged classes sit at ".class" occurrences of its IL, in strictly increasing text order |
| Assemblies.ParseAssembly | ILStructureParser/ILReader.cs:71-97 | the IL is unchanged; an exception (division or a job's parse) leaves Classes as they were; otherwise the expected classes are appended, in job order, and they are the objects of the jobs' containers, each job's whole tree (nested classes, members, indices, owners) mirroring the scan of that job of the division |
| Assemblies.ParseJobs | ILStructureParser/ILReader.cs:80-87 | one fresh container per job, each holding that job's top-level classes, with every object below them mirroring the job's scan |
| Assemblies.Merge | ILStructureParser/ILReader.cs:89-96 | the assembly's Classes become the old ones followed by every container's classes, container by container, in order |
| Assemblies.MergeContainer | ILStructureParser/ILReader.cs:92-95 | one container's classes are appended to Classes in their order, with the headers of that job's top-level classes; the IL is unchanged |
| Assemblies.ILReader.constructor | ILStructureParser/ILReader.cs:32-35 | the reader starts with no assemblies |
| Assemblies.ILReader.AddILCode | ILStructureParser/ILReader.cs:64-67 | one fresh assembly is appended, with the given path and IL and no classes; the others stay |
| Assemblies.ILReader.ParseAssemblies | ILStructureParser/ILReader.cs:69-98 | IL texts are unchanged; it succeeds iff every assembly parses; the first failing assembly and those after it keep their classes; each one before it gets the classes of its jobs appended, by header and by object, as ParseAssembly states |
| Assemblies.ILReader.ParseNext | ILStructureParser/ILReader.cs:71-97 | one round of that loop: assembly k parsed as ParseAssembly states, every other assembly and the record of those before it left alone |
| Assemblies.ILReader.RefreshAssemblies | ILStructureParser/ILReader.cs:100-107 | the same, starting from empty Classes for every assembly |
| Models.ILClass.constructor | ILStructureParser/Models/ILClass.cs:7-14 | a new class has five empty child lists, a zero BracketsCounter, zero indices and no owners |
| Models.Assembly.constructor | ILStructureParser/Models/Assembly.cs:8-12 | the path is stored, Classes starts empty (IL empty until assigned) |
| Models.Assembly.FileNameWithoutExt | ILStructureParser/Models/Assembly.cs:16-22 | the file name, or a proper prefix of it that a '.' follows |
| Reader.AssemblyName | ILStructureParser/ILReader.cs:39 | the base name with spaces made underscores keeps its length |
| Reader.GetILPath | ILStructureParser/ILReader.cs:37-41 | the path has the length of ILFiles\\name\\name.il |
| Reader.AssemblyNameShape | ILStructureParser/ILReader.cs:39 | an assembly name holds neither separators nor spaces |
| Reader.StemOfIL | ILStructureParser/ILReader.cs:40 | the base name of name.il is the name |
| Reader.ILPathParts | ILStructureParser/ILReader.cs:37-41 | the IL file is name.il in directory ILFiles\\name |
| Reader.ILFileName | ILStructureParser/ILReader.cs:40 | name.il holds no separator and its base name is the name |
| Reader.ILPathRegrouped | ILStructureParser/ILReader.cs:40 | the path is the directory joined with the file name |
| Reader.GetILPathIdempotent | ILStructureParser/ILReader.cs:37-41 | the IL path of an IL path is that path |
| Reader.IsNestedClassMeans | ILStructureParser/ILReader.cs:142-146 | it raises exactly when no line break follows, otherwise says whether "nested" lies before the first one |
| Reader.IsNestedClassSuffix | ILStructureParser/ILReader.cs:142-146 | checking a class in the rest of the text is checking it in the whole text |
| Reader.SearchRound | ILStructureParser/ILReader.cs:119-126 | a round that skips a nested class moves the search forward |
| Reader.NextSplit | ILStructureParser/ILReader.cs:118-126 | the split is -1 or a ".class" position at or after the search start |
| Reader.ClassIdentifierApart | ILStructureParser/ILReader.cs:119 | two occurrences of ".class" never overlap |
| Reader.NextSplitFinds | ILStructureParser/ILReader.cs:118-126 | the split is the first top-level (not nested) ".class" from the search start, or -1 when there is none |
| Reader.PrefixedNone | ILStructureParser/ILReader.cs:133-135 | no jobs done leaves the rest as it is |
| Reader.PrefixedTwice | ILStructureParser/ILReader.cs:133-135 | prefixing twice is prefixing by the concatenation |
| Reader.SplitTableExists | ILStructureParser/ILReader.cs:109-140 | a table of each round's outcome exists for every place the rest of the text may start |
| Reader.SplitTable | ILStructureParser/ILReader.cs:109-140 | the table holds, for each start, where the round searching that rest stops, in whole-text positions |
| Reader.SplitTableForward | ILStructureParser/ILReader.cs:116-126 | a split found lies at least partLength past its start, within the text |
| Reader.JoinedCons | ILStructureParser/ILReader.cs:133-137 | the job texts of a job and the rest are its text followed by theirs |
| Reader.TilesCons | ILStructureParser/ILReader.cs:133-137 | a job followed by jobs tiling from its end tiles from its offset |
| Reader.DivideTiles | ILStructureParser/ILReader.cs:109-140 | the jobs concatenate to the text from the start, each offset is where the one before ends, at most rounds + 1 jobs, each but the last at least partLength long |
| Reader.DivideAtSplits | ILStructureParser/ILReader.cs:128-135 | each job but the first starts where the table says a round stopped |
| Reader.TopLevelSuffix | ILStructureParser/ILReader.cs:142-146 | a top-level class of the rest is one of the whole text |
| Reader.NextSplitTopLevel | ILStructureParser/ILReader.cs:118-126 | a split that is not -1 is a top-level ".class" |
| Reader.SplitFoundAt | ILStructureParser/ILReader.cs:118-126 | a split found in the rest is a top-level ".class" of the whole text |
| Reader.SplitsAtClasses | ILStructureParser/ILReader.cs:118-126 | every place the table says a round stops is a top-level ".class" |
| Reader.SplitEntryAt | ILStructureParser/ILReader.cs:118-126 | the table's entry for a start, when found, is a top-level ".class" |
| Reader.PartitionAtClasses | ILStructureParser/ILReader.cs:109-140 | every job after the first starts with a ".class" whose line holds no "nested" |
| Reader.PartitionTiles | ILStructureParser/ILReader.cs:109-140 | the jobs concatenate to the IL, each offset is the total length of the earlier jobs, at most processorCount jobs, each but the last at least length / processorCount long |
| Reader.DivideAdvance | ILStructureParser/ILReader.cs:133-135 | a round that cuts at e adds the job up to e and moves the offset to the cut |
| Reader.DivideFails | ILStructureParser/ILReader.cs:118-126 | a round whose search raises makes the whole division raise the same exception |
| Reader.DivideStops | ILStructureParser/ILReader.cs:128-137 | the last round (no split, or no rounds left) makes the rest of the text the last job |
| Reader.FindSplit | ILStructureParser/ILReader.cs:118-126 | the inner loop's result is the table's entry for the rest: -1, or a position at least partLength on |
| Reader.DivideWorkForParallelProcessing | ILStructureParser/ILReader.cs:109-140 | the loop's result is the functional division, whose tiling and class-boundary properties are proved above |
| Naming.Bump | ILObfuscator/Obfuscator.cs:54-61 | a bumped seed is non-empty and ends in a lower-case letter |
| Naming.BumpRank | ILObfuscator/Obfuscator.cs:54-61 | a bump keeps a seed a seed ('z'* then a letter) and moves it exactly one place on in the visiting order |
| Naming.SeedAt | ILObfuscator/Obfuscator.cs:17 | the seed after n bumps of "a" is non-empty and ends in a lower-case letter |
| Naming.SeedAtIsSeed | ILObfuscator/Obfuscator.cs:54-61 | the n-th seed is a seed of rank n, so only letters a-z |
| Naming.RankInjective | ILObfuscator/Obfuscator.cs:54-61 | a seed is determined by its rank |
| Naming.SeedAtRank | ILObfuscator/Obfuscator.cs:54-61 | the generator visits every seed: the seed of rank n is the n-th |
| Naming.FirstSeeds | ILObfuscator/Obfuscator.cs:17 | the seeds run "a", "b", ..., "z", "za": the first generated name is "b" |
| Naming.SeedLength | ILObfuscator/Obfuscator.cs:54-61 | the n-th seed has n / 26 + 1 letters |
| Naming.SeedsDistinct | ILObfuscator/Obfuscator.cs:54-61 | the seeds of different calls differ, and a later one is never shorter |
| Naming.SuffixFromIndexOf | ILObfuscator/Obfuscator.cs:63-71 | searching for the backtick from i finds the suffix at IndexOf's first backtick |
| Naming.AritySuffixShape | ILObfuscator/Obfuscator.cs:63-71 | the suffix is empty iff there is no backtick; otherwise it is the old name from its first backtick, less one final quote |
| Naming.AritySuffixStart | ILObfuscator/Obfuscator.cs:63-71 | a suffix that is not empty starts with a backtick |
| Naming.NewNamesDistinct | ILObfuscator/Obfuscator.cs:52-74 | the names of different calls differ, whatever the old names: the seed is what a name holds before its first backtick |
| Naming.NewNamesDiffer | ILObfuscator/Obfuscator.cs:52-74 | the same, for an earlier and a later call |
| Naming.InsertByLength | ILObfuscator/Obfuscator.cs:27 | inserting adds one name |
| Naming.InsertByLengthAdds | ILObfuscator/Obfuscator.cs:27 | inserting adds exactly that name (as a multiset) |
| Naming.InsertByLengthSorts | ILObfuscator/Obfuscator.cs:27 | inserting into a longest-first list keeps it longest first |
| Naming.LongestFirst | ILObfuscator/Obfuscator.cs:27 | sorting keeps the number of names |
| Naming.LongestFirstSorts | ILObfuscator/Obfuscator.cs:27 | OrderByDescending by length is a permutation in non-increasing length order |
| Naming.LongestFirstStable | ILObfuscator/Obfuscator.cs:27 | the sort is stable: names of one length keep their list order |
| Naming.Filter | ILObfuscator/Obfuscator.cs:27 | all the names of one length and only those, in their order (a sub-list) |
| Naming.InsertStable | ILObfuscator/Obfuscator.cs:27 | inserting keeps the order among each length and puts the name last among its own |
| Naming.ClassNames | ILObfuscator/Obfuscator.cs:29 | one name per class, in list order |
| Naming.NameLists | ILObfuscator/Obfuscator.cs:27-29 | one list of top-level class names per assembly |
| Naming.Owners | ILObfuscator/Obfuscator.cs:27-29 | one owner (file name, class names) per assembly |
| Naming.OwnerAt | ILObfuscator/Obfuscator.cs:27-29 | the i-th owner is the i-th assembly's file name and names |
| Naming.Codes | ILStructureParser/Models/Assembly.cs:34 | one IL text per assembly |
| Naming.CodesAt | ILStructureParser/Models/Assembly.cs:34 | the k-th text is the k-th assembly's ILCode |
| Naming.RenamesInOrder | ILObfuscator/Obfuscator.cs:29-31 | one rename per class name |
| Naming.RenamesInOrderNames | ILObfuscator/Obfuscator.cs:29-31 | the i-th rename is of the i-th name, in the given assembly |
| Naming.RenamesInOrderSnoc | ILObfuscator/Obfuscator.cs:29-31 | renaming one more class appends its rename with the next generated name |
| Naming.RenamesInOrderNumbered | ILObfuscator/Obfuscator.cs:29-31 | the i-th rename takes the name of the generator's (first + i + 1)-th call |
| Naming.PlanUpToSnoc | ILObfuscator/Obfuscator.cs:27-33 | the plan of i + 1 assemblies is the plan of i followed by the next assembly's renames |
| Naming.PlanStepIs | ILObfuscator/Obfuscator.cs:27-33 | one assembly's renames are numbered on from the calls made so far |
| Naming.SortedNamed | ILObfuscator/Obfuscator.cs:29 | sorting non-empty names keeps them non-empty |
| Naming.RenamesOrder | ILObfuscator/Obfuscator.cs:27-33 | an assembly renames each of its top-level classes once, longest first, tagged with its file name |
| Naming.PlanNames | ILObfuscator/Obfuscator.cs:27-33 | the generator is called once per rename, in plan order, so no two renames share a seed |
| Naming.NumberedDistinct | ILObfuscator/Obfuscator.cs:27-33 | no two renames of a run get the same new name |
| Naming.PlanUpToNames | ILObfuscator/Obfuscator.cs:27-33 | the same for the first k assemblies |
| Naming.PlanStepNames | ILObfuscator/Obfuscator.cs:27-33 | one more assembly's renames continue the numbering |
| Naming.NumberedAppend | ILObfuscator/Obfuscator.cs:27-33 | numbering carries over a concatenation |
| Naming.ApplyRenamesSnoc | ILObfuscator/Obfuscator.cs:46-49 | one more rename replaces its old name in the text the earlier renames produced |
| Naming.ApplyRenamesAppend | ILObfuscator/Obfuscator.cs:27-33 | renaming by a split run is renaming by the first part, then the second |
| Naming.ApplyAll | ILObfuscator/Obfuscator.cs:46-49 | one renamed text per text |
| Naming.ApplyAllAt | ILObfuscator/Obfuscator.cs:46-49 | the k-th result is the k-th text renamed by the plan |
| Naming.ReplaceAll | ILObfuscator/Obfuscator.cs:46-49 | one replaced text per text |
| Naming.ReplaceAllAt | ILObfuscator/Obfuscator.cs:46-49 | the k-th result is the k-th text with the replacement made |
| Naming.ApplyAllNone | ILObfuscator/Obfuscator.cs:46-49 | no renames leave every text alone |
| Naming.ApplyAllSnoc | ILObfuscator/Obfuscator.cs:46-49 | one more rename is one more Replace on every text |
| Naming.ApplyAllAppend | ILObfuscator/Obfuscator.cs:27-33 | renaming every text by a split run is renaming by each part in turn |
| Naming.ApplyRenamesAbsent | ILObfuscator/Obfuscator.cs:46-49 | a text in which no old name occurs comes through unchanged |
| Naming.RecordEntries | ILObfuscator/Obfuscator.cs:40-44 | recording sets the entry [file][oldName] to newName, creates the inner map when missing, and changes nothing else |
| Naming.RecordAllSnoc | ILObfuscator/Obfuscator.cs:40-44 | one more rename is recorded on the map the earlier ones made |
| Naming.RecordAllAppend | ILObfuscator/Obfuscator.cs:40-44 | recording a split run is recording each part in turn |
| Naming.LastRenameOf | ILObfuscator/Obfuscator.cs:40-44 | -1, or the last rename of that class of that assembly |
| Naming.MapOfFiles | ILObfuscator/Obfuscator.cs:40-44 | the map knows an assembly iff one of its classes was renamed |
| Naming.MapOfLookup | ILObfuscator/Obfuscator.cs:40-44 | the map sends a renamed class to its last rename's new name, and knows no other class |
| NetString.IsAtSuffix | ILStructureParser/ILReader.cs:84 | occurrences in a suffix are occurrences in the whole text, shifted |
| NetString.IndexOf | ILStructureParser/ILReader.cs:119 | -1 and no occurrence from the start on, or the first occurrence at or after the start |
| NetString.IndexOfUnique | ILStructureParser/ILReader.cs:119 | the first-occurrence contract determines IndexOf |
| NetString.IndexOfSuffix | ILStructureParser/ILReader.cs:119 | searching a suffix finds the same occurrence, shifted |
| NetString.IndexOfIn | ILStructureParser/ILReader.cs:145 | -1, or the first occurrence lying wholly inside the window |
| NetString.IndexOfCharIn | ILStructureParser/ILReader.cs:271 | -1, or the first position of the character inside the window |
| NetString.IndexOfInSuffix | ILStructureParser/ILReader.cs:145 | searching a window of a suffix is searching the same window of the whole text |
| NetString.Split | ILObfuscator/Obfuscator.cs:48 | splitting gives at least one piece |
| NetString.ReplaceFromSuffix | ILObfuscator/Obfuscator.cs:48 | replacing from o + i is replacing the suffix from i |
| NetString.ReplaceFromSuffixMatch | ILObfuscator/Obfuscator.cs:48 | the same, when oldValue occurs at o + i: both scans emit newValue and resume after the match |
| NetString.ReplaceFromSuffixCopy | ILObfuscator/Obfuscator.cs:48 | the same, when oldValue does not occur at o + i: both scans copy the same character and resume one further |
| NetString.ReplaceFromCopies | ILObfuscator/Obfuscator.cs:48 | text with no occurrence starting in it is copied through |
| NetString.ReplaceCopiesPrefix | ILObfuscator/Obfuscator.cs:48 | text before the first occurrence is copied through |
| NetString.ReplaceAtFirst | ILObfuscator/Obfuscator.cs:48 | at the first occurrence, Replace copies the text before it, writes the new value, and carries on after the occurrence |
| NetString.SplitAtFirst | ILObfuscator/Obfuscator.cs:48 | splitting at the first occurrence gives the text before it, then the pieces of the text after it |
| NetString.JoinCons | ILObfuscator/Obfuscator.cs:48 | joining a first part onto at least one more puts the separator right after it |
| NetString.SplitJoinAtFirst | ILObfuscator/Obfuscator.cs:48 | splitting and joining again likewise copies the text before the first occurrence, writes the new value, and carries on after it |
| NetString.ReplaceIsSplitJoin | ILObfuscator/Obfuscator.cs:48 | ordinal, left-to-right, non-overlapping Replace equals split on the old value, join with the new |
| NetString.ReplaceAbsent | ILObfuscator/Obfuscator.cs:48 | a text without the old value is unchanged |
| NetString.ReplaceChar | ILStructureParser/ILReader.cs:39 | same length; when the two characters differ, none of the replaced one remains |
| NetString.ReplaceCharIsReplace | ILStructureParser/ILReader.cs:39 | Replace(char, char) gives what Replace(string, string) gives on the two one-character strings |
| NetString.ReplaceCharFrom | ILStructureParser/ILReader.cs:39 | the same, for the text from any index on |
| NetString.TrimStart | ILStructureParser/ILReader.cs:284 | trimming never lengthens |
| NetString.TrimStartShape | ILStructureParser/ILReader.cs:284 | a white prefix is dropped and the result starts with a non-white character or is empty |
| NetString.TrimEnd | ILStructureParser/ILReader.cs:284 | trimming never lengthens |
| NetString.TrimEndShape | ILStructureParser/ILReader.cs:284 | a white suffix is dropped and the result ends with a non-white character or is empty |
| NetString.Trim | ILStructureParser/ILReader.cs:284 | trimming never lengthens |
| NetString.TrimShape | ILStructureParser/ILReader.cs:284 | the result is the slice without leading and trailing white space |
| NetString.LowerAsciiString | ILObfuscator/Obfuscator.cs:112 | same length, and no upper-case ASCII letter remains |
| Paths.LastSeparator | ILStructureParser/Models/Assembly.cs:24-30 | -1, or the last separator of the path |
| Paths.FileName | ILStructureParser/Models/Assembly.cs:24-30 | the longest separator-free suffix of the path |
| Paths.DirectoryName | ILObfuscator/Obfuscator.cs:94 | everything before the last separator: the path is the directory, that separator and the file name |
| Paths.LastDot | ILStructureParser/Models/Assembly.cs:16-22 | -1, or the last '.' of the name |
| Paths.StemExtParts | ILStructureParser/Models/Assembly.cs:16-22 | base name and extension put back together give the name (a trailing dot is dropped) |
| Paths.FileNameParts | ILStructureParser/Models/Assembly.cs:16-22 | base name and extension of a path put back together give its file name |
| Paths.ExtShape | ILObfuscator/Obfuscator.cs:145 | an extension is empty or starts with its only dot |
| Paths.ExtensionShape | ILObfuscator/Obfuscator.cs:145 | the same for a path's extension |
| Paths.ExtensionNoSeparator | ILObfuscator/Obfuscator.cs:145 | an extension holds no separator |
| Paths.StemExtOfJoin | ILObfuscator/Obfuscator.cs:146 | a dotless name followed by an extension splits back into that name and that extension |
| Paths.LastDotIs | ILStructureParser/Models/Assembly.cs:16-22 | the last dot is the one no dot follows |
| Paths.LastSeparatorIs | ILStructureParser/Models/Assembly.cs:24-30 | the last separator is the one no separator follows |
| Paths.CombinedPath | ILObfuscator/Obfuscator.cs:95 | dir\\name has file name name and directory dir |
| Paths.JoinedPathParts | ILObfuscator/Obfuscator.cs:146 | dir\\name+ext has directory dir, base name name and extension ext |
| Paths.JoinNoSeparator | ILObfuscator/Obfuscator.cs:146 | two separator-free parts make a separator-free name |
| Obfuscation.Obfuscator.constructor | ILObfuscator/Obfuscator.cs:17-21 | the seed starts at "a", no call made, empty map |
| Obfuscation.Obfuscator.GenerateNewName | ILObfuscator/Obfuscator.cs:52-74 | the seed is bumped once and the result is the new seed followed by the old name's arity suffix; the map is untouched |
| Obfuscation.Obfuscator.ObfuscateName | ILObfuscator/Obfuscator.cs:38-50 | the map records [assembly file][old] = new and nothing else; every assembly's IL (not only the owner's) has every occurrence replaced; the seed is untouched |
| Obfuscation.Obfuscator.ObfuscateAssembly | ILObfuscator/Obfuscator.cs:29-32 | one generated name per class, longest first; the map and the texts go through exactly those renames |
| Obfuscation.Obfuscator.ObfuscateNext | ILObfuscator/Obfuscator.cs:27-33 | one pass of the outer loop extends the map and the texts from the plan of i assemblies to the plan of i + 1 |
| Obfuscation.Obfuscator.ObfuscateOwners | ILObfuscator/Obfuscator.cs:25-33 | the map is exactly the plan's renames; every text goes through every rename of the plan, in order |
| Obfuscation.Obfuscator.ObfuscateAll | ILObfuscator/Obfuscator.cs:25-33 | from an empty map, the loop over the owners leaves the map holding exactly the plan's renames and every text through every rename of the plan, in order |
| Obfuscation.Obfuscator.Obfuscate | ILObfuscator/Obfuscator.cs:23-36 | the renaming loop: a fresh map holding exactly the plan's renames, one generated name per class, every text renamed by the whole plan |
| Obfuscation.ResourceTarget | ILObfuscator/Obfuscator.cs:138-149 | a file is moved iff its base name is a key of this assembly's map |
| Obfuscation.ResourceTargetParts | ILObfuscator/Obfuscator.cs:138-149 | a moved resource stays in its directory, keeps its extension and takes the mapped new name as its base name |
| Obfuscation.RenamedListing | ILObfuscator/Obfuscator.cs:138-149 | one entry per listed file, moved or not |
| Obfuscation.DllSuffix | ILObfuscator/Obfuscator.cs:112 | a file name ends in ".dll" ignoring case iff its last four characters are '.', 'd' or 'D', 'l' or 'L', 'l' or 'L' |
| Obfuscation.ArgumentsFlag | ILObfuscator/Obfuscator.cs:110-114 | the arguments start with "/DLL " iff the file name ends with ".dll", ignoring case |
| Obfuscation.ArgumentsRes | ILObfuscator/Obfuscator.cs:100-114 | the arguments end with /res:"<res>" iff the .res file exists |
| Obfuscation.IlasmArgumentsRes | ILObfuscator/Obfuscator.cs:92-114 | the .res argument is passed iff <name>.res is in the directory after the resources are renamed |
| Obfuscation.CompiledNames | ILObfuscator/Obfuscator.cs:153 | one name per output file, each a tail of its path that holds no separator |
| Obfuscation.Missing | ILObfuscator/Obfuscator.cs:154 | a sub-list of the names, in their order, none of them compiled |
| Obfuscation.MissingMembers | ILObfuscator/Obfuscator.cs:154 | a name is missing iff it is an assembly's file name and was not compiled |
| Obfuscation.ListingIsJoin | ILObfuscator/Obfuscator.cs:158-167 | with non-empty names the message list is the names joined with ", " |
| Obfuscation.JoinHead | ILObfuscator/Obfuscator.cs:158-167 | a join is at least as long as its first part |
| Obfuscation.JoinSnoc | ILObfuscator/Obfuscator.cs:158-167 | joining one more part appends the separator and the part |
| Obfuscation.SplitJoin | ILObfuscator/Obfuscator.cs:158-167 | the listing splits back into the missing names when no name holds ", " |
| Obfuscation.VerifyAssemblies | ILObfuscator/Obfuscator.cs:151-171 | fails iff some assembly's file name is not among the output names, with the message listing every missing name in assembly order |
| DemoObfuscation.DemoObfuscator.constructor | Demo/ILObfuscator/Obfuscator.cs:15 | the seed starts at "a" |
| DemoObfuscation.DemoObfuscator.GenerateNewName | Demo/ILObfuscator/Obfuscator.cs:40-62 | the seed is bumped once and the result is the seed followed by the arity suffix |
| DemoObfuscation.DemoObfuscator.ObfuscateName | Demo/ILObfuscator/Obfuscator.cs:32-38 | every assembly's IL has every occurrence replaced; no map |
| DemoObfuscation.DemoObfuscator.ObfuscateAssembly | Demo/ILObfuscator/Obfuscator.cs:23-26 | one generated name per class, longest first; every text goes through those renames |
| DemoObfuscation.DemoObfuscator.RenameNext | Demo/ILObfuscator/Obfuscator.cs:25 | one class renamed extends the texts by one rename with the next name |
| DemoObfuscation.DemoObfuscator.ObfuscateNext | Demo/ILObfuscator/Obfuscator.cs:21-27 | one pass of the outer loop extends the texts from the plan of i assemblies to that of i + 1 |
| DemoObfuscation.DemoObfuscator.ObfuscateOwners | Demo/ILObfuscator/Obfuscator.cs:21-27 | every text goes through every rename of the plan, in order |
| DemoObfuscation.DemoObfuscator.Obfuscate | Demo/ILObfuscator/Obfuscator.cs:19-28 | the renaming loop: one generated name per class, every text renamed by the whole plan |
| Lists.SubListSnoc | ILObfuscator/Obfuscator.cs:154 | keeping or leaving out one more element at the end of a filtered list keeps a sub-list |
| DemoObfuscation.ResourceFiles | Demo/ILObfuscator/Obfuscator.cs:82 | a sub-list of the listing, in listing order, each a resource file of the assembly |
| DemoObfuscation.ResourceFilesMembers | Demo/ILObfuscator/Obfuscator.cs:76-85 | exactly the listed files ending in <name>.resource or <name>.res are selected |
| DemoObfuscation.ResourceFilesAppend | Demo/ILObfuscator/Obfuscator.cs:82-85 | selection keeps listing order |
| DemoObfuscation.ResourceArgumentsAppend | Demo/ILObfuscator/Obfuscator.cs:82-85 | each file's /res argument follows those of the files before it |
| DemoObfuscation.ResourceArgumentsEmpty | Demo/ILObfuscator/Obfuscator.cs:82-85 | no resource argument is passed iff no file is selected |
| DemoObfuscation.DemoArgumentsShape | Demo/ILObfuscator/Obfuscator.cs:87-90 | the arguments start with "/DLL " iff the file name ends with ".dll" ignoring case, and end with the quoted IL path and the selected files' /res arguments |

## Left out

- Process launches of ildasm and ilasm, the filesystem (`AddAssembly`, `RecreateDirectory`,
  `MoveAssembliesToDirectory`, writing the IL file, moving resources) and the wait for
  ilasm are I/O. The model keeps only their decision rules, over directory listings given
  as parameters.
- `Task.Run`/`Task.WaitAll` in ParseAssemblies is concurrency. The jobs are parsed one
  after the other into containers of their own and then merged in order. When every job
  succeeds this gives the same result, because the jobs share no state.
- Assemblies.ParseAssembly: when jobs throw, `Task.WaitAll` throws one
  `AggregateException` that wraps the exceptions of all faulted jobs. The model raises
  the exception of the first failing job, unwrapped. Which jobs failed, and the wrapper,
  are not modelled; that an exception ends the round, with Classes as they were, is.
- Assemblies.ParseAssembly: the classes it appends are those of the jobs' scans, merged.
  They are not always the classes that one scan of the whole IL would find, and the model
  does not claim they are. A cut is made at any `.class` whose line lacks `nested`. Such a
  `.class` can follow another dot: in `..class` the whole-text machine is sent back to
  Start by the second dot (KeywordMachine.DoubleDotHidesClass), while the job that starts
  at `.class` finds a class. A nested class whose line lacks `nested` also starts a new
  job; its enclosing class then never meets its closing `}` and keeps EndIndex 0.
- ClassScan.ParseLocated: does not state that a class's name and members lie between its
  StartIndex and EndIndex, because the code does not ensure it. The name is read up to the
  next `"\r\n"`, so on `.class A {\n} X\r\n` the class closes at the `}` and its
  NameStartIndex (at `X`) lies after its EndIndex. What is stated is that the name starts
  after the `.class`.
- `String.IndexOf(string)` and `EndsWith(string)` are culture-sensitive in .NET. They are
  modelled as ordinal. `OrdinalIgnoreCase` folds ASCII letters only.
- The Demo obfuscator imports `ObfuscatorService.Models.Assembly` and
  `ObfuscatorService.ILReader`. Their sources are not part of this model. They are taken to
  be ILStructureParser's Assembly and `ILReader.GetILPath`.
- ILUnit is folded into the `Models.Unit` datatype, with the `ParentClass` field that
  ILReader.cs:160 sets.
- Obfuscation.Obfuscator.Obfuscate: stops before CompileAssemblies, whose parts are
  modelled as separate rules. It requires distinct assemblies and non-empty class names.
  `String.Replace` rejects an empty old name, and the original would throw on one.
- Obfuscation.Obfuscator.ObfuscateName, Obfuscation.Obfuscator.ObfuscateAssembly,
  Obfuscation.Obfuscator.ObfuscateNext, Obfuscation.Obfuscator.ObfuscateOwners and
  Obfuscation.Obfuscator.ObfuscateAll require non-empty class names (`|oldName| > 0`,
  `NonEmpty`, `Named`), as Obfuscate does. On an empty old name `String.Replace` at
  ILObfuscator/Obfuscator.cs:48 throws `ArgumentException`, after the rename has been
  recorded in the map. The parser can produce an empty name, from a `.class` line that ends
  in a space. That exception path is not modelled.
- DemoObfuscation.DemoObfuscator.Obfuscate, DemoObfuscation.DemoObfuscator.ObfuscateOwners,
  DemoObfuscation.DemoObfuscator.ObfuscateNext, DemoObfuscation.DemoObfuscator.ObfuscateAssembly,
  DemoObfuscation.DemoObfuscator.RenameNext and DemoObfuscation.DemoObfuscator.ObfuscateName
  require non-empty class names (and distinct assemblies) for the same reason: on an empty
  old name `String.Replace` throws `ArgumentException`. The parser can produce an empty
  name, from a `.class` line that ends in a space. That exception path is not modelled.
- Obfuscation.Obfuscator.Obfuscate: reads every assembly's class names once, before any
  renaming. The original reads `assembly.Classes` lazily, but renaming rewrites only ILCode
  and never Classes, so the names read are the same.
- Obfuscation.Obfuscator.constructor: the map starts empty. In the original it is null
  until the first Obfuscate, which creates an empty one.
- Obfuscation.RenamedListing: the listing after the moves is taken as the listing with
  each moved file replaced by its target. A move onto an existing file, which would throw,
  is not modelled.
- Obfuscation.Obfuscator.ObfuscateNext, Obfuscation.Obfuscator.ObfuscateOwners,
  Obfuscation.Obfuscator.ObfuscateAll, DemoObfuscation.DemoObfuscator.ObfuscateNext,
  DemoObfuscation.DemoObfuscator.ObfuscateOwners and DemoObfuscation.DemoObfuscator.RenameNext: these are the original's loops and loop
  bodies, written as methods of their own.
- DemoObfuscation.ResourceArgumentsEmpty: its contract follows from the definition
  without induction. It is kept as the statement of the "no resources" case.
- Parser.ParseClasses: requires the functional scan to complete. On text where the
  original throws halfway, the model says nothing about the half-built tree.
- Assemblies.ILReader.ParseAssemblies: on an exception, the model leaves the failing
  assembly's classes as they were. The original has, by then, parsed the jobs into
  containers that are thrown away, so this is the same.
- KeywordMachine.Machine.GoToNextState: requires the final flag down. Stepping a final
  machine would read past the keyword (IndexOutOfRange); the parser always restarts first.
- SimpleILViewer and the Demo's UI are display code and are not modelled.
