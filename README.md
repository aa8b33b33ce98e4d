# Storyteller core, modelled in Dafny

Storyteller is an acceptance-testing tool. Specifications are organised in suites. Fixtures supply the grammars that specifications are written in. A web client talks to the engine through typed messages. This project models seven parts of it and proves properties of each:

- **Suite hierarchy** (client, `suites.dfy`, module `Suites`). Suites hold specifications and child suites; they are built from the suite document with back-references set. The queries are height, all specification ids in pre-order, summary counts, `hasSpec`, `childSuite`, `filter` and `icon`. The in-place updates are `addSpec`, `addChildSuite` and `replaceSpec`. The tree is a value owned by the class `SuiteTree`. A back-reference is the address of the containing suite: the child indices leading to it from the root. Every update keeps every back-reference right and leaves unrelated suites alone.
- **Silent actions** (`silent_action.dfy`, module `SilentActions`). These are grammar steps that run a body with no arguments at a stage. A faulting body records one error result for the section at that stage. A critical action also stops the run.
- **Messaging hub** (`messaging_hub.dfy`, module `Messaging`). It keeps an ordered list of listeners without duplicates. `Send` runs two rounds, typed listeners first and then untyped ones. Each round walks a snapshot taken when that round begins. A listener is a record of its capabilities. What a listener does to the hub while receiving (adding or removing listeners) is a parameter of the send.
- **Fixture library** (`fixture_library.dfy`, module `Fixtures`). It covers:
  - finding fixture types;
  - instantiating and compiling them, with the invalid-fixture fallback;
  - the type cache written before compilation;
  - the paired fixture and model maps, where a miss gives a missing fixture;
  - the `.exe`/`.dll` file filter, using the path rules of `Path.GetExtension`.
- **Spec nodes** (`spec_node.dfy`, module `Persistence`): identity by runtime type and id, the hash code, `WritePath` and `SuitePath`.
- **Save-spec-body messages** (`messages.dfy`, module `Messages`): the fixed discriminators, and the equality and 32-bit wrapping hash of `SpecBodySaved`.
- **Embedded-section grammar** (`embedded_section.dfy`, module `EmbeddedSections`): construction defaults, `buildStep`, `newStep` and navigation.

`wrappers.dfy` holds `Option` (the stand-in for null) and `Result` (the stand-in for an exception).

Two readings of the suite behaviour are fixed by the client test:

- **Suite height.** `height()` counts each suite node plus the specifications under it, which gives the heights 10, 6, 3 and 3 the test expects for the sample document (`Suites.HeightCountsSuitesAndSpecs`, `Suites.SampleHeights`).
- **`hasSpec`.** `hasSpec` looks only at the suite's own specifications, as the test uses it on the suite that directly holds the specification.

## Model

| member | source | states |
|---|---|---|
| Suites.NewSpec | client/lib-tests/test-suite-and-spec-structures.js:9-33 | a new spec keeps id and title, a missing lifecycle becomes Acceptance, and the state starts as none |
| Suites.BuildIsLinked | client/lib-tests/test-suite-and-spec-structures.js:81-85 | building from the document sets every spec's `suite` and every child suite's `parent` to its container, all the way down |
| Suites.SuiteTree.constructor | client/lib-tests/test-suite-and-spec-structures.js:143-160 | the tree is built from the document and is correctly linked, with a root whose parent is unset |
| Suites.HeightCountsSuitesAndSpecs | client/lib-tests/test-suite-and-spec-structures.js:73-79 | height equals the number of suite nodes plus the number of specs in the subtree |
| Suites.SampleHeights | client/lib-tests/test-suite-and-spec-structures.js:73-79 | in the sample document the heights of Top, Sentences, Facts and Tables are 10, 6, 3 and 3 |
| Suites.SampleSpecIds | client/lib-tests/test-suite-and-spec-structures.js:134-136 | the pre-order ids of the sample document are 3, 4, 1, 2, 5, 6 |
| Suites.SummaryCountsEachSpecOnce | client/lib-tests/test-suite-and-spec-structures.js:119-132 | a suite's summary is the tally of all specs under it, each counted exactly once (no double counting through intermediate suites) |
| Suites.TallyAddsUp | client/lib-tests/test-suite-and-spec-structures.js:119-132 | the total is the number of specs; acceptance plus regression is the total; success, failed and none add up to the total when no spec is in error or running |
| Suites.TallyOfPending | client/lib-tests/test-suite-and-spec-structures.js:23-33 | specs that default to Acceptance and state none count toward acceptance, none and total only |
| Suites.SampleSummary | client/lib-tests/test-suite-and-spec-structures.js:120-132 | Sentences summarises to acceptance 4, none 4, total 4 and zero elsewhere |
| Suites.SampleHasSpec | client/lib-tests/test-suite-and-spec-structures.js:111-117 | Facts has spec 1; Top has no spec 'non existent' |
| Suites.ChildSuiteIn | client/lib-tests/test-suite-and-spec-structures.js:91-104 | childSuite finds the first child with the name, or none exactly when no child has it |
| Suites.AddedChildIsFound | client/lib-tests/test-suite-and-spec-structures.js:87-109 | after addChildSuite(name), childSuite(name) finds a child with that name; a new name finds the new child, with path name under the root path '' and parent path + '/' + name otherwise |
| Suites.SuiteTree.AddChildSuite | client/lib-tests/test-suite-and-spec-structures.js:87-109 | the new tree is the old one with the suite at the address replaced by itself plus the new child, whose parent back-reference is set; the tree stays linked, every old address stays valid, unrelated suites are unchanged |
| Suites.SuiteTree.AddSpec | client/lib-tests/test-suite-and-spec-structures.js:162-167 | the new tree is the old one with the spec, its `suite` set to the receiving suite, appended at the address; the tree stays linked, addresses are unchanged, unrelated suites are unchanged |
| Suites.ReplaceKeepsAncestors | client/lib-tests/test-suite-and-spec-structures.js:162-167 | an update at an address changes each of its ancestors, the root included, only in the one child on the way: name, path, parent, own specs and the other children stay |
| Suites.ReplaceHeight | client/lib-tests/test-suite-and-spec-structures.js:73-79 | after an update at an address, the root's height changes by exactly the change in height of the updated suite |
| Suites.ReplaceSummary | client/lib-tests/test-suite-and-spec-structures.js:119-132 | after an update at an address, the root's summary changes by exactly the change in summary of the updated suite |
| Suites.ReplaceSpecEffect | client/lib-tests/test-suite-and-spec-structures.js:189-202 | after replaceSpec with a matching id: hasSpec holds, the new spec is among the suite's specs and among allSpecs, every spec with that id is the new one (the old one is gone), and every other spec keeps its position |
| Suites.SuiteTree.ReplaceSpec | client/lib-tests/test-suite-and-spec-structures.js:189-202 | the new tree is the old one with each spec of the suite at the address that has the id replaced by the new spec, whose `suite` is set to that suite; the tree stays linked and other suites are unchanged |
| Suites.KeepSpecs | client/lib-tests/test-suite-and-spec-structures.js:223-235 | keeps exactly the specs satisfying the predicate, never more than there were |
| Suites.FilterKeepsIdentity | client/lib-tests/test-suite-and-spec-structures.js:226-229 | the filtered copy keeps the suite's name, path and parent |
| Suites.FilterKeepsMatchingSpecs | client/lib-tests/test-suite-and-spec-structures.js:208-278 | the specs under the filtered tree, in pre-order, are exactly the original pre-order specs that satisfy the predicate, in order |
| Suites.FilterDropsEmptySuites | client/lib-tests/test-suite-and-spec-structures.js:267-277 | no suite below the root of a filtered tree is left without specs and child suites |
| Suites.KeptIffSomeSpecSurvives | client/lib-tests/test-suite-and-spec-structures.js:267-277 | a child suite survives filtering exactly when some spec under it satisfies the predicate |
| Suites.FilterChildrenFromOriginals | client/lib-tests/test-suite-and-spec-structures.js:238-278 | every child of a filtered suite is the filtered copy of one of the original children |
| Suites.FirstInState | client/lib-tests/test-suite-and-spec-structures.js:280-336 | finds the first spec in a state, or none exactly when no spec is in it |
| Suites.IconPriority | client/lib-tests/test-suite-and-spec-structures.js:280-336 | the first running spec's own icon wins; otherwise any failed gives 'failed'; otherwise any success gives 'success'; otherwise, also with no specs, 'none' |
| SilentActions.FaultResult | src/StoryTeller.Testing/Grammars/SilentActionTester.cs:40-45 | the error result has the section's id, the stage's name as position, status error, and an error text containing the exception type's name |
| SilentActions.SilentAction.Execute | src/StoryTeller.Testing/Grammars/SilentActionTester.cs:17-62 | the body runs once; a fault adds exactly one result, the error result for the section and stage; a critical action's fault makes CanContinue false |
| SilentActions.ErrorTextNamesShortName | src/StoryTeller.Testing/Grammars/SilentActionTester.cs:45 | the error text contains the exception's short type name, whatever its namespace |
| SilentActions.HappyPath | src/StoryTeller.Testing/Grammars/SilentActionTester.cs:17-27 | executing an action whose body finishes calls the body |
| SilentActions.SadPath | src/StoryTeller.Testing/Grammars/SilentActionTester.cs:30-48 | a teardown action dividing by zero leaves a single result: id "5", position "teardown", status error, text naming DivideByZeroException |
| SilentActions.CriticalPath | src/StoryTeller.Testing/Grammars/SilentActionTester.cs:51-62 | a critical action that faults leaves the context unable to continue |
| SilentActions.SilentAction.AcceptVisitor | src/StoryTeller.Testing/Grammars/SilentActionTester.cs:65-74 | the executor is shown exactly one line: the action itself |
| SilentActions.VisitPath | src/StoryTeller.Testing/Grammars/SilentActionTester.cs:65-74 | visiting an action shows the visitor that very action |
| Messaging.FillFacts | src/Storyteller.Core/Remotes/Messaging/MessagingHub.cs:30-33 | registering puts the listener in the list, adds nothing else, is idempotent and keeps the list free of duplicates |
| Messaging.MessagingHub.AddListener | src/Storyteller.Core/Remotes/Messaging/MessagingHub.cs:30-33 | the list becomes the old list with the listener appended only if it was absent |
| Messaging.RemoveFirst | src/Storyteller.Core/Remotes/Messaging/MessagingHub.cs:35-38 | removal takes out the first occurrence and keeps everything before and after it in order; removing an absent listener changes nothing |
| Messaging.RemoveFacts | src/Storyteller.Core/Remotes/Messaging/MessagingHub.cs:35-38 | in a list without duplicates the removed listener is gone, every other listener stays, and there are still no duplicates |
| Messaging.MessagingHub.RemoveListener | src/Storyteller.Core/Remotes/Messaging/MessagingHub.cs:35-38 | the list becomes the old list with the listener's first occurrence removed |
| Messaging.TypedFor | src/Storyteller.Core/Remotes/Messaging/MessagingHub.cs:42 | the typed round's snapshot holds exactly the registered listeners typed for the message type |
| Messaging.UntypedIn | src/Storyteller.Core/Remotes/Messaging/MessagingHub.cs:43 | the untyped round's snapshot holds exactly the registered untyped listeners |
| Messaging.MessagingHub.Send | src/Storyteller.Core/Remotes/Messaging/MessagingHub.cs:40-44 | the deliveries and the final list are those of the typed round over the list at send time followed by the untyped round over the list as the typed round left it; the list stays duplicate-free |
| Messaging.RoundDeliversSnapshot | src/Storyteller.Core/Remotes/Messaging/MessagingHub.cs:42-43 | a round delivers to exactly its snapshot, in order, whatever the listeners register or unregister meanwhile |
| Messaging.SendOrder | src/Storyteller.Core/Remotes/Messaging/MessagingHub.cs:40-44 | a send delivers to the typed listeners registered at the start, then to the untyped listeners registered once the typed round is over |
| Messaging.QuietSend | src/Storyteller.Core/Remotes/Messaging/MessagingHub.cs:40-44 | when listeners change nothing, typed listeners in registration order come first, then untyped ones, and the list is unchanged |
| Messaging.SendUsesCapabilities | src/Storyteller.Core/Remotes/Messaging/MessagingHub.cs:42-43 | every delivery carries the message and uses a receiver the listener has, so a listener with neither capability receives nothing |
| Messaging.QuietSendPerListener | src/Storyteller.Core/Remotes/Messaging/MessagingHub.cs:42-43 | a registered listener with both capabilities receives the message twice, typed first; with one capability, once; with none, never |
| Messaging.RoundKeepsNoDuplicates | src/Storyteller.Core/Remotes/Messaging/MessagingHub.cs:42-43 | registrations made during a round keep the list free of duplicates |
| Messaging.MessagingHub.SendJson | src/Storyteller.Core/Remotes/Messaging/MessagingHub.cs:46-63 | a message that fails to decode raises before anything is delivered; a decoded message is sent exactly as Send does, for its runtime type |
| Fixtures.IsFixtureType | src/StoryTeller/Model/FixtureLibrary.cs:23-31 | true exactly when the type casts to Fixture, is not hidden, is concrete with a default constructor and is not an open generic |
| Fixtures.FixtureTypesAmong | src/StoryTeller/Model/FixtureLibrary.cs:37 | keeps exactly the exported types that are fixture types |
| Fixtures.FixtureTypesFor | src/StoryTeller/Model/FixtureLibrary.cs:33-43 | the fixture types of an assembly are exactly its exported fixture types, and none when listing the types fails |
| Fixtures.FixtureTypesAmongIdempotent | src/StoryTeller/Model/FixtureLibrary.cs:37 | filtering for fixture types twice is the same as filtering once |
| Fixtures.CompileInvalid | src/StoryTeller/Model/FixtureLibrary.cs:134-145 | the fallback is the invalid fixture for the type and its fault, with the model's implementation set to the type's full name; it fails only when compiling the invalid fixture fails |
| Fixtures.CompiledOutcomes | src/StoryTeller/Model/FixtureLibrary.cs:122-146 | instance and model when instantiation, cast and compile all succeed; otherwise the invalid fixture carrying the failing step's fault (null reference for a failed cast); the key is always the type's |
| Fixtures.CachedBeforeCompile | src/StoryTeller/Model/FixtureLibrary.cs:126-131 | the created instance is cached before compiling, so a compile failure leaves it cached and falls back to an invalid fixture |
| Fixtures.CreateCompiledFixture | src/StoryTeller/Model/FixtureLibrary.cs:122-146 | returns the outcome above and leaves the cache updated as above |
| Fixtures.FixtureLibrary.FixtureFor | src/StoryTeller/Model/FixtureLibrary.cs:20 | reading `Fixtures[key]` gives the registered fixture and leaves the cache alone, or on a miss gives a missing fixture for the key and stores it, as `Lookup` states; models are untouched |
| Fixtures.Lookup | src/StoryTeller/Model/FixtureLibrary.cs:20 | the read key ends up in the cache holding the fixture returned; no other entry changes; a miss returns a missing fixture for the key |
| Fixtures.LookupIsStable | src/StoryTeller/Model/FixtureLibrary.cs:20 | reading the same key again returns the same fixture and changes nothing more |
| Fixtures.FixtureLibrary.Register | src/StoryTeller/Model/FixtureLibrary.cs:67-71 | writes the fixture and its model under the same key; every key with a model keeps a fixture, and a key without a model holds a missing fixture |
| Fixtures.FixtureLibrary.RegisterEach | src/StoryTeller/Model/FixtureLibrary.cs:67-71 | registers each compiled fixture in order |
| Fixtures.RegisterAllPairs | src/StoryTeller/Model/FixtureLibrary.cs:67-71 | for every key registered, both maps hold the fixture and the model of the last compiled fixture with that key; other keys keep what they held |
| Fixtures.RegisterAllSameKeys | src/StoryTeller/Model/FixtureLibrary.cs:67-71 | the fixture map and the model map end with the same keys |
| Fixtures.CompileAll | src/StoryTeller/Model/FixtureLibrary.cs:59-62 | compiles each type in order; fails exactly when some type's fallback cannot be compiled |
| Fixtures.CreateForAppDomain | src/StoryTeller/Model/FixtureLibrary.cs:47-74 | the library registers the compiled fixture types of the directory's assemblies that reference Storyteller, in order, and the cache is updated for each |
| Fixtures.CompileAndRegister | src/StoryTeller/Model/FixtureLibrary.cs:59-71 | each fixture type compiled in order and registered under its key, the cache updated for each; the error of the first stand-in that cannot be compiled aborts |
| Fixtures.FixtureTypesForAll | src/StoryTeller/Model/FixtureLibrary.cs:59-60 | the fixture types of all the assemblies, assembly by assembly |
| Fixtures.ReferencesAssembly | src/StoryTeller/Model/FixtureLibrary.cs:76-79 | true exactly when one of the assembly's references has the given name |
| Fixtures.GetExtension | src/StoryTeller/Model/FixtureLibrary.cs:87-93 | a non-empty extension is a suffix of the path starting with '.', with at least one more character and no further '.' or separator |
| Fixtures.AssemblyExtensionIff | src/StoryTeller/Model/FixtureLibrary.cs:85-93 | a file is considered exactly when its name ends in ".exe" or ".dll", compared without regard to case |
| Fixtures.AssemblyFileNames | src/StoryTeller/Model/FixtureLibrary.cs:85-93 | whatever the rest of the name, files ending ".dll" or ".EXE" are considered; one ending ".dll.config" is not, nor a bare "dll" |
| Fixtures.NameStart | src/StoryTeller/Model/FixtureLibrary.cs:99 | the file name starts just after the last separator, or at the start when there is none |
| Fixtures.LastDot | src/StoryTeller/Model/FixtureLibrary.cs:99 | the last '.' from a given position of the path on (the start of the file name), or none exactly when there is no '.' there |
| Fixtures.FileNameWithoutExtensionShape | src/StoryTeller/Model/FixtureLibrary.cs:99 | the text after the last separator, cut just before its last '.', or all of it when it holds no '.' |
| Fixtures.FirstNamed | src/StoryTeller/Model/FixtureLibrary.cs:97-99 | the first loaded assembly with the name (no earlier one has it), or none exactly when no loaded assembly has it |
| Fixtures.AssemblyFor | src/StoryTeller/Model/FixtureLibrary.cs:97-110 | the first loaded assembly with the file's name when there is one; otherwise whatever loading the file gives (none if loading fails) |
| Fixtures.LoadedAfterGrows | src/StoryTeller/Model/FixtureLibrary.cs:95-110 | considering a file adds to the loaded assemblies exactly the assembly loaded from it, and only when the file is considered, no assembly of its name was loaded and the load succeeds |
| Fixtures.LocateAssembly | src/StoryTeller/Model/FixtureLibrary.cs:97-110 | the mutable local ends as the loaded assembly of that name, else the loaded file, else none |
| Fixtures.ConsiderFile | src/StoryTeller/Model/FixtureLibrary.cs:97-118 | one file yields the assembly found under its name or loaded from it, when its extension is an assembly one and the assembly passes the filter; the loaded assemblies afterwards are `LoadedAfter` of the file |
| Fixtures.AssembliesFromPath | src/StoryTeller/Model/FixtureLibrary.cs:81-120 | yields, in file order, the assemblies of the files with an assembly extension that could be found or loaded and that pass the filter, each file looking among the assemblies loaded by then; returns the loaded assemblies at the end |
| Fixtures.PassFile | src/StoryTeller/Model/FixtureLibrary.cs:95-118 | one pass of the loop: the loaded assemblies move on by one file and what the file yields is appended, so the files still to come yield the rest |
| Fixtures.RemainingFrom | src/StoryTeller/Model/FixtureLibrary.cs:95-118 | the files from a given index on yield what that suffix of the directory's files yields, given the assemblies loaded when it is reached |
| Fixtures.AssembliesFromExactly | src/StoryTeller/Model/FixtureLibrary.cs:95-119 | an assembly is yielded exactly when it passes the filter and some considered file gives it, looked up among the assemblies loaded when that file is reached |
| Fixtures.LoadedAssemblyFoundAgain | src/StoryTeller/Model/FixtureLibrary.cs:95-118 | an assembly loaded from one file is found by name for a later file of the same name, so both files yield it |
| Fixtures.FooFoundTwice | src/StoryTeller/Model/FixtureLibrary.cs:95-118 | with "Foo.dll" loading assembly Foo, the files "Foo.dll" and "Foo.EXE" of one directory both yield it |
| Persistence.SpecNode.WritePath | src/Storyteller.Core/Model/Persistence/SpecNode.cs:15-18 | the path becomes the parent path joined with the name; no other field changes |
| Persistence.SuitePathFollowsPath | src/Storyteller.Core/Model/Persistence/SpecNode.cs:20-23 | the suite path depends on the node's path alone |
| Persistence.SuitePathAfterWrite | src/Storyteller.Core/Model/Persistence/SpecNode.cs:15-23 | after WritePath the suite path is the suite part of the parent path joined with the name |
| Persistence.SpecNode.Equals | src/Storyteller.Core/Model/Persistence/SpecNode.cs:25-36 | false for null, true for the node itself, and otherwise true exactly for a node of the same runtime type with the same id |
| Persistence.SpecNode.GetHashCode | src/Storyteller.Core/Model/Persistence/SpecNode.cs:38-41 | the id's hash, or 0 when there is no id |
| Persistence.EqualsSymmetric | src/Storyteller.Core/Model/Persistence/SpecNode.cs:30-36 | equality is symmetric |
| Persistence.EqualsTransitive | src/Storyteller.Core/Model/Persistence/SpecNode.cs:30-36 | equality is transitive |
| Persistence.EqualNodesHashAlike | src/Storyteller.Core/Model/Persistence/SpecNode.cs:25-41 | equal nodes have equal hash codes |
| Persistence.IdentityIsTheId | src/Storyteller.Core/Model/Persistence/SpecNode.cs:25-28 | two distinct nodes that differ in name, path, lifecycle and file name are equal when they share runtime type and id |
| Persistence.WritePathKeepsIdentity | src/Storyteller.Core/Model/Persistence/SpecNode.cs:15-41 | writing the path changes neither equality with another node nor the hash code |
| Messages.NewSaveSpecBody | src/StoryTeller/Messages/SaveSpecBody.cs:8-14 | a save request has discriminator "save-spec-body" |
| Messages.NewSpecBodySaved | src/StoryTeller/Messages/SaveSpecBody.cs:20-26 | a saved notice has discriminator "spec-body-saved" and the current time |
| Messages.SavedEquals | src/StoryTeller/Messages/SaveSpecBody.cs:28-39 | false against null, true against itself, and otherwise true exactly for a saved notice with the same id and revision |
| Messages.SavedEqualsIsEquivalence | src/StoryTeller/Messages/SaveSpecBody.cs:33-39 | equality is reflexive, symmetric and transitive |
| Messages.RequestIsNotNotice | src/StoryTeller/Messages/SaveSpecBody.cs:37 | a save request never equals a saved notice |
| Messages.SavedHashConsistent | src/StoryTeller/Messages/SaveSpecBody.cs:28-47 | equal notices have equal hash codes |
| Messages.TimeIsIgnored | src/StoryTeller/Messages/SaveSpecBody.cs:26-47 | the time stamp changes neither equality nor the hash code |
| Messages.HashOrZero | src/StoryTeller/Messages/SaveSpecBody.cs:45 | a null string hashes as 0 |
| Messages.SavedHashValues | src/StoryTeller/Messages/SaveSpecBody.cs:41-47 | the hash with neither id nor revision is 0, and the id's hash times 397 wraps around in 32 bits |
| EmbeddedSections.EmbeddedSection.constructor | client/lib/grammars/embedded-section.js:7-17 | the type is 'embedded-section'; the title is the metadata's, or the fixture's title when there is none (absent or empty) |
| EmbeddedSections.TitleScenarios | client/lib/grammars/embedded-section.js:13-16 | with no title or an empty one the fixture's title is used; a given title is kept |
| EmbeddedSections.EmbeddedSection.BuildStep | client/lib/grammars/embedded-section.js:19-27 | the step keeps the data, has no arguments, belongs to this grammar, and holds the section read from the data, or from an empty collection list when there is no data |
| EmbeddedSections.NullDataScenario | client/lib/grammars/embedded-section.js:22 | building from no data gives the same section as building from an empty collection list |
| EmbeddedSections.EmbeddedSection.NewStep | client/lib/grammars/embedded-section.js:30-36 | a new step has empty data, no arguments, this grammar, and a section with no steps of the grammar's fixture |
| EmbeddedSections.EmbeddedSection.SelectNext | client/lib/grammars/embedded-section.js:53-55 | there is never a next location |
| EmbeddedSections.EmbeddedSection.SelectPrevious | client/lib/grammars/embedded-section.js:57-60 | there is never a previous location |
| EmbeddedSections.EmbeddedSection.SelectLast | client/lib/grammars/embedded-section.js:62-65 | the last location is the embedded section's last location for the step |

## Left out

- The suite hierarchy's own source (the client `Suite` and `Specification` classes) is not part of this model. The suite behaviour is the one its test fixes. Three points follow from that:
  - the text of a lifecycle is a `Lifecycle` value;
  - a spec's `status()` and `state` are one field;
  - a spec in state error or running counts only toward its lifecycle and the total.
- Suites.Filter: filtered specifications are kept as they are, including their `suite` back-reference. The copy lives outside any `SuiteTree`. The distinctness of the filtered object from the original is a matter of object identity; on values the original is unchanged by construction.
- Suites.SuiteTree: suites and specs are values inside one tree. Object identity is replaced by addresses, so "the old spec object is absent" is stated as "every spec with that id is the new one".
- SilentActions.SilentAction.Execute: two things the tests do not assert are not stated.
  - when the body completes normally, no result is recorded;
  - a non-critical fault leaves `CanContinue` true.

  The record of an exception keeps only its type name and message, not its stack trace.
- Messaging: a listener's `Receive` is modelled only by the registrations it makes, given as a reaction function. The rest of what it does is not modelled.
  - Exceptions thrown by a listener are not modelled; they would end the send partway.
  - The concurrent mutation of the listener list is not modelled.
  - Listener identity is value equality of the listener record.
  - A typed listener matches the message type exactly; variance of `IListener<T>` is not modelled.
- Messaging.MessagingHub.SendJson: JSON deserialisation with type names is a decode function parameter. Building the closed generic sender by reflection is replaced by sending with the message's runtime type.
- Fixtures: reflection is abstracted to the recorded facts about each type. This covers casting, attributes, constructors, open generics and activation. Also abstracted:
  - `Directory.GetFiles`: the file names are a parameter;
  - `Assembly.LoadFrom`: a function that may fail;
  - the loaded assemblies of the application domain when the scan starts (each assembly the scan loads is added to them as it goes);
  - the base and private bin directory paths;
  - `Fixture.Compile`, whose internals are not part of this model: a function that may fail.
- Fixtures.FixtureCache: the lazy creation that the type cache performs on a lookup miss is not modelled. The fixture key of an invalid fixture is taken to be the type's key.
- Fixtures.CreateForAppDomain:
  - The deferred, interleaved evaluation of the LINQ pipeline is modelled as a sequence of steps in the same order.
  - An exception raised while evaluating `IsFixtureType` lazily is not modelled.
- Fixtures.LoadedAfter: a successful `Assembly.LoadFrom` is taken to add exactly the assembly it returns to the application domain; the assemblies it loads as dependencies, and loads by other threads, are not modelled.
- Fixtures.EqualsIgnoreCase: ordinal case-insensitive comparison folds ASCII letters only.
- Persistence: `Suite.JoinPath` and `Suite.SuitePathOf` are not part of this model. They are parameters, so `SuitePath` is stated only in terms of them: it depends on the path alone, and after `WritePath` it is the suite part of the joined path.
- Messages: `DateTime.Now` is the parameter `now`. The string hash is a parameter. The specification body is opaque text.
- EmbeddedSections:
  - `preview`, `editor` and `buildResults` produce UI components and are not modelled.
  - The base composite grammar is not part of this model. Its `readRawData`, its `readSection`/`writeSection` (modelled as the step's `section` field) and the section's own `selectLast` are parameters. Its taking of the title from the metadata is assumed.
- EmbeddedSections.EmbeddedSection.SelectLast: requires the step to hold a section; on a step without one the source fails with a type error.
