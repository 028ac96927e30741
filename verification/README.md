# Verified models of unrealsdk

Dafny models of the stateful parts of unrealsdk, with proofs. Each module follows one part of the
source; code which changes fields, arrays or lists in place is a class or a method with loops here,
proved against functions and predicates about which the rest is then proved. Protocols between
threads are step functions over all interleavings; what a run of one did is read off its steps, and
none of them can be stuck or busy forever unless this file says so.

**Hooks** (`HookOrder`, `HookRegistry`, `HookWalk`, `HookCalls`, `HookManager`, `FrameArgs`,
`HookTheorems`, `HookScenarios`). The
hook table is a hash table of four interleaved intrusive lists; one node can be the head of several
layers. `HookTable` keeps the real pointers in nodes and buckets; a ghost registry records all nodes
ever inserted, live and removed, and `Valid()` ties the two together. It is proved to be a map from
function and type to an ordered sequence of distinct identifiers, and to keep its shape through every
case of promotion. Nodes carry ghost group numbers; every link, of live and removed nodes, leads
forwards in the lexicographic order of these and the age of the node, which rules cycles out. Removed
nodes keep their links and are in no `modifies` clause of any later operation. Callbacks are arbitrary
lists of operations on the table, nested calls of hooked functions included, and run between two steps
of a walk; the whole walk, with the table after each of these operations, is part of what is proved.
`HookScenarios` drives the real table through concrete cases. The dispatcher models both `ProcessEvent` (without a frame) and `CallFunction` (with one).

**Scanners** (`Sigscan`, `MultiSigscan`, `ScanThreads`, `PatternParser`, `PatternTheorems`). The naive
search; the anchored search for many patterns with its choice of the anchor byte; the lock-free stores
of its threads; and the parser of hex strings. Memory is a total function on addresses, so the bytes
around the scanned region exist and are arbitrary.

**Ownership** (`Ownership`, `UnrealPointer`, `UnrealPointerRuns`, `InlineStruct`, `WeakSerial`). Reference
counts equal the number of holders at all times; objects and blocks are destroyed exactly once.
`UnrealPointerRuns` says what any program which uses these pointers means, as a function of names and
blocks, and that running it has that meaning. `WeakSerial` is the
serial number protocol of weak object pointers.

**Arrays** (`Arrays`, `History`). Growth, failure and cost of engine arrays, and the console history
which is updated in place on top of them, whatever of its memory cannot be had.

**Logger** (`Logger`). The logger thread with its two mutexes and its condition variable.

## Where code and documentation differ

- `add_hook` is documented to return whether the hook was added (src/unrealsdk/hook_manager.h:81).
  After appending to an existing collection the code goes round its loop once more, finds the node it
  just added and returns false. `AddHookReports` says when the two agree, and `AddMisreports` is a case
  where they do not.
- A removed hook may still be called (`RemovedHookStillCalled`): if the running hook removes itself and
  the one behind it, its link still leads there. A hook called next was removed before only if the one
  before it was removed no later (`CalledWhenRemoved`); and once the running hook is removed, the one
  behind it is called next whatever becomes of it (`NextFixedAtRemoval`). Hooks which are never removed
  are all called (`Ran`).
- Hooks which remove and add themselves again are called as long as they do so (`EndlessRun`). A run
  ends when its callbacks add only so many hooks (`BoundedAddsTerminate`).
- The `catch` of the dispatcher falls through to the call of the original. What throws after the
  original ran makes it run twice (`OriginalRunsTwice`), and what throws in a blocked call makes it run
  all the same (`BlockedOriginalRuns`); `RunsExactlyOnce` counts its runs for every call.
- A callback which throws after it wrote the return value has still written it.
- The naive search never looks at the last alignment of the region, and runs on behind a region shorter
  than the pattern. `FastEqualsNaive` says exactly when that, and matches at the edges of the region,
  make a difference.
- With one hardware thread the scanner divides by zero (`MultiSigscan`).
- The overlap of the stretches given to scanner threads is meant for patterns on their boundaries. The
  proof of coverage does not need it: a match is found by its anchor alone, and checked wherever its
  other bytes are.
- Copy assignment of an `UnrealPointer` to itself leaves it null (`Program.CopyAssign`).
- The history moves one element too many, so it needs room for one more than it holds;
  `PastTheEnd` says exactly when an array grown by the history alone has no such room.
- When the copy of a line cannot be allocated, the history has already dropped the entry to make room
  for it (`StringFailureLosesLine`). A failed update changes nothing exactly when it was the array which
  could not grow (`UnchangedIffArrayFails`).
- A wrapper whose struct throws while it is copied leaves a counted controller behind
  (`Engine.CopyWrapper`).
- A callback which adds or removes a log callback stops the logger (`RelockingDeadlocks`).

## Model

| member | source | states |
|---|---|---|
| HookCalls.ObjectNameIsLastPart | src/unrealsdk/hook_manager.cpp:167-173 | the name looked up is the longest suffix of the full name without a separator |
| HookManager.HookTable.Seek | src/unrealsdk/hook_manager.cpp:190-231 | walking one layer from the head of its group finds the first match, or the end of the list when nothing in the table has this identifier |
| HookManager.HookTable.Find | src/unrealsdk/hook_manager.cpp:237-284 | walking down all layers from the bucket finds the hook exactly when the table has it, and where it stands in each layer |
| HookManager.HookTable.AddHook | src/unrealsdk/hook_manager.cpp:175-235 | the entry is appended to its sequence, or nothing changes when its identifier is there; the shape is kept; the result is true only for the first entry of a function and type |
| HookOrder.TableIndexIgnoresNumber | src/unrealsdk/hook_manager.cpp:122-131 | the bucket depends on the index of a name only: its number is thrown away |
| HookManager.HookTable.HasHook | src/unrealsdk/hook_manager.cpp:237-284 | true exactly when the abstract map has the identifier |
| HookManager.HookTable.RemoveHook | src/unrealsdk/hook_manager.cpp:286-414 | exactly the one entry goes, the order of the rest stays, and the shape is kept through all promotions; true exactly when there was such an entry |
| HookRegistry.AddedConsistent | src/unrealsdk/hook_manager.cpp:183-231 | inserting behind the end of any layer, or in an empty bucket, keeps all invariants of the four layers, frozen links of removed nodes included, and appends the entry |
| HookRegistry.RemovedConsistent | src/unrealsdk/hook_manager.cpp:340-414 | removing a node at any place keeps all invariants, and deletes the entry |
| HookRegistry.RemovedLinks | src/unrealsdk/hook_manager.cpp:379-413 | after a removal each link of each remaining live node leads to the next head of its layer, whichever heads were promoted |
| HookRegistry.BypassUnlinks | src/unrealsdk/hook_manager.cpp:379-413 | the assignments of the promotion, bottom up, leave exactly these links |
| HookRegistry.RemovalKeepsFrozen | src/unrealsdk/hook_manager.cpp:286-414 | what the links of nodes removed earlier guarantee survives later removals |
| HookRegistry.AdditionKeepsFrozen | src/unrealsdk/hook_manager.cpp:175-235 | ... and later insertions |
| HookWalk.LinksLeadForwards | src/unrealsdk/hook_manager.cpp:90-97 | every link of every node, live or removed, leads to a node later in the order and in the same group of the layer above |
| HookWalk.NoCycles | src/unrealsdk/hook_manager.cpp:90-97 | no chain of links of any kinds returns to its start, so shared ownership cannot leak |
| HookWalk.CollectionStep | src/unrealsdk/hook_manager.cpp:508-518 | following the link of a collection, even of a removed node, passes no hook which was there together with it and still is |
| HookWalk.TypeStep | src/unrealsdk/hook_manager.cpp:486-506 | the same for the list of types |
| HookWalk.WalkStep | src/unrealsdk/hook_manager.cpp:508-518 | a step of the walk, the table changing arbitrarily during the callback, misses nothing, calls in order, never revisits and has fewer nodes ahead |
| HookWalk.CallsBoundedByAdds | src/unrealsdk/hook_manager.cpp:508-518 | a walk calls at most as many hooks as were known when it started and as its callbacks add |
| HookWalk.NextRemovedAfter | src/unrealsdk/hook_manager.cpp:508-518 | the hook behind a registered one is registered; behind a removed one there may be a removed one, if that was not removed before it |
| HookWalk.StaleHandleComplete | src/unrealsdk/hook_manager.cpp:496-521 | from a handle taken at any earlier time, every hook of the type which was there then and was never removed is called |
| HookManager.HookTable.PreprocessHook | src/unrealsdk/hook_manager.cpp:418-484 | a handle to the first hook of the function exactly when one exists, the library is initialized and no injection was asked for |
| HookManager.HookTable.HasPostHooks | src/unrealsdk/hook_manager.cpp:486-494 | from a possibly stale handle: false only when no post-hook which was there together with it is left, true only when one was registered for this function |
| HookManager.HookTable.RunHooksOfType | src/unrealsdk/hook_manager.cpp:496-521 | every hook which stays is called once and in insertion order, all called were registered for this function and type, and no more than were known and are added; the table after each operation of each callback follows from the one before and each hook called is the one behind the hook before at that moment; the callbacks act on the abstract map as their operations do; the return value each finds is what the ones before left; blocks exactly when one callback returns true without throwing |
| HookCalls.CalledWhenRemoved | src/unrealsdk/hook_manager.cpp:508-518 | the hook called next was removed by then only if the one before it was removed, and no later |
| HookCalls.NextFixedAtRemoval | src/unrealsdk/hook_manager.cpp:508-518 | when the running hook is removed, the hook behind it then is the one called next, removed or not |
| HookScenarios.RemovedHookStillCalled | src/unrealsdk/hook_manager.cpp:508-518 | two hooks, the first of which removes itself and the second: the second is called after that |
| HookScenarios.EndlessRun | src/unrealsdk/hook_manager.cpp:508-518 | two hooks which remove and add themselves again are called more than any given number of times |
| HookScenarios.BoundedAddsTerminate | src/unrealsdk/hook_manager.cpp:508-518 | callbacks which never add more than k hooks in all are called at most k times more than there were hooks |
| HookManager.HookTable.Perform | src/unrealsdk/hook_manager.cpp:23-36 | any run of operations by a callback keeps the table valid, grows it by no more hooks than it adds, and acts on the abstract map and on the flag for injected calls as the same operations do |
| HookScenarios.InjectBypassesOnce | src/unrealsdk/hook_manager.cpp:155-159 | after asking for it, the next call goes by all hooks, whichever function it is of, and the one after it is hooked again |
| HookTheorems.AddsExactly | src/unrealsdk/hook_manager.h:74-86 | an entry goes behind those of its function and type unless its identifier is there, and no other function or type changes |
| HookTheorems.RemovesExactly | src/unrealsdk/hook_manager.h:98-106 | removing takes out the one entry, wherever it stands, and no other function or type changes |
| HookTheorems.TableIsDistinct | src/unrealsdk/hook_manager.cpp:39-45 | in every state the identifiers of a function and type are distinct |
| HookTheorems.RemoveUndoesAdd | src/unrealsdk/hook_manager.h:74-106 | removing an entry just added restores the map for every function and type |
| HookScenarios.AddHookReports | src/unrealsdk/hook_manager.h:75-86 | calling add_hook between two calls of has_hook: the result says whether the hook was added exactly when it was the first of its kind, or was there already |
| HookScenarios.AddMisreports | src/unrealsdk/hook_manager.cpp:223-234 | a second hook of the same kind: not there before, there after, and not reported as added |
| FrameArgs.FFrame.ExtractCurrentArgs | src/unrealsdk/unreal/structs/fframe.cpp:13-40 | evaluates the arguments in order into the offsets of the properties which are not the return value, and stops on the end token |
| FrameArgs.FFrame.ArgumentWritten | src/unrealsdk/unreal/structs/fframe.cpp:28-37 | the i-th expression ends up at the offset of the i-th such property |
| FrameArgs.FFrame.ReturnNotWritten | src/unrealsdk/unreal/structs/fframe.cpp:28-37 | nothing is written where the return value is |
| FrameArgs.ArgumentsExact | src/unrealsdk/unreal/structs/fframe.cpp:28-37 | the arguments are the properties which are not the return value, each as often |
| FrameArgs.ArgumentsInOrder | src/unrealsdk/unreal/structs/fframe.cpp:28-37 | ... and in their order |
| HookManager.HookTable.RunPre | src/unrealsdk/game/bl2/hooks.cpp:185-201 | pre-hooks run, then the original unless blocked; on both paths the code ends up just behind the end token |
| HookManager.HookTable.RunPost | src/unrealsdk/game/bl2/hooks.cpp:92-107 | post-hooks run unless blocked, unconditional ones always, both from the old handle and complete |
| HookManager.HookTable.Dispatch | src/unrealsdk/game/bl2/hooks.cpp:58-114 | a whole call: which hooks and originals run, in which order, and which return value each hook finds; the value the caller finds; the position of the code, and whether the next call is injected, for every behaviour of the callbacks and every point at which something throws |
| HookCalls.CallerFinds | src/unrealsdk/game/bl2/hooks.cpp:88-90 | the caller finds what the last pre-hook to write the return value stored, blocked or not; when none did, or it was cleared, what the function returned, or what was there when blocked |
| HookCalls.PostHooksFind | src/unrealsdk/game/bl2/hooks.cpp:92-98 | post-hooks find the same value, and none when the call was blocked or has no return value |
| HookCalls.TraceShape | src/unrealsdk/game/bl2/hooks.cpp:81-107 | the calls of a dispatch one by one: pre-hooks, the function unless blocked, post-hooks, unconditional ones, each finding what those of its kind before it left |
| HookCalls.LastWriteDecides | src/unrealsdk/unreal/wrappers/property_proxy.cpp:41-43 | after any callbacks, the return value is what the last to write it stored, nothing when that one cleared it, and as before when none wrote it |
| HookCalls.BlocksWhenOneDoes | src/unrealsdk/hook_manager.cpp:508-520 | the verdict of all callbacks is the disjunction of their own |
| HookCalls.BlocksMeans | src/unrealsdk/hook_manager.cpp:508-520 | a call is blocked exactly when one callback returns true and does not store a value where there is none to store |
| HookTheorems.RunsExactlyOnce | src/unrealsdk/game/bl2/hooks.cpp:81-113 | how often the original runs: once, or not at all when blocked, and once more exactly when it throws itself, when storing a return value set by a hook throws, or when post-hooks exist and reading the return value throws |
| HookScenarios.OriginalRunsTwice | src/unrealsdk/game/bl2/hooks.cpp:92-113 | a hooked function which throws runs twice |
| HookScenarios.BlockedOriginalRuns | src/unrealsdk/game/bl2/hooks.cpp:81-113 | a blocked function runs when storing the return value throws |
| HookTheorems.LastWriteWins | src/unrealsdk/game/bl2/hooks.cpp:88-98 | the last pre-hook which sets the return value decides it |
| HookTheorems.ThrowingHookOnlyLosesItsVerdict | src/unrealsdk/hook_manager.cpp:510-517 | a callback which throws neither blocks nor changes the verdict of the others |
| Sigscan.Scan | src/unrealsdk/memory.cpp:47-69 | the lowest match, or 0, among all alignments but the last, or among as many as the wrapped difference of the sizes when the pattern is longer than the region |
| Sigscan.AndBit | src/unrealsdk/memory.cpp:57-58 | a bit of a masked byte is set exactly when it is set in the byte and in the mask |
| Sigscan.AndNibbles | src/unrealsdk/memory.cpp:57-58 | masks made of nibbles keep the high or the low nibble as it is |
| PatternTheorems.AcceptedMatches | src/unrealsdk/memory.h:187-198 | a pattern the parser accepts is found exactly where every nibble which is not a wildcard equals the one in memory |
| Sigscan.SigscanNullable | src/unrealsdk/memory.h:234-237 | that match moved by the offset of the pattern, or 0 |
| MultiSigscan.CountPattern | src/unrealsdk/multi_sigscan.h:66-85 | the saturating counters hold how often each byte occurs, and in how many patterns |
| MultiSigscan.TotalCounts | src/unrealsdk/multi_sigscan.h:66-85 | what is counted is the number of places where the byte is unmasked |
| MultiSigscan.ChooseByte | src/unrealsdk/multi_sigscan.h:131-148 | the byte in enough patterns which occurs least, the first of those; none exactly when there is none |
| MultiSigscan.SetStartOffsets | src/unrealsdk/multi_sigscan.h:150-163 | every pattern's first unmasked occurrence of the byte, and the longest tail behind one |
| MultiSigscan.Preprocess | src/unrealsdk/multi_sigscan.h:53-166 | fails exactly when no byte is eligible, as always with over 255 patterns; else the best one, with all start offsets and the overscan |
| MultiSigscan.NoAnchorNoMatch | src/unrealsdk/multi_sigscan.h:182-197 | where the anchor byte is not, no pattern matches |
| MultiSigscan.MultiSigscanThread | src/unrealsdk/multi_sigscan.h:178-225 | merges exactly the matches whose anchor lies in its stretch, the lowest of each pattern with what was there |
| MultiSigscan.RunThreads | src/unrealsdk/multi_sigscan.h:260-271 | all stretches together cover every anchor position of the region |
| MultiSigscan.MultiSigscan | src/unrealsdk/multi_sigscan.h:235-272 | each result is 0 exactly when no match has its anchor in the region, else the lowest one moved by the offset; no more threads than the hardware has; crashes exactly when there is an anchor byte and one hardware thread |
| MultiSigscan.AnySchedule | src/unrealsdk/multi_sigscan.h:260-271 | every interleaving of the threads which finishes ends with the same results |
| MultiSigscan.ScheduleFinishes | src/unrealsdk/multi_sigscan.h:260-271 | however far the threads are, they can go on until all finished, with those results |
| MultiSigscan.FastEqualsNaive | src/unrealsdk/multi_sigscan.h:178-225 | the fast result is the naive one exactly when neither search finds a match without the other finding one at or below it |
| MultiSigscan.NaiveSeesLess | src/unrealsdk/memory.cpp:54 | for a pattern which fits into the region the naive search sees nothing that the fast one does not, so only the one direction is left of that condition |
| MultiSigscan.LastAlignmentMissed | src/unrealsdk/memory.cpp:54 | a match at the end of the region which only the fast search finds |
| MultiSigscan.LastAlignment | src/unrealsdk/memory.cpp:54 | of the matches inside of the region the naive search misses exactly the one at the last alignment |
| ScanThreads.StepKeepsInvariant | src/unrealsdk/multi_sigscan.h:200-208 | in every interleaving of load, compute and compare-exchange, failing for no reason included, each result is 0 or the least value stored so far |
| ScanThreads.RunNeverGrows | src/unrealsdk/multi_sigscan.h:200-208 | once set, a result never grows and is never unset |
| ScanThreads.StepConserves | src/unrealsdk/multi_sigscan.h:205-208 | what was stored and what is still to be stored is always what was found: no update is lost or repeated |
| ScanThreads.JoinedResult | src/unrealsdk/multi_sigscan.h:269-271 | after all threads finished, each result is the least any of them found, or 0 |
| ScanThreads.FailureMeansProgress | src/unrealsdk/multi_sigscan.h:205-208 | an exchange which fails for a reason fails because another thread stored something |
| ScanThreads.TwoStepsStore | src/unrealsdk/multi_sigscan.h:200-208 | a thread with something to store which is left alone stores it in two steps |
| ScanThreads.EveryScheduleEnds | src/unrealsdk/multi_sigscan.h:200-208 | in every schedule, each step of a thread with something to store which does not fail for no reason uses up some of a potential nothing adds to |
| ScanThreads.StepsAtMost | src/unrealsdk/multi_sigscan.h:200-208 | n matches found by t threads are stored within n(t + 1) + t such steps, in every schedule |
| ScanThreads.CanFinish | src/unrealsdk/multi_sigscan.h:200-208 | from every state which can be reached, a schedule finishes |
| PatternParser.ParseHex | src/unrealsdk/memory.h:163-211 | the parser computes what the string means, by its digits and braces, with the same errors |
| PatternTheorems.IgnoredCharacter | src/unrealsdk/memory.h:154 | a space or closing brace changes nothing, wherever it stands |
| PatternTheorems.AcceptedPattern | src/unrealsdk/memory.h:187-210 | an accepted string gives bytes masked by their mask, the precondition of the scanners, and whole or wildcard nibbles; an offset given is kept |
| PatternTheorems.AcceptedExactly | src/unrealsdk/memory.h:173-205 | accepted is exactly what has two digits for every byte, and no opening brace between the two |
| PatternTheorems.FirstBraceSetsOffset | src/unrealsdk/memory.h:177-183 | without an offset given, the first brace sets it to the number of bytes before it |
| PatternTheorems.CanonicalParsesAlike | src/unrealsdk/memory.h:136-148 | case does not matter, nor which character stands for a wildcard |
| PatternTheorems.ParseInvertsPrint | src/unrealsdk/memory.h:150-166 | parsing the canonical text of any such pattern gives it back |
| PatternTheorems.PrintIsNormalForm | src/unrealsdk/memory.h:150-166 | reprinting and reparsing any accepted string changes nothing |
| UnrealPointer.Control.DestroyObject | src/unrealsdk/unreal/wrappers/unreal_pointer.cpp:24-54 | every element is destroyed once and in order, up to one whose destructor throws |
| UnrealPointer.CleanedUpInOrder | src/unrealsdk/unreal/wrappers/unreal_pointer_funcs.h:25-42 | a block given back is freed last, behind its elements from the first on |
| UnrealPointer.Program.Release | src/unrealsdk/unreal/wrappers/unreal_pointer_funcs.h:12-42 | the count goes down by this holder and never underflows; the last one destroys and frees, also when a destructor throws |
| UnrealPointer.Program.NewOwner | src/unrealsdk/unreal/wrappers/unreal_pointer_funcs.h:44-99 | a new block with one holder, and the address its destruction starts from; nothing is left of it when allocating or setting it up throws |
| UnrealPointer.Block.Base | src/unrealsdk/unreal/wrappers/unreal_pointer_funcs.h:57-86 | the struct, or the property at its own offset, is just behind the control block |
| UnrealPointer.Program.Alias | src/unrealsdk/unreal/wrappers/unreal_pointer.h:115-172 | one more holder of the same block; nothing happens exactly when the count is at its limit |
| UnrealPointer.Program.Move | src/unrealsdk/unreal/wrappers/unreal_pointer.h:173-174 | the reference is handed on, and no count changes |
| UnrealPointer.Program.MoveAssign | src/unrealsdk/unreal/wrappers/unreal_pointer.h:187-191 | the two swap, and no count changes |
| UnrealPointer.Program.CopyAssign | src/unrealsdk/unreal/wrappers/unreal_pointer.h:182-186 | the old reference is given up and the other's shared; null after self-assignment or when either throws |
| UnrealPointerRuns.Perform | src/unrealsdk/unreal/wrappers/unreal_pointer.h:130-196 | an operation acts on names and blocks as it means to (`Apply`): who holds what, who points where, self-assignment, the limit, throwing constructors and destructors included |
| UnrealPointerRuns.RunOps | src/unrealsdk/unreal/wrappers/unreal_pointer.h:130-196 | after any run of operations names and blocks are what the operations mean, every count is the number of holders, and each block was destroyed and freed exactly when it has none |
| UnrealPointerRuns.Run | src/unrealsdk/unreal/wrappers/unreal_pointer.h:130-196 | once all pointers are gone after any run of operations, the blocks are exactly those the run made, and of each the object was destroyed, up to a throwing element, and after that the block freed, exactly once |
| InlineStruct.ReferenceController.RemoveStrongRef | src/unrealsdk/unreal/structs/tsharedpointer.cpp:7-31 | the object goes with the last strong holder and the controller with the last of all |
| InlineStruct.Engine.Get | src/unrealsdk/unreal/properties/zgbxinlinestructproperty.cpp:14-23 | a wrapper is one more strong holder of what the slot holds, if it holds anything |
| InlineStruct.Engine.Set | src/unrealsdk/unreal/properties/zgbxinlinestructproperty.cpp:25-50 | the slot holds what the wrapper holds, or nothing at all, and gives up its own; what the wrapper holds is not destroyed on the way, even if it is the same |
| InlineStruct.Engine.Destroy | src/unrealsdk/unreal/properties/zgbxinlinestructproperty.cpp:52-59 | one strong holder less, and all counts right |
| InlineStruct.Engine.CopyWrapper | src/unrealsdk/unreal/wrappers/wrapped_inline_struct.cpp:21-40 | the copy is the only holder of a controller of its own; when allocating throws nothing changes, and when copying the struct throws a controller is left which nothing holds and which is never given back |
| InlineStruct.Engine.MoveWrapper | src/unrealsdk/unreal/wrappers/wrapped_inline_struct.cpp:42-43 | the reference is handed on, and no count changes |
| InlineStruct.Engine.MoveAssignWrapper | src/unrealsdk/unreal/wrappers/wrapped_inline_struct.cpp:52-56 | the two swap, and no count changes |
| InlineStruct.Engine.DropWeak | src/unrealsdk/unreal/structs/tsharedpointer.cpp:7-18 | the controller goes exactly when neither strong nor weak holders are left |
| InlineStruct.NothingLeaks | src/unrealsdk/unreal/structs/tsharedpointer.cpp:7-31 | without holders left, each object was destroyed, and after that its controller, exactly once |
| WeakSerial.StepKeepsInvariant | src/unrealsdk/unreal/wrappers/gobjects.cpp:104-128 | in every interleaving, each serial number belongs to one object for good |
| WeakSerial.SerialsUnique | src/unrealsdk/unreal/wrappers/gobjects.cpp:104-128 | no two slots share a serial number other than 0 |
| WeakSerial.OneSerialPerObject | src/unrealsdk/unreal/wrappers/gobjects.cpp:113-124 | weak pointers hold the same serial number exactly when they were made for the same object, whatever threads raced |
| WeakSerial.GetIsExact | src/unrealsdk/unreal/wrappers/gobjects.cpp:88-102 | a weak pointer gives its object exactly as long as the slot was not reused |
| WeakSerial.GObjects.SetWeakObject | src/unrealsdk/unreal/wrappers/gobjects.cpp:104-128 | one undisturbed call is a run of the machine, and its result leads to the object at once |
| WeakSerial.EveryCallReturns | src/unrealsdk/unreal/wrappers/gobjects.cpp:104-128 | no other thread can hold a call up: it returns within four steps of its own, with a pointer to its object |
| Arrays.TArray.Reserve | src/unrealsdk/unreal/structs/tarray_funcs.h:21-59 | all or nothing; old elements stay, the new ones are zero unless a block of no elements was reallocated |
| Arrays.TArray.Resize | src/unrealsdk/unreal/structs/tarray.h:75-87 | the count changes or nothing does; the capacity never shrinks and stays in range; the whole memory after it |
| Arrays.WrappedArray.Reserve | src/unrealsdk/unreal/wrappers/wrapped_array.cpp:29-34 | the contents stay, and a capacity below the size is refused |
| Arrays.WrappedArray.Resize | src/unrealsdk/unreal/wrappers/wrapped_array.cpp:36-54 | all or nothing; dropped elements are destroyed once and in order, the others stay, new ones are zero |
| Arrays.KeptAndZero | src/unrealsdk/unreal/wrappers/wrapped_array.cpp:36-54 | what fits is kept where it is, and all that is new is zero |
| Arrays.WrappedMulticastDelegate.PushBack | src/unrealsdk/unreal/wrappers/wrapped_multicast_delegate.cpp:66-71 | appends, or changes nothing; the room there is pays for all copying so far |
| Arrays.WrappedMulticastDelegate.PushAll | src/unrealsdk/unreal/structs/tarray.h:75-87 | n pushes onto an empty array copy at most 11n/3 + 43 elements |
| History.Update | src/unrealsdk/game/bl3/console.cpp:77-120 | which of the two allocations fails, if one does, and the whole array and the strings released in each case, as `Advance` says |
| History.UpdatesEntries | src/unrealsdk/game/bl3/console.cpp:77-120 | when nothing fails, the buffer is the old one without the dropped entry, then the line; the dropped string is released and nothing else |
| History.StringFailureLeaves | src/unrealsdk/game/bl3/console.cpp:97-120 | when the copy of the line fails, the dropped entry is released, and the last slot is empty or, after a move, what was behind the entries |
| History.UnchangedIffArrayFails | src/unrealsdk/game/bl3/console.cpp:97-120 | a failed update changes nothing exactly when it was the array which could not grow |
| History.StringFailureLosesLine | src/unrealsdk/unreal/structs/fstring.cpp:44-62 | entering the older of two lines again without memory for its copy loses it |
| History.UpdateIsRemoveAddTrim | src/unrealsdk/game/bl3/console.cpp:70-75 | at once what the engine does one after the other: remove the line, add it at the bottom, trim the top |
| History.UpdateKeepsHistory | src/unrealsdk/game/bl3/console.cpp:77-120 | lines stay distinct and at most fifty |
| History.UpdateAll | src/unrealsdk/game/bl3/console.cpp:77-120 | any run of lines, in any array, with memory running out at any of them: the array is what the updates one after the other leave |
| History.RunUpdatesEntries | src/unrealsdk/game/bl3/console.cpp:77-120 | when nothing fails, the entries and the strings released, in order, are those of the single updates, whatever the capacity |
| History.AffordableRunIsDone | src/unrealsdk/game/bl3/console.cpp:77-120 | nothing fails when there is memory for the array and for the copy of each line |
| History.RunKeepsNewestLines | src/unrealsdk/game/bl3/console.cpp:70-75 | after any run the history is the fifty lines entered last, in the order in which each was entered last |
| History.RunConserves | src/unrealsdk/game/bl3/console.cpp:97-120 | whatever fails in a run, every string there was or was made is in the history or was released, once |
| History.RunRepeatsNothing | src/unrealsdk/game/bl3/console.cpp:77-120 | whatever fails in a run, there are never more than fifty entries, and none but the empty line is there twice |
| History.AmpleRoom | src/unrealsdk/game/bl3/console.cpp:106-113 | in an array with more than fifty slots no run ever reads past the end |
| History.CapacityOfRun | src/unrealsdk/unreal/structs/tarray.h:75-87 | after any run on a new array, whatever failed in it, the capacity is `CapacityAt` of the number of entries |
| History.PastTheEnd | src/unrealsdk/game/bl3/console.cpp:106-113 | after any run on a new array, the next line makes the code read past the end exactly when it is there already, is not the last, and there are 4, 22 or 47 entries |
| History.SpareSlotMissing | src/unrealsdk/game/bl3/console.cpp:106-113 | the lengths at which an array grown one entry at a time has no slot to spare |
| Logger.NothingLostOrReordered | src/unrealsdk/logging.cpp:55-82 | in every interleaving, delivered, in flight and pending is what was logged by those who gave up the lock with a message in hand, in order; the calls made are each delivered message going to all callbacks registered then, in order, and nothing else; the callbacks registered are what the additions and removals made of them |
| Logger.EveryoneGetsItsTurn | src/unrealsdk/logging.cpp:355-387 | what each thread did is what it set out to do, in that order, but for the one thing it may be at; so when it is idle again its message was logged, its callback added or removed |
| Logger.AdditionEnds | src/unrealsdk/logging.cpp:376-380 | when an addition ends the callback is registered, behind all others |
| Logger.RemovedFrom | src/unrealsdk/logging.cpp:385-386 | a removal takes a callback out wherever it is registered, and leaves the others in order |
| Logger.RemovalEnds | src/unrealsdk/logging.cpp:382-387 | when a removal ends the callback is neither registered nor running, and all others are as they were |
| Logger.NeverEnteredAfterRemoval | src/unrealsdk/logging.cpp:382-387 | after that it is never called again unless it is added again |
| Logger.NoDeadlock | src/unrealsdk/logging.cpp:55-82 | some thread can always go on, or nobody has anything to do, unless a callback is adding or removing one |
| Logger.EveryStepGetsNearer | src/unrealsdk/logging.cpp:55-82 | every step of any thread which does anything gets all of them nearer to the end, in every order, so they cannot keep each other busy |
| Logger.CanDeliverEverything | src/unrealsdk/logging.cpp:55-82 | however a run went, unless a callback is adding or removing one it can be brought to an end, and then everything anyone set out to do was done, and all logged was delivered, in order, to all callbacks registered for it |
| Logger.RelockingDeadlocks | src/unrealsdk/logging.cpp:376-387 | a callback which adds or removes one stops the logger for good |
| Logger.OnlyRelockingStops | src/unrealsdk/logging.cpp:55-82 | with no lock held by others, a logger which is not waiting goes on exactly unless a callback is adding or removing one |
| Logger.WorkerKeepsWake | src/unrealsdk/logging.cpp:359-365 | no notification gets lost |

## Left out

- HookManager.HookTable.Dispatch: does not state where the code stands when something throws after the arguments were read, because the original is then called on code which was already consumed, and what it does there is up to the engine.
- HookManager.HookTable.HasPostHooks: says true only of a hook which was registered at some time, because a stale handle may still lead to a removed one.
- InlineStruct.Engine.CopyWrapper: the copied contents, and reads through the null `base` of a copy, are not modelled.
- Arrays.TArray.Resize: the 64-bit wrap-around of the capacity arithmetic for sizes beyond 2^62 is not modelled.
- Arrays.TArray.Reserve: a failed reallocation is taken to leave the old block alone, also one to zero bytes.
- History.Update: requires the slot behind the last entry when entries move, which the code reads without a check.
- MultiSigscan.MultiSigscan: requires distinct patterns without a result yet; and an image not at the very start of the address space.
- Sigscan.Scan: sizes are those of a 64-bit build, and memory goes on behind a region shorter than the pattern; where the process faults on the way there is not modelled.
- HookManager.HookTable.Perform: fixes the abstract map for operations without nested calls; what a nested call does depends on the links of removed hooks, which the map does not have, so of such a call it only says what `Changed` does.
- UnrealPointer.Program.Destroy: a destructor of an element which throws inside of `~UnrealPointer` would end the program; the model goes on.
- Callbacks are lists of what they do, quantified over, rather than code; the four walks of the hook table, written out four times in the source, share `Seek` and `Descend`; building an `FName` from a string is the function `internName`, and the name of a function is taken to be the one of the last part of its path.
- Exceptions not derived from `std::exception`, which the dispatcher does not catch, and threads using the hook table at once: it is not synchronized.
- The logging of all calls, of errors and of missing parameters; message formatting and sinks.
- The three protocols between threads are modelled on values, as step functions: the scanner's compare-exchange, the weak serial numbers and the logger. Steps are sequentially consistent; serial numbers and reference counts of 32 bits do not overflow.
- The bit set of bytes seen in a pattern is an array of booleans.
- Byte layout, element sizes and addresses within elements; 32-bit sizes.
- The weak pointers of older engines, which by their own documentation may give another object (src/unrealsdk/unreal/wrappers/weak_pointer.h:18-21).
- Detours, page protection, game specific signatures and offsets, property access by type, string conversion, commands and configuration.
- The dispatchers of other games, which repeat this one.
