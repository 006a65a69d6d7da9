# A verified model of Fossil Sys

Fossil Sys is a C library of system utilities with thin C++ wrappers. Most of it forwards to the
operating system; this project models the parts that compute something themselves and proves what
they promise, for every input and every run.

| file | what it models |
|---|---|
| `CStrings.dfy`, `Words.dfy`, `DirectoryEntries.dfy` | C strings in char buffers, 64-bit words as flag sets, the two dot entries |
| `Tokenizer.dfy`, `Bitwise.dfy`, `BitwiseLaws.dfy` | the flag-string codec: `strtok` cutting a buffer in place, the parser, the bounded printer, their round trips |
| `DirectoryDeletion.dfy`, `DirectoryListing.dfy` | recursive deletion over a file tree with faults, and the doubling list of names |
| `EventQueue.dfy`, `EventTimeout.dfy` | the 256-slot event queue, its payload blocks and who owns them; when a wait times out |
| `DynamicLibrary.dfy` | `Dynamic` objects over a reference-counting loader that may fail to close |
| `MemoryBlocks.dfy` | pattern fill and bytewise swap, overlapping ranges included |
| `Environment.dfy`, `EnvironmentValues.dfy`, `EnvironmentIteration.dfy` | the environment behind two key maps, value parsing, and the callback loop |

## How it is built

Where the source changes state, the model is a class or a method with loops over arrays, and its
contract ties the new state to a function or relation of the old one. What that function means is then
stated as lemmas, so that the results hold of the code through the method's contract:

- `Bitwise.Format` leaves `Rendered(Selected(bits, table))` in the buffer; `BitwiseLaws` says what
  parsing that text gives, and exactly when the buffer is large enough.
- `EventQueue.EventSystem` takes, in each method, the step that `EventQueue.Step` describes, and its
  state is always where the run of the calls made so far leads; so ownership and first-in first-out
  order, which are invariants of all runs, hold of the program between any two calls.
- `DynamicLibrary.Dynamic` computes the object steps that `DynamicLibrary.Step` applies to any number
  of objects; `Registry` holds such objects and takes `Step` in each method, so that the loader is only
  ever asked to close a handle that is open.
- `DirectoryDeletion.FileSystem.DeleteRecursive` turns the tree into `Pruned`, which is defined without
  recursion by saying which nodes survive.

What comes from outside is a parameter: the answers of `malloc`, `realloc`, `dlopen` and `dlclose`, the
errno of each system call, the order in which `readdir` lists a directory, the readings of the clock, and
the answers of a callback.

## Findings

- The printer demands one byte more than it needs exactly when nothing is printed before the last
  selected name (`ExactBufferSize`): its test allows for a separator that this name does not get. That
  is a single name, or a name after empty ones only: "ab" after "" is refused 3 bytes
  (`EmptyNameCostsAByte`).
- With masks of several bits, printing and parsing gives the word back exactly if it has no unknown bit
  and no partially set mask (`RoundTripIdentity`): half of a two-bit mask comes back whole (`PartialMaskGrows`).
- Parsing and printing puts a text into canonical form, for every text, exactly if the masks are non-zero
  and share no bit (`CanonicalisesExactly`).
- Swapping two overlapping ranges twice does not restore them (`SwapTwiceIsIdentity`).
- The case-insensitive comparison is not an order on byte strings (`NotTransitiveOnBytes`): at the end of
  a string it subtracts signed chars. Transitivity fails exactly if, in lower case, one of the three
  strings ends where another goes on with an ASCII character and the third with a high byte
  (`TransitiveExactly`). Two strings compare as in lexicographic order exactly if neither goes on with a
  high byte where the other ends (`CompareSign`).
- A re-init over pending events loses their payload blocks; a run ends without a leak exactly if no
  re-init in it finds an event with a payload pending (`ShutdownLeavesOnlyHandedBlocks`); one post and one
  re-init are enough (`ReinitLeaks`).
- A destructor and a move assignment forget the handle of a loaded object even if its close fails, and
  nothing else loses a handle (`NothingAbandoned`, `AllGoneAllClosed`, and `FailedCloseAbandons` for an
  instance).
- The comments in code/logic/fossil/sys/event.h:73 and :83 give the return codes of poll and wait the
  other way round; the model follows the code, as the repository's tests do: 1 for an event, 0 for none.
  The comment at :82 calls a timeout of 0 infinite; in the code it returns at once
  (`ZeroTimeoutEndsAtOnce`).
- Six canonical ids can be read but not written: setting one of them stores a variable that no lookup of
  any key consults (`ReadOnlyIdsAreNotMapped`), so no get ever sees it (`ReadOnlySetIsNeverSeen`).
- A name that cannot be copied is listed as NULL (`KeptInOrder`, `NoNullIffAllCopied`), and the listing
  still reports success (`ListDirectory`).
- A wait on an empty queue never ends early, but the elapsed time is cut to 32 bits. It ends at the first
  due reading of every clock that is read at least every `gap` milliseconds exactly if the timeout is 0
  or `gap` is at most 2^32 minus the timeout (`WaitEndsOnTime`), and only then does it end on every such
  clock on which the timeout falls due (`WaitEndsWhenDue`). Otherwise one clock makes it late
  (`LateClockIsLate`) and another, which moves on at every reading, keeps it spinning for ever
  (`LapClockNeverEnds`).

## Model

| member | source | states |
|---|---|---|
| Bitwise.Strtok.Next | code/logic/bitwise.c:42-53 | each call of the scanner yields the next token of the original text from the buffer it cuts, leaves the rest of the text unread, and answers NULL exactly when no token is left (section 7.24.5.8 of ISO/IEC 9899:2011) |
| Tokenizer.TokensAreMaximalRuns | code/logic/bitwise.c:42-54 | the scan visits exactly the maximal stretches without a bar, each once, from left to right |
| Tokenizer.TokensOfConcat | code/logic/bitwise.c:42-54 | a bar between two texts separates their tokens completely |
| Tokenizer.TokensOfJoined | code/logic/bitwise.c:42-54 | scanning undoes joining with bars, except that empty pieces leave no trace |
| Bitwise.Parse | code/logic/bitwise.c:32-57 | the result is the union of the masks of the tokens of the caller's string, 0 if the copy cannot be allocated; the caller's buffer is not changed |
| BitwiseLaws.MaskOfAllIsLeast | code/logic/bitwise.c:43-54 | the parsed word is the least word that contains the mask of every token |
| BitwiseLaws.ParsedByTokenSet | code/logic/bitwise.c:32-57 | texts with the same set of tokens parse to the same word, whatever their order and repetition |
| BitwiseLaws.ParsedOfConcat | code/logic/bitwise.c:32-57 | parsing two texts with a bar between them is the union of parsing each |
| BitwiseLaws.ParsedOfWord | code/logic/bitwise.c:93-104 | on a single word the parser and lookup agree |
| Bitwise.Lookup | code/logic/bitwise.c:93-104 | 0 exactly when some entry has the name, and then the mask of the first such entry |
| Bitwise.Format | code/logic/bitwise.c:59-91 | succeeds exactly when every selected name passes its bound and the terminator fits; the buffer then holds the rendered names, otherwise the names that were accepted; nothing at or beyond the buffer size is written on any path |
| Bitwise.StampedReadsBack | code/logic/bitwise.c:82-85 | the printer's buffer read as a C string is the rendered text |
| BitwiseLaws.RenderedIsJoined | code/logic/bitwise.c:69-74 | for non-empty names the rendered text is the plain join with bars |
| BitwiseLaws.RenderedExactly | code/logic/bitwise.c:69-74 | for all names: leading empty names leave no trace, and from the first other name on the text is the plain join |
| BitwiseLaws.AcceptedExactly | code/logic/bitwise.c:67 | the printer gets past a name exactly if that name and each before it passes its bound behind the text printed so far |
| BitwiseLaws.SelectedAt | code/logic/bitwise.c:62-64 | the name of each entry that overlaps the word stands behind those of the overlapping entries before it, and no other name is selected |
| BitwiseLaws.ExactBufferSize | code/logic/bitwise.c:59-91 | for every list of names, the printer succeeds exactly if the text and its terminator fit, with one byte to spare if nothing is printed before the last name |
| BitwiseLaws.ExactBufferSizeOfNames | code/logic/bitwise.c:59-91 | for non-empty names: 1 byte for none, two more than the name for one, one more than the join for two or more |
| BitwiseLaws.EmptyNameCostsAByte | code/logic/bitwise.c:64-68 | the names "" and "ab" print a text of two characters that needs four bytes |
| BitwiseLaws.RoundTrip | code/logic/bitwise.c:32-91 | for any table of distinct, non-empty, bar-free names, parsing what was printed gives the union of the masks that overlap the word |
| BitwiseLaws.BufferRoundTrip | code/logic/bitwise.c:32-91 | the same for the bytes that a successful print leaves in the buffer |
| BitwiseLaws.RoundTripIdentity | code/logic/bitwise.c:32-126 | the round trip is the identity exactly on words without unknown bits and without partially set masks |
| BitwiseLaws.PartialMaskGrows | code/logic/bitwise.c:64 | with one two-bit mask, printing and parsing one of its bits gives both |
| BitwiseLaws.RoundTripOfSingleBits | code/logic/bitwise.c:32-126 | with single-bit masks the round trip gives the known bits, hence the word itself exactly when validation accepts it |
| BitwiseLaws.ParseThenFormatCanonicalises | code/logic/bitwise.c:32-91 | with non-zero disjoint masks, printing what was parsed lists the known tokens in table order and drops the rest, and repeating it changes nothing |
| BitwiseLaws.NamesAmongAreDistinct | code/logic/bitwise.c:32-91 | the names listed are pairwise distinct |
| BitwiseLaws.CanonicalisesExactly | code/logic/bitwise.c:32-91 | over well-named tables, the law holds for every text exactly if the masks are non-zero and disjoint |
| Bitwise.All | code/logic/bitwise.c:106-117 | the union of all masks of the table; 0 for a missing table |
| BitwiseLaws.AllBitsIsLeast | code/logic/bitwise.c:106-117 | the union of all masks is the least word that contains each of them |
| BitwiseLaws.KnownBitsAreLeast | code/logic/bitwise.c:106-117 | the same for a table that may be missing, which has no known bits |
| BitwiseLaws.OverlapMaskBounds | code/logic/bitwise.c:59-117 | the round trip contains every known bit of the word and nothing outside the known bits |
| Bitwise.Validate | code/logic/bitwise.c:119-126 | 0 exactly when the table exists and contains every bit of the word |
| Words.ClearLowestIsLess | code/logic/bitwise.c:150-154 | clearing the lowest set bit makes a non-zero word smaller, so the counting loop ends |
| Words.ClearLowestRemovesOne | code/logic/bitwise.c:150-154 | clearing the lowest set bit removes exactly one bit |
| Bitwise.Count | code/logic/bitwise.c:143-157 | the loop returns the number of one bits |
| BitwiseLaws.CountIsNumberOfNames | code/logic/bitwise.c:59-157 | for distinct single bits, the number of known one bits is the number of names printed, and for a valid word the number of all its one bits |
| DirectoryDeletion.FileSystem.DeleteRecursive | code/logic/syscall.c:213-243 | for every tree, readdir order and assignment of faults, exactly the surviving nodes remain, and the return code gives the reason why the directory is still there |
| DirectoryDeletion.FinalErrnoIsExact | code/logic/syscall.c:215-243 | the return code is 0 exactly if the directory was there and is gone |
| DirectoryDeletion.FinalErrnoReasons | code/logic/syscall.c:215-243 | ENOENT, ENOTDIR, the errno of opendir, ENOTEMPTY if a step below failed, or the errno of the last rmdir |
| DirectoryDeletion.RmdirReasons | code/logic/syscall.c:259 | ENOENT for a missing path, ENOTDIR for a file, ENOTEMPTY for a directory with a child, or the errno of the call |
| DirectoryDeletion.FileSystem.DeleteEntries | code/logic/syscall.c:221-241 | the readdir loop removes, below the directory, exactly what does not survive, although the results for children are ignored |
| DirectoryDeletion.FileSystem.DeleteDirectory | code/logic/syscall.c:250-261 | -1 and no change for NULL; the recursive deletion; or a plain rmdir, which removes an empty directory and otherwise returns the reason with no change |
| DirectoryDeletion.PrunedMembers | code/logic/syscall.c:213-243 | nothing outside the subtree changes, and inside it what is left is what survives |
| DirectoryDeletion.SurvivalComesFromBelow | code/logic/syscall.c:221-243 | below directories that are entered, a node survives exactly if its own step fails or a child survives, and exactly if its own step fails or any node below it survives |
| DirectoryDeletion.SurvivorsKeepTheirParent | code/logic/syscall.c:213-243 | survivors are closed under parents up to the starting directory |
| DirectoryDeletion.BlockedKeepsSubtree | code/logic/syscall.c:214-216 | a directory that cannot be entered keeps its whole subtree |
| DirectoryDeletion.LoopDone | code/logic/syscall.c:243 | the final rmdir succeeds exactly if the directory is not to survive, so the return code is exact |
| DirectoryDeletion.EmptyIffNothingBelowFailed | code/logic/syscall.c:230-243 | after the loop the directory is empty exactly if no step below it failed |
| DirectoryDeletion.SubtreeShrinks | code/logic/syscall.c:223-229 | the path built from a name leads to a properly smaller subtree exactly if the name is no dot entry |
| DirectoryDeletion.NoFaultsRemoveAll | code/logic/syscall.c:213-243 | without faults the directory goes with everything below it, and nothing else |
| DirectoryListing.ListDirectory | code/logic/syscall.c:294-377 | the exact return code; on success the slots are the readdir names without the dot entries, in order; on a failed growth -ENOMEM with a full list of the first names; capacity and copying bounds |
| DirectoryListing.ReadEntries | code/logic/syscall.c:346-374 | the capacity is always 10 times a power of two, at most 10 or twice the names before the last, and reallocs move fewer than two pointers for each name |
| DirectoryListing.KeptInOrder | code/logic/syscall.c:355-374 | the list is the readdir sequence without the dot entries, in its order, each wanted entry once |
| DirectoryListing.NoNullIffAllCopied | code/logic/syscall.c:371 | the list has no NULL exactly if every wanted name could be copied |
| EventQueue.EventSystem.Init | code/logic/event.c:42-47 | takes the init step and zeroes all 256 slots; pending payloads are dropped |
| EventQueue.EventSystem.TakeFirst | code/logic/event.c:60-64 | hands out the first event and shifts the others down, leaving the slots from the new count on as they were, stale address included |
| EventQueue.EventSystem.Poll | code/logic/event.c:52-67 | takes the poll step; the caller's event is the old first slot if 1 is returned and untouched otherwise |
| EventQueue.EventSystem.Wait | code/logic/event.c:72-87 | like poll; on an empty queue 0, at the first reading of the clock at which the cut elapsed time has reached the timeout, and before that reading it still spins, with nothing changed |
| EventTimeout.NeverEarly | code/logic/event.c:81-83 | when the loop ends the timeout is due |
| EventTimeout.MillisecondsRoundDown | code/logic/event.c:81 | a million ticks are a second, and milliseconds are rounded down |
| EventTimeout.ZeroTimeoutEndsAtOnce | code/logic/event.c:77-84 | a timeout of 0 ends at the first reading, and only there |
| EventTimeout.WaitEndsOnTime | code/logic/event.c:77-84 | for every bound on the time between readings: on all clocks within it the wait ends at the first due reading, exactly if the timeout is 0 or the bound leaves room for it below 2^32 ms |
| EventTimeout.WaitEndsWhenDue | code/logic/event.c:77-84 | under the same condition, and only then, the wait ends on every such clock on which the timeout falls due |
| EventTimeout.LateClockIsLate | code/logic/event.c:81 | a clock on which the wait goes on after a due reading for as many readings again |
| EventTimeout.LapClockNeverEnds | code/logic/event.c:81 | a clock that moves on at every reading and on which a due timeout is never seen |
| EventQueue.EventSystem.Post | code/logic/event.c:92-116 | takes the post step: a full queue or a failed allocation changes nothing in the queue, otherwise the event and a copy of the buffer are appended |
| EventQueue.PostRefusedExactly | code/logic/event.c:94-106 | a post is refused, with nothing changed, exactly if 256 events wait or a payload has to be copied and malloc answers NULL |
| EventQueue.PostAppendsExactly | code/logic/event.c:97-116 | an accepted post adds one event with the caller's id and size, whose block holds the caller's bytes if there are any, and NULL otherwise |
| EventQueue.PostedIsPolledInTurn | code/logic/event.c:52-116 | after as many polls as events waited, the next poll delivers the id, the size and the bytes of the post |
| EventQueue.EventSystem.Shutdown | code/logic/event.c:121-130 | takes the shutdown step: every queued block is freed once, no other |
| EventQueue.EventSystem.ReceiverWrite | code/logic/event.c:60 | a receiver's write to a handed-out block disturbs nothing in the queue |
| EventQueue.EventSystem.ReceiverFree | code/logic/event.c:60 | a receiver's free of a handed-out block disturbs nothing in the queue |
| EventQueue.EventSystem.Safe | code/logic/event.c:36-130 | between any two calls the array program satisfies the invariant |
| EventQueue.EventSystem.CleanExactly | code/logic/event.c:36-130 | a shutdown after the calls made so far leaves only handed-out blocks, exactly if no re-init among them found a payload pending |
| EventQueue.NextIsStillLive | code/logic/event.c:124-128 | each payload the shutdown loop frees is still live when its turn comes |
| EventQueue.StepKeepsInv | code/logic/event.c:42-130 | every operation keeps prefix ownership, the partition of live blocks, the balance of allocations and frees, and the order of events |
| EventQueue.RunKeepsInv | code/logic/event.c:42-130 | the same over every run |
| EventQueue.BootIsSafe | code/logic/event.c:36-37 | the static state before the first call satisfies the invariant |
| EventQueue.ShutdownKeepsInv | code/logic/event.c:121-130 | shutdown leaves exactly the handed-out and the dropped blocks live |
| EventQueue.ShutdownLeavesOnlyHandedBlocks | code/logic/event.c:42-130 | only blocks in a receiver's hands outlive a run and a shutdown, exactly if nothing had been dropped before and no re-init of the run finds an event with a payload pending |
| EventQueue.NoLeakFromBoot | code/logic/event.c:36-130 | every run from the static state keeps the invariant, and it is free of leaks exactly if no re-init finds a payload pending |
| EventQueue.ReinitLeaks | code/logic/event.c:42-47 | one post with a payload and one re-init: after a shutdown a block is live that nobody holds |
| EventQueue.StepRefinesFifo | code/logic/event.c:52-116 | seen by its users the queue is a first-in first-out queue of capacity 256 |
| EventQueue.PolledPayloadIsPostedBytes | code/logic/event.c:60-107 | the payload a poller gets holds the bytes the poster's buffer had when the post was accepted |
| EventQueue.PayloadsOnce | code/logic/event.c:124-128 | pairwise distinct payloads are freed once each |
| DynamicLibrary.Dynamic.FromPath | code/logic/fossil/sys/dynamic.h:189-192 | a new object that has loaded the path, or an empty one |
| DynamicLibrary.Dynamic.MoveFrom | code/logic/fossil/sys/dynamic.h:244-251 | the new object takes the handle and the flag, the old one keeps neither |
| DynamicLibrary.Dynamic.MoveAssign | code/logic/fossil/sys/dynamic.h:263-277 | releases what the target held, then moves; nothing happens on self-assignment |
| DynamicLibrary.Dynamic.Load | code/logic/fossil/sys/dynamic.h:288-302 | true, with one handle opened and held, exactly if the object was empty, the path is valid and dlopen succeeds; otherwise nothing changes |
| DynamicLibrary.Dynamic.Unload | code/logic/fossil/sys/dynamic.h:312-322 | true, with the handle closed once and let go, exactly if the object was loaded and dlclose succeeds; otherwise nothing changes and the object still owns it |
| DynamicLibrary.LoadsExactly | code/logic/fossil/sys/dynamic.h:153-302 | an object loads exactly if it is empty, dlopen answers with a handle, and the path is not NULL, not empty, without a leading dot and without two dots in a row |
| DynamicLibrary.UnloadsExactly | code/logic/fossil/sys/dynamic.h:312-322 | an object that holds its handle unloads exactly if it is loaded and dlclose succeeds |
| DynamicLibrary.Dynamic.Destroy | code/logic/fossil/sys/dynamic.h:213-220 | lets go of the handle: closed, or abandoned if the close fails |
| DynamicLibrary.Dynamic.LoadLibrary | code/logic/dynamic.c:170-194 | the descriptor gets the handle and status 1 exactly when dlopen succeeds |
| DynamicLibrary.Dynamic.UnloadLibrary | code/logic/dynamic.c:196-210 | the descriptor is cleared exactly when it had a handle and dlclose succeeds |
| DynamicLibrary.Dynamic.IsLoaded | code/logic/fossil/sys/dynamic.h:345 | the flag, which on a sound object agrees with the C function on the descriptor |
| DynamicLibrary.StepKeepsSound | code/logic/dynamic.c:233-237 | every operation keeps the flag of every object in agreement with its descriptor |
| DynamicLibrary.StepConserves | code/logic/fossil/sys/dynamic.h:189-322 | for each handle, every operation keeps opens equal to closes plus owning objects plus abandonments |
| DynamicLibrary.RunConserves | code/logic/fossil/sys/dynamic.h:189-345 | the same over every run of any number of objects |
| DynamicLibrary.OwnersAreObjects | code/logic/fossil/sys/dynamic.h:146-147 | the owners of a handle are counted object by object |
| DynamicLibrary.HeldHandleIsOpen | code/logic/dynamic.c:201 | dlclose is only asked to close a handle that is open |
| DynamicLibrary.RunFromStart | code/logic/fossil/sys/dynamic.h:189-345 | every run that starts without objects is sound and conserves every handle |
| DynamicLibrary.NothingAbandoned | code/logic/fossil/sys/dynamic.h:213-277 | a run abandons no handle exactly if none of its steps is a destructor, or an assignment from another object, whose close fails on a loaded object |
| DynamicLibrary.AllGoneAllClosed | code/logic/fossil/sys/dynamic.h:213-220 | when every object is gone, opens are closes plus abandoned handles; every open has its close exactly if no step abandoned a handle |
| DynamicLibrary.FailedCloseAbandons | code/logic/fossil/sys/dynamic.h:213-220 | one load and one destructor whose close fails: the handle is open and no object is left to close it |
| DynamicLibrary.Registry.HoldsOpen | code/logic/fossil/sys/dynamic.h:213-322 | every live object of a process holds an open handle or none, so each close is of an open handle |
| DynamicLibrary.Registry.MoveAssign | code/logic/fossil/sys/dynamic.h:263-277 | over all objects of a process, takes the move-assignment step and keeps soundness and conservation |
| DynamicLibrary.Registry.Destroy | code/logic/fossil/sys/dynamic.h:213-220 | over all objects of a process, takes the destructor step and keeps soundness and conservation |
| MemoryBlocks.Fill | code/logic/memory.c:242-266 | every byte up to the total is the pattern byte at its index modulo the pattern size, the ragged tail included; nothing beyond is written; NULL for invalid arguments |
| MemoryBlocks.TestNeverWrapsExactly | code/logic/memory.c:255 | the exact condition under which the loop's sum of two sizes never wraps |
| MemoryBlocks.TestNeverWrapsBelowHalf | code/logic/memory.c:255-258 | it never wraps when the total is below half the address space |
| MemoryBlocks.Swap | code/logic/memory.c:287-303 | the memory after the loop, for any two ranges of one memory; no change for NULL |
| MemoryBlocks.SwapClosedForm | code/logic/memory.c:297-302 | where each byte comes from when the ranges are a distance apart, whatever the overlap |
| MemoryBlocks.SwapExactly | code/logic/memory.c:297-302 | the same with remainders: the lower bytes move down by the distance, and the last ones repeat the leading bytes |
| MemoryBlocks.SwapCommutes | code/logic/memory.c:297-302 | it does not matter which range is named first |
| MemoryBlocks.SwapKeepsBytes | code/logic/memory.c:297-302 | no byte is lost or invented |
| MemoryBlocks.SwapExchangesDisjoint | code/logic/memory.c:297-302 | ranges that do not overlap are exchanged and nothing else changes |
| MemoryBlocks.SwapTwiceIsIdentity | code/logic/memory.c:297-302 | swapping twice restores every memory exactly when the ranges coincide, are empty or do not overlap |
| Environment.Lookup | code/logic/env.c:90-282 | get runs inside get at most once: exactly for the ids that stand for another name |
| Environment.GetIsOneLookup | code/logic/env.c:90-282 | every lookup comes down to one variable and a default |
| Environment.GetOfDirectoryIds | code/logic/env.c:156-261 | the variables and the default behind the ids of directories |
| Environment.GetOfUserIds | code/logic/env.c:231-266 | the variables behind the ids of the user and the cache |
| Environment.GetOfRuntimeIds | code/logic/env.c:191-214 | the variables behind the ids of the runtime |
| Environment.GetOfLogIds | code/logic/env.c:199-206 | the variables behind the ids of its log |
| Environment.GetOfAppIds | code/logic/env.c:217-228 | the variables behind the ids of the application |
| Environment.GetOfConstantIds | code/logic/env.c:96-155 | the four ids that are answered without a variable |
| Environment.OtherKeysReadThemselves | code/logic/env.c:268-273 | every key but the twenty ids is the name of a variable |
| Environment.WriteNames | code/logic/env.c:289-336 | the variables that a set of the fourteen mapped ids writes to |
| Environment.OtherKeysWriteThemselves | code/logic/env.c:289-336 | a set of any other key writes to the variable of that name |
| Environment.MapsAgree | code/logic/env.c:156-336 | outside the six read-only ids both key maps name the same variable |
| Environment.ReadOnlyIdsAreNotMapped | code/logic/env.c:90-347 | the six ids that resolve_id knows and set does not are written under their own name, which the lookup of no key reads |
| Environment.ReadOnlySetIsNeverSeen | code/logic/env.c:90-347 | setting one of the six changes the answer of get for no key |
| Environment.Process.Set | code/logic/env.c:284-347 | the environment and the return code after a write, an unset, or a failure |
| Environment.SetSucceedsExactly | code/logic/env.c:284-347 | a set answers 0 exactly if it writes to a valid name and setenv, if called, has memory; otherwise -1 with nothing changed |
| Environment.GetenvAfterSet | code/logic/env.c:341-345 | a successful write changes the value of one variable and of no other |
| Environment.SetChangesOnlyAliases | code/logic/env.c:90-347 | a write shows through another key only if both stand for one variable |
| Environment.SetReachesEveryAlias | code/logic/env.c:90-347 | a successful write is what every key for that variable reads |
| Environment.GetAfterSet | code/logic/env.c:90-347 | after a successful set, get returns the value for every key but the six, whose get is unaffected; unsetting gives NULL, or /tmp for fossil.sys.tmp |
| EnvironmentValues.Stricmp | code/logic/env.c:40-55 | the loop computes the comparison; -1 if either string is NULL |
| EnvironmentValues.CompareSign | code/logic/env.c:40-55 | the result has the sign of lexicographic order on lower-cased strings exactly when no string goes on with a high byte where the other ends |
| EnvironmentValues.CompareZero | code/logic/env.c:40-55 | the result is 0 exactly for strings that differ in case only |
| EnvironmentValues.CompareAtDifference | code/logic/env.c:45-54 | the result is the difference of the lower-cased characters at the first position where they differ, as unsigned values, or of the characters at the end of the shorter string, as signed ones |
| EnvironmentValues.LowerOfCapitals | code/logic/env.c:47-48 | each of the 26 capitals becomes its small letter |
| EnvironmentValues.LowerChangesCapitalsOnly | code/logic/env.c:47-48 | nothing else changes |
| EnvironmentValues.TransitiveExactly | code/logic/env.c:40-55 | for all byte strings, transitivity fails exactly on the triples in which one string ends where another goes on with an ASCII character and the third with a high byte |
| EnvironmentValues.AsciiPreorder | code/logic/env.c:40-55 | on ASCII strings a total preorder whose ties are equal in lower case |
| EnvironmentValues.NotTransitiveOnBytes | code/logic/env.c:54 | three byte strings on which the comparison runs in a circle |
| EnvironmentValues.ParseBool | code/logic/env.c:57-77 | 1 for the three true words in any case, 0 for the three false words, the default otherwise and for NULL |
| EnvironmentValues.BoolOfWords | code/logic/env.c:57-77 | "1", "true" and "yes" in any case give 1, "0", "false" and "no" give 0, everything else and NULL the default |
| EnvironmentValues.BoolOfIsOrderFree | code/logic/env.c:57-77 | no word is on both lists, and the default comes back exactly when there is no value or it is none of the six words |
| EnvironmentValues.NumeralIsRead | code/logic/env.c:372 | white space, an optional sign and digits are read to the end, with the value saturated to long (section 7.22.1.4 of ISO/IEC 9899:2011) |
| EnvironmentValues.OnlyNumeralsAreRead | code/logic/env.c:374 | nothing else is read to the end |
| EnvironmentValues.DefaultIffNoNumeral | code/logic/env.c:365-380 | the default comes back exactly when the value is missing or is not an integer from beginning to end |
| EnvironmentValues.NumeralValue | code/logic/env.c:379 | otherwise the result is the low 32 bits of the saturated value |
| EnvironmentValues.SpacesAndDigits | code/logic/env.c:372 | which characters are white space and which are digits |
| EnvironmentValues.DecValueOfConcat | code/logic/env.c:372 | digit strings have their value in positional notation |
| EnvironmentValues.DigitValues | code/logic/env.c:372 | the digits have the values 0 to 9 |
| EnvironmentValues.SaturateIsClosest | code/logic/env.c:372 | beyond the range of a 64-bit long its closest bound is read |
| EnvironmentValues.ToInt32Exactly | code/logic/env.c:379 | the result is the one 32-bit value congruent to the long modulo 2^32 |
| EnvironmentValues.LayoutDoesNotMatter | code/logic/env.c:365-380 | white space before the numeral, leading zeros and a plus sign do not change the value |
| EnvironmentValues.SetThenGetInt | code/logic/env.c:284-380 | a 32-bit integer written in decimal under any key that set and get agree on is read back |
| EnvironmentIteration.Foreach | code/logic/env.c:392-464 | the calls are the eligible entries in order, up to and including the first that answers non-zero |
| EnvironmentIteration.CallsInOrder | code/logic/env.c:435-461 | slot by slot the calls are those of the entries whose first equals sign is within the first 256 characters, split there, each once, in the order of the environment |
| EnvironmentIteration.CallsRejoin | code/logic/env.c:441-455 | each key has no '=' and fits its buffer, and key, '=' and value make up an entry of the environment |
| EnvironmentIteration.CallsAgreeWithGet | code/logic/env.c:269-461 | without duplicate names, what the callback sees under a non-empty key that is no canonical id is what get returns for it |

## Left out

- Host information (code/logic/hostinfo.c) and processes (code/logic/process.c): their values come from the platform.
- The remaining calls in code/logic/syscall.c and code/logic/memory.c, and fossil_sys_bitwise_name: single calls or a single branch.
- The Windows and macOS branches, the compiler built-in for counting bits, and the C++ wrappers other than `Dynamic`, which only forward.
- Symbolic links, truncation of joined paths to PATH_MAX, closedir, a readdir that does not deliver a snapshot, and other processes changing the tree during a deletion.
- Loading details of shared libraries: the resolved file name, the id and path pointers, the error text, symbol lookup, and writes through the mutable `raw()` accessor.
- Environment lookups follow POSIX in that a variable's name is never empty and contains no '='; the lifetime of returned strings is not modelled, and the architecture, page size and processor count are constants.
- Size arithmetic in the printer and in the listing is unbounded: names and lists that exist in memory are far too short for `size_t` to wrap.
- EventQueue.EventSystem.Wait: nobody else posts while the loop spins, and `clock_t` does not wrap, which takes some 292 years of processor time.
- EnvironmentIteration.Foreach: a callback that changes the environment while it is iterated is not modelled.
