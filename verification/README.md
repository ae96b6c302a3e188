# Verified models of PLEXIL's containers, tree search and sample adapter

This project models, in Dafny, the parts of PLEXIL whose behaviour is decided by a few dense pieces
of code, and proves what that code keeps, over all inputs and all runs. Where the code does
not do what its callers assume, the model keeps the code as it is, a lemma names an input, and the
exact condition under which the assumption holds is proved.

Verify with `dafny verify dfyconfig.toml`.

## What is modelled

| files | part of the system |
|---|---|
| `XmlTree.dfy` | `xml_node::find_node` of pugixml: depth-first search with one cursor and no stack, over first-child, next-sibling and parent links |
| `Bisect.dfy`, `SimpleMap.dfy`, `MapUtils.dfy`, `Text.dfy` | `SimpleMap`, a sorted vector searched with `std::lower_bound` (section 25.3.3.1 of ISO/IEC 14882:2003, written as its halving loop), and the string comparators over `strcmp` and `strncmp` (sections 7.21.4.2 and 7.21.4.4 of ISO/IEC 9899:1999) |
| `PrefixLookup.dfy`, `ValueTypeTable.dfy` | `findFirst` and `findLast` with the prefix comparator, and the one table in the repository that is searched so |
| `QueueRuns.dfy`, `QueueLinks.dfy`, `LinkedQueue.dfy` | `LinkedQueue`, whose link lives in the queued item: as steps on a chain, a tail and a count, as steps on one store of links that several queues write, and as objects |
| `ExecQueueRuns.dfy`, `ExecLinks.dfy`, `ExecQueues.dfy` | the executive's three node queues over one shared link field, with the queue status of each node: on chains, on the links, and as objects |
| `Substrings.dfy`, `DebugFlags.dfy`, `DebugFlagPasses.dfy` | the extract, sort and dedupe passes of `debugFlagCollector.py`, one by one and together |
| `SampleRuns.dfy`, `SampleAdapter.dfy` | the sample application: commands, subscriptions, synchronous publication and the events sent to the executive |
| `StateText.dfy` | the printers of states, `AdapterExecInterface::getText` and `State::print` |
| `Common.dfy` | an option type and freedom from repeats, shared by the others |

The pure files hold state machines and the theorems about runs; the class and method files hold the
code in its own imperative form, each operation proved to take exactly the step the state machine
takes. For the queues that is the step on the links, which is defined in every state; the steps on
chains in `QueueRuns` and `ExecQueueRuns` describe the code where `QueueLinks.StepShows` and
`ExecLinks.DoShows` say so.

## What the proofs found

- `LinkedQueue::remove` leaves the tail pointer on an item it takes off the end of two or more. A
  later push to the non-empty queue then counts an item that is not queued
  (`QueueRuns.LostPush`). Runs agree with a mathematical queue exactly when no such push happens
  (`QueueRuns.AgreesIff`).
- In the executive, when the last of several candidates is finished, it goes on to the queue of
  finished roots, so that the candidates' tail stands in that chain, and the next candidate is marked
  and counted as one but linked in there (`ExecLinks.AskedWhileAstray`). If nothing comes between, it
  is dropped when the finished plans are deleted, and asking again does nothing
  (`ExecLinks.FinishedLastStarves`). If another root is finished between, that root is cut off and
  never deleted; the node, which is not finished, is deleted in its place if it is a plan, and stops
  the deletion with an internal error if it is not (`ExecLinks.RootLostNodeDelivered`;
  `ExecLinks.LiveNodeDelivered` is a cycle of the executive that leads there from start-up).
- The executive can also remove a node from consideration, although nothing in `src` outside its
  test module calls `removeNodeFromConsideration`. Where that takes the last of several candidates,
  the next one is in no queue (`ExecLinks.RemovedLastStarves`); where the node waits in another queue,
  it can come to follow itself, after which removing any other node never returns
  (`ExecLinks.RemovalNeverComesBack`).
- That each node is in the one queue its status names (plexil-4/src/exec/PlexilExec.cc:507), with
  every tail in place, holds on the links after every operation of a run, plans being added at any
  time, exactly when neither unsafe operation occurs (`ExecLinks.AlwaysInOrderIff`).
- The prefix comparator is not partitioned over every sorted store: with "ab" and "abc" stored,
  neither lookup finds the "ab" that begins "abd" (`PrefixLookup.AbIsMissed`).
  `PrefixLookup.PartitionedIff` is the exact condition. The lookups themselves are right for every
  index exactly under a weaker condition on the store (`PrefixLookup.FindFirstAlwaysRightIff`,
  `PrefixLookup.FindLastAlwaysRightIff`). Partition fails for the shipped table of type names, and
  yet `findLast` is right there for every text, because the halving search never probes an entry
  that misleads it (`ValueTypeTable.TableAlwaysRight`, `ValueTypeTable.TableNotPartitioned`).
- `remove_duplicate_flags` cuts the source text short exactly when a "DEF=" stands before the
  definition (`DebugFlags.SourceRecoveredIff`); a tag that holds one loses it all
  (`DebugFlags.SourceLost`). The tags are not themselves in order in the output
  (`DebugFlags.TagsNeedNotBeSorted`), but each is listed once.
- The sample application looks up `at` but publishes `At`, and only with true
  (`SampleRuns.AtOnlyTrue`). A changed lookup is published exactly for Size, Speed and Color without
  arguments and for a place or a pair of coordinates that becomes true (`SampleRuns.NewsArePublished`);
  the place itself, looked up without arguments, changes in silence
  (`SampleRuns.PlaceIsNotPublished`). So a subscribed copy is right after every run exactly for Size,
  Speed and Color without arguments, and where nothing is ever known or published
  (`SampleRuns.AlwaysRightIff`).
- A printed state can be read back exactly when its name holds no '(', no parameter text holds the
  separator, and it is not the state with one empty parameter text (`StateTexts.ReadBackIff`,
  `StateTexts.EmptyParameterMistaken`); every other state prints like some state that can be read
  back (`StateTexts.MistakenIff`).

## Model

| member | source | states |
|---|---|---|
| XmlTree.FindNode | plexil-4/include/pugixml.hpp:556-577 | On every finite tree and predicate the cursor loop returns what the recursive depth-first search below the root returns; the nodes tested are a beginning of document order below the root, all of it when nothing matches, ending in the found node otherwise; at most 2 cursor moves per tested node; it terminates |
| XmlTree.SearchForestIsFirstMatch | plexil-4/include/pugixml.hpp:555-577 | The recursive search is the first match in recursive preorder |
| XmlTree.FirstMatchMeans | plexil-4/include/pugixml.hpp:555-577 | Null exactly when no descendant matches; otherwise a match with no match before it |
| XmlTree.TestedOnce | plexil-4/include/pugixml.hpp:560-574 | No node is tested twice, and the search root never, whatever siblings the root has |
| XmlTree.ForestNoRepeats | plexil-4/include/pugixml.hpp:560-574 | The links alone make document order free of repeats: no finite tree reaches one node on two ways |
| XmlTree.StepDown | plexil-4/include/pugixml.hpp:566 | Going to the first child leaves the unvisited rest of the order as the children followed by what came after the cursor's subtree |
| XmlTree.StepAcross | plexil-4/include/pugixml.hpp:567-572 | Going to the next sibling leaves exactly what came after the cursor's subtree |
| Bisect.SearchEndsAt | plexil-4/include/SimpleMap.hh:138-139 | Without assuming a partition: the halving search ends at a position if and only if every entry probed on the way there answers as if the answers were partitioned there |
| Bisect.SearchSeparates | plexil-4/include/SimpleMap.hh:138-139 | Whatever the answers, the search stops between an entry that answered true and one that answered false |
| Bisect.SearchFindsPartition | plexil-4/include/SimpleMap.hh:138-139 | On partitioned answers it ends at the partition point |
| Bisect.LowerBound | plexil-4/include/SimpleMap.hh:138-139 | The halving loop ends where the search does, with at most floor(log2 n) + 1 comparisons |
| Bisect.Log2IsFloor | plexil-4/include/SimpleMap.hh:138-139 | The bound used is the floor of the binary logarithm |
| SimpleMaps.RunRefines | plexil-4/include/SimpleMap.hh:124-177 | Over every run of insert, operator[], assignment through it, find and clear, the vector stays strictly sorted and the map and every returned value are those of a finite map |
| SimpleMaps.StepRefines | plexil-4/include/SimpleMap.hh:124-177 | One operation, from any sorted vector |
| SimpleMaps.LookupAgrees | plexil-4/include/SimpleMap.hh:135-155 | A key is in the map exactly when the entry where lower_bound ends holds it, with the map's value |
| SimpleMaps.InsertKeepsOrder | plexil-4/include/SimpleMap.hh:127-132 | Inserting an absent key where lower_bound ends keeps the vector strictly sorted and adds that binding only |
| SimpleMaps.AssignKeepsOrder | plexil-4/include/SimpleMap.hh:157-165 | Writing through the returned reference changes that binding only |
| SimpleMaps.AsMapBinds | plexil-4/include/SimpleMap.hh:124-133 | With distinct keys the map has the bindings of the entries and no others |
| SimpleMaps.IndexedFindAgrees | plexil-4/include/SimpleMap.hh:185-195 | The indexed find returns the entry of the keyed find whenever the index comparator's order and equality agree with the key order through a conversion |
| SimpleMaps.SimpleMap.Insert | plexil-4/include/SimpleMap.hh:124-133 | False exactly on a present key, then nothing changes; otherwise exactly the new binding is added; the step taken is the one RunRefines speaks of, with at most floor(log2 n) + 1 less-than comparisons and one equality test |
| SimpleMaps.SimpleMap.Find | plexil-4/include/SimpleMap.hh:135-155 | The entry of the key, or end() exactly when the map has none, as in the run; at most floor(log2 n) + 1 less-than comparisons and one equality test |
| SimpleMaps.SimpleMap.At | plexil-4/include/SimpleMap.hh:157-165 | Non-const operator[]: the bound value, or the default value after adding only that binding, as in the run and within the same bounds |
| SimpleMaps.SimpleMap.Assign | plexil-4/include/SimpleMap.hh:157-165 | Assignment through operator[] binds the key and changes nothing else, as in the run and within the same bounds |
| SimpleMaps.SimpleMap.ConstAt | plexil-4/include/SimpleMap.hh:167-177 | Const operator[]: the bound value, or the default value, as in the run and within the same bounds |
| SimpleMaps.SimpleMap.InsertEntry | plexil-4/include/SimpleMap.hh:272-275 | The entry goes before the iterator and the iterator to it is returned |
| SimpleMaps.SimpleMap.Clear | plexil-4/include/SimpleMap.hh:245-248 | No entry is left, as in the run |
| SimpleMaps.SimpleMap.FindIndexed | plexil-4/include/SimpleMap.hh:185-195 | The result of the exact lookup on the comparator's answers, on any store, within the same bounds |
| SimpleMaps.SimpleMap.FindFirst | plexil-4/include/SimpleMap.hh:198-207 | The result of the first-match lookup on the comparator's answers, partitioned or not, with one match test at most |
| SimpleMaps.SimpleMap.FindLast | plexil-4/include/SimpleMap.hh:210-223 | The scan from lower_bound ends at the last entry of the unbroken run of matches that starts there, with at most one match test beyond the matches |
| MapUtils.CStringBelowIsStrictTotal | plexil-4/include/map-utils.hh:44-57 | strcmp orders C strings strictly and totally, and its equality is equality of text |
| MapUtils.StringFindAgrees | plexil-4/include/map-utils.hh:49-62 | A std::string map searched with a C string returns the entry bound to that text, or end() exactly when there is none |
| MapUtils.CStringFindAgrees | plexil-4/include/map-utils.hh:44-57 | The same for maps keyed by C strings in text order |
| Text.StrncmpDecides | plexil-4/include/map-utils.hh:66-77 | strncmp over the key's length is 0 exactly when the key is a prefix of the index, and negative exactly when the key is smaller without being one |
| Text.LessNotPrefix | plexil-4/include/map-utils.hh:66-77 | Smaller and not a prefix means: the smaller character where the two first differ |
| Text.StrcmpDecides | plexil-4/include/map-utils.hh:44-57 | On text without null characters strcmp is the string order and string equality |
| Text.PrefixConvex | plexil-4/include/map-utils.hh:66-77 | The strings that begin with one prefix form an interval of the order |
| PrefixLookup.PartitionedIff | plexil-4/include/map-utils.hh:66-77 | Over a sorted store the prefix comparator is partitioned if and only if no stored prefix of the index has a stored extension that is smaller than the index where they first differ |
| PrefixLookup.AbIsMissed | plexil-4/include/SimpleMap.hh:197-223 | With "ab" and "abc" stored and "abd" asked, both lookups return end() although "ab" begins it |
| PrefixLookup.RightWhenPartitioned | plexil-4/include/SimpleMap.hh:197-223 | Then the stored prefixes stand side by side, findFirst returns the shortest, findLast the longest, and both end() exactly when there is none |
| PrefixLookup.FindFirstExact | plexil-4/include/SimpleMap.hh:197-207 | For any store and index: findFirst finds the shortest stored prefix if and only if the probes on the way to it meet no entry smaller at the first difference |
| PrefixLookup.FindLastExact | plexil-4/include/SimpleMap.hh:209-223 | findLast finds the longest stored prefix if and only if the probes on the way to the start of the last run of prefixes meet no earlier prefix and no later entry smaller at the first difference |
| PrefixLookup.FindFirstRightIff | plexil-4/include/SimpleMap.hh:197-207 | findFirst is right, end() included, exactly when the way to the shortest stored prefix is clear |
| PrefixLookup.FindLastRightIff | plexil-4/include/SimpleMap.hh:209-223 | findLast is right, end() included, exactly when the way to the run of the longest stored prefix is clear |
| PrefixLookup.LookupsAreSound | plexil-4/include/SimpleMap.hh:197-223 | Even unpartitioned, neither lookup ever returns a key that is not a prefix of the index |
| PrefixLookup.FindFirstAlwaysRightIff | plexil-4/include/SimpleMap.hh:197-207 | Where some character is above all those of the keys: findFirst is right for every index exactly when, for each key without a stored proper prefix, the search towards it probes none of its stored extensions |
| PrefixLookup.FindLastAlwaysRightIff | plexil-4/include/SimpleMap.hh:209-223 | Where some character is above all those of the keys: findLast is right for every index exactly when, for each key, the search towards the run of its own stored prefixes probes none of its stored extensions and no prefix before that run: a property of the store alone |
| PrefixLookup.AlwaysRight | plexil-4/include/SimpleMap.hh:197-223 | On a store that is right for findFirst and whose extensions are nested, findLast is right for every index as well: a test that needs no runs |
| PrefixLookup.LongestStoredPrefix | plexil-4/include/SimpleMap.hh:210-223 | findLast with the prefix comparator, as the method runs, is the function the theorems speak of |
| PrefixLookup.ShortestStoredPrefix | plexil-4/include/SimpleMap.hh:198-207 | The same for findFirst |
| PrefixLookup.SortedKeysUnique | plexil-4/include/SimpleMap.hh:124-133 | A set of names has one sorted arrangement |
| ValueTypeTable.TableIsBuilt | plexil-4/src/value/ValueType.cc:291-312 | The inserts leave the fifteen type names in the order the theorems use |
| ValueTypeTable.TableBindsTypes | plexil-4/src/value/ValueType.cc:291-312 | Every name is bound to the type inserted with it |
| ValueTypeTable.TableAlwaysRight | plexil-4/src/value/ValueType.cc:337-348 | For every text findLast returns the longest type name that begins it, or end() when none does |
| ValueTypeTable.TableNotPartitioned | plexil-4/src/value/ValueType.cc:342-343 | Although the comparator is not partitioned over the table, for instance for any text that follows "Boolean" with a character above 'A' |
| ValueTypeTable.ScansLongestName | plexil-4/src/value/ValueType.cc:337-348 | scanValueTypePrefix consumes the longest type name that begins the text, and nothing when none does |
| ValueTypeTable.ScanValueTypePrefix | plexil-4/src/value/ValueType.cc:337-348 | Over the table as built: the length and the type of the longest name that begins the text, or 0 and no type when none does or there is no text |
| ValueTypeTable.ParseValueType | plexil-4/src/value/ValueType.cc:314-325 | The type inserted with exactly that name, or the unknown type |
| QueueRuns.EveryRunKeeps | plexil-4/include/LinkedQueue.hh:94-147 | Over every run that pushes no queued item: no repeats in the chain, the tail of a non-empty chain is its last item or outside it, and size() is the chain's length plus the pushes since the last clear that met a non-empty queue with a stale tail |
| QueueRuns.DeliveredInOrder | plexil-4/include/LinkedQueue.hh:94-147 | The items delivered, followed by those queued, are a subsequence of the items pushed, in push order |
| QueueRuns.RemoveKeepsTailIff | plexil-4/include/LinkedQueue.hh:120-140 | From a well-formed queue remove always takes out just the item, leaves the others in order with a matching count, and keeps the tail on the last item if and only if the item is absent, alone or not last |
| QueueRuns.AgreesIff | plexil-4/include/LinkedQueue.hh:79-147 | Contents, order and count equal those of a mathematical queue after every operation of a run exactly when no push meets a non-empty queue whose last item was removed |
| QueueRuns.TailAlwaysLastIff | plexil-4/include/LinkedQueue.hh:79-147 | The tail is on the last item throughout a run exactly when remove never hits the last of two or more; then the queue is the mathematical one and is empty just when its size is 0 |
| QueueRuns.NoTailWhenEmpty | plexil-4/include/LinkedQueue.hh:94-147 | In such runs the tail is null just when the queue is empty |
| QueueRuns.LostPush | plexil-4/include/LinkedQueue.hh:128-135 | The run push a, push b, remove b, push c counts c but does not queue it |
| QueueLinks.StepShows | plexil-4/include/LinkedQueue.hh:94-147 | On the stored links every operation does to the chain of items what the steps above say, a stale tail included |
| QueueLinks.RunShows | plexil-4/include/LinkedQueue.hh:94-147 | So for one queue, over every run that pushes no queued item: the links never stray from the chain, and a non-empty queue has a tail |
| QueueLinks.PathOnce | plexil-4/include/LinkedQueue.hh:94-147 | Links that end somewhere pass no item twice |
| QueueLinks.StepBeside | plexil-4/include/PlexilExec.hh:211-213 | With several queues over one store of links and contents apart, an operation on one leaves the others as they were and the contents apart; only a push needs its tail in place |
| QueueLinks.PushThroughForeignTail | plexil-4/include/LinkedQueue.hh:111-117 | A push whose tail stands anywhere in another queue's chain cuts that chain behind the tail and puts the item there; the queue itself counts the item and does not hold it |
| LinkedQueues.LinkedQueue.constructor | plexil-4/include/LinkedQueue.hh:68-73 | A new queue is empty |
| LinkedQueues.LinkedQueue.Front | plexil-4/include/LinkedQueue.hh:79-82 | The first item, null when empty |
| LinkedQueues.LinkedQueue.Empty | plexil-4/include/LinkedQueue.hh:89-92 | True exactly when no item is linked, whatever the count |
| LinkedQueues.LinkedQueue.Pop | plexil-4/include/LinkedQueue.hh:94-105 | The step on the links, in any state where a non-empty queue has a tail |
| LinkedQueues.LinkedQueue.Push | plexil-4/include/LinkedQueue.hh:107-118 | The step on the links, wherever the tail stands and whether or not the item is queued already |
| LinkedQueues.LinkedQueue.Remove | plexil-4/include/LinkedQueue.hh:120-140 | The pointer walk takes the step on the links whenever it comes to the item or to an end, in any state; null changes nothing |
| LinkedQueues.LinkedQueue.Clear | plexil-4/include/LinkedQueue.hh:143-147 | From any state the queue is empty, and no item's link is written |
| ExecQueueRuns.StaysGoodIff | plexil-4/src/exec/PlexilExec.cc:507-614 | From a state in order, each queue operation keeps every node in the one queue its status names, and every tail in place, if and only if it does not remove the last of several candidates or a node that waits elsewhere |
| ExecQueueRuns.AlwaysGoodIff | plexil-4/src/exec/PlexilExec.cc:507-614 | The same over whole runs from start-up, on chains |
| ExecQueueRuns.DoesPlain | plexil-4/src/exec/PlexilExec.cc:507-614 | The statuses encode three queues of different nodes and a set: a safe operation does to them what it would do without statuses, and the internal errors are exactly those of that machine |
| ExecQueueRuns.RunsPlain | plexil-4/src/exec/PlexilExec.cc:507-614 | The same over every run without an unsafe operation |
| ExecQueueRuns.QueuedAreBusy | plexil-4/src/exec/PlexilExec.cc:47-54 | The queues together hold each node with a status other than NONE once, and nothing else |
| ExecQueueRuns.MovesConserveTotal | plexil-4/src/exec/PlexilExec.cc:544-602 | A move from one queue to another conserves the number of queued nodes, keeps the order of the rest and leaves the third queue alone |
| ExecQueueRuns.CandidateMovesToTransition | plexil-4/src/exec/PlexilExec.cc:529-562 | The same for the main move: the first candidate, fetched, joins the end of the state change queue |
| ExecQueueRuns.RequestKept | plexil-4/src/exec/PlexilExec.cc:509-527 | Asking, and nothing else, makes a check pending; it stays pending under every operation until the node is fetched as a candidate, removed or finished |
| ExecQueueRuns.RequestedThenFinishedIsUnsafe | plexil-4/src/exec/PlexilExec.cc:544-602 | A node asked for while it waited to transition, fetched while other candidates wait and then finished, leaves by that removal |
| ExecLinks.DoShows | plexil-4/src/exec/PlexilExec.cc:507-614 | On the shared links, from a state in order, every operation comes back and does what the steps on chains say, the first unsafe one included |
| ExecLinks.AlwaysOrderlyIff | plexil-4/src/exec/PlexilExec.cc:507-614 | Over whole runs on the shared links: each node is in the one queue its status names, with every tail in place, after every operation exactly when none was unsafe where it was performed |
| ExecLinks.StaysInOrderIff | plexil-4/src/exec/PlexilExec.cc:507-614 | From a state in order every operation and every new node does on the links what it does on the chains, and leaves a state in order exactly when it is safe |
| ExecLinks.AlwaysInOrderIff | plexil-4/src/exec/PlexilExec.cc:92-100 | The run theorem from an executive without nodes, when plans with their nodes are added between the operations |
| ExecLinks.PurgeInOrder | plexil-4/src/exec/PlexilExec.cc:131-155 | From a state in order, deleting the finished plans deletes exactly the finished roots, in the order they finished; the plans left are the others, in their old order |
| ExecLinks.PurgeConserves | plexil-4/src/exec/PlexilExec.cc:140-148 | However the queue is linked: the plans left and the nodes deleted are together, as multisets, the plans there were, and those left keep their order |
| ExecLinks.DeletedAreGone | plexil-4/src/exec/PlexilExec.cc:140-148 | Of plans that are listed once none that was deleted is left |
| ExecLinks.PurgeCounts | plexil-4/src/exec/PlexilExec.cc:133-153 | Each turn takes one node out of the queue: it is deleted, or the deletion stops over it |
| ExecLinks.PurgeToTail | plexil-4/src/exec/PlexilExec.cc:131-155 | With more linked behind the tail, the roots up to the tail are deleted and are plans no more, and the rest is dropped |
| ExecLinks.FinishedLastStrays | plexil-4/src/exec/PlexilExec.cc:592-602 | Finishing the last of several candidates leaves the candidates' tail on the last finished root |
| ExecLinks.AskedWhileAstray | plexil-4/src/exec/PlexilExec.cc:509-527 | A node asked for then is marked CHECK and counted as a candidate, but linked into the chain of finished roots, cut behind the stray tail; asking again changes nothing |
| ExecLinks.FinishedLastStarves | plexil-4/src/exec/PlexilExec.cc:131-155 | With nothing between, the finished roots are deleted up to the one just finished, and the node behind it is dropped: marked CHECK and in no queue |
| ExecLinks.RemovedLastStarves | plexil-4/src/exec/PlexilExec.cc:509-542 | After the last of several candidates is removed from consideration, the next candidate is marked CHECK and counted but in no queue, and asking again changes nothing |
| ExecLinks.RootLostNodeDelivered | plexil-4/src/exec/PlexilExec.cc:131-155 | With another root finished between, that root is in no queue though marked DELETE and stays a plan; the node is deleted in its place if it is a plan, and stops the deletion with an internal error if not |
| ExecLinks.LiveNodeDelivered | plexil-4/src/exec/PlexilExec.cc:326-371 | A run from start-up that does so, made of the calls of one cycle: candidates found eligible, transitions that ask for nodes again, roots that finish in their transitions |
| ExecLinks.RemovalNeverComesBack | plexil-4/src/exec/PlexilExec.cc:539-555 | A run after which removing any other node from consideration does not terminate |
| ExecQueues.Executive.constructor | plexil-4/src/exec/PlexilExec.cc:503-507 | Three empty queues, no node queued |
| ExecQueues.Executive.NewNode | plexil-4/src/exec/PlexilExec.cc:92-100 | A node of a new plan comes with no link and leaves all else as it was: the happening of the run theorem |
| ExecQueues.Executive.AddCandidateNode | plexil-4/src/exec/PlexilExec.cc:509-527 | On the objects: the step on the links, in every state, after an unsafe operation too |
| ExecQueues.Executive.GetCandidateNode | plexil-4/src/exec/PlexilExec.cc:529-537 | The same, returning the first candidate or null |
| ExecQueues.Executive.RemoveCandidateNode | plexil-4/src/exec/PlexilExec.cc:539-542 | The same, in every state from which the source returns |
| ExecQueues.Executive.GetStateChangeNode | plexil-4/src/exec/PlexilExec.cc:544-555 | The same, with the node queued as a candidate again when a check was requested meanwhile |
| ExecQueues.Executive.AddStateChangeNode | plexil-4/src/exec/PlexilExec.cc:557-580 | The same, or failure with nothing changed exactly where the source stops with an internal error |
| ExecQueues.Executive.GetFinishedRootNode | plexil-4/src/exec/PlexilExec.cc:582-590 | The same, returning whatever node is first in the chain of finished roots, or null |
| ExecQueues.Executive.AddFinishedRootNode | plexil-4/src/exec/PlexilExec.cc:592-614 | The same, or the internal error with nothing changed, in every state from which the source returns |
| ExecQueues.Executive.EraseFromPlan | plexil-4/src/exec/PlexilExec.cc:139-148 | The loop over the plans erases the first occurrence of the node and reports whether there was one |
| ExecQueues.Executive.DeleteFinishedPlans | plexil-4/src/exec/PlexilExec.cc:131-155 | The loop pops, erases and deletes as the state machine does, in every state in which it ends, and stops over a node that is not a plan |
| DebugFlags.TagOfMessage | plexil-4/scripts/debugFlagCollector.py:171-176 | The tag cut out of a written line is the tag it was written with, and the line begins with MSG=, the tag, SRC= |
| DebugFlags.SourceRecoveredIff | plexil-4/scripts/debugFlagCollector.py:172-175 | The source entry comes back whole exactly when no DEF= stands before the definition, and then the definition does too |
| DebugFlags.SourceLost | plexil-4/scripts/debugFlagCollector.py:172-175 | A message whose tag holds DEF= and whose source entry comes back empty |
| DebugFlags.SortSorts | plexil-4/scripts/debugFlagCollector.py:130-131 | The sorted lines are the same lines, none before a smaller one |
| DebugFlags.SameTagContiguous | plexil-4/scripts/debugFlagCollector.py:131 | After the whole-line sort every line between two lines of one tag has that tag |
| DebugFlags.TagsNeedNotBeSorted | plexil-4/scripts/debugFlagCollector.py:131 | Two messages whose tags come out in reverse order |
| DebugFlags.NewWhenDifferent | plexil-4/scripts/debugFlagCollector.py:178 | In grouped messages a tag is new exactly when it differs from the one before |
| DebugFlags.RemoveDuplicateFlags | plexil-4/scripts/debugFlagCollector.py:169-195 | The loop that remembers one tag and two counters writes what numbering by the whole history would: a tag's number is how many distinct tags there are so far, a message's how many of its tag there are so far |
| DebugFlags.ListedOnce | plexil-4/scripts/debugFlagCollector.py:178-186 | Every distinct tag is listed exactly once |
| DebugFlags.HeadersInOrder | plexil-4/scripts/debugFlagCollector.py:178-186 | The headers are numbered 1 to k, with the tags as listed |
| DebugFlags.SourcesConserved | plexil-4/scripts/debugFlagCollector.py:188-195 | The source entries written are those of the input lines, in order |
| DebugFlags.SubNumbersInOrder | plexil-4/scripts/debugFlagCollector.py:188-195 | Under one tag's number the source entries are sub-numbered 1 to m for its m lines |
| DebugFlags.OneNumberOneTag | plexil-4/scripts/debugFlagCollector.py:178-195 | Lines share a number exactly when they share a tag, and numbers never fall |
| DebugFlagPasses.NumberIsPlace | plexil-4/scripts/debugFlagCollector.py:178-186 | A tag's number is its place in the flags file |
| DebugFlagPasses.FiledAreUnder | plexil-4/scripts/debugFlagCollector.py:188-195 | Under a tag's number stand the sources and the definitions of the messages with that tag, side by side and in order, both numbered 1 to m |
| DebugFlagPasses.EntriesAreLaidOut | plexil-4/scripts/debugFlagCollector.py:178-195 | In the definitions file every source is followed by its definition with the same two numbers, and the first of a number follows that number's header |
| DebugFlagPasses.NumbersInRange | plexil-4/scripts/debugFlagCollector.py:178-195 | Every number used is that of a listed tag |
| DebugFlags.TagFromIsTag | plexil-4/scripts/debugFlagCollector.py:111-116 | The tag cut from a message line begins with ':' and holds no SRC= |
| DebugFlags.TagBetweenQuotes | plexil-4/scripts/debugFlagCollector.py:111-116 | The tag is a colon and the text between the first two quotes, less the blanks at its end |
| DebugFlags.TagWithoutClosingQuote | plexil-4/scripts/debugFlagCollector.py:112-116 | With one quote only, the text after it less its last character, which is taken for the quote |
| DebugFlags.TagWithoutQuotes | plexil-4/scripts/debugFlagCollector.py:112-116 | Without a quote, the whole line less its last character |
| DebugFlags.MessagesWellFormed | plexil-4/scripts/debugFlagCollector.py:100-121 | What extract_tags writes for classified lines is well formed, so the lemmas above apply |
| DebugFlags.ExtractTags | plexil-4/scripts/debugFlagCollector.py:100-123 | One line for each defining line, in order: the greatest earlier line with SRC= gives its source, the greatest earlier message line its tag, and the line itself, stripped, its definition |
| DebugFlags.MessagesAreExtracted | plexil-4/scripts/debugFlagCollector.py:107-121 | The same of the messages, for every beginning of the file |
| DebugFlags.StripCuts | plexil-4/scripts/debugFlagCollector.py:110-119 | Stripping cuts blanks off both ends, and all of them |
| DebugFlags.LinesAreLines | plexil-4/scripts/debugFlagCollector.py:116-131 | The sorted lines of well-formed messages are what the last pass relies on |
| DebugFlags.FlagsAreTheTags | plexil-4/scripts/debugFlagCollector.py:126-186 | Writing, sorting and reading back lists exactly the tags of the messages, each once |
| DebugFlagPasses.CollectFlags | plexil-4/scripts/debugFlagCollector.py:100-198 | The three passes run one after the other on classified lines: the flags file lists exactly the tags extracted, each once; the k-th is headed k with its sources and definitions in pairs numbered from 1; and when no DEF= stands before a definition, the pairs under a tag are together exactly the sources and definitions extracted with it, each definition with its line end |
| SampleRuns.AlwaysCoherent | plexil-4/examples/sample-app1/SampleAdapter.cc:279-320 | After every run of commands, subscriptions and unsubscriptions, a copy of Size, Speed or Color that was looked up on subscription and set by each forwarded change equals the system's value while subscribed; so does that of any state of which nothing is known or published |
| SampleRuns.AlwaysRightIff | plexil-4/examples/sample-app1/SampleAdapter.cc:73-171 | Those are all: for every other state there is a run after which its subscribed copy is wrong |
| SampleRuns.CopyGoesWrong | plexil-4/examples/sample-app1/SampleAdapter.cc:73-171 | That run, for each such state |
| SampleRuns.ForwardedAreHeard | plexil-4/examples/sample-app1/SampleAdapter.cc:307-314 | Over every run the value changes sent are exactly the publications made while their state was subscribed, in order |
| SampleRuns.SubscribedIff | plexil-4/examples/sample-app1/SampleAdapter.cc:285-296 | After every run a state is subscribed exactly when the last thing said about it was to subscribe |
| SampleRuns.CommandTrace | plexil-4/examples/sample-app1/SampleAdapter.cc:226-276 | A command's events are pairs of a value change and a notification for subscribed states, one acknowledgement, at most one return value, one notification |
| SampleRuns.SettersSet | plexil-4/examples/sample-app1/SampleAdapter.cc:242-253 | After SetSize the size looked up is the number given, after SetSpeed and SetColor the speed and the color are what was given |
| SampleRuns.MoveMoves | plexil-4/examples/sample-app1/SampleAdapter.cc:254-259 | After Move the place is the one given, and `at` is true of that place alone and of exactly the coordinates given |
| SampleRuns.OthersStay | plexil-4/examples/sample-app1/SampleAdapter.cc:242-267 | A lookup changes only by the command for its state |
| SampleRuns.CoordinatesFirst | plexil-4/examples/sample-app1/SampleSystem.cc:71-82 | A move publishes coordinates before the place |
| SampleRuns.AtStart | plexil-4/examples/sample-app1/SampleSystem.cc:36-42 | What is looked up at start-up |
| SampleRuns.EffectIsPublished | plexil-4/examples/sample-app1/SampleSystem.cc:45-82 | The states whose copy can be trusted change exactly by what is published under them |
| SampleRuns.PublicationsAreNews | plexil-4/examples/sample-app1/SampleSystem.cc:45-82 | A command publishes only what a lookup returns after it and did not return before, places and coordinates included |
| SampleRuns.NewsArePublished | plexil-4/examples/sample-app1/SampleSystem.cc:45-82 | Of all states whose lookup changes, exactly those are published with their new value that are Size, Speed or Color without arguments, or a place or pair of coordinates that becomes true |
| SampleRuns.PlaceIsNotPublished | plexil-4/examples/sample-app1/SampleSystem.cc:71-82 | A move after which the place, looked up without arguments, has changed and nothing is published under it |
| SampleRuns.FollowForward | plexil-4/examples/sample-app1/SampleAdapter.cc:307-314 | The copy of a subscribed state ends with the value last published under it |
| SampleRuns.AtOnlyTrue | plexil-4/examples/sample-app1/SampleSystem.cc:71-82 | Changes of At only ever say true, although the lookup of "at" for the place left turns false |
| SampleAdapters.Sys.constructor | plexil-4/examples/sample-app1/SampleSystem.cc:36-42 | The initial values from which the runs start |
| SampleAdapters.Sys.SetSize | plexil-4/examples/sample-app1/SampleSystem.cc:45-51 | The object's step is the state machine's, and its publication reaches the executive before it returns, if subscribed |
| SampleAdapters.Sys.SetSpeed | plexil-4/examples/sample-app1/SampleSystem.cc:54-60 | The same for the speed |
| SampleAdapters.Sys.SetColor | plexil-4/examples/sample-app1/SampleSystem.cc:62-68 | The same for the color |
| SampleAdapters.Sys.Move | plexil-4/examples/sample-app1/SampleSystem.cc:71-82 | The same for a move, coordinates before place |
| SampleAdapters.Sys.ExecuteCommand | plexil-4/examples/sample-app1/SampleAdapter.cc:226-276 | The dispatch takes the state machine's step and appends exactly its events |
| SampleAdapters.Adapter.Receive | plexil-4/examples/sample-app1/SampleAdapter.cc:128-171 | A publication becomes a value change of the state with those parameters, forwarded by subscription |
| SampleAdapters.Adapter.PropagateValueChange | plexil-4/examples/sample-app1/SampleAdapter.cc:307-314 | A value change and a notification for a subscribed state, nothing for another |
| SampleAdapters.Adapter.Subscribe | plexil-4/examples/sample-app1/SampleAdapter.cc:285-289 | Adds that state only |
| SampleAdapters.Adapter.Unsubscribe | plexil-4/examples/sample-app1/SampleAdapter.cc:292-296 | Removes that state only |
| SampleAdapters.CreateState | plexil-4/examples/sample-app1/SampleAdapter.cc:128-139 | The loop sets every parameter to the value at its place |
| StateTexts.GetText | plexil-4/src/app-framework/AdapterExecInterface.cc:60-72 | The iterator loop prints the name, then the parameters joined by ", " in parentheses |
| StateTexts.PrintText | plexil-4/src/intfc/State.cc:131-141 | The other loop, which writes separators after instead of before, prints the same text |
| StateTexts.ReadBackIff | plexil-4/src/app-framework/AdapterExecInterface.cc:60-72 | A parser gives back name and parameter texts if and only if the name holds no '(', no parameter text holds the separator, and the parameters are not one empty text |
| StateTexts.OneTextOneState | plexil-4/src/app-framework/AdapterExecInterface.cc:60-72 | Two such states with one text are one state |
| StateTexts.EmptyParameterMistaken | plexil-4/src/app-framework/AdapterExecInterface.cc:60-72 | No parameter and one parameter without text print alike |
| StateTexts.MistakenIff | plexil-4/src/app-framework/AdapterExecInterface.cc:60-72 | A state prints like some other such state exactly when it is not such a state itself |

## Left out

- Widths of numbers: `m_count` is an integer, of which the source keeps a `size_t`, so it neither wraps up nor, in the states where items leave a queue that did not count them, below 0; `square` does not overflow; Size is an exact real, so the narrowing from double to float is not captured.
- Bytes: strings hold characters compared by their code, which for `strcmp` and `strncmp` (section 7.21.4 of ISO/IEC 9899:1999) are unsigned bytes; where the implementation's `std::string` compares bytes from 0x80 up as negative, stores with such keys are not covered; nor are `std::string` keys with embedded null characters by the lookup theorems.
- PrefixLookup.FindFirstAlwaysRightIff: a store whose keys hold the largest character is not covered by this exact condition, nor by that of PrefixLookup.FindLastAlwaysRightIff; the conditions for one index are.
- XmlTree.FindNode: the predicate is a function of the node alone, so predicates with state or that change the document are not covered; `find_child`, `find_attribute` and the rest of pugixml would only add easy members or have no body.
- SimpleMaps.SimpleMap: copying, capacity and `grow`, and what insertion does to other iterators; KEY_COMP is a strict total order whose `equal` is equality.
- LinkedQueues.LinkedQueue.Push: a queue with items and no tail, where the source would follow a null pointer, is excluded; no operation leads there (`Ready` is kept by all).
- QueueRuns.AgreesIff: runs that push an item while it is in the chain are not compared with the mathematical queue; the links of such runs are those of `QueueLinks`.
- ExecQueues.Executive.AddFinishedRootNode: the internal error is a result, not the error handler's behaviour; node transitions, resource conflicts and the quiescence loop are left out, except for the order of the calls in one cycle.
- ExecQueues.Executive.RemoveCandidateNode: excluded where its walk does not end; the queue status field of each node is a map of the executive, and a node that the map does not list has status NONE.
- ExecQueues.Executive.DeleteFinishedPlans: what the links of a node hold once it has been freed is not modelled; a loop that does not end is excluded.
- DebugFlags.RemoveDuplicateFlags: entries are kept as records; the comment texts, the date, the fixed prose and the decimal notation of the numbers are not written out, and the input is what the two passes before it produce.
- DebugFlags.ExtractTags: starts from the classified lines; finding them in source files is left out.
- SampleRuns.AlwaysCoherent: reads lookup as part of subscribing, as the executive's state cache does; NaN does not occur, and states whose parameters are an integer and a real of one value are different states here, which only touches subscriptions to At with real coordinates.
- SampleAdapters.Sys.ExecuteCommand: commands whose arguments are missing, of the wrong type or more than ten are excluded, since the source then reads or writes outside a vector or an uninitialised variable, or stops with an error; messages printed to the console are left out, and an unknown command is acknowledged like the others, as in the source.
- StateTexts.GetText: how a value prints is a given text.
- `plexil-4/examples/sample-app`, which is the same application without classes.
- Declarations without bodies, IPC, threads, timers, plan loading, and the parsers and printers of XML.
