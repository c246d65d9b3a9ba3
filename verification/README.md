# Verified model of the pwxLib containers, locks and argument handler

The pwxLib library offers thread-safe hash tables, lists and sets, a recursive spinlock with a scope guard,
and a command line argument handler. This project models the parts of it with the most state in Dafny and
proves what they promise.

* **Open hash** (`Words`, `Numbers`, `Stepping`, `Probing`, `HashMethods`, `OpenTable`, `Geometry`, `Growth`,
  `OpenStates`, `OpenHash`, `Histories`, `Failures`, `Displacements`): double-hash probing with the hand-made stepping, vacated
  slots, Robin Hood displacement in a loop, growth. `OpenTable` holds the invariant and the meaning of a table
  for any probe sequence that depends on the key alone; `Geometry` is the sequence the code really uses;
  `OpenStates` is what the public operations make of a whole hash as a value, with no result where a loop
  never ends; `OpenHash` is the class over the slot array, proved equal to it; `Histories` speaks of whole
  runs, `Failures` of runs in which the code does not do what it promises, and `Displacements` of one with a
  displacement.
* **Chained hash** (`HashElements`, `ChainTable`, `ChainHash`): linked buckets, updated in place.
* **List and set** (`Sequences`, `DataFree`, `ThreadHash`, `ThreadRuns`, `Elements`, `DoubleList`, `Sets`,
  `SetAlgebra`, `SetFunctions`): the doubly linked list, its cursors for all threads, which are kept in an
  open hash, the set that keeps a list and a lookup hash in agreement, and the set functions.
* **Locks** (`Lockable`, `LockRuns`, `Phases`, `PhaseRuns`, `LockGuard`, `GuardRuns`): the spinlock and the
  phase counters of the hashes as step machines over any number of threads, what runs of them come to, and the
  guard as one thread sees it.
* **Arguments** (`Matching`, `NameTables`, `ArgHandler`): what the words of a command line are and which
  target gets which parameter, the walks over the tables of names, and the handler with its two chained
  hashes, queues and loops.

Classes stand for the classes of the library and change their fields in place. Their ghost fields (`Cells`,
`Contents`, `Chains`, `Nodes`, `Log`) are the values they stand for, and `Valid()` ties both together. Clocks,
hash functions, memory, the answers of other threads and the exceptions of callbacks are parameters. `hide`
statements only keep definitions out of proofs that do not need them.

## What turned out to be different from the documentation

* The displacement loop of an insertion can run for ever below the load factor. It ends exactly if the chain
  of displacements comes to no two elements that take each other's place (`OpenTable.SettlesIff`), which is so
  if every path in play has a free slot, and not so if none has (`OpenTable.FreeSettles`, `NeverSettles`).
  With keys of one path it ends exactly as long as there are fewer elements than slots at which a search can
  end (`OpenTable.OnePathCountIff`): in a new hash of 15 slots whose keys all have hash 0 and step 6, ten
  additions go well, and the eleventh never ends at a load of 11/15 (`Failures.EleventhNeverEnds`,
  `SomeAreAlike`). Prime sizes from 11 on do not have this problem (`OpenStates.PrimeAddEnds`,
  `Histories.PrimeHistory`).
* The loop that adjusts the step ends for every secondary hash exactly for sizes from 5 on, except for 6
  (`Stepping.SteppingTerminatesIff`). Smaller tables are therefore excluded.
* The bracketing loop of the hash method ends exactly for sizes up to 2^31 (`HashMethods.BracketingEndsIff`);
  odd sizes beyond are excluded.
* Removing an absent key from an open table removes another element exactly if the path of the key has no null
  slot and the probe after the last is at an element (`OpenTable.AbsentRemovalIff`). In
  `Failures.WrongKeyRemoved` ten keys come and go in a new hash of eleven slots, key 0 is added, and the
  removal of key 500, which was never there, removes key 0.
* The cursors of all threads are kept in an open hash, and setting a cursor first removes the entry of the
  thread (src/container/CThreadElementStore.cpp:158-172). So a thread that sets its first cursor takes away
  the cursor of another one exactly in the case above (`Elements.ThreadElementStore.SetCurr`), which
  `Failures.WrongKeyRemoved` shows for the factors of this hash as well (`Failures.FactorsArePlain`). However
  up to 64 threads use a store of the default size, nothing hangs (`ThreadRuns.EveryUseEnds`).
* In a set, an insertion before null goes to the front (src/container/TSet.h:715), where the documentation of
  the list says that it becomes the tail (src/container/TDoubleList.h:238-239). The model follows the code.
* A word of dashes alone, and the empty word, count as a full cluster of no arguments and vanish without an
  error (src/arg_handler/CArgHandler.cpp:1108-1121).
* The check for mandatory arguments goes through as many indices of a table of names as there are names, not
  through as many as there are buckets (src/arg_handler/CArgHandler.cpp:894-920). So it notes an absent target
  exactly if the bucket of its name lies below the number of names (`NameTables.NotedIff`), always if there
  are as many names as buckets, which are 37 at first (`NameTables.AllNotedIff`), and once for each round of
  the walk that comes to the bucket (`NameTables.NotedCounts`). `ArgHandler.MissedArgument` is a handler whose
  only mandatory argument is absent without an error. Positional targets have no name and are never missed.
  `ArgHandler.CArgHandler.RunErrorFreeIff` says when a run leads to no error. resetTargets makes the same walk
  and leaves targets as they are in the same way (`ArgHandler.CArgHandler.ResetTargets`).
* The copy constructor and the move assignment of the guard unlock what they take over once too often;
  `LockGuard.TakeOverIsBalancedIff` says exactly when this does no harm, and `LockGuard.CopyLosesALock` is a
  case in which it does.

## Model

| member | source | states |
|---|---|---|
| Words.Scaled | src/container/TOpenHash.h:381-382 | the multiplication method yields an index below the size |
| Words.ScaledIff | src/container/TOpenHash.h:381-382 | the index is the whole part of size times f / 1000, where f / 1000 is the fraction of the hash times 0.618 |
| Stepping.GetStepping | src/container/TOpenHash.h:472-526 | the adjustment loop ends and computes the first accepted candidate |
| Stepping.StepFromHash | src/container/TOpenHash.h:472-526 | the step is the raw value of the secondary hash, not below 3 (2 for odd sizes), one more if it has the parity of the size, and two more for each candidate that divides the size or is a fraction of it |
| Stepping.StepProperties | src/container/TOpenHash.h:502-523 | from size ten on the step is at least 2, below the size, of the other parity, no divisor of the size and none of its fractions n/(n+1) |
| Stepping.StepIsLeast | src/container/TOpenHash.h:502-523 | no accepted candidate is skipped |
| Stepping.NeverBeyondTheSize | src/container/TOpenHash.h:518-522 | from size ten on the branch for a step beyond the table size is never taken |
| Stepping.SkipFraction | src/container/TOpenHash.h:505-510 | the inner loop adapts exactly the steps that are a forbidden fraction |
| Stepping.FractionIsExact | src/container/TOpenHash.h:506 | below 2^29 the 32-bit fractions are the mathematical ones |
| Stepping.SteppingTerminatesIff | src/container/TOpenHash.h:502-523 | the loop ends for every hash exactly if the size is at least 5 and not 6 |
| Probing.NextProbe | src/container/TOpenHash.h:411-426 | one hop with its re-step leads from probe i to probe i + 1 of a sequence that ignores the table contents |
| Probing.NextHop | src/container/TOpenHash.h:411-426 | a hop goes on by the step modulo the size; where it comes back to the base with probes left it takes the new step from the base instead |
| Probing.RestepIs | src/container/TOpenHash.h:411-426 | the new step is the least odd one that is at least two more and below the size, or 3 if there is none |
| Probing.ProbesAreLinear | src/container/TOpenHash.h:387-429 | with a coprime step the repair never fires and probe i lies at base + i * step modulo the size |
| Probing.ProbesAreDistinct | src/container/TOpenHash.h:387-429 | with a coprime step no slot is probed twice |
| Probing.FullProbing | src/container/TOpenHash.h:387-429 | with a coprime step every slot is probed |
| Probing.IndexOf | src/container/TOpenHash.h:387-429 | which probe visits a given slot |
| Probing.FreeSlotIff | src/container/TOpenHash.h:450-454 | a bound on the occupied slots guarantees a free one exactly if the path visits more slots |
| HashMethods.SetHashMethod | src/container/VTHashBase.h:1745-1791 | division is chosen exactly for odd sizes well between two powers of two with at most one small odd divisor |
| HashMethods.DivisionIff | src/container/VTHashBase.h:1767-1790 | division is chosen exactly for odd sizes in the middle third between two neighbouring powers of two that at most one of 3, 5, ..., 19 divides |
| HashMethods.FindBounds | src/container/VTHashBase.h:1753-1765 | the bounds are neighbouring powers of two around the size, without overflow up to 2^31 |
| HashMethods.CountDivisors | src/container/VTHashBase.h:1775-1783 | the early exit does not change the verdict on small divisors |
| HashMethods.BracketingEndsIff | src/container/VTHashBase.h:1762-1765 | the second loop ends exactly for sizes up to 2^31 |
| OpenTable.Search | src/container/TOpenHash.h:387-429 | where a search stops by the stopping rule, and that it stops nowhere before |
| OpenTable.InsertionStops | src/container/TOpenHash.h:399-409 | an insertion passes only other keys, from the third probe on only elements at most one hop nearer to their base, and ends at a free slot, its own key, or an element that has come at least two hops less |
| OpenTable.LookupStops | src/container/TOpenHash.h:399-409 | a lookup passes vacated slots and other keys, and ends at a null slot or the key |
| OpenTable.LookupHits | src/container/VTHashBase.h:1683-1692 | a stored key is found at its slot, whatever is vacated, even without a null slot |
| OpenTable.HopsAreExact | src/container/VTHashBase.h:766-773 | hops below the size and distinct probes make the stored hops the number of slots a lookup passes; see Histories.HopsExactAfter for whole runs |
| OpenTable.PlaceRefines | src/container/TOpenHash.h:593-600 | one placement keeps the invariant and exchanges the evicted binding for the new one |
| OpenTable.SettleRefines | src/container/TOpenHash.h:584-601 | a chain of displacements ends with the old bindings and the new one |
| OpenTable.DisplacementGains | src/container/TOpenHash.h:405-408 | a displacement never lowers the sum of hops, and raises it by two at least when it comes before the last probe |
| OpenTable.SettlesIff | src/container/TOpenHash.h:585-601 | the displacement loop ends at all exactly if it ends within 2 n^2 + 2 rounds, and exactly if no two elements come to take each other's place for ever |
| OpenTable.FreeSettles | src/container/TOpenHash.h:585-601 | it ends if the key and every element have a free slot on their paths |
| OpenTable.NeverSettles | src/container/TOpenHash.h:585-601 | it never ends if neither the key nor any element has one |
| OpenTable.OnePathSettlesIff | src/container/TOpenHash.h:585-601 | for keys of one path it ends exactly if the path has a free slot |
| OpenTable.OnePathCountIff | src/container/TOpenHash.h:585-601 | for keys of one path it ends exactly as long as there are fewer elements than slots at which a search can end |
| OpenTable.HopsStayBelow | src/container/TOpenHash.h:530-604 | with a free slot on every path no placement stores hops up to the size |
| OpenTable.InsertionRefines | src/container/TOpenHash.h:530-604 | an insertion of an absent key that ends is the insertion into the map, and makes no vacated slots |
| OpenTable.VacateKeepsInvariant | src/container/TOpenHash.h:616-625 | vacating a slot keeps every element reachable |
| OpenTable.AbsentRemovalIff | src/container/TOpenHash.h:635-637 | removing an absent key vacates the slot of another one exactly if its path has no null slot and the probe after the last is at an element |
| OpenTable.RemovalRefines | src/container/TOpenHash.h:616-637 | removal of a present key deletes it alone; of an absent key nothing, but for the exact case in which another one is removed |
| OpenTable.RoomIsFree | src/container/TOpenHash.h:450-454 | a bound on the elements and paths of more slots, for the keys in play, give every search a free slot |
| Geometry.PrimeSizes | src/container/TOpenHash.h:387-429 | for prime sizes from 11 to 2^31 every search visits every slot once |
| Geometry.BaseIs | src/container/TOpenHash.h:381-382 | the first probe of a key is the scaled part of its hash, whatever the method of the size |
| Geometry.PrimeIsRoomy | src/container/TOpenHash.h:387-429 | a prime table has room as long as one slot is free |
| Geometry.FifteenIsNotRoomy | src/container/TOpenHash.h:450-454 | a table of 15 slots has no room for what the load factor allows |
| OpenStates.FoundMeans | src/container/VTHashBase.h:1683-1692 | a key is found exactly if it is in the map, with its data |
| OpenStates.MovedStands | src/container/VTHashBase.h:823-846 | after each slot of the copying loop the new table stands for the part copied, without vacated slots |
| OpenStates.LowerSlotFirst | src/container/VTHashBase.h:823-846 | of two elements with one base in the new table the one in the lower slot gets it, the other one its second probe |
| OpenStates.GrownMeans | src/container/VTHashBase.h:787-859 | a growth that ends keeps the map and leaves no vacated slots |
| OpenStates.AddedMeans | src/container/VTHashBase.h:475-499 | an addition that ends binds a new key and leaves a known one as it is, through the growth as well |
| OpenStates.AddedSize | src/container/VTHashBase.h:486-493 | the size after an addition follows from count, load factor and growth factor |
| OpenStates.RemovedMeans | src/container/TOpenHash.h:616-637 | a removal takes out the key if it is stored, and otherwise the one its search ends at, exactly if there is one |
| OpenStates.ClearedMeans | src/container/VTHashBase.h:510-564 | a cleared hash stands for the empty map whatever is vacated |
| OpenStates.RoomyAddEnds | src/container/VTHashBase.h:475-499 | an addition ends if the paths of the keys in play have room in the table, and in the one it grows to |
| OpenStates.PrimeAddEnds | src/container/VTHashBase.h:475-499 | in a table of prime size every addition below the load factor ends |
| Histories.EveryHistory | src/container/VTHashBase.h:475-1027 | after any history of additions, removals, growths and clearings that comes to its end the hash stands for the map of the history and every lookup agrees, if no removal of an absent key hits another one |
| Histories.AlwaysSound | src/container/VTHashBase.h:475-1027 | after any such history at all the hash is sound and stands for some map |
| Histories.RoomIsEnough | src/container/TOpenHash.h:530-637 | a history with room comes to its end and never stores hops up to the size |
| Histories.HopsExactAfter | src/container/VTHashBase.h:766-773 | after it the stored hops of every key with distinct probes are the number of slots a lookup passes |
| Histories.PrimeHistory | src/container/TOpenHash.h:530-637 | every history in a table of prime size below the load factor, without removals of absent keys, has room |
| Histories.NeverOverloaded | src/container/VTHashBase.h:486-493 | with factors 0.8 and 1.5, after any history that comes to its end the hash is not overloaded and a slot is free |
| Failures.EleventhNeverEnds | src/container/TOpenHash.h:585-601 | for all hash functions that give every key hash 0 and step 6, ten additions to a new hash of 15 slots go well, and the eleventh never ends although the load stays below 0.8 |
| Failures.WrongKeyRemoved | src/container/TOpenHash.h:635-637 | for every secondary hash, after ten additions and removals and one more addition, the removal of a key that was never there removes the stored one |
| Displacements.FourthDisplacesThird | src/container/TOpenHash.h:405-408 | four additions to a new hash of eleven slots with the step 4, the last of which displaces the third element, slot by slot |
| OpenHash.TOpenHash.GetIndex | src/container/TOpenHash.h:376-454 | the probe loop ends at the first probe that fits, with the hops to it; which slots a lookup or an insertion passes, and at which it ends |
| OpenHash.TOpenHash.Get | src/container/VTHashBase.h:1683-1692 | an element is returned exactly for the keys of the map, with the data of the map |
| OpenHash.TOpenHash.RemoveIdx | src/container/TOpenHash.h:616-625 | the slot is vacated, its element handed out, the count lowered |
| OpenHash.TOpenHash.RemoveKey | src/container/TOpenHash.h:635-637 | what the lookup ends at is vacated, keys are not compared |
| OpenHash.TOpenHash.RemKey | src/container/VTHashBase.h:1022-1027 | a present key is removed from the map and nothing else; for an absent key exactly when another one is; the state is the one of OpenStates |
| OpenHash.TOpenHash.PlaceElement | src/container/TOpenHash.h:593-600 | one placement in the slot array does what the placement on values does |
| OpenHash.TOpenHash.Displace | src/container/TOpenHash.h:584-601 | the loop over the slot array comes to the table of the chain of displacements, with one element more |
| OpenHash.TOpenHash.Insert | src/container/TOpenHash.h:530-604 | whenever the displacement loop ends the map gains exactly the new binding and the count rises by one |
| OpenHash.TOpenHash.MoveElements | src/container/VTHashBase.h:823-846 | the copying loop moves every binding into the new table whenever its insertions end |
| OpenHash.TOpenHash.Grow | src/container/VTHashBase.h:787-859 | same map, larger size, the method of that size, no vacated slots left; nothing happens for a smaller target |
| OpenHash.TOpenHash.Add | src/container/VTHashBase.h:475-499 | whenever the loops end a new key is bound, a known key keeps its binding, and the size grows exactly past the load factor |
| OpenHash.TOpenHash.Clear | src/container/VTHashBase.h:510-564 | the loop ends with the empty map; stored elements become null slots, vacated slots stay |
| Growth.OpenLoadBoundKept | src/container/TOpenHash.h:226-227 | with factors 0.8 and 1.5 the load bound survives every insertion and a slot is free for the next |
| Growth.GrownSizeIs | src/container/VTHashBase.h:486-493 | the size a growth aims at is the size times the growth factor, truncated |
| Growth.FirstGrowth | src/container/VTHashBase.h:486-493 | with the default factors 100 slots become 150 with the 81st element and not before |
| Growth.ChainLoadBoundKept | src/container/TChainHash.h:187 | with factors 3.0 and 1.25 the load bound survives every insertion from four buckets on |
| Growth.ChainGrowthFits | src/container/VTHashBase.h:488-493 | with those factors the grown size stays below 2^31 for any 32-bit count |
| HashElements.HashElement.InsertNext | src/container/THashElement.h:301-336 | the element is linked in behind this one |
| HashElements.HashElement.RemoveNext | src/container/THashElement.h:366-402 | the successor is unlinked and reset |
| ChainTable.AppendRefines | src/container/TChainHash.h:355-374 | appending an absent key to its bucket is the insertion into the map |
| ChainTable.WithoutRefines | src/container/TChainHash.h:409-434 | taking an element out of its bucket is the removal of its key |
| ChainTable.TotalLength | src/container/TChainHash.h:372-373 | all buckets together are as long as the map is large, so the count is the total chain length |
| ChainTable.NextMoved | src/container/VTHashBase.h:828-846 | moving the next element in bucket order extends the new table by it |
| ChainTable.WalkCounts | src/arg_handler/CArgHandler.cpp:894-896 | going through a table by its count comes to an element once for each round that reaches its bucket |
| ChainHash.TChainHash.Get | src/container/VTHashBase.h:1683-1692 | an element is returned exactly for the keys of the map |
| ChainHash.BucketIff | src/container/TChainHash.h:341-352 | the bucket is the hash modulo the size under division, and the scaled part of it under multiplication |
| ChainHash.TChainHash.EveryKeyInItsBucket | src/container/TChainHash.h:341-352 | in a valid table every key is in that bucket and in no other |
| ChainHash.TChainHash.GetByIndex | src/container/VTHashBase.h:1699-1714 | the first element of a bucket, any index wrapped into the table from both sides |
| ChainHash.TChainHash.LinkIn | src/container/TChainHash.h:356-370 | the element goes to the end of its bucket with the hops to it, other buckets stay |
| ChainHash.TChainHash.LinkOut | src/container/TChainHash.h:421-429 | the element is unlinked from its bucket, other buckets stay |
| ChainHash.TChainHash.Insert | src/container/TChainHash.h:355-374 | the map gains the binding, the bucket of the key by its hash and the method gains the element at its end |
| ChainHash.TChainHash.RemoveIdx | src/container/TChainHash.h:387-401 | the first element of the bucket is removed, the rest keeps its order |
| ChainHash.TChainHash.RemoveKey | src/container/TChainHash.h:409-434 | a present key is removed and nothing else, an absent key changes nothing |
| ChainHash.TChainHash.MoveElements | src/container/VTHashBase.h:823-846 | both loops of the growth move every element, each bucket in the old order |
| ChainHash.TChainHash.Grow | src/container/VTHashBase.h:787-859 | same map, every element indexed anew for the new size, order within buckets kept |
| ChainHash.TChainHash.Add | src/container/VTHashBase.h:475-499 | a new key is bound in its bucket, a known key keeps its binding, growth past the load factor |
| ChainHash.TChainHash.ClearBucket | src/container/VTHashBase.h:538-554 | a bucket is cut off and each of its elements counted off |
| ChainHash.TChainHash.Clear | src/container/VTHashBase.h:510-564 | the loop ends with the empty map and empty buckets |
| DataFree.AddedIsBare | src/container/VTHashBase.h:475-499 | whether an addition ends, and which slots it uses, never depends on the data |
| DataFree.SettingEnds | src/container/CThreadElementStore.cpp:158-172 | a setting ends if it does without its data, and leaves one setting less |
| ThreadHash.ThreadsSettable | src/container/CThreadElementStore.cpp:57-61 | with the size and the factors of the store each of up to 64 threads can set its cursor any number of times in a row |
| ThreadRuns.EveryUseEnds | src/container/CThreadElementStore.cpp:95-214 | any run of settings by up to 64 threads, invalidations and clearings of a new store of the default size comes to its end, and leaves room for the next use |
| Elements.ThreadElementStore.Curr | src/container/CThreadElementStore.cpp:128-138 | the lookup finds the cursor of the thread whatever has been removed before |
| Elements.ThreadElementStore.Dropped | src/container/CThreadElementStore.cpp:163 | which entry goes: the one of the thread, or exactly in the case of an absent key without a null slot another one |
| Elements.ThreadElementStore.SetCurr | src/container/CThreadElementStore.cpp:158-172 | the cursor of the thread is set, and no other cursor changes but for the entry that the removal hits |
| Elements.ThreadElementStore.FewThreadsCanSet | src/container/CThreadElementStore.cpp:57-61 | with up to 64 threads the next settings of a thread end, any number of them in a row |
| Elements.ThreadElementStore.Invalidate | src/container/CThreadElementStore.cpp:191-214 | all cursors at the element are dropped, and only those; the state is the one of ThreadRuns |
| Elements.Element.Insert | src/container/VElement.cpp:70-75 | the element is marked as inserted and its former store loses its cursors to it |
| Elements.Element.InsertNext | src/container/TDoubleElement.h:366-431 | up to three elements are relinked around the new successor, cursors of its former store to it are dropped; null and the element itself change nothing |
| Elements.Element.InsertPrev | src/container/TDoubleElement.h:456-513 | up to three elements are relinked around the new predecessor, cursors of its former store to it are dropped; null and the element itself change nothing |
| Elements.Element.Remove | src/container/TDoubleElement.h:564-581 | the element is unlinked on both sides and no cursor is left on it |
| DoubleList.TDoubleList.Curr | src/container/TSingleList.h:894-897 | the cursor of the thread or else the head, so that every thread is at an element of the list exactly as long as there is one |
| DoubleList.TDoubleList.SetCursor | src/container/TSingleList.h:901-903 | the element becomes the current one of the thread, and no other cursor changes but for the entry that goes |
| DoubleList.TDoubleList.LinkIn | src/container/TDoubleList.h:853-877 | all four cases insert at the stated place and maintain head and tail |
| DoubleList.TDoubleList.Insert | src/container/TDoubleList.h:839-882 | the list gains the element behind the given one, it becomes the current one, and no other cursor changes but for the entry that goes |
| DoubleList.TDoubleList.Remove | src/container/TDoubleList.h:1226-1269 | head, tail, middle or only element is deleted from the sequence, unlinked on both sides, and no cursor dangles |
| DoubleList.TDoubleList.SearchUp | src/container/TDoubleList.h:566-578 | the upward half finds the data exactly if it is behind the cursor, and the first such element |
| DoubleList.TDoubleList.SearchDown | src/container/TDoubleList.h:580-595 | the downward half finds the data exactly if it is before the cursor, and the last such element |
| DoubleList.TDoubleList.Find | src/container/TDoubleList.h:502-605 | from any cursor an element is found exactly if some element holds the data: the current one, else head, else tail, else the next one upwards, else the next one downwards; it becomes current, and no other cursor changes but for the entry that goes |
| DoubleList.OneIsChosen | src/container/TDoubleList.h:502-605 | this choice is one element exactly, if there is one with the data |
| DoubleList.TDoubleList.InsDataBehindElem | src/container/TSingleList.h:1527-1548 | new data goes behind the element, or to the front for null |
| DoubleList.TDoubleList.InsDataBeforeElem | src/container/TDoubleList.h:1117-1139 | new data goes before the element, or to the end for null |
| DoubleList.TDoubleList.InsDataBehindData | src/container/TSingleList.h:1496-1524 | new data goes behind the element that a search finds; an error exactly if none has the given data |
| DoubleList.TDoubleList.InsDataBeforeData | src/container/TDoubleList.h:1083-1113 | new data goes before the element that a search finds; an error exactly if none has the given data |
| DoubleList.TDoubleList.RemoveAfterElement | src/container/TDoubleList.h:1297-1299 | the successor is removed, or the head for null |
| DoubleList.TDoubleList.RemoveBeforeElem | src/container/TDoubleList.h:1320-1322 | the predecessor is removed, or the tail for null |
| DoubleList.TDoubleList.RemoveData | src/container/TDoubleList.h:1273-1275 | the element that a search finds is removed, exactly if there is one with the data |
| DoubleList.TDoubleList.Append | src/container/TSingleList.h:771-789 | the data of another list is appended in order; a list is not appended to itself |
| DoubleList.TDoubleList.Clear | src/container/TSingleList.h:1322-1369 | the list is empty and no cursor is left |
| Sets.NoRepeats | src/container/TSet.h:453-496 | agreement of list and lookup means that no value occurs twice |
| Sets.InsertionAgrees | src/container/TSet.h:466-492 | inserting a new value in both keeps them in agreement |
| Sets.DeletionAgrees | src/container/TSet.h:856-882 | deleting an element from both keeps them in agreement |
| Sets.SameSize | src/container/TSet.h:492-494 | list and lookup hold equally many |
| Sets.TSet.FindData | src/container/TSet.h:431-435 | a value is found exactly if it is in the list |
| Sets.TSet.Find | src/container/TSet.h:421-427 | a pointer is found exactly if an element holds that very pointer |
| Sets.TSet.Insert | src/container/TSet.h:453-496 | a new value is inserted at its place and the lookup maps it to its element |
| Sets.TSet.Remove | src/container/TSet.h:851-896 | the element is deleted from list and lookup alike |
| Sets.TSet.RemoveData | src/container/TSet.h:900-902 | the element with the value is removed exactly if there is one |
| Sets.TSet.Clear | src/container/TSet.h:526-538 | removing tails ends with the empty set |
| Sets.TSet.InsDataBehindElem | src/container/TSet.h:588-611 | null and known values change nothing, new ones go behind the element or to the front |
| Sets.TSet.InsDataBeforeElem | src/container/TSet.h:736-762 | null and known values change nothing, new ones go before the element, or to the front for null |
| Sets.TSet.InsDataBehindData | src/container/TSet.h:549-584 | the error for an unknown neighbour comes only for a new value |
| Sets.TSet.InsDataBeforeData | src/container/TSet.h:696-732 | as before, with the front for null |
| Sets.TSet.IsSubsetOf | src/container/TSet.h:238-264 | true exactly if the values are a subset |
| Sets.TSet.Append | src/container/TSingleList.h:771-789 | the values that are new are appended in their order |
| Sets.TSet.Assign | src/container/TSet.h:392-400 | the set becomes a copy in the same order |
| SetAlgebra.SelectKeepsOrder | src/functions/set_func.h:94-105 | what is pushed is a subsequence of lhs, in its order |
| SetAlgebra.AreSetOperations | src/functions/set_func.h:69-287 | difference, intersection and union of the data have the members of the mathematical operations |
| SetAlgebra.SpecialCases | src/functions/set_func.h:81-91 | one set twice and empty sets |
| SetAlgebra.EqualSizes | src/functions/set_func.h:336-341 | equal sizes and one inclusion mean the same members |
| SetFunctions.SetDifference | src/functions/set_func.h:69-110 | a new set with the data of lhs whose values are not in rhs, in order; lhs and rhs unchanged |
| SetFunctions.SetIntersection | src/functions/set_func.h:166-206 | a new set with the data of lhs whose values are in rhs, in order; lhs and rhs unchanged |
| SetFunctions.SetUnion | src/functions/set_func.h:261-287 | a new set with the data of lhs, then the new ones of rhs, each in order; lhs and rhs unchanged |
| SetFunctions.AreEqual | src/functions/set_func.h:333-344 | true exactly if both sets have the same members |
| Lockable.EveryRun | src/basic/CLockable.cpp:208-308 | the invariant holds after every interleaving of the atomic accesses of any threads |
| Lockable.EntryNeedsTheFlag | src/basic/CLockable.cpp:223 | only a test-and-set of a clear flag lets a thread in, only the clearing lets it out |
| Lockable.MutualExclusion | src/basic/CLockable.cpp:208-308 | never two holders; for the holder, owner id, count and mark are its own |
| Lockable.FieldsMeanThreads | src/basic/CLockable.cpp:116-308 | the flag is set exactly while one thread is inside, the owner is 0 or that thread, which has marked the object, and the waiting count is the number of attempts |
| Lockable.CallsDoWhatTheySay | src/basic/CLockable.cpp:116-308 | lock, try_lock, unlock, clear_locks and lock_count have done to the depth of their thread, and answered, what they promise |
| Lockable.AllReleased | src/basic/CLockable.cpp:293-308 | after all is released the fields are back at their initial values |
| LockRuns.TryLockFails | src/basic/CLockable.cpp:254-289 | a try_lock that answers NO has begun without a lock, and another thread has been inside between call and return |
| LockRuns.TryLockSucceeds | src/basic/CLockable.cpp:254-289 | with no other thread inside meanwhile a try_lock answers YES and has one lock more |
| LockRuns.CallsReturn | src/basic/CLockable.cpp:116-308 | in any interleaving every call but lock returns within seven accesses of its own, and lock within seven besides those made while another thread is inside |
| LockRuns.LocksAlone | src/basic/CLockable.cpp:208-289 | after any run a thread that moves alone locks a free object with seven accesses and its own with two; on an object of another one try_lock answers NO after four and lock never returns |
| LockRuns.UnlocksAlone | src/basic/CLockable.cpp:116-308 | after any run a thread that moves alone gives up its locks, all or one, or reads their number, and a thread without locks is turned away; fields and answers exactly |
| Phases.EveryRun | src/container/VTHashBase.h:61-127 | the invariant of counters, lock and depths holds after every interleaving |
| Phases.EntryIsChecked | src/container/VTHashBase.h:61-98 | an exclusive body is entered only after a load of a clearing counter that is zero; see PhaseRuns.PhasesWait for the other counters |
| Phases.PhaseExclusion | src/container/VTHashBase.h:61-127 | at most one thread is in a grow, insert or remove body, and none while a thread is in a clear body |
| Phases.CountersMeanThreads | src/container/VTHashBase.h:61-127 | each counter is the number of threads between its raising and lowering |
| PhaseRuns.PhasesWait | src/container/VTHashBase.h:61-122 | in any run, while a thread stays counted in growing no insertion, removal, clear or wait begun since gets past its tests; in clearing no grow, insertion, removal or wait; in inserting or removing no grow or clear |
| PhaseRuns.PhaseBegins | src/container/VTHashBase.h:61-122 | after any run a thread that moves alone comes to the body of its phase if the lock is free or its own and no counter is raised for which it waits; a grow raises its counter with its first access |
| PhaseRuns.PhaseEnds | src/container/VTHashBase.h:71-127 | and from the body it comes back with the locks it had before and the counter lowered |
| LockGuard.TryLocks | src/basic/CLockable.cpp:374-396 | all or nothing: each object's depth rises by its occurrences, or none changes |
| LockGuard.CLockGuard.Retry | src/basic/CLockGuard.cpp:94-99 | the retry loop locks all that is not destroyed, or holds nothing |
| LockGuard.CLockGuard.Reset | src/basic/CLockGuard.cpp:85-100 | the former objects are released and the new ones locked, once for each occurrence |
| LockGuard.CLockGuard.Destroy | src/basic/CLockGuard.cpp:62-64 | what was held is released |
| LockGuard.CLockGuard.TakeOver | src/basic/CLockGuard.cpp:54-75 | what copying and moving do to the depths |
| LockGuard.TakeOverIsBalancedIff | src/basic/CLockGuard.cpp:54-75 | exactly when they keep the balance of an object |
| LockGuard.CopyLosesALock | src/basic/CLockGuard.cpp:54-60 | an object locked by hand and by a guard is locked once only after the guard has been copied |
| GuardRuns.GuardsBalance | src/basic/CLockGuard.cpp:42-100 | after any run of constructions, resets and destructions each depth is the first one plus the occurrences in living guards |
| GuardRuns.AllReleased | src/basic/CLockGuard.cpp:42-100 | without living guards all depths are the first ones |
| GuardRuns.ServeAll | src/basic/CLockGuard.cpp:42-100 | any run of guard objects over objects comes to the depths of the recurrence, so that the two results above hold of the objects |
| Matching.ExactlyOne | src/arg_handler/CArgHandler.cpp:804-838 | every word is exactly one of direct argument, full cluster, parameter and unknown argument |
| Matching.TargetsOf | src/arg_handler/CArgHandler.cpp:1094-1121 | a direct argument is its own target, and no other word but a full cluster has any |
| Matching.ClusterInOrder | src/arg_handler/CArgHandler.cpp:1108-1118 | a cluster stands for the targets of its characters, each with the dashes before it, from left to right |
| Matching.ClusterSplits | src/arg_handler/CArgHandler.cpp:1094-1121 | a cluster stands for what its parts stand for, one after the other, unless a part of several characters is a name itself |
| Matching.WithoutNames | src/arg_handler/CArgHandler.cpp:826-836 | without names, words with a dash at the front and something else are unknown, words without are parameters |
| Matching.NextTarget | src/arg_handler/CArgHandler.cpp:849-859 | taking the first parameter that is left gives the k-th needing argument the k-th parameter |
| Matching.RotatedNext | src/arg_handler/CArgHandler.cpp:873-880 | moving the first positional target to the end gives leftover i the target i modulo their number |
| Matching.NothingIsLost | src/arg_handler/CArgHandler.cpp:844-889 | every parameter is handed out once, in order, or left over |
| Matching.NothingFailsIff | src/arg_handler/CArgHandler.cpp:987-1041 | exactly when handing out leads to no error, the exceptions of callbacks included |
| NameTables.MetIff | src/arg_handler/CArgHandler.cpp:894-920 | a target is met on the walk exactly if it has a name in a bucket below the number of names |
| NameTables.NotedIff | src/arg_handler/CArgHandler.cpp:894-920 | a mandatory target is noted exactly if it has not been processed and is met |
| NameTables.NotedCounts | src/arg_handler/CArgHandler.cpp:894-920 | a target with one name is noted as often as the walk comes to its bucket |
| NameTables.AllNotedIff | src/arg_handler/CArgHandler.cpp:894-920 | all are noted exactly if each has a name below the count, and so if there are as many names as buckets |
| ArgHandler.ArgTarget.Process | src/arg_handler/TArgTarget.h:176-230 | a target that takes one parameter only refuses the second, and does not call its callback then; otherwise the value is changed as the type of the target says; an exception leaves it unprocessed |
| ArgHandler.NeedsParameterIff | src/arg_handler/VArgTargetBase.cpp:95-102 | a target needs a parameter exactly if its value depends on it, or if it is a callback with a named parameter |
| ArgHandler.ValueMeans | src/arg_handler/TArgTarget.h:176-230 | the value after any deliveries is counted up or down by their number, has their parameters added or subtracted, is the last parameter, or is as before, by the type of the target |
| ArgHandler.OnceReached | src/arg_handler/TArgTarget.h:203-212 | a target that takes one parameter only is reached by the first one, and not at all if it has been given one before |
| ArgHandler.CArgHandler.Uncombine | src/arg_handler/CArgHandler.cpp:1094-1121 | all found exactly if every character behind the dashes names a target; then the j-th target is that of the j-th character with all dashes before it |
| ArgHandler.CArgHandler.PrepareAll | src/arg_handler/CArgHandler.cpp:802-838 | the first step sorts the words up to the marker into arguments, parameters and errors |
| ArgHandler.CArgHandler.GetTarget | src/arg_handler/CArgHandler.cpp:946-959 | the entry of the word in the short table, or else of the long table; the empty word has no target |
| ArgHandler.CArgHandler.ProcTarget | src/arg_handler/CArgHandler.cpp:987-1041 | the target gets the parameter, or the error is noted: a missing parameter, a refused one, or an exception |
| ArgHandler.CArgHandler.ProcessAll | src/arg_handler/CArgHandler.cpp:843-862 | the second step hands out the parameters in order |
| ArgHandler.CArgHandler.ServeAll | src/arg_handler/CArgHandler.cpp:868-889 | the third step serves the positional targets in turn, or notes errors |
| ArgHandler.CArgHandler.ErrorFreeIff | src/arg_handler/CArgHandler.cpp:804-889 | exactly which words lead to no error, given at which targets the processing throws |
| ArgHandler.CArgHandler.ClusterHandsOutParts | src/arg_handler/CArgHandler.cpp:1094-1121 | a command line with a cluster hands out, and gets wrong, what the same one with the parts of the cluster as words does |
| ArgHandler.CArgHandler.CheckMandatory | src/arg_handler/CArgHandler.cpp:891-934 | the fourth step notes the mandatory targets it meets that have not been processed, over the short names and then the long ones |
| ArgHandler.CArgHandler.NothingMissingIff | src/arg_handler/CArgHandler.cpp:891-934 | the fourth step notes nothing exactly if every mandatory target with a name in a bucket below the count has been processed |
| ArgHandler.CArgHandler.EnoughDemanded | src/arg_handler/CArgHandler.cpp:894-920 | with as many names as buckets in a table its mandatory targets are all met |
| ArgHandler.CArgHandler.RunErrorFreeIff | src/arg_handler/CArgHandler.cpp:804-934 | a run leads to no error exactly if the words lead to none and every mandatory target that the fourth step meets is handed something, given at which targets the processing throws |
| ArgHandler.MissedArgument | src/arg_handler/CArgHandler.cpp:894-896 | a handler with one mandatory argument, not in the first of 37 buckets, and a command line without it that leads to no error |
| ArgHandler.CArgHandler.ParseArgs | src/arg_handler/CArgHandler.cpp:755-943 | what is handed to which target, what it makes of the values and marks of all targets, the errors of all four steps in order, and the words passed through unchanged if there are none |
| ArgHandler.CArgHandler.ResetTargets | src/arg_handler/CArgHandler.cpp:1044-1079 | exactly the positional targets and those met on the walks are reset |

## Left out

- Geometry.PrimeSizes: sizes beyond 2^31, for which the 32-bit sum of position and step wraps.
- OpenHash.TOpenHash.constructor: sizes below 5 and size 6, for which the adjustment of the step may never end.
- OpenHash.TOpenHash.Insert: where the displacement loop never ends there is no state afterwards to speak of; the precondition is exactly that it ends.
- OpenHash.TOpenHash.Add: the same for the loops of its insertion and of the growth that may follow.
- OpenHash.TOpenHash.Grow: growth to size 6 and to odd sizes beyond 2^31, beside insertions that never end.
- Elements.ThreadElementStore.SetCurr: settings whose addition never ends; the list methods that set a cursor ask that it ends, exactly as often as they set one.
- ArgHandler.ArgTarget.Process: conversions of parameters to values, which lead to no errors and are a parameter of the target; targets without a variable behind them; values wrap around in the width of their type, which the model leaves out, and a string is a value of its own kind.
- ArgHandler.CArgHandler.constructor: registering targets under their names, with its checks; the handler starts with the tables as they are.
- The factor 0.618 and the load and growth factors are exact rationals; rounding of doubles is not modelled.
- Containers are modelled without thread safety of their own; their phases and locks are modelled apart from the data.
- Element numbering and access by index of the lists, both rings, insert_sorted and operator-=.
- pop_front and pop_back of the hashes, and the string-based keys and hash builders.
- Insertions of element copies, which differ from those of data in the source of the data only.
- Load factors of the lookup table of a set other than the defaults.
- try_locks for two objects, which is the one for three with a null.
- Switching locking on and off, the mutex build, memory orders weaker than sequential consistency, wrap-around of the 32-bit lock count, and fairness, without which a lock may wait for ever.
- Data ownership, destroy functions, destructors' waiting loops, exceptions and allocation failure.
- Help texts, log queue, memory map, string utilities, random numbers, worker threads and streams.
