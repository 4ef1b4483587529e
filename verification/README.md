# Verified models of OpenCog components

Dafny models of four parts of this repository, with proofs of what they are for. `dafny verify dfyconfig.toml` checks
the whole project.

**Temporal index** (`opencog/spacetime`). A temporal table relates handles to time intervals. It keeps a sorted linked
list per handle with a cached last node, a hash from times to handles, one global sorted list, and an array of
pointers into that list which is searched by binary search and rebuilt when too many updates are pending. `Temporal`,
`TemporalEntry`, `TimeIndex`, `HandleLists`, `Criteria` and `TemporalTable` model it with linked nodes on the heap;
`TableModel` says what it means, a set of pairs, and `TableRuns` and `StaleRuns` what holds over whole runs.
`Intersection` and `ListIntersection` are the intersection of any number of sorted lists by cursors, and
`TimeNodeNames` the names of times.

**JSON** (`lib/json_spirit`). `JsonEscapes`, `JsonValue` and the generator in `JsonSpirit` write values; `JsonReader`
is the grammar as a recursive-descent parser that lists the semantic actions it fires, `JsonActions` the stack machine
they drive. `JsonGrammar` has the texts of JSON as trees, with white space and comments between the tokens.
`JsonTokens` and `JsonParsing` prove that the reader reads the texts of trees and nothing else, `JsonRoundTrip` that
the machine builds the values of trees, and `JsonText` that the writer writes trees in the layout asked for: so the
reader undoes the writer.

**Grid search** (`opencog/spatial`). `GridMap` searches rings of cells for the nearest free one, `PathSmoothing`
shortens paths by lines of sight, `SearchNode` has the moves and heuristics of the A* search.

**Importance diffusion** (`opencog/attention`). `Diffusion` divides what an atom gives over its neighbours and drains
the stack of transfers; `Sums` adds up maps.

## Where the code does not do what it is for

- *Stale tails.* Removing by a PREVIOUS criterion for one handle (opencog/spacetime/TemporalTable.cc:437-453) does not
  look at the cached tail, and removing a time for all handles (lines 502-513) drops the tail only when it is also the
  head. The tail then points to a deleted entry, and the next add for the handle reads it (lines 712-713), after which
  the original may do anything. `HandleLists` keeps the set of dead entries, and a tail is one just when it has left
  its list (`DeadTails`). Over all runs, `TableRuns` shows which removals strand a tail (`OneTail`, `HazardIsExact`),
  that no dead entry is read when no time is added for a handle whose tail was stranded, whichever addresses new
  entries are given, and that this is exact as long as addresses are not used again (`DeadReadsFollowHazards`); such
  runs keep all views in agreement with the plain set (`CarefulRunsAreReplays`, `Execute`). A removal compares a dead
  tail with entries that are alive; should one of these have its address, the tail is dropped, which `Run` allows for.
  `StaleRuns` tells what the code comes to if it reads the dead entry and the memory still holds it: which times are
  then lost, and both failing families at their inputs.
- *The undefined Temporal.* Its bounds wrap around, so `compareTo` takes it for one valid interval
  (`CompareToIsZero`); `add` of it succeeds when that interval is a key.
- *OVERLAPS.* The comment in opencog/spacetime/TemporalTable.h:55-68 says STARTS_WITHIN or ENDS_WITHIN; its formula
  and the code also accept intervals that reach beyond the argument on both sides. The model follows the code
  (`OverlapsIsMoreThanWithin`).
- *always_escape_nonascii.* The comment in lib/json_spirit/json_spirit_writer_options.h says printable ASCII is not
  escaped; without raw_utf8 the code writes every character that has no escape of its own by its number
  (`EscapedByOption`, `AsciiIsEscapedToo`). The model follows the code.
- *MANHATTAN*, the default heuristic, exceeds the cost of paths with diagonal moves (`ManhattanIsConsistent`,
  `ManhattanIsAdmissible`).
- *Hebbian shares.* The comment in opencog/attention/ImportanceDiffusionBase.cc:410-421 has the allowed percentage
  divided among the hebbian neighbours; the vector it is applied to has been divided by their number already, so
  together they have no more than the percentage divided by their number (`ShareOf`, `HebbianPartTotal`).
- *Sum of the shares.* A debug assertion (lines 463-470) expects 1. What is in the vector adds up to less when there
  are no incident atoms, or some of them are listed twice or are hebbian neighbours (`SharesAddUp`,
  `SharesAreEverything`).
- *No parent.* The marker for it is a cell of the grid when both dimensions are 2^32 - 1, and is then lost as a
  neighbour (`NoParentIsOffGrid`, `NoParentLosesOrigin`).

## How things are modelled

- A handle is a natural number, the undefined handle 0; it is the least in the order of handles, as the intersection
  of pairs needs.
- A Temporal is a value, where the original shares pointers to one; 64-bit wrap-around is written out. Entries of
  lists are objects, and lists are relinked in place. The hash maps are `map` fields. The fields of the table are
  split over `TimeIndex` (global list, index array and counts), `HandleToEntries` (lists and tails) and
  `TemporalTable` (the hash).
- `TemporalTable.Get` gives a sequence of pairs for the list the original builds. Handles of one time come in any
  order, as they come from an unordered set.
- JSON text and strings are sequences of 8-bit characters, with `char` signed in the lexer of escapes. A real is known
  by its text. What the parsing library does is modelled from its documented behaviour: a production that takes back a
  comma has fired no action since. A pointer into the tree under construction is a depth along last items, and no item
  pointed to is moved while the pointer is held (`HeldPointersStay`). Which characters are printable is an argument,
  as the locale decides it.
- Whether a ray between two points meets an obstacle is an arbitrary predicate of the two. Coordinates, costs and
  probabilities are reals. Distances are compared by their squares.
- Incident atoms, hebbian neighbours, truth values and parameters, which come from the AtomSpace and the
  configuration, are arguments. Strengths, confidences and percentages are taken to be probabilities, and importance
  to start non-negative.

## Model

| member | source | states |
|---|---|---|
| `Temporals.Compare` | opencog/spacetime/Temporal.cc:208-231 | On valid intervals the sign of compareTo is that of the difference of two positions in one total order, and 0 means the very same interval |
| `Temporals.CompareToIsTotalOrder` | opencog/spacetime/Temporal.cc:208-258 | compareTo is antisymmetric, transitive and total on valid intervals; it goes by lower bounds, then by upper bounds, then normal ones first, and is 0 just when mean, variance and flag (or both bounds and flag) are equal |
| `Temporals.BoundsAreReached` | opencog/spacetime/Temporal.cc:134-150 | The bounds of a valid interval are the first and last of its time stamps, over all integers: for a normal one those at most the variance away from the mean |
| `Temporals.CompareToIsZero` | opencog/spacetime/Temporal.cc:89-103 | The undefined Temporal compares equal to exactly one valid interval, because its own bounds wrap around |
| `Temporals.InitAcceptsTheValid` | opencog/spacetime/Temporal.cc:59-87 | The test `sum < a` on the wrapped 64-bit sum rejects every overflow: the constructor accepts exactly the intervals whose bounds are in range |
| `TimeNodeNames.GetFromTimeNodeName` | opencog/spacetime/Temporal.cc:180-206 | The pointer walk over the colons reads what the specification of names says |
| `Decimals.DecimalIsRead` | opencog/spacetime/Temporal.cc:158-173 | A printed number stands for that number, without leading zeros |
| `TimeNodeNames.NumberIsRead` | opencog/spacetime/Temporal.cc:180-198 | A printed 64-bit number, at the end of a name or in front of a colon, is read back |
| `TimeNodeNames.NameIsRead` | opencog/spacetime/Temporal.cc:158-206 | Over all 64-bit values and all three shapes of a name: reading the name of an interval gives that interval back just when it is valid, and complains otherwise |
| `TimeNodeNames.ColonsOfName` | opencog/spacetime/Temporal.cc:158-173 | A name has no colon for a time point, one for an interval, and two with the flag for a normal interval |
| `TimeNodeNames.AnyNumberIsRead` | opencog/spacetime/Temporal.cc:180-198 | What is read at the start of any text: blanks, a sign or none, digits; no digits are 0, a minus sign wraps around, and what is too large is the largest there is |
| `TemporalEntries.Add` | opencog/spacetime/TemporalEntry.cc:190-222 | Sorted insertion by relinking: the list then holds the old times and the new one; a time that is there changes nothing; insertion from an entry in the middle does the same to the whole list |
| `TemporalEntries.Remove` | opencog/spacetime/TemporalEntry.cc:157-188 | Both loops together unlink exactly the entry of the time and keep the list sorted |
| `TemporalEntries.Contains` | opencog/spacetime/TemporalEntry.cc:110-123 | Membership, with the early stop at the first greater entry |
| `TemporalEntries.Last` | opencog/spacetime/TemporalEntry.cc:100-108 | The entry none follows, reached from any entry of the list |
| `TimeIndexes.Fill` | opencog/spacetime/TemporalTable.cc:753-763 | The array gets every entry of the list in order; the count is that of the list, so the size-mismatch warning is not reached |
| `TimeIndexes.TimeIndex.GetTemporalIndexTablePos` | opencog/spacetime/TemporalTable.cc:769-791 | Binary search over slots that may repeat: a slot of the time, or the last slot before it, all later ones being behind it; slot 0 is in use when it is read |
| `TimeIndexes.TimeIndex.GetPreviousTemporalEntry` | opencog/spacetime/TemporalTable.cc:793-810 | A live list entry at or before the time, with no slot between the two; none only when the first slot is not before it |
| `TimeIndexes.TimeIndex.ResizeIndexTable` | opencog/spacetime/TemporalTable.cc:746-752 | The array is kept while it is neither too small nor four times too large, and made twice as large as needed otherwise |
| `TimeIndexes.TimeIndex.UpdateIndexTable` | opencog/spacetime/TemporalTable.cc:743-766 | After a rebuild every entry has a slot, in order, and nothing is pending |
| `TimeIndexes.TimeIndex.InsertTime` | opencog/spacetime/TemporalTable.cc:92-107 | Insertion through the index gives the list that insertion from the head would |
| `TimeIndexes.TimeIndex.WalkTo` | opencog/spacetime/TemporalTable.cc:118-126 | The entry of the new time is found by walking from the previous entry; the "newEntry NULL" error is not reached |
| `TimeIndexes.TimeIndex.IndexTime` | opencog/spacetime/TemporalTable.cc:112-136 | The entry gets the next slot just when there is one and it comes behind all others, and is counted as pending otherwise; the index stays sorted, within capacity, pointing to live entries, and the rebuild rule is kept |
| `TimeIndexes.TimeIndex.CountPending` | opencog/spacetime/TemporalTable.cc:130-134 | One more is pending while there are at least 8 times as many entries, and the index is left alone; otherwise it is rebuilt and nothing is pending |
| `TimeIndexes.TimeIndex.ReplaceIndexTablePosition` | opencog/spacetime/TemporalTable.cc:675-696 | Exactly the slots of one entry change, wherever they are; the position returned is before all of them |
| `TimeIndexes.TimeIndex.UnindexTime` | opencog/spacetime/TemporalTable.cc:601-621 | No slot holds the time any more, every other entry keeps its slot, and the position to search from is before the time |
| `TimeIndexes.TimeIndex.UnlinkTime` | opencog/spacetime/TemporalTable.cc:623-656 | Unlinking from a slot takes exactly the entry of the time off the list, as unlinking from the head would |
| `TimeIndexes.TimeIndex.CountUnlinked` | opencog/spacetime/TemporalTable.cc:657-671 | An unlinked entry has no slot left, so the branch that only shortens the index is dead; the rebuild rule is kept |
| `TimeIndexes.TimeIndex.RemoveFromSortedEntries` | opencog/spacetime/TemporalTable.cc:598-673 | The time goes from list and index; sortedness, live slots, coverage and the rebuild rule are kept |
| `TimeIndexes.TimeIndex.EmptyIndexMisses` | opencog/spacetime/TemporalTable.cc:769-779 | When no slot is in use, the list is no longer than the number of updates pending |
| `TimeIndexes.TimeIndex.IndexNotEmpty` | opencog/spacetime/TemporalTable.cc:112-135 | A list that is not empty always has a slot in use: binary search never reads an unset one |
| `TimeIndexes.TimeIndex.Insert` | opencog/spacetime/TemporalTable.cc:92-107 | First half of add: the list gains the time, the index is one entry behind |
| `TimeIndexes.TimeIndex.Index` | opencog/spacetime/TemporalTable.cc:112-136 | Second half of add: all invariants of list and index hold again, and the list is untouched |
| `TimeIndexes.TimeIndex.Remove` | opencog/spacetime/TemporalTable.cc:598-673 | All invariants of list and index hold over every removal |
| `HandleLists.HandleToEntries.Add` | opencog/spacetime/TemporalTable.cc:702-727 | Adding through the cached tail gives sorted insertion into the list of the handle whenever the tail is on it, and then touches no dead entry; when the tail is dead, what happens as far as its memory still holds it; all other handles are untouched |
| `HandleLists.HandleToEntries.RemoveEntry` | opencog/spacetime/TemporalTable.cc:420-428 | The entry goes and is dead from then on, and with it goes the tail if it is that entry |
| `HandleLists.HandleToEntries.RemovePrevious` | opencog/spacetime/TemporalTable.cc:451-461 | The entry goes and is dead; the tail stays, dead, if it is that entry |
| `HandleLists.HandleToEntries.RemoveTime` | opencog/spacetime/TemporalTable.cc:499-512 | The time goes from the list of a handle and its entry is dead; the tail goes only if it is also the head, and stays, dead, otherwise |
| `HandleLists.TailAfterOneMore` | opencog/spacetime/TemporalTable.cc:374-596 | Removing times one by one from the earliest on leaves the tail as removing them together does |
| `Criteria.MatchesIsDefined` | opencog/spacetime/TemporalTable.cc:812-894 | All 13 branches decide the definitions documented in the header; OVERLAPS decides whether the intervals share a time stamp, told by mean and variance or both bounds |
| `Criteria.StopIsSafe` | opencog/spacetime/TemporalTable.cc:812-894 | When a branch stops the search, nothing later in the list matches, unless the first match is all that is wanted |
| `Criteria.StepOk` | opencog/spacetime/TemporalTable.cc:310-347 | One turn of the scan keeps what it knows of the times seen |
| `Criteria.ScanIsComplete` | opencog/spacetime/TemporalTable.cc:140-185 | A scan that was stopped early, or went to the end, has found exactly the times the definition asks for: all matching ones, or the first or last of them, in order |
| `Criteria.OverlapsIsMoreThanWithin` | opencog/spacetime/TemporalTable.h:55-68 | Where the comment on OVERLAPS and its formula differ: intervals that reach beyond the argument on both sides |
| `TemporalTables.TemporalTable.constructor` | opencog/spacetime/TemporalTable.cc:40-50 | An empty table satisfies every invariant |
| `TemporalTables.TemporalTable.AddToMaps` | opencog/spacetime/TemporalTable.cc:698-741 | List and tail of the handle and the hash from times to handles after an add |
| `TemporalTables.TemporalTable.AddTime` | opencog/spacetime/TemporalTable.cc:90-138 | All views after the add of a valid time |
| `TemporalTables.TemporalTable.Add` | opencog/spacetime/TemporalTable.cc:83-138 | On any table, add is insertion into the set of pairs, and into the lists as far as tails allow; it fails just for the undefined Temporal, and then changes nothing, unless the interval that compares equal to it is a key |
| `TemporalTables.TemporalTable.GetByHandle` | opencog/spacetime/TemporalTable.cc:140-185 | The selected pairs of one handle, each once, in the order of their times |
| `TemporalTables.TemporalTable.GetByScan` | opencog/spacetime/TemporalTable.cc:191-366 | The selected pairs of all handles, by a scan with early cut-off; for the PREVIOUS criteria those of the last match |
| `TemporalTables.TemporalTable.GetExact` | opencog/spacetime/TemporalTable.cc:215-257 | The pairs of one time through the hash; the time is always found on the list of each handle, so the exception is not reached |
| `TemporalTables.TemporalTable.UpperLimit` | opencog/spacetime/TemporalTable.cc:265-279 | The first entry that begins after the argument ends, found from an entry of the index |
| `TemporalTables.TemporalTable.GetOverlaps` | opencog/spacetime/TemporalTable.cc:258-309 | Index jump, upper limit and prefix scan return exactly the pairs that intersect the argument, in list order |
| `TemporalTables.TemporalTable.Get` | opencog/spacetime/TemporalTable.cc:140-372 | Every lookup lists exactly the pairs of the set that the criterion selects; for OVERLAPS those whose interval shares a time stamp with the argument, told by mean and variance or both bounds |
| `TemporalTables.TemporalTable.RemoveByHandle` | opencog/spacetime/TemporalTable.cc:374-471 | Exactly the pairs get would list are gone, from every view; the result tells whether there were any; what becomes of the tail |
| `TemporalTables.TemporalTable.RemoveExact` | opencog/spacetime/TemporalTable.cc:488-520 | One time goes from all views; every tail is kept, dropped or left behind as the head test decides |
| `TemporalTables.TemporalTable.RemoveOverlaps` | opencog/spacetime/TemporalTable.cc:521-563 | The sweep removes exactly the intersecting times while it deletes nodes behind its own cursor, and its limit entry stays alive |
| `TemporalTables.TemporalTable.RemoveByScan` | opencog/spacetime/TemporalTable.cc:564-589 | The sweep removes exactly the times the criterion selects |
| `TemporalTables.TemporalTable.Remove` | opencog/spacetime/TemporalTable.cc:374-596 | remove takes exactly the selected pairs from all views, keeps every invariant, and is a step of the abstract table, tails included |
| `TemporalTables.TemporalTable.SweepSelects` | opencog/spacetime/TemporalTable.cc:473-596 | Removing times for all handles removes the selected pairs, and some just when some time was there |
| `TableModel.TagIsListing` | opencog/spacetime/TemporalTable.cc:152-183 | The matches of a scan of one list, with the handle put to them, are a listing of the selected pairs |
| `TableModel.OverlapsSelected` | opencog/spacetime/TemporalTable.cc:258-309 | OVERLAPS selects the pairs whose interval has a time stamp in common with the argument |
| `HandleLists.HandleToEntries.DeadTails` | opencog/spacetime/TemporalTable.cc:423-426 | A cached tail is a dead entry just when it has left the list of its handle |
| `TemporalTables.TemporalTable.DeadTails` | opencog/spacetime/TemporalTable.cc:423-426 | The same, for the abstract table: the tails it shows as off their lists are the dead entries |
| `TemporalTables.TemporalTable.GetAny` | opencog/spacetime/TemporalTable.cc:140-372 | Lookup on a table whose views may differ: by the list of a handle, or by the hash; only the exact lookup for all handles can throw, and not while the views agree |
| `TableRuns.OneTail` | opencog/spacetime/TemporalTable.cc:374-596 | A tail that is not dead dies just when the step takes its entry by a PREVIOUS criterion for one handle, or for all handles while the list keeps other times |
| `TableRuns.HazardIsExact` | opencog/spacetime/TemporalTable.cc:437-513 | A step leaves all tails current just when it does that to none |
| `TableRuns.StepIsApply` | opencog/spacetime/TemporalTable.cc:83-741 | A step that reads no dead entry does to all views what it does to the plain set |
| `TableRuns.StaysDead` | opencog/spacetime/TemporalTable.cc:420-426 | As long as addresses are not used again, nothing but an add for its handle touches a dead tail |
| `TableRuns.UntilDeadRead` | opencog/spacetime/TemporalTable.cc:83-741 | Over every run, whichever addresses are given: up to the first step that reads a dead entry the views agree and hold the plain set, and only stranded tails are dead |
| `TableRuns.DeadReadsFollowHazards` | opencog/spacetime/TemporalTable.cc:710-713 | Over every run: when no time is added for a handle once its tail was stranded, no step reads a dead entry, whichever addresses are given; as long as addresses are not used again, just then |
| `TableRuns.CarefulRunsAreReplays` | opencog/spacetime/TemporalTable.cc:83-741 | Such a run has all views in agreement throughout, and they hold the plain set |
| `TableRuns.RunIsReplay` | opencog/spacetime/TemporalTable.cc:83-741 | Over every run without a hazard the views agree, tails are current, no dead entry is read, and the table is the plain set |
| `TableRuns.HarmlessRunsAreReplays` | opencog/spacetime/TemporalTable.cc:386-435 | Adds, removals for one handle except by the PREVIOUS criteria, and clearing are never a hazard: over all their runs tails stay last and the table is the plain set |
| `TableRuns.HarmlessIsCareful` | opencog/spacetime/TemporalTable.cc:386-435 | Such operations never strand a tail that an add among them uses |
| `TableRuns.Execute` | opencog/spacetime/TemporalTable.cc:83-741 | Every careful sequence of operations, applied to a new table, leaves it valid and holding the plain set, and no add goes by a dead entry |
| `StaleRuns.LandsOrIsLost` | opencog/spacetime/TemporalTable.cc:710-727 | If the memory of a dead tail still holds it: after an add the views agree just when the new time is not beyond it |
| `StaleRuns.StaleRunIsSoundWhenAllLand` | opencog/spacetime/TemporalTable.cc:83-741 | If memory always does: over every run the views agree throughout just when every time added is not beyond a dead tail |
| `StaleRuns.StrandedForGood` | opencog/spacetime/TemporalTable.cc:698-727 | If memory always does and addresses are not used again: neither add nor remove puts a dead tail right |
| `StaleRuns.EveryAddLands` | opencog/spacetime/TemporalTable.cc:710-727 | If memory does: no single time added is lost just when every dead tail is the very last interval; the add reads the dead entry all the same |
| `StaleRuns.RemovalForAllStrands` | opencog/spacetime/TemporalTable.cc:502-513 | A failing family: two times for a handle, the later one removed for all handles; the next add for the handle reads a dead entry, and in stale memory a later time gets into the hash but not on the list |
| `StaleRuns.PreviousRemovalStrands` | opencog/spacetime/TemporalTable.cc:437-453 | The other one: a time removed for its handle as the last to start before another; the same follows |
| `StaleRuns.LoseTime` | opencog/spacetime/TemporalTable.cc:502-513 | The first loss on the table itself |
| `StaleRuns.LoseTimeByPrevious` | opencog/spacetime/TemporalTable.cc:437-453 | The second loss on the table itself |
| `Intersections.Largest` | opencog/spacetime/TemporalEntry.cc:293-310 | The largest of the next elements and whether they differ; no element is read past the end of an array |
| `Intersections.Reposition` | opencog/spacetime/TemporalEntry.cc:313-325 | Moving the cursors up to the largest takes nothing the arrays have in common, and at least one cursor moves |
| `Intersections.NextMatch` | opencog/spacetime/TemporalEntry.cc:288-334 | The least element all arrays still have in common, or -1 when there is none; one copy of it is consumed everywhere; the number of unread elements bounds all loops |
| `Intersections.Intersection` | opencog/spacetime/TemporalEntry.cc:336-361 | For any number of sorted arrays, duplicates allowed: every element as often as all arrays have it, in order |
| `Intersections.WithoutDuplicates` | opencog/spacetime/TemporalEntry.cc:336-361 | For arrays without duplicates that is the intersection of sets, each element once |
| `ListIntersections.OrdersTimes` | opencog/spacetime/TemporalEntry.cc:141-155 | compare on times tells any two apart and orders them totally |
| `ListIntersections.OrdersPairs` | opencog/spacetime/HandleTemporalPairEntry.cc:143-151 | compare on pairs tells any two apart and orders them totally |
| `ListIntersections.PairsGoByHandle` | opencog/spacetime/HandleTemporalPairEntry.cc:143-151 | That order goes by the handles, for one handle by the times |
| `ListIntersections.IntersectionOfLists` | opencog/spacetime/TemporalEntry.cc:225-286 | From linked lists to a new linked list: exactly the times on all of them; empty for no lists or an empty one |
| `ListIntersections.IntersectionOfPairs` | opencog/spacetime/HandleTemporalPairEntry.cc:268-335 | The same for arrays of pairs |
| `JsonEscapes.AddEscChar` | lib/json_spirit/json_spirit_writer_template.h:49-64 | Seven characters have an escape of their own |
| `JsonEscapes.AddEscChars` | lib/json_spirit/json_spirit_writer_template.h:66-102 | The loop writes the escapes one after the other; by default a text of printable characters without an escape of their own goes as it is, and any other such character by its number |
| `JsonEscapes.EscapeOfChar` | lib/json_spirit/json_spirit_writer_template.h:23-102 | A character goes as it is just when it has no escape of its own and is printable (or raw_utf8 is set); otherwise what is written is its escape of two characters, or its number in four hexadecimal digits, in printable ASCII |
| `JsonEscapes.EscapesAppend` | lib/json_spirit/json_spirit_writer_template.h:66-102 | A text goes character by character |
| `JsonEscapes.EscapedByOption` | lib/json_spirit/json_spirit_writer_template.h:82-99 | With always_escape_nonascii a character goes unescaped just when raw_utf8 is set as well and it has no escape of its own |
| `JsonEscapes.AsciiIsEscapedToo` | lib/json_spirit/json_spirit_writer_template.h:82-99 | So printable ASCII is left alone, as the comment on the option says, just when raw_utf8 is set as well |
| `JsonEscapes.SubstituteEscChars` | lib/json_spirit/json_spirit_reader_template.h:126-160 | The loop with its two cursors computes the specification of reading, lone backslashes and short escapes included |
| `JsonEscapes.EscapesAreRead` | lib/json_spirit/json_spirit_reader_template.h:126-160 | Reading the escapes of any written 8-bit string gives the string back |
| `JsonEscapes.EscapesAreLexed` | lib/json_spirit/json_spirit_reader_template.h:490-500 | No written string has an unescaped quote or a dangling backslash: the lexer takes all of it and goes on behind it |
| `JsonEscapes.QuoteIsRead` | lib/json_spirit/json_spirit_reader_template.h:162-174 | A written string ends at its own closing quote and is read back |
| `JsonActions.AddAt` | lib/json_spirit/json_spirit_reader_template.h:333-349 | Growing the container a pointer points to: the pointer stays valid, and a pointer to the new item is valid |
| `JsonActions.HeldPointersStay` | lib/json_spirit/json_spirit_reader_template.h:333-349 | While a container grows, every pointer up to it keeps the positions of its item, and no vector on the way grows: none of the items pointed to is moved |
| `JsonActions.Opened` | lib/json_spirit/json_spirit_reader_template.h:306-321 | After the start of a compound the machine is ready: the stack has the way to the current container, its height one less than the nesting |
| `JsonActions.AddedInside` | lib/json_spirit/json_spirit_reader_template.h:306-349 | An item added while a container is open is an item of that container, and nothing else changes |
| `JsonActions.ClosedIsAdded` | lib/json_spirit/json_spirit_reader_template.h:323-331 | Ending a compound leaves the machine as if the whole container had been added at once |
| `JsonActions.NameIsTaken` | lib/json_spirit/json_spirit_reader_template.h:244-249 | Whatever name a nested object left behind, the next member gets its own |
| `JsonActions.FillsElement` | lib/json_spirit/json_spirit_reader_template.h:333-349 | The actions of one more element complete an array by that element |
| `JsonActions.FillsMember` | lib/json_spirit/json_spirit_reader_template.h:244-349 | The actions of a name and a value complete an object by that member |
| `JsonActions.FilledBuilds` | lib/json_spirit/json_spirit_reader_template.h:306-331 | Begin, the actions of the items and end build the whole container from wherever they start |
| `JsonActions.SemanticActions.Call` | lib/json_spirit/json_spirit_reader_template.h:216-290 | The methods, on value_, current_p_, stack_ and name_, do what the machine is specified to do |
| `JsonReader.ReadValue` | lib/json_spirit/json_spirit_reader_template.h:450-506 | The productions consume text on every match, so reading ends |
| `JsonTokens.WhiteSpace` | lib/json_spirit/json_spirit_reader_template.h:567 | The white-space characters are the six of the C locale |
| `JsonTokens.BlanksAreSkipped` | lib/json_spirit/json_spirit_reader_template.h:564-569 | Any sequence of white-space characters and complete comments is skipped, and reading behind it is as without it |
| `JsonTokens.OnlyBlanksAreSkipped` | lib/json_spirit/json_spirit_reader_template.h:564-569 | Nothing else is skipped in front of what is read |
| `JsonTokens.NumeralIsRead` | lib/json_spirit/json_spirit_reader_template.h:502-506 | Numerals, with a sign, leading or trailing point and exponent or without, are read as a whole up to text that does not go on with them: reals by their text, integers by their value |
| `JsonTokens.NumberIsNumeral` | lib/json_spirit/json_spirit_reader_template.h:502-506 | Whatever number is read is such a numeral, and the text behind does not go on with it |
| `JsonTokens.StringIsRead` | lib/json_spirit/json_spirit_reader_template.h:490-500 | A string is read up to the first quote that is not behind a backslash |
| `JsonTokens.StringIsBody` | lib/json_spirit/json_spirit_reader_template.h:490-500 | Whatever string is read has no other quote and no dangling backslash |
| `JsonTokens.PiecesAreRead` | lib/json_spirit/json_spirit_reader_template.h:56-160 | Every string of characters and escapes is read as the characters they stand for: the eight short ones, and hexadecimal ones with digits in either case |
| `JsonTokens.OtherEscapes` | lib/json_spirit/json_spirit_reader_template.h:88-160 | Unknown escapes, and hexadecimal ones cut off by the end of the string, stand for nothing |
| `JsonParsing.BehindBlanks` | lib/json_spirit/json_spirit_reader_template.h:564-569 | Values, pairs and the rest of arrays and objects are read alike behind any blanks |
| `JsonParsing.TreeIsRead` | lib/json_spirit/json_spirit_reader_template.h:450-506 | The text of any tree (brackets, commas, colons, with blanks and comments anywhere between the tokens) is read as its actions, depth first, and nothing behind it is |
| `JsonParsing.ReadIsTree` | lib/json_spirit/json_spirit_reader_template.h:450-506 | Conversely, whatever is read is blanks and the text of a tree, and the actions are those of the tree |
| `JsonParsing.ItemsAreRead` | lib/json_spirit/json_spirit_reader_template.h:486-488 | Elements with commas in front of them are read one after the other, whatever follows |
| `JsonParsing.ArrayGoesOn` | lib/json_spirit/json_spirit_reader_template.h:480-488 | Without a comma between two elements, or with another closing bracket or none, an array is an error |
| `JsonParsing.EmptyArrayGoesOn` | lib/json_spirit/json_spirit_reader_template.h:480-488 | So is an empty array with another closing bracket or none |
| `JsonParsing.CommaInVain` | lib/json_spirit/json_spirit_reader_template.h:480-488 | So is an array with a comma and no value behind it |
| `JsonParsing.ObjectGoesOn` | lib/json_spirit/json_spirit_reader_template.h:464-472 | Without a comma between two members, or with another closing bracket or none, an object is an error |
| `JsonParsing.EmptyObjectGoesOn` | lib/json_spirit/json_spirit_reader_template.h:464-472 | So is an empty object with another closing bracket or none |
| `JsonParsing.CommaInVainInObject` | lib/json_spirit/json_spirit_reader_template.h:464-472 | So is an object with a comma and no name behind it |
| `JsonParsing.PairThrows` | lib/json_spirit/json_spirit_reader_template.h:474-478 | A name without a colon, or without a value behind the colon, is an error, and so is one with an error in its value |
| `JsonParsing.ThrowsInArray` | lib/json_spirit/json_spirit_reader_template.h:480-488 | An error in any element is an error of the array |
| `JsonParsing.ThrowsInObject` | lib/json_spirit/json_spirit_reader_template.h:464-472 | An error in any member is an error of the object |
| `JsonRoundTrip.EventsBuild` | lib/json_spirit/json_spirit_reader_template.h:206-357 | The depth-first actions of any value, started before the first action or inside any container, rebuild exactly that value |
| `JsonRoundTrip.TreeBuilds` | lib/json_spirit/json_spirit_reader_template.h:206-357 | The actions of any tree, started before the first action or inside any container, build exactly its value |
| `JsonRoundTrip.ReadBuilds` | lib/json_spirit/json_spirit_reader_template.h:450-506 | For every text that matches: no assertion of the machine fails, its stack does not underflow, and the actions build a value |
| `JsonTexts.OutputIsTree` | lib/json_spirit/json_spirit_writer_template.h:153-294 | What is written is a tree laid out as the options say: each item on a line of its own, four spaces deeper for each level, but for arrays on a single line; a space on both sides of colons; its value is the value written, integers by their number |
| `JsonTexts.CompactIsBare` | lib/json_spirit/json_spirit_writer_template.h:276-294 | Compact text has no blanks between the tokens |
| `JsonTexts.NumberIsRead` | lib/json_spirit/json_spirit_reader_template.h:502-506 | A printed 64-bit number is read as that number, up to the text behind it, just when that text does not extend it |
| `JsonTexts.ValueIsRead` | lib/json_spirit/json_spirit_reader_template.h:450-506 | The text of a value without reals, at any indentation and under all options, is read as its depth-first actions and nothing behind it |
| `JsonSpirit.Generator.OutputValue` | lib/json_spirit/json_spirit_writer_template.h:153-166 | What the generator appends to its stream, with the indentation level restored |
| `JsonSpirit.Generator.OutputArray` | lib/json_spirit/json_spirit_writer_template.h:234-253 | Arrays, on a single line when they may be |
| `JsonSpirit.Generator.OutputObject` | lib/json_spirit/json_spirit_writer_template.h:255-274 | Objects: brackets, commas between the items only, line ends and indentation |
| `JsonSpirit.WriteString` | lib/json_spirit/json_spirit_writer_template.h:311-332 | The text of a value, in the layout the options ask for; by default a string of printable characters without an escape of their own stands between quotes as it is |
| `JsonSpirit.ReadRange` | lib/json_spirit/json_spirit_reader_template.h:559-600 | Reading succeeds just when the text starts with blanks and the text of a tree; the value is that of the tree, which the actions build, and the position is behind it and the blanks that follow |
| `JsonSpirit.StartIsRead` | lib/json_spirit/json_spirit_reader_template.h:559-578 | A text that starts with blanks and the text of a tree is read, means the value of the tree, and is left behind the blanks that follow |
| `JsonSpirit.RoundTrip` | lib/json_spirit/json_spirit_reader_template.h:559-600 | Reading what was written, whatever follows, gives the value back (integers by their number), means nothing else, and stops where the text of the value ends |
| `JsonSpirit.NumbersAreExact` | lib/json_spirit/json_spirit_reader_template.h:502-506 | For a number at the top this holds just when the text behind does not extend the number |
| `PathSmoothing.Level.SmoothTriangulate` | opencog/spatial/HPASearch.cc:516-557 | For any visibility: a strictly increasing choice of points with the same ends; neighbours were neighbours in the path or a line between them was free; each point kept is the one before the first point hidden from the first position, since the last one kept, from which any is hidden; the loop ends |
| `PathSmoothing.PointsAreKept` | opencog/spatial/HPASearch.cc:523-551 | The new path has the points at the positions kept, in order |
| `PathSmoothing.KeepBefore` | opencog/spatial/HPASearch.cc:539-544 | A collision makes the point before it the next one kept |
| `GridMaps.SnapOfUnsnap` | opencog/spatial/LocalSpaceMap2D.cc:1025-1039 | The center of every cell of the grid snaps back to that cell |
| `GridMaps.SnapIsCell` | opencog/spatial/LocalSpaceMap2D.cc:1025-1033 | Snapping gives the one cell a point is in, by the borders of the cells; at or beyond a border of the map, the cell at that border |
| `GridMaps.UnsnapIsCenter` | opencog/spatial/LocalSpaceMap2D.cc:1035-1039 | Unsnapping gives the point half way between the borders of a cell, both ways |
| `GridMaps.FreeCells` | opencog/spatial/LocalSpaceMap2D.cc:627-652 | A cell is legal just when it is on the grid and no object is registered in it |
| `GridMaps.RingsAreSquares` | opencog/spatial/LocalSpaceMap2D.cc:394-456 | Rings are squares of cells around the start cell |
| `GridMaps.DistancesAreStraight` | opencog/spatial/LocalSpaceMap2D.cc:405-456 | Distances on a ring compare as straight lines do |
| `GridMaps.SearchRing` | opencog/spatial/LocalSpaceMap2D.cc:394-456 | The four border scans visit exactly the cells of one ring that are on the grid, without wrap-around, and keep the closest free one |
| `GridMaps.RingIsNearest` | opencog/spatial/LocalSpaceMap2D.cc:388-463 | The best of the first ring with a free cell is nearest by rings, and closest to the point on its ring |
| `GridMaps.GetNearestFreePoint` | opencog/spatial/LocalSpaceMap2D.cc:383-464 | The point itself when the cell it is in is free; else the center of a free cell on the nearest ring, closest to the point there; the exception just when no cell is free |
| `SearchNodes.AStarSearch.GetSuccessors` | opencog/spatial/LSMap2DSearchNode.cc:120-182 | The eight moves in their order, without illegal ones and the parent |
| `SearchNodes.SuccessorsAreNeighbours` | opencog/spatial/LSMap2DSearchNode.cc:136-179 | On the grid these are exactly the legal king moves but the parent, also in row and column 0 where x - 1 wraps around |
| `SearchNodes.SuccessorsAreDistinct` | opencog/spatial/LSMap2DSearchNode.cc:120-182 | No node is listed twice |
| `SearchNodes.NoParentIsOffGrid` | opencog/spatial/LSMap2DSearchNode.cc:124-132 | The marker for "no parent" is off the grid unless both dimensions are the largest there are |
| `SearchNodes.NoParentLosesOrigin` | opencog/spatial/LSMap2DSearchNode.cc:124-179 | Then, and only then, a legal neighbour is lost: the cell at the origin |
| `SearchNodes.CostIsDistance` | opencog/spatial/LSMap2DSearchNode.cc:184-195 | A move costs the distance between the two cells, its square short by at most 1e-7 |
| `SearchNodes.DiagonalIsConsistent` | opencog/spatial/LSMap2DSearchNode.cc:89-97 | The diagonal estimate is at most the cost of a move plus the estimate behind it |
| `SearchNodes.DiagonalIsAdmissible` | opencog/spatial/LSMap2DSearchNode.cc:89-195 | It never exceeds the cost of any legal path to the goal |
| `SearchNodes.DiagonalIsExact` | opencog/spatial/LSMap2DSearchNode.cc:89-195 | On a grid without obstacles some path costs exactly that |
| `SearchNodes.ManhattanIsConsistent` | opencog/spatial/LSMap2DSearchNode.cc:79-87 | The default estimate is consistent for a move just when the move is not nearer to the goal both ways |
| `SearchNodes.ManhattanIsAdmissible` | opencog/spatial/LSMap2DSearchNode.cc:79-87 | On a grid without obstacles it never exceeds the cost of a path to the goal just when node and goal are in line |
| `Diffusion.ProbabilityVectorIncident` | opencog/attention/ImportanceDiffusionBase.cc:326-341 | Equal shares, one per atom even if it is listed twice; non-negative and at most 1 in all |
| `Diffusion.ProbabilityVectorHebbianAdjacent` | opencog/attention/ImportanceDiffusionBase.cc:350-387 | Shares discounted by strength times confidence; non-negative and at most 1 in all |
| `Diffusion.CombineIncidentAdjacentVectors` | opencog/attention/ImportanceDiffusionBase.cc:400-473 | Hebbian shares first, incident atoms share what they left; an atom in both keeps its hebbian share; non-negative and at most 1 in all |
| `Diffusion.ShareOf` | opencog/attention/ImportanceDiffusionBase.cc:326-473 | The share of every atom: of a hebbian neighbour the allowed percentage, divided by the number of neighbours twice, times strength times confidence; of the other incident atoms equal parts of the rest; nobody else has one |
| `Diffusion.HebbianPartTotal` | opencog/attention/ImportanceDiffusionBase.cc:400-473 | All hebbian neighbours together have the allowed percentage divided by their number, as far as their vector goes |
| `Diffusion.SharesAddUp` | opencog/attention/ImportanceDiffusionBase.cc:326-473 | What the shares add up to: each incident atom that is listed twice or is a hebbian neighbour loses a part of the rest |
| `Diffusion.SharesAreEverything` | opencog/attention/ImportanceDiffusionBase.cc:463-470 | The shares add up to 1 just when the hebbian neighbours have it all, or there are incident atoms, none twice and none of them a hebbian neighbour |
| `Diffusion.DiffusionAmount` | opencog/attention/AFImportanceDiffusionAgent.cc:83-87 | The integer nearest to the spread percentage of what the atom has; not negative and at most what it has |
| `Diffusion.ImportanceDiffusion.PushEvents` | opencog/attention/ImportanceDiffusionBase.cc:175-193 | One event per target, of its share cut off to a whole number; together at most the amount, and short of all the shares by at most one unit for each target |
| `Diffusion.ImportanceDiffusion.DiffuseAtom` | opencog/attention/ImportanceDiffusionBase.cc:84-201 | What one atom will give to whom, and that it can pay it |
| `Diffusion.ImportanceDiffusion.TradeSTI` | opencog/attention/ImportanceDiffusionBase.cc:206-210 | A trade moves the amount and keeps the total, also when source and target are the same |
| `Diffusion.ImportanceDiffusion.ProcessDiffusionStack` | opencog/attention/ImportanceDiffusionBase.cc:503-528 | Draining the stack pays every event once, keeps the total, and no atom is in debt at any time |
| `Diffusion.ImportanceDiffusion.SpreadImportance` | opencog/attention/AFImportanceDiffusionAgent.cc:65-76 | A whole round: every source loses the spread percentage of what it had, as far as its shares go, up to rounding and a unit for each target, and nobody else loses anything; every source gives its shares of what it had before the round, the total is kept, every atom stays non-negative, and the stack is empty |
| `Diffusion.OrderMakesNoDifference` | opencog/attention/ImportanceDiffusionBase.cc:503-528 | The order in which the events are paid makes no difference |

## Left out

- Memory freeing, destructors, clone and toString: the model keeps the set of dead entries of the handle lists instead, see stale tails above.
- Overflow of the 32-bit counts of the table and its index: the number of entries is unbounded.
- The hash buckets and locks of the maps, and the iterators over them: they are plain maps.
- add, remove, contains and concatenation of HandleTemporalPairEntry: the list code of TemporalEntry again, with another comparison.
- The sorting of the arrays before an intersection: lists built by add are sorted already.
- TimeServer, SpaceServer, OpenPsi, and the other attention agents: mostly calls into code that is not here.
- JSON reals as numbers: whole ones print without a point and read back as integers; overflow of a decimal exponent is not modelled either.
- JSON objects kept in a std::map, wide characters, streams, positions in error messages, and the value left behind by a read that fails.
- getNearestFree3DPoint, object geometry, clusters and the abstract graph of HPASearch, and stlastar.h.
- Rounding of floating-point numbers throughout.
- Waiting, randomness and logging of the diffusion agents, and the choice of atoms in the attentional focus.
- JsonReader.ReadValue: its own contract says only that text is consumed; what is read is stated by JsonParsing.TreeIsRead, JsonParsing.ReadIsTree and the lemmas on errors beside them.
- TemporalTables.TemporalTable.Remove: requires that the views agree, which they do until a dead entry is read (TableRuns.UntilDeadRead).
- HandleLists.HandleToEntries.Add: for a dead tail it tells what happens if the memory still holds the entry; the original may do anything.
- Octal escapes, and hexadecimal ones above 7F, in the lexer of strings: the parsing library decides which match; the writer writes none.
