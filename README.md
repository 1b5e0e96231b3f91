# permissive-search, modelled in Dafny

permissive-search is an incremental prefix search that forgives typing slips.
Keys are stored in a character trie (`SearchTree`), where each node keeps its
children sorted by character. A `Searcher` holds the characters typed so far
and a *frontier*: the trie nodes that the input can still lead to. Each new
character replaces the frontier with the children reached by that character
or by one of its *lookalikes*. When no such child exists, the frontier is kept
as it was (the sticky rule). `pop` drops the last character and replays the
rest from the root.

The `Searcher` takes its lookalike policy as a parameter. In the source this
is `lookalikes::all`, which is not part of this model. The source holds two
QWERTY misclick tables. The library's table in `src/lookalikes.rs` has one row
for each character from `' '` to `'}'`. A row holds the shift-toggled
character of the same key, then the key's on-grid neighbours on the unshifted
layer and on the shifted layer. `src/main.rs` has a three-row table of
neighbours, sorted by key and searched by binary search, and its own copy of
the trie.

The project has ten modules, one per file:

- `Wrappers` (`wrappers.dfy`): `Option`.
- `Keyed` (`keyed.dfy`): association lists keyed by `char`. Strict order, a
  reference lookup, the binary search both sources use, and a sort by key.
- `Enumeration` (`enumeration.dfy`): the fail-fast walk of
  `Iterator::try_for_each`. The callback is a function of the indices it was
  handed before and the current index, so any deterministic `FnMut` fits.
- `SearchTree` (`search_tree.dfy`): the trie of `src/lib.rs`. It covers
  `get`, `push`, `from_iter`, and `for_each_base` / `for_each`.
- `Searching` (`searcher.dfy`): the `Searcher` of `src/lib.rs`, a class
  whose fields are updated in place. Its invariant is
  `considered == Replay([root], input, lookalikes)`.
- `Grid` (`grid.dfy`): keyboard grids, the eight neighbour slots of a key,
  NUL padding, and the in-place method that writes a key's neighbours into a
  row of a table.
- `Compaction` (`compaction.dfy`): the in-place loop that moves NULs to the
  end of a table row. It is proved to be a stable partition.
- `Lookalikes` (`lookalikes.dfy`): `find_char`, the construction of the
  94-row `MISCLICKS` table over an `array2<char>`, and the `qwerty_misclicks`
  lookup of `src/lookalikes.rs`.
- `TerminalSearch` (`terminal_search.dfy`): from `src/main.rs`, the
  three-row table, `shifted`, the binary-search lookup, and the copy of the
  trie.
- `SearchExample` (`search_example.dfy`): a worked example. It uses the keys
  `cat`, `car` and `cats`, and shows the pre-order of the reported candidates
  and the sticky rule.

Every construction loop in the source is a method over an `array2<char>`.
Each is proved against a function that states the finished table, and the
lemmas about the lookup are proved against a reference definition that does
not mention the table.

## Model

| member | source | states |
|---|---|---|
| Keyed.Assoc | src/lib.rs:39-42 | Reference lookup: it answers `Some` exactly when some entry has key `c`, and the value it returns is paired with `c` in the list. |
| Keyed.BinarySearch | src/lib.rs:39-40 | `Found(i)` points at an entry with key `c`. On a strictly sorted list it finds the key exactly when the key is present. Otherwise `Missing(i)` is the insertion point: keys before `i` are smaller than `c` and keys from `i` on are larger. |
| Keyed.AssocAt | src/lib.rs:39-42 | On a strictly sorted list, the entry at a found index is the one the reference lookup returns for its key. |
| Keyed.InsertKeepsOrder | src/lib.rs:53-58 | Inserting at the insertion point keeps the keys strictly ascending. |
| Keyed.AssocInsertOther | src/lib.rs:55-57 | Inserting an entry under key `k` changes the lookup of no other key. |
| Keyed.AssocUpdateOther | src/lib.rs:61 | Replacing the value at one index changes the lookup of no other key. |
| Keyed.InsertByKeyOrdered | src/main.rs:88 | Inserting a key that is not yet present into a strictly sorted list keeps it strictly sorted. |
| Keyed.SortByKey | src/main.rs:88 | The sort is a permutation of its input (equal multisets). When the keys are distinct, it is strictly sorted. |
| Keyed.SortedFinds | src/main.rs:88-94 | In the sort of a list with distinct keys, binary search finds every key that the list has, and returns that key's own entry. |
| Keyed.SortedMisses | src/main.rs:93-94 | In the sort of a list with distinct keys, binary search misses every key that the list lacks. |
| Keyed.SortedMember | src/main.rs:88 | Every entry of the sort comes from the input. |
| Enumeration.TryEachStopsAtFirstFailure | src/lib.rs:64-69 | Either every index passes and all are handed over in order, or the walk stops at the first failing index with that index's error. Every earlier index passed, and nothing after it is handed over. |
| Enumeration.TryEachAppend | src/lib.rs:66-68 | Walking `a + b` is walking `a` and then, unless it stopped, walking `b`. |
| SearchTree.Push | src/lib.rs:46-62 | `push` as a function from the old tree to the new one. It records the index at the key's node only: a non-empty key leaves the root's `end` alone, and the root gains at most one child. Its meaning is proved in PushWellFormed and LookupAfterPush. |
| SearchTree.Find | src/lib.rs:34-43 | The node reached by following `get` along every character of a key, or `None`. Every node reached from a well-formed tree is well formed. |
| SearchTree.Lookup | src/lib.rs:17-20 | The `end` index of the node a key reaches. LookupAfterPush, FromPairsLookup and LookupInTerminals state what it returns. |
| SearchTree.Get | src/lib.rs:34-43 | A node without children, or whose last child's character is below `c`, answers `None`. A `Some` answer is a child stored under `c`. On strictly ordered children, the answer equals the reference lookup. |
| SearchTree.PushChildren | src/lib.rs:46-62 | On a well-formed node, `push` keeps the children strictly ordered and keeps `end`. The child under the key's first character becomes the pushed child, which is the existing one or a fresh empty node. No other child changes. |
| SearchTree.UpdatedChildren | src/lib.rs:53-54 | Replacing a found child keeps the order and changes only that character's lookup. |
| SearchTree.InsertedChildren | src/lib.rs:55-58 | Inserting at the insertion point keeps the order, makes the new child reachable, and changes no other character's lookup. |
| SearchTree.ChildWellFormed | src/lib.rs:61 | The child `push` descends into is well formed. |
| SearchTree.PushWellFormed | src/lib.rs:53-59 | `push` keeps every node's children strictly ascending, all the way down. |
| SearchTree.LookupAfterPush | src/lib.rs:46-62 | After `push(key, i)` the key looks up to `Some(i)` (an empty key sets the root's `end`). Every other key keeps its old lookup, so the last write wins. |
| SearchTree.LookupAfterPushBelow | src/lib.rs:53-61 | The same property, for a probe that leaves the root through the child being pushed into. |
| SearchTree.LookupThroughPush | src/lib.rs:61 | In the pushed tree, looking up a probe that starts with the key's first character continues in the pushed child. |
| SearchTree.LookupThroughChild | src/lib.rs:34-43 | Looking up a non-empty probe continues in the child under its first character. A missing child acts as the empty node. |
| SearchTree.FromPairs | src/lib.rs:22-30 | `from_iter`: the tree that pushing the pairs in order produces. It is always well formed. FromPairsLookup states what it maps each key to. |
| SearchTree.LastIndexOf | src/lib.rs:22-30 | `None` exactly when the key never occurs. Otherwise the answer is the index paired with the key's last occurrence. |
| SearchTree.FromPairsLookup | src/lib.rs:22-30 | The tree built from pairs is well formed, and every key looks up to the index of its last occurrence, or `None`. |
| SearchTree.FromIter | src/lib.rs:22-30 | The loop of pushes builds `FromPairs(pairs)`. The result is well formed and maps every key to the index of its last occurrence. |
| SearchTree.Terminals | src/lib.rs:64-69 | Reference definition: the indices under a node in pre-order, with its own `end` first, then each child in ascending character order. |
| SearchTree.ForEachBase | src/lib.rs:64-69 | `for_each_base`: the walk that hands over the node's `end`, then walks each child, stopping at the first error. ForEachBaseEnumerates proves it equal to a fail-fast walk over `Terminals`. |
| SearchTree.ForEachChild | src/lib.rs:66-68 | The `try_for_each` over the children from the `k`-th on. ForEachChildEnumerates states its result. |
| SearchTree.ForEachBaseEnumerates | src/lib.rs:64-69 | `for_each_base` is exactly a fail-fast walk over the node's indices in pre-order: its own `end` first, then each child in ascending character order. |
| SearchTree.ForEachChildEnumerates | src/lib.rs:66-68 | The walk over the children from the `k`-th on is a fail-fast walk over their concatenated indices. |
| SearchTree.ForEach | src/lib.rs:75-77 | `for_each` hands over every index of the tree in pre-order and stops at the first error. |
| SearchTree.LookupInTerminals | src/lib.rs:64-77 | Every index stored in the trie is among those `for_each` enumerates. |
| SearchTree.FindTerminalsWithin | src/lib.rs:64-77 | Every index enumerated below a node reached by a key is also enumerated from the root. |
| Searching.Candidates | src/lib.rs:128-136 | The list `compute_considerations` collects: each frontier node's child under `c`, then each node's children under the lookalikes. CandidatesSpec states what it holds. |
| Searching.Step | src/lib.rs:123-141 | The frontier after one character: the candidates when there are any, otherwise the old frontier. StepSpec states its meaning. |
| Searching.Replay | src/lib.rs:144-153 | The frontier reached by stepping through every character of an input in order. ReplayNonEmpty, ReplayAppend and ReplaySnoc state its properties. |
| Searching.ExactMembers | src/lib.rs:131 | The first part of the candidate list holds exactly the frontier's children under `c`. |
| Searching.ViaMembers | src/lib.rs:134 | One node's part of the lookalike list holds exactly its children under the lookalikes. |
| Searching.LookalikeMembers | src/lib.rs:132-134 | The second part holds exactly the frontier's children under some lookalike of `c`. |
| Searching.CandidatesSpec | src/lib.rs:128-136 | The candidate list holds exactly the children of frontier nodes under `c` or one of its lookalikes. Its length is at most the frontier's size times one plus the number of lookalikes (duplicates are kept). |
| Searching.StepSpec | src/lib.rs:138-140 | One step never empties a non-empty frontier. When some candidate exists, the new frontier holds exactly the candidates. Otherwise the frontier is unchanged (the sticky rule). |
| Searching.ReplayNonEmpty | src/lib.rs:99-106 | A frontier that starts non-empty, such as `[root]`, is never emptied by replaying input. |
| Searching.ReplayAppend | src/lib.rs:89-95 | Replaying `s + t` is replaying `s` and then `t`. |
| Searching.ReplaySnoc | src/lib.rs:117-120 | Replaying one more character is one more step. |
| Searching.ReplayPrefix | src/lib.rs:150-152 | Replaying `k + 1` characters of the input is one step after replaying `k` of them. |
| Searching.FindInFrontier | src/lib.rs:128-140 | Whatever the lookalike policy, the node an exactly typed input leads to is in the frontier. |
| Searching.FrontierTerminals | src/lib.rs:159-166 | Reference definition: the concatenation, in frontier order, of each node's pre-order indices. |
| Searching.ForEachFrontier | src/lib.rs:163-165 | The `try_for_each` over the frontier with `for_each_base`. ForEachFrontierEnumerates proves it a fail-fast walk over `FrontierTerminals`. |
| Searching.ForEachFrontierEnumerates | src/lib.rs:163-165 | Walking the frontier is a fail-fast walk over the concatenation of each node's pre-order indices, in frontier order. |
| Searching.TypedKeyIsCandidate | src/lib.rs:159-166 | Once the input spells a stored key exactly, that key's index is among the candidates. |
| Searching.Searcher.constructor | src/lib.rs:99-106 | A new searcher has empty input, the frontier `[root]` and an empty scratch buffer, and it is valid. |
| Searching.Searcher.Input | src/lib.rs:112-114 | Replaying the returned input from the root gives the current frontier. |
| Searching.Searcher.ComputeConsiderations | src/lib.rs:123-141 | The new frontier is one step from the old one. When there were candidates, the two buffers are swapped, so the scratch buffer holds the old frontier. When there were none, the scratch buffer is left cleared. |
| Searching.Searcher.Push | src/lib.rs:117-120 | The input gains `c`, the frontier takes one step, validity is kept, and the frontier is non-empty. |
| Searching.Searcher.Pop | src/lib.rs:144-153 | On empty input nothing changes. Otherwise the last character is dropped and the frontier is rebuilt as the replay of the rest, so validity is kept. |
| Searching.Searcher.Replayed | src/lib.rs:150-152 | One turn of the replay loop takes the frontier for `k` characters to the frontier for `k + 1`. |
| Searching.Searcher.Extend | src/lib.rs:89-95 | The input gains all of `chars`, and the frontier is the replay of `chars` from the old frontier. |
| Searching.Searcher.ForEachCandidate | src/lib.rs:159-166 | The candidates are a fail-fast walk over the frontier's indices. |
| Searching.PopUndoesPush | src/lib.rs:144-153 | `pop` right after `push(c)` restores both the input and the frontier. |
| SearchExample.BuiltTree | src/lib.rs:22-30 | Building from `cat` = 0, `car` = 1 and `cats` = 2 gives the trie spelled out in the module, with `car` placed before `cat` under `ca`. |
| SearchExample.TypedCa | src/lib.rs:117-166 | With no lookalikes, typing `ca` leaves the `ca` node alone in the frontier, and the candidates are reported as 1, 0, 2 (`car`, `cat`, `cats`, in pre-order). |
| SearchExample.TypedCat | src/lib.rs:117-166 | Typing `cat` leaves the `cat` node alone in the frontier, and the candidates are reported as 0, 2. |
| SearchExample.TypedCaz | src/lib.rs:138-140 | Typing `z` after `ca` reaches nothing, so the frontier of `ca` is kept (the sticky rule). |
| Grid.NonNul | src/lookalikes.rs:123 | The filtered list is no longer than its input and holds no NUL. |
| Grid.NonNulCounts | src/lookalikes.rs:123 | The filter keeps every character other than NUL exactly as often as it occurs. |
| Grid.NonNulAppend | src/lookalikes.rs:123 | The filter distributes over concatenation. |
| Grid.NonNulNuls | src/lookalikes.rs:120-123 | The all-NUL fallback row yields nothing. |
| Grid.FillRing | src/lookalikes.rs:68-99 | On a blank segment of eight slots, the eight cells become the key's ring: up-left, up, up-right, left, right, down-left, down and down-right, with NUL where the position is off the grid. No other cell changes. |
| Grid.FillAbove | src/lookalikes.rs:68-79 | Slots 0 to 2 become the row above, where it exists. Nothing else changes. |
| Grid.FillBeside | src/lookalikes.rs:80-87 | Slots 3 and 4 become the left and right neighbours, where they exist. Nothing else changes. |
| Grid.FillBelow | src/lookalikes.rs:88-99 | Slots 5 to 7 become the row below, where it exists. Nothing else changes. |
| Compaction.MovedNulsToEnd | src/lookalikes.rs:101-111 | The compacted row is as long as the original row. |
| Compaction.NonNulMoved | src/lookalikes.rs:101-111 | Compaction keeps exactly the characters other than NUL, in their order. |
| Compaction.CompactNul | src/lookalikes.rs:105-106 | A NUL slot only widens the run of NULs (`shift += 1`). |
| Compaction.CompactKeep | src/lookalikes.rs:107-108 | Swapping a character with the first NUL of the run (`swap(i, i - shift)`) moves the run one place to the right. |
| Compaction.SwapCells | src/lookalikes.rs:108 | Exactly two cells of the segment are exchanged. Nothing else changes. |
| Compaction.CompactSlot | src/lookalikes.rs:104-111 | One turn of the loop keeps the loop invariant for the next slot. |
| Compaction.MoveNulsToEnd | src/lookalikes.rs:101-111 | The segment ends up as its characters other than NUL, in their original order, followed by NULs (a stable partition). No cell outside the segment changes. |
| Lookalikes.LayoutsPrintable | src/lookalikes.rs:26-37 | Every key of both layouts lies between `'!'` and `'z'`. |
| Lookalikes.FirstCellSpec | src/lookalikes.rs:2-19 | The answer is `None` exactly when no cell holds `ch`. Otherwise it is an in-bounds cell holding `ch`, and no earlier cell in row-major order holds `ch`. |
| Lookalikes.FindChar | src/lookalikes.rs:2-19 | The nested loops return the first cell in row-major order that holds `ch`, or `None`. |
| Lookalikes.Locate | src/lookalikes.rs:58-64 | A located character is on that key of one layer, with the toggled character on the same key of the other. The answer is `None` exactly when neither layout has `ch`. |
| Lookalikes.LocateKey | src/lookalikes.rs:58-64 | The unshifted layout is searched first, then the shifted one, which yields `Locate(ch)`. |
| Lookalikes.OnKeyPrintable | src/lookalikes.rs:51-65 | Only characters from `'!'` to `'z'` are on a key, so `'~'` (index 94) reaches `continue` before any row is written. |
| Lookalikes.Table | src/lookalikes.rs:45-50 | The table has 94 rows of 17 characters. |
| Lookalikes.FillRings | src/lookalikes.rs:68-99 | Slots 1 to 8 become the unshifted ring and slots 9 to 16 the shifted one. Nothing else changes. |
| Lookalikes.WriteEntry | src/lookalikes.rs:65-111 | A blank row becomes the toggled character followed by the compacted rings. No other row changes. |
| Lookalikes.SkipRow | src/lookalikes.rs:62-63 | A byte on no key leaves its row all NUL, which is what the table wants there. |
| Lookalikes.FilledRow | src/lookalikes.rs:65-111 | Writing a located byte's row moves the filled part of the table on by one row. |
| Lookalikes.BuildMisclicks | src/lookalikes.rs:45-115 | The construction loop leaves every cell equal to `Table()`: each character's entry, or NULs. |
| Lookalikes.EntryMisclicks | src/lookalikes.rs:65-111 | Once its NULs are dropped, a table row is the reference list `Misclicks(ch)`. |
| Lookalikes.RowOf | src/lookalikes.rs:117-122 | The row the lookup reads, always 17 characters. It is the table row of `ch` when `ch - ' '` is in range, and the all-NUL fallback otherwise. |
| Lookalikes.QwertyMisclicks | src/lookalikes.rs:117-123 | `qwerty_misclicks`: the characters of that row other than NUL. QwertyMisclicksMeaning and QwertyMisclicksShape state what it returns. |
| Lookalikes.Entry | src/lookalikes.rs:58-111 | The 17-character row the construction writes for `ch`: all NUL for a character on no key, otherwise `KeyEntry`. |
| Lookalikes.KeyEntry | src/lookalikes.rs:65-111 | The 17-character row of a located key: the toggled character, then both rings compacted. |
| Lookalikes.Misclicks | src/lookalikes.rs:58-99 | Reference definition, with no table: nothing for a character on no key; otherwise the toggled key, then the on-grid unshifted neighbours and the on-grid shifted neighbours in ring order. |
| Lookalikes.QwertyMisclicksMeaning | src/lookalikes.rs:117-123 | The lookup yields exactly `Misclicks(ch)`: the toggled key, then the unshifted neighbours, then the shifted ones. A character below `' '` or beyond the table yields nothing. |
| Lookalikes.QwertyMisclicksShape | src/lookalikes.rs:43 | The lookup yields at most 17 characters and never a NUL. It is empty exactly when `ch` is on no key, and otherwise starts with the toggled key. |
| Lookalikes.MisclicksOfA | src/lookalikes.rs:21-24 | `a` yields `A q w s z x Q W S Z X`. |
| TerminalSearch.ToAsciiUppercase | src/main.rs:30 | Lower-case ASCII letters go up by 32. Everything else is unchanged. |
| TerminalSearch.ToAsciiLowercase | src/main.rs:93 | Upper-case ASCII letters go down by 32. Everything else is unchanged, and the result is never upper case. |
| TerminalSearch.Shifted | src/main.rs:28-40 | `shifted` never maps a character other than NUL to NUL. |
| TerminalSearch.ShiftAll | src/main.rs:97 | Every character goes through `shifted`, position by position. |
| TerminalSearch.ShiftedMatchesShiftedLayout | src/main.rs:28-46 | The three rows are the letter rows of the four-row layout, and `shifted` maps each key to the same key of the shifted layout. |
| TerminalSearch.Unsorted | src/main.rs:52-86 | The 30 entries before sorting. Entry `row * 10 + col` holds that key and its ring. |
| TerminalSearch.Table | src/main.rs:48-89 | `MISCLICKS`: the entries sorted by key. TableSorted states that it is a strictly sorted permutation of the entries. |
| TerminalSearch.RankOfKey | src/main.rs:42-46 | Entry `k` before sorting holds the key at rank `k`. |
| TerminalSearch.KeysDistinct | src/main.rs:42-46 | No two entries share a key. |
| TerminalSearch.TableSorted | src/main.rs:48-89 | The sorted table is a permutation of the built entries, strictly ascending by key, with 30 entries. |
| TerminalSearch.BuildEntry | src/main.rs:57-82 | Entry `row * 10 + col` becomes its key and its ring. The built prefix grows by one. |
| TerminalSearch.BuiltEntries | src/main.rs:52-86 | After the nested loops, the entries are exactly the unsorted table. |
| TerminalSearch.BuildTable | src/main.rs:48-89 | The nested loops followed by the sort produce `Table()`. |
| TerminalSearch.LookUpBounds | src/main.rs:92-97 | Over entries of at most eight slots, the lookup yields at most eight characters and never a NUL. |
| TerminalSearch.TableMissing | src/main.rs:93-94 | A character on no key has no entry. |
| TerminalSearch.TableFound | src/main.rs:88-94 | Binary search finds every key, and the entry it finds holds that key's ring. |
| TerminalSearch.QwertyMisclicks | src/main.rs:91-97 | `qwerty_misclicks`: the lookup in the sorted table. QwertyMisclicksMeaning, QwertyMisclicksBounds and UppercaseShifts state what it returns. |
| TerminalSearch.LookUp | src/main.rs:91-97 | The lookup over a given table: binary search for the lower-case form, drop NULs, shift when the input is upper case. LookUpBounds bounds it for any table of rings. |
| TerminalSearch.Neighbours | src/main.rs:42-82 | Reference definition, with no table: the on-grid neighbours, in ring order, of the key holding the lower-case form, shifted for upper-case input, and nothing for a character on no key. |
| TerminalSearch.QwertyMisclicksMeaning | src/main.rs:91-97 | The lookup yields exactly `Neighbours(ch)`: the on-grid neighbours of the lower-case form's key in ring order, shifted for upper-case input. A character on no key yields nothing. |
| TerminalSearch.TableSlots | src/main.rs:48 | Every entry of the sorted table has eight slots. |
| TerminalSearch.QwertyMisclicksBounds | src/main.rs:96 | The lookup yields at most eight characters and never a NUL. |
| TerminalSearch.UppercaseShifts | src/main.rs:91-97 | An upper-case letter yields its lower-case form's result, each character shifted. |
| TerminalSearch.OffLayoutEmpty | src/main.rs:93-94 | A character whose lower-case form is on no key yields nothing. |
| TerminalSearch.MisclicksOfLowerA | src/main.rs:42-97 | `a` yields `q w s z x`. |
| TerminalSearch.MisclicksOfUpperA | src/main.rs:91-97 | `A` yields `Q W S Z X`. |
| TerminalSearch.MisclicksOffLayout | src/main.rs:93-94 | A digit (`1`) and `:` yield nothing. |
| TerminalSearch.Get | src/main.rs:107-112 | A `Some` answer is a child stored under `c`. On strictly ordered children, the answer equals the reference lookup. |
| TerminalSearch.GetAgrees | src/main.rs:107-112 | On strictly ordered children, this `get` answers as the `get` of `src/lib.rs` does, despite having no early exit. |
| TerminalSearch.Find | src/main.rs:107-112 | The node reached by following this copy's `get` along a key. FindAgrees proves it equal to the library's walk on well-formed tries. |
| TerminalSearch.FindAgrees | src/main.rs:107-112 | On a well-formed trie, following this `get` along a key reaches the same node. |
| TerminalSearch.PushThenFind | src/main.rs:114-130 | `push` keeps the trie well formed. After `push(key, i)`, walking `get` along `key` reaches a node whose `end` is `Some(i)`. |
| TerminalSearch.ForEachBase | src/main.rs:144-152 | The `for` loop over the children returns exactly the fail-fast walk over the pre-order indices. |
| TerminalSearch.ForEach | src/main.rs:154-156 | Every index under the node is handed over in pre-order, up to the first error. |

## Left out

- The terminal program in src/main.rs:159-267 is not modelled. It covers raw mode, key events, cursor output and file reading, all of which are I/O. Its frontier update (src/main.rs:217-227) differs from the library's: it has no sticky rule, and Backspace clears the whole input. Only the library's `Searcher` is modelled.
- `SearchTree::print` (src/main.rs:132-142) is left out because it only formats output.
- `lookalikes::all` is called at src/lib.rs:128, but that function is not part of this model. The `Searcher` takes the lookalike policy as a function `char -> seq<char>`, fixed at construction.
- src/lib.rs defines no `reset`, so the model has none.
- `Searcher::root` (src/lib.rs:108-110) is the constant field `root` of `Searching.Searcher`. It has no member of its own.
- SearchTree.Push: the trie is a value, so `push` returns the new tree instead of updating nodes in place. Because each node is owned by exactly one parent, no aliasing is lost. `Vec::insert` shifting and capacity are not modelled.
- Searching.Searcher: the frontier holds trees by value rather than by reference, so node identity is not modelled. Two equal subtrees count as the same candidate. `Vec` capacity reuse is not modelled either, and the scratch buffer is described only by its contents.
- Keyed.BinarySearch: this is a plain halving search. It does not follow the standard library's probe order. On a strictly ascending list both give the same answer, which is the only case the sources use.
- Keyed.SortByKey: `const_quicksort!` from an external crate is modelled by an insertion sort. Only its result is claimed: a permutation that is strictly sorted by key.
- TerminalSearch.BuildTable: each `(char, [char; 8])` entry is stored as a nine-column row of an `array2<char>`, with column 0 holding the key. The sort is applied to the finished entries as a function.
- Lookalikes.FillRings: the source writes an unshifted slot and its shifted twin in the same branch. The model writes the unshifted ring first, then the shifted one. The final row is the same.
- Lookalikes.MisclicksOfA states the code's result for `a`. It contains the doc comment's q, w, s, x, z in ring order, plus the toggled key and the shifted ring.
- TerminalSearch.MisclicksOfLowerA, TerminalSearch.MisclicksOfUpperA and TerminalSearch.MisclicksOffLayout take the character as a parameter constrained to the literal, rather than applying the lookup to the literal directly.
- `usize` is modelled with unbounded naturals, so no overflow or wrap-around is modelled. None can occur:
  - The stored table indices stay below 100: 94 rows, 30 entries and 17 columns.
  - The lookup's subtraction (`u32::from(ch).checked_sub(b' ')`, src/lookalikes.rs:117-119) is checked and done in `u32`. It yields at most 0x10FFDF before `.get` rejects it.
  - The build counter `next_byte` is a `u8` and ends at 127, so it does not wrap.
  - The indices stored in the trie (`push(key, index)`, `end: Option<usize>`) are carried as opaque `nat` values, and no arithmetic is done on them.
- The callback of `for_each` is modelled as a function of the indices it has already seen and the current index. Side effects beyond its answers are not modelled.
