# A kanban board's card ordering and its reducer, in Dafny

The board keeps the order of every column's cards in one flat record,
`cardsOrder`. The record is a linked list: a column id maps to the column's
first card, each card maps to the card after it, and the last card maps back
to the column id (or to `null`). This project models two things:

- the ordering engine (`sortBy`, `reorderPatch`): `sortBy` walks one
  column's list, and `reorderPatch` computes the few entries that move a
  card in front of another id, or unlink it when there is no destination;
- the reducer: the board's `State`, the eleven actions and every branch of
  the reducer, including the merge of a patch into `cardsOrder` and the
  re-sort of every column after a drop.

Modules:

- `Objects` (objects.dfy) models plain JavaScript objects used as records.
  - Keys keep their enumeration order.
  - Reading an absent key gives `undefined`.
  - `Object.entries(r).find(...)` is the first match in key order.
  - The spread `{...r, ...p}` overwrites `p`'s keys and appends the new ones.
- `Util` (util.dfy) holds `sortBy` and `reorderPatch`.
  - `sortBy` is a method with its loop, proved equal to the ghost function `Ordered`.
  - `reorderPatch` is a function whose contract lists the patch key by key.
- `Chains` (chains.dfy) covers well-formed column lists and what a merged patch does to them.
  - A *chain* is a column id followed by distinct card ids, each reached by the link before it.
  - A *circular* chain is one whose last link returns to the column id.
  - A record is *well-linked* when no two keys hold the same truthy link.
  - Results: moving a card across columns or within one, unlinking a card, pushing it to the front. In each case `sortBy` then returns exactly the cards of the new list.
- `Reducer` (reducer.dfy) holds the state, the actions, and `Reduce`, the transition as a value.
- `Drafts` (draft.dfy) is the reducer as it runs on its draft.
  - Class `Draft` has one method per action.
  - Each method updates the fields in place and ends in the state `Reduce` gives.
  - `Step` is `reducer(state, action)`.
- `Board` (board.dfy) covers a *coherent* board.
  - A coherent board has every column loaded and stored as a circular chain, with no key shared between columns.
  - On such a board, drop, delete, input and load do what the user sees.
- `Invariants` (invariants.dfy) proves what holds across all actions.
  - Every action keeps the record well-linked.
  - Every action the views dispatch keeps the board coherent.
  - Two behaviours of the code as written on boards that are not circular.
- `Scenarios` (scenarios.dfy) states two of the reducer's test cases on the model.

## Model

| member | source | states |
|---|---|---|
| Objects.Get | src/reducer.ts:17 | reading a key of the record gives its stored link, and `undefined` for an absent key |
| Objects.Assign | src/util.ts:62-72 | `patch[k] = v`: `k` now reads `v`, every other key reads as before, the record stays well-formed, and an existing key keeps its place in enumeration order |
| Objects.Spread | src/reducer.ts:144-147 | `{...order, ...patch}`: every key of the patch reads its patch value, every other key reads as before |
| Objects.SpreadValid | src/reducer.ts:144-147 | spreading one well-formed object over another gives a well-formed object (each key listed once, exactly the stored keys) |
| Objects.Find | src/util.ts:61 | the key found is stored, its value is truthy and equals the target, and no earlier key in enumeration order passes that test; no key is found only when none passes it |
| Util.IndexById | src/util.ts:27 | the map built from the list holds exactly the ids of the list, each under a card of the list with that id |
| Util.IndexByIdLast | src/util.ts:27 | a card with no later card of the same id is the one the map keeps (later cards win) |
| Util.Ordered | src/util.ts:23-42 | `sortBy`'s result is no longer than `list`, every card in it is a card of `list`, and it is empty when `order[head]` is falsy, absent or `head` itself |
| Util.SortBy | src/util.ts:23-42 | the counted loop returns exactly the walk `Ordered` describes |
| Util.Target | src/util.ts:54 | the destination defaults to `null` for an omitted or `undefined` argument and is the argument otherwise |
| Util.ReorderPatch | src/util.ts:51-75 | empty when `id === toId` or `order[id] === toId`. Otherwise `id` maps to the destination; the first key linking to `id` maps to `order[id]`; the first key linking to the destination maps to `id`; no other key is in the patch; the patch is well-formed and, for a non-empty `id`, never holds the empty key |
| Util.PatchIdempotent | src/util.ts:57-72 | after merging the patch, computing it again with the same arguments gives `{}` |
| Util.PatchDefaults | src/util.ts:54 | passing `undefined` gives the same patch as passing nothing, and moving an id in front of itself gives `{}` |
| Chains.FindPredecessor | src/util.ts:61 | in a well-linked record the key `find` returns for an id is the one key linking to it |
| Chains.PatchEffect | src/util.ts:56-74 | the merged record key by key: `id` links to the destination, its old predecessor to its old successor, the destination's old predecessor to `id`, every other key unchanged; in place, nothing changes |
| Chains.PatchKeepsWellLinked | src/util.ts:56-74 | merging any patch into a well-linked record leaves it well-linked |
| Chains.ChainOrdered | src/util.ts:31-39 | on a chain no longer than `list`, `sortBy` returns the cards of `list` along the chain, skipping ids with no card and walking on past them |
| Chains.ChainCards | src/util.ts:31-39 | on a chain whose ids are all cards of `list`, `sortBy` returns exactly those cards, in chain order |
| Chains.MoveAcross | src/util.ts:56-74 | moving card `j` of one column in front of position `m` of another: the first column's chain loses the card, the second gains it right before the destination, both keep their ends, no other key changes, the record stays well-linked |
| Chains.MoveWithin | src/util.ts:56-74 | moving a card within its own column: the chain becomes the column without the card, with the card inserted before the destination; the end is kept, no other key changes, the record stays well-linked |
| Chains.Unlink | src/util.ts:56-74 | the patch without destination removes a card from its chain and leaves it linking to `null`, the chain keeps its end, no other key changes, the record stays well-linked |
| Chains.PushFront | src/util.ts:56-74 | a fresh card moved in front of the column's first card becomes its first card, the chain keeps its end, no key outside the column changes |
| Chains.PushFrontUnlinked | src/util.ts:54 | when a column's entry is falsy, adding a card in front of it changes no key but the new card's, and `sortBy` on the column still finds nothing |
| Chains.PushThenUnlink | src/util.ts:51-75 | pushing a fresh card in front of a column and then unlinking it restores every entry but the card's own, which is left `null` |
| Reducer.FindColumn | src/reducer.ts:193 | `find` by id: the index found holds the id and no earlier column does; none found only when no column does |
| Reducer.FindHolder | src/reducer.ts:136-138 | the first column whose loaded cards hold the id; none found only when no column holds it |
| Reducer.AllCards | src/reducer.ts:183 | `flatMap` over the columns: holds exactly the loaded cards of every column |
| Reducer.FilterOut | src/reducer.ts:141 | `filter`: keeps exactly the cards with another id, never more, and returns the cards unchanged when none has the id |
| Reducer.Columns | src/reducer.ts:106-111 | the columns as sent, one per entry with its id, title and text, none with cards |
| Drafts.Draft.constructor | src/reducer.ts:96-97 | a draft starts as the given state |
| Drafts.Draft.SetFilter | src/reducer.ts:99-104 | sets `filterValue`, the state `Reduce` gives |
| Drafts.Draft.SetColumns | src/reducer.ts:106-111 | replaces the columns |
| Drafts.Draft.ResortColumns | src/reducer.ts:117-119 | the `forEach` gives every column `sortBy` over the list along the current record, and leaves missing columns missing |
| Drafts.Draft.SetCards | src/reducer.ts:113-121 | replaces the record, then re-sorts every column along it |
| Drafts.Draft.SetDeletingCard | src/reducer.ts:123-128 | sets `deletingCardId` only |
| Drafts.Draft.ConfirmDelete | src/reducer.ts:130-149 | no-op without a card to delete. Otherwise clears `deletingCardId`, and when a column holds the card, filters it out of that column and merges the unlink patch |
| Drafts.Draft.CancelDelete | src/reducer.ts:151-154 | clears `deletingCardId` only |
| Drafts.Draft.StartDragging | src/reducer.ts:156-161 | sets `draggingCardId` only |
| Drafts.Draft.EndDragging | src/reducer.ts:163-166 | clears `draggingCardId` only |
| Drafts.Draft.Drop | src/reducer.ts:168-188 | no-op without a dragged card; clears `draggingCardId`, and unless dropped on itself merges the move patch and re-sorts every column over all loaded cards |
| Drafts.Draft.SetText | src/reducer.ts:190-198 | no-op when the column is missing; otherwise sets that column's text only |
| Drafts.Draft.ConfirmInput | src/reducer.ts:200-222 | no-op when the column is missing. Otherwise puts the new card, carrying the draft text, in front of the loaded cards, clears the draft, and merges the patch moving the card in front of `cardsOrder[columnId]` |
| Drafts.Draft.Apply | src/reducer.ts:98-227 | the `switch` on the action: the state `Reduce` gives for every action |
| Drafts.Step | src/reducer.ts:96-230 | `reducer(state, action)` is `Reduce(state, action)` |
| Board.HolderIs | src/reducer.ts:136-138 | on a coherent board the column found holding a card is the card's own column |
| Board.ColumnIs | src/reducer.ts:193 | on a coherent board `find` by a column's id finds that column |
| Board.DropStep | src/reducer.ts:168-188 | a drop onto another id merges the patch and re-sorts every column over all loaded cards |
| Board.MoveAcrossBoard | src/reducer.ts:177-186 | after moving a card to another column, the re-sort gives exactly the moved board, and it is laid out along the new record |
| Board.DropAcross | src/reducer.ts:168-188 | dropping card `j` of column `a` on position `m` of column `b`: the card leaves `a` and enters `b` right before the target card, or last when dropped on the column; the other columns keep their cards, `draggingCardId` is cleared, the board stays coherent |
| Board.MoveWithinBoard | src/reducer.ts:177-186 | after moving a card within its column, the re-sort gives exactly the shifted board, laid out along the new record |
| Board.DropWithin | src/reducer.ts:168-188 | dropping a card within its own column moves it to the target's position; dropped where it stands only `draggingCardId` changes; the board stays coherent |
| Board.DeleteStep | src/reducer.ts:130-149 | on a coherent board, confirming a card's delete removes it from its own column and merges the unlink patch |
| Board.ConfirmDeleteCard | src/reducer.ts:130-149 | the deleted card leaves its column, now links to `null`, no other column changes, the board stays coherent |
| Board.InputStep | src/reducer.ts:200-222 | on a coherent board, confirming a column's input prepends the card to that column and merges the patch |
| Board.ConfirmInputFresh | src/reducer.ts:200-222 | with a fresh card id the card becomes the column's first, carrying the draft text, the draft is cleared, no other column changes, the board stays coherent |
| Board.SetCardsLoads | src/reducer.ts:113-121 | loading a record that stores each column as a circular list of loaded cards gives each column exactly those cards in list order, and a coherent board |
| Board.DeletingStep | src/reducer.ts:123-128 | asking to delete a card records its id and changes nothing else |
| Board.PushedFirst | src/reducer.ts:206-209 | the card put in front by `ConfirmInput` is the column's first, and removing the first card gives back the column's cards with the draft cleared |
| Board.InsertDeleteRoundTrip | src/reducer.ts:123-222 | on a coherent board, adding a fresh card to a column, asking to delete it and confirming gives back the columns with only the draft cleared, every `cardsOrder` entry but the card's own as before, the card's entry `null`, and a coherent board |
| Invariants.ReduceKeepsWellLinked | src/reducer.ts:96-230 | every action keeps `cardsOrder` well-linked, given a well-linked record to load and a non-empty new card id |
| Invariants.ReduceKeepsCoherent | src/reducer.ts:96-230 | every action the views dispatch keeps a coherent board coherent |
| Invariants.DeleteKeepsCoherent | src/reducer.ts:130-149 | confirming a delete keeps the board coherent |
| Invariants.InputKeepsCoherent | src/reducer.ts:200-222 | confirming an input with a fresh id keeps the board coherent |
| Invariants.TextKeepsCoherent | src/reducer.ts:190-198 | editing a draft keeps the board coherent |
| Invariants.DropKeepsCoherent | src/reducer.ts:168-188 | dropping a card of the board on a card or a column keeps the board coherent |
| Invariants.DropOnCard | src/reducer.ts:168-188 | dropping on another card keeps the board coherent, whether the card is in the same column or not |
| Invariants.DropOnColumn | src/reducer.ts:168-188 | dropping on a column (to its end) keeps the board coherent |
| Invariants.InputUnlinked | src/reducer.ts:200-222 | adding a card to a column whose entry is falsy shows the card in the column, but no key links to it, so a re-sort of that column along the new record finds nothing |
| Invariants.DropOnNullColumn | src/reducer.ts:177-186 | dropping a card of a column onto a column whose entry is `null` links the card to that column, leaves no key linking to the card, and a re-sort of the destination still finds nothing |
| Invariants.DeleteNullLinked | src/reducer.ts:130-149 | deleting a card whose entry is `null` removes it from its column but leaves `cardsOrder` unchanged |
| Scenarios.SetFilterReplaces | src/reducer.ts:99-104 | the `Filter.SetFilter` test: only `filterValue` changes |
| Scenarios.SortedA | src/util.ts:23-42 | `sortBy` on column `A` of the test record returns cards `1, 2` |
| Scenarios.SortedB | src/util.ts:23-42 | `sortBy` on column `B` of the test record returns card `3` |
| Scenarios.SetCardsSorts | src/reducer.ts:113-121 | the `App.SetCards` test: cards sent as `3, 2, 1` load as `1, 2` in `A` and `3` in `B`, and the record is stored |

## Left out

- `randomId` depends on `Math.random`. The new card id is an input to `ConfirmInput`, as in the action's payload. Where coherence needs it, the id is assumed fresh (`Board.Fresh`).
- The HTTP client and the React views are left out: rendering, drag events, timers, the keyword filter, the non-blank draft check, and the copies of each patch sent to the server. Only the ids the views dispatch enter the model, as the `Invariants.Dispatched` precondition.
- JavaScript enumerates integer-like keys (`"1"`, `"2"`) before other keys, whatever the insertion order. Here every key keeps its insertion order. The order matters only when two keys hold the same link, which a well-linked record rules out.
- A card built as `{id, text: column.text}` with `text` undefined is modelled as `Card(id, None)`. JavaScript tells that apart from a card with no `text` key; the model does not.
- immer's structural sharing and freezing are left out, and so is the order of the reducer's writes against the server. Each transition is a plain state update.
- `Invariants.ReduceKeepsCoherent` leaves out `App.SetColumns` and `App.SetCards`, which replace the columns or the record. `Board.SetCardsLoads` covers a load whose record is coherent.
- `Invariants.ReduceKeepsCoherent` leaves out a drop whose target is neither a card nor a column of the board.
- Chains.Unlink: requires the card's entry not to be `null`. With a `null` entry the patch is empty, and `Invariants.DeleteNullLinked` states that case.
- The coherence results (`Board.Coherent` and the lemmas that assume it) cover only boards whose every column, empty ones included, is stored as a circular list. A board loaded with an empty column's entry `null` or absent is outside them. `Invariants.InputUnlinked` and `Invariants.DropOnNullColumn` state what adding or dropping a card onto such a column does.
- `Objects.Get` reads only a record's own keys. In JavaScript `order[id]` for an id such as `constructor` or `toString` reads a function inherited from `Object.prototype`, which is truthy; the model reads `undefined` there.
- The test cases `Card.Drop` and `InputForm.ConfirmInput` are not restated on literal values. `Board.DropAcross` and `Board.ConfirmInputFresh` state the same moves for every coherent board.
