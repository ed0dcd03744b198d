/** The ordering engine: every column's card order lives in one flat record
    used as a linked list. A column id maps to its first card, each card to
    the next one, and the last card back to the column id (or to `null`).
    `SortBy` walks one column's list; `ReorderPatch` computes the entries to
    change so that one id moves in front of another. */
module Util {
  import opened Objects

  /** A card as the board holds it: an id and an optional text. */
  datatype Card = Card(id: Id, text: Option<string>)

  /** `list.reduce((m, e) => m.set(e.id, e), new Map())`: cards by id, a later
      card replacing an earlier one with the same id. */
  function IndexById(list: seq<Card>): (index: map<Id, Card>)
    ensures forall x :: x in index <==> exists i :: 0 <= i < |list| && list[i].id == x
    ensures forall x :: x in index ==> index[x].id == x && index[x] in list
  {
    if list == [] then map[]
    else
      var init, last := list[..|list| - 1], list[|list| - 1];
      var index := IndexById(init);
      assert forall i :: 0 <= i < |init| ==> init[i] == list[i];
      assert forall c :: c in init ==> c in list;
      index[last.id := last]
  }

  /** The card kept under an id is the last one in `list` with that id. */
  lemma {:induction false} IndexByIdLast(list: seq<Card>, i: nat)
    requires i < |list|
    requires forall j :: i < j < |list| ==> list[j].id != list[i].id
    ensures IndexById(list)[list[i].id] == list[i]
  {
    if i < |list| - 1 {
      var init := list[..|list| - 1];
      IndexByIdLast(init, i);
    }
  }

  /** What the walk of `SortBy` collects when it stands at `cur` with `fuel`
      rounds of the loop left: it stops when the fuel is used up, at a falsy
      id or back at the head, skips ids that name no card and goes on from
      `order[cur]`. */
  ghost function Walk(index: map<Id, Card>, order: Record, head: Id, cur: Link, fuel: nat): (r: seq<Card>)
    ensures |r| <= fuel
    ensures forall i :: 0 <= i < |r| ==> r[i] in index.Values
    decreases fuel
  {
    if fuel == 0 || !Truthy(cur) || cur == To(head) then []
    else
      (if cur.id in index then [index[cur.id]] else [])
      + Walk(index, order, head, Get(order, cur.id), fuel - 1)
  }

  /** The list `sortBy(list, order, head)` returns: the walk from
      `order[head]`, bounded by `list.length` rounds. */
  ghost function Ordered(list: seq<Card>, order: Record, head: Id): (r: seq<Card>)
    ensures |r| <= |list|
    ensures forall i :: 0 <= i < |r| ==> r[i] in list
    ensures !Truthy(Get(order, head)) || Get(order, head) == To(head) ==> r == []
  {
    Walk(IndexById(list), order, head, Get(order, head), |list|)
  }

  /** `sortBy`: the counted loop that follows the links from the head and
      appends each card it finds. */
  method SortBy(list: seq<Card>, order: Record, head: Id) returns (sorted: seq<Card>)
    ensures sorted == Ordered(list, order, head)
  {
    var index := IndexById(list);
    sorted := [];
    var id := Get(order, head);
    var i: nat := |list|;
    while i > 0
      invariant sorted + Walk(index, order, head, id, i) == Ordered(list, order, head)
    {
      if !Truthy(id) || id == To(head) {
        break;
      }
      var next := Get(order, id.id);
      ghost var rest := Walk(index, order, head, next, i - 1);
      if id.id in index {
        var card := index[id.id];
        assert Walk(index, order, head, id, i) == [card] + rest;
        Associative(sorted, [card], rest);
        sorted := sorted + [card];
      } else {
        assert Walk(index, order, head, id, i) == rest;
      }
      id := next;
      i := i - 1;
    }
  }

  lemma Associative<T>(a: seq<T>, b: seq<T>, c: seq<T>)
    ensures (a + b) + c == a + (b + c)
  {
  }

  /** The destination `reorderPatch` works with: its parameter defaults to
      `null`, and a JavaScript default also replaces an explicit `undefined`. */
  function Target(toId: Link): (to: Link)
    ensures toId.Undefined? ==> to == Null
    ensures toId != Undefined ==> to == toId
  {
    if toId.Undefined? then Null else toId
  }

  /** The guard under which `reorderPatch` changes nothing: the id would move
      in front of itself, or it already links to the destination. */
  predicate InPlace(order: Record, id: Id, to: Link) {
    To(id) == to || Get(order, id) == to
  }

  /** `reorderPatch(order, id, toId)`: the entries that move `id` so it sits
      immediately before `toId`, all read from the record before the move.
      The first key linking to `id` takes over `order[id]` (unlink), the
      first key linking to `toId` now links to `id` (relink), and `id` links
      to `toId` (point). With `toId` null only the unlink happens. */
  function ReorderPatch(order: Record, id: Id, toId: Link := Null): (patch: Record)
    ensures patch.Valid()
    ensures id != "" ==> "" !in patch.entries
    ensures InPlace(order, id, Target(toId)) ==> patch == Empty
    ensures !InPlace(order, id, Target(toId)) ==> Get(patch, id) == Target(toId)
    ensures !InPlace(order, id, Target(toId)) ==>
              forall k :: k in patch.entries ==>
                k == id || Find(order, To(id)) == Some(k) || Find(order, Target(toId)) == Some(k)
    ensures !InPlace(order, id, Target(toId)) ==>
              forall k :: Find(order, To(id)) == Some(k) && k != "" && k != id ==>
                Get(patch, k) == Get(order, id)
    ensures !InPlace(order, id, Target(toId)) ==>
              forall k :: Find(order, Target(toId)) == Some(k) && k != "" && k != id ==>
                Get(patch, k) == To(id)
  {
    var to := Target(toId);
    if InPlace(order, id, to) then Empty
    else
      var deleteKey := Find(order, To(id));
      var unlinked := if deleteKey.Some? && deleteKey.value != ""
                      then Assign(Empty, deleteKey.value, Get(order, id)) else Empty;
      assert forall k :: k in unlinked.entries ==> deleteKey == Some(k) && k != "";
      var insertKey := Find(order, to);
      var relinked := if insertKey.Some? && insertKey.value != ""
                      then Assign(unlinked, insertKey.value, To(id)) else unlinked;
      assert forall k :: k in relinked.entries ==> (deleteKey == Some(k) || insertKey == Some(k)) && k != "";
      Assign(relinked, id, to)
  }

  /** Replaying a patch changes nothing: once it is spread into the record,
      `id` links to the destination, so the same call returns `{}`. */
  lemma PatchIdempotent(order: Record, id: Id, toId: Link)
    ensures ReorderPatch(Spread(order, ReorderPatch(order, id, toId)), id, toId) == Empty
  {
    var patch := ReorderPatch(order, id, toId);
    if patch == Empty {
      assert Spread(order, patch) == order;
    }
  }

  /** Passing `undefined` (a column with no entry) behaves exactly like
      passing `null`, and moving an id in front of itself is the empty patch. */
  lemma PatchDefaults(order: Record, id: Id)
    ensures ReorderPatch(order, id, Undefined) == ReorderPatch(order, id)
    ensures ReorderPatch(order, id, To(id)) == Empty
  {
  }
}
