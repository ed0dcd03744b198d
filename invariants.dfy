/** What holds across every action of the reducer: no two keys of
    `cardsOrder` ever come to hold the same link, and a coherent board stays
    coherent under every action the board's own views dispatch. Two
    behaviours of the code as written are stated here as well: a card added
    to a column whose entry is falsy, and the delete of a card whose entry
    is `null`. */
module Invariants {
  import opened Objects
  import opened Util
  import opened Chains
  import opened Reducer
  import opened Board

  /** Every action keeps the record well-linked, given a well-linked record
      to load and a non-empty id for a new card. */
  lemma ReduceKeepsWellLinked(s: State, a: Action)
    requires WellLinked(s.cardsOrder)
    requires a.SetCards? ==> WellLinked(a.order)
    requires a.ConfirmInput? ==> a.cardId != ""
    ensures WellLinked(Reduce(s, a).cardsOrder)
  {
    var order := s.cardsOrder;
    match a
    case ConfirmDelete =>
      if Filled(s.deletingCardId) {
        PatchKeepsWellLinked(order, s.deletingCardId.value, Null);
      }
    case Drop(toId) =>
      if Filled(s.draggingCardId) {
        PatchKeepsWellLinked(order, s.draggingCardId.value, To(toId));
      }
    case ConfirmInput(columnId, cardId) =>
      PatchKeepsWellLinked(order, cardId, Get(order, columnId));
    case _ =>
  }

  /** `x` is the id of a card on the board. */
  ghost predicate CardAt(cols: seq<Column>, x: Id) {
    exists a, j :: 0 <= a < |cols| && 0 <= j < |IdsOf(cols[a])| && IdsOf(cols[a])[j] == x
  }

  /** `t` is what a card can be dropped on: a card or a column. */
  ghost predicate DropTarget(cols: seq<Column>, t: Id) {
    CardAt(cols, t) || exists b :: 0 <= b < |cols| && cols[b].id == t
  }

  /** What the views dispatch: the card being dragged is on the board and
      is dropped on a card or a column, the card being deleted is any id,
      and a new card gets a fresh id. */
  ghost predicate Dispatched(s: State, a: Action)
    requires s.columns.Some?
  {
    var cols := s.columns.value;
    match a
    case SetColumns(_) => false
    case SetCards(_, _) => false
    case Drop(toId) =>
      Filled(s.draggingCardId) ==> CardAt(cols, s.draggingCardId.value) && DropTarget(cols, toId)
    case ConfirmInput(_, cardId) => Fresh(s.cardsOrder, cols, cardId)
    case _ => true
  }

  /** A coherent board stays coherent under every dispatched action other
      than the two loads (which replace the columns or the whole record;
      `Board.SetCardsLoads` covers the second). */
  lemma ReduceKeepsCoherent(s: State, a: Action)
    requires Coherent(s)
    requires Dispatched(s, a)
    ensures Coherent(Reduce(s, a))
  {
    match a
    case ConfirmDelete => DeleteKeepsCoherent(s);
    case Drop(toId) => DropKeepsCoherent(s, toId);
    case SetText(columnId, value) => TextKeepsCoherent(s, columnId, value);
    case ConfirmInput(columnId, cardId) => InputKeepsCoherent(s, columnId, cardId);
    case _ =>
  }

  lemma DeleteKeepsCoherent(s: State)
    requires Coherent(s)
    ensures Coherent(Reduce(s, ConfirmDelete))
  {
    if Filled(s.deletingCardId) {
      var cols, id := s.columns.value, s.deletingCardId.value;
      var h := FindHolder(cols, id);
      if h.Some? {
        var j :| 0 <= j < |CardsOf(cols[h.value])| && CardsOf(cols[h.value])[j].id == id;
        assert IdsOf(cols[h.value])[j] == id;
        ConfirmDeleteCard(s, h.value, j);
      }
    }
  }

  lemma InputKeepsCoherent(s: State, columnId: Id, x: Id)
    requires Coherent(s)
    requires Fresh(s.cardsOrder, s.columns.value, x)
    ensures Coherent(Reduce(s, ConfirmInput(columnId, x)))
  {
    var f := FindColumn(s.columns.value, columnId);
    if f.Some? {
      ConfirmInputFresh(s, f.value, x);
    }
  }

  lemma TextKeepsCoherent(s: State, columnId: Id, value: string)
    requires Coherent(s)
    ensures Coherent(Reduce(s, SetText(columnId, value)))
  {
    var cols := s.columns.value;
    var f := FindColumn(cols, columnId);
    if f.Some? {
      TextLayout(s.cardsOrder, cols, f.value, value);
    }
  }

  /** A column's draft text plays no part in the layout. */
  lemma TextLayout(order: Record, cols: seq<Column>, i: nat, value: string)
    requires Layout(order, cols) && i < |cols|
    ensures Layout(order, cols[i := cols[i].(text := Some(value))])
  {
    var edited := cols[i := cols[i].(text := Some(value))];
    forall k | 0 <= k < |cols|
      ensures edited[k].id == cols[k].id && edited[k].cards == cols[k].cards
    {
    }
    forall k | 0 <= k < |cols| ensures Keys(edited[k]) == Keys(cols[k]) && IdsOf(edited[k]) == IdsOf(cols[k]) {
      assert CardsOf(edited[k]) == CardsOf(cols[k]);
    }
  }

  /** Dropping a card of the board on a card or a column keeps the board
      coherent. */
  lemma DropKeepsCoherent(s: State, toId: Id)
    requires Coherent(s)
    requires Filled(s.draggingCardId) ==>
               CardAt(s.columns.value, s.draggingCardId.value) && DropTarget(s.columns.value, toId)
    ensures Coherent(Reduce(s, Drop(toId)))
  {
    if Filled(s.draggingCardId) && s.draggingCardId.value != toId {
      var cols := s.columns.value;
      var a, j :| 0 <= a < |cols| && 0 <= j < |IdsOf(cols[a])| && IdsOf(cols[a])[j] == s.draggingCardId.value;
      if CardAt(cols, toId) {
        var b, n :| 0 <= b < |cols| && 0 <= n < |IdsOf(cols[b])| && IdsOf(cols[b])[n] == toId;
        DropOnCard(s, a, j, b, n);
      } else {
        var b :| 0 <= b < |cols| && cols[b].id == toId;
        DropOnColumn(s, a, j, b);
      }
    }
  }

  lemma DropOnCard(s: State, a: nat, j: nat, b: nat, n: nat)
    requires Coherent(s)
    requires a < |s.columns.value| && j < |CardsOf(s.columns.value[a])|
    requires b < |s.columns.value| && n < |CardsOf(s.columns.value[b])|
    requires s.draggingCardId == Some(IdsOf(s.columns.value[a])[j])
    requires IdsOf(s.columns.value[a])[j] != IdsOf(s.columns.value[b])[n]
    ensures Coherent(Reduce(s, Drop(IdsOf(s.columns.value[b])[n])))
  {
    var cols := s.columns.value;
    if a != b {
      DropAcross(s, a, j, b, n);
    } else {
      var la := IdsOf(cols[a]);
      var m := if n < j then n else n - 1;
      assert RemoveAt(la, j)[m] == la[n];
      assert WithinTarget(cols[a], j, m) == la[n];
      DropWithin(s, a, j, m);
    }
  }

  lemma DropOnColumn(s: State, a: nat, j: nat, b: nat)
    requires Coherent(s)
    requires a < |s.columns.value| && j < |CardsOf(s.columns.value[a])| && b < |s.columns.value|
    requires s.draggingCardId == Some(IdsOf(s.columns.value[a])[j])
    ensures Coherent(Reduce(s, Drop(s.columns.value[b].id)))
  {
    var cols := s.columns.value;
    if a != b {
      DropAcross(s, a, j, b, |CardsOf(cols[b])|);
    } else {
      var m := |CardsOf(cols[a])| - 1;
      assert WithinTarget(cols[a], j, m) == cols[a].id;
      DropWithin(s, a, j, m);
    }
  }

  // ----- the code as written ------------------------------------------------

  /** A new card given to a column whose entry in `cardsOrder` is falsy (a
      column with no entry at all, say) is shown in the column, but the
      record does not reach it: a re-sort of that column along the new
      record, as `SetCards` with it does, finds no card. */
  lemma InputUnlinked(s: State, a: nat, x: Id)
    requires s.columns.Some? && a < |s.columns.value|
    requires FindColumn(s.columns.value, s.columns.value[a].id) == Some(a)
    requires s.columns.value[a].cards.Some?
    requires !Truthy(Get(s.cardsOrder, s.columns.value[a].id))
    requires x != s.columns.value[a].id
    requires forall k :: Get(s.cardsOrder, k) != To(x)
    ensures var col := s.columns.value[a];
            var r := Reduce(s, ConfirmInput(col.id, x));
            && r.columns.Some? && |r.columns.value| == |s.columns.value|
            && r.columns.value[a].cards == Some([Card(x, col.text)] + col.cards.value)
            && (forall k :: k != x ==> Get(r.cardsOrder, k) == Get(s.cardsOrder, k))
            && (forall list :: Ordered(list, r.cardsOrder, col.id) == [])
  {
    PushFrontUnlinked(s.cardsOrder, s.columns.value[a].id, x);
  }

  /** Dropping a card of a laid-out column onto a column whose entry in
      `cardsOrder` is `null` (an empty column stored null-terminated) links
      the card to that column and unlinks it from its own list, but the
      destination's own entry is not relinked: no key reaches the card any
      more, and a re-sort of the destination still finds no card. */
  lemma DropOnNullColumn(order: Record, a: Id, la: seq<Id>, j: nat, b: Id)
    requires WellLinked(order) && Chain(order, a, la) && j < |la|
    requires Get(order, b) == Null && b !in Footprint(a, la)
    requires forall k :: Get(order, k) != To(b)
    ensures var order' := Spread(order, ReorderPatch(order, la[j], To(b)));
            && Get(order', la[j]) == To(b)
            && (forall k :: Get(order', k) != To(la[j]))
            && forall list :: Ordered(list, order', b) == []
  {
    var x := la[j];
    assert x in la && x != "";
    PatchEffect(order, x, To(b));
    var order' := Spread(order, ReorderPatch(order, x, To(b)));
    assert Get(order', b) == Null;
    forall k ensures Get(order', k) != To(x) {
      if k != x && Get(order, k) == To(x) {
        assert Get(order, x) != To(x);
      }
    }
  }

  /** Deleting a card whose entry is `null` (the last card of a column
      stored null-terminated) removes it from the column but leaves
      `cardsOrder` unchanged: the guard of `reorderPatch` sees the card
      already linking to the destination `null`, so the card before it
      keeps linking to it. */
  lemma DeleteNullLinked(s: State, a: nat, x: Id)
    requires s.columns.Some? && a < |s.columns.value|
    requires s.deletingCardId == Some(x) && x != ""
    requires FindHolder(s.columns.value, x) == Some(a)
    requires Get(s.cardsOrder, x) == Null
    ensures var r := Reduce(s, ConfirmDelete);
            && r.cardsOrder == s.cardsOrder
            && r.columns.Some?
            && forall c :: c in CardsOf(r.columns.value[a]) ==> c.id != x
  {
    assert ReorderPatch(s.cardsOrder, x) == Empty;
    assert Spread(s.cardsOrder, Empty) == s.cardsOrder;
  }
}
