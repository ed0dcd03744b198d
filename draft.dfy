/** The reducer as it runs: a draft of the state that each branch updates in
    place: field assignments, a column's `text` and `cards`, and a loop over
    the columns that re-sorts their cards. Every method ends in the state
    `Reducer.Reduce` gives. */
module Drafts {
  import opened Objects
  import opened Util
  import opened Reducer

  class Draft {
    var filterValue: string
    var columns: Option<seq<Column>>
    var cardsOrder: Record
    var deletingCardId: Option<Id>
    var draggingCardId: Option<Id>

    /** The draft's current value. */
    function Snapshot(): State
      reads this
    {
      State(filterValue, columns, cardsOrder, deletingCardId, draggingCardId)
    }

    /** A draft of `s`. */
    constructor (s: State)
      ensures Snapshot() == s
    {
      filterValue := s.filterValue;
      columns := s.columns;
      cardsOrder := s.cardsOrder;
      deletingCardId := s.deletingCardId;
      draggingCardId := s.draggingCardId;
    }

    method SetFilter(value: string)
      modifies this
      ensures Snapshot() == Reduce(old(Snapshot()), Action.SetFilter(value))
    {
      filterValue := value;
    }

    method SetColumns(infos: seq<ColumnInfo>)
      modifies this
      ensures Snapshot() == Reduce(old(Snapshot()), Action.SetColumns(infos))
    {
      columns := Some(Columns(infos));
    }

    /** The `forEach` that gives every column the cards `sortBy` finds for it
        in `list` along the current `cardsOrder`, one column at a time. */
    method ResortColumns(list: seq<Card>)
      modifies this`columns
      ensures columns == if old(columns).Some? then Some(Resort(old(columns).value, list, cardsOrder)) else None
    {
      if columns.None? {
        return;
      }
      ghost var cols := columns.value;
      var i := 0;
      while i < |columns.value|
        invariant columns.Some? && |columns.value| == |cols| && i <= |cols|
        invariant forall k :: 0 <= k < i ==>
                    columns.value[k] == cols[k].(cards := Some(Ordered(list, cardsOrder, cols[k].id)))
        invariant forall k :: i <= k < |cols| ==> columns.value[k] == cols[k]
      {
        var column := columns.value[i];
        var sorted := SortBy(list, cardsOrder, column.id);
        columns := Some(columns.value[i := column.(cards := Some(sorted))]);
        i := i + 1;
      }
      assert columns.value == Resort(cols, list, cardsOrder);
    }

    method SetCards(cards: seq<Card>, order: Record)
      modifies this
      ensures Snapshot() == Reduce(old(Snapshot()), Action.SetCards(cards, order))
    {
      cardsOrder := order;
      ResortColumns(cards);
    }

    method SetDeletingCard(cardId: Id)
      modifies this
      ensures Snapshot() == Reduce(old(Snapshot()), Action.SetDeletingCard(cardId))
    {
      deletingCardId := Some(cardId);
    }

    method ConfirmDelete()
      modifies this
      ensures Snapshot() == Reduce(old(Snapshot()), Action.ConfirmDelete)
    {
      var cardId := deletingCardId;
      if !Filled(cardId) {
        return;
      }
      deletingCardId := None;
      var holder := if columns.Some? then FindHolder(columns.value, cardId.value) else None;
      if holder.None? {
        return;
      }
      var cols, i := columns.value, holder.value;
      columns := Some(cols[i := cols[i].(cards := Some(FilterOut(cols[i].cards.value, cardId.value)))]);
      var patch := ReorderPatch(cardsOrder, cardId.value);
      cardsOrder := Spread(cardsOrder, patch);
    }

    method CancelDelete()
      modifies this
      ensures Snapshot() == Reduce(old(Snapshot()), Action.CancelDelete)
    {
      deletingCardId := None;
    }

    method StartDragging(cardId: Id)
      modifies this
      ensures Snapshot() == Reduce(old(Snapshot()), Action.StartDragging(cardId))
    {
      draggingCardId := Some(cardId);
    }

    method EndDragging()
      modifies this
      ensures Snapshot() == Reduce(old(Snapshot()), Action.EndDragging)
    {
      draggingCardId := None;
    }

    method Drop(toId: Id)
      modifies this
      ensures Snapshot() == Reduce(old(Snapshot()), Action.Drop(toId))
    {
      var fromId := draggingCardId;
      if !Filled(fromId) {
        return;
      }
      draggingCardId := None;
      if fromId.value == toId {
        return;
      }
      var patch := ReorderPatch(cardsOrder, fromId.value, To(toId));
      cardsOrder := Spread(cardsOrder, patch);
      var unordered := if columns.Some? then AllCards(columns.value) else [];
      ResortColumns(unordered);
    }

    method SetText(columnId: Id, value: string)
      modifies this
      ensures Snapshot() == Reduce(old(Snapshot()), Action.SetText(columnId, value))
    {
      var found := if columns.Some? then FindColumn(columns.value, columnId) else None;
      if found.None? {
        return;
      }
      var cols, i := columns.value, found.value;
      columns := Some(cols[i := cols[i].(text := Some(value))]);
    }

    method ConfirmInput(columnId: Id, cardId: Id)
      modifies this
      ensures Snapshot() == Reduce(old(Snapshot()), Action.ConfirmInput(columnId, cardId))
    {
      var found := if columns.Some? then FindColumn(columns.value, columnId) else None;
      if found.None? {
        return;
      }
      var cols, i := columns.value, found.value;
      var column := cols[i];
      if column.cards.Some? {
        column := column.(cards := Some([Card(cardId, column.text)] + column.cards.value));
      }
      column := column.(text := Some(""));
      columns := Some(cols[i := column]);
      var patch := ReorderPatch(cardsOrder, cardId, Get(cardsOrder, columnId));
      cardsOrder := Spread(cardsOrder, patch);
    }

    /** The `switch` on the action's type. */
    method Apply(a: Action)
      modifies this
      ensures Snapshot() == Reduce(old(Snapshot()), a)
    {
      match a
      case SetFilter(value) => SetFilter(value);
      case SetColumns(infos) => SetColumns(infos);
      case SetCards(cards, order) => SetCards(cards, order);
      case SetDeletingCard(cardId) => SetDeletingCard(cardId);
      case ConfirmDelete => ConfirmDelete();
      case CancelDelete => CancelDelete();
      case StartDragging(cardId) => StartDragging(cardId);
      case EndDragging => EndDragging();
      case Drop(toId) => Drop(toId);
      case SetText(columnId, value) => SetText(columnId, value);
      case ConfirmInput(columnId, cardId) => ConfirmInput(columnId, cardId);
    }
  }

  /** `reducer(state, action)`: a draft of the state, changed by the action,
      handed back as the next state. */
  method Step(s: State, a: Action) returns (next: State)
    ensures next == Reduce(s, a)
  {
    var draft := new Draft(s);
    draft.Apply(a);
    next := draft.Snapshot();
  }
}
