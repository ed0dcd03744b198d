/** The board's state and the reducer: a closed set of eleven actions, each a
    guarded update of a few fields. `Reduce` is the transition as a value;
    the class in module `Drafts` performs the same transition in place, the
    way the reducer mutates its draft. */
module Reducer {
  import opened Objects
  import opened Util

  /** A column as the board holds it; `cards` is absent until the cards have
      been loaded, `text` is the column's input draft. */
  datatype Column = Column(id: Id, title: Option<string>, text: Option<string>, cards: Option<seq<Card>>)

  /** A column as the server sends it: no cards. */
  datatype ColumnInfo = ColumnInfo(id: Id, title: Option<string>, text: Option<string>)

  datatype State = State(
    filterValue: string,
    columns: Option<seq<Column>>,
    cardsOrder: Record,
    deletingCardId: Option<Id>,
    draggingCardId: Option<Id>)

  /** The state the reducer starts from. */
  const Initial: State := State("", None, Empty, None, None)

  datatype Action =
    | SetFilter(value: string)
    | SetColumns(infos: seq<ColumnInfo>)
    | SetCards(cards: seq<Card>, order: Record)
    | SetDeletingCard(cardId: Id)
    | ConfirmDelete
    | CancelDelete
    | StartDragging(cardId: Id)
    | EndDragging
    | Drop(toId: Id)
    | SetText(columnId: Id, value: string)
    | ConfirmInput(columnId: Id, cardId: Id)

  /** JavaScript truthiness of an optional id: present and not "". */
  predicate Filled(o: Option<Id>) {
    o.Some? && o.value != ""
  }

  /** `columns.find(column => column.id === id)`, as the index it finds. */
  function FindColumn(cols: seq<Column>, id: Id): (r: Option<nat>)
    ensures r.Some? ==> r.value < |cols| && cols[r.value].id == id
    ensures r.Some? ==> forall i :: 0 <= i < r.value ==> cols[i].id != id
    ensures r.None? ==> forall i :: 0 <= i < |cols| ==> cols[i].id != id
  {
    if cols == [] then None
    else if cols[0].id == id then Some(0)
    else match FindColumn(cols[1..], id)
      case None => None
      case Some(i) => Some(i + 1)
  }

  /** `cards.some(c => c.id === id)`. */
  predicate Contains(cards: seq<Card>, id: Id) {
    exists i :: 0 <= i < |cards| && cards[i].id == id
  }

  /** Whether a column's loaded cards hold the card `id`. */
  predicate Holds(col: Column, id: Id) {
    col.cards.Some? && Contains(col.cards.value, id)
  }

  /** `columns.find(col => col.cards?.some(c => c.id === id))`, as the index
      it finds. */
  function FindHolder(cols: seq<Column>, id: Id): (r: Option<nat>)
    ensures r.Some? ==> r.value < |cols| && Holds(cols[r.value], id)
    ensures r.Some? ==> forall i :: 0 <= i < r.value ==> !Holds(cols[i], id)
    ensures r.None? ==> forall i :: 0 <= i < |cols| ==> !Holds(cols[i], id)
  {
    if cols == [] then None
    else if Holds(cols[0], id) then Some(0)
    else match FindHolder(cols[1..], id)
      case None => None
      case Some(i) => Some(i + 1)
  }

  /** A column's cards, or none when they are not loaded (`c.cards ?? []`). */
  function CardsOf(col: Column): seq<Card> {
    if col.cards.Some? then col.cards.value else []
  }

  /** `columns.flatMap(c => c.cards ?? [])`: every loaded card, column by
      column. */
  function AllCards(cols: seq<Column>): (all: seq<Card>)
    ensures forall i, c :: 0 <= i < |cols| && c in CardsOf(cols[i]) ==> c in all
    ensures forall c :: c in all ==> exists i :: 0 <= i < |cols| && c in CardsOf(cols[i])
  {
    if cols == [] then []
    else
      var rest := AllCards(cols[1..]);
      assert forall c :: c in rest ==> exists i :: 0 <= i < |cols| - 1 && c in CardsOf(cols[1..][i]);
      CardsOf(cols[0]) + rest
  }

  /** `cards.filter(c => c.id !== id)`. */
  function FilterOut(cards: seq<Card>, id: Id): (r: seq<Card>)
    ensures |r| <= |cards|
    ensures forall c :: c in r <==> c in cards && c.id != id
    ensures !Contains(cards, id) ==> r == cards
  {
    if cards == [] then []
    else
      var rest := FilterOut(cards[1..], id);
      assert forall i :: 0 <= i < |cards| - 1 ==> cards[1..][i] == cards[i + 1];
      assert forall c :: c in cards <==> c == cards[0] || c in cards[1..];
      if cards[0].id == id then rest else [cards[0]] + rest
  }

  /** `App.SetColumns` stores the columns as sent: none has cards yet. */
  function Columns(infos: seq<ColumnInfo>): (cols: seq<Column>)
    ensures |cols| == |infos|
    ensures forall i :: 0 <= i < |infos| ==>
              cols[i].id == infos[i].id && cols[i].title == infos[i].title &&
              cols[i].text == infos[i].text && cols[i].cards.None?
  {
    seq(|infos|, i requires 0 <= i < |infos| => Column(infos[i].id, infos[i].title, infos[i].text, None))
  }

  /** `columns.forEach(column => column.cards = sortBy(list, order, column.id))`. */
  ghost function Resort(cols: seq<Column>, list: seq<Card>, order: Record): seq<Column> {
    seq(|cols|, i requires 0 <= i < |cols| => cols[i].(cards := Some(Ordered(list, order, cols[i].id))))
  }

  /** A column after `ConfirmInput` of card `id`: the card, carrying the
      column's draft text, goes in front of the loaded cards (nothing is added
      when the cards are not loaded) and the draft is cleared. */
  function Prepend(col: Column, id: Id): Column {
    col.(cards := if col.cards.Some? then Some([Card(id, col.text)] + col.cards.value) else None,
         text := Some(""))
  }

  /** The reducer: the state after `a`. */
  ghost function Reduce(s: State, a: Action): State {
    match a
    case SetFilter(value) => s.(filterValue := value)
    case SetColumns(infos) => s.(columns := Some(Columns(infos)))
    case SetCards(cards, order) =>
      s.(cardsOrder := order,
         columns := if s.columns.Some? then Some(Resort(s.columns.value, cards, order)) else None)
    case SetDeletingCard(cardId) => s.(deletingCardId := Some(cardId))
    case ConfirmDelete =>
      if !Filled(s.deletingCardId) then s
      else
        var id := s.deletingCardId.value;
        var cleared := s.(deletingCardId := None);
        var holder := if s.columns.Some? then FindHolder(s.columns.value, id) else None;
        if holder.None? then cleared
        else
          var cols, i := s.columns.value, holder.value;
          cleared.(columns := Some(cols[i := cols[i].(cards := Some(FilterOut(cols[i].cards.value, id)))]),
                   cardsOrder := Spread(s.cardsOrder, ReorderPatch(s.cardsOrder, id)))
    case CancelDelete => s.(deletingCardId := None)
    case StartDragging(cardId) => s.(draggingCardId := Some(cardId))
    case EndDragging => s.(draggingCardId := None)
    case Drop(toId) =>
      if !Filled(s.draggingCardId) then s
      else
        var fromId := s.draggingCardId.value;
        var cleared := s.(draggingCardId := None);
        if fromId == toId then cleared
        else
          var order := Spread(s.cardsOrder, ReorderPatch(s.cardsOrder, fromId, To(toId)));
          var list := if s.columns.Some? then AllCards(s.columns.value) else [];
          cleared.(cardsOrder := order,
                   columns := if s.columns.Some? then Some(Resort(s.columns.value, list, order)) else None)
    case SetText(columnId, value) =>
      var found := if s.columns.Some? then FindColumn(s.columns.value, columnId) else None;
      if found.None? then s
      else
        var cols, i := s.columns.value, found.value;
        s.(columns := Some(cols[i := cols[i].(text := Some(value))]))
    case ConfirmInput(columnId, cardId) =>
      var found := if s.columns.Some? then FindColumn(s.columns.value, columnId) else None;
      if found.None? then s
      else
        var cols, i := s.columns.value, found.value;
        var order := s.cardsOrder;
        s.(columns := Some(cols[i := Prepend(cols[i], cardId)]),
           cardsOrder := Spread(order, ReorderPatch(order, cardId, Get(order, columnId))))
  }
}
