/** What the reducer does to a consistent board. A board is coherent when
    every column's cards are loaded and stored in `cardsOrder` as a circular
    list from the column id through the cards back to the column id, no two
    columns share a key, and no two keys hold the same link. On such a board
    moving, deleting and adding a card do what the user sees: the card leaves
    one place and appears at the other, and the board stays coherent. */
module Board {
  import opened Objects
  import opened Util
  import opened Chains
  import opened Reducer

  /** A column's card ids, in order. */
  function IdsOf(col: Column): seq<Id> {
    Ids(CardsOf(col))
  }

  /** The keys a column's list is stored under. */
  ghost function Keys(col: Column): set<Id> {
    Footprint(col.id, IdsOf(col))
  }

  /** Within a column no card id repeats, and no two columns share a key. */
  ghost predicate Separate(cols: seq<Column>) {
    && (forall k :: 0 <= k < |cols| ==> Distinct(IdsOf(cols[k])))
    && (forall k, l :: 0 <= k < l < |cols| ==> Keys(cols[k]) !! Keys(cols[l]))
  }

  /** The columns `cols` are exactly the lists stored in `order`. */
  ghost predicate Layout(order: Record, cols: seq<Column>) {
    && WellLinked(order)
    && (forall k :: 0 <= k < |cols| ==> cols[k].cards.Some?)
    && (forall k :: 0 <= k < |cols| ==> Circular(order, cols[k].id, IdsOf(cols[k])))
    && (forall k, l :: 0 <= k < l < |cols| ==> Keys(cols[k]) !! Keys(cols[l]))
  }

  ghost predicate Coherent(s: State) {
    s.columns.Some? && Layout(s.cardsOrder, s.columns.value)
  }

  lemma LayoutSeparate(order: Record, cols: seq<Column>)
    requires Layout(order, cols)
    ensures Separate(cols)
  {
  }

  // ----- the card index over all columns -----------------------------------

  /** Indexing a concatenation: a card of the second part wins over one of
      the first with the same id. */
  lemma {:induction false} IndexConcat(a: seq<Card>, b: seq<Card>, x: Id)
    ensures x in IndexById(a + b) <==> x in IndexById(a) || x in IndexById(b)
    ensures x in IndexById(b) ==> IndexById(a + b)[x] == IndexById(b)[x]
    ensures x !in IndexById(b) && x in IndexById(a) ==> IndexById(a + b)[x] == IndexById(a)[x]
    decreases |b|
  {
    if b == [] {
      assert a + b == a;
    } else {
      var b', last := b[..|b| - 1], b[|b| - 1];
      assert (a + b)[..|a + b| - 1] == a + b';
      assert (a + b)[|a + b| - 1] == last;
      IndexConcat(a, b', x);
      IndexSnoc(a + b);
      IndexSnoc(b);
    }
  }

  lemma IndexSnoc(list: seq<Card>)
    requires |list| > 0
    ensures IndexById(list) == IndexById(list[..|list| - 1])[list[|list| - 1].id := list[|list| - 1]]
  {
  }

  lemma IndexMissing(cards: seq<Card>, x: Id)
    requires forall q :: 0 <= q < |cards| ==> cards[q].id != x
    ensures x !in IndexById(cards)
  {
  }

  lemma AllCardsCons(cols: seq<Column>)
    requires |cols| > 0
    ensures AllCards(cols) == CardsOf(cols[0]) + AllCards(cols[1..])
  {
  }

  /** On separate columns, the index of all cards finds each card under its
      own id. */
  lemma {:induction false} IndexAll(cols: seq<Column>, i: nat, p: nat)
    requires Separate(cols)
    requires i < |cols| && p < |CardsOf(cols[i])|
    ensures CardsOf(cols[i])[p].id in IndexById(AllCards(cols))
    ensures IndexById(AllCards(cols))[CardsOf(cols[i])[p].id] == CardsOf(cols[i])[p]
    decreases |cols|, 1
  {
    var x := CardsOf(cols[i])[p].id;
    AllCardsCons(cols);
    IndexConcat(CardsOf(cols[0]), AllCards(cols[1..]), x);
    if i == 0 {
      IndexFirst(cols, p);
    } else {
      IndexLater(cols, i, p);
    }
  }

  /** A card of the first column: no later column has its id, and no later
      card of its own column. */
  lemma IndexFirst(cols: seq<Column>, p: nat)
    requires Separate(cols)
    requires 0 < |cols| && p < |CardsOf(cols[0])|
    ensures var first, rest := CardsOf(cols[0]), AllCards(cols[1..]);
            first[p].id in IndexById(first) && first[p].id !in IndexById(rest) &&
            IndexById(first)[first[p].id] == first[p]
  {
    var first, rest := CardsOf(cols[0]), AllCards(cols[1..]);
    var x := first[p].id;
    assert x == IdsOf(cols[0])[p];
    assert x in Keys(cols[0]);
    LaterIdsDiffer(cols, x);
    IndexMissing(rest, x);
    forall q | p < q < |first| ensures first[q].id != first[p].id {
      assert first[q].id == IdsOf(cols[0])[q];
    }
    IndexByIdLast(first, p);
  }

  /** A card of a later column: the first column has no card with its id. */
  lemma {:induction false} IndexLater(cols: seq<Column>, i: nat, p: nat)
    requires Separate(cols)
    requires 0 < i < |cols| && p < |CardsOf(cols[i])|
    ensures var rest := AllCards(cols[1..]);
            CardsOf(cols[i])[p].id in IndexById(rest) &&
            IndexById(rest)[CardsOf(cols[i])[p].id] == CardsOf(cols[i])[p]
    decreases |cols|, 0
  {
    var x := CardsOf(cols[i])[p].id;
    assert x == IdsOf(cols[i])[p];
    assert x in Keys(cols[i]);
    FirstIdsDiffer(cols, i, x);
    IndexMissing(CardsOf(cols[0]), x);
    SeparateTail(cols);
    assert cols[1..][i - 1] == cols[i];
    IndexAll(cols[1..], i - 1, p);
  }

  /** A key of the first column is the id of no card in the other columns. */
  lemma LaterIdsDiffer(cols: seq<Column>, x: Id)
    requires Separate(cols) && |cols| > 0 && x in Keys(cols[0])
    ensures forall q :: 0 <= q < |AllCards(cols[1..])| ==> AllCards(cols[1..])[q].id != x
  {
    var rest := AllCards(cols[1..]);
    forall q | 0 <= q < |rest| ensures rest[q].id != x {
      assert rest[q] in rest;
      var k :| 0 <= k < |cols[1..]| && rest[q] in CardsOf(cols[1..][k]);
      var n :| 0 <= n < |CardsOf(cols[k + 1])| && CardsOf(cols[k + 1])[n] == rest[q];
      assert rest[q].id == IdsOf(cols[k + 1])[n];
      assert rest[q].id in Keys(cols[k + 1]);
    }
  }

  /** A key of a later column is the id of no card in the first. */
  lemma FirstIdsDiffer(cols: seq<Column>, i: nat, x: Id)
    requires Separate(cols) && 0 < i < |cols| && x in Keys(cols[i])
    ensures forall q :: 0 <= q < |CardsOf(cols[0])| ==> CardsOf(cols[0])[q].id != x
  {
    forall q | 0 <= q < |CardsOf(cols[0])| ensures CardsOf(cols[0])[q].id != x {
      assert CardsOf(cols[0])[q].id == IdsOf(cols[0])[q];
      assert CardsOf(cols[0])[q].id in Keys(cols[0]);
    }
  }

  lemma SeparateTail(cols: seq<Column>)
    requires Separate(cols) && |cols| > 0
    ensures Separate(cols[1..])
  {
    forall k, l | 0 <= k < l < |cols| - 1 ensures Keys(cols[1..][k]) !! Keys(cols[1..][l]) {
      assert cols[1..][k] == cols[k + 1] && cols[1..][l] == cols[l + 1];
    }
  }

  /** `sortBy` along a chain whose cards the index finds under their ids
      returns exactly those cards. */
  lemma OrderedIs(list: seq<Card>, order: Record, head: Id, cards: seq<Card>)
    requires Chain(order, head, Ids(cards))
    requires forall p :: 0 <= p < |cards| ==>
               cards[p].id in IndexById(list) && IndexById(list)[cards[p].id] == cards[p]
    ensures Ordered(list, order, head) == cards
  {
    var cs := Ids(cards);
    forall c | c in cs ensures c in IndexById(list) {
      var p :| 0 <= p < |cs| && cs[p] == c;
    }
    ChainCards(list, order, head, cs);
  }

  /** Re-sorting columns gives `target` when each target column differs
      from the old one only in its loaded cards, and those cards form its
      chain in `order` and are found by the index under their ids. */
  lemma ResortTo(cols: seq<Column>, list: seq<Card>, order: Record, target: seq<Column>)
    requires |target| == |cols|
    requires forall k :: 0 <= k < |cols| ==>
               target[k].cards.Some? && target[k] == cols[k].(cards := target[k].cards)
    requires forall k :: 0 <= k < |cols| ==> Circular(order, target[k].id, IdsOf(target[k]))
    requires forall k, p :: 0 <= k < |cols| && 0 <= p < |CardsOf(target[k])| ==>
               CardsOf(target[k])[p].id in IndexById(list) &&
               IndexById(list)[CardsOf(target[k])[p].id] == CardsOf(target[k])[p]
    ensures Resort(cols, list, order) == target
  {
    forall k | 0 <= k < |cols| ensures Resort(cols, list, order)[k] == target[k] {
      OrderedIs(list, order, target[k].id, CardsOf(target[k]));
    }
  }

  // ----- ids and keys after a splice ---------------------------------------

  lemma IdsRemove(cards: seq<Card>, j: nat)
    requires j < |cards|
    ensures Ids(RemoveAt(cards, j)) == RemoveAt(Ids(cards), j)
  {
  }

  lemma IdsInsert(cards: seq<Card>, m: nat, c: Card)
    requires m <= |cards|
    ensures Ids(InsertAt(cards, m, c)) == InsertAt(Ids(cards), m, c.id)
  {
  }

  lemma FootprintRemove(head: Id, cs: seq<Id>, j: nat)
    requires Distinct(cs) && j < |cs| && cs[j] != head
    ensures Footprint(head, RemoveAt(cs, j)) == Footprint(head, cs) - {cs[j]}
  {
    DistinctRemove(cs, j);
  }

  lemma FootprintInsert(head: Id, cs: seq<Id>, m: nat, x: Id)
    requires m <= |cs|
    ensures Footprint(head, InsertAt(cs, m, x)) == Footprint(head, cs) + {x}
  {
    var r := InsertAt(cs, m, x);
    assert r[m] == x;
    forall c | c in cs ensures c in r {
      var n :| 0 <= n < |cs| && cs[n] == c;
      assert r[if n < m then n else n + 1] == c;
    }
  }

  // ----- Card.Drop ----------------------------------------------------------

  /** The columns with card `j` of column `a` taken out and put at position
      `m` of another column `b`. */
  function Moved(cols: seq<Column>, a: nat, j: nat, b: nat, m: nat): (r: seq<Column>)
    requires a < |cols| && b < |cols| && a != b
    requires j < |CardsOf(cols[a])| && m <= |CardsOf(cols[b])|
    ensures |r| == |cols|
  {
    cols[a := cols[a].(cards := Some(RemoveAt(CardsOf(cols[a]), j)))]
        [b := cols[b].(cards := Some(InsertAt(CardsOf(cols[b]), m, CardsOf(cols[a])[j])))]
  }

  lemma MovedIds(cols: seq<Column>, a: nat, j: nat, b: nat, m: nat)
    requires a < |cols| && b < |cols| && a != b
    requires j < |CardsOf(cols[a])| && m <= |CardsOf(cols[b])|
    ensures var moved := Moved(cols, a, j, b, m);
            && |moved| == |cols|
            && moved[a].id == cols[a].id && moved[b].id == cols[b].id
            && IdsOf(moved[a]) == RemoveAt(IdsOf(cols[a]), j)
            && IdsOf(moved[b]) == InsertAt(IdsOf(cols[b]), m, IdsOf(cols[a])[j])
            && (forall k :: 0 <= k < |cols| && k != a && k != b ==> moved[k] == cols[k])
  {
    IdsRemove(CardsOf(cols[a]), j);
    IdsInsert(CardsOf(cols[b]), m, CardsOf(cols[a])[j]);
  }

  lemma MovedKeys(order: Record, cols: seq<Column>, a: nat, j: nat, b: nat, m: nat)
    requires Layout(order, cols)
    requires a < |cols| && b < |cols| && a != b
    requires j < |CardsOf(cols[a])| && m <= |CardsOf(cols[b])|
    ensures var moved := Moved(cols, a, j, b, m);
            var x := IdsOf(cols[a])[j];
            && Keys(moved[a]) == Keys(cols[a]) - {x}
            && Keys(moved[b]) == Keys(cols[b]) + {x}
  {
    var la, lb := IdsOf(cols[a]), IdsOf(cols[b]);
    MovedIds(cols, a, j, b, m);
    assert Chain(order, cols[a].id, la);
    FootprintRemove(cols[a].id, la, j);
    FootprintInsert(cols[b].id, lb, m, la[j]);
  }

  /** The moved board's columns still share no key. */
  lemma MovedDisjoint(order: Record, cols: seq<Column>, a: nat, j: nat, b: nat, m: nat)
    requires Layout(order, cols)
    requires a < |cols| && b < |cols| && a != b
    requires j < |CardsOf(cols[a])| && m <= |CardsOf(cols[b])|
    ensures var moved := Moved(cols, a, j, b, m);
            forall k, l :: 0 <= k < l < |cols| ==> Keys(moved[k]) !! Keys(moved[l])
  {
    var moved := Moved(cols, a, j, b, m);
    var x := IdsOf(cols[a])[j];
    MovedIds(cols, a, j, b, m);
    MovedKeys(order, cols, a, j, b, m);
    assert x in Keys(cols[a]);
    KeysStaySeparate(cols, moved, a, b, x);
  }

  /** Taking a key `x` out of column `a` and putting it in column `b`, all
      other columns unchanged, keeps the columns' keys apart. */
  lemma KeysStaySeparate(cols: seq<Column>, moved: seq<Column>, a: nat, b: nat, x: Id)
    requires a < |cols| && b < |cols| && a != b && |moved| == |cols|
    requires forall k, l :: 0 <= k < l < |cols| ==> Keys(cols[k]) !! Keys(cols[l])
    requires forall k :: 0 <= k < |cols| && k != a && k != b ==> moved[k] == cols[k]
    requires x in Keys(cols[a])
    requires Keys(moved[a]) == Keys(cols[a]) - {x} && Keys(moved[b]) == Keys(cols[b]) + {x}
    ensures forall k, l :: 0 <= k < l < |cols| ==> Keys(moved[k]) !! Keys(moved[l])
  {
    forall k, l | 0 <= k < l < |cols| ensures Keys(moved[k]) !! Keys(moved[l]) {
      assert Keys(cols[k]) !! Keys(cols[l]);
      if k == b || l == b {
        var o := if k == b then l else k;
        if o != a { assert Keys(cols[o]) !! Keys(cols[a]) by { if o < a { } else { } } }
      }
    }
  }

  /** Every card on the moved board is one the index of the old board finds
      under its id. */
  lemma MovedIndex(order: Record, cols: seq<Column>, a: nat, j: nat, b: nat, m: nat)
    requires Layout(order, cols)
    requires a < |cols| && b < |cols| && a != b
    requires j < |CardsOf(cols[a])| && m <= |CardsOf(cols[b])|
    ensures var moved := Moved(cols, a, j, b, m);
            forall k, p :: 0 <= k < |cols| && 0 <= p < |CardsOf(moved[k])| ==>
              CardsOf(moved[k])[p].id in IndexById(AllCards(cols)) &&
              IndexById(AllCards(cols))[CardsOf(moved[k])[p].id] == CardsOf(moved[k])[p]
  {
    var moved := Moved(cols, a, j, b, m);
    LayoutSeparate(order, cols);
    forall k, p | 0 <= k < |cols| && 0 <= p < |CardsOf(moved[k])|
      ensures CardsOf(moved[k])[p].id in IndexById(AllCards(cols)) &&
              IndexById(AllCards(cols))[CardsOf(moved[k])[p].id] == CardsOf(moved[k])[p]
    {
      MovedIndexAt(order, cols, a, j, b, m, k, p);
    }
  }

  lemma MovedIndexAt(order: Record, cols: seq<Column>, a: nat, j: nat, b: nat, m: nat, k: nat, p: nat)
    requires Separate(cols)
    requires a < |cols| && b < |cols| && a != b
    requires j < |CardsOf(cols[a])| && m <= |CardsOf(cols[b])|
    requires k < |cols| && p < |CardsOf(Moved(cols, a, j, b, m)[k])|
    ensures var c := CardsOf(Moved(cols, a, j, b, m)[k])[p];
            c.id in IndexById(AllCards(cols)) && IndexById(AllCards(cols))[c.id] == c
  {
    if k == a {
      IndexAll(cols, a, if p < j then p else p + 1);
    } else if k == b {
      if p < m { IndexAll(cols, b, p); }
      else if p == m { IndexAll(cols, a, j); }
      else { IndexAll(cols, b, p - 1); }
    } else {
      IndexAll(cols, k, p);
    }
  }

  /** What `Card.Drop` does once a card is being dragged onto another id:
      merge the patch, then re-sort every column over all loaded cards. */
  lemma DropStep(s: State, toId: Id)
    requires Filled(s.draggingCardId) && s.draggingCardId.value != toId
    requires s.columns.Some?
    ensures var order := Spread(s.cardsOrder, ReorderPatch(s.cardsOrder, s.draggingCardId.value, To(toId)));
            Reduce(s, Drop(toId)) ==
              s.(draggingCardId := None, cardsOrder := order,
                 columns := Some(Resort(s.columns.value, AllCards(s.columns.value), order)))
  {
  }

  /** The moved lists, in the record after the patch, for every column. */
  lemma MovedCircular(order: Record, cols: seq<Column>, a: nat, j: nat, b: nat, m: nat)
    requires Layout(order, cols)
    requires a < |cols| && b < |cols| && a != b
    requires j < |CardsOf(cols[a])| && m <= |CardsOf(cols[b])|
    ensures var toId := if m < |CardsOf(cols[b])| then IdsOf(cols[b])[m] else cols[b].id;
            var order' := Spread(order, ReorderPatch(order, IdsOf(cols[a])[j], To(toId)));
            var moved := Moved(cols, a, j, b, m);
            && WellLinked(order')
            && forall k :: 0 <= k < |cols| ==> Circular(order', moved[k].id, IdsOf(moved[k]))
  {
    var toId := if m < |CardsOf(cols[b])| then IdsOf(cols[b])[m] else cols[b].id;
    var order' := Spread(order, ReorderPatch(order, IdsOf(cols[a])[j], To(toId)));
    var moved := Moved(cols, a, j, b, m);
    MovedEnds(order, cols, a, j, b, m);
    MovedFrame(order, cols, a, j, b, m);
    MovedIds(cols, a, j, b, m);
    forall k | 0 <= k < |cols|
      ensures Circular(order', moved[k].id, IdsOf(moved[k]))
    {
      if k != a && k != b {
        assert moved[k] == cols[k];
        OtherColumnKept(order, order', cols, a, b, k);
      }
    }
    assert WellLinked(order');
  }

  /** The two columns the card moves between, after the patch. */
  lemma MovedEnds(order: Record, cols: seq<Column>, a: nat, j: nat, b: nat, m: nat)
    requires Layout(order, cols)
    requires a < |cols| && b < |cols| && a != b
    requires j < |CardsOf(cols[a])| && m <= |CardsOf(cols[b])|
    ensures var toId := if m < |CardsOf(cols[b])| then IdsOf(cols[b])[m] else cols[b].id;
            var order' := Spread(order, ReorderPatch(order, IdsOf(cols[a])[j], To(toId)));
            var moved := Moved(cols, a, j, b, m);
            && WellLinked(order')
            && Circular(order', moved[a].id, IdsOf(moved[a]))
            && Circular(order', moved[b].id, IdsOf(moved[b]))
  {
    var la, lb := IdsOf(cols[a]), IdsOf(cols[b]);
    var toId := if m < |lb| then lb[m] else cols[b].id;
    var order' := Spread(order, ReorderPatch(order, la[j], To(toId)));
    var moved := Moved(cols, a, j, b, m);
    assert Circular(order, cols[a].id, la) && Circular(order, cols[b].id, lb);
    assert Keys(cols[a]) !! Keys(cols[b]) by { if a < b { } else { } }
    MoveAcross(order, cols[a].id, la, j, cols[b].id, lb, m);
    MovedIds(cols, a, j, b, m);
    FromTo(order, order', cols[a].id, la, RemoveAt(la, j), IdsOf(moved[a]));
    FromTo(order, order', cols[b].id, lb, InsertAt(lb, m, la[j]), IdsOf(moved[b]));
  }

  /** A circular list whose new chain keeps the old end link is circular. */
  lemma FromTo(order: Record, order': Record, head: Id, cs: seq<Id>, cs': seq<Id>, ids: seq<Id>)
    requires Circular(order, head, cs)
    requires Chain(order', head, cs')
    requires End(order', head, cs') == End(order, head, cs)
    requires ids == cs'
    ensures Circular(order', head, ids)
  {
  }

  /** Keys outside the two columns keep their links. */
  lemma MovedFrame(order: Record, cols: seq<Column>, a: nat, j: nat, b: nat, m: nat)
    requires Layout(order, cols)
    requires a < |cols| && b < |cols| && a != b
    requires j < |CardsOf(cols[a])| && m <= |CardsOf(cols[b])|
    ensures var toId := if m < |CardsOf(cols[b])| then IdsOf(cols[b])[m] else cols[b].id;
            var order' := Spread(order, ReorderPatch(order, IdsOf(cols[a])[j], To(toId)));
            forall x :: x !in Keys(cols[a]) && x !in Keys(cols[b]) ==> Get(order', x) == Get(order, x)
  {
    var la, lb := IdsOf(cols[a]), IdsOf(cols[b]);
    assert Circular(order, cols[a].id, la) && Circular(order, cols[b].id, lb);
    assert Keys(cols[a]) !! Keys(cols[b]) by { if a < b { } else { } }
    MoveAcross(order, cols[a].id, la, j, cols[b].id, lb, m);
  }

  lemma OtherColumnKept(order: Record, order': Record, cols: seq<Column>, a: nat, b: nat, k: nat)
    requires Layout(order, cols)
    requires a < |cols| && b < |cols| && k < |cols| && k != a && k != b
    requires forall x :: x !in Keys(cols[a]) && x !in Keys(cols[b]) ==> Get(order', x) == Get(order, x)
    ensures Circular(order', cols[k].id, IdsOf(cols[k]))
  {
    assert Keys(cols[k]) !! Keys(cols[a]) && Keys(cols[k]) !! Keys(cols[b]) by {
      if k < a { } else { }
      if k < b { } else { }
    }
    assert Circular(order, cols[k].id, IdsOf(cols[k]));
    ChainFrame(order, order', cols[k].id, IdsOf(cols[k]));
  }

  /** The moved board changes nothing of a column but its cards, all
      loaded. */
  lemma MovedShape(order: Record, cols: seq<Column>, a: nat, j: nat, b: nat, m: nat)
    requires Layout(order, cols)
    requires a < |cols| && b < |cols| && a != b
    requires j < |CardsOf(cols[a])| && m <= |CardsOf(cols[b])|
    ensures var moved := Moved(cols, a, j, b, m);
            && |moved| == |cols|
            && forall k :: 0 <= k < |cols| ==>
                 moved[k].cards.Some? && moved[k] == cols[k].(cards := moved[k].cards)
  {
    var moved := Moved(cols, a, j, b, m);
    forall k | 0 <= k < |cols| ensures moved[k].cards.Some? && moved[k] == cols[k].(cards := moved[k].cards) {
      if k != a && k != b {
        assert moved[k] == cols[k];
      }
    }
  }

  /** Moving a card between two columns of a laid-out board: re-sorting
      after the patch gives the moved board, itself laid out. */
  lemma MoveAcrossBoard(order: Record, cols: seq<Column>, a: nat, j: nat, b: nat, m: nat)
    requires Layout(order, cols)
    requires a < |cols| && b < |cols| && a != b
    requires j < |CardsOf(cols[a])| && m <= |CardsOf(cols[b])|
    ensures var toId := if m < |CardsOf(cols[b])| then IdsOf(cols[b])[m] else cols[b].id;
            var order' := Spread(order, ReorderPatch(order, IdsOf(cols[a])[j], To(toId)));
            && Resort(cols, AllCards(cols), order') == Moved(cols, a, j, b, m)
            && Layout(order', Moved(cols, a, j, b, m))
  {
    var toId := if m < |CardsOf(cols[b])| then IdsOf(cols[b])[m] else cols[b].id;
    var order' := Spread(order, ReorderPatch(order, IdsOf(cols[a])[j], To(toId)));
    var moved := Moved(cols, a, j, b, m);
    MovedShape(order, cols, a, j, b, m);
    MovedCircular(order, cols, a, j, b, m);
    MovedIndex(order, cols, a, j, b, m);
    ResortTo(cols, AllCards(cols), order', moved);
    MovedDisjoint(order, cols, a, j, b, m);
  }

  /** Dropping card `j` of column `a` on position `m` of another column `b`
      (on the card standing there, or on the column itself when `m` is past
      its last card): the card leaves `a`, enters `b` right before the drop
      target, every other column keeps its cards, and the board stays
      coherent. */
  lemma DropAcross(s: State, a: nat, j: nat, b: nat, m: nat)
    requires Coherent(s)
    requires a < |s.columns.value| && b < |s.columns.value| && a != b
    requires j < |CardsOf(s.columns.value[a])| && m <= |CardsOf(s.columns.value[b])|
    requires s.draggingCardId == Some(IdsOf(s.columns.value[a])[j])
    ensures var cols := s.columns.value;
            var toId := if m < |CardsOf(cols[b])| then IdsOf(cols[b])[m] else cols[b].id;
            var r := Reduce(s, Drop(toId));
            && r.columns == Some(Moved(cols, a, j, b, m))
            && r.draggingCardId == None
            && r.filterValue == s.filterValue && r.deletingCardId == s.deletingCardId
            && Coherent(r)
  {
    var cols := s.columns.value;
    var lb := IdsOf(cols[b]);
    var toId := if m < |lb| then lb[m] else cols[b].id;
    var id := IdsOf(cols[a])[j];
    assert Chain(s.cardsOrder, cols[a].id, IdsOf(cols[a]));
    assert Keys(cols[a]) !! Keys(cols[b]) by { if a < b { } else { } }
    assert id in Keys(cols[a]);
    assert toId in Keys(cols[b]) by { if m < |lb| { assert lb[m] in lb; } }
    DropStep(s, toId);
    MoveAcrossBoard(s.cardsOrder, cols, a, j, b, m);
  }

  /** The columns with card `j` of column `a` taken out and put back at
      position `m` of the remaining cards. */
  function Shifted(cols: seq<Column>, a: nat, j: nat, m: nat): (r: seq<Column>)
    requires a < |cols| && j < |CardsOf(cols[a])| && m < |CardsOf(cols[a])|
    ensures |r| == |cols|
  {
    var cards := CardsOf(cols[a]);
    cols[a := cols[a].(cards := Some(InsertAt(RemoveAt(cards, j), m, cards[j])))]
  }

  /** The id a card is dropped on to land at position `m` of its own column
      once it is out: the card standing there, or the column itself. */
  function WithinTarget(col: Column, j: nat, m: nat): Id
    requires j < |CardsOf(col)| && m < |CardsOf(col)|
  {
    var rest := RemoveAt(IdsOf(col), j);
    if m < |rest| then rest[m] else col.id
  }

  lemma ShiftedIds(cols: seq<Column>, a: nat, j: nat, m: nat)
    requires a < |cols| && j < |CardsOf(cols[a])| && m < |CardsOf(cols[a])|
    ensures var shifted := Shifted(cols, a, j, m);
            && |shifted| == |cols|
            && shifted[a].id == cols[a].id
            && IdsOf(shifted[a]) == InsertAt(RemoveAt(IdsOf(cols[a]), j), m, IdsOf(cols[a])[j])
            && (forall k :: 0 <= k < |cols| && k != a ==> shifted[k] == cols[k])
  {
    var cards := CardsOf(cols[a]);
    IdsRemove(cards, j);
    IdsInsert(RemoveAt(cards, j), m, cards[j]);
  }

  /** The column keeps its keys: the same cards, in another order. */
  lemma ShiftedKeys(order: Record, cols: seq<Column>, a: nat, j: nat, m: nat)
    requires Layout(order, cols)
    requires a < |cols| && j < |CardsOf(cols[a])| && m < |CardsOf(cols[a])|
    ensures Keys(Shifted(cols, a, j, m)[a]) == Keys(cols[a])
  {
    var la := IdsOf(cols[a]);
    ShiftedIds(cols, a, j, m);
    assert Chain(order, cols[a].id, la);
    FootprintRemove(cols[a].id, la, j);
    FootprintInsert(cols[a].id, RemoveAt(la, j), m, la[j]);
  }

  lemma ShiftedIndexAt(cols: seq<Column>, a: nat, j: nat, m: nat, k: nat, p: nat)
    requires Separate(cols)
    requires a < |cols| && j < |CardsOf(cols[a])| && m < |CardsOf(cols[a])|
    requires k < |cols| && p < |CardsOf(Shifted(cols, a, j, m)[k])|
    ensures var c := CardsOf(Shifted(cols, a, j, m)[k])[p];
            c.id in IndexById(AllCards(cols)) && IndexById(AllCards(cols))[c.id] == c
  {
    if k == a {
      var q := ShiftedCard(CardsOf(cols[a]), j, m, p);
      assert CardsOf(Shifted(cols, a, j, m)[a]) == InsertAt(RemoveAt(CardsOf(cols[a]), j), m, CardsOf(cols[a])[j]);
      IndexAll(cols, a, q);
    } else {
      IndexAll(cols, k, p);
    }
  }

  /** Where the card at position `p` of a column came from, once the card
      `j` has moved to position `m`. */
  lemma ShiftedCard(cards: seq<Card>, j: nat, m: nat, p: nat) returns (q: nat)
    requires j < |cards| && m < |cards| && p < |cards|
    ensures q < |cards| && InsertAt(RemoveAt(cards, j), m, cards[j])[p] == cards[q]
  {
    var rest := RemoveAt(cards, j);
    if p == m {
      q := j;
    } else {
      var i := if p < m then p else p - 1;
      assert InsertAt(rest, m, cards[j])[p] == rest[i];
      q := if i < j then i else i + 1;
    }
  }

  lemma ShiftedIndex(order: Record, cols: seq<Column>, a: nat, j: nat, m: nat)
    requires Layout(order, cols)
    requires a < |cols| && j < |CardsOf(cols[a])| && m < |CardsOf(cols[a])|
    ensures var shifted := Shifted(cols, a, j, m);
            forall k, p :: 0 <= k < |cols| && 0 <= p < |CardsOf(shifted[k])| ==>
              CardsOf(shifted[k])[p].id in IndexById(AllCards(cols)) &&
              IndexById(AllCards(cols))[CardsOf(shifted[k])[p].id] == CardsOf(shifted[k])[p]
  {
    var shifted := Shifted(cols, a, j, m);
    LayoutSeparate(order, cols);
    forall k, p | 0 <= k < |cols| && 0 <= p < |CardsOf(shifted[k])|
      ensures CardsOf(shifted[k])[p].id in IndexById(AllCards(cols)) &&
              IndexById(AllCards(cols))[CardsOf(shifted[k])[p].id] == CardsOf(shifted[k])[p]
    {
      ShiftedIndexAt(cols, a, j, m, k, p);
    }
  }

  /** The shifted board's columns still share no key. */
  lemma ShiftedDisjoint(order: Record, cols: seq<Column>, a: nat, j: nat, m: nat)
    requires Layout(order, cols)
    requires a < |cols| && j < |CardsOf(cols[a])| && m < |CardsOf(cols[a])|
    ensures var shifted := Shifted(cols, a, j, m);
            forall k, l :: 0 <= k < l < |cols| ==> Keys(shifted[k]) !! Keys(shifted[l])
  {
    var shifted := Shifted(cols, a, j, m);
    ShiftedIds(cols, a, j, m);
    ShiftedKeys(order, cols, a, j, m);
    forall k, l | 0 <= k < l < |cols| ensures Keys(shifted[k]) !! Keys(shifted[l]) {
      assert Keys(cols[k]) !! Keys(cols[l]);
    }
  }

  /** The shifted board changes nothing of a column but its cards, all
      loaded. */
  lemma ShiftedShape(order: Record, cols: seq<Column>, a: nat, j: nat, m: nat)
    requires Layout(order, cols)
    requires a < |cols| && j < |CardsOf(cols[a])| && m < |CardsOf(cols[a])|
    ensures var shifted := Shifted(cols, a, j, m);
            && |shifted| == |cols|
            && forall k :: 0 <= k < |cols| ==>
                 shifted[k].cards.Some? && shifted[k] == cols[k].(cards := shifted[k].cards)
  {
  }

  /** The shifted list and the untouched others, in the record after the
      patch. */
  lemma ShiftedCircular(order: Record, cols: seq<Column>, a: nat, j: nat, m: nat)
    requires Layout(order, cols)
    requires a < |cols| && j < |CardsOf(cols[a])| && m < |CardsOf(cols[a])|
    ensures var order' := Spread(order, ReorderPatch(order, IdsOf(cols[a])[j], To(WithinTarget(cols[a], j, m))));
            var shifted := Shifted(cols, a, j, m);
            && WellLinked(order')
            && forall k :: 0 <= k < |cols| ==> Circular(order', shifted[k].id, IdsOf(shifted[k]))
  {
    var la := IdsOf(cols[a]);
    var order' := Spread(order, ReorderPatch(order, la[j], To(WithinTarget(cols[a], j, m))));
    var shifted := Shifted(cols, a, j, m);
    assert Circular(order, cols[a].id, la);
    MoveWithin(order, cols[a].id, la, j, m);
    ShiftedIds(cols, a, j, m);
    FromTo(order, order', cols[a].id, la, InsertAt(RemoveAt(la, j), m, la[j]), IdsOf(shifted[a]));
    forall k | 0 <= k < |cols|
      ensures Circular(order', shifted[k].id, IdsOf(shifted[k]))
    {
      if k != a {
        assert shifted[k] == cols[k];
        OtherColumnKept(order, order', cols, a, a, k);
      }
    }
  }

  /** Moving a card within its column on a laid-out board: re-sorting after
      the patch gives the shifted board, itself laid out. */
  lemma MoveWithinBoard(order: Record, cols: seq<Column>, a: nat, j: nat, m: nat)
    requires Layout(order, cols)
    requires a < |cols| && j < |CardsOf(cols[a])| && m < |CardsOf(cols[a])|
    ensures var order' := Spread(order, ReorderPatch(order, IdsOf(cols[a])[j], To(WithinTarget(cols[a], j, m))));
            && Resort(cols, AllCards(cols), order') == Shifted(cols, a, j, m)
            && Layout(order', Shifted(cols, a, j, m))
  {
    var order' := Spread(order, ReorderPatch(order, IdsOf(cols[a])[j], To(WithinTarget(cols[a], j, m))));
    var shifted := Shifted(cols, a, j, m);
    ShiftedShape(order, cols, a, j, m);
    ShiftedCircular(order, cols, a, j, m);
    ShiftedIndex(order, cols, a, j, m);
    ResortTo(cols, AllCards(cols), order', shifted);
    ShiftedDisjoint(order, cols, a, j, m);
  }

  /** The drop target is never the dragged card itself. */
  lemma WithinTargetOther(order: Record, cols: seq<Column>, a: nat, j: nat, m: nat)
    requires Layout(order, cols)
    requires a < |cols| && j < |CardsOf(cols[a])| && m < |CardsOf(cols[a])|
    ensures IdsOf(cols[a])[j] != WithinTarget(cols[a], j, m)
  {
    var la := IdsOf(cols[a]);
    assert Chain(order, cols[a].id, la);
    if m < |la| - 1 { assert RemoveAt(la, j)[m] == la[if m < j then m else m + 1]; }
  }

  /** Dropping a card on the id right after it changes nothing: the patch
      is empty and the shifted board is the board. */
  lemma ShiftedInPlace(order: Record, cols: seq<Column>, a: nat, j: nat)
    requires Layout(order, cols)
    requires a < |cols| && j < |CardsOf(cols[a])|
    ensures Spread(order, ReorderPatch(order, IdsOf(cols[a])[j], To(WithinTarget(cols[a], j, j)))) == order
    ensures Shifted(cols, a, j, j) == cols
  {
    var la := IdsOf(cols[a]);
    var cards := CardsOf(cols[a]);
    assert Circular(order, cols[a].id, la);
    assert Get(order, la[j]) == Get(order, Prev(cols[a].id, la, j + 1));
    assert InPlace(order, la[j], To(WithinTarget(cols[a], j, j)));
    assert InsertAt(RemoveAt(cards, j), j, cards[j]) == cards;
    assert Spread(order, Empty) == order;
  }

  /** Dropping card `j` of column `a` back on its own column, so that it
      lands at position `m` of the other cards: the column holds the same
      cards with that one moved, every other column is kept, and the board
      stays coherent. Dropping it where it already stands changes nothing
      but the dragging state. */
  lemma DropWithin(s: State, a: nat, j: nat, m: nat)
    requires Coherent(s)
    requires a < |s.columns.value|
    requires j < |CardsOf(s.columns.value[a])| && m < |CardsOf(s.columns.value[a])|
    requires s.draggingCardId == Some(IdsOf(s.columns.value[a])[j])
    ensures var cols := s.columns.value;
            var r := Reduce(s, Drop(WithinTarget(cols[a], j, m)));
            && r.columns == Some(Shifted(cols, a, j, m))
            && r.draggingCardId == None
            && r.filterValue == s.filterValue && r.deletingCardId == s.deletingCardId
            && (m == j ==> r == s.(draggingCardId := None))
            && Coherent(r)
  {
    var cols := s.columns.value;
    var toId := WithinTarget(cols[a], j, m);
    WithinTargetOther(s.cardsOrder, cols, a, j, m);
    DropStep(s, toId);
    MoveWithinBoard(s.cardsOrder, cols, a, j, m);
    if m == j {
      ShiftedInPlace(s.cardsOrder, cols, a, j);
    }
  }

  // ----- Card.ConfirmDelete -------------------------------------------------

  /** `filter` drops exactly the one card with the id, when no other card
      has it. */
  lemma {:induction false} FilterOutAt(cards: seq<Card>, j: nat)
    requires j < |cards|
    requires forall i :: 0 <= i < |cards| && i != j ==> cards[i].id != cards[j].id
    ensures FilterOut(cards, cards[j].id) == RemoveAt(cards, j)
  {
    if j == 0 {
      FilterOutFirst(cards);
    } else {
      var tail := cards[1..];
      assert tail[j - 1] == cards[j];
      assert forall i :: 0 <= i < |tail| && i != j - 1 ==> tail[i].id != tail[j - 1].id by {
        forall i | 0 <= i < |tail| && i != j - 1 ensures tail[i].id != tail[j - 1].id {
          assert tail[i] == cards[i + 1];
        }
      }
      FilterOutAt(tail, j - 1);
      FilterOutCons(cards, cards[j].id);
      RemoveAtCons(cards, j);
    }
  }

  lemma FilterOutCons(cards: seq<Card>, x: Id)
    requires |cards| > 0 && cards[0].id != x
    ensures FilterOut(cards, x) == [cards[0]] + FilterOut(cards[1..], x)
  {
  }

  lemma RemoveAtCons<T>(s: seq<T>, j: nat)
    requires 0 < j < |s|
    ensures RemoveAt(s, j) == [s[0]] + RemoveAt(s[1..], j - 1)
  {
    assert s[..j] == [s[0]] + s[1..][..j - 1];
    assert s[j + 1..] == s[1..][j..];
  }

  lemma FilterOutFirst(cards: seq<Card>)
    requires |cards| > 0
    requires forall i :: 0 < i < |cards| ==> cards[i].id != cards[0].id
    ensures FilterOut(cards, cards[0].id) == cards[1..]
  {
    var tail := cards[1..];
    assert !Contains(tail, cards[0].id) by {
      forall i | 0 <= i < |tail| ensures tail[i].id != cards[0].id {
        assert tail[i] == cards[i + 1];
      }
    }
  }

  /** The columns with card `j` of column `a` taken out. */
  function Deleted(cols: seq<Column>, a: nat, j: nat): (r: seq<Column>)
    requires a < |cols| && j < |CardsOf(cols[a])|
    ensures |r| == |cols|
  {
    cols[a := cols[a].(cards := Some(RemoveAt(CardsOf(cols[a]), j)))]
  }

  /** On separate columns, the card's own column is the first that holds
      it. */
  lemma HolderIs(order: Record, cols: seq<Column>, a: nat, j: nat)
    requires Layout(order, cols)
    requires a < |cols| && j < |CardsOf(cols[a])|
    ensures FindHolder(cols, IdsOf(cols[a])[j]) == Some(a)
  {
    var x := IdsOf(cols[a])[j];
    assert CardsOf(cols[a])[j].id == x;
    assert Holds(cols[a], x);
    forall i | 0 <= i < |cols| && i != a ensures !Holds(cols[i], x) {
      NotHeldElsewhere(order, cols, a, j, i);
    }
  }

  /** A card's id is no card of another column. */
  lemma NotHeldElsewhere(order: Record, cols: seq<Column>, a: nat, j: nat, i: nat)
    requires Layout(order, cols)
    requires a < |cols| && j < |CardsOf(cols[a])| && i < |cols| && i != a
    ensures !Holds(cols[i], IdsOf(cols[a])[j])
  {
    var x := IdsOf(cols[a])[j];
    assert x in Keys(cols[a]);
    assert Keys(cols[i]) !! Keys(cols[a]) by { if i < a { } else { } }
    forall q | 0 <= q < |CardsOf(cols[i])| ensures CardsOf(cols[i])[q].id != x {
      assert CardsOf(cols[i])[q].id == IdsOf(cols[i])[q];
      assert IdsOf(cols[i])[q] in Keys(cols[i]);
    }
  }

  /** What `Card.ConfirmDelete` does once the holder is found. */
  lemma DeleteUnfold(s: State, a: nat)
    requires Filled(s.deletingCardId) && s.columns.Some?
    requires FindHolder(s.columns.value, s.deletingCardId.value) == Some(a)
    ensures var cols, x := s.columns.value, s.deletingCardId.value;
            Reduce(s, ConfirmDelete) ==
              s.(deletingCardId := None,
                 columns := Some(cols[a := cols[a].(cards := Some(FilterOut(cols[a].cards.value, x)))]),
                 cardsOrder := Spread(s.cardsOrder, ReorderPatch(s.cardsOrder, x)))
  {
    var holder := if s.columns.Some? then FindHolder(s.columns.value, s.deletingCardId.value) else None;
    assert holder == Some(a);
  }

  /** What `Card.ConfirmDelete` does to the card `j` of column `a`. */
  lemma DeleteStep(s: State, a: nat, j: nat)
    requires Coherent(s)
    requires a < |s.columns.value| && j < |CardsOf(s.columns.value[a])|
    requires s.deletingCardId == Some(IdsOf(s.columns.value[a])[j])
    ensures var cols := s.columns.value;
            var x := IdsOf(cols[a])[j];
            Reduce(s, ConfirmDelete) ==
              s.(deletingCardId := None, columns := Some(Deleted(cols, a, j)),
                 cardsOrder := Spread(s.cardsOrder, ReorderPatch(s.cardsOrder, x)))
  {
    var cols := s.columns.value;
    var cards := CardsOf(cols[a]);
    var la := IdsOf(cols[a]);
    assert la[j] != "" by {
      assert Chain(s.cardsOrder, cols[a].id, la);
    }
    HolderIs(s.cardsOrder, cols, a, j);
    DistinctCards(s.cardsOrder, cols, a, j);
    FilterOutAt(cards, j);
    DeleteUnfold(s, a);
  }

  lemma DistinctCards(order: Record, cols: seq<Column>, a: nat, j: nat)
    requires Layout(order, cols)
    requires a < |cols| && j < |CardsOf(cols[a])|
    ensures var cards := CardsOf(cols[a]);
            forall i :: 0 <= i < |cards| && i != j ==> cards[i].id != cards[j].id
  {
    var cards := CardsOf(cols[a]);
    var la := IdsOf(cols[a]);
    assert Chain(order, cols[a].id, la);
    forall i | 0 <= i < |cards| && i != j ensures cards[i].id != cards[j].id {
      assert cards[i].id == la[i] && cards[j].id == la[j];
    }
  }

  /** After the delete patch the board without the card is laid out, and
      the card links to `null`. */
  lemma DeletedLayout(order: Record, cols: seq<Column>, a: nat, j: nat)
    requires Layout(order, cols)
    requires a < |cols| && j < |CardsOf(cols[a])|
    ensures var x := IdsOf(cols[a])[j];
            var order' := Spread(order, ReorderPatch(order, x));
            && Layout(order', Deleted(cols, a, j))
            && Get(order', x) == Null
  {
    DeletedCircular(order, cols, a, j);
    DeletedDisjoint(order, cols, a, j);
  }

  lemma DeletedCircular(order: Record, cols: seq<Column>, a: nat, j: nat)
    requires Layout(order, cols)
    requires a < |cols| && j < |CardsOf(cols[a])|
    ensures var x := IdsOf(cols[a])[j];
            var order' := Spread(order, ReorderPatch(order, x));
            var deleted := Deleted(cols, a, j);
            && WellLinked(order')
            && Get(order', x) == Null
            && |deleted| == |cols|
            && (forall k :: 0 <= k < |cols| ==> deleted[k].cards.Some?)
            && (forall k :: 0 <= k < |cols| ==> Circular(order', deleted[k].id, IdsOf(deleted[k])))
  {
    var x := IdsOf(cols[a])[j];
    var order' := Spread(order, ReorderPatch(order, x));
    var deleted := Deleted(cols, a, j);
    DeletedEnds(order, cols, a, j);
    forall k | 0 <= k < |cols|
      ensures deleted[k].cards.Some? && Circular(order', deleted[k].id, IdsOf(deleted[k]))
    {
      if k != a {
        assert deleted[k] == cols[k];
        OtherColumnKept(order, order', cols, a, a, k);
      }
    }
  }

  /** The column the card leaves, after the delete patch. */
  lemma DeletedEnds(order: Record, cols: seq<Column>, a: nat, j: nat)
    requires Layout(order, cols)
    requires a < |cols| && j < |CardsOf(cols[a])|
    ensures var x := IdsOf(cols[a])[j];
            var order' := Spread(order, ReorderPatch(order, x));
            var deleted := Deleted(cols, a, j);
            && WellLinked(order')
            && Get(order', x) == Null
            && Circular(order', deleted[a].id, IdsOf(deleted[a]))
            && (forall k :: k !in Keys(cols[a]) ==> Get(order', k) == Get(order, k))
  {
    var la := IdsOf(cols[a]);
    var x := la[j];
    var order' := Spread(order, ReorderPatch(order, x));
    var deleted := Deleted(cols, a, j);
    assert Circular(order, cols[a].id, la);
    assert Get(order, x) != Null by {
      assert Get(order, x) == Get(order, Prev(cols[a].id, la, j + 1));
    }
    Unlink(order, cols[a].id, la, j);
    IdsRemove(CardsOf(cols[a]), j);
    FromTo(order, order', cols[a].id, la, RemoveAt(la, j), IdsOf(deleted[a]));
  }

  lemma DeletedDisjoint(order: Record, cols: seq<Column>, a: nat, j: nat)
    requires Layout(order, cols)
    requires a < |cols| && j < |CardsOf(cols[a])|
    ensures var deleted := Deleted(cols, a, j);
            forall k, l :: 0 <= k < l < |cols| ==> Keys(deleted[k]) !! Keys(deleted[l])
  {
    var la := IdsOf(cols[a]);
    var deleted := Deleted(cols, a, j);
    assert Chain(order, cols[a].id, la);
    IdsRemove(CardsOf(cols[a]), j);
    FootprintRemove(cols[a].id, la, j);
    assert Keys(deleted[a]) <= Keys(cols[a]);
    forall k, l | 0 <= k < l < |cols| ensures Keys(deleted[k]) !! Keys(deleted[l]) {
      assert Keys(cols[k]) !! Keys(cols[l]);
    }
  }

  /** Confirming the delete of card `j` of column `a`: the card leaves its
      column and the chain (it now links to `null`), no other column
      changes, and the board stays coherent. */
  lemma ConfirmDeleteCard(s: State, a: nat, j: nat)
    requires Coherent(s)
    requires a < |s.columns.value| && j < |CardsOf(s.columns.value[a])|
    requires s.deletingCardId == Some(IdsOf(s.columns.value[a])[j])
    ensures var cols := s.columns.value;
            var r := Reduce(s, ConfirmDelete);
            && r.columns == Some(Deleted(cols, a, j))
            && r.deletingCardId == None
            && r.filterValue == s.filterValue && r.draggingCardId == s.draggingCardId
            && Get(r.cardsOrder, IdsOf(cols[a])[j]) == Null
            && Coherent(r)
  {
    DeleteStep(s, a, j);
    DeletedLayout(s.cardsOrder, s.columns.value, a, j);
  }

  // ----- Column.ConfirmInput ------------------------------------------------

  /** An id no column uses as a key and no key links to: what a freshly
      generated card id is on a laid-out board. */
  ghost predicate Fresh(order: Record, cols: seq<Column>, x: Id) {
    && x != ""
    && (forall k :: 0 <= k < |cols| ==> x !in Keys(cols[k]))
    && (forall k :: Get(order, k) != To(x))
  }

  /** On a laid-out board column ids are distinct, so `find` by id finds
      the column itself. */
  lemma ColumnIs(order: Record, cols: seq<Column>, a: nat)
    requires Layout(order, cols)
    requires a < |cols|
    ensures FindColumn(cols, cols[a].id) == Some(a)
  {
    forall i | 0 <= i < |cols| && i != a ensures cols[i].id != cols[a].id {
      assert cols[a].id in Keys(cols[a]) && cols[i].id in Keys(cols[i]);
      assert Keys(cols[i]) !! Keys(cols[a]) by { if i < a { } else { } }
    }
  }

  /** The columns after card `x` is added in front of column `a`. */
  function Pushed(cols: seq<Column>, a: nat, x: Id): (r: seq<Column>)
    requires a < |cols|
    ensures |r| == |cols|
  {
    cols[a := Prepend(cols[a], x)]
  }

  /** What `Column.ConfirmInput` does on column `a`. */
  lemma InputStep(s: State, a: nat, x: Id)
    requires Coherent(s)
    requires a < |s.columns.value|
    ensures var cols := s.columns.value;
            Reduce(s, ConfirmInput(cols[a].id, x)) ==
              s.(columns := Some(Pushed(cols, a, x)),
                 cardsOrder := Spread(s.cardsOrder, ReorderPatch(s.cardsOrder, x, Get(s.cardsOrder, cols[a].id))))
  {
    ColumnIs(s.cardsOrder, s.columns.value, a);
    InputUnfold(s, a, s.columns.value[a].id, x);
  }

  lemma InputUnfold(s: State, a: nat, columnId: Id, x: Id)
    requires s.columns.Some? && FindColumn(s.columns.value, columnId) == Some(a)
    ensures var cols, order := s.columns.value, s.cardsOrder;
            Reduce(s, ConfirmInput(columnId, x)) ==
              s.(columns := Some(cols[a := Prepend(cols[a], x)]),
                 cardsOrder := Spread(s.cardsOrder, ReorderPatch(s.cardsOrder, x, Get(s.cardsOrder, columnId))))
  {
    var found := if s.columns.Some? then FindColumn(s.columns.value, columnId) else None;
    assert found == Some(a);
    var r := Reduce(s, ConfirmInput(columnId, x));
    assert r.columns == Some(s.columns.value[a := Prepend(s.columns.value[a], x)]);
    assert r.cardsOrder == Spread(s.cardsOrder, ReorderPatch(s.cardsOrder, x, Get(s.cardsOrder, columnId)));
  }

  lemma PushedIds(cols: seq<Column>, a: nat, x: Id)
    requires a < |cols| && cols[a].cards.Some?
    ensures Pushed(cols, a, x)[a].id == cols[a].id
    ensures IdsOf(Pushed(cols, a, x)[a]) == [x] + IdsOf(cols[a])
  {
  }

  /** The column the card is added to, after the patch. */
  lemma PushedEnds(order: Record, cols: seq<Column>, a: nat, x: Id)
    requires Layout(order, cols)
    requires a < |cols| && Fresh(order, cols, x)
    ensures var order' := Spread(order, ReorderPatch(order, x, Get(order, cols[a].id)));
            var pushed := Pushed(cols, a, x);
            && WellLinked(order')
            && Circular(order', pushed[a].id, IdsOf(pushed[a]))
            && (forall k :: k !in Keys(cols[a]) && k != x ==> Get(order', k) == Get(order, k))
  {
    var la := IdsOf(cols[a]);
    var order' := Spread(order, ReorderPatch(order, x, Get(order, cols[a].id)));
    var pushed := Pushed(cols, a, x);
    assert Circular(order, cols[a].id, la);
    HeadTruthy(order, cols[a].id, la);
    PushFront(order, cols[a].id, la, x);
    PushedIds(cols, a, x);
    FromTo(order, order', cols[a].id, la, [x] + la, IdsOf(pushed[a]));
  }

  /** A circular column's head holds a truthy link: its first card, or
      itself. */
  lemma HeadTruthy(order: Record, head: Id, cs: seq<Id>)
    requires Circular(order, head, cs)
    ensures Truthy(Get(order, head))
  {
    assert Get(order, Prev(head, cs, 0)) == if |cs| > 0 then To(cs[0]) else To(head);
  }

  lemma PushedCircular(order: Record, cols: seq<Column>, a: nat, x: Id)
    requires Layout(order, cols)
    requires a < |cols| && Fresh(order, cols, x)
    ensures var order' := Spread(order, ReorderPatch(order, x, Get(order, cols[a].id)));
            var pushed := Pushed(cols, a, x);
            && WellLinked(order')
            && |pushed| == |cols|
            && (forall k :: 0 <= k < |cols| ==> pushed[k].cards.Some?)
            && (forall k :: 0 <= k < |cols| ==> Circular(order', pushed[k].id, IdsOf(pushed[k])))
  {
    var order' := Spread(order, ReorderPatch(order, x, Get(order, cols[a].id)));
    var pushed := Pushed(cols, a, x);
    PushedEnds(order, cols, a, x);
    forall k | 0 <= k < |cols| ensures Circular(order', pushed[k].id, IdsOf(pushed[k])) {
      if k != a {
        assert pushed[k] == cols[k];
        assert Keys(cols[k]) !! Keys(cols[a]) by { if k < a { } else { } }
        assert Circular(order, cols[k].id, IdsOf(cols[k]));
        assert x !in Keys(cols[k]);
        ChainFrame(order, order', cols[k].id, IdsOf(cols[k]));
      }
    }
  }

  lemma PushedDisjoint(order: Record, cols: seq<Column>, a: nat, x: Id)
    requires Layout(order, cols)
    requires a < |cols| && Fresh(order, cols, x)
    ensures var pushed := Pushed(cols, a, x);
            forall k, l :: 0 <= k < l < |cols| ==> Keys(pushed[k]) !! Keys(pushed[l])
  {
    var pushed := Pushed(cols, a, x);
    var la := IdsOf(cols[a]);
    assert IdsOf(pushed[a]) == [x] + la;
    assert InsertAt(la, 0, x) == [x] + la;
    FootprintInsert(cols[a].id, la, 0, x);
    assert Keys(pushed[a]) == Keys(cols[a]) + {x};
    assert forall k :: 0 <= k < |cols| && k != a ==> pushed[k] == cols[k];
    FreshKeySeparate(cols, pushed, a, x);
  }

  /** Adding a key `x` no column holds to column `a`, all other columns
      unchanged, keeps the columns' keys apart. */
  lemma FreshKeySeparate(cols: seq<Column>, pushed: seq<Column>, a: nat, x: Id)
    requires a < |cols| && |pushed| == |cols|
    requires forall k, l :: 0 <= k < l < |cols| ==> Keys(cols[k]) !! Keys(cols[l])
    requires forall k :: 0 <= k < |cols| && k != a ==> pushed[k] == cols[k]
    requires forall k :: 0 <= k < |cols| ==> x !in Keys(cols[k])
    requires Keys(pushed[a]) == Keys(cols[a]) + {x}
    ensures forall k, l :: 0 <= k < l < |cols| ==> Keys(pushed[k]) !! Keys(pushed[l])
  {
    forall k, l | 0 <= k < l < |cols| ensures Keys(pushed[k]) !! Keys(pushed[l]) {
      assert Keys(cols[k]) !! Keys(cols[l]);
      assert x !in Keys(cols[k]) && x !in Keys(cols[l]);
    }
  }

  /** Confirming the input of column `a` with a fresh card id `x`: the card,
      carrying the column's draft text, becomes the column's first card, the
      draft is cleared, no other column changes, and the board stays
      coherent. */
  lemma ConfirmInputFresh(s: State, a: nat, x: Id)
    requires Coherent(s)
    requires a < |s.columns.value|
    requires Fresh(s.cardsOrder, s.columns.value, x)
    ensures var cols := s.columns.value;
            var r := Reduce(s, ConfirmInput(cols[a].id, x));
            && r.columns == Some(cols[a := cols[a].(cards := Some([Card(x, cols[a].text)] + CardsOf(cols[a])),
                                                     text := Some(""))])
            && r.filterValue == s.filterValue
            && r.deletingCardId == s.deletingCardId && r.draggingCardId == s.draggingCardId
            && Coherent(r)
  {
    InputStep(s, a, x);
    PushedCircular(s.cardsOrder, s.columns.value, a, x);
    PushedDisjoint(s.cardsOrder, s.columns.value, a, x);
  }

  // ----- Card.SetCards ------------------------------------------------------

  /** The cards an index holds under the ids `cs`, in that order. */
  function Lookup(index: map<Id, Card>, cs: seq<Id>): (r: seq<Card>)
    requires forall c :: c in cs ==> c in index
    ensures |r| == |cs| && forall p :: 0 <= p < |cs| ==> r[p] == index[cs[p]]
  {
    seq(|cs|, p requires 0 <= p < |cs| => index[cs[p]])
  }

  /** One column loaded from a circular list `chain` of loaded cards. */
  lemma LoadedColumn(cards: seq<Card>, order: Record, col: Column, chain: seq<Id>)
    requires Circular(order, col.id, chain)
    requires forall c :: c in chain ==> c in IndexById(cards)
    ensures Ordered(cards, order, col.id) == Lookup(IndexById(cards), chain)
    ensures IdsOf(col.(cards := Some(Lookup(IndexById(cards), chain)))) == chain
  {
    ChainCards(cards, order, col.id, chain);
  }

  /** The loaded columns are laid out along `order`. */
  lemma LoadedLayout(order: Record, cols: seq<Column>, cards: seq<Card>, chains: seq<seq<Id>>)
    requires |chains| == |cols|
    requires WellLinked(order)
    requires forall k :: 0 <= k < |chains| ==> Circular(order, cols[k].id, chains[k])
    requires forall k, c :: 0 <= k < |chains| && c in chains[k] ==> c in IndexById(cards)
    requires forall k, l :: 0 <= k < l < |chains| ==> Footprint(cols[k].id, chains[k]) !! Footprint(cols[l].id, chains[l])
    requires forall k :: 0 <= k < |cols| ==> IdsOf(Loaded(cols, cards, chains)[k]) == chains[k]
    ensures Layout(order, Loaded(cols, cards, chains))
  {
    var loaded := Loaded(cols, cards, chains);
    forall k | 0 <= k < |cols| ensures loaded[k].id == cols[k].id && Keys(loaded[k]) == Footprint(cols[k].id, chains[k]) {
    }
  }

  /** The board after loading `cards` and `order` whose column lists are
      `chains`. */
  ghost function Loaded(cols: seq<Column>, cards: seq<Card>, chains: seq<seq<Id>>): (r: seq<Column>)
    requires |chains| == |cols|
    requires forall k, c :: 0 <= k < |chains| && c in chains[k] ==> c in IndexById(cards)
    ensures |r| == |cols|
  {
    seq(|cols|, k requires 0 <= k < |cols| => cols[k].(cards := Some(Lookup(IndexById(cards), chains[k]))))
  }

  /** Loading the cards: when `order` stores every column `k` as a circular
      list through the ids `chains[k]`, each of them the id of a loaded card,
      with no key shared between columns and no link held twice, each column
      gets exactly the cards of its list, in list order, and the board is
      coherent. */
  lemma SetCardsLoads(s: State, cards: seq<Card>, order: Record, chains: seq<seq<Id>>)
    requires s.columns.Some? && |chains| == |s.columns.value|
    requires WellLinked(order)
    requires forall k :: 0 <= k < |chains| ==> Circular(order, s.columns.value[k].id, chains[k])
    requires forall k, c :: 0 <= k < |chains| && c in chains[k] ==> c in IndexById(cards)
    requires forall k, l :: 0 <= k < l < |chains| ==>
               Footprint(s.columns.value[k].id, chains[k]) !! Footprint(s.columns.value[l].id, chains[l])
    ensures var r := Reduce(s, SetCards(cards, order));
            && r.cardsOrder == order
            && r.columns == Some(Loaded(s.columns.value, cards, chains))
            && (forall k :: 0 <= k < |chains| ==> IdsOf(r.columns.value[k]) == chains[k])
            && Coherent(r)
  {
    var cols := s.columns.value;
    var loaded := Loaded(cols, cards, chains);
    forall k | 0 <= k < |cols|
      ensures Ordered(cards, order, cols[k].id) == Lookup(IndexById(cards), chains[k])
      ensures IdsOf(loaded[k]) == chains[k]
    {
      LoadedColumn(cards, order, cols[k], chains[k]);
    }
    assert Resort(cols, cards, order) == loaded;
    LoadedLayout(order, cols, cards, chains);
  }

  // ----- a card added and then deleted --------------------------------------

  lemma DeletingStep(s: State, x: Id)
    ensures Reduce(s, SetDeletingCard(x)) == s.(deletingCardId := Some(x))
  {
  }

  /** The card just pushed is the column's first, and removing it gives
      back the column's cards. */
  lemma PushedFirst(cols: seq<Column>, a: nat, x: Id)
    requires a < |cols| && cols[a].cards.Some?
    ensures var pushed := Pushed(cols, a, x);
            && |CardsOf(pushed[a])| > 0 && IdsOf(pushed[a])[0] == x
            && Deleted(pushed, a, 0) == cols[a := cols[a].(text := Some(""))]
  {
    var pushed := Pushed(cols, a, x);
    assert CardsOf(pushed[a]) == [Card(x, cols[a].text)] + CardsOf(cols[a]);
    assert RemoveAt(CardsOf(pushed[a]), 0) == CardsOf(cols[a]);
  }

  /** Adding a fresh card to column `a`, asking to delete it and confirming
      gives back the board as it was, with the column's input emptied, and
      leaves `cardsOrder` as it was except for the card's own entry, which is
      now `null`. */
  lemma InsertDeleteRoundTrip(s: State, a: nat, x: Id)
    requires Coherent(s)
    requires a < |s.columns.value|
    requires Fresh(s.cardsOrder, s.columns.value, x)
    ensures var cols := s.columns.value;
            var s1 := Reduce(s, ConfirmInput(cols[a].id, x));
            var s3 := Reduce(Reduce(s1, SetDeletingCard(x)), ConfirmDelete);
            && s3.columns == Some(cols[a := cols[a].(text := Some(""))])
            && s3.deletingCardId == None
            && s3.filterValue == s.filterValue && s3.draggingCardId == s.draggingCardId
            && (forall k :: k != x ==> Get(s3.cardsOrder, k) == Get(s.cardsOrder, k))
            && Get(s3.cardsOrder, x) == Null
            && Coherent(s3)
  {
    var cols, o := s.columns.value, s.cardsOrder;
    var h := cols[a].id;
    var s1 := Reduce(s, ConfirmInput(h, x));
    InputStep(s, a, x);
    ConfirmInputFresh(s, a, x);
    assert Circular(o, h, IdsOf(cols[a]));
    HeadTruthy(o, h, IdsOf(cols[a]));
    assert h in Keys(cols[a]);
    PushThenUnlink(o, h, x);

    var s2 := Reduce(s1, SetDeletingCard(x));
    DeletingStep(s1, x);
    PushedFirst(cols, a, x);
    DeleteStep(s2, a, 0);
    ConfirmDeleteCard(s2, a, 0);
  }
}
