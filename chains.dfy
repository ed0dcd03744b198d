/** Well-formed columns in the card-order record and what `ReorderPatch` does
    to them. A column with head `h` and cards `[c1, ..., ck]` is stored as
    `h -> c1 -> ... -> ck -> end`, where `end` is the column id again (a
    circular list) or a falsy link. */
module Chains {
  import opened Objects
  import opened Util

  predicate Distinct(s: seq<Id>) {
    forall i, j :: 0 <= i < j < |s| ==> s[i] != s[j]
  }

  /** The key whose link leads to position `i` of the column: the head for
      the first card, otherwise the card before. `Prev(h, cs, |cs|)` is the
      key holding the end link. */
  function Prev(head: Id, cs: seq<Id>, i: nat): Id
    requires i <= |cs|
  {
    if i == 0 then head else cs[i - 1]
  }

  /** The keys a column's list is stored under. */
  ghost function Footprint(head: Id, cs: seq<Id>): set<Id> {
    {head} + set c | c in cs
  }

  /** The link stored under the column's last key: the last card's, or the
      head's when the column is empty. */
  function End(order: Record, head: Id, cs: seq<Id>): Link {
    Get(order, Prev(head, cs, |cs|))
  }

  /** A link at which `sortBy` stops: falsy, or back at the head. */
  predicate Ends(l: Link, head: Id) {
    !Truthy(l) || l == To(head)
  }

  /** `order` stores the column `head` with the card ids `cs`, in order. */
  ghost predicate Chain(order: Record, head: Id, cs: seq<Id>) {
    && head != ""
    && (forall i :: 0 <= i < |cs| ==> cs[i] != "" && cs[i] != head)
    && Distinct(cs)
    && (forall i {:trigger Prev(head, cs, i)} :: 0 <= i < |cs| ==> Get(order, Prev(head, cs, i)) == To(cs[i]))
    && Ends(End(order, head, cs), head)
  }

  /** A chain whose last link leads back to the column id (for an empty
      column: the column id links to itself). */
  ghost predicate Circular(order: Record, head: Id, cs: seq<Id>) {
    Chain(order, head, cs) && End(order, head, cs) == To(head)
  }

  /** No two keys hold the same truthy link, and the key "" holds no truthy
      link: every id has at most one predecessor, so `Find` finds it. */
  ghost predicate WellLinked(order: Record) {
    && order.Valid()
    && (forall k1, k2 :: Truthy(Get(order, k1)) && Get(order, k1) == Get(order, k2) ==> k1 == k2)
    && !Truthy(Get(order, ""))
  }

  function RemoveAt<T>(s: seq<T>, j: nat): (r: seq<T>)
    requires j < |s|
    ensures |r| == |s| - 1
    ensures forall i :: 0 <= i < |r| ==> r[i] == if i < j then s[i] else s[i + 1]
  {
    s[..j] + s[j + 1..]
  }

  function InsertAt<T>(s: seq<T>, m: nat, x: T): (r: seq<T>)
    requires m <= |s|
    ensures |r| == |s| + 1
    ensures forall i :: 0 <= i < |r| ==> r[i] == if i < m then s[i] else if i == m then x else s[i - 1]
  {
    s[..m] + [x] + s[m..]
  }

  /** The cards `Walk` collects along the ids `cs`: those `index` knows. */
  ghost function Present(index: map<Id, Card>, cs: seq<Id>): (r: seq<Card>)
    ensures |r| <= |cs|
  {
    if cs == [] then []
    else (if cs[0] in index then [index[cs[0]]] else []) + Present(index, cs[1..])
  }

  /** When `index` knows every id, nothing is skipped. */
  lemma {:induction false} PresentAll(index: map<Id, Card>, cs: seq<Id>)
    requires forall c :: c in cs ==> c in index
    ensures |Present(index, cs)| == |cs|
    ensures forall i :: 0 <= i < |cs| ==> Present(index, cs)[i] == index[cs[i]]
  {
    if cs != [] {
      assert forall c :: c in cs[1..] ==> c in cs;
      PresentAll(index, cs[1..]);
      assert Present(index, cs) == [index[cs[0]]] + Present(index, cs[1..]);
    }
  }

  // ----- predecessors ------------------------------------------------------

  /** In a well-linked record the key `Find` returns for an id is its one
      predecessor. */
  lemma FindPredecessor(order: Record, k: Id, x: Id)
    requires WellLinked(order)
    requires Get(order, k) == To(x) && x != ""
    ensures Find(order, To(x)) == Some(k)
  {
    assert k in order.keys;
    assert Matches(order, k, To(x));
  }

  /** The record after spreading `ReorderPatch(order, id, toId)`, key by key:
      `id` links to the destination, its old predecessor to its old
      successor, the destination's old predecessor to `id`. */
  lemma PatchEffect(order: Record, id: Id, toId: Link)
    requires WellLinked(order)
    requires id != ""
    ensures var to := Target(toId);
            var merged := Spread(order, ReorderPatch(order, id, toId));
            && (InPlace(order, id, to) ==> forall k :: Get(merged, k) == Get(order, k))
            && (!InPlace(order, id, to) ==>
                  forall k :: Get(merged, k) ==
                    if k == id then to
                    else if Get(order, k) == To(id) then Get(order, id)
                    else if Truthy(to) && Get(order, k) == to then To(id)
                    else Get(order, k))
  {
    var to := Target(toId);
    var patch := ReorderPatch(order, id, toId);
    var merged := Spread(order, patch);
    if InPlace(order, id, to) {
      assert patch == Empty;
    } else {
      forall k ensures Get(merged, k) ==
                    if k == id then to
                    else if Get(order, k) == To(id) then Get(order, id)
                    else if Truthy(to) && Get(order, k) == to then To(id)
                    else Get(order, k)
      {
        PatchEffectAt(order, id, toId, k);
      }
    }
  }

  lemma PatchEffectAt(order: Record, id: Id, toId: Link, k: Id)
    requires WellLinked(order)
    requires id != ""
    requires !InPlace(order, id, Target(toId))
    ensures var to := Target(toId);
            Get(Spread(order, ReorderPatch(order, id, toId)), k) ==
              if k == id then to
              else if Get(order, k) == To(id) then Get(order, id)
              else if Truthy(to) && Get(order, k) == to then To(id)
              else Get(order, k)
  {
    var to := Target(toId);
    if k != id {
      if Get(order, k) == To(id) {
        FindPredecessor(order, k, id);
      } else if Truthy(to) && Get(order, k) == to {
        FindPredecessor(order, k, to.id);
      } else {
        PatchElsewhere(order, id, toId, k);
      }
    }
  }

  /** A key that is neither `id` nor a predecessor of `id` or of the
      destination is not in the patch. */
  lemma PatchElsewhere(order: Record, id: Id, toId: Link, k: Id)
    requires !InPlace(order, id, Target(toId))
    requires k != id && Get(order, k) != To(id)
    requires !(Truthy(Target(toId)) && Get(order, k) == Target(toId))
    ensures k !in ReorderPatch(order, id, toId).entries
  {
    assert !Matches(order, k, To(id)) && !Matches(order, k, Target(toId));
  }

  /** Every patch spread into a well-linked record leaves it well-linked: the
      three links it writes are the three it takes away, reshuffled. */
  lemma PatchKeepsWellLinked(order: Record, id: Id, toId: Link)
    requires WellLinked(order)
    requires id != ""
    ensures WellLinked(Spread(order, ReorderPatch(order, id, toId)))
  {
    var to := Target(toId);
    var merged := Spread(order, ReorderPatch(order, id, toId));
    SpreadValid(order, ReorderPatch(order, id, toId));
    PatchEffect(order, id, toId);
    if !InPlace(order, id, to) {
      forall k1, k2 | Truthy(Get(merged, k1)) && Get(merged, k1) == Get(merged, k2)
        ensures k1 == k2
      {
        var d1, d2 := k1 != id && Get(order, k1) == To(id), k2 != id && Get(order, k2) == To(id);
        var r1 := k1 != id && !d1 && Truthy(to) && Get(order, k1) == to;
        var r2 := k2 != id && !d2 && Truthy(to) && Get(order, k2) == to;
        if (d1 && d2) || (r1 && r2) {
        }
      }
    }
  }

  // ----- positions in a chain --------------------------------------------

  /** Different positions of a chain have different predecessor keys. */
  lemma PrevDistinct(order: Record, head: Id, cs: seq<Id>, a: nat, b: nat)
    requires Chain(order, head, cs)
    requires a <= |cs| && b <= |cs| && a != b
    ensures Prev(head, cs, a) != Prev(head, cs, b)
  {
  }

  lemma PrevInFootprint(head: Id, cs: seq<Id>, i: nat)
    requires i <= |cs|
    ensures Prev(head, cs, i) in Footprint(head, cs)
  {
    if i > 0 { assert cs[i - 1] in cs; }
  }

  /** A chain only depends on the links stored under its footprint. */
  lemma ChainFrame(order: Record, order': Record, head: Id, cs: seq<Id>)
    requires Chain(order, head, cs)
    requires forall k :: k in Footprint(head, cs) ==> Get(order', k) == Get(order, k)
    ensures Chain(order', head, cs)
    ensures End(order', head, cs) == End(order, head, cs)
  {
    forall i | 0 <= i <= |cs| ensures Get(order', Prev(head, cs, i)) == Get(order, Prev(head, cs, i)) {
      PrevInFootprint(head, cs, i);
    }
  }

  /** Unlinking position `j`: its predecessor takes over its link, nothing
      else of the footprint changes. The end link is kept. */
  lemma ChainRemove(order: Record, order': Record, head: Id, cs: seq<Id>, j: nat)
    requires Chain(order, head, cs)
    requires j < |cs|
    requires Get(order', Prev(head, cs, j)) == Get(order, cs[j])
    requires forall k :: k in Footprint(head, cs) && k != cs[j] && k != Prev(head, cs, j) ==>
               Get(order', k) == Get(order, k)
    ensures Chain(order', head, RemoveAt(cs, j))
    ensures End(order', head, RemoveAt(cs, j)) == End(order, head, cs)
  {
    var r := RemoveAt(cs, j);
    forall i | 0 <= i <= |r|
      ensures Get(order', Prev(head, r, i)) == Get(order, Prev(head, cs, if i < j then i else i + 1))
    {
      RemoveLink(order, order', head, cs, j, i);
    }
    DistinctRemove(cs, j);
  }

  lemma RemoveLink(order: Record, order': Record, head: Id, cs: seq<Id>, j: nat, i: nat)
    requires Chain(order, head, cs)
    requires j < |cs| && i < |cs|
    requires Get(order', Prev(head, cs, j)) == Get(order, cs[j])
    requires forall k :: k in Footprint(head, cs) && k != cs[j] && k != Prev(head, cs, j) ==>
               Get(order', k) == Get(order, k)
    ensures Get(order', Prev(head, RemoveAt(cs, j), i)) == Get(order, Prev(head, cs, if i < j then i else i + 1))
  {
    var r := RemoveAt(cs, j);
    if i < j {
      assert Prev(head, r, i) == Prev(head, cs, i);
      PrevInFootprint(head, cs, i);
      PrevDistinct(order, head, cs, i, j);
    } else if i == j {
      assert Prev(head, r, i) == Prev(head, cs, j);
    } else {
      assert Prev(head, r, i) == cs[i] == Prev(head, cs, i + 1);
      PrevInFootprint(head, cs, i + 1);
    }
  }

  /** Linking `x` in at position `m`: the key before position `m` now links
      to `x`, and `x` takes over that key's old link. */
  lemma ChainInsert(order: Record, order': Record, head: Id, cs: seq<Id>, m: nat, x: Id)
    requires Chain(order, head, cs)
    requires m <= |cs|
    requires x != "" && x !in Footprint(head, cs)
    requires Get(order', Prev(head, cs, m)) == To(x)
    requires Get(order', x) == Get(order, Prev(head, cs, m))
    requires forall k :: k in Footprint(head, cs) && k != Prev(head, cs, m) ==>
               Get(order', k) == Get(order, k)
    ensures Chain(order', head, InsertAt(cs, m, x))
    ensures End(order', head, InsertAt(cs, m, x)) == End(order, head, cs)
  {
    var r := InsertAt(cs, m, x);
    DistinctInsert(cs, m, x);
    forall i | 0 <= i <= |r|
      ensures Get(order', Prev(head, r, i)) == if i < |r| then To(r[i]) else End(order, head, cs)
    {
      InsertLink(order, order', head, cs, m, x, i);
    }
    ChainOfLinks(order', head, r, End(order, head, cs));
  }

  /** A list of distinct card ids, none empty or the head, each reached by
      the link before it and the last followed by an ending link, is a
      chain. */
  lemma ChainOfLinks(order: Record, head: Id, cs: seq<Id>, e: Link)
    requires head != "" && Ends(e, head) && Distinct(cs)
    requires forall i :: 0 <= i < |cs| ==> cs[i] != "" && cs[i] != head
    requires forall i :: 0 <= i <= |cs| ==>
               Get(order, Prev(head, cs, i)) == if i < |cs| then To(cs[i]) else e
    ensures Chain(order, head, cs) && End(order, head, cs) == e
  {
    assert Get(order, Prev(head, cs, |cs|)) == e;
  }

  lemma InsertLink(order: Record, order': Record, head: Id, cs: seq<Id>, m: nat, x: Id, i: nat)
    requires Chain(order, head, cs)
    requires m <= |cs| && i <= |cs| + 1
    requires x !in Footprint(head, cs)
    requires Get(order', Prev(head, cs, m)) == To(x)
    requires Get(order', x) == Get(order, Prev(head, cs, m))
    requires forall k :: k in Footprint(head, cs) && k != Prev(head, cs, m) ==>
               Get(order', k) == Get(order, k)
    ensures var r := InsertAt(cs, m, x);
            Get(order', Prev(head, r, i)) ==
              if i < |r| then To(r[i]) else End(order, head, cs)
  {
    var r := InsertAt(cs, m, x);
    if i < m {
      assert Prev(head, r, i) == Prev(head, cs, i);
      PrevInFootprint(head, cs, i);
      PrevDistinct(order, head, cs, i, m);
    } else if i == m {
      assert Prev(head, r, i) == Prev(head, cs, m);
    } else if i == m + 1 {
      assert Prev(head, r, i) == x;
    } else {
      assert Prev(head, r, i) == cs[i - 2] == Prev(head, cs, i - 1);
      PrevInFootprint(head, cs, i - 1);
      PrevDistinct(order, head, cs, i - 1, m);
    }
  }

  lemma DistinctRemove(cs: seq<Id>, j: nat)
    requires Distinct(cs) && j < |cs|
    ensures Distinct(RemoveAt(cs, j))
    ensures forall c :: c in RemoveAt(cs, j) <==> c in cs && c != cs[j]
  {
    var r := RemoveAt(cs, j);
    forall i, i' | 0 <= i < i' < |r| ensures r[i] != r[i'] {
      var a := if i < j then i else i + 1;
      var b := if i' < j then i' else i' + 1;
      assert r[i] == cs[a] && r[i'] == cs[b] && a < b;
    }
    forall c | c in cs && c != cs[j] ensures c in r {
      var n :| 0 <= n < |cs| && cs[n] == c;
      assert r[if n < j then n else n - 1] == c;
    }
  }

  lemma DistinctInsert(cs: seq<Id>, m: nat, x: Id)
    requires Distinct(cs) && m <= |cs| && x !in cs
    ensures Distinct(InsertAt(cs, m, x))
    ensures forall c :: c in InsertAt(cs, m, x) <==> c in cs || c == x
  {
    var r := InsertAt(cs, m, x);
    forall i, i' | 0 <= i < i' < |r| ensures r[i] != r[i'] {
      if i != m && i' != m {
        var a := if i < m then i else i - 1;
        var b := if i' < m then i' else i' - 1;
        assert r[i] == cs[a] && r[i'] == cs[b] && a < b;
      } else if i == m {
        assert r[i'] == cs[i' - 1];
      } else {
        assert r[i] == cs[i];
      }
    }
    assert r[m] == x;
    forall c | c in cs ensures c in r {
      var n :| 0 <= n < |cs| && cs[n] == c;
      assert r[if n < m then n else n + 1] == c;
    }
  }

  // ----- what sortBy returns on a chain ------------------------------------

  lemma {:induction false} WalkChain(index: map<Id, Card>, order: Record, head: Id, cs: seq<Id>,
                                     i: nat, fuel: nat)
    requires Chain(order, head, cs)
    requires i <= |cs| && |cs| - i <= fuel
    ensures Walk(index, order, head, Get(order, Prev(head, cs, i)), fuel) == Present(index, cs[i..])
    decreases |cs| - i
  {
    if i < |cs| {
      var c := cs[i];
      assert Get(order, Prev(head, cs, i)) == To(c);
      assert c != "" && c != head;
      WalkChain(index, order, head, cs, i + 1, fuel - 1);
      assert Prev(head, cs, i + 1) == c;
      assert cs[i..][0] == c && cs[i..][1..] == cs[i + 1..];
      var w, p := Walk(index, order, head, Get(order, c), fuel - 1), Present(index, cs[i + 1..]);
      if c in index {
        assert Walk(index, order, head, To(c), fuel) == [index[c]] + w;
        assert Present(index, cs[i..]) == [index[c]] + p;
      } else {
        assert Walk(index, order, head, To(c), fuel) == w;
        assert Present(index, cs[i..]) == p;
      }
    } else {
      assert Ends(End(order, head, cs), head);
      assert Walk(index, order, head, End(order, head, cs), fuel) == [];
      assert Present(index, cs[i..]) == [];
    }
  }

  /** `sortBy` on a chain no longer than `list` returns the cards of `list`
      along the chain, in chain order: ids with no card are skipped and the
      walk goes on past them. */
  lemma ChainOrdered(list: seq<Card>, order: Record, head: Id, cs: seq<Id>)
    requires Chain(order, head, cs)
    requires |cs| <= |list|
    ensures Ordered(list, order, head) == Present(IndexById(list), cs)
  {
    WalkChain(IndexById(list), order, head, cs, 0, |list|);
  }

  lemma {:induction false} DistinctCard(cs: seq<Id>)
    requires Distinct(cs)
    ensures |set c | c in cs| == |cs|
  {
    if cs != [] {
      DistinctCard(cs[1..]);
      assert (set c | c in cs) == {cs[0]} + set c | c in cs[1..];
    }
  }

  lemma {:induction false} IndexCard(list: seq<Card>)
    ensures |IndexById(list).Keys| <= |list|
  {
    if list != [] {
      IndexCard(list[..|list| - 1]);
      assert IndexById(list).Keys == IndexById(list[..|list| - 1]).Keys + {list[|list| - 1].id};
    }
  }

  lemma SubsetCard(a: set<Id>, b: set<Id>)
    requires a <= b
    ensures |a| <= |b|
  {
    if a != {} {
      var x :| x in a;
      SubsetCard(a - {x}, b - {x});
    }
  }

  /** A chain whose every id names a card of `list` is no longer than `list`,
      so `sortBy` returns exactly its cards, in order. */
  lemma ChainCards(list: seq<Card>, order: Record, head: Id, cs: seq<Id>)
    requires Chain(order, head, cs)
    requires forall c :: c in cs ==> c in IndexById(list)
    ensures var r := Ordered(list, order, head);
            |r| == |cs| && forall i :: 0 <= i < |cs| ==> r[i] == IndexById(list)[cs[i]] && r[i].id == cs[i]
  {
    DistinctCard(cs);
    IndexCard(list);
    SubsetCard((set c | c in cs), IndexById(list).Keys);
    ChainOrdered(list, order, head, cs);
    PresentAll(IndexById(list), cs);
  }

  // ----- the moves the board makes ----------------------------------------

  /** The card ids of a list of cards. */
  function Ids(cards: seq<Card>): (ids: seq<Id>)
    ensures |ids| == |cards| && forall i :: 0 <= i < |cards| ==> ids[i] == cards[i].id
  {
    seq(|cards|, i requires 0 <= i < |cards| => cards[i].id)
  }

  /** The patch moving `id` in front of `t`, key by key, once the
      predecessors `dk` of `id` and `ik` of `t` are known. */
  lemma SpliceEffect(order: Record, id: Id, t: Id, dk: Id, ik: Id)
    requires WellLinked(order)
    requires id != "" && t != ""
    requires Get(order, dk) == To(id) && Get(order, ik) == To(t)
    requires !InPlace(order, id, To(t))
    ensures forall k :: Get(Spread(order, ReorderPatch(order, id, To(t))), k) ==
              if k == id then To(t)
              else if k == dk then Get(order, id)
              else if k == ik then To(id)
              else Get(order, k)
  {
    PatchEffect(order, id, To(t));
  }

  /** Moving card `la[j]` of column `a` in front of position `m` of another
      column `b` (in front of `lb[m]`, or in front of the column id `b`,
      that is to its end, when `m == |lb|`): `a` loses the card, `b` gains it
      right before the destination, no other key changes. */
  lemma MoveAcross(order: Record, a: Id, la: seq<Id>, j: nat, b: Id, lb: seq<Id>, m: nat)
    requires WellLinked(order)
    requires Chain(order, a, la) && Chain(order, b, lb)
    requires Footprint(a, la) !! Footprint(b, lb)
    requires j < |la| && m <= |lb|
    requires m == |lb| ==> Circular(order, b, lb)
    ensures var to := if m < |lb| then lb[m] else b;
            var order' := Spread(order, ReorderPatch(order, la[j], To(to)));
            && Chain(order', a, RemoveAt(la, j))
            && Chain(order', b, InsertAt(lb, m, la[j]))
            && End(order', a, RemoveAt(la, j)) == End(order, a, la)
            && End(order', b, InsertAt(lb, m, la[j])) == End(order, b, lb)
            && (forall k :: k !in Footprint(a, la) && k !in Footprint(b, lb) ==> Get(order', k) == Get(order, k))
            && WellLinked(order')
  {
    var id := la[j];
    var t := if m < |lb| then lb[m] else b;
    var order' := Spread(order, ReorderPatch(order, id, To(t)));
    var dk, ik := Prev(a, la, j), Prev(b, lb, m);
    assert id in Footprint(a, la);
    assert t in Footprint(b, lb) by { if m < |lb| { assert lb[m] in lb; } }
    PrevInFootprint(a, la, j);
    PrevInFootprint(b, lb, m);
    assert Get(order, ik) == To(t);
    assert Get(order, id) != To(t) by {
      assert Get(order, id) == Get(order, Prev(a, la, j + 1));
      if j + 1 < |la| { assert la[j + 1] in Footprint(a, la); }
    }
    SpliceEffect(order, id, t, dk, ik);
    SpliceAcross(order, order', a, la, j, b, lb, m, t);
    PatchKeepsWellLinked(order, id, To(t));
  }

  /** The chain part of `MoveAcross`, from the key-by-key effect of the
      patch. */
  lemma SpliceAcross(order: Record, order': Record, a: Id, la: seq<Id>, j: nat, b: Id, lb: seq<Id>, m: nat, t: Id)
    requires Chain(order, a, la) && Chain(order, b, lb)
    requires Footprint(a, la) !! Footprint(b, lb)
    requires j < |la| && m <= |lb|
    requires Get(order, Prev(b, lb, m)) == To(t)
    requires forall k :: Get(order', k) ==
               if k == la[j] then To(t)
               else if k == Prev(a, la, j) then Get(order, la[j])
               else if k == Prev(b, lb, m) then To(la[j])
               else Get(order, k)
    ensures Chain(order', a, RemoveAt(la, j))
    ensures Chain(order', b, InsertAt(lb, m, la[j]))
    ensures End(order', a, RemoveAt(la, j)) == End(order, a, la)
    ensures End(order', b, InsertAt(lb, m, la[j])) == End(order, b, lb)
    ensures forall k :: k !in Footprint(a, la) && k !in Footprint(b, lb) ==> Get(order', k) == Get(order, k)
  {
    var id, dk, ik := la[j], Prev(a, la, j), Prev(b, lb, m);
    assert id in Footprint(a, la);
    PrevInFootprint(a, la, j);
    PrevInFootprint(b, lb, m);
    ChainRemove(order, order', a, la, j);
    ChainInsert(order, order', b, lb, m, id);
    forall k | k !in Footprint(a, la) && k !in Footprint(b, lb) ensures Get(order', k) == Get(order, k) {
      assert k != id && k != dk && k != ik;
    }
  }

  /** Moving card `la[j]` within its own column: with `rest` the column
      without it, the card ends up right before `rest[m]` (or at the end when
      `m == |rest|`). When it already stands there the patch is empty. */
  lemma MoveWithin(order: Record, a: Id, la: seq<Id>, j: nat, m: nat)
    requires WellLinked(order)
    requires Chain(order, a, la)
    requires j < |la| && m < |la|
    requires m == |la| - 1 ==> Circular(order, a, la)
    ensures var rest := RemoveAt(la, j);
            var to := if m < |rest| then rest[m] else a;
            var order' := Spread(order, ReorderPatch(order, la[j], To(to)));
            && Chain(order', a, InsertAt(rest, m, la[j]))
            && End(order', a, InsertAt(rest, m, la[j])) == End(order, a, la)
            && (forall k :: k !in Footprint(a, la) ==> Get(order', k) == Get(order, k))
            && WellLinked(order')
  {
    var id := la[j];
    var rest := RemoveAt(la, j);
    var t := if m < |rest| then rest[m] else a;
    var order' := Spread(order, ReorderPatch(order, id, To(t)));
    PatchKeepsWellLinked(order, id, To(t));
    if m == j {
      MoveInPlace(order, a, la, j);
      ChainFrame(order, order', a, la);
    } else {
      MoveElsewhere(order, a, la, j, m);
    }
  }

  lemma MoveInPlace(order: Record, a: Id, la: seq<Id>, j: nat)
    requires WellLinked(order)
    requires Chain(order, a, la)
    requires j < |la|
    requires j == |la| - 1 ==> Circular(order, a, la)
    ensures var rest := RemoveAt(la, j);
            var to := if j < |rest| then rest[j] else a;
            var order' := Spread(order, ReorderPatch(order, la[j], To(to)));
            && InsertAt(rest, j, la[j]) == la
            && (forall k :: Get(order', k) == Get(order, k))
  {
    var id := la[j];
    var rest := RemoveAt(la, j);
    var t := if j < |rest| then rest[j] else a;
    assert Get(order, id) == Get(order, Prev(a, la, j + 1));
    assert InPlace(order, id, To(t));
    assert InsertAt(rest, j, id) == la;
    PatchEffect(order, id, To(t));
  }

  lemma MoveElsewhere(order: Record, a: Id, la: seq<Id>, j: nat, m: nat)
    requires WellLinked(order)
    requires Chain(order, a, la)
    requires j < |la| && m < |la| && m != j
    requires m == |la| - 1 ==> Circular(order, a, la)
    ensures var rest := RemoveAt(la, j);
            var to := if m < |rest| then rest[m] else a;
            var order' := Spread(order, ReorderPatch(order, la[j], To(to)));
            && Chain(order', a, InsertAt(rest, m, la[j]))
            && End(order', a, InsertAt(rest, m, la[j])) == End(order, a, la)
            && (forall k :: k !in Footprint(a, la) ==> Get(order', k) == Get(order, k))
  {
    var id := la[j];
    var rest := RemoveAt(la, j);
    var t := if m < |rest| then rest[m] else a;
    var order' := Spread(order, ReorderPatch(order, id, To(t)));
    var dk, q := Prev(a, la, j), Prev(a, rest, m);
    ElsewhereKeys(order, a, la, j, m);
    SpliceEffect(order, id, t, dk, q);
    SpliceWithin(order, order', a, la, j, m, t);
  }

  /** The keys `MoveElsewhere` splices at: `q`, the key before the
      destination once `la[j]` is out, is not the key before `la[j]`, and the
      move is not in place. */
  lemma ElsewhereKeys(order: Record, a: Id, la: seq<Id>, j: nat, m: nat)
    requires Chain(order, a, la)
    requires j < |la| && m < |la| && m != j
    requires m == |la| - 1 ==> Circular(order, a, la)
    ensures var rest := RemoveAt(la, j);
            var t := if m < |rest| then rest[m] else a;
            && Prev(a, rest, m) != Prev(a, la, j)
            && Get(order, Prev(a, rest, m)) == To(t)
            && Get(order, Prev(a, la, j)) == To(la[j])
            && t != la[j] && t != "" && la[j] != ""
            && !InPlace(order, la[j], To(t))
  {
    var id := la[j];
    var rest := RemoveAt(la, j);
    var t := if m < |rest| then rest[m] else a;
    var dk, q := Prev(a, la, j), Prev(a, rest, m);
    var mq := if m < j then m else m + 1;
    assert q == Prev(a, la, mq) by {
      if m > 0 { assert rest[m - 1] == la[mq - 1]; }
    }
    PrevDistinct(order, a, la, mq, j);
    assert Get(order, q) == To(t) by {
      if m < |rest| { assert t == la[mq]; }
    }
    assert Get(order, id) == Get(order, Prev(a, la, j + 1));
    assert t != id && t != "" by {
      if m < |rest| { assert t == la[mq]; }
    }
    assert Get(order, id) != To(t) by {
      if j + 1 < |la| && m < |rest| { assert la[j + 1] != la[mq]; }
    }
  }

  /** The chain part of `MoveElsewhere`, from the key-by-key effect of the
      patch: through an intermediate record with `id` taken out. */
  lemma SpliceWithin(order: Record, order': Record, a: Id, la: seq<Id>, j: nat, m: nat, t: Id)
    requires Chain(order, a, la)
    requires j < |la| && m < |la| && m != j
    requires t == if m < |la| - 1 then RemoveAt(la, j)[m] else a
    requires m == |la| - 1 ==> Circular(order, a, la)
    requires Prev(a, RemoveAt(la, j), m) != Prev(a, la, j)
    requires forall k :: Get(order', k) ==
               if k == la[j] then To(t)
               else if k == Prev(a, la, j) then Get(order, la[j])
               else if k == Prev(a, RemoveAt(la, j), m) then To(la[j])
               else Get(order, k)
    ensures Chain(order', a, InsertAt(RemoveAt(la, j), m, la[j]))
    ensures End(order', a, InsertAt(RemoveAt(la, j), m, la[j])) == End(order, a, la)
    ensures forall k :: k !in Footprint(a, la) ==> Get(order', k) == Get(order, k)
  {
    var id := la[j];
    var rest := RemoveAt(la, j);
    DistinctRemove(la, j);
    var dk, q := Prev(a, la, j), Prev(a, rest, m);
    PrevInFootprint(a, la, j);
    var o1 := Record(order.keys, order.entries[dk := Get(order, id)]);
    assert forall k :: Get(o1, k) == if k == dk then Get(order, id) else Get(order, k);
    ChainRemove(order, o1, a, la, j);
    PrevInFootprint(a, rest, m);
    assert Footprint(a, rest) <= Footprint(a, la);
    assert id !in Footprint(a, rest);
    assert Get(o1, q) == To(t);
    assert Get(order', q) == To(id) && Get(order', id) == Get(o1, q);
    ChainInsert(o1, order', a, rest, m, id);
    forall k | k !in Footprint(a, la) ensures Get(order', k) == Get(order, k) {
      assert k != id && k != dk && k != q;
    }
  }

  /** Deleting card `la[j]` (the patch without destination): the column
      loses the card, which now links to `null`. The source's guard makes
      this patch empty when the card already links to `null`, so that case
      is excluded here. */
  lemma Unlink(order: Record, a: Id, la: seq<Id>, j: nat)
    requires WellLinked(order)
    requires Chain(order, a, la)
    requires j < |la| && Get(order, la[j]) != Null
    ensures var order' := Spread(order, ReorderPatch(order, la[j]));
            && Chain(order', a, RemoveAt(la, j))
            && End(order', a, RemoveAt(la, j)) == End(order, a, la)
            && Get(order', la[j]) == Null
            && (forall k :: k !in Footprint(a, la) ==> Get(order', k) == Get(order, k))
            && WellLinked(order')
  {
    var id := la[j];
    var order' := Spread(order, ReorderPatch(order, id));
    PrevInFootprint(a, la, j);
    assert la[j] in Footprint(a, la);
    assert !InPlace(order, id, Null);
    PatchEffect(order, id, Null);
    ChainRemove(order, order', a, la, j);
    PatchKeepsWellLinked(order, id, Null);
  }

  /** Adding a fresh card `x` in front of `order[a]`, the column's first
      card (or the column id itself for an empty circular column): the card
      becomes the column's first. */
  lemma PushFront(order: Record, a: Id, la: seq<Id>, x: Id)
    requires WellLinked(order)
    requires Chain(order, a, la)
    requires Truthy(Get(order, a))
    requires x != "" && x !in Footprint(a, la)
    requires forall k :: Get(order, k) != To(x)
    ensures var order' := Spread(order, ReorderPatch(order, x, Get(order, a)));
            && Chain(order', a, [x] + la)
            && End(order', a, [x] + la) == End(order, a, la)
            && (forall k :: k !in Footprint(a, la) && k != x ==> Get(order', k) == Get(order, k))
            && WellLinked(order')
  {
    var to := Get(order, a);
    var order' := Spread(order, ReorderPatch(order, x, to));
    assert Prev(a, la, 0) == a;
    assert to == To(if |la| > 0 then la[0] else a);
    if |la| > 0 { assert la[0] in Footprint(a, la); }
    PushEffect(order, a, x);
    PushLinks(order, order', a, la, x);
    PatchKeepsWellLinked(order, x, to);
  }

  /** The patch adding `x` in front of the column's first link, key by key. */
  lemma PushEffect(order: Record, a: Id, x: Id)
    requires WellLinked(order)
    requires x != "" && Truthy(Get(order, a))
    requires !InPlace(order, x, Get(order, a))
    requires forall k :: Get(order, k) != To(x)
    ensures forall k :: Get(Spread(order, ReorderPatch(order, x, Get(order, a))), k) ==
              if k == x then Get(order, a) else if k == a then To(x) else Get(order, k)
  {
    PatchEffect(order, x, Get(order, a));
  }

  lemma PushLinks(order: Record, order': Record, a: Id, la: seq<Id>, x: Id)
    requires Chain(order, a, la)
    requires x != "" && x !in Footprint(a, la)
    requires forall k :: Get(order', k) == if k == x then Get(order, a) else if k == a then To(x) else Get(order, k)
    ensures Chain(order', a, [x] + la)
    ensures End(order', a, [x] + la) == End(order, a, la)
    ensures forall k :: k !in Footprint(a, la) && k != x ==> Get(order', k) == Get(order, k)
  {
    assert Prev(a, la, 0) == a;
    ChainInsert(order, order', a, la, 0, x);
    assert InsertAt(la, 0, x) == [x] + la;
  }

  /** Pushing a fresh card in front of a column and then unlinking it gives
      back every entry but the card's own, which is left `null`. */
  lemma PushThenUnlink(order: Record, a: Id, x: Id)
    requires WellLinked(order)
    requires x != "" && x != a && Truthy(Get(order, a))
    requires forall k :: Get(order, k) != To(x)
    ensures var o1 := Spread(order, ReorderPatch(order, x, Get(order, a)));
            var o2 := Spread(o1, ReorderPatch(o1, x));
            && (forall k :: k != x ==> Get(o2, k) == Get(order, k))
            && Get(o2, x) == Null
  {
    var o1 := Spread(order, ReorderPatch(order, x, Get(order, a)));
    assert Get(order, x) != Get(order, a);
    PushEffect(order, a, x);
    PatchKeepsWellLinked(order, x, Get(order, a));
    assert Get(o1, x) == Get(order, a);
    PatchEffect(o1, x, Null);
    var o2 := Spread(o1, ReorderPatch(o1, x));
    forall k | k != x ensures Get(o2, k) == Get(order, k) {
      if k != a {
        assert Get(o1, k) == Get(order, k) && Get(order, k) != To(x);
      }
    }
  }

  /** Adding a card to a column whose entry is `null`, missing or otherwise
      falsy: the column's entry is not relinked, so the walk from the column
      still finds nothing, whatever the cards. Only the new card's own entry
      may change. */
  lemma PushFrontUnlinked(order: Record, a: Id, x: Id)
    requires !Truthy(Get(order, a))
    requires x != a
    requires forall k :: Get(order, k) != To(x)
    ensures var order' := Spread(order, ReorderPatch(order, x, Get(order, a)));
            && (forall k :: k != x ==> Get(order', k) == Get(order, k))
            && forall list :: Ordered(list, order', a) == []
  {
    var patch := ReorderPatch(order, x, Get(order, a));
    assert Find(order, To(x)) == None;
    assert !Truthy(Target(Get(order, a)));
    assert Find(order, Target(Get(order, a))) == None;
  }
}
