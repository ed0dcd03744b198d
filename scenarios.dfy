/** The reducer's own test cases, stated on the model: the same starting
    states, the same actions and the expected next states. */
module Scenarios {
  import opened Objects
  import opened Util
  import opened Reducer

  /** Two columns, `A` holding `1, 2` and `B` holding `3`, stored as
      circular lists. */
  const TwoColumns: Record :=
    Record(["A", "1", "2", "B", "3"],
           map["A" := To("1"), "1" := To("2"), "2" := To("A"), "B" := To("3"), "3" := To("B")])

  function Plain(id: Id): Card {
    Card(id, None)
  }

  /** Two columns with their cards loaded. */
  function Loaded(textA: Option<string>): seq<Column> {
    [Column("A", None, textA, Some([Plain("1"), Plain("2")])),
     Column("B", None, None, Some([Plain("3")]))]
  }

  lemma SetFilterReplaces()
    ensures var prev := Initial.(filterValue := "hello");
            Reduce(prev, SetFilter("welcome")) == Initial.(filterValue := "welcome")
  {
  }

  /** The cards of the load, in the order the server lists them. */
  const Unsorted: seq<Card> := [Plain("3"), Plain("2"), Plain("1")]

  lemma UnsortedIndex()
    ensures IndexById(Unsorted) == map["3" := Plain("3"), "2" := Plain("2"), "1" := Plain("1")]
  {
    var l1, l2 := [Plain("3")], [Plain("3"), Plain("2")];
    assert l1[..0] == [] && l2[..1] == l1 && Unsorted[..2] == l2;
    assert IndexById(l1) == map["3" := Plain("3")];
    assert IndexById(l2) == map["3" := Plain("3"), "2" := Plain("2")];
  }

  lemma SortedA()
    ensures Ordered(Unsorted, TwoColumns, "A") == [Plain("1"), Plain("2")]
  {
    UnsortedIndex();
    var index := IndexById(Unsorted);
    assert Get(TwoColumns, "A") == To("1") && Get(TwoColumns, "1") == To("2") && Get(TwoColumns, "2") == To("A");
    assert Walk(index, TwoColumns, "A", To("A"), 1) == [];
    assert Walk(index, TwoColumns, "A", To("2"), 2) == [Plain("2")] + [];
    assert Walk(index, TwoColumns, "A", To("1"), 3) == [Plain("1"), Plain("2")];
  }

  lemma SortedB()
    ensures Ordered(Unsorted, TwoColumns, "B") == [Plain("3")]
  {
    UnsortedIndex();
    var index := IndexById(Unsorted);
    assert Walk(index, TwoColumns, "B", To("B"), 2) == [];
    assert Walk(index, TwoColumns, "B", To("3"), 3) == [Plain("3")];
  }

  /** Loading cards given in any order sorts each column along the record. */
  lemma SetCardsSorts()
    ensures var prev := Initial.(columns := Some([Column("A", None, None, None), Column("B", None, None, None)]));
            var next := Reduce(prev, SetCards(Unsorted, TwoColumns));
            next == prev.(cardsOrder := TwoColumns, columns := Some(Loaded(None)))
  {
    SortedA();
    SortedB();
    var cols := [Column("A", None, None, None), Column("B", None, None, None)];
    var r := Resort(cols, Unsorted, TwoColumns);
    assert r[0] == Loaded(None)[0] && r[1] == Loaded(None)[1];
    assert r == Loaded(None);
  }
}
