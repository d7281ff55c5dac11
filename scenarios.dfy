/** Small examples of both transforms: three cost rows in two currencies
    for the grouping, and a two-level tree with integer ids for the delete. */
module Scenarios {
  import opened Wrappers
  import opened DataSource
  import Grouping
  import TreeFilter

  /** A flat cost row. */
  function Row(id: int, currency: string, miniCost: real): Rec<int> {
    Rec(id, Some(miniCost), None, Some(currency), Absent, None, None)
  }

  /** A bare tree node. */
  function Node(id: int, children: Children<int>): Rec<int> {
    Rec(id, None, None, None, children, None, None)
  }

  /** Two USD rows around a RUB row. */
  function Costs(): seq<Rec<int>> {
    [Row(1, "USD", 5.0), Row(2, "RUB", 3.0), Row(3, "USD", 7.0)]
  }

  /** The first reduce on `Costs()` finds USD, then RUB. */
  lemma CurrenciesExample()
    ensures Grouping.Currencies(Costs()) == [Some("USD"), Some("RUB")]
  {
    var data := Costs();
    assert data[..1][..0] == [];
    assert Grouping.Currencies(data[..1]) == [Some("USD")];
    assert data[..2][..1] == data[..1];
    assert Grouping.Currencies(data[..2]) == [Some("USD"), Some("RUB")];
  }

  /** The USD filter keeps rows 1 and 3, the RUB filter row 2. */
  lemma MembersExample()
    ensures Grouping.Members(Costs(), Some("USD")) == [Costs()[0], Costs()[2]]
    ensures Grouping.Members(Costs(), Some("RUB")) == [Costs()[1]]
  {
    var data := Costs();
    assert data[1..][1..] == [data[2]];
    assert data[1..][1..][1..] == [];
  }

  /** The second reduce over USD, then RUB. */
  lemma RegroupExample()
    ensures Grouping.Regroup(Costs(), [Some("USD"), Some("RUB")])
         == [Row(1, "USD", 5.0).(rowSpan := Some(2)),
             Row(3, "USD", 7.0).(rowSpan := Some(0)),
             Row(2, "RUB", 3.0).(rowSpan := Some(1))]
  {
    var data := Costs();
    var usd, rub := Some("USD"), Some("RUB");
    MembersExample();
    assert Grouping.Regroup(data, [usd]) == Grouping.Tag([data[0], data[2]]) by {
      assert [usd][..0] == [];
    }
    assert [usd, rub][..1] == [usd];
  }

  /** The USD rows are pulled together, the first spanning both, and the
      RUB row follows with span 1. */
  lemma GroupingExample()
    ensures Grouping.Grouped(Costs())
         == [Row(1, "USD", 5.0).(rowSpan := Some(2)),
             Row(3, "USD", 7.0).(rowSpan := Some(0)),
             Row(2, "RUB", 3.0).(rowSpan := Some(1))]
  {
    CurrenciesExample();
    RegroupExample();
  }

  /** Filtering the two children `[2, 3]` by id 2 keeps child 3. */
  lemma ChildrenExample()
    ensures TreeFilter.Filter([Node(2, Absent), Node(3, Absent)], Some(2)) == [Node(3, Absent)]
  {
    var n2, n3 := Node(2, Absent), Node(3, Absent);
    var empty: seq<Rec<int>> := [];
    TreeFilter.FilterEmpty(Some(2));
    TreeFilter.FilterCons([n3], Some(2));
    assert [n3][1..] == empty;
    TreeFilter.FilterCons([n2, n3], Some(2));
    assert [n2, n3][1..] == [n3];
  }

  /** Deleting one of two children keeps its sibling. */
  lemma FilterExample()
    ensures TreeFilter.Filter([Node(1, Present([Node(2, Absent), Node(3, Absent)]))], Some(2))
         == [Node(1, Present([Node(3, Absent)]))]
  {
    var n1 := Node(1, Present([Node(2, Absent), Node(3, Absent)]));
    var empty: seq<Rec<int>> := [];
    ChildrenExample();
    assert TreeFilter.Prune(n1, Some(2)) == Some(Node(1, Present([Node(3, Absent)])));
    TreeFilter.FilterEmpty(Some(2));
    TreeFilter.FilterCons([n1], Some(2));
    assert [n1][1..] == empty;
  }

  /** Deleting the last child as well leaves the parent without a
      `children` field. */
  lemma FilterLastChildExample()
    ensures TreeFilter.Filter([Node(1, Present([Node(3, Absent)]))], Some(3)) == [Node(1, Absent)]
  {
    var n1, n3 := Node(1, Present([Node(3, Absent)])), Node(3, Absent);
    var empty: seq<Rec<int>> := [];
    TreeFilter.FilterEmpty(Some(3));
    TreeFilter.FilterCons([n3], Some(3));
    assert [n3][1..] == empty;
    assert TreeFilter.Filter([n3], Some(3)) == [];
    assert TreeFilter.Prune(n1, Some(3)) == Some(Node(1, Absent));
    TreeFilter.FilterCons([n1], Some(3));
    assert [n1][1..] == empty;
  }
}
