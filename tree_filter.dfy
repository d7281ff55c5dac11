/** `loopDataSourceFilter`: deletes every node whose id is the target from
    a forest of records, together with its subtree.

    The source maps each node to `null` (a hit) or to a copy whose
    `children` is filtered recursively (`Prune`), then drops the nulls with
    `.filter(Boolean)` (`Compact`); `Filter` is that composition. A node
    whose filtered children come out empty loses its `children` field. */
module TreeFilter {
  import opened Wrappers
  import opened DataSource

  // ---------------------------------------------------------------------
  // Vocabulary
  // ---------------------------------------------------------------------

  /** `item.id !== id` fails. Real ids are never undefined, so a `None`
      target hits no node. */
  predicate Hit<Id(==)>(item: Rec<Id>, target: Option<Id>) {
    target == Some(item.id)
  }

  /** A node with every field except `children`. */
  function Bare<Id>(n: Rec<Id>): Rec<Id> {
    n.(children := Absent)
  }

  /** Some node of the forest, at or below the roots, has id `x` and lies
      on a path from a root that passes through no node `target` hits. */
  ghost predicate Reachable<Id>(data: seq<Rec<Id>>, x: Id, target: Option<Id>)
    decreases data
  {
    exists i :: 0 <= i < |data| && NodeReachable(data[i], x, target)
  }

  ghost predicate NodeReachable<Id>(n: Rec<Id>, x: Id, target: Option<Id>)
    decreases n
  {
    target != Some(n.id) &&
    (n.id == x ||
     match n.children
     case Absent => false
     case Present(nodes) => Reachable(nodes, x, target))
  }

  /** Some node of the forest, at any depth, has id `x`. */
  ghost predicate Occurs<Id>(data: seq<Rec<Id>>, x: Id) {
    Reachable(data, x, None)
  }

  ghost predicate NodeOccurs<Id>(n: Rec<Id>, x: Id) {
    NodeReachable(n, x, None)
  }

  /** No node of the forest carries an empty `children` array. */
  ghost predicate Normalized<Id>(data: seq<Rec<Id>>)
    decreases data
  {
    forall i :: 0 <= i < |data| ==> NodeNormalized(data[i])
  }

  ghost predicate NodeNormalized<Id>(n: Rec<Id>)
    decreases n
  {
    match n.children
    case Absent => true
    case Present(nodes) => |nodes| > 0 && Normalized(nodes)
  }

  /** The forest `a` arises from `b` by deleting nodes: the remaining
      siblings keep their relative order, each keeps every field other
      than `children`, and its children arise in the same way from the
      original node's children. */
  ghost predicate Embeds<Id>(a: seq<Rec<Id>>, b: seq<Rec<Id>>)
    decreases b
  {
    if a == [] then true
    else if b == [] then false
    else (NodeEmbeds(a[0], b[0]) && Embeds(a[1..], b[1..])) || Embeds(a, b[1..])
  }

  ghost predicate NodeEmbeds<Id>(x: Rec<Id>, y: Rec<Id>)
    decreases y
  {
    Bare(x) == Bare(y) &&
    match x.children
    case Absent => true
    case Present(xs) =>
      match y.children
      case Absent => false
      case Present(ys) => Embeds(xs, ys)
  }

  /** Every node of the forest at every depth, each without its `children`
      field, listed root before descendants and siblings in order. Two
      nodes that share an id are two entries. */
  ghost function Preorder<Id>(data: seq<Rec<Id>>): seq<Rec<Id>>
    decreases data
  {
    if data == [] then [] else NodePreorder(data[0]) + Preorder(data[1..])
  }

  ghost function NodePreorder<Id>(n: Rec<Id>): seq<Rec<Id>>
    decreases n
  {
    [Bare(n)] +
    match n.children
    case Absent => []
    case Present(nodes) => Preorder(nodes)
  }

  /** The same listing restricted to the nodes that are not the target and
      have no ancestor that is: a hit contributes nothing, and neither does
      anything below it. */
  ghost function Unblocked<Id>(data: seq<Rec<Id>>, target: Option<Id>): seq<Rec<Id>>
    decreases data
  {
    if data == [] then [] else NodeUnblocked(data[0], target) + Unblocked(data[1..], target)
  }

  ghost function NodeUnblocked<Id>(n: Rec<Id>, target: Option<Id>): seq<Rec<Id>>
    decreases n
  {
    if target == Some(n.id) then []
    else
      [Bare(n)] +
      match n.children
      case Absent => []
      case Present(nodes) => Unblocked(nodes, target)
  }

  /** Reference for the case where nothing is deleted: the forest with
      every empty `children` array replaced by an absent field. */
  function Normalize<Id>(data: seq<Rec<Id>>): (r: seq<Rec<Id>>)
    decreases data
    ensures |r| == |data|
    ensures Normalized(r)
  {
    seq(|data|, i requires 0 <= i < |data| => NormalizeNode(data[i]))
  }

  function NormalizeNode<Id>(n: Rec<Id>): (r: Rec<Id>)
    decreases n
    ensures NodeNormalized(r)
    ensures Bare(r) == Bare(n)
  {
    match n.children
    case Absent => n
    case Present(nodes) =>
      if |nodes| == 0 then n.(children := Absent) else n.(children := Present(Normalize(nodes)))
  }

  // ---------------------------------------------------------------------
  // The transform
  // ---------------------------------------------------------------------

  /** `.filter(Boolean)`: keep the results that are not `null`, in order. */
  function Compact<T>(s: seq<Option<T>>): (r: seq<T>)
    ensures |r| <= |s|
    ensures forall j :: 0 <= j < |r| ==> exists i :: 0 <= i < |s| && s[i] == Some(r[j])
    ensures forall i :: 0 <= i < |s| && s[i].Some? ==> s[i].value in r
  {
    if |s| == 0 then []
    else (if s[0].Some? then [s[0].value] else []) + Compact(s[1..])
  }

  /** The callback of the `map`: `null` for a hit; a copy with filtered
      children for a node with a `children` field, the field becoming
      absent when nothing is left; the node itself otherwise. */
  function Prune<Id(==)>(item: Rec<Id>, target: Option<Id>): (r: Option<Rec<Id>>)
    decreases item
    ensures r.None? <==> Hit(item, target)
    ensures r.Some? ==> Bare(r.value) == Bare(item) && NodeNormalized(r.value)
    ensures r.Some? && target.Some? ==> !NodeOccurs(r.value, target.value)
  {
    if Hit(item, target) then None
    else
      match item.children
      case Absent => Some(item)
      case Present(nodes) =>
        var kept := Filter(nodes, target);
        Some(item.(children := if |kept| > 0 then Present(kept) else Absent))
  }

  /** `loopDataSourceFilter(data, target)`. The result is no longer than
      the input, carries no empty `children` array and, for a defined
      target, holds no node with the target id at any depth. */
  function Filter<Id(==)>(data: seq<Rec<Id>>, target: Option<Id>): (r: seq<Rec<Id>>)
    decreases data
    ensures |r| <= |data|
    ensures Normalized(r)
    ensures target.Some? ==> !Occurs(r, target.value)
  {
    var mapped := seq(|data|, i requires 0 <= i < |data| => Prune(data[i], target));
    assert forall i :: 0 <= i < |mapped| && mapped[i].Some? ==>
      NodeNormalized(mapped[i].value) && (target.Some? ==> !NodeOccurs(mapped[i].value, target.value));
    Compact(mapped)
  }

  // ---------------------------------------------------------------------
  // Helper facts
  // ---------------------------------------------------------------------

  /** The singleton list of a `map` result that survives `.filter(Boolean)`. */
  function Keep<T>(o: Option<T>): seq<T> {
    if o.Some? then [o.value] else []
  }

  /** Filtering a nonempty forest handles the first root, then the rest. */
  lemma FilterCons<Id>(data: seq<Rec<Id>>, target: Option<Id>)
    requires data != []
    ensures Filter(data, target) == Keep(Prune(data[0], target)) + Filter(data[1..], target)
  {
    var mapped := seq(|data|, i requires 0 <= i < |data| => Prune(data[i], target));
    var rest := seq(|data| - 1, i requires 0 <= i < |data| - 1 => Prune(data[1..][i], target));
    assert mapped[1..] == rest;
  }

  lemma NormalizeCons<Id>(data: seq<Rec<Id>>)
    requires data != []
    ensures Normalize(data) == [NormalizeNode(data[0])] + Normalize(data[1..])
  {
    assert Normalize(data)[1..] == Normalize(data[1..]);
  }

  lemma ReachableCons<Id>(data: seq<Rec<Id>>, x: Id, target: Option<Id>)
    requires data != []
    ensures Reachable(data, x, target) <==> NodeReachable(data[0], x, target) || Reachable(data[1..], x, target)
  {
    if Reachable(data, x, target) {
      var i :| 0 <= i < |data| && NodeReachable(data[i], x, target);
      if i > 0 {
        assert data[1..][i - 1] == data[i];
      }
    }
    if Reachable(data[1..], x, target) {
      var i :| 0 <= i < |data[1..]| && NodeReachable(data[1..][i], x, target);
      assert data[i + 1] == data[1..][i];
    }
  }

  /** Apply `Prune` to a surviving node; a deleted node stays deleted. */
  function Then<Id(==)>(o: Option<Rec<Id>>, target: Option<Id>): Option<Rec<Id>> {
    if o.Some? then Prune(o.value, target) else None
  }

  lemma FilterEmpty<Id>(target: Option<Id>)
    ensures Filter([], target) == []
  {
  }

  lemma {:induction false} FilterAppend<Id>(x: seq<Rec<Id>>, y: seq<Rec<Id>>, target: Option<Id>)
    ensures Filter(x + y, target) == Filter(x, target) + Filter(y, target)
    decreases x
  {
    if x == [] {
      assert x + y == y;
      FilterEmpty(target);
    } else {
      var xy := x + y;
      var head := Keep(Prune(x[0], target));
      assert Filter(xy, target) == head + Filter(x[1..] + y, target) by {
        assert xy[0] == x[0] && xy[1..] == x[1..] + y;
        FilterCons(xy, target);
      }
      assert Filter(x[1..] + y, target) == Filter(x[1..], target) + Filter(y, target) by {
        FilterAppend(x[1..], y, target);
      }
      assert Filter(x, target) == head + Filter(x[1..], target) by {
        FilterCons(x, target);
      }
      ConcatAssoc(head, Filter(x[1..], target), Filter(y, target));
    }
  }

  /** Kept as a separate lemma: proving this in place, amid `FilterAppend`'s
      facts about `Filter`, costs several times more. */
  lemma ConcatAssoc<T>(a: seq<T>, b: seq<T>, c: seq<T>)
    ensures a + (b + c) == (a + b) + c
  {
  }

  lemma FilterKeep<Id>(o: Option<Rec<Id>>, target: Option<Id>)
    ensures Filter(Keep(o), target) == Keep(Then(o, target))
  {
    FilterEmpty(target);
    if o.Some? {
      FilterCons([o.value], target);
      assert [o.value][1..] == [];
    }
  }

  // ---------------------------------------------------------------------
  // Properties of loopDataSourceFilter
  // ---------------------------------------------------------------------

  /** The result is the input with nodes deleted: at every level the
      survivors keep their relative order and all fields but `children`,
      and no level grows. */
  lemma {:induction false} FilterEmbeds<Id>(data: seq<Rec<Id>>, target: Option<Id>)
    ensures Embeds(Filter(data, target), data)
    decreases data
  {
    if data != [] {
      FilterCons(data, target);
      var rest := Filter(data[1..], target);
      FilterEmbeds(data[1..], target);
      var p := Prune(data[0], target);
      if p.Some? {
        var r := [p.value] + rest;
        assert Filter(data, target) == r;
        PruneEmbeds(data[0], target);
        assert r[0] == p.value && r[1..] == rest;
        assert NodeEmbeds(r[0], data[0]) && Embeds(r[1..], data[1..]);
      } else {
        assert Filter(data, target) == rest;
        if rest != [] {
          assert Embeds(rest, data[1..]);
        }
      }
    }
  }

  lemma {:induction false} PruneEmbeds<Id>(n: Rec<Id>, target: Option<Id>)
    requires Prune(n, target).Some?
    ensures NodeEmbeds(Prune(n, target).value, n)
    decreases n
  {
    match n.children
    case Absent =>
    case Present(nodes) =>
      FilterEmbeds(nodes, target);
  }

  /** By id: some node with id `x` survives exactly when the input has a
      node with id `x` reachable without passing through a node with the
      target id. `FilterPreorder` states the same node by node. */
  lemma {:induction false} FilterReachable<Id>(data: seq<Rec<Id>>, target: Option<Id>, x: Id)
    ensures Occurs(Filter(data, target), x) <==> Reachable(data, x, target)
    decreases data
  {
    if data != [] {
      FilterCons(data, target);
      var p := Prune(data[0], target);
      var rest := Filter(data[1..], target);
      FilterReachable(data[1..], target, x);
      PruneReachable(data[0], target, x);
      ReachableCons(data, x, target);
      if p.Some? {
        var r := [p.value] + rest;
        assert Filter(data, target) == r;
        ReachableCons(r, x, None);
        assert r[0] == p.value && r[1..] == rest;
      } else {
        assert Filter(data, target) == rest;
      }
    }
  }

  lemma {:induction false} PruneReachable<Id>(n: Rec<Id>, target: Option<Id>, x: Id)
    ensures (Prune(n, target).Some? && NodeOccurs(Prune(n, target).value, x)) <==> NodeReachable(n, x, target)
    decreases n
  {
    if !Hit(n, target) {
      match n.children
      case Absent =>
      case Present(nodes) =>
        FilterReachable(nodes, target, x);
    }
  }

  lemma {:induction false} PreorderAppend<Id>(a: seq<Rec<Id>>, b: seq<Rec<Id>>)
    ensures Preorder(a + b) == Preorder(a) + Preorder(b)
    decreases a
  {
    if a == [] {
      assert a + b == b;
    } else {
      assert (a + b)[0] == a[0] && (a + b)[1..] == a[1..] + b;
      PreorderAppend(a[1..], b);
    }
  }

  /** Node by node, the result lists exactly the input's unblocked nodes,
      in the same order and each with every field except `children`
      unchanged: a hit and its subtree go, and every other node stays,
      including one whose id some other node shares. */
  lemma {:induction false} FilterPreorder<Id>(data: seq<Rec<Id>>, target: Option<Id>)
    ensures Preorder(Filter(data, target)) == Unblocked(data, target)
    decreases data
  {
    if data == [] {
      FilterEmpty(target);
    } else {
      FilterCons(data, target);
      PreorderAppend(Keep(Prune(data[0], target)), Filter(data[1..], target));
      PrunePreorder(data[0], target);
      FilterPreorder(data[1..], target);
    }
  }

  lemma {:induction false} PrunePreorder<Id>(n: Rec<Id>, target: Option<Id>)
    ensures Preorder(Keep(Prune(n, target))) == NodeUnblocked(n, target)
    decreases n
  {
    var p := Prune(n, target);
    if p.Some? {
      assert Preorder(Keep(p)) == NodePreorder(p.value) by {
        assert Keep(p)[0] == p.value && Keep(p)[1..] == [];
      }
      match n.children
      case Absent =>
      case Present(nodes) =>
        FilterPreorder(nodes, target);
        if |Filter(nodes, target)| == 0 {
          FilterEmpty(target);
        }
    }
  }

  /** When the target is undefined or occurs nowhere, the result is the
      input except that empty `children` arrays become absent; an input
      without empty arrays comes back unchanged. */
  lemma {:induction false} FilterNoHit<Id>(data: seq<Rec<Id>>, target: Option<Id>)
    requires target.None? || !Occurs(data, target.value)
    ensures Filter(data, target) == Normalize(data)
    ensures Normalized(data) ==> Filter(data, target) == data
    decreases data
  {
    if data != [] {
      FilterCons(data, target);
      NormalizeCons(data);
      if target.Some? {
        ReachableCons(data, target.value, None);
      }
      FilterNoHit(data[1..], target);
      PruneNoHit(data[0], target);
    }
    if Normalized(data) {
      NormalizeIdentity(data);
    }
  }

  lemma {:induction false} PruneNoHit<Id>(n: Rec<Id>, target: Option<Id>)
    requires target.None? || !NodeOccurs(n, target.value)
    ensures Prune(n, target) == Some(NormalizeNode(n))
    decreases n
  {
    match n.children
    case Absent =>
    case Present(nodes) =>
      FilterNoHit(nodes, target);
  }

  /** A forest without empty `children` arrays is left alone by `Normalize`. */
  lemma {:induction false} NormalizeIdentity<Id>(data: seq<Rec<Id>>)
    requires Normalized(data)
    ensures Normalize(data) == data
    decreases data
  {
    forall i | 0 <= i < |data|
      ensures Normalize(data)[i] == data[i]
    {
      NormalizeNodeIdentity(data[i]);
    }
  }

  lemma {:induction false} NormalizeNodeIdentity<Id>(n: Rec<Id>)
    requires NodeNormalized(n)
    ensures NormalizeNode(n) == n
    decreases n
  {
    match n.children
    case Absent =>
    case Present(nodes) =>
      NormalizeIdentity(nodes);
  }

  /** Deleting the same id twice deletes nothing more. */
  lemma FilterIdempotent<Id>(data: seq<Rec<Id>>, target: Option<Id>)
    ensures Filter(Filter(data, target), target) == Filter(data, target)
  {
    FilterNoHit(Filter(data, target), target);
  }

  /** Deleting two ids gives the same forest in either order. */
  lemma {:induction false} FilterCommutes<Id>(data: seq<Rec<Id>>, a: Option<Id>, b: Option<Id>)
    ensures Filter(Filter(data, a), b) == Filter(Filter(data, b), a)
    decreases data
  {
    if data == [] {
      FilterEmpty(a);
      FilterEmpty(b);
    } else {
      FilterCons(data, a);
      FilterCons(data, b);
      var pa, pb := Prune(data[0], a), Prune(data[0], b);
      FilterAppend(Keep(pa), Filter(data[1..], a), b);
      FilterAppend(Keep(pb), Filter(data[1..], b), a);
      FilterKeep(pa, b);
      FilterKeep(pb, a);
      PruneCommutes(data[0], a, b);
      FilterCommutes(data[1..], a, b);
    }
  }

  lemma {:induction false} PruneCommutes<Id>(n: Rec<Id>, a: Option<Id>, b: Option<Id>)
    ensures Then(Prune(n, a), b) == Then(Prune(n, b), a)
    decreases n
  {
    if !Hit(n, a) && !Hit(n, b) {
      match n.children
      case Absent =>
      case Present(nodes) =>
        FilterCommutes(nodes, a, b);
        var ka, kb := Filter(nodes, a), Filter(nodes, b);
        if |ka| == 0 {
          assert ka == [];
          FilterEmpty(b);
        }
        if |kb| == 0 {
          assert kb == [];
          FilterEmpty(a);
        }
    }
  }
}
