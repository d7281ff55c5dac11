/** `createNewArr`: regroups a flat list of cost records by currency and
    annotates every record with the `rowSpan` of a merged currency cell.

    The function is a chain of two reduces. The first collects the distinct
    currencies in order of first appearance (`Currencies`); the second
    concatenates, currency by currency, the records of that currency
    (`Members`, the `data.filter`), each copied with a span (`Tag`, the
    `children.map`). `Regroup` is that second fold, and `Grouped` is the
    whole transform. `CreateNewArr` is the same computation written with
    the accumulator loops of the source. */
module Grouping {
  import opened Wrappers
  import opened DataSource

  // ---------------------------------------------------------------------
  // Vocabulary
  // ---------------------------------------------------------------------

  /** Some record of `data` has currency `c`. */
  predicate Mentions<Id>(data: seq<Rec<Id>>, c: Currency) {
    exists i :: 0 <= i < |data| && data[i].currency == c
  }

  ghost predicate NoDuplicates<T>(s: seq<T>) {
    forall p, q :: 0 <= p < q < |s| ==> s[p] != s[q]
  }

  /** A record with its display attribute `rowSpan` forgotten. */
  function Erase<Id>(r: Rec<Id>): Rec<Id> {
    r.(rowSpan := None)
  }

  function Erased<Id>(xs: seq<Rec<Id>>): seq<Rec<Id>> {
    seq(|xs|, i requires 0 <= i < |xs| => Erase(xs[i]))
  }

  /** The records of `data` whose currency is one of `cs`, in input order. */
  function Within<Id>(data: seq<Rec<Id>>, cs: seq<Currency>): seq<Rec<Id>> {
    if data == [] then []
    else (if data[0].currency in cs then [data[0]] else []) + Within(data[1..], cs)
  }

  /** Sum of the spans of a list of rows (a row without a span adds 0). */
  function SumSpans<Id>(xs: seq<Rec<Id>>): int {
    if xs == [] then 0
    else (match xs[0].rowSpan case Some(n) => n case None => 0) + SumSpans(xs[1..])
  }

  /** The rows whose cell is drawn: those with a nonzero span. */
  function SpanHolders<Id>(xs: seq<Rec<Id>>): seq<Rec<Id>> {
    if xs == [] then []
    else (if xs[0].rowSpan != Some(0) && xs[0].rowSpan != None then [xs[0]] else []) + SpanHolders(xs[1..])
  }

  /** Row `i` of a grouped list starts a new currency block. */
  predicate BlockStart<Id>(out: seq<Rec<Id>>, i: int)
    requires 0 <= i < |out|
  {
    i == 0 || out[i - 1].currency != out[i].currency
  }

  /** Every row of `out` has a span: the size of its currency's group in
      `data` when it starts a block, and 0 otherwise. */
  ghost predicate SpansMarkBlocks<Id>(data: seq<Rec<Id>>, out: seq<Rec<Id>>) {
    forall i :: 0 <= i < |out| ==>
      out[i].rowSpan == Some(if BlockStart(out, i) then |Members(data, out[i].currency)| else 0)
  }

  /** The rows of each currency form one contiguous block. */
  ghost predicate Contiguous<Id>(out: seq<Rec<Id>>) {
    forall i, j, k :: 0 <= i < j < k < |out| && out[i].currency == out[k].currency ==>
      out[j].currency == out[i].currency
  }

  /** The position at which currency `c` first appears in `data`. */
  function FirstIndex<Id>(data: seq<Rec<Id>>, c: Currency): (k: nat)
    requires Mentions(data, c)
    ensures k < |data| && data[k].currency == c
    ensures forall j :: 0 <= j < k ==> data[j].currency != c
  {
    if data[0].currency == c then 0
    else
      assert Mentions(data[1..], c) by {
        var i :| 0 <= i < |data| && data[i].currency == c;
        assert data[1..][i - 1].currency == c;
      }
      1 + FirstIndex(data[1..], c)
  }

  // ---------------------------------------------------------------------
  // The transform
  // ---------------------------------------------------------------------

  /** The first reduce: push each record's currency unless `indexOf` finds
      it already. The result lists every currency of `data` once. */
  function Currencies<Id>(data: seq<Rec<Id>>): (cs: seq<Currency>)
    ensures NoDuplicates(cs)
    ensures forall c :: c in cs <==> Mentions(data, c)
  {
    if data == [] then []
    else
      var prior := Currencies(data[..|data| - 1]);
      var c := data[|data| - 1].currency;
      MentionsAppend(data[..|data| - 1], [data[|data| - 1]]);
      assert data[..|data| - 1] + [data[|data| - 1]] == data;
      if c in prior then prior else prior + [c]
  }

  /** `data.filter(item => item.currency === c)`. */
  function Members<Id>(data: seq<Rec<Id>>, c: Currency): (ms: seq<Rec<Id>>)
    ensures |ms| <= |data|
    ensures forall i :: 0 <= i < |ms| ==> ms[i].currency == c
  {
    if data == [] then []
    else (if data[0].currency == c then [data[0]] else []) + Members(data[1..], c)
  }

  /** `children.map((item, index) => ({...item, rowSpan: index === 0 ? children.length : 0}))`. */
  function Tag<Id>(group: seq<Rec<Id>>): (tagged: seq<Rec<Id>>)
    ensures |tagged| == |group|
    ensures forall k :: 0 <= k < |group| ==> Erase(tagged[k]) == Erase(group[k])
  {
    seq(|group|, k requires 0 <= k < |group| => group[k].(rowSpan := Some(if k == 0 then |group| else 0)))
  }

  /** The second reduce over the currency list `cs`: concatenate the tagged
      group of each currency in turn. Every row it emits has a currency
      from `cs`. */
  function Regroup<Id>(data: seq<Rec<Id>>, cs: seq<Currency>): (out: seq<Rec<Id>>)
    ensures forall i :: 0 <= i < |out| ==> out[i].currency in cs
  {
    if cs == [] then []
    else
      assert cs == cs[..|cs| - 1] + [cs[|cs| - 1]];
      Regroup(data, cs[..|cs| - 1]) + Tag(Members(data, cs[|cs| - 1]))
  }

  /** `createNewArr(data)`. Every row it emits has a currency some input
      record has. */
  function Grouped<Id>(data: seq<Rec<Id>>): (out: seq<Rec<Id>>)
    ensures forall i :: 0 <= i < |out| ==> Mentions(data, out[i].currency)
  {
    Regroup(data, Currencies(data))
  }

  /** The first reduce as a loop: `result.push(item.currency)` whenever
      `result.indexOf(item.currency) < 0`. */
  method CollectCurrencies<Id>(data: seq<Rec<Id>>) returns (currencies: seq<Currency>)
    ensures currencies == Currencies(data)
    ensures NoDuplicates(currencies)
    ensures forall c :: c in currencies <==> Mentions(data, c)
  {
    currencies := [];
    var i := 0;
    while i < |data|
      invariant i <= |data|
      invariant currencies == Currencies(data[..i])
    {
      assert data[..i + 1][..i] == data[..i];
      if data[i].currency !in currencies {
        currencies := currencies + [data[i].currency];
      }
      i := i + 1;
    }
    assert data[..|data|] == data;
  }

  /** `createNewArr`: the first reduce, then the second one as a loop whose
      accumulator `r` grows by `concat`. */
  method CreateNewArr<Id>(data: seq<Rec<Id>>) returns (r: seq<Rec<Id>>)
    ensures r == Grouped(data)
    ensures multiset(Erased(r)) == multiset(Erased(data)) && |r| == |data|
    ensures forall c :: Members(r, c) == Tag(Members(data, c))
  {
    var currencies := CollectCurrencies(data);
    r := [];
    var k := 0;
    while k < |currencies|
      invariant k <= |currencies|
      invariant r == Regroup(data, currencies[..k])
    {
      assert currencies[..k + 1][..k] == currencies[..k];
      var children := Members(data, currencies[k]);
      r := r + Tag(children);
      k := k + 1;
    }
    assert currencies[..|currencies|] == currencies;
    assert r == Grouped(data);

    GroupedPermutation(data);
    forall c
      ensures Members(r, c) == Tag(Members(data, c))
    {
      GroupedMembers(data, c);
    }
  }

  // ---------------------------------------------------------------------
  // Helper facts
  // ---------------------------------------------------------------------

  lemma MentionsAppend<Id>(a: seq<Rec<Id>>, b: seq<Rec<Id>>)
    ensures forall c :: Mentions(a + b, c) <==> Mentions(a, c) || Mentions(b, c)
  {
    forall c
      ensures Mentions(a + b, c) <==> Mentions(a, c) || Mentions(b, c)
    {
      if Mentions(a + b, c) {
        var i :| 0 <= i < |a + b| && (a + b)[i].currency == c;
        if i < |a| {
          assert a[i].currency == c;
        } else {
          assert b[i - |a|].currency == c;
        }
      }
      if Mentions(a, c) {
        var i :| 0 <= i < |a| && a[i].currency == c;
        assert (a + b)[i].currency == c;
      }
      if Mentions(b, c) {
        var i :| 0 <= i < |b| && b[i].currency == c;
        assert (a + b)[|a| + i].currency == c;
      }
    }
  }

  lemma {:induction false} MembersAppend<Id>(a: seq<Rec<Id>>, b: seq<Rec<Id>>, c: Currency)
    ensures Members(a + b, c) == Members(a, c) + Members(b, c)
  {
    if a == [] {
      assert a + b == b;
    } else {
      assert (a + b)[1..] == a[1..] + b;
      MembersAppend(a[1..], b, c);
    }
  }

  /** The filter keeps exactly the records of currency `c`. */
  lemma {:induction false} MembersExact<Id>(data: seq<Rec<Id>>, c: Currency)
    ensures forall x :: x in Members(data, c) <==> x in data && x.currency == c
  {
    if data != [] {
      MembersExact(data[1..], c);
      assert data == [data[0]] + data[1..];
    }
  }

  /** Filtering a list whose records all have currency `d`. */
  lemma {:induction false} MembersUniform<Id>(xs: seq<Rec<Id>>, d: Currency, c: Currency)
    requires forall i :: 0 <= i < |xs| ==> xs[i].currency == d
    ensures Members(xs, c) == if c == d then xs else []
  {
    if xs != [] {
      MembersUniform(xs[1..], d, c);
    }
  }

  /** A currency has an empty group exactly when no record carries it. */
  lemma {:induction false} MembersEmpty<Id>(data: seq<Rec<Id>>, c: Currency)
    ensures Members(data, c) == [] <==> !Mentions(data, c)
  {
    if data != [] {
      MembersEmpty(data[1..], c);
      MentionsAppend([data[0]], data[1..]);
      assert [data[0]] + data[1..] == data;
      assert Mentions([data[0]], c) <==> data[0].currency == c;
    }
  }

  lemma ErasedAppend<Id>(a: seq<Rec<Id>>, b: seq<Rec<Id>>)
    ensures Erased(a + b) == Erased(a) + Erased(b)
  {
  }

  lemma TagTag<Id>(xs: seq<Rec<Id>>)
    ensures Tag(Tag(xs)) == Tag(xs)
  {
  }

  lemma {:induction false} WithinAll<Id>(data: seq<Rec<Id>>, cs: seq<Currency>)
    requires forall i :: 0 <= i < |data| ==> data[i].currency in cs
    ensures Within(data, cs) == data
  {
    if data != [] {
      WithinAll(data[1..], cs);
    }
  }

  /** Adding one fresh currency to the selection adds its group. */
  lemma {:induction false} WithinSnoc<Id>(data: seq<Rec<Id>>, cs: seq<Currency>, c: Currency)
    requires c !in cs
    ensures multiset(Erased(Within(data, cs + [c])))
         == multiset(Erased(Within(data, cs))) + multiset(Erased(Members(data, c)))
  {
    if data != [] {
      var x := data[0];
      WithinSnoc(data[1..], cs, c);
      var headW := if x.currency in cs + [c] then [x] else [];
      var headV := if x.currency in cs then [x] else [];
      var headM := if x.currency == c then [x] else [];
      ErasedAppend(headW, Within(data[1..], cs + [c]));
      ErasedAppend(headV, Within(data[1..], cs));
      ErasedAppend(headM, Members(data[1..], c));
      assert multiset(Erased(headW)) == multiset(Erased(headV)) + multiset(Erased(headM));
    }
  }

  lemma {:induction false} SumSpansAppend<Id>(a: seq<Rec<Id>>, b: seq<Rec<Id>>)
    ensures SumSpans(a + b) == SumSpans(a) + SumSpans(b)
  {
    if a == [] {
      assert a + b == b;
    } else {
      assert (a + b)[1..] == a[1..] + b;
      SumSpansAppend(a[1..], b);
    }
  }

  lemma {:induction false} SumSpansZero<Id>(xs: seq<Rec<Id>>)
    requires forall i :: 0 <= i < |xs| ==> xs[i].rowSpan == Some(0)
    ensures SumSpans(xs) == 0 && SpanHolders(xs) == []
  {
    if xs != [] {
      SumSpansZero(xs[1..]);
    }
  }

  /** A tagged group of n rows has one drawn cell with span n. */
  lemma TagSpans<Id>(group: seq<Rec<Id>>)
    requires group != []
    ensures SumSpans(Tag(group)) == |group|
    ensures SpanHolders(Tag(group)) == [Tag(group)[0]]
  {
    var t := Tag(group);
    SumSpansZero(t[1..]);
  }

  // ---------------------------------------------------------------------
  // Properties of the first reduce
  // ---------------------------------------------------------------------

  lemma FirstIndexPrefix<Id>(a: seq<Rec<Id>>, b: seq<Rec<Id>>, c: Currency)
    requires Mentions(a, c)
    ensures Mentions(a + b, c) && FirstIndex(a + b, c) == FirstIndex(a, c)
  {
    var k := FirstIndex(a, c);
    assert (a + b)[k] == a[k];
    var k' := FirstIndex(a + b, c);
  }

  /** The currencies are listed in order of their first appearance. */
  lemma {:induction false} CurrenciesFirstAppearance<Id>(data: seq<Rec<Id>>)
    ensures forall p, q :: 0 <= p < q < |Currencies(data)| ==>
      FirstIndex(data, Currencies(data)[p]) < FirstIndex(data, Currencies(data)[q])
  {
    if data != [] {
      var n := |data|;
      var pre, x := data[..n - 1], data[n - 1];
      assert data == pre + [x];
      CurrenciesFirstAppearance(pre);
      var prior := Currencies(pre);
      var cs := Currencies(data);
      forall p | 0 <= p < |prior|
        ensures FirstIndex(data, prior[p]) == FirstIndex(pre, prior[p]) < n - 1
      {
        FirstIndexPrefix(pre, [x], prior[p]);
      }
      if x.currency !in prior {
        forall j | 0 <= j < n - 1
          ensures data[j].currency != x.currency
        {
          assert pre[j] == data[j];
        }
        assert FirstIndex(data, x.currency) == n - 1;
      }
    }
  }

  /** The currency list of a list extended by a nonempty block of one
      currency `c` gains `c` at the end, unless it was already there. */
  lemma {:induction false} CurrenciesAppendUniform<Id>(a: seq<Rec<Id>>, b: seq<Rec<Id>>, c: Currency)
    requires b != []
    requires forall i :: 0 <= i < |b| ==> b[i].currency == c
    ensures Currencies(a + b) == if c in Currencies(a) then Currencies(a) else Currencies(a) + [c]
    decreases |b|
  {
    var ab := a + b;
    var pre := ab[..|ab| - 1];
    assert ab[|ab| - 1] == b[|b| - 1];
    assert Currencies(ab) == if c in Currencies(pre) then Currencies(pre) else Currencies(pre) + [c];
    if |b| == 1 {
      assert pre == a;
    } else {
      var b' := b[..|b| - 1];
      assert pre == a + b';
      CurrenciesAppendUniform(a, b', c);
    }
  }

  // ---------------------------------------------------------------------
  // Properties of the second reduce
  // ---------------------------------------------------------------------

  /** The rows of currency `c` in `Regroup(data, cs)` are the tagged group of `c`. */
  lemma {:induction false} RegroupMembers<Id>(data: seq<Rec<Id>>, cs: seq<Currency>, c: Currency)
    requires NoDuplicates(cs)
    ensures Members(Regroup(data, cs), c) == if c in cs then Tag(Members(data, c)) else []
  {
    if cs != [] {
      var init, last := cs[..|cs| - 1], cs[|cs| - 1];
      assert cs == init + [last];
      assert NoDuplicates(init);
      var t := Tag(Members(data, last));
      RegroupMembers(data, init, c);
      MembersAppend(Regroup(data, init), t, c);
      MembersUniform(t, last, c);
      if c == last {
        assert c !in init;
      }
    }
  }

  lemma {:induction false} RegroupBag<Id>(data: seq<Rec<Id>>, cs: seq<Currency>)
    requires NoDuplicates(cs)
    ensures multiset(Erased(Regroup(data, cs))) == multiset(Erased(Within(data, cs)))
  {
    if cs == [] {
      WithinNone(data);
    } else {
      var init, last := cs[..|cs| - 1], cs[|cs| - 1];
      assert cs == init + [last];
      assert NoDuplicates(init);
      var m := Members(data, last);
      RegroupBag(data, init);
      ErasedAppend(Regroup(data, init), Tag(m));
      assert Erased(Tag(m)) == Erased(m);
      WithinSnoc(data, init, last);
    }
  }

  lemma {:induction false} WithinNone<Id>(data: seq<Rec<Id>>)
    ensures Within(data, []) == []
  {
    if data != [] {
      WithinNone(data[1..]);
    }
  }

  lemma {:induction false} RegroupSpanTotal<Id>(data: seq<Rec<Id>>, cs: seq<Currency>)
    requires NoDuplicates(cs)
    ensures SumSpans(Regroup(data, cs)) == |Within(data, cs)|
  {
    if cs == [] {
      WithinNone(data);
    } else {
      var init, last := cs[..|cs| - 1], cs[|cs| - 1];
      assert cs == init + [last];
      assert NoDuplicates(init);
      var m := Members(data, last);
      RegroupSpanTotal(data, init);
      SumSpansAppend(Regroup(data, init), Tag(m));
      if m != [] {
        TagSpans(m);
      }
      WithinSnoc(data, init, last);
      assert |multiset(Erased(Within(data, cs)))| == |Within(data, cs)|;
      assert |multiset(Erased(Within(data, init)))| == |Within(data, init)|;
      assert |multiset(Erased(m))| == |m|;
    }
  }

  /** In `Regroup(data, cs)` the first row of each currency block spans
      the whole group and the rest span 0. */
  lemma {:induction false} RegroupSpans<Id>(data: seq<Rec<Id>>, cs: seq<Currency>)
    requires NoDuplicates(cs)
    ensures SpansMarkBlocks(data, Regroup(data, cs))
  {
    if cs != [] {
      var init, last := cs[..|cs| - 1], cs[|cs| - 1];
      assert cs == init + [last];
      assert NoDuplicates(init);
      assert last !in init;
      var prev := Regroup(data, init);
      var m := Members(data, last);
      var t := Tag(m);
      var out := prev + t;
      assert out == Regroup(data, cs);
      RegroupSpans(data, init);
      assert SpansMarkBlocks(data, prev);
      forall i | 0 <= i < |out|
        ensures out[i].rowSpan == Some(if BlockStart(out, i) then |Members(data, out[i].currency)| else 0)
      {
        if i < |prev| {
          SpanPrefix(data, prev, t, i);
        } else {
          SpanBlock(prev, m, last, i);
        }
      }
    }
  }

  /** A row of the earlier blocks keeps its span when a block is appended. */
  lemma SpanPrefix<Id>(data: seq<Rec<Id>>, prev: seq<Rec<Id>>, t: seq<Rec<Id>>, i: int)
    requires SpansMarkBlocks(data, prev)
    requires 0 <= i < |prev|
    ensures (prev + t)[i].rowSpan
         == Some(if BlockStart(prev + t, i) then |Members(data, (prev + t)[i].currency)| else 0)
  {
    var out := prev + t;
    assert out[i] == prev[i];
    if i > 0 {
      assert out[i - 1] == prev[i - 1];
    }
    assert BlockStart(out, i) == BlockStart(prev, i);
  }

  /** A row of the appended block of a currency `last` that the earlier
      blocks do not contain. */
  lemma SpanBlock<Id>(prev: seq<Rec<Id>>, m: seq<Rec<Id>>, last: Currency, i: int)
    requires forall j :: 0 <= j < |m| ==> m[j].currency == last
    requires forall j :: 0 <= j < |prev| ==> prev[j].currency != last
    requires |prev| <= i < |prev| + |m|
    ensures (prev + Tag(m))[i].currency == last
    ensures (prev + Tag(m))[i].rowSpan == Some(if BlockStart(prev + Tag(m), i) then |m| else 0)
  {
    var t := Tag(m);
    var out := prev + t;
    var k := i - |prev|;
    assert out[i] == t[k];
    assert out[i].currency == last by {
      assert m[k].currency == last;
    }
    assert out[i].rowSpan == Some(if k == 0 then |m| else 0);
    assert BlockStart(out, i) <==> k == 0 by {
      if k == 0 {
        if i > 0 {
          assert out[i - 1] == prev[i - 1];
        }
      } else {
        assert out[i - 1] == t[k - 1];
        assert m[k - 1].currency == last;
      }
    }
  }

  /** In `Regroup(data, cs)` the rows of one currency are contiguous. */
  lemma {:induction false} RegroupContiguous<Id>(data: seq<Rec<Id>>, cs: seq<Currency>)
    requires NoDuplicates(cs)
    ensures Contiguous(Regroup(data, cs))
  {
    if cs != [] {
      var init, last := cs[..|cs| - 1], cs[|cs| - 1];
      assert cs == init + [last];
      assert NoDuplicates(init);
      assert last !in init;
      var prev := Regroup(data, init);
      var m := Members(data, last);
      var t := Tag(m);
      var out := prev + t;
      assert out == Regroup(data, cs);
      RegroupContiguous(data, init);
      assert Contiguous(prev);
      forall i, j, k | 0 <= i < j < k < |out| && out[i].currency == out[k].currency
        ensures out[j].currency == out[i].currency
      {
        if k < |prev| {
          assert out[i] == prev[i] && out[j] == prev[j] && out[k] == prev[k];
        } else {
          assert out[k] == t[k - |prev|] && m[k - |prev|].currency == last;
          assert out[j] == t[j - |prev|] && m[j - |prev|].currency == last;
        }
      }
    }
  }

  /** Regrouping by currencies that all occur lists them in the same order. */
  lemma {:induction false} RegroupOrder<Id>(data: seq<Rec<Id>>, cs: seq<Currency>)
    requires NoDuplicates(cs)
    requires forall c :: c in cs ==> Mentions(data, c)
    ensures Currencies(Regroup(data, cs)) == cs
  {
    if cs != [] {
      var init, last := cs[..|cs| - 1], cs[|cs| - 1];
      assert cs == init + [last];
      assert NoDuplicates(init);
      assert last !in init;
      var m := Members(data, last);
      MembersEmpty(data, last);
      RegroupOrder(data, init);
      CurrenciesAppendUniform(Regroup(data, init), Tag(m), last);
    }
  }

  lemma {:induction false} RegroupCongruent<Id>(d1: seq<Rec<Id>>, d2: seq<Rec<Id>>, cs: seq<Currency>)
    requires forall c :: c in cs ==> Tag(Members(d1, c)) == Tag(Members(d2, c))
    ensures Regroup(d1, cs) == Regroup(d2, cs)
  {
    if cs != [] {
      var init, last := cs[..|cs| - 1], cs[|cs| - 1];
      assert cs == init + [last];
      RegroupCongruent(d1, d2, init);
    }
  }

  // ---------------------------------------------------------------------
  // Properties of createNewArr
  // ---------------------------------------------------------------------

  /** The output holds, for every currency, exactly the input records of
      that currency in their input order; the first is copied with span
      equal to the group size and the others with span 0. */
  lemma GroupedMembers<Id>(data: seq<Rec<Id>>, c: Currency)
    ensures Members(Grouped(data), c) == Tag(Members(data, c))
  {
    RegroupMembers(data, Currencies(data), c);
    if c !in Currencies(data) {
      MembersEmpty(data, c);
    }
  }

  /** Ignoring `rowSpan`, the output is a permutation of the input; in
      particular it has the same length. */
  lemma GroupedPermutation<Id>(data: seq<Rec<Id>>)
    ensures multiset(Erased(Grouped(data))) == multiset(Erased(data))
    ensures |Grouped(data)| == |data|
  {
    var cs := Currencies(data);
    RegroupBag(data, cs);
    forall i | 0 <= i < |data|
      ensures data[i].currency in cs
    {
      assert Mentions(data, data[i].currency);
    }
    WithinAll(data, cs);
    assert |multiset(Erased(Grouped(data)))| == |Grouped(data)|;
    assert |multiset(Erased(data))| == |data|;
  }

  /** Groups are contiguous and come in the order their currency first
      appears in the input; every row gets a span, the first row of a
      block the size of its group and every other row 0. */
  lemma GroupedLayout<Id>(data: seq<Rec<Id>>)
    ensures Currencies(Grouped(data)) == Currencies(data)
    ensures SpansMarkBlocks(data, Grouped(data))
    ensures Contiguous(Grouped(data))
  {
    RegroupSpans(data, Currencies(data));
    RegroupContiguous(data, Currencies(data));
    RegroupOrder(data, Currencies(data));
  }

  /** The spans add up to the number of records, and each currency that
      occurs has exactly one row of nonzero span; a currency that does not
      occur has no rows. */
  lemma GroupedSpanBookkeeping<Id>(data: seq<Rec<Id>>, c: Currency)
    ensures SumSpans(Grouped(data)) == |data|
    ensures |SpanHolders(Members(Grouped(data), c))| == if Mentions(data, c) then 1 else 0
    ensures !Mentions(data, c) ==> Members(Grouped(data), c) == []
  {
    var cs := Currencies(data);
    RegroupSpanTotal(data, cs);
    forall i | 0 <= i < |data|
      ensures data[i].currency in cs
    {
      assert Mentions(data, data[i].currency);
    }
    WithinAll(data, cs);
    GroupedMembers(data, c);
    MembersEmpty(data, c);
    if Mentions(data, c) {
      TagSpans(Members(data, c));
    }
  }

  /** Regrouping an already grouped list changes nothing, spans included. */
  lemma GroupedIdempotent<Id>(data: seq<Rec<Id>>)
    ensures Grouped(Grouped(data)) == Grouped(data)
  {
    var out := Grouped(data);
    var cs := Currencies(data);
    GroupedLayout(data);
    forall c | c in cs
      ensures Tag(Members(out, c)) == Tag(Members(data, c))
    {
      GroupedMembers(data, c);
      TagTag(Members(data, c));
    }
    RegroupCongruent(out, data, cs);
  }
}
