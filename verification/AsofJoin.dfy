/** `analysis/asof_join.py`: each trade joined to the newest quote at or before it. */
module AsofJoin {
  import opened Prelude

  datatype Quote = Quote(time: int, event: int, id: int, bid: real, ask: real)

  datatype Trade = Trade(time: int, price: real, qty: real, isBuyerMaker: bool)

  datatype Status = Matched | AmbiguousSequence | NoQuoteBefore | Stale | OutsideCoverage

  datatype Match = Match(trade: Trade, quote: Option<Quote>, age: Option<int>, status: Status)

  datatype Coverage = Everything | Between(start: int, end: int) {
    predicate Covers(t: int) { Everything? || start <= t <= end }
  }

  // ------------------------------------------------------ the sort and the filter

  /** The order of the sort key, transaction time then update id. */
  predicate Leq(a: Quote, b: Quote) { a.time < b.time || (a.time == b.time && a.id <= b.id) }

  function Insert(q: Quote, s: seq<Quote>): seq<Quote> {
    if s == [] then [q] else if Leq(Last(s), q) then s + [q] else Insert(q, Front(s)) + [Last(s)]
  }

  /** The stable sort by key. */
  function Sorted(quotes: seq<Quote>): seq<Quote> {
    if quotes == [] then [] else Insert(Last(quotes), Sorted(Front(quotes)))
  }

  function Filter(s: seq<Quote>, p: Quote -> bool): seq<Quote> {
    if s == [] then []
    else if p(Last(s)) then Filter(Front(s), p) + [Last(s)]
    else Filter(Front(s), p)
  }

  ghost predicate Ordered(s: seq<Quote>) { forall i, j :: 0 <= i <= j < |s| ==> Leq(s[i], s[j]) }

  lemma {:induction false} OrderedFront(s: seq<Quote>)
    requires s != []
    ensures Ordered(s) ==> Ordered(Front(s)) && forall q :: q in Front(s) ==> Leq(q, Last(s))
    ensures multiset(s) == multiset(Front(s)) + multiset{Last(s)}
  {
    var f := Front(s);
    assert s == f + [Last(s)];
    assert forall i :: 0 <= i < |f| ==> f[i] == s[i];
  }

  lemma {:induction false} OrderedAppend(s: seq<Quote>, l: Quote)
    requires Ordered(s) && forall q :: q in s ==> Leq(q, l)
    ensures Ordered(s + [l])
  {
    assert forall i :: 0 <= i < |s| ==> s[i] in s;
  }

  lemma {:induction false} InsertSorts(q: Quote, s: seq<Quote>)
    requires Ordered(s)
    ensures Ordered(Insert(q, s)) && multiset(Insert(q, s)) == multiset(s) + multiset{q}
  {
    if s != [] {
      var f, l := Front(s), Last(s);
      OrderedFront(s);
      if Leq(l, q) {
        assert forall x :: x in s ==> x in multiset(f) + multiset{l};
        OrderedAppend(s, q);
      } else {
        InsertSorts(q, f);
        var r := Insert(q, f);
        forall x | x in r ensures Leq(x, l) {
          assert x in multiset(f) + multiset{q};
        }
        OrderedAppend(r, l);
      }
    }
  }

  /** Sorting orders the quotes and neither loses nor makes one. */
  lemma {:induction false} SortedSorts(quotes: seq<Quote>)
    ensures Ordered(Sorted(quotes)) && multiset(Sorted(quotes)) == multiset(quotes)
  {
    hide Insert;
    if quotes != [] {
      SortedSorts(Front(quotes));
      InsertSorts(Last(quotes), Sorted(Front(quotes)));
      assert quotes == Front(quotes) + [Last(quotes)];
    }
  }

  lemma {:induction false} FilterAppend(s: seq<Quote>, q: Quote, p: Quote -> bool)
    ensures Filter(s + [q], p) == if p(q) then Filter(s, p) + [q] else Filter(s, p)
  {
    assert Front(s + [q]) == s;
  }

  lemma {:induction false} FilterKeeps(s: seq<Quote>, p: Quote -> bool)
    ensures forall q :: q in Filter(s, p) <==> q in s && p(q)
    ensures Ordered(s) ==> Ordered(Filter(s, p))
  {
    if s != [] {
      FilterKeeps(Front(s), p);
      OrderedFront(s);
      assert s == Front(s) + [Last(s)];
      if Ordered(s) && p(Last(s)) {
        OrderedAppend(Filter(Front(s), p), Last(s));
      }
    }
  }

  lemma {:induction false} FilterInsert(q: Quote, s: seq<Quote>, p: Quote -> bool)
    requires Ordered(s)
    ensures Filter(Insert(q, s), p) == if p(q) then Insert(q, Filter(s, p)) else Filter(s, p)
  {
    if s != [] {
      var f, l := Front(s), Last(s);
      if Leq(l, q) {
        FilterAppend(s, q, p);
        FilterKeeps(s, p);
        if Filter(s, p) != [] {
          assert Last(Filter(s, p)) in s;
        }
      } else {
        FilterInsert(q, f, p);
        FilterAppend(Insert(q, f), l, p);
        assert Front(Filter(f, p) + [l]) == Filter(f, p);
      }
    }
  }

  /** A stable sort commutes with choosing a part of the quotes. */
  lemma {:induction false} SortOfPart(quotes: seq<Quote>, p: Quote -> bool)
    ensures Filter(Sorted(quotes), p) == Sorted(Filter(quotes, p))
  {
    if quotes != [] {
      var f := Front(quotes);
      SortOfPart(f, p);
      SortedSorts(f);
      FilterInsert(Last(quotes), Sorted(f), p);
      assert Front(Filter(f, p) + [Last(quotes)]) == Filter(f, p);
    }
  }

  // ------------------------------------------------------------------- the join

  /** Whether update ids strictly increase along the sorted quotes. */
  predicate UpdateIdsMonotonic(quotes: seq<Quote>) {
    var ordered := Sorted(quotes);
    forall i :: 0 < i < |ordered| ==> ordered[i - 1].id < ordered[i].id
  }

  function Covered(quotes: seq<Quote>, coverage: Coverage): seq<Quote> {
    Filter(Sorted(quotes), (q: Quote) => coverage.Covers(q.time))
  }

  function Eligible(ordered: seq<Quote>, t: int): seq<Quote> { Filter(ordered, (q: Quote) => q.time <= t) }

  function Tied(ordered: seq<Quote>, t: int): seq<Quote> { Filter(ordered, (q: Quote) => q.time == t) }

  /** What the join owes one trade. */
  function JoinOne(trade: Trade, quotes: seq<Quote>, coverage: Coverage, maxAge: Option<int>): Match {
    var eligible := Eligible(Covered(quotes, coverage), trade.time);
    if !coverage.Covers(trade.time) then Match(trade, None, None, OutsideCoverage)
    else if eligible == [] then Match(trade, None, None, NoQuoteBefore)
    else
      var chosen := Last(eligible);
      var age := trade.time - chosen.time;
      Match(trade, Some(chosen), Some(age),
            if |Tied(eligible, chosen.time)| > 1 && !UpdateIdsMonotonic(quotes) then AmbiguousSequence
            else if maxAge.Some? && age > maxAge.value then Stale
            else Matched)
  }

  /** `asof_join`: one match per trade, in the trades' order. */
  method Join(trades: seq<Trade>, quotes: seq<Quote>, coverage: Coverage, maxAge: Option<int>)
    returns (results: seq<Match>)
    ensures |results| == |trades|
    ensures forall i :: 0 <= i < |trades| ==> results[i] == JoinOne(trades[i], quotes, coverage, maxAge)
  {
    var monotonic := UpdateIdsMonotonic(quotes);
    var ordered := Covered(quotes, coverage);
    results := [];
    var i := 0;
    while i < |trades|
      invariant 0 <= i <= |trades| && |results| == i
      invariant forall j :: 0 <= j < i ==> results[j] == JoinOne(trades[j], quotes, coverage, maxAge)
    {
      var trade := trades[i];
      i := i + 1;
      if !coverage.Covers(trade.time) {
        results := results + [Match(trade, None, None, OutsideCoverage)];
        continue;
      }
      var eligible := Eligible(ordered, trade.time);
      if eligible == [] {
        results := results + [Match(trade, None, None, NoQuoteBefore)];
        continue;
      }
      var chosen := Last(eligible);
      var tied := Tied(eligible, chosen.time);
      var age := trade.time - chosen.time;
      if |tied| > 1 && !monotonic {
        results := results + [Match(trade, Some(chosen), Some(age), AmbiguousSequence)];
        continue;
      }
      if maxAge.Some? && age > maxAge.value {
        results := results + [Match(trade, Some(chosen), Some(age), Stale)];
        continue;
      }
      results := results + [Match(trade, Some(chosen), Some(age), Matched)];
    }
  }

  // ------------------------------------------------------- what a match promises

  /** A quote the trade may see. */
  predicate Visible(q: Quote, trade: Trade, quotes: seq<Quote>, coverage: Coverage) {
    q in quotes && coverage.Covers(q.time) && q.time <= trade.time
  }

  lemma EligibleAreVisible(trade: Trade, quotes: seq<Quote>, coverage: Coverage)
    ensures var eligible := Eligible(Covered(quotes, coverage), trade.time);
            Ordered(eligible) && forall q :: q in eligible <==> Visible(q, trade, quotes, coverage)
  {
    SortedSorts(quotes);
    FilterKeeps(Sorted(quotes), (q: Quote) => coverage.Covers(q.time));
    FilterKeeps(Covered(quotes, coverage), (q: Quote) => q.time <= trade.time);
    forall q ensures q in Sorted(quotes) <==> q in quotes {
      assert q in Sorted(quotes) <==> q in multiset(Sorted(quotes));
      assert q in quotes <==> q in multiset(quotes);
    }
  }

  /** The quote is the greatest by (time, id) among those at or before the trade and
      within coverage; there is none exactly when there is no such quote or the
      trade itself is not covered; the age is never negative. */
  lemma ChosenIsNewest(trade: Trade, quotes: seq<Quote>, coverage: Coverage, maxAge: Option<int>)
    ensures var m := JoinOne(trade, quotes, coverage, maxAge);
            && (m.status == OutsideCoverage <==> !coverage.Covers(trade.time))
            && (m.status == NoQuoteBefore <==>
                  coverage.Covers(trade.time) && forall q :: q in quotes ==> !Visible(q, trade, quotes, coverage))
            && (m.quote.Some? <==>
                  coverage.Covers(trade.time) && exists q :: q in quotes && Visible(q, trade, quotes, coverage))
            && (m.quote.Some? ==>
                  && Visible(m.quote.value, trade, quotes, coverage)
                  && (forall q :: Visible(q, trade, quotes, coverage) ==> Leq(q, m.quote.value))
                  && m.age == Some(trade.time - m.quote.value.time) && m.age.value >= 0
                  && (m.status == Stale ==> maxAge.Some? && m.age.value > maxAge.value)
                  && (m.status == Matched ==> maxAge.None? || m.age.value <= maxAge.value))
  {
    EligibleAreVisible(trade, quotes, coverage);
    var eligible := Eligible(Covered(quotes, coverage), trade.time);
    hide Eligible, Covered, Tied, UpdateIdsMonotonic;
    if eligible != [] {
      assert Last(eligible) in eligible;
    }
  }

  /** The quotes visible at `t`, unsorted, are all that the quote and the age depend on. */
  lemma EligibleFromPast(quotes: seq<Quote>, coverage: Coverage, t: int)
    ensures Eligible(Covered(quotes, coverage), t) ==
            Sorted(Filter(Filter(quotes, (q: Quote) => q.time <= t), (q: Quote) => coverage.Covers(q.time)))
  {
    var past, inside := (q: Quote) => q.time <= t, (q: Quote) => coverage.Covers(q.time);
    FilterSwap(Sorted(quotes), inside, past);
    SortOfPart(quotes, past);
    SortOfPart(Filter(quotes, past), inside);
  }

  lemma {:induction false} FilterSwap(s: seq<Quote>, p: Quote -> bool, r: Quote -> bool)
    ensures Filter(Filter(s, p), r) == Filter(Filter(s, r), p)
  {
    if s != [] {
      var f, l := Front(s), Last(s);
      FilterSwap(f, p, r);
      FilterAppend(Filter(f, p), l, r);
      FilterAppend(Filter(f, r), l, p);
    }
  }

  /** No lookahead: two books with the same quotes up to the trade give it the same
      quote and age. The status alone can differ, and does exactly when the winning
      instant is tied and the two books disagree on monotonic ids. */
  lemma NoLookahead(trade: Trade, a: seq<Quote>, b: seq<Quote>, coverage: Coverage, maxAge: Option<int>)
    requires Filter(a, (q: Quote) => q.time <= trade.time) == Filter(b, (q: Quote) => q.time <= trade.time)
    ensures var m, n := JoinOne(trade, a, coverage, maxAge), JoinOne(trade, b, coverage, maxAge);
            && m.quote == n.quote && m.age == n.age
            && (m.status != n.status <==>
                  && m.quote.Some? && UpdateIdsMonotonic(a) != UpdateIdsMonotonic(b)
                  && |Tied(Eligible(Covered(a, coverage), trade.time), m.quote.value.time)| > 1)
  {
    EligibleFromPast(a, coverage, trade.time);
    EligibleFromPast(b, coverage, trade.time);
    hide Eligible, Covered, Tied, UpdateIdsMonotonic, Filter, Sorted;
  }

  /** A quote ten ticks after the trade turns its match ambiguous. */
  lemma FutureQuoteFlipsStatus()
    ensures var trade := Trade(10, 1.0, 1.0, false);
            var a := [Quote(10, 10, 2, 1.0, 2.0), Quote(10, 10, 3, 1.0, 2.0)];
            var b := a + [Quote(20, 20, 1, 1.0, 2.0)];
            && JoinOne(trade, a, Everything, None).status == Matched
            && JoinOne(trade, b, Everything, None).status == AmbiguousSequence
  {
    var x, y, z := Quote(10, 10, 2, 1.0, 2.0), Quote(10, 10, 3, 1.0, 2.0), Quote(20, 20, 1, 1.0, 2.0);
    var a, b := [x, y], [x, y, z];
    assert a + [z] == b;
    SortsToItself(x, y, z);
    hide Sorted;
    AllKept(a, (q: Quote) => Everything.Covers(q.time));
    AllKept(a, (q: Quote) => q.time <= 10);
    AllKept(a, (q: Quote) => q.time == 10);
    AllKept(b, (q: Quote) => Everything.Covers(q.time));
    FilterAppend(a, z, (q: Quote) => q.time <= 10);
    assert Eligible(Covered(a, Everything), 10) == a && Eligible(Covered(b, Everything), 10) == a && Tied(a, 10) == a;
    assert UpdateIdsMonotonic(a) && !UpdateIdsMonotonic(b) by {
      assert b[1].id >= b[2].id;
    }
    hide Filter, Eligible, Covered, Tied, UpdateIdsMonotonic;
  }

  lemma {:induction false} SortsToItself(x: Quote, y: Quote, z: Quote)
    requires Leq(x, y) && Leq(y, z)
    ensures Sorted([x, y]) == [x, y] && Sorted([x, y, z]) == [x, y, z]
  {
    assert Front([x]) == [] && Front([x, y]) == [x] && Front([x, y, z]) == [x, y];
    assert Sorted([x]) == [x];
    assert Sorted([x, y]) == [x, y];
  }

  lemma {:induction false} AllKept(s: seq<Quote>, p: Quote -> bool)
    requires forall q :: q in s ==> p(q)
    ensures Filter(s, p) == s
  {
    if s != [] {
      assert s == Front(s) + [Last(s)];
      AllKept(Front(s), p);
    }
  }

  // ----------------------------------------------------------- order of the input

  datatype Key = Key(time: int, id: int)

  function KeyOf(q: Quote): Key { Key(q.time, q.id) }

  function Keys(s: seq<Quote>): seq<Key> { seq(|s|, i requires 0 <= i < |s| => KeyOf(s[i])) }

  predicate KeyLeq(a: Key, b: Key) { a.time < b.time || (a.time == b.time && a.id <= b.id) }

  ghost predicate KeysOrdered(s: seq<Key>) { forall i, j :: 0 <= i <= j < |s| ==> KeyLeq(s[i], s[j]) }

  lemma DropLast<T>(s: seq<T>)
    requires s != []
    ensures multiset(Front(s)) == multiset(s) - multiset{Last(s)}
  {
    assert s == Front(s) + [Last(s)];
  }

  lemma SameLast(a: seq<Key>, b: seq<Key>)
    requires KeysOrdered(a) && KeysOrdered(b) && multiset(a) == multiset(b) && a != []
    ensures b != [] && Last(a) == Last(b)
  {
    assert |multiset(a)| == |multiset(b)|;
    assert Last(a) in multiset(b) && Last(b) in multiset(a);
  }

  lemma {:induction false} OneOrder(a: seq<Key>, b: seq<Key>)
    requires KeysOrdered(a) && KeysOrdered(b) && multiset(a) == multiset(b)
    ensures a == b
  {
    if a == [] {
      assert |multiset(b)| == 0;
    } else {
      SameLast(a, b);
      DropLast(a);
      DropLast(b);
      assert forall i :: 0 <= i < |Front(a)| ==> Front(a)[i] == a[i];
      assert forall i :: 0 <= i < |Front(b)| ==> Front(b)[i] == b[i];
      OneOrder(Front(a), Front(b));
      assert a == Front(a) + [Last(a)] && b == Front(b) + [Last(b)];
    }
  }

  lemma {:induction false} KeysOfSame(a: seq<Quote>, b: seq<Quote>)
    requires multiset(a) == multiset(b)
    ensures multiset(Keys(a)) == multiset(Keys(b))
  {
    if a == [] {
      assert |multiset(b)| == 0;
    } else {
      var q := Last(a);
      assert q in multiset(b);
      var i :| 0 <= i < |b| && b[i] == q;
      TakeOut(b, i);
      DropLast(a);
      KeysOfSame(Front(a), b[..i] + b[i + 1..]);
      assert Keys(a) == Keys(Front(a)) + [KeyOf(q)];
    }
  }

  lemma TakeOut(b: seq<Quote>, i: nat)
    requires i < |b|
    ensures var rest := b[..i] + b[i + 1..];
            && multiset(rest) == multiset(b) - multiset{b[i]}
            && multiset(Keys(b)) == multiset(Keys(rest)) + multiset{KeyOf(b[i])}
  {
    var rest := b[..i] + b[i + 1..];
    assert b == b[..i] + [b[i]] + b[i + 1..];
    assert Keys(b) == Keys(b[..i]) + [KeyOf(b[i])] + Keys(b[i + 1..]);
    assert Keys(rest) == Keys(b[..i]) + Keys(b[i + 1..]);
  }

  /** Permuting the quotes does not move a key in the sorted list. */
  lemma SortedKeys(a: seq<Quote>, b: seq<Quote>)
    requires multiset(a) == multiset(b)
    ensures Keys(Sorted(a)) == Keys(Sorted(b))
  {
    SortedSorts(a);
    SortedSorts(b);
    KeysOfSame(Sorted(a), Sorted(b));
    OneOrder(Keys(Sorted(a)), Keys(Sorted(b)));
  }

  lemma {:induction false} FilterKeys(a: seq<Quote>, b: seq<Quote>, p: Quote -> bool)
    requires Keys(a) == Keys(b)
    requires forall q, r :: q in a && r in b && KeyOf(q) == KeyOf(r) ==> p(q) == p(r)
    ensures Keys(Filter(a, p)) == Keys(Filter(b, p))
  {
    assert |Keys(a)| == |a| && |Keys(b)| == |b|;
    if a != [] {
      assert KeyOf(Last(a)) == Last(Keys(a)) && KeyOf(Last(b)) == Last(Keys(b));
      assert Keys(Front(a)) == Front(Keys(a)) && Keys(Front(b)) == Front(Keys(b));
      assert a == Front(a) + [Last(a)] && b == Front(b) + [Last(b)];
      FilterKeys(Front(a), Front(b), p);
      assert p(Last(a)) ==> Keys(Filter(a, p)) == Keys(Filter(Front(a), p)) + [KeyOf(Last(a))];
      assert p(Last(b)) ==> Keys(Filter(b, p)) == Keys(Filter(Front(b), p)) + [KeyOf(Last(b))];
    }
  }

  lemma MonotonicByKeys(a: seq<Quote>, b: seq<Quote>)
    requires Keys(Sorted(a)) == Keys(Sorted(b))
    ensures UpdateIdsMonotonic(a) == UpdateIdsMonotonic(b)
  {
    var x, y := Sorted(a), Sorted(b);
    assert |Keys(x)| == |x| && |Keys(y)| == |y|;
    forall i | 0 <= i < |x| ensures x[i].id == y[i].id {
      assert Keys(x)[i] == KeyOf(x[i]) && Keys(y)[i] == KeyOf(y[i]);
    }
  }

  /** Distinct quotes have distinct keys. */
  ghost predicate KeysDistinct(quotes: seq<Quote>) {
    forall q, r :: q in quotes && r in quotes && KeyOf(q) == KeyOf(r) ==> q == r
  }

  /** Monotonic ids leave no two quotes on one key. */
  lemma MonotonicIsDistinct(quotes: seq<Quote>)
    requires UpdateIdsMonotonic(quotes)
    ensures KeysDistinct(quotes)
  {
    var s := Sorted(quotes);
    SortedSorts(quotes);
    hide Sorted;
    forall q, r | q in quotes && r in quotes && KeyOf(q) == KeyOf(r) ensures q == r {
      assert q in multiset(s) && r in multiset(s);
      var i, j :| 0 <= i < |s| && s[i] == q && 0 <= j < |s| && s[j] == r;
      if i < j {
        IdsAscend(s, i, j);
      } else if j < i {
        IdsAscend(s, j, i);
      }
    }
  }

  lemma {:induction false} IdsAscend(s: seq<Quote>, i: nat, j: nat)
    requires i < j < |s| && forall k :: 0 < k < |s| ==> s[k - 1].id < s[k].id
    ensures s[i].id < s[j].id
  {
    assert s[j - 1].id < s[j].id;
    if i < j - 1 {
      IdsAscend(s, i, j - 1);
    }
  }

  /** The order of the input never changes a status, an age or the key of a quote;
      where no two quotes share a key, in particular under monotonic ids, it changes
      nothing at all. */
  lemma InputOrderImmaterial(trade: Trade, a: seq<Quote>, b: seq<Quote>, coverage: Coverage, maxAge: Option<int>)
    requires multiset(a) == multiset(b)
    ensures var m, n := JoinOne(trade, a, coverage, maxAge), JoinOne(trade, b, coverage, maxAge);
            && m.status == n.status && m.age == n.age && (m.quote.Some? <==> n.quote.Some?)
            && (m.quote.Some? ==> KeyOf(m.quote.value) == KeyOf(n.quote.value))
            && (KeysDistinct(a) || UpdateIdsMonotonic(a) ==> m == n)
  {
    EligibleKeys(a, b, coverage, trade.time);
    WinnerDetermined(trade, a, b, coverage);
    var x, y := Eligible(Covered(a, coverage), trade.time), Eligible(Covered(b, coverage), trade.time);
    if x != [] {
      SameKeysSameWinner(x, y);
    }
    hide Eligible, Covered, Tied, UpdateIdsMonotonic, Filter, Sorted, KeysDistinct;
    assert |Keys(x)| == |x| && |Keys(y)| == |y|;
  }

  /** Where keys are distinct the two orders pick the same quote. */
  lemma WinnerDetermined(trade: Trade, a: seq<Quote>, b: seq<Quote>, coverage: Coverage)
    requires multiset(a) == multiset(b)
    ensures var x, y := Eligible(Covered(a, coverage), trade.time), Eligible(Covered(b, coverage), trade.time);
            (KeysDistinct(a) || UpdateIdsMonotonic(a)) && x != [] ==> y != [] && Last(x) == Last(y)
  {
    EligibleKeys(a, b, coverage, trade.time);
    EligibleAreVisible(trade, a, coverage);
    EligibleAreVisible(trade, b, coverage);
    if UpdateIdsMonotonic(a) {
      MonotonicIsDistinct(a);
    }
    hide Eligible, Covered, UpdateIdsMonotonic, Filter, Sorted;
    var x, y := Eligible(Covered(a, coverage), trade.time), Eligible(Covered(b, coverage), trade.time);
    if x != [] && KeysDistinct(a) {
      SameKeysSameWinner(x, y);
      assert Last(x) in x && Last(y) in y;
      assert Last(y) in multiset(a) by {
        assert Last(y) in multiset(b);
      }
    }
  }

  lemma EligibleKeys(a: seq<Quote>, b: seq<Quote>, coverage: Coverage, t: int)
    requires multiset(a) == multiset(b)
    ensures Keys(Eligible(Covered(a, coverage), t)) == Keys(Eligible(Covered(b, coverage), t))
    ensures UpdateIdsMonotonic(a) == UpdateIdsMonotonic(b)
  {
    SortedKeys(a, b);
    MonotonicByKeys(a, b);
    FilterKeys(Sorted(a), Sorted(b), (q: Quote) => coverage.Covers(q.time));
    FilterKeys(Covered(a, coverage), Covered(b, coverage), (q: Quote) => q.time <= t);
  }

  lemma SameKeysSameWinner(x: seq<Quote>, y: seq<Quote>)
    requires Keys(x) == Keys(y) && x != []
    ensures y != [] && KeyOf(Last(x)) == KeyOf(Last(y))
    ensures |Tied(x, Last(x).time)| == |Tied(y, Last(y).time)|
  {
    assert |Keys(x)| == |x| && |Keys(y)| == |y|;
    assert Last(Keys(x)) == KeyOf(Last(x)) && Last(Keys(y)) == KeyOf(Last(y));
    FilterKeys(x, y, (q: Quote) => q.time == Last(x).time);
    assert |Keys(Tied(x, Last(x).time))| == |Tied(x, Last(x).time)|;
    assert |Keys(Tied(y, Last(x).time))| == |Tied(y, Last(x).time)|;
  }

  /** Two quotes on one key and instant: the input order picks the one reported. */
  lemma TiedKeysFollowInput()
    ensures var trade := Trade(10, 1.0, 1.0, false);
            var x, y := Quote(10, 10, 2, 1.0, 2.0), Quote(10, 10, 2, 1.5, 2.0);
            && multiset([x, y]) == multiset([y, x])
            && JoinOne(trade, [x, y], Everything, None).quote == Some(y)
            && JoinOne(trade, [y, x], Everything, None).quote == Some(x)
  {
    var x, y := Quote(10, 10, 2, 1.0, 2.0), Quote(10, 10, 2, 1.5, 2.0);
    AllVisible(x, y);
    AllVisible(y, x);
    hide Sorted, Filter, Eligible, Covered, Tied, UpdateIdsMonotonic;
  }

  lemma AllVisible(x: Quote, y: Quote)
    requires x.time == y.time == 10 && Leq(x, y)
    ensures Eligible(Covered([x, y], Everything), 10) == [x, y]
  {
    SortsToItself(x, y, y);
    hide Sorted;
    AllKept([x, y], (q: Quote) => Everything.Covers(q.time));
    AllKept([x, y], (q: Quote) => q.time <= 10);
    hide Filter;
  }
}
