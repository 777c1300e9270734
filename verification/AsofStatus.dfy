/** What the as-of join answers, in terms of the quotes' own instants and ids: nothing
    here is sorted or filtered. */
module AsofStatus {
  import opened Prelude
  import opened AsofJoin

  /** No earlier than the start of the coverage and no later than its end. */
  predicate Inside(coverage: Coverage, t: int) { coverage.Between? ==> !(t < coverage.start) && !(t > coverage.end) }

  /** A quote inside the coverage, at the trade's instant or before it. */
  predicate Seen(q: Quote, trade: Trade, coverage: Coverage) {
    Inside(coverage, q.time) && !(q.time > trade.time)
  }

  /** How many quotes the trade sees at an instant. */
  function SeenAt(quotes: seq<Quote>, trade: Trade, coverage: Coverage, t: int): nat {
    if quotes == [] then 0
    else
      var q := Last(quotes);
      SeenAt(Front(quotes), trade, coverage, t) + (if q.time == t && Seen(q, trade, coverage) then 1 else 0)
  }

  /** Later quotes have greater ids, and no two of one instant share one. */
  ghost predicate IdsFollowTime(quotes: seq<Quote>) {
    forall i, j :: 0 <= i < |quotes| && 0 <= j < |quotes| && i != j ==>
      && (quotes[i].time < quotes[j].time ==> quotes[i].id < quotes[j].id)
      && (quotes[i].time == quotes[j].time ==> quotes[i].id != quotes[j].id)
  }

  // ------------------------------------------------------------- monotonic ids

  lemma {:induction false} TwoOf(s: seq<Quote>, v: Quote)
    requires multiset(s)[v] >= 2
    ensures exists a, b :: 0 <= a < b < |s| && s[a] == v && s[b] == v
  {
    var f := Front(s);
    assert s == f + [Last(s)] && multiset(s) == multiset(f) + multiset{Last(s)};
    if Last(s) == v {
      assert v in multiset(f);
      var a :| 0 <= a < |f| && f[a] == v;
      assert s[a] == v && s[|s| - 1] == v;
    } else {
      TwoOf(f, v);
      var a, b :| 0 <= a < b < |f| && f[a] == v && f[b] == v;
      assert s[a] == v && s[b] == v;
    }
  }

  lemma {:induction false} TwiceCounted(s: seq<Quote>, a: nat, b: nat)
    requires a < b < |s| && s[a] == s[b]
    ensures multiset(s)[s[a]] >= 2
  {
    assert s == s[..b] + [s[b]] + s[b + 1..];
    assert s[..b][a] == s[a] && s[a] in multiset(s[..b]);
  }

  /** Two places of a list are two places of any list of the same quotes. */
  lemma TwoPlaces(s: seq<Quote>, t: seq<Quote>, i: nat, j: nat) returns (a: nat, b: nat)
    requires multiset(s) == multiset(t) && i < |s| && j < |s| && i != j
    ensures a < |t| && b < |t| && a != b && t[a] == s[i] && t[b] == s[j]
  {
    assert s[i] in multiset(t) && s[j] in multiset(t);
    if s[i] == s[j] {
      TwiceCounted(s, if i < j then i else j, if i < j then j else i);
      TwoOf(t, s[i]);
      a, b :| 0 <= a < b < |t| && t[a] == s[i] && t[b] == s[i];
    } else {
      a :| 0 <= a < |t| && t[a] == s[i];
      b :| 0 <= b < |t| && t[b] == s[j];
    }
  }

  /** Update ids count as monotonic exactly when they follow time. */
  lemma MonotonicIff(quotes: seq<Quote>)
    ensures UpdateIdsMonotonic(quotes) <==> IdsFollowTime(quotes)
  {
    var s := Sorted(quotes);
    SortedSorts(quotes);
    hide Sorted;
    if UpdateIdsMonotonic(quotes) {
      forall i, j | 0 <= i < |quotes| && 0 <= j < |quotes| && i != j
        ensures quotes[i].time < quotes[j].time ==> quotes[i].id < quotes[j].id
        ensures quotes[i].time == quotes[j].time ==> quotes[i].id != quotes[j].id
      {
        var a, b := TwoPlaces(quotes, s, i, j);
        if a < b {
          IdsAscend(s, a, b);
        } else {
          IdsAscend(s, b, a);
        }
      }
    }
    if IdsFollowTime(quotes) {
      forall k | 0 < k < |s| ensures s[k - 1].id < s[k].id {
        var a, b := TwoPlaces(s, quotes, k - 1, k);
        assert Leq(s[k - 1], s[k]);
      }
    }
  }

  // --------------------------------------------------------------- the tied quotes

  lemma {:induction false} FilterBoth(s: seq<Quote>, p: Quote -> bool, r: Quote -> bool)
    ensures Filter(Filter(s, p), r) == Filter(s, (q: Quote) => p(q) && r(q))
  {
    if s != [] {
      FilterBoth(Front(s), p, r);
      FilterAppend(Filter(Front(s), p), Last(s), r);
    }
  }

  lemma {:induction false} FilterSize(s: seq<Quote>, trade: Trade, coverage: Coverage, t: int, p: Quote -> bool)
    requires forall q :: p(q) <==> q.time == t && Seen(q, trade, coverage)
    ensures |Filter(s, p)| == SeenAt(s, trade, coverage, t)
  {
    if s != [] {
      FilterSize(Front(s), trade, coverage, t, p);
    }
  }

  lemma TiedIsSeen(trade: Trade, quotes: seq<Quote>, coverage: Coverage, t: int)
    ensures |Tied(Eligible(Covered(quotes, coverage), trade.time), t)| == SeenAt(quotes, trade, coverage, t)
  {
    var inside, past, at := (q: Quote) => coverage.Covers(q.time), (q: Quote) => q.time <= trade.time,
                            (q: Quote) => q.time == t;
    var seen := (q: Quote) => inside(q) && past(q);
    var all := (q: Quote) => seen(q) && at(q);
    FilterBoth(Sorted(quotes), inside, past);
    FilterBoth(Sorted(quotes), seen, at);
    SortOfPart(quotes, all);
    SortedSorts(Filter(quotes, all));
    assert |multiset(Sorted(Filter(quotes, all)))| == |multiset(Filter(quotes, all))|;
    FilterSize(quotes, trade, coverage, t, all);
  }

  // ------------------------------------------------------------------- the answer

  /** What a trade is answered. Outside the coverage, ends included, it gets no quote; nor
      where it sees none. Otherwise it gets the quote it sees that is newest by instant
      and then id, with the time since: ambiguous where it sees another of that instant
      and ids do not follow time, else stale past the bound, else matched. */
  lemma StatusByInstants(trade: Trade, quotes: seq<Quote>, coverage: Coverage, maxAge: Option<int>)
    ensures var m := JoinOne(trade, quotes, coverage, maxAge);
            && m.trade == trade
            && (m.status == OutsideCoverage <==> !Inside(coverage, trade.time))
            && (m.status == NoQuoteBefore <==>
                  Inside(coverage, trade.time) && forall q :: q in quotes ==> !Seen(q, trade, coverage))
            && (m.status == OutsideCoverage || m.status == NoQuoteBefore ==> m.quote == None && m.age == None)
            && (m.status != OutsideCoverage && m.status != NoQuoteBefore ==>
                  m.quote.Some? &&
                  var q, age := m.quote.value, trade.time - m.quote.value.time;
                  var ambiguous := SeenAt(quotes, trade, coverage, q.time) >= 2 && !IdsFollowTime(quotes);
                  && q in quotes && Seen(q, trade, coverage) && m.age == Some(age)
                  && (forall r :: r in quotes && Seen(r, trade, coverage) ==>
                        r.time < q.time || (r.time == q.time && r.id <= q.id))
                  && (m.status == AmbiguousSequence <==> ambiguous)
                  && (m.status == Stale <==> !ambiguous && maxAge.Some? && age > maxAge.value))
  {
    hide Eligible, Covered, Tied, UpdateIdsMonotonic, SeenAt, IdsFollowTime;
    EligibleAreVisible(trade, quotes, coverage);
    MonotonicIff(quotes);
    var eligible := Eligible(Covered(quotes, coverage), trade.time);
    forall q ensures q in eligible <==> q in quotes && Seen(q, trade, coverage) {
      assert q in eligible <==> Visible(q, trade, quotes, coverage);
    }
    if eligible != [] {
      assert Last(eligible) in eligible;
      TiedIsSeen(trade, quotes, coverage, Last(eligible).time);
      forall r | r in eligible ensures Leq(r, Last(eligible)) {
      }
    }
  }
}
