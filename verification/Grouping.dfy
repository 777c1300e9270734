/** Maximal runs of equal keys, and the capped histogram of their lengths: what the
    single-pass scanners of `analysis/preflight.py` and
    `analysis/probe_binance_trades.py` compute incrementally. */
module Grouping {
  import opened Prelude

  // ------------------------------------------------------------------ runs

  /** The lengths of the closed runs, the length of the open one, and the key of each. */
  datatype Grouped<K> = Grouped(closed: seq<nat>, last: nat, heads: seq<K>)

  function Group<K(==)>(keys: seq<K>): Grouped<K> {
    if keys == [] then Grouped([], 0, [])
    else
      var n := |keys| - 1;
      var g := Group(keys[..n]);
      if n == 0 then Grouped([], 1, [keys[0]])
      else if keys[n - 1] == keys[n] then g.(last := g.last + 1)
      else Grouped(g.closed + [g.last], 1, g.heads + [keys[n]])
  }

  /** The lengths of the maximal runs of equal adjacent keys, in order. */
  function Runs<K(==)>(keys: seq<K>): seq<nat> {
    if keys == [] then [] else Group(keys).closed + [Group(keys).last]
  }

  function Repeat<K>(k: K, n: nat): seq<K> { seq(n, _ => k) }

  function Unroll<K>(heads: seq<K>, runs: seq<nat>): seq<K>
    requires |heads| == |runs|
  {
    if heads == [] then []
    else Unroll(Front(heads), Front(runs)) + Repeat(Last(heads), Last(runs))
  }

  /** A run-length code: no empty run, and neighbouring runs of different keys. */
  ghost predicate Canonical<K>(heads: seq<K>, runs: seq<nat>) {
    && |heads| == |runs|
    && (forall j :: 0 <= j < |runs| ==> runs[j] >= 1)
    && (forall j :: 0 < j < |heads| ==> heads[j - 1] != heads[j])
  }

  lemma {:induction false} GroupExtend<K>(keys: seq<K>, k: K)
    ensures Group(keys + [k]) ==
      if keys == [] then Grouped([], 1, [k])
      else if Last(keys) == k then Group(keys).(last := Group(keys).last + 1)
      else Grouped(Group(keys).closed + [Group(keys).last], 1, Group(keys).heads + [k])
  {
    assert (keys + [k])[..|keys|] == keys;
  }

  lemma {:induction false} UnrollAppend<K>(heads: seq<K>, runs: seq<nat>, k: K, n: nat)
    requires |heads| == |runs|
    ensures Unroll(heads + [k], runs + [n]) == Unroll(heads, runs) + Repeat(k, n)
  {
    assert (heads + [k])[..|heads|] == heads && (runs + [n])[..|runs|] == runs;
  }

  /** A key that repeats the last one lengthens the last run. */
  lemma {:induction false} EncodeSame<K>(heads: seq<K>, closed: seq<nat>, last: nat, k: K)
    requires |heads| == |closed| + 1 && heads[|closed|] == k
    requires Canonical(heads, closed + [last])
    ensures Canonical(heads, closed + [last + 1])
    ensures Unroll(heads, closed + [last + 1]) == Unroll(heads, closed + [last]) + [k]
  {
    var front := heads[..|closed|];
    assert heads == front + [k];
    UnrollAppend(front, closed, k, last);
    UnrollAppend(front, closed, k, last + 1);
    hide Unroll;
    assert Repeat(k, last + 1) == Repeat(k, last) + [k];
  }

  /** A key that differs from the last one opens a run of one. */
  lemma {:induction false} EncodeNew<K>(heads: seq<K>, runs: seq<nat>, k: K)
    requires Canonical(heads, runs)
    requires heads != [] ==> Last(heads) != k
    ensures Canonical(heads + [k], runs + [1])
    ensures Unroll(heads + [k], runs + [1]) == Unroll(heads, runs) + [k]
  {
    UnrollAppend(heads, runs, k, 1);
    hide Unroll;
    assert Repeat(k, 1) == [k];
  }

  lemma NoCode<K>()
    ensures Group<K>([]) == Grouped([], 0, []) && Canonical<K>([], []) && Unroll<K>([], []) == []
  {
  }

  /** The runs with their keys are a run-length code of the sequence: unrolling
      gives it back, no run is empty and the key changes between runs. */
  lemma {:induction false} RunsEncode<K>(keys: seq<K>)
    ensures Canonical(Group(keys).heads, Runs(keys)) && Unroll(Group(keys).heads, Runs(keys)) == keys
    ensures keys != [] ==> Group(keys).heads != [] && Last(Group(keys).heads) == Last(keys)
  {
    NoCode<K>();
    if keys != [] {
      hide Unroll, Canonical, Group;
      var front, k := Front(keys), Last(keys);
      RunsEncode(front);
      GroupExtend(front, k);
      assert keys == front + [k];
      var g := Group(front);
      if front == [] {
        EncodeNew([], [], k);
      } else if Last(front) == k {
        EncodeSame(g.heads, g.closed, g.last, k);
      } else {
        EncodeNew(g.heads, g.closed + [g.last], k);
      }
    }
  }

  lemma {:induction false} RunOpens<K>(keys: seq<K>, k: K, n: nat)
    requires n >= 1 && (keys != [] ==> Last(keys) != k)
    ensures Group(keys + Repeat(k, n)).last == n
    ensures Group(keys + Repeat(k, n)).closed == Runs(keys)
  {
    var before := keys + Repeat(k, n - 1);
    assert keys + Repeat(k, n) == before + [k];
    GroupExtend(before, k);
    if n > 1 {
      RunOpens(keys, k, n - 1);
      assert Last(before) == k;
    } else {
      assert before == keys;
    }
  }

  lemma {:induction false} UnrollLast<K>(heads: seq<K>, runs: seq<nat>)
    requires Canonical(heads, runs) && heads != []
    ensures Unroll(heads, runs) != [] && Last(Unroll(heads, runs)) == Last(heads)
  {
  }

  lemma {:induction false} RunsGrow<K>(heads: seq<K>, runs: seq<nat>, k: K, n: nat)
    requires Canonical(heads, runs) && Runs(Unroll(heads, runs)) == runs
    requires n >= 1 && (heads != [] ==> Last(heads) != k)
    ensures Runs(Unroll(heads + [k], runs + [n])) == runs + [n]
  {
    UnrollAppend(heads, runs, k, n);
    if heads != [] {
      UnrollLast(heads, runs);
    } else {
      assert Unroll(heads, runs) == [];
    }
    RunOpens(Unroll(heads, runs), k, n);
    hide Unroll, Group, Canonical;
  }

  /** The code is unique, so the runs of an unrolled code are its own. */
  lemma {:induction false} RunsOfUnrolled<K>(heads: seq<K>, runs: seq<nat>)
    requires Canonical(heads, runs)
    ensures Runs(Unroll(heads, runs)) == runs
  {
    if heads != [] {
      var m := |heads| - 1;
      assert heads == heads[..m] + [heads[m]] && runs == runs[..m] + [runs[m]];
      assert Canonical(heads[..m], runs[..m]);
      hide Unroll, Group;
      RunsOfUnrolled(heads[..m], runs[..m]);
      RunsGrow(heads[..m], runs[..m], heads[m], runs[m]);
    }
  }

  /** `runs` are the maximal runs of `keys` exactly when they are the lengths of a
      run-length code of `keys`. */
  lemma {:induction false} RunsAreMaximal<K>(keys: seq<K>, runs: seq<nat>)
    ensures runs == Runs(keys) <==> exists heads: seq<K> :: Canonical(heads, runs) && Unroll(heads, runs) == keys
  {
    RunsEncode(keys);
    if heads: seq<K> :| Canonical(heads, runs) && Unroll(heads, runs) == keys {
      RunsOfUnrolled(heads, runs);
    }
  }

  function Sum(s: seq<nat>): nat {
    if s == [] then 0 else Sum(Front(s)) + Last(s)
  }

  lemma {:induction false} SumAppend(s: seq<nat>, n: nat)
    ensures Sum(s + [n]) == Sum(s) + n
  {
    assert (s + [n])[..|s|] == s;
  }

  /** The runs account for every key. */
  lemma {:induction false} RunsSum<K>(keys: seq<K>)
    ensures Sum(Runs(keys)) == |keys|
  {
    if keys != [] {
      var n := |keys| - 1;
      RunsSum(keys[..n]);
      var g := Group(keys[..n]);
      SumAppend(g.closed, g.last);
      SumAppend(Group(keys).closed, Group(keys).last);
      assert Sum([]) == 0;
    }
  }

  function Longest(s: seq<nat>): nat { if s == [] then 0 else Max(Longest(Front(s)), Last(s)) }

  lemma {:induction false} LongestAppend(s: seq<nat>, n: nat)
    ensures Longest(s + [n]) == Max(Longest(s), n)
  {
    assert (s + [n])[..|s|] == s;
  }

  /** The number of adjacent pairs of equal keys. */
  function Ties<K(==)>(keys: seq<K>): nat {
    if |keys| < 2 then 0
    else Ties(Front(keys)) + (if keys[|keys| - 2] == Last(keys) then 1 else 0)
  }

  /** Every key but those that tie with their predecessor begins a run. */
  lemma {:induction false} RunsAreKeysLessTies<K>(keys: seq<K>)
    ensures |Runs(keys)| + Ties(keys) == |keys|
  {
    if keys != [] {
      RunsAreKeysLessTies(Front(keys));
    }
  }

  /** Refining the key never merges runs. */
  lemma {:induction false} FinerKeysMoreRuns<K, L>(fine: seq<K>, coarse: seq<L>)
    requires |fine| == |coarse|
    requires forall i, j :: 0 <= i < |fine| && 0 <= j < |fine| && fine[i] == fine[j] ==> coarse[i] == coarse[j]
    ensures |Runs(coarse)| <= |Runs(fine)|
  {
    if fine != [] {
      FinerKeysMoreRuns(Front(fine), Front(coarse));
    }
  }

  // ------------------------------------------------------------- histograms

  function Get(h: map<nat, nat>, k: nat): nat { if k in h then h[k] else 0 }

  function Bump(h: map<nat, nat>, k: nat): map<nat, nat> { h[k := Get(h, k) + 1] }

  /** The bucket of a run under a cap: everything longer shares the next one. */
  function Bucket(size: nat, cap: nat): nat { if size <= cap then size else cap + 1 }

  function HistOf(runs: seq<nat>, cap: nat): map<nat, nat> {
    if runs == [] then map[] else Bump(HistOf(Front(runs), cap), Bucket(Last(runs), cap))
  }

  lemma {:induction false} HistAppend(runs: seq<nat>, n: nat, cap: nat)
    ensures HistOf(runs + [n], cap) == Bump(HistOf(runs, cap), Bucket(n, cap))
  {
    assert (runs + [n])[..|runs|] == runs;
  }

  /** How many of each value, uncapped. */
  function Tally(s: seq<nat>): map<nat, nat> { if s == [] then map[] else Bump(Tally(Front(s)), Last(s)) }

  lemma {:induction false} TallyAppend(s: seq<nat>, n: nat)
    ensures Tally(s + [n]) == Bump(Tally(s), n)
  {
    assert (s + [n])[..|s|] == s;
  }

  /** The tally's keys are the values that occur. */
  lemma {:induction false} TallyKeys(s: seq<nat>)
    ensures forall k :: k in Tally(s) <==> k in s
  {
    if s != [] {
      TallyKeys(Front(s));
      assert s == Front(s) + [Last(s)];
    }
  }

  /** The counts of buckets below `n`, summed. */
  function Mass(h: map<nat, nat>, n: nat): nat {
    if n == 0 then 0 else Mass(h, n - 1) + Get(h, n - 1)
  }

  /** The rows in `count` runs of one size. */
  function Rows(size: nat, count: nat): nat { size * count }

  lemma OneRunMore(size: nat, count: nat)
    ensures Rows(size, count + 1) == Rows(size, count) + size && Rows(size, 0) == 0
  {
  }

  /** The counts below `n`, each times its bucket. */
  function Weighted(h: map<nat, nat>, n: nat): nat {
    if n == 0 then 0 else Weighted(h, n - 1) + Rows(n - 1, Get(h, n - 1))
  }

  lemma {:induction false} BumpMass(h: map<nat, nat>, k: nat, n: nat)
    ensures Mass(Bump(h, k), n) == Mass(h, n) + (if k < n then 1 else 0)
    ensures Weighted(Bump(h, k), n) == Weighted(h, n) + (if k < n then k else 0)
  {
    hide Rows;
    if n > 0 {
      BumpMass(h, k, n - 1);
      OneRunMore(k, Get(h, k));
    }
  }

  lemma {:induction false} EmptyMass(n: nat)
    ensures Mass(map[], n) == 0 && Weighted(map[], n) == 0
  {
    if n > 0 {
      EmptyMass(n - 1);
      OneRunMore(n - 1, 0);
    }
  }

  /** The histogram's counts sum to the runs, and its size-weighted counts reach
      the keys exactly when no run is longer than one past the cap. */
  lemma {:induction false} HistogramSums(runs: seq<nat>, cap: nat)
    ensures Mass(HistOf(runs, cap), cap + 2) == |runs|
    ensures Weighted(HistOf(runs, cap), cap + 2) <= Sum(runs)
    ensures Weighted(HistOf(runs, cap), cap + 2) == Sum(runs) <==> forall i :: 0 <= i < |runs| ==> runs[i] <= cap + 1
  {
    if runs == [] {
      EmptyMass(cap + 2);
    } else {
      var n := |runs| - 1;
      HistogramSums(runs[..n], cap);
      BumpMass(HistOf(runs[..n], cap), Bucket(runs[n], cap), cap + 2);
      if forall i :: 0 <= i < |runs| ==> runs[i] <= cap + 1 {
        assert forall i :: 0 <= i < n ==> runs[..n][i] <= cap + 1;
      } else {
        var i :| 0 <= i < |runs| && runs[i] > cap + 1;
        assert i < n ==> runs[..n][i] > cap + 1;
      }
    }
  }

  // --------------------------------------------------- an incremental group

  /** One group tracker after reading `keys`: the open run's length, and the closed
      runs' count and histogram. */
  ghost predicate Tracked<K>(keys: seq<K>, size: nat, parents: nat, hist: map<nat, nat>, cap: nat) {
    size == Group(keys).last && parents == |Group(keys).closed| && hist == HistOf(Group(keys).closed, cap)
  }

  lemma {:induction false} LastPositive<K>(keys: seq<K>)
    ensures keys == [] <==> Group(keys).last == 0
  {
    if keys != [] {
      LastPositive(Front(keys));
    }
  }

  lemma {:induction false} TrackerStep<K>(keys: seq<K>, k: K, size: nat, parents: nat, hist: map<nat, nat>, cap: nat)
    requires Tracked(keys, size, parents, hist, cap)
    ensures keys == [] <==> size == 0
    ensures var same := keys != [] && Last(keys) == k;
            Tracked(keys + [k], if same then size + 1 else 1,
                    if same || keys == [] then parents else parents + 1,
                    if same || keys == [] then hist else Bump(hist, Bucket(size, cap)), cap)
  {
    LastPositive(keys);
    GroupExtend(keys, k);
    HistAppend(Group(keys).closed, Group(keys).last, cap);
  }

  /** Closing the open run completes the count and the histogram. */
  lemma {:induction false} TrackerClose<K>(keys: seq<K>, size: nat, parents: nat, hist: map<nat, nat>, cap: nat)
    requires Tracked(keys, size, parents, hist, cap)
    ensures keys == [] <==> size == 0
    ensures keys != [] ==> parents + 1 == |Runs(keys)| && Bump(hist, Bucket(size, cap)) == HistOf(Runs(keys), cap)
    ensures keys == [] ==> parents == |Runs(keys)| && hist == HistOf(Runs(keys), cap)
  {
    LastPositive(keys);
    HistAppend(Group(keys).closed, Group(keys).last, cap);
  }
}
