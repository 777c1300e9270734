/** The worker pool of `arrival_envelope_diagnostic.rs`: threads that draw cell indexes
    from one shared counter, and the collection of what they send back. */
module WorkerPool {
  import opened Prelude

  /** Where a thread stands between two of its shared accesses. */
  datatype Worker<V, E> =
    | Ready
    | Claimed(index: nat)
    | Evaluated(index: nat, result: Result<V, E>)
    | Done

  datatype Message<V, E> = Message(index: nat, result: Result<V, E>)

  datatype State<V, E> = State(next: nat, workers: seq<Worker<V, E>>, channel: seq<Message<V, E>>)

  /** As many threads as jobs, but no more than cells, and at least one. */
  function PoolSize(jobs: nat, cells: nat): nat { Min(jobs, Max(cells, 1)) }

  /** The most threads that are no more than the jobs and no more than the cells, where
      there are cells; one where there are none. */
  lemma PoolSizeIsMost(jobs: nat, cells: nat, threads: nat)
    requires jobs > 0
    ensures 1 <= PoolSize(jobs, cells) <= jobs
    ensures cells == 0 ==> PoolSize(jobs, cells) == 1
    ensures cells > 0 ==> (threads <= PoolSize(jobs, cells) <==> threads <= jobs && threads <= cells)
  {
  }

  function Start<V, E>(threads: nat): State<V, E> { State(0, seq(threads, _ => Ready), []) }

  /** Thread `w` takes its next step: draw an index, look the cell up and evaluate
      it, or send the result. A thread that has left its loop does nothing. */
  function Step<C, V, E>(s: State<V, E>, w: nat, cells: seq<C>, eval: C -> Result<V, E>): State<V, E> {
    if w >= |s.workers| then s
    else match s.workers[w]
      case Ready => s.(next := s.next + 1, workers := s.workers[w := Claimed(s.next)])
      case Claimed(i) =>
        s.(workers := s.workers[w := if i < |cells| then Evaluated(i, eval(cells[i])) else Done])
      case Evaluated(i, r) => s.(channel := s.channel + [Message(i, r)], workers := s.workers[w := Ready])
      case Done => s
  }

  /** A schedule is any sequence of thread numbers. */
  function Run<C, V, E>(s: State<V, E>, schedule: seq<nat>, cells: seq<C>, eval: C -> Result<V, E>): State<V, E>
    decreases |schedule|
  {
    if schedule == [] then s else Run(Step(s, schedule[0], cells, eval), schedule[1..], cells, eval)
  }

  predicate AllDone<V, E>(s: State<V, E>) { forall w :: 0 <= w < |s.workers| ==> s.workers[w].Done? }

  // ------------------------------------------------------------------- counting

  function Count<T>(s: seq<T>, p: T -> bool): nat {
    if s == [] then 0 else Count(Front(s), p) + (if p(Last(s)) then 1 else 0)
  }

  lemma {:induction false} CountAppend<T>(s: seq<T>, x: T, p: T -> bool)
    ensures Count(s + [x], p) == Count(s, p) + (if p(x) then 1 else 0)
  {
    assert (s + [x])[..|s|] == s;
  }

  lemma {:induction false} CountUpdate<T>(s: seq<T>, k: nat, x: T, p: T -> bool)
    requires k < |s|
    ensures Count(s[k := x], p) + (if p(s[k]) then 1 else 0) == Count(s, p) + (if p(x) then 1 else 0)
  {
    var n := |s| - 1;
    if k == n {
      assert s[k := x][..n] == s[..n];
    } else {
      assert s[k := x][..n] == s[..n][k := x];
      CountUpdate(s[..n], k, x, p);
    }
  }

  lemma {:induction false} CountNone<T>(s: seq<T>, p: T -> bool)
    ensures Count(s, p) == 0 <==> forall k :: 0 <= k < |s| ==> !p(s[k])
    ensures Count(s, p) <= |s|
  {
    if s != [] {
      var f := Front(s);
      CountNone(f, p);
      assert forall k :: 0 <= k < |f| ==> f[k] == s[k];
    }
  }

  predicate Holds<V, E>(w: Worker<V, E>, i: nat) { (w.Claimed? || w.Evaluated?) && w.index == i }

  /** How many threads hold index `i`. */
  function Held<V, E>(workers: seq<Worker<V, E>>, i: nat): nat { Count(workers, (w: Worker<V, E>) => Holds(w, i)) }

  /** How many messages bear index `i`. */
  function Sent<V, E>(channel: seq<Message<V, E>>, i: nat): nat { Count(channel, (m: Message<V, E>) => m.index == i) }

  predicate Past<V, E>(w: Worker<V, E>, cells: nat) { w.Done? || (w.Claimed? && w.index >= cells) }

  /** How many threads have drawn an index past the cells. */
  function Overdrawn<V, E>(workers: seq<Worker<V, E>>, cells: nat): nat {
    Count(workers, (w: Worker<V, E>) => Past(w, cells))
  }

  // ------------------------------------------------------------------ invariant

  /** Every index below the counter is in exactly one place, every other in none. */
  ghost predicate ClaimedOnce<V, E>(s: State<V, E>, cells: nat) {
    forall i: nat :: i < cells ==> Held(s.workers, i) + Sent(s.channel, i) == if i < s.next then 1 else 0
  }

  ghost predicate Truthful<C, V, E>(s: State<V, E>, cells: seq<C>, eval: C -> Result<V, E>) {
    && (forall w :: 0 <= w < |s.workers| && s.workers[w].Evaluated? ==>
          s.workers[w].index < |cells| && s.workers[w].result == eval(cells[s.workers[w].index]))
    && (forall j :: 0 <= j < |s.channel| ==>
          s.channel[j].index < |cells| && s.channel[j].result == eval(cells[s.channel[j].index]))
  }

  ghost predicate Inv<C, V, E>(s: State<V, E>, cells: seq<C>, eval: C -> Result<V, E>) {
    && ClaimedOnce(s, |cells|) && Truthful(s, cells, eval)
    && Overdrawn(s.workers, |cells|) == Max(0, s.next - |cells|)
  }

  lemma StartInv<C, V, E>(threads: nat, cells: seq<C>, eval: C -> Result<V, E>)
    ensures Inv(Start<V, E>(threads), cells, eval)
  {
    var s := Start<V, E>(threads);
    CountNone(s.workers, (w: Worker<V, E>) => Past(w, |cells|));
    forall i: nat | i < |cells| ensures Held(s.workers, i) + Sent(s.channel, i) == 0 {
      CountNone(s.workers, (w: Worker<V, E>) => Holds(w, i));
    }
  }

  lemma StepKeepsClaims<C, V, E>(s: State<V, E>, w: nat, cells: seq<C>, eval: C -> Result<V, E>)
    requires ClaimedOnce(s, |cells|)
    ensures ClaimedOnce(Step(s, w, cells, eval), |cells|)
  {
    var t := Step(s, w, cells, eval);
    if w < |s.workers| {
      forall i: nat | i < |cells|
        ensures Held(t.workers, i) + Sent(t.channel, i) == if i < t.next then 1 else 0
      {
        assert Held(s.workers, i) + Sent(s.channel, i) == if i < s.next then 1 else 0;
        CountUpdate(s.workers, w, t.workers[w], (x: Worker<V, E>) => Holds(x, i));
        if s.workers[w].Evaluated? {
          CountAppend(s.channel, Message(s.workers[w].index, s.workers[w].result), (m: Message<V, E>) => m.index == i);
        }
        hide Count;
        assert t.workers == s.workers[w := t.workers[w]];
      }
    }
  }

  lemma StepKeepsOverdrawn<C, V, E>(s: State<V, E>, w: nat, cells: seq<C>, eval: C -> Result<V, E>)
    requires Overdrawn(s.workers, |cells|) == Max(0, s.next - |cells|)
    ensures var t := Step(s, w, cells, eval); Overdrawn(t.workers, |cells|) == Max(0, t.next - |cells|)
  {
    var t := Step(s, w, cells, eval);
    if w < |s.workers| {
      CountUpdate(s.workers, w, t.workers[w], (x: Worker<V, E>) => Past(x, |cells|));
      hide Count;
      assert t.workers == s.workers[w := t.workers[w]];
    }
  }

  /** Every step of every thread keeps the invariant. */
  lemma StepKeepsInv<C, V, E>(s: State<V, E>, w: nat, cells: seq<C>, eval: C -> Result<V, E>)
    requires Inv(s, cells, eval)
    ensures Inv(Step(s, w, cells, eval), cells, eval)
  {
    StepKeepsClaims(s, w, cells, eval);
    StepKeepsOverdrawn(s, w, cells, eval);
    hide ClaimedOnce, Overdrawn;
  }

  lemma {:induction false} RunKeepsInv<C, V, E>(s: State<V, E>, schedule: seq<nat>, cells: seq<C>,
      eval: C -> Result<V, E>)
    requires Inv(s, cells, eval)
    ensures Inv(Run(s, schedule, cells, eval), cells, eval)
    ensures |Run(s, schedule, cells, eval).workers| == |s.workers|
    decreases |schedule|
  {
    if schedule != [] {
      StepKeepsInv(s, schedule[0], cells, eval);
      hide Inv;
      RunKeepsInv(Step(s, schedule[0], cells, eval), schedule[1..], cells, eval);
    }
  }

  // ----------------------------------------------------------------- every run

  /** On any schedule no index is ever claimed twice, and the counter passes the
      cells by at most one draw per thread. */
  lemma NoIndexTwice<C, V, E>(threads: nat, schedule: seq<nat>, cells: seq<C>, eval: C -> Result<V, E>)
    ensures var s := Run(Start<V, E>(threads), schedule, cells, eval);
            && (forall i: nat :: i < |cells| ==> Held(s.workers, i) + Sent(s.channel, i) == if i < s.next then 1 else 0)
            && s.next <= |cells| + threads
  {
    StartInv(threads, cells, eval);
    RunKeepsInv(Start(threads), schedule, cells, eval);
    var s := Run(Start<V, E>(threads), schedule, cells, eval);
    CountNone(s.workers, (x: Worker<V, E>) => Past(x, |cells|));
    hide Held, Sent, Run;
  }

  /** Once every thread has left its loop, each cell has been sent exactly once, with
      its own result, and nothing else has been sent. */
  lemma AllSentOnce<C, V, E>(threads: nat, schedule: seq<nat>, cells: seq<C>, eval: C -> Result<V, E>)
    requires threads > 0 && AllDone(Run(Start<V, E>(threads), schedule, cells, eval))
    ensures var channel := Run(Start<V, E>(threads), schedule, cells, eval).channel;
            && (forall i: nat :: i < |cells| ==> Sent(channel, i) == 1)
            && (forall j :: 0 <= j < |channel| ==>
                  channel[j].index < |cells| && channel[j].result == eval(cells[channel[j].index]))
  {
    StartInv(threads, cells, eval);
    RunKeepsInv(Start(threads), schedule, cells, eval);
    var s := Run(Start<V, E>(threads), schedule, cells, eval);
    hide Run, Sent;
    CountNone(s.workers, (x: Worker<V, E>) => Past(x, |cells|));
    assert Past(s.workers[0], |cells|);
    assert s.next > |cells|;
    forall i: nat | i < |cells| ensures Sent(s.channel, i) == 1 {
      CountNone(s.workers, (x: Worker<V, E>) => Holds(x, i));
      assert Held(s.workers, i) == 0;
    }
  }

  // --------------------------------------------------------------- termination

  function Rank<V, E>(w: Worker<V, E>): nat {
    match w
    case Claimed(_) => 2
    case Evaluated(_, _) => 1
    case _ => 0
  }

  function Ranks<V, E>(workers: seq<Worker<V, E>>): nat {
    if workers == [] then 0 else Ranks(Front(workers)) + Rank(Last(workers))
  }

  lemma {:induction false} RanksUpdate<V, E>(workers: seq<Worker<V, E>>, k: nat, x: Worker<V, E>)
    requires k < |workers|
    ensures Ranks(workers[k := x]) + Rank(workers[k]) == Ranks(workers) + Rank(x)
  {
    var n := |workers| - 1;
    if k == n {
      assert workers[k := x][..n] == workers[..n];
    } else {
      assert workers[k := x][..n] == workers[..n][k := x];
      RanksUpdate(workers[..n], k, x);
    }
  }

  /** What is left to do: three steps per draw still to come, and the steps of the
      draws under way. */
  function Left<V, E>(s: State<V, E>, cells: nat): int { 3 * (cells + |s.workers| - s.next) + Ranks(s.workers) }

  /** A step of a thread still in its loop makes progress. */
  lemma StepProgresses<C, V, E>(s: State<V, E>, w: nat, cells: seq<C>, eval: C -> Result<V, E>)
    requires Inv(s, cells, eval) && w < |s.workers| && !s.workers[w].Done?
    ensures 0 <= Left(Step(s, w, cells, eval), |cells|) < Left(s, |cells|)
  {
    var t := Step(s, w, cells, eval);
    StepKeepsInv(s, w, cells, eval);
    RanksUpdate(s.workers, w, t.workers[w]);
    assert t.workers == s.workers[w := t.workers[w]];
    CountNone(t.workers, (x: Worker<V, E>) => Past(x, |cells|));
    hide ClaimedOnce, Truthful, Count, Ranks;
  }

  /** The steps of a schedule that find their thread still in its loop. */
  function Moves<C, V, E>(s: State<V, E>, schedule: seq<nat>, cells: seq<C>, eval: C -> Result<V, E>): nat
    decreases |schedule|
  {
    if schedule == [] then 0
    else
      (if schedule[0] < |s.workers| && !s.workers[schedule[0]].Done? then 1 else 0)
      + Moves(Step(s, schedule[0], cells, eval), schedule[1..], cells, eval)
  }

  /** No schedule keeps the threads busy for ever: three steps per cell and per
      thread are all there are. */
  lemma {:induction false} MovesBounded<C, V, E>(s: State<V, E>, schedule: seq<nat>, cells: seq<C>,
      eval: C -> Result<V, E>)
    requires Inv(s, cells, eval)
    ensures Moves(s, schedule, cells, eval) <= Left(s, |cells|)
    decreases |schedule|
  {
    if schedule == [] {
      CountNone(s.workers, (x: Worker<V, E>) => Past(x, |cells|));
    } else {
      var w := schedule[0];
      StepKeepsInv(s, w, cells, eval);
      MovesBounded(Step(s, w, cells, eval), schedule[1..], cells, eval);
      if w < |s.workers| && !s.workers[w].Done? {
        StepProgresses(s, w, cells, eval);
      }
      hide Inv, Left;
    }
  }

  lemma EveryRunEnds<C, V, E>(threads: nat, schedule: seq<nat>, cells: seq<C>, eval: C -> Result<V, E>)
    ensures Moves(Start<V, E>(threads), schedule, cells, eval) <= 3 * (|cells| + threads)
  {
    StartInv(threads, cells, eval);
    MovesBounded(Start(threads), schedule, cells, eval);
    IdleRanks<V, E>(threads);
  }

  lemma {:induction false} IdleRanks<V, E>(n: nat)
    ensures Ranks<V, E>(seq(n, _ => Ready)) == 0
  {
    if n > 0 {
      IdleRanks<V, E>(n - 1);
      assert seq<Worker<V, E>>(n, _ => Ready)[..n - 1] == seq(n - 1, _ => Ready);
    }
  }

  // ----------------------------------------------------------------- collecting

  /** The cells evaluated one after the other. */
  function Sequential<C, V, E>(cells: seq<C>, eval: C -> Result<V, E>): seq<Result<V, E>> {
    seq(|cells|, i requires 0 <= i < |cells| => eval(cells[i]))
  }

  /** The slots filled from the channel, then unwrapped: an error in a message is
      returned as it is met, and no slot is left empty. */
  method Collect<C, V, E>(channel: seq<Message<V, E>>, cells: seq<C>, ghost eval: C -> Result<V, E>)
    returns (r: Result<seq<V>, E>)
    requires forall i: nat :: i < |cells| ==> Sent(channel, i) == 1
    requires forall j :: 0 <= j < |channel| ==>
      channel[j].index < |cells| && channel[j].result == eval(cells[channel[j].index])
    ensures r.Ok? <==> forall i :: 0 <= i < |cells| ==> Sequential(cells, eval)[i].Ok?
    ensures r.Ok? ==>
      |r.value| == |cells| && forall i :: 0 <= i < |cells| ==> Sequential(cells, eval)[i] == Ok(r.value[i])
    ensures r.Err? ==> exists j ::
      0 <= j < |channel| && channel[j].result == Err(r.error) && forall k :: 0 <= k < j ==> channel[k].result.Ok?
    ensures r.Err? ==> exists i :: 0 <= i < |cells| && Sequential(cells, eval)[i] == Err(r.error)
  {
    var evaluated := new Option<V>[|cells|](_ => None);
    var j := 0;
    while j < |channel|
      invariant 0 <= j <= |channel|
      invariant forall k :: 0 <= k < j ==> channel[k].result.Ok?
      invariant forall i :: 0 <= i < |cells| && evaluated[i].Some? ==> eval(cells[i]) == Ok(evaluated[i].value)
      invariant forall k :: 0 <= k < j ==> evaluated[channel[k].index].Some?
    {
      var m := channel[j];
      match m.result
      case Err(e) =>
        assert Sequential(cells, eval)[m.index] == Err(e);
        return Err(e);
      case Ok(v) =>
        evaluated[m.index] := Some(v);
        j := j + 1;
    }
    forall i: nat | i < |cells| ensures evaluated[i].Some? {
      CountNone(channel, (m: Message<V, E>) => m.index == i);
      assert Sent(channel, i) == 1;
    }
    r := Ok(seq(|cells|, i requires 0 <= i < |cells| && evaluated[i].Some? reads evaluated => evaluated[i].value));
  }

  /** Whatever the interleaving, the pool computes what the plain loop would: the
      cells in order when all succeed, otherwise one of their errors. */
  method RunPool<C, V, E>(jobs: nat, ghost schedule: seq<nat>, channel: seq<Message<V, E>>, cells: seq<C>,
      ghost eval: C -> Result<V, E>)
    returns (r: Result<seq<V>, E>)
    requires jobs > 0 && AllDone(Run(Start<V, E>(PoolSize(jobs, |cells|)), schedule, cells, eval))
    requires channel == Run(Start<V, E>(PoolSize(jobs, |cells|)), schedule, cells, eval).channel
    ensures r.Ok? <==> forall i :: 0 <= i < |cells| ==> Sequential(cells, eval)[i].Ok?
    ensures r.Ok? ==>
      |r.value| == |cells| && forall i :: 0 <= i < |cells| ==> Sequential(cells, eval)[i] == Ok(r.value[i])
    ensures r.Err? ==> exists i :: 0 <= i < |cells| && Sequential(cells, eval)[i] == Err(r.error)
  {
    AllSentOnce(PoolSize(jobs, |cells|), schedule, cells, eval);
    r := Collect(channel, cells, eval);
  }
}
