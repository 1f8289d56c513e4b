/**
 * The script check queue of src/checkqueue.h as a state machine: one step per
 * critical section or per check executed outside it, for one master, any
 * number of workers and every interleaving. Thread 0 is the master.
 */
module CheckQueue {
  import opened Common
  import Arithmetic

  datatype Check = Check(id: nat, ok: bool)

  /** Where a thread is. A blocked thread waits on its condition variable, `notified` if a notification is pending. */
  datatype Phase =
    | Outside
    | Notifying(single: bool)
    | Blocked(notified: bool)
    | Working(batch: seq<Check>, next: nat, ok: bool)

  /** A completed Wait: what it returned, and the checks added since the one before. */
  datatype Report = Report(result: bool, round: seq<Check>)

  datatype State = State(
    queue: seq<Check>, idle: int, total: int, allOk: bool, todo: int,
    threads: seq<Phase>, batchSize: nat,
    round: seq<Check>, finished: multiset<Check>, reports: seq<Report>)

  function Init(workers: nat, batchSize: nat): State {
    State([], 0, 0, true, 0, seq(workers + 1, _ => Outside), batchSize, [], multiset{}, [])
  }

  // ----- the critical section -----

  /** How many checks a thread takes at once. */
  function BatchLength(s: State): nat
    requires s.total + s.idle >= 0
  {
    Max(1, Min(s.batchSize, |s.queue| / (s.total + s.idle + 1)))
  }

  /** The last `n` queued checks, taken one by one from the back. */
  function LastReversed(q: seq<Check>, n: nat): seq<Check>
    requires n <= |q|
  {
    if n == 0 then [] else [q[|q| - 1]] + LastReversed(q[..|q| - 1], n - 1)
  }

  /** Moving a batch from the back of the queue into a thread's own vector. */
  method TakeBatch(q: seq<Check>, n: nat) returns (batch: seq<Check>, rest: seq<Check>)
    requires n <= |q|
    ensures batch == LastReversed(q, n) && rest == q[..|q| - n]
  {
    batch, rest := [], q;
    for i := 0 to n
      invariant rest == q[..|q| - i] && batch + LastReversed(rest, n - i) == LastReversed(q, n)
    {
      var last := rest[|rest| - 1];
      assert batch + LastReversed(rest, n - i) == (batch + [last]) + LastReversed(rest[..|rest| - 1], n - i - 1);
      batch := batch + [last];
      rest := rest[..|rest| - 1];
    }
  }

  /** Executing a batch outside the lock: a failed check makes the thread skip the rest. */
  method ExecuteBatch(batch: seq<Check>, start: bool) returns (ok: bool)
    ensures ok <==> start && AllPass(batch)
  {
    ok := start;
    for i := 0 to |batch|
      invariant ok <==> start && AllPass(batch[..i])
    {
      assert batch[..i + 1] == batch[..i] + [batch[i]];
      if ok { ok := batch[i].ok; }
    }
    assert batch[..|batch|] == batch;
  }

  function Set(s: State, t: nat, p: Phase): State
    requires t < |s.threads|
  {
    s.(threads := s.threads[t := p])
  }

  /** With the lock held and the previous batch accounted for: return, block, or take a batch. */
  function Proceed(s: State, t: nat): State
    requires t < |s.threads| && s.total + s.idle >= 0
  {
    if s.queue == [] then
      if t == 0 && s.todo == 0 then
        Set(s, t, Outside).(total := s.total - 1, allOk := true, round := [], finished := multiset{},
                            reports := s.reports + [Report(s.allOk, s.round)])
      else Set(s, t, Blocked(false)).(idle := s.idle + 1)
    else
      BatchFits(s);
      var n := BatchLength(s);
      Set(s, t, Working(LastReversed(s.queue, n), 0, s.allOk)).(queue := s.queue[..|s.queue| - n])
  }

  // ----- steps -----

  datatype Step =
    | Add(checks: seq<Check>)
    | Notify(worker: nat)
    | Enter(t: nat)
    | Execute(t: nat)
    | Finish(t: nat)
    | Wake(t: nat)

  predicate Enabled(s: State, a: Step) {
    match a
    case Add(checks) => s.threads != [] && s.threads[0] == Outside
    case Notify(w) => s.threads != [] && s.threads[0].Notifying? && w < |s.threads|
    case Enter(t) => t < |s.threads| && s.threads[t] == Outside
    case Execute(t) => t < |s.threads| && s.threads[t].Working? && s.threads[t].next < |s.threads[t].batch|
    case Finish(t) => t < |s.threads| && s.threads[t].Working? && s.threads[t].next == |s.threads[t].batch|
    case Wake(t) => t < |s.threads| && s.threads[t].Blocked?
  }

  function Notified(p: Phase): Phase { if p.Blocked? then Blocked(true) else p }

  /** What one executed check leaves of the thread's verdict; after a failure checks are skipped. */
  function Executed(p: Phase): Phase
    requires p.Working? && p.next < |p.batch|
  {
    p.(next := p.next + 1, ok := p.ok && p.batch[p.next].ok)
  }

  /** A finished batch enters the shared verdict; the last one wakes the master. */
  function Accounted(s: State, t: nat): State
    requires t < |s.threads| && s.threads[t].Working?
  {
    var p := s.threads[t];
    var left := s.todo - |p.batch|;
    var u := s.(allOk := s.allOk && p.ok, todo := left, finished := s.finished + multiset(p.batch));
    if left == 0 && t != 0 then Set(u, 0, Notified(u.threads[0])) else u
  }

  // ----- counting over threads -----

  function Sum(ts: seq<Phase>, weight: Phase -> int): int {
    if ts == [] then 0 else Sum(ts[..|ts| - 1], weight) + weight(ts[|ts| - 1])
  }

  function BlockedWeight(p: Phase): int { if p.Blocked? then 1 else 0 }

  function InsideWeight(p: Phase): int { if p.Blocked? || p.Working? then 1 else 0 }

  lemma {:induction false} SumAfterUpdate(ts: seq<Phase>, i: nat, p: Phase, weight: Phase -> int)
    requires i < |ts|
    ensures Sum(ts[i := p], weight) == Sum(ts, weight) - weight(ts[i]) + weight(p)
  {
    var last := |ts| - 1;
    if i == last {
      assert ts[i := p][..last] == ts[..last];
    } else {
      SumAfterUpdate(ts[..last], i, p, weight);
      assert ts[i := p][..last] == ts[..last][i := p];
    }
  }

  function HeldBy(p: Phase): multiset<Check> { if p.Working? then multiset(p.batch) else multiset{} }

  /** The checks in batches that are not accounted for yet. */
  function Held(ts: seq<Phase>): multiset<Check> {
    if ts == [] then multiset{} else Held(ts[..|ts| - 1]) + HeldBy(ts[|ts| - 1])
  }

  lemma {:induction false} HeldAfterUpdate(ts: seq<Phase>, i: nat, p: Phase)
    requires i < |ts|
    ensures Held(ts[i := p]) + HeldBy(ts[i]) == Held(ts) + HeldBy(p)
  {
    hide HeldBy;
    var last := |ts| - 1;
    if i == last {
      assert ts[i := p][..last] == ts[..last];
    } else {
      var front, back := ts[..last], HeldBy(ts[last]);
      HeldAfterUpdate(front, i, p);
      assert ts[i := p][..last] == front[i := p] && front[i] == ts[i];
      calc {
        Held(ts[i := p]) + HeldBy(ts[i]);
        (Held(front[i := p]) + back) + HeldBy(ts[i]);
        (Held(front[i := p]) + HeldBy(ts[i])) + back;
        (Held(front) + HeldBy(p)) + back;
        (Held(front) + back) + HeldBy(p);
        Held(ts) + HeldBy(p);
      }
    }
  }

  lemma Cancel(a: multiset<Check>, b: multiset<Check>, x: multiset<Check>)
    requires a + x == b + x
    ensures a == b
  {
    forall c: Check ensures a[c] == b[c] { assert (a + x)[c] == (b + x)[c]; }
  }

  /** A thread that goes on holding the same checks changes nothing. */
  lemma HeldSame(ts: seq<Phase>, i: nat, p: Phase)
    requires i < |ts| && HeldBy(p) == HeldBy(ts[i])
    ensures Held(ts[i := p]) == Held(ts)
  {
    HeldAfterUpdate(ts, i, p);
    Cancel(Held(ts[i := p]), Held(ts), HeldBy(p));
  }

  lemma {:induction false} HeldMember(ts: seq<Phase>, i: nat)
    requires i < |ts|
    ensures HeldBy(ts[i]) <= Held(ts)
  {
    if i < |ts| - 1 { HeldMember(ts[..|ts| - 1], i); }
  }

  // ----- the invariant -----

  predicate AllPass(cs: seq<Check>) { forall i :: 0 <= i < |cs| ==> cs[i].ok }

  ghost predicate SomeFails(cs: seq<Check>) { exists i :: 0 <= i < |cs| && !cs[i].ok }

  /** A working thread passes only if what it executed passed, and fails only if some check of the round does. */
  ghost predicate VerdictOk(p: Phase, round: seq<Check>) {
    p.Working? ==>
      && p.batch != [] && p.next <= |p.batch|
      && (p.ok ==> AllPass(p.batch[..p.next])) && (!p.ok ==> SomeFails(round))
  }

  /** Idle and total threads are counted exactly. */
  ghost predicate Counted(s: State) {
    s.idle == Sum(s.threads, BlockedWeight) && s.total == Sum(s.threads, InsideWeight)
  }

  /** Every check of the round is queued, in one thread's batch, or accounted for, and `todo` counts the first two. */
  ghost predicate Conserved(s: State) {
    && s.todo == |s.queue| + |Held(s.threads)|
    && multiset(s.round) == multiset(s.queue) + Held(s.threads) + s.finished
  }

  ghost predicate VerdictsOk(s: State) {
    && (forall i :: 0 <= i < |s.threads| ==> VerdictOk(s.threads[i], s.round))
    && (s.allOk ==> forall c :: c in s.finished ==> c.ok)
    && (!s.allOk ==> SomeFails(s.round))
  }

  /** Only workers and the master's own loop hold checks; a master that blocked without a notification has
      work to wait for. */
  ghost predicate MasterOk(s: State) {
    && s.threads != []
    && (forall i :: 0 < i < |s.threads| ==> !s.threads[i].Notifying?)
    && (s.threads[0] == Blocked(false) ==> s.queue == [] && s.todo > 0)
  }

  /** Every Wait so far returned the conjunction of the checks of its round. */
  ghost predicate ReportsOk(s: State) {
    forall i :: 0 <= i < |s.reports| ==> (s.reports[i].result <==> AllPass(s.reports[i].round))
  }

  ghost predicate Inv(s: State) { Counted(s) && Conserved(s) && VerdictsOk(s) && MasterOk(s) && ReportsOk(s) }

  // ----- every step keeps the invariant -----

  /** Thread `t` holds the lock between accounting for its previous batch and deciding what to do next. */
  ghost predicate InCritical(s: State, t: nat) {
    && t < |s.threads| && s.threads[t] == Outside && s.total + s.idle >= 0
    && s.idle == Sum(s.threads, BlockedWeight) && s.total == Sum(s.threads, InsideWeight) + 1
    && Conserved(s) && VerdictsOk(s) && MasterOk(s) && ReportsOk(s)
  }

  lemma {:induction false} SumNonNegative(ts: seq<Phase>)
    ensures Sum(ts, BlockedWeight) >= 0 && Sum(ts, InsideWeight) >= 0
  {
    if ts != [] { SumNonNegative(ts[..|ts| - 1]); }
  }

  lemma {:induction false} ReversedSame(q: seq<Check>, n: nat)
    requires n <= |q|
    ensures |LastReversed(q, n)| == n && multiset(LastReversed(q, n)) == multiset(q[|q| - n..])
  {
    if n > 0 {
      var last := |q| - 1;
      ReversedSame(q[..last], n - 1);
      assert q[|q| - n..] == q[..last][last - (n - 1)..] + [q[last]];
    }
  }

  lemma TakeConserves(q: seq<Check>, n: nat)
    requires n <= |q|
    ensures |LastReversed(q, n)| == n
    ensures multiset(q) == multiset(q[..|q| - n]) + multiset(LastReversed(q, n))
  {
    ReversedSame(q, n);
    assert q == q[..|q| - n] + q[|q| - n..];
  }

  lemma BatchFits(s: State)
    requires s.queue != [] && s.total + s.idle >= 0
    ensures 1 <= BatchLength(s) <= |s.queue|
  {
    var k := s.total + s.idle + 1;
    assert |s.queue| / k <= |s.queue| by { Arithmetic.DivShrinks(|s.queue|, k); }
  }

  /** A thread takes one check, or the largest batch within the limit that leaves as much for every other thread. */
  lemma BatchShared(s: State)
    requires s.queue != [] && s.total + s.idle >= 0
    ensures var n, k := BatchLength(s), s.total + s.idle + 1;
      && (n == 1 || (n <= s.batchSize && n * k <= |s.queue|))
      && (n < s.batchSize ==> (n + 1) * k > |s.queue|)
  {
    var n, k, q := BatchLength(s), s.total + s.idle + 1, |s.queue|;
    assert q == k * (q / k) + q % k;
    if n > 1 { Arithmetic.MulMono(k, n, q / k); }
    if n < s.batchSize { Arithmetic.MulMono(k, q / k + 1, n + 1); Arithmetic.MulSucc(k, q / k); }
  }

  lemma ProceedReturns(s: State)
    requires InCritical(s, 0) && s.queue == [] && s.todo == 0
    ensures Inv(Proceed(s, 0))
  {
    var r := Proceed(s, 0);
    assert r.threads == s.threads;
    assert multiset(s.round) == s.finished;
    RoundVerdict(s);
    forall i | 0 <= i < |s.threads| ensures !s.threads[i].Working? {
      HeldMember(s.threads, i);
      assert VerdictOk(s.threads[i], s.round) && |HeldBy(s.threads[i])| == 0;
    }
  }

  /** With everything accounted for, the shared verdict is the conjunction of the round. */
  lemma RoundVerdict(s: State)
    requires VerdictsOk(s) && multiset(s.round) == s.finished
    ensures s.allOk <==> AllPass(s.round)
  {
    if s.allOk {
      forall i | 0 <= i < |s.round| ensures s.round[i].ok { assert s.round[i] in multiset(s.round); }
    }
  }

  /** Counts and held checks after thread `t`, which held nothing, moves to phase `p`. */
  lemma ThreadMoves(s: State, t: nat, p: Phase)
    requires t < |s.threads| && s.threads[t] == Outside
    ensures var ts := s.threads[t := p];
      && Sum(ts, BlockedWeight) == Sum(s.threads, BlockedWeight) + BlockedWeight(p)
      && Sum(ts, InsideWeight) == Sum(s.threads, InsideWeight) + InsideWeight(p)
      && Held(ts) == Held(s.threads) + HeldBy(p)
  {
    SumAfterUpdate(s.threads, t, p, BlockedWeight);
    SumAfterUpdate(s.threads, t, p, InsideWeight);
    HeldAfterUpdate(s.threads, t, p);
  }

  lemma VerdictsAfterMove(s: State, t: nat, p: Phase)
    requires t < |s.threads| && VerdictsOk(s) && VerdictOk(p, s.round)
    ensures VerdictsOk(Set(s, t, p))
  {}

  lemma ProceedBlocks(s: State, t: nat)
    requires InCritical(s, t) && s.queue == [] && !(t == 0 && s.todo == 0)
    ensures Inv(Proceed(s, t))
  {
    hide Sum, Held, VerdictsOk, ReportsOk;
    ThreadMoves(s, t, Blocked(false));
    VerdictsAfterMove(s, t, Blocked(false));
    SideFields(s, Proceed(s, t), t, Blocked(false));
  }

  /** Verdicts and reports depend neither on the queue nor on the thread counts. */
  lemma SideFields(s: State, r: State, t: nat, p: Phase)
    requires t < |s.threads| && r == Set(s, t, p).(queue := r.queue, idle := r.idle, total := r.total)
    ensures VerdictsOk(Set(s, t, p)) ==> VerdictsOk(r)
    ensures ReportsOk(s) ==> ReportsOk(r)
  {}

  lemma ConservedAfterTake(s: State, t: nat, n: nat, p: Phase)
    requires t < |s.threads| && s.threads[t] == Outside && Conserved(s) && n <= |s.queue|
    requires p.Working? && p.batch == LastReversed(s.queue, n)
    ensures Conserved(Set(s, t, p).(queue := s.queue[..|s.queue| - n]))
  {
    hide Held;
    TakeConserves(s.queue, n);
    ThreadMoves(s, t, p);
  }

  lemma ProceedTakes(s: State, t: nat)
    requires InCritical(s, t) && s.queue != []
    ensures Inv(Proceed(s, t))
    ensures Proceed(s, t).threads[t].Working? && 1 <= |Proceed(s, t).threads[t].batch| <= |s.queue|
  {
    hide BatchLength, Sum, Held, VerdictsOk, ReportsOk, Conserved, LastReversed;
    BatchFits(s);
    var n := BatchLength(s);
    var p := Working(LastReversed(s.queue, n), 0, s.allOk);
    ReversedSame(s.queue, n);
    ConservedAfterTake(s, t, n, p);
    ThreadMoves(s, t, p);
    FailureKnown(s);
    VerdictsAfterMove(s, t, p);
    SideFields(s, Proceed(s, t), t, p);
  }

  lemma FailureKnown(s: State)
    requires VerdictsOk(s)
    ensures !s.allOk ==> SomeFails(s.round)
  {}

  lemma ProceedKeepsInv(s: State, t: nat)
    requires InCritical(s, t)
    ensures Inv(Proceed(s, t))
  {
    hide Inv, Proceed, InCritical;
    if s.queue != [] { ProceedTakes(s, t); }
    else if t == 0 && s.todo == 0 { ProceedReturns(s); }
    else { ProceedBlocks(s, t); }
  }

  /** What Proceed does does not depend on the phase the thread comes from. */
  lemma ProceedForgets(s: State, t: nat)
    requires t < |s.threads| && s.total + s.idle >= 0
    ensures Proceed(s, t) == Proceed(Set(s, t, Outside), t)
  {
    forall p: Phase ensures Set(Set(s, t, Outside), t, p) == Set(s, t, p) {
      assert s.threads[t := Outside][t := p] == s.threads[t := p];
    }
  }

  lemma EnterCritical(s: State, t: nat)
    requires Inv(s) && t < |s.threads| && s.threads[t] == Outside
    ensures InCritical(s.(total := s.total + 1), t)
  {
    SumNonNegative(s.threads);
  }

  lemma WakeCritical(s: State, t: nat)
    requires Inv(s) && t < |s.threads| && s.threads[t].Blocked?
    ensures InCritical(Set(s, t, Outside).(idle := s.idle - 1), t)
  {
    hide Sum, Held, VerdictsOk, ReportsOk;
    SumAfterUpdate(s.threads, t, Outside, BlockedWeight);
    SumAfterUpdate(s.threads, t, Outside, InsideWeight);
    HeldSame(s.threads, t, Outside);
    SumNonNegative(s.threads[t := Outside]);
    VerdictsAfterMove(s, t, Outside);
    SideFields(s, Set(s, t, Outside).(idle := s.idle - 1), t, Outside);
  }

  /** The state in which a finished thread has handed in its batch. */
  function HandedIn(s: State, t: nat): State
    requires t < |s.threads| && s.threads[t].Working?
  {
    var p := s.threads[t];
    Set(s, t, Outside).(allOk := s.allOk && p.ok, todo := s.todo - |p.batch|, finished := s.finished
      + multiset(p.batch))
  }

  lemma FinishCritical(s: State, t: nat)
    requires Inv(s) && t < |s.threads| && s.threads[t].Working? && s.threads[t].next == |s.threads[t].batch|
    ensures InCritical(Set(Accounted(s, t), t, Outside), t)
  {
    hide Sum, Held, VerdictsOk, ReportsOk;
    var u, r := HandedIn(s, t), Set(Accounted(s, t), t, Outside);
    SumAfterUpdate(s.threads, t, Outside, BlockedWeight);
    SumAfterUpdate(s.threads, t, Outside, InsideWeight);
    SumNonNegative(u.threads);
    HandedInConserved(s, t);
    HandedInVerdicts(s, t);
    if u.todo == 0 && t != 0 {
      assert r.threads == u.threads[0 := Notified(u.threads[0])];
      assert r == Set(u, 0, Notified(u.threads[0]));
      NotifiedSame(u, 0);
    } else {
      assert r == u;
    }
  }

  lemma HandedInConserved(s: State, t: nat)
    requires Conserved(s) && t < |s.threads| && s.threads[t].Working?
    ensures Conserved(HandedIn(s, t))
  {
    hide Held;
    var u, b := HandedIn(s, t), multiset(s.threads[t].batch);
    HeldAfterUpdate(s.threads, t, Outside);
    assert Held(s.threads) == Held(u.threads) + b;
    assert multiset(s.queue) + (Held(u.threads) + b) + s.finished ==
      multiset(s.queue) + Held(u.threads) + (s.finished + b);
  }

  lemma HandedInVerdicts(s: State, t: nat)
    requires VerdictsOk(s) && ReportsOk(s) && t < |s.threads|
    requires s.threads[t].Working? && s.threads[t].next == |s.threads[t].batch|
    ensures VerdictsOk(HandedIn(s, t)) && ReportsOk(HandedIn(s, t))
  {
    var p := s.threads[t];
    assert VerdictOk(p, s.round) && p.batch[..p.next] == p.batch;
    if p.ok {
      forall c | c in multiset(p.batch) ensures c.ok { assert c in p.batch; }
    }
  }

  /** A notification changes neither the counts nor who holds what. */
  lemma NotifiedSame(s: State, i: nat)
    requires i < |s.threads|
    ensures var r := Set(s, i, Notified(s.threads[i]));
      && Sum(r.threads, BlockedWeight) == Sum(s.threads, BlockedWeight)
      && Sum(r.threads, InsideWeight) == Sum(s.threads, InsideWeight)
      && Held(r.threads) == Held(s.threads)
      && (VerdictsOk(s) ==> VerdictsOk(r)) && (ReportsOk(s) ==> ReportsOk(r))
  {
    hide Sum, Held;
    SumAfterUpdate(s.threads, i, Notified(s.threads[i]), BlockedWeight);
    SumAfterUpdate(s.threads, i, Notified(s.threads[i]), InsideWeight);
    HeldSame(s.threads, i, Notified(s.threads[i]));
  }

  lemma AddKeepsInv(s: State, checks: seq<Check>)
    requires Inv(s) && s.threads[0] == Outside && checks != []
    ensures Inv(Queued(s, checks))
  {
    hide Sum, Held, VerdictsOk, ReportsOk;
    var p := Notifying(|checks| == 1);
    ThreadMoves(s, 0, p);
    QueuedVerdicts(s, checks);
    assert multiset(s.round + checks) == multiset(s.round) + multiset(checks);
    assert multiset(s.queue + checks) == multiset(s.queue) + multiset(checks);
  }

  function Queued(s: State, checks: seq<Check>): State
    requires s.threads != []
  {
    Set(s, 0, Notifying(|checks| == 1)).(
      queue := s.queue + checks, todo := s.todo + |checks|, round := s.round + checks)
  }

  lemma QueuedVerdicts(s: State, checks: seq<Check>)
    requires s.threads != [] && VerdictsOk(s) && ReportsOk(s)
    ensures VerdictsOk(Queued(s, checks)) && ReportsOk(Queued(s, checks))
  {
    if SomeFails(s.round) {
      var i :| 0 <= i < |s.round| && !s.round[i].ok;
      assert (s.round + checks)[i] == s.round[i];
    }
  }

  lemma ExecuteKeepsInv(s: State, t: nat)
    requires Inv(s) && t < |s.threads| && s.threads[t].Working? && s.threads[t].next < |s.threads[t].batch|
    ensures Inv(Set(s, t, Executed(s.threads[t])))
  {
    hide Sum, Held, VerdictsOk, ReportsOk;
    var p := Executed(s.threads[t]);
    SumAfterUpdate(s.threads, t, p, BlockedWeight);
    SumAfterUpdate(s.threads, t, p, InsideWeight);
    HeldSame(s.threads, t, p);
    ExecutedVerdict(s, t);
    VerdictsAfterMove(s, t, p);
    SideFields(s, Set(s, t, p), t, p);
  }

  /** A failing check is one of the round's. */
  lemma ExecutedVerdict(s: State, t: nat)
    requires VerdictsOk(s) && Conserved(s)
    requires t < |s.threads| && s.threads[t].Working? && s.threads[t].next < |s.threads[t].batch|
    ensures VerdictOk(Executed(s.threads[t]), s.round)
  {
    var p := s.threads[t];
    var c := p.batch[p.next];
    assert VerdictOk(p, s.round);
    assert p.batch[..p.next + 1] == p.batch[..p.next] + [c];
    HeldMember(s.threads, t);
    assert c in HeldBy(p) && c in multiset(s.round);
    var i :| 0 <= i < |s.round| && s.round[i] == c;
  }

  // ----- runs -----

  /** The threads once the master's notification has gone out. */
  function Woken(ts: seq<Phase>, single: bool, w: nat): seq<Phase>
    requires w < |ts|
  {
    if single then ts[w := Notified(ts[w])]
    else seq(|ts|, i requires 0 <= i < |ts| => Notified(ts[i]))
  }

  /** The effect of an enabled step. */
  ghost function Apply(s: State, a: Step): (r: State)
    requires Inv(s) && Enabled(s, a)
    ensures Inv(r)
  {
    hide Inv, InCritical, Proceed;
    match a
    case Add(checks) => if checks == [] then s else AddKeepsInv(s, checks); Queued(s, checks)
    case Notify(w) =>
      NotifyKeepsInv(s, w);
      s.(threads := Woken(s.threads, s.threads[0].single, w)[0 := Outside])
    case Enter(t) =>
      EnterCritical(s, t);
      ProceedKeepsInv(s.(total := s.total + 1), t);
      Proceed(s.(total := s.total + 1), t)
    case Execute(t) => ExecuteKeepsInv(s, t); Set(s, t, Executed(s.threads[t]))
    case Finish(t) => FinishKeepsInv(s, t); Proceed(Accounted(s, t), t)
    case Wake(t) => WakeKeepsInv(s, t); Proceed(s.(idle := s.idle - 1), t)
  }

  lemma FinishKeepsInv(s: State, t: nat)
    requires Inv(s) && Enabled(s, Finish(t))
    ensures var u := Accounted(s, t); u.total + u.idle >= 0 && Inv(Proceed(u, t))
  {
    hide Inv, Proceed, Counted, Conserved, VerdictsOk, MasterOk, ReportsOk;
    FinishCritical(s, t);
    ProceedForgets(Accounted(s, t), t);
    ProceedKeepsInv(Set(Accounted(s, t), t, Outside), t);
  }

  lemma WakeKeepsInv(s: State, t: nat)
    requires Inv(s) && Enabled(s, Wake(t))
    ensures var u := s.(idle := s.idle - 1); u.total + u.idle >= 0 && Inv(Proceed(u, t))
  {
    hide Inv, Proceed, Counted, Conserved, VerdictsOk, MasterOk, ReportsOk;
    var u := s.(idle := s.idle - 1);
    WakeCritical(s, t);
    assert Set(u, t, Outside) == Set(s, t, Outside).(idle := s.idle - 1);
    ProceedForgets(u, t);
    ProceedKeepsInv(Set(u, t, Outside), t);
  }

  lemma {:induction false} AllNotifiedSame(ts: seq<Phase>)
    ensures var ns := seq(|ts|, i requires 0 <= i < |ts| => Notified(ts[i]));
      && Sum(ns, BlockedWeight) == Sum(ts, BlockedWeight) && Sum(ns, InsideWeight) == Sum(ts, InsideWeight)
      && Held(ns) == Held(ts)
  {
    if ts != [] {
      var front := ts[..|ts| - 1];
      AllNotifiedSame(front);
      var ns := seq(|ts|, i requires 0 <= i < |ts| => Notified(ts[i]));
      assert ns[..|ns| - 1] == seq(|front|, i requires 0 <= i < |front| => Notified(front[i]));
    }
  }

  lemma NotifyKeepsInv(s: State, w: nat)
    requires Inv(s) && Enabled(s, Notify(w))
    ensures Inv(s.(threads := Woken(s.threads, s.threads[0].single, w)[0 := Outside]))
  {
    hide Sum, Held, ReportsOk;
    var ts := Woken(s.threads, s.threads[0].single, w);
    if s.threads[0].single { NotifiedSame(s, w); } else { AllNotifiedSame(s.threads); }
    assert ts[0] == s.threads[0];
    SumAfterUpdate(ts, 0, Outside, BlockedWeight);
    SumAfterUpdate(ts, 0, Outside, InsideWeight);
    HeldSame(ts, 0, Outside);
    var r := s.(threads := ts[0 := Outside]);
    SameReports(s, r);
    forall i | 0 <= i < |r.threads| ensures VerdictOk(r.threads[i], r.round) {
      assert VerdictOk(s.threads[i], s.round);
    }
  }

  lemma SameReports(s: State, r: State)
    requires ReportsOk(s) && r.reports == s.reports
    ensures ReportsOk(r)
  {}

  lemma {:induction false} InitCounts(n: nat)
    ensures var ts := seq(n, _ => Outside);
      Sum(ts, BlockedWeight) == 0 && Sum(ts, InsideWeight) == 0 && Held(ts) == multiset{}
  {
    if n > 0 {
      InitCounts(n - 1);
      assert seq(n, _ => Outside)[..n - 1] == seq(n - 1, _ => Outside);
    }
  }

  lemma InitKeepsInv(workers: nat, batchSize: nat)
    ensures Inv(Init(workers, batchSize))
  {
    InitCounts(workers + 1);
  }

  /** The state after a run from `s`, if every step was enabled when taken. */
  ghost function After(s: State, run: seq<Step>): (r: Option<State>)
    requires Inv(s)
    ensures r.Some? ==> Inv(r.value)
    decreases |run|
  {
    if run == [] then Some(s) else
    var u := After(s, run[..|run| - 1]);
    if u.Some? && Enabled(u.value, run[|run| - 1]) then Some(Apply(u.value, run[|run| - 1])) else None
  }

  /** The state after a run of a new queue. */
  ghost function FromStart(workers: nat, batchSize: nat, run: seq<Step>): (r: Option<State>)
    ensures r.Some? ==> Inv(r.value)
  {
    InitKeepsInv(workers, batchSize);
    After(Init(workers, batchSize), run)
  }

  // ----- what callers rely on -----

  function Added(run: seq<Step>): seq<Check> {
    if run == [] then [] else Added(run[..|run| - 1]) + if run[|run| - 1].Add? then run[|run| - 1].checks else []
  }

  function Rounds(reports: seq<Report>): seq<Check> {
    if reports == [] then [] else Rounds(reports[..|reports| - 1]) + reports[|reports| - 1].round
  }

  /** In every interleaving, each Wait returned exactly the conjunction of its round, and the rounds so far and the
      current one are, in order, all the checks ever added. */
  lemma {:induction false} WaitIsConjunction(workers: nat, batchSize: nat, run: seq<Step>, s: State)
    requires FromStart(workers, batchSize, run) == Some(s)
    ensures forall i :: 0 <= i < |s.reports| ==> (s.reports[i].result <==> AllPass(s.reports[i].round))
    ensures Rounds(s.reports) + s.round == Added(run)
    decreases |run|
  {
    hide Apply, AllPass;
    if run != [] {
      var front, a := run[..|run| - 1], run[|run| - 1];
      var u := FromStart(workers, batchSize, front).value;
      WaitIsConjunction(workers, batchSize, front, u);
      StepRounds(u, a);
    }
  }

  lemma StepRounds(u: State, a: Step)
    requires Inv(u) && Enabled(u, a)
    ensures var r := Apply(u, a);
      Rounds(r.reports) + r.round == Rounds(u.reports) + u.round + if a.Add? then a.checks else []
  {
    hide Inv, Proceed, Rounds;
    match a
    case Enter(t) => EnterCritical(u, t); ProceedRounds(u.(total := u.total + 1), t);
    case Finish(t) => FinishKeepsInv(u, t); ProceedRounds(Accounted(u, t), t);
    case Wake(t) => WakeKeepsInv(u, t); ProceedRounds(u.(idle := u.idle - 1), t);
    case _ => 
  }

  lemma ProceedRounds(s: State, t: nat)
    requires t < |s.threads| && s.total + s.idle >= 0
    ensures Rounds(Proceed(s, t).reports) + Proceed(s, t).round == Rounds(s.reports) + s.round
  {
    hide BatchLength, LastReversed;
    var r := Proceed(s, t);
    if r.reports != s.reports {
      assert r.reports == s.reports + [Report(s.allOk, s.round)] && r.round == [];
      assert r.reports[..|r.reports| - 1] == s.reports;
    }
  }

  /** No wakeup is lost: a master blocked without a pending notification has nothing queued, and some worker holds an
      unfinished batch. */
  lemma NoLostWakeup(s: State)
    requires Inv(s) && s.threads[0] == Blocked(false)
    ensures s.queue == [] && exists i :: 0 < i < |s.threads| && s.threads[i].Working? && s.threads[i].batch != []
  {
    var i := SomeoneHolds(s.threads);
    assert s.threads[i].Working?;
  }

  lemma {:induction false} SomeoneHolds(ts: seq<Phase>) returns (i: nat)
    requires |Held(ts)| > 0
    ensures i < |ts| && ts[i].Working? && ts[i].batch != []
  {
    var last := |ts| - 1;
    if HeldBy(ts[last]) != multiset{} { i := last; } else { i := SomeoneHolds(ts[..last]); }
  }

  /** A check that was added once is never in two threads' batches, nor both queued and in a batch. */
  lemma TakenByOneThread(s: State, c: Check, i: nat, j: nat)
    requires Inv(s) && multiset(s.round)[c] <= 1
    requires i < j < |s.threads| && c in HeldBy(s.threads[i])
    ensures c !in HeldBy(s.threads[j]) && c !in s.queue && c !in s.finished
  {
    hide Counted, VerdictsOk, MasterOk, ReportsOk;
    HeldTwice(s.threads, i, j);
    assert multiset(s.round)[c] == multiset(s.queue)[c] + Held(s.threads)[c] + s.finished[c];
  }

  lemma {:induction false} HeldTwice(ts: seq<Phase>, i: nat, j: nat)
    requires i < j < |ts|
    ensures HeldBy(ts[i]) + HeldBy(ts[j]) <= Held(ts)
    decreases |ts|
  {
    if j < |ts| - 1 { HeldTwice(ts[..|ts| - 1], i, j); } else { HeldMember(ts[..j], i); }
  }

  // ----- Wait comes to an end -----

  predicate MasterInside(s: State) { s.threads != [] && (s.threads[0].Blocked? || s.threads[0].Working?) }

  /** A thread waking although nobody notified it. */
  predicate Spurious(s: State, a: Step) { a.Wake? && Enabled(s, a) && !s.threads[a.t].notified }

  function Effort(p: Phase): int {
    match p
    case Working(batch, next, _) => |batch| - next + 2
    case Blocked(notified) => if notified then 1 else 0
    case _ => 1
  }

  /** Bounds the steps that Wait can still take. */
  function WorkLeft(s: State): int { 3 * |s.queue| + Sum(s.threads, Effort) }

  /** While the master is in Wait there is always a step to take without a spurious wakeup. */
  lemma NeverStuck(s: State)
    requires Inv(s) && MasterInside(s)
    ensures exists a :: Enabled(s, a) && !Spurious(s, a) && !a.Add? && !a.Notify?
  {
    var t := 0;
    if s.threads[0] == Blocked(false) {
      NoLostWakeup(s);
      t :| 0 < t < |s.threads| && s.threads[t].Working? && s.threads[t].batch != [];
    }
    var a := if s.threads[t].Blocked? then Wake(t)
             else if s.threads[t].next < |s.threads[t].batch| then Execute(t) else Finish(t);
    assert VerdictOk(s.threads[t], s.round);
    assert Enabled(s, a) && !Spurious(s, a);
  }

  /** Each step while the master stays in Wait reduces the work left, except that a spurious wakeup may leave
      it as it is. */
  lemma StepsReduceWork(s: State, a: Step)
    requires Inv(s) && Enabled(s, a) && MasterInside(s) && MasterInside(Apply(s, a))
    ensures WorkLeft(Apply(s, a)) <= WorkLeft(s) - if Spurious(s, a) then 0 else 1
  {
    hide Inv, Sum, BatchLength, LastReversed;
    match a
    case Enter(t) => EnterReducesWork(s, t);
    case Execute(t) => SumAfterUpdate(s.threads, t, Executed(s.threads[t]), Effort);
    case Finish(t) => FinishReducesWork(s, t);
    case Wake(t) => WakeReducesWork(s, t);
    case _ =>
  }

  lemma EnterReducesWork(s: State, t: nat)
    requires Inv(s) && Enabled(s, Enter(t)) && MasterInside(s) && MasterInside(Apply(s, Enter(t)))
    ensures WorkLeft(Apply(s, Enter(t))) < WorkLeft(s)
  {
    hide Inv, Sum, BatchLength, LastReversed;
    EnterCritical(s, t);
    ProceedEffort(s.(total := s.total + 1), t);
  }

  lemma WakeReducesWork(s: State, t: nat)
    requires Inv(s) && Enabled(s, Wake(t)) && MasterInside(s) && MasterInside(Apply(s, Wake(t)))
    ensures WorkLeft(Apply(s, Wake(t))) <= WorkLeft(s) - if Spurious(s, Wake(t)) then 0 else 1
  {
    hide Inv, Sum, BatchLength, LastReversed;
    WakeKeepsInv(s, t);
    ProceedEffort(s.(idle := s.idle - 1), t);
  }

  /** Proceeding without returning costs at most what taking a check off the queue frees. */
  lemma ProceedEffort(s: State, t: nat)
    requires t < |s.threads| && s.total + s.idle >= 0 && !(s.queue == [] && t == 0 && s.todo == 0)
    ensures WorkLeft(Proceed(s, t)) <= WorkLeft(s) - Effort(s.threads[t])
    ensures s.queue == [] ==> WorkLeft(Proceed(s, t)) == WorkLeft(s) - Effort(s.threads[t])
  {
    hide Sum, BatchLength;
    if s.queue == [] {
      SumAfterUpdate(s.threads, t, Blocked(false), Effort);
    } else {
      BatchFits(s);
      var n := BatchLength(s);
      ReversedSame(s.queue, n);
      SumAfterUpdate(s.threads, t, Working(LastReversed(s.queue, n), 0, s.allOk), Effort);
    }
  }

  lemma FinishReducesWork(s: State, t: nat)
    requires Inv(s) && Enabled(s, Finish(t)) && MasterInside(s) && MasterInside(Apply(s, Finish(t)))
    ensures WorkLeft(Apply(s, Finish(t))) < WorkLeft(s)
  {
    hide Inv, Sum;
    FinishKeepsInv(s, t);
    var u := Accounted(s, t);
    if u.todo == 0 && t != 0 { SumAfterUpdate(s.threads, 0, Notified(s.threads[0]), Effort); }
    ProceedEffort(u, t);
  }

  /** However threads are scheduled, Wait returns after at most WorkLeft steps that are not spurious wakeups. */
  lemma {:induction false} WaitIsBounded(s: State, run: seq<Step>)
    requires Inv(s) && After(s, run).Some?
    requires forall k :: 0 <= k <= |run| ==> After(s, run[..k]).Some? && MasterInside(After(s, run[..k]).value)
    ensures Deliberate(s, run) <= WorkLeft(s) - WorkLeft(After(s, run).value) && 0 <= WorkLeft(After(s, run).value)
    decreases |run|
  {
    hide Apply, Inv, MasterInside, WorkLeft, Spurious, Enabled;
    EffortNonNegative(After(s, run).value);
    if run != [] {
      var front := run[..|run| - 1];
      forall k | 0 <= k <= |front| ensures After(s, front[..k]).Some? && MasterInside(After(s, front[..k]).value) {
        assert front[..k] == run[..k];
      }
      assert run[..|run|] == run;
      WaitIsBounded(s, front);
      StepsReduceWork(After(s, front).value, run[|run| - 1]);
    }
  }

  lemma EffortNonNegative(s: State)
    requires Inv(s)
    ensures WorkLeft(s) >= 0
  {
    forall i | 0 <= i < |s.threads| ensures Effort(s.threads[i]) >= 0 { assert VerdictOk(s.threads[i], s.round); }
    SumOfNonNegatives(s.threads);
  }

  lemma {:induction false} SumOfNonNegatives(ts: seq<Phase>)
    requires forall i :: 0 <= i < |ts| ==> Effort(ts[i]) >= 0
    ensures Sum(ts, Effort) >= 0
  {
    if ts != [] { SumOfNonNegatives(ts[..|ts| - 1]); }
  }

  /** How many steps of a run are not spurious wakeups. */
  ghost function Deliberate(s: State, run: seq<Step>): nat
    requires Inv(s) && After(s, run).Some?
    decreases |run|
  {
    if run == [] then 0 else
    var u := After(s, run[..|run| - 1]).value;
    Deliberate(s, run[..|run| - 1]) + if Spurious(u, run[|run| - 1]) then 0 else 1
  }
}
