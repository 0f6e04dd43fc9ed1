/** EnquireLinkYo: loop threads that send enquiries and count those not yet answered, interleaved at every access
    to the shared fields with answers that set the count back, and with start and stop. */
module EnquireLink {
  /** Where a loop thread is in run and informEnquireLinkFailure; ok says whether the request was sent. */
  datatype Pc = Enter | Mark | Reset | Probe | Loop | Wake | Check | Send | Sent(ok: bool) | Count
              | Inform | InformAgain | Done

  /** Thread t does its next step, with the outcome of the socket check or of the request where it needs one;
      or an answer, start, stop or the end of a cancelled thread comes in between. */
  datatype Event = Act(t: nat, ok: bool) | ZeroBalance | Start | Stop | Cancel(t: nat)

  datatype State = State(isRunning: bool, balance: int, threads: seq<Pc>)

  const IDLE := State(false, 0, [])

  function Next(s: State, pc: Pc, ok: bool, maxBalance: int): Pc {
    match pc
    case Enter => if s.isRunning then Done else Mark
    case Mark => Reset
    case Reset => Probe
    case Probe => if ok then Loop else Done
    case Loop => if s.isRunning then Wake else Done
    case Wake => if s.isRunning then Check else Done
    case Check => if s.balance >= maxBalance then Inform else Send
    case Send => Sent(ok)
    case Sent(sent) => if !s.isRunning then Done else if sent then Count else Inform
    case Count => Loop
    case Inform => InformAgain
    case InformAgain => Done
    case Done => Done
  }

  function Act(s: State, t: nat, ok: bool, maxBalance: int): State
    requires t < |s.threads|
  {
    var pc := s.threads[t];
    State(if pc == Mark then true else if pc == Probe && !ok then false else s.isRunning,
          if pc == Reset then 0 else if pc == Count then s.balance + 1 else s.balance,
          s.threads[t := Next(s, pc, ok, maxBalance)])
  }

  function Step(s: State, e: Event, maxBalance: int): State {
    match e
    case Act(t, ok) => if t < |s.threads| then Act(s, t, ok, maxBalance) else s
    case ZeroBalance => s.(balance := 0)
    case Start => if s.isRunning then s else s.(threads := s.threads + [Enter])
    case Stop => s.(isRunning := false)
    case Cancel(t) => if t < |s.threads| then s.(threads := s.threads[t := Done]) else s
  }

  function At(es: seq<Event>, i: nat, maxBalance: int): State
    requires i <= |es|
  {
    if i == 0 then IDLE else Step(At(es, i - 1, maxBalance), es[i - 1], maxBalance)
  }

  // ---------- The history of a run ----------

  /** The thread of the event is at this point. */
  predicate Does(s: State, e: Event, pc: Pc) {
    e.Act? && e.t < |s.threads| && s.threads[e.t] == pc
  }

  /** The event sets the count to nought: an answer, or the beginning of a loop. */
  predicate Zeroes(s: State, e: Event) {
    e.ZeroBalance? || Does(s, e, Reset)
  }

  /** The thread finds the count at its limit and is about to report the failure. */
  predicate ReportsSilence(s: State, e: Event, maxBalance: int) {
    Does(s, e, Check) && s.balance >= maxBalance
  }

  function NextSince(s: State, e: Event, since: nat): nat {
    if Zeroes(s, e) then 0 else since + if Does(s, e, Send) && e.ok then 1 else 0
  }

  function NextRaced(s: State, e: Event, raced: nat): nat {
    if Zeroes(s, e) then InFlight(s.threads) else raced
  }

  /** How many requests have been sent since the count was last set to nought. */
  function Since(es: seq<Event>, i: nat, maxBalance: int): nat
    requires i <= |es|
  {
    if i == 0 then 0 else NextSince(At(es, i - 1, maxBalance), es[i - 1], Since(es, i - 1, maxBalance))
  }

  /** How many requests had been sent but not yet counted when the count was last set to nought. */
  function Raced(es: seq<Event>, i: nat, maxBalance: int): nat
    requires i <= |es|
  {
    if i == 0 then 0 else NextRaced(At(es, i - 1, maxBalance), es[i - 1], Raced(es, i - 1, maxBalance))
  }

  predicate Flying(pc: Pc) {
    pc == Sent(true) || pc == Count
  }

  function InFlight(threads: seq<Pc>): nat {
    if threads == [] then 0 else InFlight(threads[1..]) + if Flying(threads[0]) then 1 else 0
  }

  lemma {:induction false} InFlightUpdate(threads: seq<Pc>, t: nat, pc: Pc)
    requires t < |threads|
    ensures InFlight(threads[t := pc]) ==
            InFlight(threads) + (if Flying(pc) then 1 else 0) - if Flying(threads[t]) then 1 else 0
  {
    if t > 0 {
      assert threads[t := pc][1..] == threads[1..][t - 1 := pc];
      InFlightUpdate(threads[1..], t - 1, pc);
    } else {
      assert threads[t := pc][1..] == threads[1..];
    }
  }

  lemma {:induction false} InFlightAppend(threads: seq<Pc>)
    ensures InFlight(threads + [Enter]) == InFlight(threads)
  {
    if threads != [] {
      assert (threads + [Enter])[1..] == threads[1..] + [Enter];
      InFlightAppend(threads[1..]);
    } else {
      assert (threads + [Enter])[1..] == [];
    }
  }

  /** The event ends a thread whose request has been sent but not counted. */
  predicate Loses(s: State, e: Event) {
    || (e.Act? && e.t < |s.threads| && s.threads[e.t] == Sent(true) && !s.isRunning)
    || (e.Cancel? && e.t < |s.threads| && Flying(s.threads[e.t]))
  }

  function NextLost(s: State, e: Event, lost: nat): nat {
    if Zeroes(s, e) then 0 else lost + if Loses(s, e) then 1 else 0
  }

  /** How many requests have never been counted because their thread ended, since the count was last set to
      nought. */
  function Lost(es: seq<Event>, i: nat, maxBalance: int): nat
    requires i <= |es|
  {
    if i == 0 then 0 else NextLost(At(es, i - 1, maxBalance), es[i - 1], Lost(es, i - 1, maxBalance))
  }

  /** What one event does to the count and the requests in flight together. */
  lemma StepBalance(s: State, e: Event, maxBalance: int)
    ensures var s' := Step(s, e, maxBalance);
            if Zeroes(s, e) then s'.balance == 0 && InFlight(s'.threads) == InFlight(s.threads)
            else s'.balance + InFlight(s'.threads) ==
                 s.balance + InFlight(s.threads) + (if Does(s, e, Send) && e.ok then 1 else 0)
                 - if Loses(s, e) then 1 else 0
  {
    match e {
      case Act(t, ok) =>
        if t < |s.threads| {
          InFlightUpdate(s.threads, t, Next(s, s.threads[t], ok, maxBalance));
        }
      case Start => InFlightAppend(s.threads);
      case Cancel(t) =>
        if t < |s.threads| {
          InFlightUpdate(s.threads, t, Done);
        }
      case _ =>
    }
  }

  /** However answers, threads, starts and stops interleave: what is counted, in flight or lost is what has been
      sent since the last answer and what that answer overtook. */
  lemma {:induction false} Accounted(es: seq<Event>, i: nat, maxBalance: int)
    requires i <= |es|
    ensures var s := At(es, i, maxBalance);
            s.balance + InFlight(s.threads) + Lost(es, i, maxBalance)
            == Since(es, i, maxBalance) + Raced(es, i, maxBalance)
    decreases i
  {
    if i > 0 {
      hide Step, Zeroes, Does, Loses;
      Accounted(es, i - 1, maxBalance);
      StepBalance(At(es, i - 1, maxBalance), es[i - 1], maxBalance);
    }
  }

  /** Silence is reported only after maxBalance requests without an answer, less those in flight when the last
      answer came. */
  lemma SilenceMeans(es: seq<Event>, i: nat, maxBalance: int)
    requires i < |es| && ReportsSilence(At(es, i, maxBalance), es[i], maxBalance)
    ensures Since(es, i, maxBalance) >= maxBalance - Raced(es, i, maxBalance)
  {
    Accounted(es, i, maxBalance);
  }

  /** When silence is reported, at least maxBalance - 1 requests have gone without an answer if and only if the
      last answer overtook no more than one request beyond those that make up for it: counted above the limit,
      in flight, or lost. */
  lemma EnoughExactly(es: seq<Event>, i: nat, maxBalance: int)
    requires i < |es| && ReportsSilence(At(es, i, maxBalance), es[i], maxBalance)
    ensures var s := At(es, i, maxBalance);
            Since(es, i, maxBalance) >= maxBalance - 1 <==>
            Raced(es, i, maxBalance) <= 1 + (s.balance - maxBalance) + InFlight(s.threads) + Lost(es, i, maxBalance)
  {
    Accounted(es, i, maxBalance);
  }

  // ---------- One loop at a time ----------

  /** Among the first n events, a start that finds the object stopped comes only when every thread has ended. */
  predicate StartsApart(es: seq<Event>, n: nat, maxBalance: int)
    requires n <= |es|
  {
    forall i | 0 <= i < n && es[i] == Start && !At(es, i, maxBalance).isRunning ::
      AllDone(At(es, i, maxBalance).threads)
  }

  predicate AllDone(threads: seq<Pc>) {
    forall t | 0 <= t < |threads| :: threads[t] == Done
  }

  predicate OneLive(threads: seq<Pc>) {
    forall t, u | 0 <= t < u < |threads| :: threads[t] == Done || threads[u] == Done
  }

  predicate InLoop(pc: Pc) {
    pc in {Probe, Loop, Wake, Check, Send, Sent(true), Count}
  }

  lemma {:induction false} NoneFlying(threads: seq<Pc>)
    requires forall t | 0 <= t < |threads| :: !Flying(threads[t])
    ensures InFlight(threads) == 0
  {
    if threads != [] {
      NoneFlying(threads[1..]);
    }
  }

  lemma OneFlying(threads: seq<Pc>, t: nat)
    requires t < |threads| && OneLive(threads) && threads[t] != Done
    ensures InFlight(threads) == if Flying(threads[t]) then 1 else 0
  {
    NoneFlying(threads[t := Done]);
    InFlightUpdate(threads, t, Done);
  }

  lemma AtMostOneFlying(threads: seq<Pc>)
    requires OneLive(threads)
    ensures InFlight(threads) <= 1
  {
    if t: nat :| t < |threads| && threads[t] != Done {
      OneFlying(threads, t);
    } else {
      NoneFlying(threads);
    }
  }

  lemma StepOneLive(s: State, e: Event, maxBalance: int)
    requires OneLive(s.threads) && (e == Start && !s.isRunning ==> AllDone(s.threads))
    ensures OneLive(Step(s, e, maxBalance).threads)
  {
    var ts, ts' := s.threads, Step(s, e, maxBalance).threads;
    forall t, u | 0 <= t < u < |ts'| ensures ts'[t] == Done || ts'[u] == Done {
      assert u < |ts| ==> ts[t] == Done || ts[u] == Done;
    }
  }

  lemma ApartBefore(es: seq<Event>, i: nat, n: nat, maxBalance: int)
    requires i <= n <= |es| && StartsApart(es, n, maxBalance)
    ensures StartsApart(es, i, maxBalance)
    ensures i < n ==> var s := At(es, i, maxBalance); es[i] == Start && !s.isRunning ==> AllDone(s.threads)
  {
  }

  lemma {:induction false} Alone(es: seq<Event>, i: nat, maxBalance: int)
    requires i <= |es| && StartsApart(es, i, maxBalance)
    ensures OneLive(At(es, i, maxBalance).threads)
    decreases i
  {
    if i > 0 {
      ApartBefore(es, i - 1, i, maxBalance);
      hide StartsApart, OneLive, AllDone, Step;
      Alone(es, i - 1, maxBalance);
      StepOneLive(At(es, i - 1, maxBalance), es[i - 1], maxBalance);
    }
  }

  /** During the first n events there is never more than one live thread. */
  predicate NeverTwo(es: seq<Event>, n: nat, maxBalance: int)
    requires n <= |es|
  {
    forall i | 0 <= i <= n :: OneLive(At(es, i, maxBalance).threads)
  }

  /** Starts are apart exactly when there are never two live threads. */
  lemma ApartExactly(es: seq<Event>, n: nat, maxBalance: int)
    requires n <= |es|
    ensures StartsApart(es, n, maxBalance) <==> NeverTwo(es, n, maxBalance)
  {
    hide OneLive, StartsApart, At;
    if StartsApart(es, n, maxBalance) {
      forall i | 0 <= i <= n ensures OneLive(At(es, i, maxBalance).threads) {
        ApartBefore(es, i, n, maxBalance);
        Alone(es, i, maxBalance);
      }
    }
    if NeverTwo(es, n, maxBalance) {
      LiveApart(es, n, maxBalance);
    }
  }

  lemma LiveApart(es: seq<Event>, n: nat, maxBalance: int)
    requires n <= |es| && NeverTwo(es, n, maxBalance)
    ensures StartsApart(es, n, maxBalance)
  {
    hide OneLive, At;
    forall i | 0 <= i < n && es[i] == Start && !At(es, i, maxBalance).isRunning
      ensures AllDone(At(es, i, maxBalance).threads)
    {
      assert OneLive(At(es, i + 1, maxBalance).threads);
      AloneAfter(es, i, maxBalance);
    }
  }

  lemma AloneAfter(es: seq<Event>, i: nat, maxBalance: int)
    requires i < |es| && es[i] == Start && !At(es, i, maxBalance).isRunning
    requires OneLive(At(es, i + 1, maxBalance).threads)
    ensures AllDone(At(es, i, maxBalance).threads)
  {
    MadeAlone(At(es, i, maxBalance), maxBalance);
  }

  lemma MadeAlone(s: State, maxBalance: int)
    requires !s.isRunning && OneLive(Step(s, Start, maxBalance).threads)
    ensures AllDone(s.threads)
  {
    var ts := Step(s, Start, maxBalance).threads;
    forall t | 0 <= t < |s.threads| ensures s.threads[t] == Done {
      assert ts[t] == s.threads[t] && ts[|s.threads|] == Enter;
    }
  }

  /** No start comes while a thread has yet to set isRunning. */
  predicate AfterMarks(es: seq<Event>, n: nat, maxBalance: int)
    requires n <= |es|
  {
    forall i, t | 0 <= i < n && es[i] == Start && 0 <= t < |At(es, i, maxBalance).threads| ::
      At(es, i, maxBalance).threads[t] !in {Enter, Mark}
  }

  /** No start comes between a stop that is not ignored and the end of the threads it found. */
  ghost predicate AfterEnds(es: seq<Event>, n: nat, maxBalance: int)
    requires n <= |es|
  {
    forall h, i, t | 0 <= h < i < n && es[i] == Start && 0 <= t && EndedBy(es, h, t, maxBalance)
      && t < |At(es, i, maxBalance).threads| :: At(es, i, maxBalance).threads[t] == Done
  }

  /** Event h is a stop that finds thread t and is not ignored. */
  predicate EndedBy(es: seq<Event>, h: nat, t: nat, maxBalance: int)
    requires h < |es|
  {
    es[h] == Stop && At(es, h, maxBalance).isRunning && t < |At(es, h, maxBalance).threads|
  }

  predicate HasMarked(pc: Pc) {
    pc !in {Enter, Mark, Done}
  }

  lemma StepStopped(s: State, e: Event, t: nat, maxBalance: int)
    requires OneLive(s.threads)
    requires var s' := Step(s, e, maxBalance); !s'.isRunning && t < |s'.threads| && HasMarked(s'.threads[t])
    ensures t < |s.threads| && if s.isRunning then e == Stop else HasMarked(s.threads[t])
  {
    if e.Act? && e.t < |s.threads| && e.t != t && t < |s.threads| {
      assert s.threads[e.t] == Done || s.threads[t] == Done;
    }
  }

  /** A stop is what leaves isRunning unset beside a live thread that has set it. */
  lemma {:induction false} Stopped(es: seq<Event>, i: nat, t: nat, maxBalance: int) returns (h: nat)
    requires i <= |es| && StartsApart(es, i, maxBalance) && !At(es, i, maxBalance).isRunning
    requires t < |At(es, i, maxBalance).threads| && HasMarked(At(es, i, maxBalance).threads[t])
    ensures h < i && EndedBy(es, h, t, maxBalance)
    decreases i
  {
    assert i > 0;
    var s := At(es, i - 1, maxBalance);
    ApartBefore(es, i - 1, i, maxBalance);
    Alone(es, i - 1, maxBalance);
    hide StartsApart, OneLive, Step, HasMarked;
    StepStopped(s, es[i - 1], t, maxBalance);
    if s.isRunning {
      h := i - 1;
    } else {
      h := Stopped(es, i - 1, t, maxBalance);
    }
  }

  lemma StepMarked(s: State, e: Event, t: nat, maxBalance: int)
    requires OneLive(s.threads)
    requires var s' := Step(s, e, maxBalance); s'.isRunning && t < |s'.threads| && s'.threads[t] in {Enter, Mark}
    ensures s.isRunning && t < |s.threads| && s.threads[t] in {Enter, Mark}
  {
    if e.Act? && e.t < |s.threads| && e.t != t && t < |s.threads| {
      assert s.threads[e.t] == Done || s.threads[t] == Done;
    }
  }

  /** Where only one thread lives, it is the one that has set isRunning. */
  lemma {:induction false} Marked(es: seq<Event>, i: nat, t: nat, maxBalance: int)
    requires i <= |es| && StartsApart(es, i, maxBalance) && At(es, i, maxBalance).isRunning
    requires t < |At(es, i, maxBalance).threads|
    ensures At(es, i, maxBalance).threads[t] !in {Enter, Mark}
    decreases i
  {
    if At(es, i, maxBalance).threads[t] in {Enter, Mark} {
      assert i > 0;
      ApartBefore(es, i - 1, i, maxBalance);
      Alone(es, i - 1, maxBalance);
      hide StartsApart, OneLive, Step;
      StepMarked(At(es, i - 1, maxBalance), es[i - 1], t, maxBalance);
      Marked(es, i - 1, t, maxBalance);
    }
  }

  lemma StepStays(s: State, e: Event, t: nat, maxBalance: int)
    requires OneLive(s.threads) && t < |s.threads|
      && (s.threads[t] == Done || (!s.isRunning && HasMarked(s.threads[t])))
    ensures var s' := Step(s, e, maxBalance); s'.threads[t] == Done || (!s'.isRunning && HasMarked(s'.threads[t]))
  {
    if e.Act? && e.t < |s.threads| && e.t != t {
      assert s.threads[e.t] == Done || s.threads[t] == Done;
    }
  }

  lemma JustStopped(es: seq<Event>, h: nat, t: nat, maxBalance: int)
    requires h < |es| && StartsApart(es, h, maxBalance) && EndedBy(es, h, t, maxBalance)
    ensures var s := At(es, h + 1, maxBalance);
            !s.isRunning && t < |s.threads| && (s.threads[t] == Done || HasMarked(s.threads[t]))
  {
    Marked(es, h, t, maxBalance);
  }

  /** After a stop isRunning stays unset as long as the thread lives. */
  lemma {:induction false} StaysStopped(es: seq<Event>, h: nat, i: nat, t: nat, maxBalance: int)
    requires h < i <= |es| && StartsApart(es, i, maxBalance) && EndedBy(es, h, t, maxBalance)
    ensures var s := At(es, i, maxBalance);
            t < |s.threads| && (s.threads[t] == Done || (!s.isRunning && HasMarked(s.threads[t])))
    decreases i
  {
    hide StartsApart, OneLive, Step, HasMarked;
    ApartBefore(es, i - 1, i, maxBalance);
    if h == i - 1 {
      JustStopped(es, h, t, maxBalance);
    } else {
      ThreadsStay(es, i - 1, i, maxBalance);
      Alone(es, i - 1, maxBalance);
      hide EndedBy;
      StaysStopped(es, h, i - 1, t, maxBalance);
      StepStays(At(es, i - 1, maxBalance), es[i - 1], t, maxBalance);
    }
  }

  lemma {:induction false} ThreadsStay(es: seq<Event>, h: nat, i: nat, maxBalance: int)
    requires h <= i <= |es|
    ensures |At(es, h, maxBalance).threads| <= |At(es, i, maxBalance).threads|
    decreases i
  {
    if h < i {
      ThreadsStay(es, h, i - 1, maxBalance);
    }
  }

  /** In the terms of a caller: starts are apart exactly when none comes between an earlier start and its thread's
      setting of isRunning, and none between a stop and the end of the thread. */
  lemma {:induction false} ApartForCallers(es: seq<Event>, n: nat, maxBalance: int)
    requires n <= |es|
    ensures StartsApart(es, n, maxBalance) <==> AfterMarks(es, n, maxBalance) && AfterEnds(es, n, maxBalance)
  {
    if StartsApart(es, n, maxBalance) {
      ApartMeans(es, n, maxBalance);
    }
    if AfterMarks(es, n, maxBalance) && AfterEnds(es, n, maxBalance) {
      MeansApart(es, n, maxBalance);
    }
  }

  lemma ApartMeans(es: seq<Event>, n: nat, maxBalance: int)
    requires n <= |es| && StartsApart(es, n, maxBalance)
    ensures AfterMarks(es, n, maxBalance) && AfterEnds(es, n, maxBalance)
  {
    forall i, t | 0 <= i < n && es[i] == Start && 0 <= t < |At(es, i, maxBalance).threads|
      ensures At(es, i, maxBalance).threads[t] !in {Enter, Mark}
    {
      ApartBefore(es, i, n, maxBalance);
      hide StartsApart, At;
      if At(es, i, maxBalance).isRunning {
        Marked(es, i, t, maxBalance);
      }
    }
    forall h, i, t | 0 <= h < i < n && es[i] == Start && 0 <= t && EndedBy(es, h, t, maxBalance)
      && t < |At(es, i, maxBalance).threads| ensures At(es, i, maxBalance).threads[t] == Done
    {
      ApartBefore(es, i, n, maxBalance);
      hide StartsApart, At;
      StaysStopped(es, h, i, t, maxBalance);
    }
  }

  lemma {:induction false} MeansApart(es: seq<Event>, n: nat, maxBalance: int)
    requires n <= |es| && AfterMarks(es, n, maxBalance) && AfterEnds(es, n, maxBalance)
    ensures StartsApart(es, n, maxBalance)
    decreases n
  {
    if n > 0 {
      FewerMeans(es, n, maxBalance);
      hide At, EndedBy, AfterMarks, AfterEnds;
      MeansApart(es, n - 1, maxBalance);
      if es[n - 1] == Start && !At(es, n - 1, maxBalance).isRunning {
        EndedThen(es, n, maxBalance);
      }
    }
  }

  lemma FewerMeans(es: seq<Event>, n: nat, maxBalance: int)
    requires 0 < n <= |es| && AfterMarks(es, n, maxBalance) && AfterEnds(es, n, maxBalance)
    ensures AfterMarks(es, n - 1, maxBalance) && AfterEnds(es, n - 1, maxBalance)
  {
    hide At, EndedBy;
  }

  lemma EndedThen(es: seq<Event>, n: nat, maxBalance: int)
    requires 0 < n <= |es| && AfterMarks(es, n, maxBalance) && AfterEnds(es, n, maxBalance)
    requires StartsApart(es, n - 1, maxBalance) && es[n - 1] == Start && !At(es, n - 1, maxBalance).isRunning
    ensures AllDone(At(es, n - 1, maxBalance).threads)
  {
    var ts := At(es, n - 1, maxBalance).threads;
    forall t | 0 <= t < |ts| ensures ts[t] == Done {
      EndedOne(es, n, t, maxBalance);
    }
  }

  lemma EndedOne(es: seq<Event>, n: nat, t: nat, maxBalance: int)
    requires 0 < n <= |es| && AfterMarks(es, n, maxBalance) && AfterEnds(es, n, maxBalance)
    requires StartsApart(es, n - 1, maxBalance) && es[n - 1] == Start && !At(es, n - 1, maxBalance).isRunning
    requires t < |At(es, n - 1, maxBalance).threads|
    ensures At(es, n - 1, maxBalance).threads[t] == Done
  {
    hide At, EndedBy, StartsApart, AfterMarks, AfterEnds;
    MarkedAt(es, n, t, maxBalance);
    if At(es, n - 1, maxBalance).threads[t] != Done {
      var h := Stopped(es, n - 1, t, maxBalance);
      EndedAt(es, n, h, t, maxBalance);
    }
  }

  lemma MarkedAt(es: seq<Event>, n: nat, t: nat, maxBalance: int)
    requires 0 < n <= |es| && AfterMarks(es, n, maxBalance) && es[n - 1] == Start
    requires t < |At(es, n - 1, maxBalance).threads|
    ensures At(es, n - 1, maxBalance).threads[t] !in {Enter, Mark}
  {
    hide At;
  }

  lemma EndedAt(es: seq<Event>, n: nat, h: nat, t: nat, maxBalance: int)
    requires 0 < n <= |es| && AfterEnds(es, n, maxBalance) && es[n - 1] == Start
    requires h < n - 1 && EndedBy(es, h, t, maxBalance) && t < |At(es, n - 1, maxBalance).threads|
    ensures At(es, n - 1, maxBalance).threads[t] == Done
  {
    hide At, EndedBy;
  }

  /** While the thread is in its loop nothing is lost: the count and the request in flight are the requests since
      the last answer and the one that it overtook, and they never exceed the limit. */
  ghost predicate Balanced(s: State, t: nat, since: int, raced: int, maxBalance: int)
    requires t < |s.threads|
  {
    var pc := s.threads[t];
    InLoop(pc) ==>
      var counted := s.balance + if Flying(pc) then 1 else 0;
      counted == since + raced && counted <= maxBalance && (pc == Send ==> counted < maxBalance) && s.balance >= 0
  }

  lemma StepBalanced(s: State, e: Event, t: nat, since: nat, raced: nat, maxBalance: int)
    requires maxBalance > 0 && OneLive(s.threads) && t < |s.threads|
    requires Balanced(s, t, since, raced, maxBalance)
    ensures Balanced(Step(s, e, maxBalance), t, NextSince(s, e, since), NextRaced(s, e, raced), maxBalance)
  {
    if s.threads[t] != Done {
      OneFlying(s.threads, t);
      if e.Act? && e.t < |s.threads| && e.t != t {
        assert s.threads[e.t] == Done;
      }
    }
  }

  lemma {:induction false} AlwaysBalanced(es: seq<Event>, i: nat, t: nat, maxBalance: int)
    requires i <= |es| && StartsApart(es, i, maxBalance) && maxBalance > 0
    requires t < |At(es, i, maxBalance).threads|
    ensures Balanced(At(es, i, maxBalance), t, Since(es, i, maxBalance), Raced(es, i, maxBalance), maxBalance)
    decreases i
  {
    var s, e := At(es, i - 1, maxBalance), es[i - 1];
    Alone(es, i - 1, maxBalance);
    assert StartsApart(es, i - 1, maxBalance);
    if t < |s.threads| {
      hide Balanced, StartsApart, OneLive, Step, NextSince, NextRaced;
      AlwaysBalanced(es, i - 1, t, maxBalance);
      StepBalanced(s, e, t, Since(es, i - 1, maxBalance), Raced(es, i - 1, maxBalance), maxBalance);
    }
  }

  /** When silence is reported, exactly maxBalance requests have been sent since the last answer, or one less if
      that answer came between the sending of a request and its count. */
  lemma SilenceExactly(es: seq<Event>, i: nat, maxBalance: int)
    requires i < |es| && StartsApart(es, i, maxBalance) && maxBalance > 0
    requires ReportsSilence(At(es, i, maxBalance), es[i], maxBalance)
    ensures Since(es, i, maxBalance) == maxBalance - Raced(es, i, maxBalance)
    ensures Raced(es, i, maxBalance) <= 1
  {
    AlwaysBalanced(es, i, es[i].t, maxBalance);
    AtMostOneRaced(es, i, maxBalance);
  }

  lemma {:induction false} AtMostOneRaced(es: seq<Event>, i: nat, maxBalance: int)
    requires i <= |es| && StartsApart(es, i, maxBalance)
    ensures Raced(es, i, maxBalance) <= 1
    decreases i
  {
    if i > 0 {
      assert StartsApart(es, i - 1, maxBalance);
      hide StartsApart, OneLive, At;
      AtMostOneRaced(es, i - 1, maxBalance);
      Alone(es, i - 1, maxBalance);
      AtMostOneFlying(At(es, i - 1, maxBalance).threads);
    }
  }

  /** When no answer has come since a loop began, silence is reported after exactly maxBalance requests, whatever
      else has happened. */
  lemma NeverAnswered(es: seq<Event>, r: nat, i: nat, maxBalance: int)
    requires r < i < |es| && StartsApart(es, i, maxBalance) && maxBalance > 0
    requires Does(At(es, r, maxBalance), es[r], Reset) && forall k | r < k < i :: es[k] != ZeroBalance
    requires ReportsSilence(At(es, i, maxBalance), es[i], maxBalance)
    ensures Since(es, i, maxBalance) == maxBalance
  {
    SilenceExactly(es, i, maxBalance);
    NoneRaced(es, r, i, maxBalance);
  }

  lemma {:induction false} NoneRaced(es: seq<Event>, r: nat, i: nat, maxBalance: int)
    requires r < i <= |es| && StartsApart(es, i, maxBalance)
    requires Does(At(es, r, maxBalance), es[r], Reset) && forall k | r < k < i :: es[k] != ZeroBalance
    ensures Raced(es, i, maxBalance) == 0
    decreases i
  {
    hide StartsApart, OneLive, At, InFlight;
    ApartBefore(es, i - 1, i, maxBalance);
    Alone(es, i - 1, maxBalance);
    ResetAlone(At(es, i - 1, maxBalance), es[i - 1]);
    if r < i - 1 {
      NoneRaced(es, r, i - 1, maxBalance);
    }
  }

  lemma ResetAlone(s: State, e: Event)
    requires OneLive(s.threads)
    ensures Does(s, e, Reset) ==> InFlight(s.threads) == 0
  {
    if Does(s, e, Reset) {
      OneFlying(s.threads, e.t);
    }
  }

  /** From event r up to event i only thread t acts, with success, and starts come. */
  predicate Unhindered(es: seq<Event>, r: nat, i: nat, t: nat)
    requires i <= |es|
  {
    forall k | r <= k < i :: es[k] == Event.Act(t, true) || es[k] == Start
  }

  function Acts(es: seq<Event>, r: nat, i: nat): nat
    requires i <= |es|
  {
    if i <= r then 0 else Acts(es, r, i - 1) + if es[i - 1].Act? then 1 else 0
  }

  /** How many steps a thread has made since it entered its loop. */
  function Steps(s: State, t: nat): int
    requires t < |s.threads|
  {
    6 * s.balance + match s.threads[t]
                    case Wake => 1
                    case Check => 2
                    case Send => 3
                    case Sent(_) => 4
                    case Count => 5
                    case _ => 0
  }

  predicate Looping(s: State, t: nat) {
    s.isRunning && t < |s.threads| && s.threads[t] in {Loop, Wake, Check, Send, Sent(true), Count}
  }

  lemma StepOn(s: State, t: nat, maxBalance: nat)
    requires Looping(s, t) && Steps(s, t) < 6 * maxBalance + 2
    ensures var s' := Step(s, Event.Act(t, true), maxBalance); Looping(s', t) && Steps(s', t) == Steps(s, t) + 1
  {
  }

  lemma {:induction false} GetsOn(es: seq<Event>, r: nat, i: nat, t: nat, maxBalance: nat)
    requires r <= i <= |es| && Unhindered(es, r, i, t) && Acts(es, r, i) <= 6 * maxBalance + 2
    requires var s := At(es, r, maxBalance); Looping(s, t) && s.threads[t] == Loop && s.balance == 0
    ensures var s := At(es, i, maxBalance); Looping(s, t) && Steps(s, t) == Acts(es, r, i)
    decreases i
  {
    if r < i {
      var s := At(es, i - 1, maxBalance);
      assert es[i - 1] == Event.Act(t, true) || es[i - 1] == Start;
      hide Step, Looping, Steps;
      GetsOn(es, r, i - 1, t, maxBalance);
      if es[i - 1] == Start {
        Ignored(s, t, maxBalance);
      } else {
        StepOn(s, t, maxBalance);
      }
    }
  }

  lemma Ignored(s: State, t: nat, maxBalance: int)
    requires Looping(s, t)
    ensures Step(s, Start, maxBalance) == s
  {
  }

  /** A link that does not answer is reported: the step after 6 * maxBalance + 2 steps of the loop finds the count
      at its limit. */
  lemma ReportComes(es: seq<Event>, r: nat, i: nat, t: nat, maxBalance: nat)
    requires r <= i < |es| && Unhindered(es, r, i, t) && Acts(es, r, i) == 6 * maxBalance + 2
    requires var s := At(es, r, maxBalance); Looping(s, t) && s.threads[t] == Loop && s.balance == 0
    requires es[i] == Event.Act(t, true)
    ensures ReportsSilence(At(es, i, maxBalance), es[i], maxBalance)
  {
    GetsOn(es, r, i, t, maxBalance);
  }

  /** Every thread has reported a failure, is about to, or ends before it does anything; and isRunning is set. */
  predicate GivenUp(s: State) {
    s.isRunning && forall t | 0 <= t < |s.threads| :: Spent(s.threads[t])
  }

  predicate Spent(pc: Pc) {
    pc in {Enter, Sent(false), Inform, InformAgain, Done}
  }

  lemma StepGivenUp(s: State, e: Event, maxBalance: int)
    requires GivenUp(s) && e != Stop
    ensures GivenUp(Step(s, e, maxBalance)) && !Does(s, e, Send)
    ensures e == Start ==> Step(s, e, maxBalance) == s
  {
    var s' := Step(s, e, maxBalance);
    forall t | 0 <= t < |s'.threads| ensures Spent(s'.threads[t]) {
      assert Spent(s.threads[t]);
    }
    if e.Act? && e.t < |s.threads| {
      assert Spent(s.threads[e.t]);
    }
  }

  lemma {:induction false} StaysGivenUp(es: seq<Event>, r: nat, j: nat, maxBalance: int)
    requires r <= j < |es| && GivenUp(At(es, r, maxBalance)) && forall k | r <= k < j :: es[k] != Stop
    ensures GivenUp(At(es, j, maxBalance))
    decreases j
  {
    if r < j {
      StaysGivenUp(es, r, j - 1, maxBalance);
      assert es[j - 1] != Stop;
      StepGivenUp(At(es, j - 1, maxBalance), es[j - 1], maxBalance);
    }
  }

  /** Event j neither makes a thread nor sends a request. */
  predicate Idle(es: seq<Event>, j: nat, maxBalance: int)
    requires j < |es|
  {
    && (es[j] == Start ==> At(es, j + 1, maxBalance) == At(es, j, maxBalance))
    && !Does(At(es, j, maxBalance), es[j], Send)
  }

  /** Where starts are apart: after a failure report isRunning stays set, so until the next stop no start makes a
      thread and no request is sent. */
  lemma StartIgnored(es: seq<Event>, r: nat, t: nat, j: nat, maxBalance: int)
    requires r <= j < |es| && StartsApart(es, r, maxBalance) && forall k | r <= k <= j :: es[k] != Stop
    requires var s := At(es, r, maxBalance); s.isRunning && t < |s.threads| && s.threads[t] == Inform
    ensures Idle(es, j, maxBalance)
  {
    Alone(es, r, maxBalance);
    StaysGivenUp(es, r, j, maxBalance);
    StepGivenUp(At(es, j, maxBalance), es[j], maxBalance);
  }

  /** However the run goes on, until a stop no start makes a thread and no request is sent. */
  ghost predicate IdleUntilStop(es: seq<Event>, maxBalance: int) {
    forall fs: seq<Event>, j | es <= fs && |es| <= j < |fs| && (forall k | |es| <= k <= j :: fs[k] != Stop) ::
      Idle(fs, j, maxBalance)
  }

  /** In general that holds exactly when every thread is spent: a second loop goes on. */
  lemma IdleExactly(es: seq<Event>, maxBalance: int)
    requires At(es, |es|, maxBalance).isRunning && maxBalance > 0
    ensures IdleUntilStop(es, maxBalance) <==> GivenUp(At(es, |es|, maxBalance))
  {
    var s := At(es, |es|, maxBalance);
    if GivenUp(s) {
      forall fs: seq<Event>, j | es <= fs && |es| <= j < |fs| && (forall k | |es| <= k <= j :: fs[k] != Stop)
        ensures Idle(fs, j, maxBalance)
      {
        Extended(es, fs, |es|, maxBalance);
        StaysGivenUp(fs, |es|, j, maxBalance);
        StepGivenUp(At(fs, j, maxBalance), fs[j], maxBalance);
      }
    } else {
      var t: nat :| t < |s.threads| && !Spent(s.threads[t]);
      var fs := SendsAgain(es, s, t, maxBalance);
      assert !Idle(fs, |fs| - 1, maxBalance);
    }
  }

  lemma {:induction false} Extended(es: seq<Event>, fs: seq<Event>, i: nat, maxBalance: int)
    requires es <= fs && i <= |es|
    ensures At(fs, i, maxBalance) == At(es, i, maxBalance)
  {
    if i > 0 {
      Extended(es, fs, i - 1, maxBalance);
    }
  }

  /** How many steps a thread is from sending a request. */
  function ToSend(pc: Pc): nat {
    match pc
    case Mark => 7
    case Reset => 6
    case Probe => 5
    case Sent(true) => 5
    case Count => 4
    case Loop => 3
    case Wake => 2
    case Check => 1
    case _ => 0
  }

  /** A thread that is not spent can be brought nearer to sending. */
  function Toward(s: State, t: nat, maxBalance: int): Event
    requires t < |s.threads|
  {
    if s.threads[t] == Check && s.balance >= maxBalance then ZeroBalance else Event.Act(t, true)
  }

  lemma StepToward(s: State, t: nat, maxBalance: int)
    requires maxBalance > 0 && s.isRunning && t < |s.threads| && !Spent(s.threads[t]) && s.threads[t] != Send
    ensures var s' := Step(s, Toward(s, t, maxBalance), maxBalance);
            && s'.isRunning && t < |s'.threads| && !Spent(s'.threads[t])
            && (ToSend(s'.threads[t]) < ToSend(s.threads[t])
                || (ToSend(s'.threads[t]) == ToSend(s.threads[t]) && s'.balance == 0 < s.balance))
  {
  }

  lemma {:induction false} SendsAgain(es: seq<Event>, s: State, t: nat, maxBalance: int) returns (fs: seq<Event>)
    requires s == At(es, |es|, maxBalance) && maxBalance > 0
    requires s.isRunning && t < |s.threads| && !Spent(s.threads[t])
    ensures es < fs && (forall k | |es| <= k < |fs| :: fs[k] != Stop)
    ensures Does(At(fs, |fs| - 1, maxBalance), fs[|fs| - 1], Send)
    decreases ToSend(s.threads[t]), s.balance
  {
    var e := Toward(s, t, maxBalance);
    var gs := es + [e];
    OneMore(es, e, maxBalance);
    if s.threads[t] == Send {
      fs := gs;
    } else {
      StepToward(s, t, maxBalance);
      hide Step, Spent, ToSend, At, Does;
      fs := SendsAgain(gs, Step(s, e, maxBalance), t, maxBalance);
      forall k | |es| <= k < |fs| ensures fs[k] != Stop {
        assert k == |es| ==> fs[k] == gs[k];
      }
      assert es == gs[..|es|] == fs[..|es|];
    }
  }

  lemma OneMore(es: seq<Event>, e: Event, maxBalance: int)
    ensures At(es + [e], |es|, maxBalance) == At(es, |es|, maxBalance)
    ensures At(es + [e], |es| + 1, maxBalance) == Step(At(es, |es|, maxBalance), e, maxBalance)
  {
    Extended(es, es + [e], |es|, maxBalance);
  }

  // ---------- The bounds are tight, and two loops break them ----------

  lemma {:induction false} Prefix(es: seq<Event>, e: Event, i: nat, maxBalance: int)
    requires i <= |es|
    ensures At(es + [e], i, maxBalance) == At(es, i, maxBalance)
    ensures Since(es + [e], i, maxBalance) == Since(es, i, maxBalance)
  {
    if i > 0 {
      Prefix(es, e, i - 1, maxBalance);
      assert (es + [e])[i - 1] == es[i - 1];
    }
  }

  /** The state at the end of a run, and how many requests have gone since the last answer. */
  ghost predicate Stands(es: seq<Event>, balance: int, threads: seq<Pc>, since: nat, maxBalance: int) {
    At(es, |es|, maxBalance) == State(true, balance, threads) && Since(es, |es|, maxBalance) == since
  }

  /** One more step of a running thread. */
  lemma Go(es: seq<Event>, t: nat, balance: int, threads: seq<Pc>, since: nat, maxBalance: int)
    returns (fs: seq<Event>, after: seq<Pc>)
    requires Stands(es, balance, threads, since, maxBalance) && t < |threads| && InLoop(threads[t])
    ensures fs == es + [Event.Act(t, true)]
    ensures var s := State(true, balance, threads);
            && after == threads[t := Next(s, threads[t], true, maxBalance)]
            && Stands(fs, if threads[t] == Count then balance + 1 else balance, after,
                      if threads[t] == Send then since + 1 else since, maxBalance)
  {
    var e := Event.Act(t, true);
    fs := es + [e];
    after := threads[t := Next(State(true, balance, threads), threads[t], true, maxBalance)];
    Prefix(es, e, |es|, maxBalance);
    assert fs[|fs| - 1] == e;
    assert At(fs, |fs|, maxBalance) == Step(At(es, |es|, maxBalance), e, maxBalance);
  }

  /** The run goes on without another start. */
  predicate Further(es: seq<Event>, fs: seq<Event>) {
    es <= fs && forall k | |es| <= k < |fs| :: fs[k] != Start
  }

  lemma FurtherOn(es: seq<Event>, fs: seq<Event>, gs: seq<Event>)
    requires Further(es, fs) && Further(fs, gs)
    ensures Further(es, gs)
  {
    forall k | |es| <= k < |gs| ensures gs[k] != Start {
      assert k < |fs| ==> fs[k] == gs[k];
    }
  }

  /** A round of the loop in which nothing is answered. */
  lemma Round(es: seq<Event>, t: nat, balance: int, threads: seq<Pc>, since: nat, maxBalance: int)
    returns (fs: seq<Event>)
    requires Stands(es, balance, threads, since, maxBalance) && balance < maxBalance
    requires t < |threads| && threads[t] == Loop
    ensures Stands(fs, balance + 1, threads, since + 1, maxBalance) && Further(es, fs)
  {
    hide Stands;
    var ts := threads;
    fs, ts := Go(es, t, balance, ts, since, maxBalance);
    fs, ts := Go(fs, t, balance, ts, since, maxBalance);
    fs, ts := Go(fs, t, balance, ts, since, maxBalance);
    fs, ts := Go(fs, t, balance, ts, since, maxBalance);
    fs, ts := Go(fs, t, balance, ts, since + 1, maxBalance);
    fs, ts := Go(fs, t, balance, ts, since + 1, maxBalance);
    assert ts == threads;
  }

  /** From the head of its loop, if nothing is answered, the thread gets to report the failure. */
  lemma {:induction false} Silence(es: seq<Event>, t: nat, balance: int, threads: seq<Pc>, since: nat, maxBalance: int)
    returns (fs: seq<Event>)
    requires Stands(es, balance, threads, since, maxBalance) && balance <= maxBalance
    requires t < |threads| && threads[t] == Loop
    ensures Stands(fs, maxBalance, threads[t := Check], since + (maxBalance - balance), maxBalance) && Further(es, fs)
    decreases maxBalance - balance
  {
    hide Stands, Further;
    if balance < maxBalance {
      var gs := Round(es, t, balance, threads, since, maxBalance);
      fs := Silence(gs, t, balance + 1, threads, since + 1, maxBalance);
      FurtherOn(es, gs, fs);
    } else {
      var ts;
      fs, ts := Go(es, t, balance, threads, since, maxBalance);
      fs, ts := Go(fs, t, balance, ts, since, maxBalance);
      assert ts == threads[t := Check];
      TwoMore(es, fs);
    }
  }

  lemma TwoMore(es: seq<Event>, fs: seq<Event>)
    requires |fs| == |es| + 2 && fs[..|es|] == es && fs[|es|] != Start && fs[|es| + 1] != Start
    ensures Further(es, fs)
  {
  }

  lemma Overtaken(es: seq<Event>, balance: int, threads: seq<Pc>, since: nat, maxBalance: int) returns (fs: seq<Event>)
    requires Stands(es, balance, threads, since, maxBalance)
    ensures fs == es + [ZeroBalance] && Stands(fs, 0, threads, 0, maxBalance)
  {
    fs := es + [ZeroBalance];
    Prefix(es, ZeroBalance, |es|, maxBalance);
    assert fs[|fs| - 1] == ZeroBalance;
  }

  lemma AtProbe(maxBalance: int) returns (es: seq<Event>)
    ensures Stands(es, 0, [Probe], 0, maxBalance)
  {
    var a := Event.Act(0, true);
    es := [Start, a, a, a];
    assert At(es, 1, maxBalance) == State(false, 0, [Enter]);
    assert At(es, 2, maxBalance) == State(false, 0, [Mark]);
    assert At(es, 3, maxBalance) == State(true, 0, [Reset]);
    assert At(es, 4, maxBalance) == State(true, 0, [Probe]);
  }

  /** The bound is tight: an answer that comes between a request's sending and its count costs one request. */
  lemma OneTooFew(maxBalance: int) returns (es: seq<Event>)
    requires maxBalance > 0
    ensures ReportsSilence(At(es, |es|, maxBalance), Event.Act(0, true), maxBalance)
    ensures Since(es, |es|, maxBalance) == maxBalance - 1
  {
    es := AtProbe(maxBalance);
    es := Race(es, maxBalance);
    es := Silence(es, 0, 1, [Loop], 0, maxBalance);
  }

  lemma Race(es: seq<Event>, maxBalance: int) returns (fs: seq<Event>)
    requires maxBalance > 0 && Stands(es, 0, [Probe], 0, maxBalance)
    ensures Stands(fs, 1, [Loop], 0, maxBalance)
  {
    hide Stands;
    var ts := [Probe];
    fs, ts := Go(es, 0, 0, ts, 0, maxBalance);
    fs, ts := Go(fs, 0, 0, ts, 0, maxBalance);
    fs, ts := Go(fs, 0, 0, ts, 0, maxBalance);
    fs, ts := Go(fs, 0, 0, ts, 0, maxBalance);
    fs, ts := Go(fs, 0, 0, ts, 0, maxBalance);
    fs := Overtaken(fs, 0, ts, 1, maxBalance);
    fs, ts := Go(fs, 0, 0, ts, 0, maxBalance);
    fs, ts := Go(fs, 0, 0, ts, 0, maxBalance);
    assert ts == [Loop];
  }

  /** Two starts before the first thread has set isRunning make two loops. */
  lemma TwoLoops(maxBalance: int) returns (es: seq<Event>)
    ensures var a, b := Event.Act(0, true), Event.Act(1, true); es == [Start, Start, a, b, a, b, a, b]
    ensures Stands(es, 0, [Probe, Probe], 0, maxBalance) && !StartsApart(es, |es|, maxBalance)
  {
    var a, b := Event.Act(0, true), Event.Act(1, true);
    es := [Start, Start, a, b, a, b, a, b];
    assert At(es, 1, maxBalance) == State(false, 0, [Enter]);
    assert At(es, 2, maxBalance) == State(false, 0, [Enter, Enter]);
    assert At(es, 3, maxBalance) == State(false, 0, [Mark, Enter]);
    assert At(es, 4, maxBalance) == State(false, 0, [Mark, Mark]);
    assert At(es, 5, maxBalance) == State(true, 0, [Reset, Mark]);
    assert At(es, 6, maxBalance) == State(true, 0, [Reset, Reset]);
    assert At(es, 7, maxBalance) == State(true, 0, [Probe, Reset]);
    assert At(es, 8, maxBalance) == State(true, 0, [Probe, Probe]);
    assert es[1] == Start && At(es, 1, maxBalance).threads[0] == Enter;
  }

  /** With two loops one answer can overtake two requests, so silence is reported after two too few. */
  lemma TwoTooFew(maxBalance: int) returns (es: seq<Event>)
    requires maxBalance > 1
    ensures !StartsApart(es, |es|, maxBalance)
    ensures ReportsSilence(At(es, |es|, maxBalance), Event.Act(0, true), maxBalance)
    ensures Since(es, |es|, maxBalance) == maxBalance - 2
    ensures At(es, |es|, maxBalance) == State(true, maxBalance, [Check, Loop])
  {
    es := TwoLoops(maxBalance);
    es := DoubleRace(es, maxBalance);
    es := Silence(es, 0, 2, [Loop, Loop], 0, maxBalance);
    TwoLive(es, maxBalance);
  }

  lemma TwoLive(es: seq<Event>, maxBalance: int)
    requires At(es, |es|, maxBalance).threads == [Check, Loop]
    ensures !StartsApart(es, |es|, maxBalance)
  {
    NotAlone(At(es, |es|, maxBalance).threads);
    hide At, StartsApart, OneLive;
    if StartsApart(es, |es|, maxBalance) {
      Alone(es, |es|, maxBalance);
    }
  }

  lemma NotAlone(ts: seq<Pc>)
    requires |ts| > 1 && ts[0] != Done && ts[1] != Done
    ensures !OneLive(ts)
  {
  }

  lemma DoubleRace(es: seq<Event>, maxBalance: int) returns (fs: seq<Event>)
    requires maxBalance > 1 && Stands(es, 0, [Probe, Probe], 0, maxBalance)
    ensures Stands(fs, 2, [Loop, Loop], 0, maxBalance)
  {
    hide Stands;
    fs := BothSent(es, maxBalance);
    fs := Overtaken(fs, 0, [Sent(true), Sent(true)], 2, maxBalance);
    fs := BothCounted(fs, maxBalance);
  }

  lemma BothCounted(es: seq<Event>, maxBalance: int) returns (fs: seq<Event>)
    requires maxBalance > 1 && Stands(es, 0, [Sent(true), Sent(true)], 0, maxBalance)
    ensures Stands(fs, 2, [Loop, Loop], 0, maxBalance)
  {
    hide Stands;
    var ts := [Sent(true), Sent(true)];
    fs, ts := Go(es, 0, 0, ts, 0, maxBalance);
    assert ts == [Count, Sent(true)];
    fs, ts := Go(fs, 0, 0, ts, 0, maxBalance);
    assert ts == [Loop, Sent(true)];
    fs, ts := Go(fs, 1, 1, ts, 0, maxBalance);
    assert ts == [Loop, Count];
    fs, ts := Go(fs, 1, 1, ts, 0, maxBalance);
    assert ts == [Loop, Loop];
  }

  lemma BothSent(es: seq<Event>, maxBalance: int) returns (fs: seq<Event>)
    requires maxBalance > 1 && Stands(es, 0, [Probe, Probe], 0, maxBalance)
    ensures Stands(fs, 0, [Sent(true), Sent(true)], 2, maxBalance)
  {
    hide Stands;
    var ts := [Probe, Probe];
    fs, ts := Go(es, 0, 0, ts, 0, maxBalance);
    fs, ts := Go(fs, 0, 0, ts, 0, maxBalance);
    fs, ts := Go(fs, 0, 0, ts, 0, maxBalance);
    fs, ts := Go(fs, 0, 0, ts, 0, maxBalance);
    fs, ts := Go(fs, 0, 0, ts, 0, maxBalance);
    fs, ts := Go(fs, 1, 0, ts, 1, maxBalance);
    fs, ts := Go(fs, 1, 0, ts, 1, maxBalance);
    fs, ts := Go(fs, 1, 0, ts, 1, maxBalance);
    fs, ts := Go(fs, 1, 0, ts, 1, maxBalance);
    fs, ts := Go(fs, 1, 0, ts, 1, maxBalance);
    assert ts == [Sent(true), Sent(true)];
  }

  /** With two loops, one can report the failure and the other go on to send a request without any stop. */
  lemma SendsAfterReport(maxBalance: int) returns (es: seq<Event>, fs: seq<Event>)
    requires maxBalance > 1
    ensures At(es, |es|, maxBalance).isRunning && Inform in At(es, |es|, maxBalance).threads
    ensures es < fs && (forall k | |es| <= k < |fs| :: fs[k] != Stop) && !Idle(fs, |fs| - 1, maxBalance)
  {
    es := TwoTooFew(maxBalance);
    var ts := [Check, Loop];
    assert Stands(es, maxBalance, ts, maxBalance - 2, maxBalance);
    es, ts := Go(es, 0, maxBalance, ts, maxBalance - 2, maxBalance);
    assert At(es, |es|, maxBalance).threads == [Inform, Loop];
    fs := SendsAgain(es, At(es, |es|, maxBalance), 1, maxBalance);
  }
}
