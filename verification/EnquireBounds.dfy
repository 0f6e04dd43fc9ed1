/** When the bound on unanswered requests can be broken: what every run of EnquireLink may still come to. */
module EnquireBounds {
  import opened EnquireLink

  /** A thread that is neither ended nor about to end. */
  predicate Going(pc: Pc) {
    pc !in {Sent(false), Inform, InformAgain, Done}
  }

  predicate TwoGoing(ts: seq<Pc>) {
    exists t, u :: 0 <= t < u < |ts| && Going(ts[t]) && Going(ts[u])
  }

  /** isRunning is set, or a thread will set it. */
  predicate Awake(s: State) {
    s.isRunning || exists t :: 0 <= t < |s.threads| && s.threads[t] in {Enter, Mark}
  }

  function Counting(ts: seq<Pc>): nat {
    if ts == [] then 0 else Counting(ts[1..]) + if ts[0] == Count then 1 else 0
  }

  /** The threads that are about to count reach the limit, and another is about to check it: neither looks at
      isRunning any more. */
  predicate Brimful(s: State, maxBalance: int) {
    Counting(s.threads) >= maxBalance && exists t :: 0 <= t < |s.threads| && s.threads[t] == Check
  }

  /** Without a further start the run can go on so that after a further answer silence is reported too early. */
  ghost predicate BreaksLater(es: seq<Event>, maxBalance: int) {
    exists fs: seq<Event>, z: nat, j: nat ::
      Further(es, fs) && |es| <= z < j < |fs| && Early(fs, z, j, maxBalance)
  }

  predicate Early(fs: seq<Event>, z: nat, j: nat, maxBalance: int)
    requires z < j < |fs|
  {
    && Zeroes(At(fs, z, maxBalance), fs[z])
    && ReportsSilence(At(fs, j, maxBalance), fs[j], maxBalance)
    && Since(fs, j, maxBalance) < maxBalance - 1
  }

  /** The bound can still be broken if and only if two threads can go on, or the threads that are left when the loops
      have been stopped count up to the limit by themselves. */
  lemma BreaksExactly(es: seq<Event>, maxBalance: int)
    ensures var s := At(es, |es|, maxBalance);
      BreaksLater(es, maxBalance) <==>
      maxBalance > 1 && ((Awake(s) && TwoGoing(s.threads)) || Brimful(s, maxBalance))
  {
    hide At, Further, Early, TwoGoing, Awake, Brimful;
    var s := At(es, |es|, maxBalance);
    if BreaksLater(es, maxBalance) {
      var fs: seq<Event>, z: nat, j: nat :|
        Further(es, fs) && |es| <= z < j < |fs| && Early(fs, z, j, maxBalance);
      Necessary(es, fs, z, j, maxBalance);
    }
    if maxBalance > 1 && Awake(s) && TwoGoing(s.threads) {
      TwoBreak(es, maxBalance);
    } else if maxBalance > 1 && Brimful(s, maxBalance) {
      BrimfulBreaks(es, maxBalance);
    }
  }

  // ---------- Only then ----------

  lemma Necessary(es: seq<Event>, fs: seq<Event>, z: nat, j: nat, maxBalance: int)
    requires Further(es, fs) && |es| <= z < j < |fs| && Early(fs, z, j, maxBalance)
    ensures var s := At(es, |es|, maxBalance);
      maxBalance > 1 && ((Awake(s) && TwoGoing(s.threads)) || Brimful(s, maxBalance))
  {
    hide At, Since, TwoGoing, Awake, Brimful, Further;
    var s := At(es, |es|, maxBalance);
    Continued(es, fs, maxBalance);
    if !TwoGoing(s.threads) {
      RacedFew(es, fs, z, j, maxBalance);
      SilenceMeans(fs, j, maxBalance);
      assert false;
    } else if !Awake(s) {
      Asleep(es, fs, z, j, maxBalance);
      Checked(es, fs, j, maxBalance);
    }
  }

  lemma Continued(es: seq<Event>, fs: seq<Event>, maxBalance: int)
    requires Further(es, fs)
    ensures At(fs, |es|, maxBalance) == At(es, |es|, maxBalance)
  {
    Extended(es, fs, |es|, maxBalance);
  }

  lemma StepFew(s: State, e: Event, maxBalance: int)
    requires !TwoGoing(s.threads) && e != Start
    ensures !TwoGoing(Step(s, e, maxBalance).threads)
  {
    var ts, ts' := s.threads, Step(s, e, maxBalance).threads;
    forall t, u | 0 <= t < u < |ts'| ensures !(Going(ts'[t]) && Going(ts'[u])) {
      assert !(Going(ts[t]) && Going(ts[u]));
    }
  }

  lemma GoingPair(ts: seq<Pc>, t: nat, u: nat)
    requires t < |ts| && u < |ts| && t != u && Going(ts[t]) && Going(ts[u])
    ensures TwoGoing(ts)
  {
    assert t < u ==> Going(ts[t]) && Going(ts[u]);
    assert u < t ==> Going(ts[u]) && Going(ts[t]);
  }

  lemma FewFlying(ts: seq<Pc>)
    requires !TwoGoing(ts)
    ensures InFlight(ts) <= 1
  {
    hide TwoGoing;
    if t: nat :| t < |ts| && Flying(ts[t]) {
      forall u | 0 <= u < |ts| && u != t ensures !Flying(ts[u]) {
        if Flying(ts[u]) {
          GoingPair(ts, t, u);
          assert false;
        }
      }
      NoneFlying(ts[t := Done]);
      InFlightUpdate(ts, t, Done);
    } else {
      NoneFlying(ts);
    }
  }

  lemma {:induction false} StaysFew(es: seq<Event>, fs: seq<Event>, i: nat, maxBalance: int)
    requires Further(es, fs) && |es| <= i <= |fs| && !TwoGoing(At(es, |es|, maxBalance).threads)
    ensures !TwoGoing(At(fs, i, maxBalance).threads)
    decreases i
  {
    hide TwoGoing, Step;
    if i == |es| {
      Continued(es, fs, maxBalance);
    } else {
      StaysFew(es, fs, i - 1, maxBalance);
      assert fs[i - 1] != Start;
      StepFew(At(fs, i - 1, maxBalance), fs[i - 1], maxBalance);
    }
  }

  lemma {:induction false} RacedFew(es: seq<Event>, fs: seq<Event>, z: nat, j: nat, maxBalance: int)
    requires Further(es, fs) && |es| <= z < j <= |fs| && Zeroes(At(fs, z, maxBalance), fs[z])
    requires !TwoGoing(At(es, |es|, maxBalance).threads)
    ensures Raced(fs, j, maxBalance) <= 1
    decreases j
  {
    hide TwoGoing, Zeroes, At, Further;
    if z < j - 1 {
      RacedFew(es, fs, z, j - 1, maxBalance);
    }
    StaysFew(es, fs, j - 1, maxBalance);
    FewFlying(At(fs, j - 1, maxBalance).threads);
  }

  // ---------- With isRunning unset for good ----------

  lemma {:induction false} CountingUpdate(ts: seq<Pc>, t: nat, pc: Pc)
    requires t < |ts|
    ensures Counting(ts[t := pc]) ==
            Counting(ts) + (if pc == Count then 1 else 0) - if ts[t] == Count then 1 else 0
  {
    if t > 0 {
      assert ts[t := pc][1..] == ts[1..][t - 1 := pc];
      CountingUpdate(ts[1..], t - 1, pc);
    } else {
      assert ts[t := pc][1..] == ts[1..];
    }
  }

  lemma StepAsleep(s: State, e: Event, maxBalance: int)
    requires !Awake(s) && e != Start
    ensures var s' := Step(s, e, maxBalance);
      && !Awake(s') && Counting(s'.threads) <= Counting(s.threads) && |s'.threads| == |s.threads|
      && (if Zeroes(s, e) then s'.balance == 0
          else s'.balance + Counting(s'.threads) <= s.balance + Counting(s.threads))
      && forall t | 0 <= t < |s.threads| && s'.threads[t] == Check :: s.threads[t] == Check
  {
    var s' := Step(s, e, maxBalance);
    if (e.Act? || e.Cancel?) && e.t < |s.threads| {
      CountingUpdate(s.threads, e.t, s'.threads[e.t]);
      assert s.threads[e.t] !in {Enter, Mark};
    }
    forall t | 0 <= t < |s.threads| ensures s'.threads[t] !in {Enter, Mark} {
      assert s.threads[t] !in {Enter, Mark};
    }
  }

  lemma {:induction false} StaysAsleep(es: seq<Event>, fs: seq<Event>, i: nat, maxBalance: int)
    requires Further(es, fs) && |es| <= i <= |fs| && !Awake(At(es, |es|, maxBalance))
    ensures var s, s' := At(es, |es|, maxBalance), At(fs, i, maxBalance);
      && !Awake(s') && Counting(s'.threads) <= Counting(s.threads) && |s'.threads| == |s.threads|
      && forall t | 0 <= t < |s.threads| && s'.threads[t] == Check :: s.threads[t] == Check
    decreases i
  {
    hide Awake, Step, Counting;
    if i == |es| {
      Continued(es, fs, maxBalance);
    } else {
      StaysAsleep(es, fs, i - 1, maxBalance);
      assert fs[i - 1] != Start;
      StepAsleep(At(fs, i - 1, maxBalance), fs[i - 1], maxBalance);
    }
  }

  /** After an answer the count gets no further than there are threads about to count. */
  lemma {:induction false} Asleep(es: seq<Event>, fs: seq<Event>, z: nat, j: nat, maxBalance: int)
    requires Further(es, fs) && |es| <= z < j <= |fs| && Zeroes(At(fs, z, maxBalance), fs[z])
    requires !Awake(At(es, |es|, maxBalance))
    ensures var s' := At(fs, j, maxBalance);
      s'.balance + Counting(s'.threads) <= Counting(At(es, |es|, maxBalance).threads)
    decreases j
  {
    hide Awake, Step, Counting, Zeroes;
    StaysAsleep(es, fs, j - 1, maxBalance);
    assert fs[j - 1] != Start;
    StepAsleep(At(fs, j - 1, maxBalance), fs[j - 1], maxBalance);
    StaysAsleep(es, fs, j, maxBalance);
    if z < j - 1 {
      Asleep(es, fs, z, j - 1, maxBalance);
    }
  }

  lemma Checked(es: seq<Event>, fs: seq<Event>, j: nat, maxBalance: int)
    requires Further(es, fs) && |es| <= j < |fs| && !Awake(At(es, |es|, maxBalance))
    requires ReportsSilence(At(fs, j, maxBalance), fs[j], maxBalance)
    requires At(fs, j, maxBalance).balance + Counting(At(fs, j, maxBalance).threads)
             <= Counting(At(es, |es|, maxBalance).threads)
    ensures Brimful(At(es, |es|, maxBalance), maxBalance)
  {
    hide At, Awake;
    StaysAsleep(es, fs, j, maxBalance);
    assert At(es, |es|, maxBalance).threads[fs[j].t] == Check;
  }

  // ---------- And always then ----------

  /** What is known at the end of a run. */
  ghost predicate Is(es: seq<Event>, s: State, since: nat, maxBalance: int) {
    At(es, |es|, maxBalance) == s && Since(es, |es|, maxBalance) == since
  }

  lemma More(es: seq<Event>, e: Event, s: State, since: nat, maxBalance: int) returns (fs: seq<Event>)
    requires Is(es, s, since, maxBalance)
    ensures fs == es + [e] && Is(fs, Step(s, e, maxBalance), NextSince(s, e, since), maxBalance)
    ensures e != Start ==> Further(es, fs)
  {
    fs := es + [e];
    Prefix(es, e, |es|, maxBalance);
  }

  lemma {:induction false} SomeCounting(ts: seq<Pc>) returns (t: nat)
    requires Counting(ts) > 0
    ensures t < |ts| && ts[t] == Count
  {
    if ts[0] == Count {
      t := 0;
    } else {
      t := SomeCounting(ts[1..]);
      t := t + 1;
    }
  }

  lemma {:induction false} AllCount(es: seq<Event>, s: State, c: nat, maxBalance: int)
    returns (fs: seq<Event>, s': State)
    requires Is(es, s, 0, maxBalance) && c < |s.threads| && s.threads[c] == Check
    ensures Further(es, fs) && Is(fs, s', 0, maxBalance) && c < |s'.threads| && s'.threads[c] == Check
    ensures s'.balance == s.balance + Counting(s.threads)
    decreases Counting(s.threads)
  {
    if Counting(s.threads) == 0 {
      return es, s;
    }
    hide Is, Further;
    var t := SomeCounting(s.threads);
    var e := Event.Act(t, true);
    var gs := More(es, e, s, 0, maxBalance);
    s' := Step(s, e, maxBalance);
    CountingUpdate(s.threads, t, Loop);
    fs, s' := AllCount(gs, s', c, maxBalance);
    FurtherOn(es, gs, fs);
  }

  lemma Reported(es: seq<Event>, fs: seq<Event>, z: nat, s: State, t: nat, since: nat, maxBalance: int)
    requires Further(es, fs) && |es| <= z < |fs| && Zeroes(At(fs, z, maxBalance), fs[z])
    requires Is(fs, s, since, maxBalance) && since < maxBalance - 1
    requires t < |s.threads| && s.threads[t] == Check && s.balance >= maxBalance
    ensures BreaksLater(es, maxBalance)
  {
    var e := Event.Act(t, true);
    var gs := fs + [e];
    Prefix(fs, e, |fs|, maxBalance);
    Prefix(fs, e, z, maxBalance);
    FurtherOn(es, fs, gs);
    assert gs[z] == fs[z];
    assert Early(gs, z, |fs|, maxBalance);
  }

  lemma BrimfulBreaks(es: seq<Event>, maxBalance: int)
    requires maxBalance > 1 && Brimful(At(es, |es|, maxBalance), maxBalance)
    ensures BreaksLater(es, maxBalance)
  {
    var s := At(es, |es|, maxBalance);
    var c: nat :| c < |s.threads| && s.threads[c] == Check;
    var gs := Answer(es, maxBalance);
    var fs, s' := AllCount(gs, s.(balance := 0), c, maxBalance);
    AnsweredIn(es, gs, fs, maxBalance);
    Reported(es, fs, |es|, s', c, 0, maxBalance);
  }

  /** An answer comes. */
  lemma Answer(es: seq<Event>, maxBalance: int) returns (fs: seq<Event>)
    ensures fs == es + [ZeroBalance] && Further(es, fs)
    ensures Is(fs, At(es, |es|, maxBalance).(balance := 0), 0, maxBalance)
  {
    fs := More(es, ZeroBalance, At(es, |es|, maxBalance), Since(es, |es|, maxBalance), maxBalance);
  }

  lemma AnsweredIn(es: seq<Event>, gs: seq<Event>, fs: seq<Event>, maxBalance: int)
    requires gs == es + [ZeroBalance] && Further(gs, fs)
    ensures Further(es, fs) && |es| < |fs| && Zeroes(At(fs, |es|, maxBalance), fs[|es|])
  {
    FurtherOn(es, gs, fs);
    assert fs[|es|] == gs[|es|];
  }

  // ---------- Two threads ----------

  /** In its loop, or on the way there. */
  predicate Ready(pc: Pc) {
    Going(pc) && pc != Enter
  }

  /** How many steps a thread is from having sent a request. */
  function ToSent(pc: Pc): nat {
    match pc
    case Mark => 8
    case Reset => 7
    case Probe => 6
    case Count => 5
    case Loop => 4
    case Wake => 3
    case Check => 2
    case Send => 1
    case _ => 0
  }

  lemma StepDrive(s: State, t: nat, maxBalance: int)
    requires maxBalance > 0 && s.isRunning && t < |s.threads| && Ready(s.threads[t]) && s.threads[t] != Sent(true)
    ensures var s' := Step(s, Toward(s, t, maxBalance), maxBalance);
      && s'.isRunning && |s'.threads| == |s.threads| && Ready(s'.threads[t])
      && s'.threads == s.threads[t := s'.threads[t]]
      && (ToSent(s'.threads[t]) < ToSent(s.threads[t])
          || (ToSent(s'.threads[t]) == ToSent(s.threads[t]) && s'.balance == 0 < s.balance))
  {
  }

  /** A thread can be brought to where it has sent a request and not counted it, while the others stand still. */
  lemma {:induction false} Drive(es: seq<Event>, s: State, t: nat, maxBalance: int)
    returns (fs: seq<Event>, s': State)
    requires s == At(es, |es|, maxBalance) && maxBalance > 0
    requires s.isRunning && t < |s.threads| && Ready(s.threads[t])
    ensures Further(es, fs) && At(fs, |fs|, maxBalance) == s'
    ensures s'.isRunning && s'.threads == s.threads[t := Sent(true)]
    decreases ToSent(s.threads[t]), s.balance
  {
    if s.threads[t] == Sent(true) {
      return es, s;
    }
    var e := Toward(s, t, maxBalance);
    var gs := More(es, e, s, Since(es, |es|, maxBalance), maxBalance);
    StepDrive(s, t, maxBalance);
    hide Step, ToSent, At, Further, Ready, Since;
    fs, s' := Drive(gs, Step(s, e, maxBalance), t, maxBalance);
    FurtherOn(es, gs, fs);
  }

  /** Where two threads can go on, both can be got ready with isRunning set. */
  lemma Rouse(es: seq<Event>, s: State, maxBalance: int) returns (fs: seq<Event>, s': State, t: nat, u: nat)
    requires s == At(es, |es|, maxBalance) && Awake(s) && TwoGoing(s.threads)
    ensures Further(es, fs) && At(fs, |fs|, maxBalance) == s'
    ensures s'.isRunning && t != u && t < |s'.threads| && u < |s'.threads| && Ready(s'.threads[t])
      && Ready(s'.threads[u])
  {
    t, u :| 0 <= t < u < |s.threads| && Going(s.threads[t]) && Going(s.threads[u]);
    if s.isRunning && s.threads[t] != Enter && s.threads[u] != Enter {
      return es, s, t, u;
    }
    if s.isRunning {
      var gs := More(es, Stop, s, Since(es, |es|, maxBalance), maxBalance);
      if s.threads[t] != Enter {
        t, u := u, t;
      }
      fs, s' := Arouse(gs, Step(s, Stop, maxBalance), t, u, maxBalance);
      FurtherOn(es, gs, fs);
    } else {
      var w: nat :| w < |s.threads| && s.threads[w] in {Enter, Mark};
      u := if w == u then t else u;
      t := w;
      fs, s' := Arouse(es, s, t, u, maxBalance);
    }
  }

  /** While isRunning is not set, a thread on its way into its loop sets it, after the other has got as far. */
  lemma Arouse(es: seq<Event>, s: State, t: nat, u: nat, maxBalance: int) returns (fs: seq<Event>, s': State)
    requires s == At(es, |es|, maxBalance) && !s.isRunning && t != u && t < |s.threads| && u < |s.threads|
    requires s.threads[t] in {Enter, Mark} && Going(s.threads[u])
    ensures Further(es, fs) && At(fs, |fs|, maxBalance) == s' && |s'.threads| == |s.threads|
    ensures s'.isRunning && Ready(s'.threads[t]) && Ready(s'.threads[u])
  {
    hide At, Further, Since;
    var gs, s1 := Entered(es, s, t, maxBalance);
    var hs, s2 := Entered(gs, s1, u, maxBalance);
    FurtherOn(es, gs, hs);
    fs := More(hs, Event.Act(t, true), s2, Since(hs, |hs|, maxBalance), maxBalance);
    s' := Step(s2, Event.Act(t, true), maxBalance);
    FurtherOn(es, hs, fs);
  }

  /** A new thread finds isRunning not set. */
  lemma Entered(es: seq<Event>, s: State, t: nat, maxBalance: int) returns (fs: seq<Event>, s': State)
    requires s == At(es, |es|, maxBalance) && !s.isRunning && t < |s.threads|
    ensures Further(es, fs) && At(fs, |fs|, maxBalance) == s' && !s'.isRunning
    ensures s'.threads == if s.threads[t] == Enter then s.threads[t := Mark] else s.threads
  {
    if s.threads[t] != Enter {
      return es, s;
    }
    fs := More(es, Event.Act(t, true), s, Since(es, |es|, maxBalance), maxBalance);
    s' := Step(s, Event.Act(t, true), maxBalance);
  }

  /** One answer overtakes both their requests, and both are counted after it. */
  lemma TwoBreak(es: seq<Event>, maxBalance: int)
    requires maxBalance > 1 && Awake(At(es, |es|, maxBalance)) && TwoGoing(At(es, |es|, maxBalance).threads)
    ensures BreaksLater(es, maxBalance)
  {
    hide At, Further, Since, Awake, TwoGoing, BreaksLater, Ready, Stands, Is, Zeroes;
    var a, s1, t, u := Rouse(es, At(es, |es|, maxBalance), maxBalance);
    var b, s2 := Drive(a, s1, t, maxBalance);
    assert s2.threads[u] == s1.threads[u];
    var c, s3 := Drive(b, s2, u, maxBalance);
    FurtherOn(es, a, b);
    FurtherOn(es, b, c);
    assert s3.threads[t] == Sent(true) == s3.threads[u];
    var d := Answer(c, maxBalance);
    IsStands(d, s3.(balance := 0), 0, maxBalance);
    var f, ts := BothCount(d, s3.threads, t, u, maxBalance);
    var g := Silence(f, t, 2, ts, 0, maxBalance);
    FurtherOn(d, f, g);
    AnsweredIn(c, d, g, maxBalance);
    FurtherOn(es, c, g);
    StandsIs(g, maxBalance, ts[t := Check], maxBalance - 2, maxBalance);
    Longer(es, c);
    Reported(es, g, |c|, State(true, maxBalance, ts[t := Check]), t, maxBalance - 2, maxBalance);
  }

  lemma Longer(es: seq<Event>, fs: seq<Event>)
    requires Further(es, fs)
    ensures |es| <= |fs|
  {
  }

  lemma IsStands(es: seq<Event>, s: State, since: nat, maxBalance: int)
    requires Is(es, s, since, maxBalance) && s.isRunning
    ensures Stands(es, s.balance, s.threads, since, maxBalance)
  {
  }

  lemma StandsIs(es: seq<Event>, balance: int, ts: seq<Pc>, since: nat, maxBalance: int)
    requires Stands(es, balance, ts, since, maxBalance)
    ensures Is(es, State(true, balance, ts), since, maxBalance)
  {
  }

  lemma BothCount(es: seq<Event>, ts: seq<Pc>, t: nat, u: nat, maxBalance: int) returns (fs: seq<Event>, ts': seq<Pc>)
    requires Stands(es, 0, ts, 0, maxBalance) && t != u && t < |ts| && u < |ts|
    requires ts[t] == Sent(true) == ts[u]
    ensures Stands(fs, 2, ts', 0, maxBalance) && Further(es, fs) && |ts'| == |ts| && ts'[t] == Loop
  {
    hide Stands;
    fs, ts' := Go(es, t, 0, ts, 0, maxBalance);
    fs, ts' := Go(fs, t, 0, ts', 0, maxBalance);
    fs, ts' := Go(fs, u, 1, ts', 0, maxBalance);
    fs, ts' := Go(fs, u, 1, ts', 0, maxBalance);
  }

  // ---------- What a thread reports, and how it ends ----------

  /** A failure is reported exactly when the count is found at its limit, or a request could not be sent while
      isRunning was set. */
  lemma InformsExactly(s: State, e: Event, t: nat, maxBalance: int)
    requires t < |s.threads| && s.threads[t] != Inform
    ensures Step(s, e, maxBalance).threads[t] == Inform <==>
      e.Act? && e.t == t
      && ((s.threads[t] == Check && s.balance >= maxBalance) || (s.threads[t] == Sent(false) && s.isRunning))
  {
  }

  /** A socket that is not there ends the thread and lets another start. */
  lemma ProbeExactly(s: State, e: Event, maxBalance: int)
    requires Does(s, e, Probe)
    ensures var s' := Step(s, e, maxBalance);
      && s'.threads[e.t] == (if e.ok then Loop else Done) && s'.isRunning == (e.ok && s.isRunning)
      && (!e.ok ==> Step(s', Start, maxBalance).threads == s'.threads + [Enter])
  {
  }

  /** How many steps of its own a thread has before it at most, once isRunning is unset for good. */
  function Rest(pc: Pc): nat {
    match pc
    case Reset => 3
    case Check => 3
    case Probe => 2
    case Send => 2
    case Count => 2
    case Inform => 2
    case Done => 0
    case _ => 1
  }

  lemma StepRest(s: State, e: Event, t: nat, maxBalance: int)
    requires !Awake(s) && e != Start && t < |s.threads|
    ensures t < |Step(s, e, maxBalance).threads|
    ensures Rest(Step(s, e, maxBalance).threads[t]) <=
            Rest(s.threads[t]) - if e.Act? && e.t == t && s.threads[t] != Done then 1 else 0
  {
    assert s.threads[t] !in {Enter, Mark};
  }

  function StepsOf(es: seq<Event>, r: nat, i: nat, t: nat): nat
    requires i <= |es|
  {
    if i <= r then 0 else StepsOf(es, r, i - 1, t) + if es[i - 1].Act? && es[i - 1].t == t then 1 else 0
  }

  lemma {:induction false} RestLeft(es: seq<Event>, fs: seq<Event>, i: nat, t: nat, maxBalance: int)
    requires Further(es, fs) && |es| <= i <= |fs| && !Awake(At(es, |es|, maxBalance))
    requires t < |At(es, |es|, maxBalance).threads|
    ensures t < |At(fs, i, maxBalance).threads|
    ensures var pc := At(fs, i, maxBalance).threads[t]; pc == Done || Rest(pc) + StepsOf(fs, |es|, i, t) <= 3
    decreases i
  {
    hide Awake, Step, Rest;
    if i == |es| {
      Continued(es, fs, maxBalance);
      RestSmall(At(es, |es|, maxBalance).threads[t]);
    } else {
      RestLeft(es, fs, i - 1, t, maxBalance);
      StaysAsleep(es, fs, i - 1, maxBalance);
      assert fs[i - 1] != Start;
      StepRest(At(fs, i - 1, maxBalance), fs[i - 1], t, maxBalance);
      RestDone(At(fs, i - 1, maxBalance).threads[t]);
      RestDone(At(fs, i, maxBalance).threads[t]);
    }
  }

  lemma RestSmall(pc: Pc)
    ensures Rest(pc) <= 3
  {
  }

  lemma RestDone(pc: Pc)
    ensures Rest(pc) == 0 <==> pc == Done
  {
  }

  /** Once isRunning is unset and no thread is on its way to set it, every thread ends after three steps at most. */
  lemma StopEnds(es: seq<Event>, fs: seq<Event>, t: nat, maxBalance: int)
    requires Further(es, fs) && !Awake(At(es, |es|, maxBalance)) && t < |At(es, |es|, maxBalance).threads|
    requires StepsOf(fs, |es|, |fs|, t) >= 3
    ensures t < |At(fs, |fs|, maxBalance).threads| && At(fs, |fs|, maxBalance).threads[t] == Done
  {
    hide Awake, Rest;
    RestLeft(es, fs, |fs|, t, maxBalance);
    RestDone(At(fs, |fs|, maxBalance).threads[t]);
  }
}
