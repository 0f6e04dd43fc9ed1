/** The AMX controller: a control command is held until the auth server has answered for its sender. */
module Amx {
  import opened Options

  /** AMX_CTRL_AUTH. */
  datatype Entry = Entry(id: string, token: string, command: string)

  /** The messages the controller handles, in the order of its queue. Status is a status request, which is sent
      as it comes; Link is the auth server's coming or going, which isValid shows. */
  datatype Event =
    | AuthRequest(n: int, token: string, id: string)
    | Control(n: int, command: string)
    | Answer(auth: int, id: string)
    | Status(command: string)
    | Reboot
    | Link(valid: bool)

  datatype State = State(valid: bool, held: map<int, Entry>)

  const START := State(false, map[])

  /** The smallest number whose entry has the ID: the map is searched in the order of its keys. */
  ghost predicate First(held: map<int, Entry>, id: string, n: int) {
    n in held && held[n].id == id && forall k | k in held && held[k].id == id :: n <= k
  }

  ghost predicate Waiting(held: map<int, Entry>, id: string) {
    exists n :: n in held && held[n].id == id
  }

  lemma Pick<T>(s: set<T>) returns (x: T)
    requires s != {}
    ensures x in s
  {
    x :| x in s;
  }

  lemma {:induction false} Least(keys: set<int>) returns (n: int)
    requires keys != {}
    ensures n in keys && forall k | k in keys :: n <= k
    decreases |keys|
  {
    n := Pick(keys);
    var rest := keys - {n};
    if rest != {} {
      var m := Least(rest);
      forall k | k in keys ensures (if m < n then m else n) <= k {
        assert k == n || k in rest;
      }
      n := if m < n then m else n;
    } else {
      forall k | k in keys ensures n <= k {
        assert k == n || k in rest;
      }
    }
  }

  lemma FirstExists(held: map<int, Entry>, id: string) returns (n: int)
    requires Waiting(held, id)
    ensures First(held, id, n)
  {
    var w :| w in held && held[w].id == id;
    var keys := set k | k in held && held[k].id == id;
    assert w in keys;
    n := Least(keys);
    forall k | k in held && held[k].id == id ensures n <= k {
      assert k in keys;
    }
  }

  ghost function FirstOf(held: map<int, Entry>, id: string): (n: int)
    requires Waiting(held, id)
    ensures First(held, id, n)
  {
    assert exists n :: First(held, id, n) by {
      var m := FirstExists(held, id);
    }
    var n :| First(held, id, n);
    n
  }

  // ---------- One message ----------

  predicate Accepted(e: Event, n: int) {
    e.AuthRequest? && e.n == n && e.token != "" && e.id != ""
  }

  /** The entry that an answer takes out of the map. */
  ghost function Consumed(held: map<int, Entry>, e: Event): Option<int> {
    if e.Answer? && Waiting(held, e.id) && FirstOf(held, e.id) != -1 then Some(FirstOf(held, e.id)) else None
  }

  ghost function Step(s: State, e: Event): State {
    match e
    case AuthRequest(n, token, id) =>
      if token == "" || id == "" then s else s.(held := s.held[n := Entry(id, token, "")])
    case Control(n, command) =>
      if s.valid && n in s.held then s.(held := s.held[n := s.held[n].(command := command)]) else s
    case Answer(_, _) =>
      (match Consumed(s.held, e)
       case None => s
       case Some(n) => s.(held := s.held - {n}))
    case Status(_) => s
    case Reboot => s.(held := map[])
    case Link(valid) => s.(valid := valid)
  }

  /** The control request whose command the message sends to the AMX box, with the command. */
  ghost function Forwards(s: State, e: Event): Option<(int, string)> {
    match e
    case Control(n, command) => if s.valid && n in s.held then None else Some((n, command))
    case Answer(auth, _) =>
      (match Consumed(s.held, e)
       case None => None
       case Some(n) =>
         assert n in s.held;
         if auth == 1 && s.held[n].command != "" then Some((n, s.held[n].command)) else None)
    case _ => None
  }

  // ---------- Runs ----------

  ghost function At(es: seq<Event>, i: nat): State
    requires i <= |es|
  {
    if i == 0 then START else Step(At(es, i - 1), es[i - 1])
  }

  ghost function Sent(es: seq<Event>, i: nat): Option<(int, string)>
    requires i < |es|
  {
    Forwards(At(es, i), es[i])
  }

  ghost function Takes(es: seq<Event>, i: nat): Option<int>
    requires i < |es|
  {
    Consumed(At(es, i).held, es[i])
  }

  ghost predicate Removes(es: seq<Event>, i: nat, n: int)
    requires i < |es|
  {
    es[i].Reboot? || Takes(es, i) == Some(n)
  }

  ghost predicate Stores(es: seq<Event>, i: nat, n: int)
    requires i < |es|
  {
    es[i].Control? && es[i].n == n && At(es, i).valid
  }

  /** Message a asked for number n, and until i the map has not been cleared, nor the number asked for again or
      answered. */
  ghost predicate Open(es: seq<Event>, a: nat, i: nat, n: int)
    requires i <= |es|
  {
    a < i && Accepted(es[a], n) && forall k | a < k < i :: !Removes(es, k, n) && !Accepted(es[k], n)
  }

  lemma Entered(s: State, e: Event, n: int)
    requires Accepted(e, n)
    ensures n in Step(s, e).held && Step(s, e).held[n].id == e.id && Step(s, e).held[n].command == ""
  {
  }

  /** What one message leaves of an entry that it neither removes nor makes anew. */
  lemma StillHeld(s: State, e: Event, n: int)
    requires n in s.held && !e.Reboot? && Consumed(s.held, e) != Some(n) && !Accepted(e, n)
    ensures n in Step(s, e).held && Step(s, e).held[n].id == s.held[n].id
    ensures Step(s, e).held[n].command ==
            if e.Control? && e.n == n && s.valid then e.command else s.held[n].command
  {
  }

  lemma OpenBefore(es: seq<Event>, a: nat, i: nat, n: int)
    requires 0 < i <= |es| && Open(es, a, i, n) && a + 1 < i
    ensures Open(es, a, i - 1, n) && !Accepted(es[i - 1], n)
    ensures !es[i - 1].Reboot? && Consumed(At(es, i - 1).held, es[i - 1]) != Some(n)
  {
    hide At, Consumed;
    assert !Removes(es, i - 1, n);
  }

  lemma {:induction false} StaysOpen(es: seq<Event>, a: nat, i: nat, n: int)
    requires i <= |es| && Open(es, a, i, n)
    ensures n in At(es, i).held && At(es, i).held[n].id == es[a].id
    decreases i
  {
    hide Step, Consumed, Removes;
    if a + 1 < i {
      OpenBefore(es, a, i, n);
      StaysOpen(es, a, i - 1, n);
      StillHeld(At(es, i - 1), es[i - 1], n);
    } else {
      Entered(At(es, a), es[a], n);
    }
  }

  lemma WasHeld(s: State, e: Event, n: int)
    requires n in Step(s, e).held && !Accepted(e, n)
    ensures n in s.held && !e.Reboot? && Consumed(s.held, e) != Some(n)
  {
  }

  lemma {:induction false} Opened(es: seq<Event>, i: nat, n: int) returns (a: nat)
    requires i <= |es| && n in At(es, i).held
    ensures Open(es, a, i, n)
    decreases i
  {
    if Accepted(es[i - 1], n) {
      a := i - 1;
    } else {
      WasHeld(At(es, i - 1), es[i - 1], n);
      hide Step, Consumed;
      a := Opened(es, i - 1, n);
    }
  }

  /** A number is held exactly when it was asked for and neither answered nor wiped out since. */
  lemma HeldExactly(es: seq<Event>, i: nat, n: int)
    requires i <= |es|
    ensures n in At(es, i).held <==> exists a :: Open(es, a, i, n)
  {
    if n in At(es, i).held {
      var a := Opened(es, i, n);
    }
    if a :| Open(es, a, i, n) {
      StaysOpen(es, a, i, n);
    }
  }

  /** A control request goes straight to the AMX box exactly when there is no auth server or no request of
      its number is open; whether that request was never made, answered or wiped out makes no difference. */
  lemma StraightExactly(es: seq<Event>, i: nat)
    requires i < |es| && es[i].Control?
    ensures Sent(es, i) == Some((es[i].n, es[i].command)) <==>
            !At(es, i).valid || forall a :: !Open(es, a, i, es[i].n)
    ensures Sent(es, i) != None ==> Sent(es, i) == Some((es[i].n, es[i].command))
  {
    HeldExactly(es, i, es[i].n);
  }

  /** So an answer that overtakes its control request does not keep the command back, not even a refusal. */
  lemma RefusedYetSent()
    ensures var es := [Link(true), AuthRequest(7, "t", "u"), Answer(0, "u"), Control(7, "on")];
            Sent(es, 3) == Some((7, "on"))
  {
    var es := [Link(true), AuthRequest(7, "t", "u"), Answer(0, "u"), Control(7, "on")];
    assert At(es, 1) == State(true, map[]);
    assert At(es, 2) == State(true, map[7 := Entry("u", "t", "")]);
    assert At(es, 2).held[7].id == "u";
    assert Consumed(At(es, 2).held, es[2]) == Some(7);
    assert At(es, 3) == Step(At(es, 2), es[2]);
    assert 7 !in At(es, 3).held;
  }

  // ---------- Held commands ----------

  /** Control request c left the command with the open request a, and it is the latest to do so before i. */
  ghost predicate Left(es: seq<Event>, a: nat, c: nat, i: nat, n: int, command: string)
    requires i <= |es|
  {
    a < c < i && Stores(es, c, n) && es[c].command == command && forall k | c < k < i :: !Stores(es, k, n)
  }

  lemma LeftBefore(es: seq<Event>, a: nat, c: nat, i: nat, n: int, command: string)
    requires 0 < i <= |es| && Left(es, a, c, i, n, command) && c + 1 < i
    ensures Left(es, a, c, i - 1, n, command)
    ensures !(es[i - 1].Control? && es[i - 1].n == n && At(es, i - 1).valid)
  {
    hide At;
    assert !Stores(es, i - 1, n);
  }

  lemma {:induction false} StaysLeft(es: seq<Event>, a: nat, c: nat, i: nat, n: int, command: string)
    requires i <= |es| && Open(es, a, i, n) && Left(es, a, c, i, n, command)
    ensures n in At(es, i).held && At(es, i).held[n].command == command
    decreases i
  {
    hide Step, Consumed, Removes, Accepted;
    OpenBefore(es, a, i, n);
    StaysOpen(es, a, i - 1, n);
    StillHeld(At(es, i - 1), es[i - 1], n);
    if c + 1 < i {
      LeftBefore(es, a, c, i, n, command);
      hide Open, Left;
      StaysLeft(es, a, c, i - 1, n, command);
    }
  }

  lemma {:induction false} LeftBy(es: seq<Event>, a: nat, i: nat, n: int) returns (c: nat)
    requires i <= |es| && Open(es, a, i, n)
    requires n in At(es, i).held && At(es, i).held[n].command != ""
    ensures Left(es, a, c, i, n, At(es, i).held[n].command)
    decreases i
  {
    hide Step, Consumed, Open;
    NotJustOpened(es, a, i, n);
    OpenBefore(es, a, i, n);
    StaysOpen(es, a, i - 1, n);
    StillHeld(At(es, i - 1), es[i - 1], n);
    if Stores(es, i - 1, n) {
      c := i - 1;
    } else {
      c := LeftBy(es, a, i - 1, n);
    }
  }

  lemma NotJustOpened(es: seq<Event>, a: nat, i: nat, n: int)
    requires i <= |es| && Open(es, a, i, n) && n in At(es, i).held && At(es, i).held[n].command != ""
    ensures a + 1 < i
  {
    if a + 1 == i {
      Entered(At(es, a), es[a], n);
    }
  }

  /** A command that was held goes out exactly with a positive answer for the ID of its own request, which must
      still be open and have the smallest number of all that wait for that ID. */
  ghost predicate Released(es: seq<Event>, a: nat, c: nat, j: nat, n: int, command: string)
    requires j < |es|
  {
    && Open(es, a, j, n)
    && Left(es, a, c, j, n, command)
    && command != ""
    && n != -1
    && es[j] == Answer(1, es[a].id)
    && First(At(es, j).held, es[a].id, n)
  }

  lemma FirstUnique(held: map<int, Entry>, id: string, n: int)
    requires First(held, id, n)
    ensures Waiting(held, id) && FirstOf(held, id) == n
  {
  }

  lemma ReleasedOnly(es: seq<Event>, j: nat) returns (a: nat, c: nat)
    requires j < |es| && es[j].Answer? && Sent(es, j).Some?
    ensures Released(es, a, c, j, Sent(es, j).value.0, Sent(es, j).value.1)
  {
    var n := Sent(es, j).value.0;
    a := Opened(es, j, n);
    c := LeftBy(es, a, j, n);
    StaysOpen(es, a, j, n);
  }

  lemma Releases(es: seq<Event>, a: nat, c: nat, j: nat, n: int, command: string)
    requires j < |es| && Released(es, a, c, j, n, command)
    ensures Sent(es, j) == Some((n, command))
  {
    StaysLeft(es, a, c, j, n, command);
    FirstUnique(At(es, j).held, es[a].id, n);
    assert Takes(es, j) == Some(n);
  }

  lemma ReleasedExactly(es: seq<Event>, j: nat, n: int, command: string)
    requires j < |es| && es[j].Answer?
    ensures Sent(es, j) == Some((n, command)) <==> exists a, c :: Released(es, a, c, j, n, command)
  {
    hide Sent, Released;
    if Sent(es, j) == Some((n, command)) {
      var a, c := ReleasedOnly(es, j);
    }
    if a, c :| Released(es, a, c, j, n, command) {
      Releases(es, a, c, j, n, command);
    }
  }

  /** No two control requests have the same number. */
  predicate DistinctControls(es: seq<Event>) {
    forall i, j | 0 <= i < j < |es| && es[i].Control? && es[j].Control? :: es[i].n != es[j].n
  }

  /** Each control request reaches the AMX box at most once. */
  lemma AtMostOnce(es: seq<Event>, i: nat, j: nat)
    requires DistinctControls(es) && i < j < |es| && Sent(es, i).Some? && Sent(es, j).Some?
    ensures Sent(es, i).value.0 != Sent(es, j).value.0
  {
    if Sent(es, i).value.0 == Sent(es, j).value.0 {
      var n := Sent(es, i).value.0;
      if es[j].Control? {
        StraightExactly(es, j);
        var a, c := ReleasedOnly(es, i);
        assert false;
      } else {
        var a, c := ReleasedOnly(es, j);
        if es[i].Control? {
          StaysOpen(es, a, c, n);
          assert false;
        } else {
          var a', c' := ReleasedOnly(es, i);
          assert Removes(es, i, n);
          assert false;
        }
      }
    }
  }

  /** Nothing that came before a reboot request is sent after it. */
  lemma WipedOut(es: seq<Event>, c: nat, r: nat, j: nat)
    requires DistinctControls(es) && c < r < j < |es|
    requires es[c].Control? && es[r].Reboot? && Sent(es, j).Some?
    ensures Sent(es, j).value.0 != es[c].n
  {
    if es[j].Answer? {
      var a, c' := ReleasedOnly(es, j);
      if es[c'].n == es[c].n {
        assert Removes(es, r, es[c].n);
        assert false;
      }
    }
  }

  /** The requests that the controller accepts come with increasing numbers. */
  predicate Increasing(es: seq<Event>) {
    forall i, j | 0 <= i < j < |es| && es[i].AuthRequest? && es[j].AuthRequest? :: es[i].n < es[j].n
  }

  /** Entries for one ID are taken out in the order of their numbers. */
  lemma InOrder(es: seq<Event>, i: nat, j: nat)
    requires Increasing(es) && i < j < |es| && Takes(es, i).Some? && Takes(es, j).Some? && es[i].id == es[j].id
    ensures Takes(es, i).value < Takes(es, j).value
  {
    var m, n := Takes(es, i).value, Takes(es, j).value;
    var a := Opened(es, i, m);
    var b := Opened(es, j, n);
    StaysOpen(es, b, j, n);
    if b < i {
      assert Open(es, b, i, n);
      StaysOpen(es, b, i, n);
      assert !Removes(es, i, n);
    } else {
      assert b != i;
    }
  }

  // ---------- Whose answer ----------

  /** An answer names no question, only the ID. So a command can go out on the answer to another token's question:
      here only the second question is answered, and what is sent is the command of the first. */
  lemma OtherAnswer()
    ensures var es := [Link(true), AuthRequest(1, "bad", "u"), Control(1, "on"),
                       AuthRequest(2, "good", "u"), Control(2, "off"), Answer(1, "u")];
            Sent(es, 5) == Some((1, "on"))
  {
    var es := [Link(true), AuthRequest(1, "bad", "u"), Control(1, "on"),
               AuthRequest(2, "good", "u"), Control(2, "off"), Answer(1, "u")];
    assert At(es, 1) == State(true, map[]);
    assert At(es, 2) == State(true, map[1 := Entry("u", "bad", "")]);
    assert At(es, 3) == State(true, map[1 := Entry("u", "bad", "on")]);
    assert At(es, 4) == State(true, map[1 := Entry("u", "bad", "on"), 2 := Entry("u", "good", "")]);
    assert At(es, 5) == State(true, map[1 := Entry("u", "bad", "on"), 2 := Entry("u", "good", "off")]);
    assert First(At(es, 5).held, "u", 1);
    FirstUnique(At(es, 5).held, "u", 1);
  }

  predicate Asks(e: Event, u: string) {
    e.AuthRequest? && e.token != "" && e.id != "" && e.id == u
  }

  /** How many questions for the ID came from r on. */
  function AskedFor(es: seq<Event>, r: nat, i: nat, u: string): nat
    requires r <= i <= |es|
  {
    if i == r then 0 else AskedFor(es, r, i - 1, u) + if Asks(es[i - 1], u) then 1 else 0
  }

  function AnsweredFor(es: seq<Event>, r: nat, i: nat, u: string): nat
    requires r <= i <= |es|
  {
    if i == r then 0 else AnsweredFor(es, r, i - 1, u) + if es[i - 1].Answer? && es[i - 1].id == u then 1 else 0
  }

  /** From r, where nothing waited for the ID, to i there was no reboot request and never an answer too many. */
  ghost predicate Fair(es: seq<Event>, r: nat, i: nat, u: string)
    requires r <= i <= |es|
  {
    && (forall n | n in At(es, r).held :: At(es, r).held[n].id != u)
    && (forall k | r <= k < i :: !es[k].Reboot?)
    && (forall k | r <= k <= i :: AnsweredFor(es, r, k, u) <= AskedFor(es, r, k, u))
  }

  /** The numbers increase, and none is the one that stands for nothing found. */
  predicate Numbered(es: seq<Event>) {
    Increasing(es) && forall i | 0 <= i < |es| && es[i].AuthRequest? :: es[i].n != -1
  }

  lemma {:induction false} AskedGrows(es: seq<Event>, r: nat, a: nat, i: nat, u: string)
    requires r <= a < i <= |es|
    ensures AskedFor(es, r, a, u) + (if Asks(es[a], u) then 1 else 0) <= AskedFor(es, r, i, u)
  {
    if a + 1 < i {
      AskedGrows(es, r, a, i - 1, u);
    }
  }

  lemma {:induction false} KthQuestion(es: seq<Event>, r: nat, i: nat, u: string, k: nat) returns (a: nat)
    requires r <= i <= |es| && k < AskedFor(es, r, i, u)
    ensures r <= a < i && Asks(es[a], u) && AskedFor(es, r, a, u) == k
    decreases i
  {
    if Asks(es[i - 1], u) && AskedFor(es, r, i - 1, u) == k {
      a := i - 1;
    } else {
      a := KthQuestion(es, r, i - 1, u, k);
    }
  }

  /** What waits for the ID was asked from r on. */
  lemma Since(es: seq<Event>, r: nat, i: nat, u: string, n: int) returns (b: nat)
    requires r <= i <= |es| && Fair(es, r, i, u) && n in At(es, i).held && At(es, i).held[n].id == u
    ensures r <= b < i && Asks(es[b], u) && es[b].n == n
  {
    hide At, Removes, AskedFor, AnsweredFor;
    b := Opened(es, i, n);
    StaysOpen(es, b, i, n);
    if b < r {
      assert Open(es, b, r, n);
      StaysOpen(es, b, r, n);
    }
  }

  /** Questions for an ID leave in the order in which they came: those wait that came after as many others as have
      been answered. */
  lemma {:induction false} WaitsExactly(es: seq<Event>, r: nat, i: nat, u: string, a: nat)
    requires Numbered(es) && r <= a < i <= |es| && Fair(es, r, i, u) && Asks(es[a], u)
    ensures es[a].n in At(es, i).held <==> AskedFor(es, r, a, u) >= AnsweredFor(es, r, i, u)
    decreases i, 0, 0
  {
    hide Consumed, Waiting;
    var e, n := es[i - 1], es[a].n;
    if a == i - 1 {
      Entered(At(es, a), e, n);
      assert AnsweredFor(es, r, a, u) <= AskedFor(es, r, a, u);
    } else {
      assert Fair(es, r, i - 1, u);
      WaitsExactly(es, r, i - 1, u, a);
      if e.Answer? && e.id == u {
        Taken(es, r, i - 1, u, a);
      } else {
        OthersTaken(es, i - 1, u, a);
      }
      StepKeeps(At(es, i - 1), e, n);
    }
  }

  lemma StepKeeps(s: State, e: Event, n: int)
    requires !e.Reboot? && !Accepted(e, n)
    ensures n in Step(s, e).held <==> n in s.held && Consumed(s.held, e) != Some(n)
  {
  }

  /** The k-th answer for an ID takes the k-th question. */
  lemma {:induction false} Taken(es: seq<Event>, r: nat, j: nat, u: string, a: nat)
    requires Numbered(es) && r <= a < j < |es| && Fair(es, r, j, u) && Asks(es[a], u)
    requires es[j].Answer? && es[j].id == u
    ensures Takes(es, j) == Some(es[a].n) <==> AskedFor(es, r, a, u) == AnsweredFor(es, r, j, u)
    decreases j, 1, 0
  {
    hide At, Step, Consumed, First;
    var k := AnsweredFor(es, r, j, u);
    AskedGrows(es, r, a, j, u);
    assert k <= AskedFor(es, r, j, u);
    if k < AskedFor(es, r, j, u) {
      var b := KthQuestion(es, r, j, u, k);
      LeastWaits(es, r, j, u, b);
      FirstUnique(At(es, j).held, u, es[b].n);
      Consumes(At(es, j).held, es[j], es[b].n);
      SameRank(es, r, j, u, a, b);
    } else {
      NoneWaits(es, r, j, u);
    }
  }

  lemma Consumes(held: map<int, Entry>, e: Event, n: int)
    requires e.Answer? && Waiting(held, e.id) && FirstOf(held, e.id) == n && n != -1
    ensures Consumed(held, e) == Some(n)
  {
  }

  lemma SameRank(es: seq<Event>, r: nat, i: nat, u: string, a: nat, b: nat)
    requires Numbered(es) && r <= a < i <= |es| && r <= b < i && Asks(es[a], u) && Asks(es[b], u)
    ensures es[a].n == es[b].n <==> AskedFor(es, r, a, u) == AskedFor(es, r, b, u)
  {
    if a < b {
      AskedGrows(es, r, a, b, u);
    } else if b < a {
      AskedGrows(es, r, b, a, u);
    }
  }

  lemma {:induction false} LeastWaits(es: seq<Event>, r: nat, j: nat, u: string, b: nat)
    requires Numbered(es) && r <= b < j <= |es| && Fair(es, r, j, u) && Asks(es[b], u)
    requires AskedFor(es, r, b, u) == AnsweredFor(es, r, j, u)
    ensures First(At(es, j).held, u, es[b].n)
    decreases j, 0, 1
  {
    hide At, Removes;
    WaitsExactly(es, r, j, u, b);
    AskedBy(es, j, b);
    forall m | m in At(es, j).held && At(es, j).held[m].id == u ensures es[b].n <= m {
      var c := Since(es, r, j, u, m);
      WaitsExactly(es, r, j, u, c);
      if c < b {
        AskedGrows(es, r, c, b, u);
      }
    }
  }

  lemma {:induction false} NoneWaits(es: seq<Event>, r: nat, j: nat, u: string)
    requires Numbered(es) && r <= j < |es| && Fair(es, r, j, u) && es[j].Answer? && es[j].id == u
    requires AnsweredFor(es, r, j, u) == AskedFor(es, r, j, u)
    ensures Takes(es, j) == None
    decreases j, 0, 1
  {
    hide At, Removes;
    if Waiting(At(es, j).held, u) {
      var m :| m in At(es, j).held && At(es, j).held[m].id == u;
      var c := Since(es, r, j, u, m);
      WaitsExactly(es, r, j, u, c);
      AskedGrows(es, r, c, j, u);
      assert false;
    }
  }

  /** What is held under the number of a question is that question. */
  lemma AskedBy(es: seq<Event>, i: nat, a: nat)
    requires Numbered(es) && a < i <= |es| && es[a].AuthRequest? && Accepted(es[a], es[a].n)
      && es[a].n in At(es, i).held
    ensures At(es, i).held[es[a].n].id == es[a].id
  {
    hide At, Removes;
    var b := Opened(es, i, es[a].n);
    StaysOpen(es, b, i, es[a].n);
  }

  lemma OthersTaken(es: seq<Event>, i: nat, u: string, a: nat)
    requires Numbered(es) && a < i < |es| && Asks(es[a], u) && !(es[i].Answer? && es[i].id == u)
    ensures Takes(es, i) != Some(es[a].n)
  {
    hide At, Removes;
    if Takes(es, i) == Some(es[a].n) {
      AskedBy(es, i, a);
    }
  }

  ghost predicate TakesQuestion(es: seq<Event>, j: nat, a: nat)
    requires j < |es| && a < |es|
  {
    es[a].AuthRequest? && Takes(es, j) == Some(es[a].n)
  }

  /** Say f gives the question that each answer for the ID is meant for. Then every answer takes the question it is
      meant for if and only if the questions are answered in the order in which they came and none is passed over. */
  lemma OwnAnswersExactly(es: seq<Event>, r: nat, i: nat, u: string, f: map<nat, nat>)
    requires Numbered(es) && r <= i <= |es| && Fair(es, r, i, u)
    requires forall j | r <= j < i && es[j].Answer? && es[j].id == u :: j in f && r <= f[j] < j && Asks(es[f[j]], u)
    ensures (forall j | r <= j < i && es[j].Answer? && es[j].id == u :: TakesQuestion(es, j, f[j])) <==>
            (forall j | r <= j < i && es[j].Answer? && es[j].id == u ::
               AskedFor(es, r, f[j], u) == AnsweredFor(es, r, j, u))
  {
    hide Takes, AskedFor, AnsweredFor;
    forall j | r <= j < i && es[j].Answer? && es[j].id == u
      ensures TakesQuestion(es, j, f[j]) <==> AskedFor(es, r, f[j], u) == AnsweredFor(es, r, j, u)
    {
      FairBefore(es, r, j, i, u);
      Taken(es, r, j, u, f[j]);
    }
  }

  lemma FairBefore(es: seq<Event>, r: nat, j: nat, i: nat, u: string)
    requires r <= j <= i <= |es| && Fair(es, r, i, u)
    ensures Fair(es, r, j, u)
  {
    hide At;
  }
}
