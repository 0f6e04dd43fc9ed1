/** The link to the auth server and its heartbeat. */
module AuthLink {
  import opened Sequences
  import Amx

  /** What happens to the auth server object: packets, the timer, lost connections, and the controller's requests
      for authentication. */
  datatype Event =
    | Bind(socket: int)
    | Unbind(socket: int)
    | Tick
    | EnquireAnswer(sequence: int)
    | Auth(token: string, id: string)
    | AuthAnswer(id: string, auth: string)
    | Disconnect(socket: int)

  /** mAuthServer, mnEnquuireSeq, whether the timer is set, and how many sequence numbers have been drawn. */
  datatype State = State(server: int, enquiry: int, timer: bool, calls: nat)

  const START := State(0, -1, false, 0)

  predicate EnquiresIn(s: State, e: Event) {
    e.Tick? && s.enquiry == -1 && s.server > 0
  }

  function Step(s: State, e: Event): State {
    match e
    case Bind(socket) => State(socket, -1, true, s.calls)
    case Unbind(_) => State(0, -1, false, s.calls)
    case Tick =>
      if s.enquiry != -1 then State(0, -1, false, s.calls)
      else if s.server > 0 then s.(enquiry := Kth(s.calls + 1), calls := s.calls + 1)
      else s
    case EnquireAnswer(_) => s.(enquiry := -1)
    case Auth(_, _) => if s.server != 0 then s.(calls := s.calls + 1) else s
    case AuthAnswer(_, _) => s
    case Disconnect(_) => s.(server := 0)
  }

  /** The messages for the controller. */
  function Posts(s: State, e: Event): seq<Amx.Event> {
    match e
    case Tick => if s.enquiry != -1 then [Amx.Reboot] else []
    case AuthAnswer(id, auth) => if id != "" then [Amx.Answer(if auth == "y" then 1 else 0, id)] else []
    case _ => []
  }

  /** A packet for a socket: an enquiry, or a request for authentication. */
  datatype Packet =
    | Enquiry(socket: int, sequence: int)
    | Question(socket: int, sequence: int, token: string, id: string)

  function Sends(s: State, e: Event): seq<Packet> {
    match e
    case Tick => if s.enquiry == -1 && s.server > 0 then [Enquiry(s.server, Kth(s.calls + 1))] else []
    case Auth(token, id) => if s.server != 0 then [Question(s.server, Kth(s.calls + 1), token, id)] else []
    case _ => []
  }

  function At(es: seq<Event>, i: nat): State
    requires i <= |es|
  {
    if i == 0 then START else Step(At(es, i - 1), es[i - 1])
  }

  function Posted(es: seq<Event>, i: nat): seq<Amx.Event>
    requires i <= |es|
  {
    if i == 0 then [] else Posted(es, i - 1) + Posts(At(es, i - 1), es[i - 1])
  }

  function Sent(es: seq<Event>, i: nat): seq<Packet>
    requires i <= |es|
  {
    if i == 0 then [] else Sent(es, i - 1) + Sends(At(es, i - 1), es[i - 1])
  }

  /** Message i is a tick that sends an enquiry. */
  predicate Enquires(es: seq<Event>, i: nat)
    requires i < |es|
  {
    EnquiresIn(At(es, i), es[i])
  }

  /** Message i is a tick that gives the link up and posts a reboot request. */
  predicate Drops(es: seq<Event>, i: nat)
    requires i < |es|
  {
    Amx.Reboot in Posts(At(es, i), es[i])
  }

  predicate Settles(es: seq<Event>, i: nat)
    requires i < |es|
  {
    es[i].Bind? || es[i].Unbind? || es[i].EnquireAnswer? || Drops(es, i)
  }

  /** Tick k sent an enquiry, and no answer, bind, unbind or drop has come since. */
  predicate Unanswered(es: seq<Event>, k: nat, i: nat)
    requires i <= |es|
  {
    k < i && Enquires(es, k) && forall j | k < j < i :: !Settles(es, j)
  }

  lemma {:induction false} Outstanding(es: seq<Event>, i: nat) returns (k: nat)
    requires i <= |es| && At(es, i).enquiry != -1
    ensures Unanswered(es, k, i)
    decreases i
  {
    if Enquires(es, i - 1) {
      k := i - 1;
    } else {
      k := Outstanding(es, i - 1);
    }
  }

  lemma {:induction false} StillOutstanding(es: seq<Event>, k: nat, i: nat)
    requires i <= |es| && Unanswered(es, k, i)
    ensures At(es, i).enquiry == Kth(At(es, k).calls + 1)
    decreases i
  {
    if k + 1 < i {
      StillOutstanding(es, k, i - 1);
      assert !Settles(es, i - 1);
    }
  }

  /** mnEnquuireSeq differs from -1 exactly when the latest of enquiry, answer, bind, unbind and drop was an
      enquiry. */
  lemma OutstandingExactly(es: seq<Event>, i: nat)
    requires i <= |es|
    ensures At(es, i).enquiry != -1 <==> exists k :: Unanswered(es, k, i)
  {
    if At(es, i).enquiry != -1 {
      var k := Outstanding(es, i);
    }
    if k :| Unanswered(es, k, i) {
      StillOutstanding(es, k, i);
    }
  }

  /** A tick posts a reboot request exactly when an earlier enquiry is unanswered, and then no server is bound
      and the timer is stopped. */
  lemma DropsExactly(es: seq<Event>, i: nat)
    requires i < |es| && es[i].Tick?
    ensures Drops(es, i) <==> exists k :: Unanswered(es, k, i)
    ensures Drops(es, i) ==> At(es, i + 1).server == 0 && At(es, i + 1).enquiry == -1 && !At(es, i + 1).timer
    ensures !Drops(es, i) ==> At(es, i + 1).server == At(es, i).server
  {
    OutstandingExactly(es, i);
    assert At(es, i + 1) == Step(At(es, i), es[i]);
  }

  /** Between any two ticks the first of which sends an enquiry there is an answer. */
  predicate AnsweredInTime(es: seq<Event>) {
    forall k, i | 0 <= k < i < |es| && Enquires(es, k) && es[i].Tick? ::
      exists j :: k < j < i && es[j].EnquireAnswer?
  }

  lemma NeverDropped(es: seq<Event>, i: nat)
    requires AnsweredInTime(es) && i < |es|
    ensures !Drops(es, i)
  {
    if Drops(es, i) {
      var k := Outstanding(es, i);
      var j :| k < j < i && es[j].EnquireAnswer?;
      assert Settles(es, j);
      assert false;
    }
  }

  /** The bound server is the socket of the latest bind that no unbind, disconnection or drop followed. */
  predicate BoundSince(es: seq<Event>, k: nat, i: nat)
    requires i <= |es|
  {
    k < i && es[k].Bind? &&
    forall j | k < j < i :: !es[j].Bind? && !es[j].Unbind? && !es[j].Disconnect? && !Drops(es, j)
  }

  lemma {:induction false} Bound(es: seq<Event>, i: nat) returns (k: nat)
    requires i <= |es| && At(es, i).server != 0
    ensures BoundSince(es, k, i)
    decreases i
  {
    if es[i - 1].Bind? {
      k := i - 1;
    } else {
      k := Bound(es, i - 1);
    }
  }

  lemma {:induction false} StillBound(es: seq<Event>, k: nat, i: nat)
    requires i <= |es| && BoundSince(es, k, i)
    ensures At(es, i).server == es[k].socket
    decreases i
  {
    if k + 1 < i {
      StillBound(es, k, i - 1);
      assert !Drops(es, i - 1);
    }
  }

  lemma BoundExactly(es: seq<Event>, i: nat, socket: int)
    requires i <= |es| && socket != 0
    ensures At(es, i).server == socket <==> exists k: nat :: BoundSince(es, k, i) && es[k].socket == socket
  {
    if At(es, i).server == socket {
      var k := Bound(es, i);
      StillBound(es, k, i);
    }
    if k: nat :| BoundSince(es, k, i) && es[k].socket == socket {
      StillBound(es, k, i);
    }
  }

  /** A server that disconnects when no enquiry is open is not missed: the timer goes on, but until the next
      bind no tick enquires or posts a reboot request, so the controller keeps what it holds. */
  lemma {:induction false} NotMissed(es: seq<Event>, d: nat, i: nat)
    requires d < i < |es| && es[d].Disconnect? && At(es, d).enquiry == -1
    requires forall j | d < j < i :: !es[j].Bind?
    ensures At(es, i).server == 0 && At(es, i).enquiry == -1 && !Drops(es, i) && !Enquires(es, i)
  {
    if d + 1 < i {
      NotMissed(es, d, i - 1);
      assert !es[i - 1].Bind?;
    }
  }

  /** Neither an unbind nor a disconnection looks at whose it is. */
  predicate Leaves(e: Event) {
    e.Unbind? || e.Disconnect?
  }

  /** Bind k is the latest, its own server has not left, and the timer has not given it up. */
  predicate Stays(es: seq<Event>, k: nat, i: nat)
    requires i <= |es|
  {
    k < i && es[k].Bind? &&
    forall j | k < j < i :: !es[j].Bind? && !Drops(es, j) && !(Leaves(es[j]) && es[j].socket == es[k].socket)
  }

  /** A server that stays is lost all the same if and only if another socket has left since it was bound. */
  lemma LostExactly(es: seq<Event>, k: nat, i: nat)
    requires i <= |es| && Stays(es, k, i) && es[k].socket != 0
    ensures At(es, i).server != es[k].socket <==>
            exists j :: k < j < i && Leaves(es[j]) && es[j].socket != es[k].socket
    ensures At(es, i).server != es[k].socket ==> At(es, i).server == 0
  {
    if j :| k < j < i && Leaves(es[j]) && es[j].socket != es[k].socket {
      StaysLost(es, k, j, i);
    } else {
      assert BoundSince(es, k, i);
      StillBound(es, k, i);
    }
  }

  lemma Unbound(s: State, e: Event)
    requires Leaves(e) || (s.server == 0 && !e.Bind?)
    ensures Step(s, e).server == 0
  {
  }

  lemma {:induction false} StaysLost(es: seq<Event>, k: nat, j: nat, i: nat)
    requires k < j < i <= |es| && Stays(es, k, i) && Leaves(es[j])
    ensures At(es, i).server == 0
  {
    hide Step, Drops;
    if j + 1 < i {
      StaysLost(es, k, j, i - 1);
      Unbound(At(es, i - 1), es[i - 1]);
    } else {
      Unbound(At(es, j), es[j]);
    }
  }

  /** So when a server takes the place of another, the old one's disconnection leaves the new one unbound, and no
      tick enquires of it. */
  lemma OldServerLeaves(former: int, later: int)
    requires former > 0 && later > 0 && former != later
    ensures var es := [Bind(former), Bind(later), Disconnect(former), Tick];
      Stays(es, 1, 3) && At(es, 2).server == later && At(es, 3).server == 0 && !Enquires(es, 3)
  {
    var es := [Bind(former), Bind(later), Disconnect(former), Tick];
    assert At(es, 1) == State(former, -1, true, 0);
    assert At(es, 2) == State(later, -1, true, 0);
    assert At(es, 3) == State(0, -1, true, 0);
  }

  // ---------- From the auth server to the AMX box ----------

  /** The status posted for an answer: 1 for y, 0 for anything else. */
  predicate Reports(e: Event, status: int, id: string) {
    e.AuthAnswer? && e.id == id && id != "" && status == if e.auth == "y" then 1 else 0
  }

  /** An answer reaches the controller if and only if a packet with its ID and its status came. */
  lemma {:induction false} AnswersExactly(ls: seq<Event>, i: nat, status: int, id: string)
    requires i <= |ls|
    ensures Amx.Answer(status, id) in Posted(ls, i) <==> exists k :: 0 <= k < i && Reports(ls[k], status, id)
  {
    if i > 0 {
      hide At, Step;
      AnswersExactly(ls, i - 1, status, id);
      assert Amx.Answer(status, id) in Posts(At(ls, i - 1), ls[i - 1]) <==> Reports(ls[i - 1], status, id);
    }
  }

  /** So a command that was held goes out only when the auth server has answered y for the ID of its own request. */
  lemma ReleasedByYes(ls: seq<Event>, es: seq<Amx.Event>, j: nat) returns (a: nat, k: nat)
    requires j < |es| && es[j].Answer? && es[j] in Posted(ls, |ls|) && Amx.Sent(es, j).Some?
    ensures a < j && es[a].AuthRequest? && es[a].n == Amx.Sent(es, j).value.0
    ensures k < |ls| && ls[k] == AuthAnswer(es[a].id, "y")
  {
    var c;
    a, c := Amx.ReleasedOnly(es, j);
    AnswersExactly(ls, |ls|, 1, es[a].id);
    k :| 0 <= k < |ls| && Reports(ls[k], 1, es[a].id);
  }

  // ---------- The object ----------

  lemma {:induction false} Prefix(es: seq<Event>, e: Event, i: nat)
    requires i <= |es|
    ensures At(es + [e], i) == At(es, i) && Posted(es + [e], i) == Posted(es, i)
    ensures Sent(es + [e], i) == Sent(es, i)
  {
    if i > 0 {
      Prefix(es, e, i - 1);
      assert (es + [e])[i - 1] == es[i - 1];
    }
  }

  class AuthServer {
    var mAuthServer: int
    var mnEnquuireSeq: int
    var timer: bool
    /** The messages sent to the controller, and the packets sent to the auth server. */
    var sent: seq<Amx.Event>
    var requests: seq<Packet>
    const sequences: Generator
    ghost var handled: seq<Event>

    constructor ()
      ensures Valid() && handled == [] && fresh(sequences)
    {
      mAuthServer, mnEnquuireSeq, timer, sent, requests, handled := 0, -1, false, [], [], [];
      sequences := new Generator();
    }

    ghost predicate Valid()
      reads this, sequences
    {
      && sequences.Valid()
      && State(mAuthServer, mnEnquuireSeq, timer, sequences.calls) == At(handled, |handled|)
      && sent == Posted(handled, |handled|) && requests == Sent(handled, |handled|)
    }

    method OnBind(socket: int)
      requires Valid()
      modifies this
      ensures Valid() && handled == old(handled) + [Bind(socket)]
      ensures mAuthServer == socket && mnEnquuireSeq == -1 && timer
      ensures sent == old(sent) && requests == old(requests)
    {
      mAuthServer := socket;
      mnEnquuireSeq := -1;
      timer := true;
      Handled(Bind(socket));
    }

    method OnUnbind(socket: int)
      requires Valid()
      modifies this
      ensures Valid() && handled == old(handled) + [Unbind(socket)]
      ensures mAuthServer == 0 && mnEnquuireSeq == -1 && !timer
      ensures sent == old(sent) && requests == old(requests)
    {
      mAuthServer := 0;
      mnEnquuireSeq := -1;
      timer := false;
      Handled(Unbind(socket));
    }

    method OnTimer()
      requires Valid()
      modifies this, sequences
      ensures Valid() && handled == old(handled) + [Tick]
      ensures old(mnEnquuireSeq) != -1 ==>
        && mAuthServer == 0 && mnEnquuireSeq == -1 && !timer
        && sent == old(sent) + [Amx.Reboot] && requests == old(requests)
      ensures old(mnEnquuireSeq) == -1 ==> mAuthServer == old(mAuthServer) && timer == old(timer) && sent == old(sent)
      ensures old(mnEnquuireSeq) == -1 && old(mAuthServer) > 0 ==>
        && sequences.calls > 0 && mnEnquuireSeq == Kth(sequences.calls)
        && requests == old(requests) + [Enquiry(mAuthServer, mnEnquuireSeq)]
      ensures old(mnEnquuireSeq) == -1 && old(mAuthServer) <= 0 ==> mnEnquuireSeq == -1 && requests == old(requests)
    {
      if -1 != mnEnquuireSeq {
        sent := sent + [Amx.Reboot];
        mAuthServer := 0;
        mnEnquuireSeq := -1;
        timer := false;
      } else {
        if 0 < mAuthServer {
          mnEnquuireSeq := sequences.GetSequence();
          requests := requests + [Enquiry(mAuthServer, mnEnquuireSeq)];
        }
      }
      Handled(Tick);
    }

    method OnEnquireAnswer(sequence: int)
      requires Valid()
      modifies this
      ensures Valid() && handled == old(handled) + [EnquireAnswer(sequence)]
      ensures mnEnquuireSeq == -1 && mAuthServer == old(mAuthServer) && timer == old(timer)
      ensures sent == old(sent) && requests == old(requests)
    {
      mnEnquuireSeq := -1;
      Handled(EnquireAnswer(sequence));
    }

    /** The request to the auth server goes out under a sequence number of its own, if there is a server. */
    method RequestAuth(token: string, id: string) returns (ok: bool)
      requires Valid()
      modifies this, sequences
      ensures Valid() && handled == old(handled) + [Auth(token, id)] && ok == (old(mAuthServer) != 0)
      ensures sequences.calls == old(sequences.calls) + (if ok then 1 else 0) && sent == old(sent)
      ensures requests == old(requests) +
                          if ok then [Question(old(mAuthServer), Kth(sequences.calls), token, id)] else []
    {
      ok := mAuthServer != 0;
      if ok {
        var sequence := sequences.GetSequence();
        requests := requests + [Question(mAuthServer, sequence, token, id)];
      }
      Handled(Auth(token, id));
    }

    method OnAuthAnswer(id: string, auth: string)
      requires Valid()
      modifies this
      ensures Valid() && handled == old(handled) + [AuthAnswer(id, auth)]
      ensures id == "" ==> sent == old(sent)
      ensures id != "" && auth == "y" ==> sent == old(sent) + [Amx.Answer(1, id)]
      ensures id != "" && auth != "y" ==> sent == old(sent) + [Amx.Answer(0, id)]
      ensures requests == old(requests)
    {
      var nAuth := 0;
      if auth != "" && auth == "y" {
        nAuth := 1;
      }
      if id != "" {
        sent := sent + [Amx.Answer(nAuth, id)];
      }
      Handled(AuthAnswer(id, auth));
    }

    method OnClientDisconnect(socket: int)
      requires Valid()
      modifies this
      ensures Valid() && handled == old(handled) + [Disconnect(socket)]
      ensures mAuthServer == 0 && mnEnquuireSeq == old(mnEnquuireSeq) && timer == old(timer)
      ensures sent == old(sent) && requests == old(requests)
    {
      mAuthServer := 0;
      Handled(Disconnect(socket));
    }

    ghost method Handled(e: Event)
      requires var s := At(handled, |handled|);
               && State(mAuthServer, mnEnquuireSeq, timer, sequences.calls) == Step(s, e)
               && sent == Posted(handled, |handled|) + Posts(s, e)
               && requests == Sent(handled, |handled|) + Sends(s, e)
      requires sequences.Valid()
      modifies this`handled
      ensures Valid() && handled == old(handled) + [e]
    {
      hide Step, Posts, Sends;
      Prefix(handled, e, |handled|);
      handled := handled + [e];
    }
  }
}
