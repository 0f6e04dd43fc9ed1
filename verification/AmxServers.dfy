/** The objects of the AMX controller: the controller with its map of held commands, and the CMP server, which
    posts two messages under one number for each command it accepts. */
module AmxServers {
  import opened Options
  import opened Sequences
  import opened Amx

  /** What a message sends to the AMX box. */
  ghost function Output(s: State, e: Event): seq<string> {
    if e.Status? then [e.command]
    else
      match Forwards(s, e)
      case None => []
      case Some(c) => [c.1]
  }

  /** What messages es[..i] sent to the AMX box. */
  ghost function Requests(es: seq<Event>, i: nat): seq<string>
    requires i <= |es|
  {
    if i == 0 then [] else Requests(es, i - 1) + Output(At(es, i - 1), es[i - 1])
  }

  /** What a message asks the auth server: the token and ID of an accepted request. */
  ghost function Question(s: State, e: Event): seq<(string, string)> {
    if e.AuthRequest? && e.token != "" && e.id != "" && s.valid then [(e.token, e.id)] else []
  }

  ghost function Asked(es: seq<Event>, i: nat): seq<(string, string)>
    requires i <= |es|
  {
    if i == 0 then [] else Asked(es, i - 1) + Question(At(es, i - 1), es[i - 1])
  }

  lemma {:induction false} Prefix(es: seq<Event>, e: Event, i: nat)
    requires i <= |es|
    ensures At(es + [e], i) == At(es, i) && Requests(es + [e], i) == Requests(es, i)
    ensures Asked(es + [e], i) == Asked(es, i)
  {
    if i > 0 {
      Prefix(es, e, i - 1);
      assert (es + [e])[i - 1] == es[i - 1];
    }
  }

  class Controller {
    /** Whether an auth server is bound. */
    var serverAuth: bool
    var mapCtrlAuth: map<int, Entry>
    /** What has been sent to the AMX box and to the auth server. */
    var requestAMX: seq<string>
    var auth: seq<(string, string)>
    /** The messages handled so far. */
    ghost var handled: seq<Event>

    constructor ()
      ensures Valid() && handled == []
    {
      serverAuth, mapCtrlAuth, requestAMX, auth, handled := false, map[], [], [], [];
    }

    /** The object has done what the run of the messages does. */
    ghost predicate Valid()
      reads this
    {
      && State(serverAuth, mapCtrlAuth) == At(handled, |handled|)
      && requestAMX == Requests(handled, |handled|)
      && auth == Asked(handled, |handled|)
    }

    /** The search loop of authentication_response. */
    method Search(id: string) returns (nId: int, command: string)
      ensures Waiting(mapCtrlAuth, id) ==> First(mapCtrlAuth, id, nId) && command == mapCtrlAuth[nId].command
      ensures !Waiting(mapCtrlAuth, id) ==> nId == -1
    {
      nId, command := -1, "";
      var rest := mapCtrlAuth.Keys;
      while rest != {}
        invariant rest <= mapCtrlAuth.Keys && nId == -1
        invariant forall k | k in mapCtrlAuth && k !in rest :: mapCtrlAuth[k].id != id
        decreases |rest|
      {
        ghost var least := Least(rest);
        var k :| k in rest && forall r | r in rest :: k <= r;
        if mapCtrlAuth[k].id == id {
          return k, mapCtrlAuth[k].command;
        }
        rest := rest - {k};
      }
    }

    method OnAnswer(status: int, id: string)
      modifies this`mapCtrlAuth, this`requestAMX
      ensures var s := State(serverAuth, old(mapCtrlAuth));
              && State(serverAuth, mapCtrlAuth) == Step(s, Answer(status, id))
              && requestAMX == old(requestAMX) + Output(s, Answer(status, id))
    {
      var nId, command := Search(id);
      if nId != -1 {
        if status == 1 && command != "" {
          requestAMX := requestAMX + [command];
        }
        mapCtrlAuth := mapCtrlAuth - {nId};
      }
    }

    /** The switch over the kinds of messages. */
    method Act(message: Event)
      modifies this`serverAuth, this`mapCtrlAuth, this`requestAMX, this`auth
      ensures var s := State(old(serverAuth), old(mapCtrlAuth));
              && State(serverAuth, mapCtrlAuth) == Step(s, message)
              && requestAMX == old(requestAMX) + Output(s, message)
              && auth == old(auth) + Question(s, message)
    {
      match message {
        case AuthRequest(n, token, id) =>
          if token != "" && id != "" {
            mapCtrlAuth := mapCtrlAuth[n := Entry(id, token, "")];
            if serverAuth {
              auth := auth + [(token, id)];
            }
          }
        case Control(n, command) =>
          if !serverAuth {
            requestAMX := requestAMX + [command];
          } else if n !in mapCtrlAuth {
            requestAMX := requestAMX + [command];
          } else {
            mapCtrlAuth := mapCtrlAuth[n := Entry(mapCtrlAuth[n].id, mapCtrlAuth[n].token, command)];
          }
        case Answer(status, id) => OnAnswer(status, id);
        case Status(command) => requestAMX := requestAMX + [command];
        case Reboot => mapCtrlAuth := map[];
        case Link(valid) => serverAuth := valid;
      }
    }

    method OnHandleMessage(message: Event)
      requires Valid()
      modifies this
      ensures Valid() && handled == old(handled) + [message]
      ensures serverAuth == if message.Link? then message.valid else old(serverAuth)
      ensures message.AuthRequest? && message.token != "" && message.id != "" ==>
        && mapCtrlAuth == old(mapCtrlAuth)[message.n := Entry(message.id, message.token, "")]
        && auth == old(auth) + if old(serverAuth) then [(message.token, message.id)] else []
      ensures message.AuthRequest? && (message.token == "" || message.id == "") ==>
        mapCtrlAuth == old(mapCtrlAuth) && auth == old(auth)
      ensures message.Control? && old(serverAuth) && message.n in old(mapCtrlAuth) ==>
        && requestAMX == old(requestAMX)
        && mapCtrlAuth == old(mapCtrlAuth)[message.n := old(mapCtrlAuth)[message.n].(command := message.command)]
      ensures message.Control? && !(old(serverAuth) && message.n in old(mapCtrlAuth)) ==>
        requestAMX == old(requestAMX) + [message.command] && mapCtrlAuth == old(mapCtrlAuth)
      ensures message.Status? ==> requestAMX == old(requestAMX) + [message.command]
      ensures message.Status? || message.Link? ==> mapCtrlAuth == old(mapCtrlAuth)
      ensures message.Reboot? ==> mapCtrlAuth == map[]
      ensures message.AuthRequest? || message.Reboot? || message.Link? ==> requestAMX == old(requestAMX)
      ensures !message.AuthRequest? ==> auth == old(auth)
      ensures message.Answer? && Waiting(old(mapCtrlAuth), message.id) ==>
        var n := FirstOf(old(mapCtrlAuth), message.id); var command := old(mapCtrlAuth)[n].command;
        n != -1 ==>
          && mapCtrlAuth == old(mapCtrlAuth) - {n}
          && requestAMX == old(requestAMX) + if message.auth == 1 && command != "" then [command] else []
      ensures message.Answer? && !Waiting(old(mapCtrlAuth), message.id) ==>
        mapCtrlAuth == old(mapCtrlAuth) && requestAMX == old(requestAMX)
    {
      Act(message);
      handled := handled + [message];
      Prefix(old(handled), message, |old(handled)|);
    }
  }

  // ---------- The CMP server ----------

  /** The body of an AMX control packet: TOKEN, ID and the command that the tables give for its codes. */
  datatype Body = Empty | Malformed | Json(token: string, id: string, command: string)

  /** Every control request has a request for authentication with its number before it. */
  ghost predicate Paired(es: seq<Event>) {
    forall j | 0 <= j < |es| && es[j].Control? :: exists i :: 0 <= i < j && Accepted(es[i], es[j].n)
  }

  /** Only the first so many numbers are in use. */
  predicate Within(es: seq<Event>, calls: int) {
    forall i | 0 <= i < |es| && (es[i].AuthRequest? || es[i].Control?) :: es[i].n <= calls
  }

  predicate Ordered(es: seq<Event>) {
    DistinctControls(es) && Increasing(es)
  }

  ghost predicate Requested(es: seq<Event>, n: int) {
    exists i :: 0 <= i < |es| && Accepted(es[i], n)
  }

  lemma PairedStill(es: seq<Event>, e: Event)
    requires Paired(es) && (e.Control? ==> Requested(es, e.n))
    ensures Paired(es + [e])
  {
    var fs := es + [e];
    forall j | 0 <= j < |fs| && fs[j].Control?
      ensures exists i :: 0 <= i < j && Accepted(fs[i], fs[j].n)
    {
      var i :| 0 <= i < |es| && (j < |es| ==> i < j) && Accepted(es[i], fs[j].n);
      assert Accepted(fs[i], fs[j].n);
    }
  }

  /** A request and its command under a number that is larger than all before. */
  lemma OrderedStill(es: seq<Event>, n: int, token: string, id: string, command: string)
    requires Ordered(es) && n > 0 && Within(es, n - 1)
    ensures var fs := es + [AuthRequest(n, token, id)];
            && Ordered(fs) && Within(fs, n)
            && Ordered(fs + [Control(n, command)]) && Within(fs + [Control(n, command)], n)
  {
  }

  lemma MoreCalls(es: seq<Event>, n: int)
    requires n > 0 && Within(es, n - 1)
    ensures Within(es, n)
  {
  }

  lemma PairedBoth(es: seq<Event>, n: int, token: string, id: string, command: string)
    requires Paired(es) && token != "" && id != ""
    ensures var fs := es + [AuthRequest(n, token, id)]; Paired(fs) && Paired(fs + [Control(n, command)])
  {
    PairedStill(es, AuthRequest(n, token, id));
    var fs := es + [AuthRequest(n, token, id)];
    assert Accepted(fs[|fs| - 1], n);
    PairedStill(fs, Control(n, command));
  }

  lemma FirstPeriod(k: nat)
    requires 0 < k <= PERIOD
    ensures Kth(k) == k
  {
  }

  class CmpServer {
    const sequences: Generator
    var mapClient: set<int>
    /** The messages posted to the controller, by this server and by the auth server. */
    var queue: seq<Event>

    constructor ()
      ensures Valid() && fresh(sequences) && queue == []
    {
      sequences := new Generator();
      queue, mapClient := [], {};
    }

    ghost predicate Valid()
      reads this, sequences
    {
      && sequences.Valid()
      && Paired(queue)
      && (sequences.calls <= PERIOD ==> Ordered(queue) && Within(queue, sequences.calls))
    }

    method Post(message: Event)
      requires Valid() && !message.AuthRequest? && !message.Control?
      modifies this
      ensures Valid() && queue == old(queue) + [message]
    {
      PairedStill(queue, message);
      queue := queue + [message];
    }

    method OnBind(socket: int)
      requires Valid()
      modifies this`mapClient
      ensures Valid() && mapClient == old(mapClient) + {socket}
    {
      mapClient := mapClient + {socket};
    }

    method OnUnbind(socket: int)
      requires Valid()
      modifies this`mapClient
      ensures Valid() && mapClient == old(mapClient) - {socket}
    {
      if socket in mapClient {
        mapClient := mapClient - {socket};
      }
    }

    /** A broadcast takes a number for every client, and the numbers posted stay in order all the same. */
    method BroadcastAMXStatus()
      requires Valid()
      modifies sequences
      ensures Valid() && sequences.calls == old(sequences.calls) + |mapClient|
    {
      var rest := mapClient;
      while rest != {}
        invariant Valid() && sequences.calls + |rest| == old(sequences.calls) + |mapClient|
        decreases |rest|
      {
        ghost var any := Pick(rest);
        var client :| client in rest;
        var sequence := sequences.GetSequence();
        rest := rest - {client};
      }
    }

    /** The status of the response, true for STATUS_ROK. */
    method OnAmxControl(body: Body) returns (ok: bool)
      requires Valid()
      modifies this, sequences
      ensures Valid() && sequences.calls == old(sequences.calls) + (if body.Json? then 1 else 0)
      ensures ok <==> body.Json? && body.token != "" && body.id != "" && body.command != ""
      ensures queue == old(queue) +
                       if !body.Json? || body.token == "" || body.id == "" then []
                       else
                         var n := Kth(sequences.calls);
                         [AuthRequest(n, body.token, body.id)] +
                         if body.command == "" then [] else [Control(n, body.command)]
    {
      ok := false;
      if body.Json? {
        hide Ordered, Within, Paired, Requested;
        var nId := sequences.GetSequence();
        if sequences.calls <= PERIOD {
          FirstPeriod(sequences.calls);
          OrderedStill(queue, nId, body.token, body.id, body.command);
          MoreCalls(queue, nId);
        }
        if body.token == "" || body.id == "" {
          return;
        }
        PairedBoth(queue, nId, body.token, body.id, body.command);
        queue := queue + [AuthRequest(nId, body.token, body.id)];
        if body.command != "" {
          ok := true;
          queue := queue + [Control(nId, body.command)];
        }
      }
    }
  }

  /** With an auth server bound, a command of the first period that goes straight out had its request open, and
      an answer for its ID or a reboot took that request away before the controller saw the command. */
  lemma OvertakenOnly(es: seq<Event>, i: nat) returns (a: nat, k: nat)
    requires Paired(es) && Ordered(es) && i < |es| && es[i].Control? && At(es, i).valid && Sent(es, i).Some?
    ensures a < k < i && Accepted(es[a], es[i].n) && Removes(es, k, es[i].n)
    ensures es[k].Reboot? || (es[k].Answer? && es[k].id == es[a].id)
  {
    var n := es[i].n;
    a :| 0 <= a < i && Accepted(es[a], n);
    StraightExactly(es, i);
    assert !Open(es, a, i, n);
    k := Removed(es, a, i, n);
  }

  lemma {:induction false} Removed(es: seq<Event>, a: nat, i: nat, n: int) returns (k: nat)
    requires Increasing(es) && a < i <= |es| && Accepted(es[a], n) && !Open(es, a, i, n)
    ensures a < k < i && Removes(es, k, n) && (es[k].Reboot? || (es[k].Answer? && es[k].id == es[a].id))
    decreases i
  {
    if Open(es, a, i - 1, n) {
      k := i - 1;
      StaysOpen(es, a, k, n);
    } else {
      k := Removed(es, a, i - 1, n);
    }
  }
}
