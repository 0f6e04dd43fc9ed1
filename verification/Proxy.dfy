/** The meeting agent: it passes a device's request on under a sequence number of its own, and the reply to that
    number back to the device under the device's number. */
module Proxy {
  import opened Options
  import opened Sequences

  /** CMPData: a socket, and the command, the sequence number and the body of a packet. */
  datatype CMPData = CMPData(fd: int, command: int, sequence: int, body: string) {
    predicate IsValid() {
      fd != -1 && command != -1 && sequence != -1
    }
  }

  /** Packets from devices and from the meeting controller, and meeting controllers coming and going. */
  datatype Event = Request(data: CMPData) | Reply(data: CMPData) | AddClient(fd: int) | DeleteClient(fd: int)

  /** How many requests have been passed on, those that wait for a reply, and the meeting sockets. */
  datatype State = State(calls: nat, pending: map<int, CMPData>, clients: seq<int>)

  const START := State(0, map[], [])

  function Without(s: seq<int>, x: int): seq<int> {
    if s == [] then [] else if s[0] == x then s[1..] else [s[0]] + Without(s[1..], x)
  }

  predicate Passed(e: Event) {
    e.Request? && e.data.IsValid()
  }

  predicate Replies(e: Event, n: int) {
    e.Reply? && e.data.IsValid() && e.data.sequence == n
  }

  function Step(s: State, e: Event): State {
    match e
    case Request(data) =>
      if data.IsValid() then s.(calls := s.calls + 1, pending := s.pending[Kth(s.calls + 1) := data]) else s
    case Reply(data) =>
      if data.IsValid() && data.sequence in s.pending then s.(pending := s.pending - {data.sequence}) else s
    case AddClient(fd) => s.(clients := [fd])
    case DeleteClient(fd) => s.(clients := Without(s.clients, fd))
  }

  /** The packet for the meeting controller: it goes to the last socket of the list. */
  function ToMeeting(s: State, e: Event): Option<CMPData> {
    if Passed(e) && s.clients != [] && s.clients[|s.clients| - 1] >= 0 then
      Some(CMPData(s.clients[|s.clients| - 1], e.data.command, Kth(s.calls + 1), e.data.body))
    else
      None
  }

  /** The packet for a device. */
  function ToDevice(s: State, e: Event): Option<CMPData> {
    if e.Reply? && e.data.IsValid() && e.data.sequence in s.pending then
      var d := s.pending[e.data.sequence];
      Some(CMPData(d.fd, e.data.command, d.sequence, e.data.body))
    else
      None
  }

  // ---------- Runs ----------

  function At(es: seq<Event>, i: nat): State
    requires i <= |es|
  {
    if i == 0 then START else Step(At(es, i - 1), es[i - 1])
  }

  /** The number under which request i is passed on. */
  function Number(es: seq<Event>, i: nat): nat
    requires i < |es|
  {
    Kth(At(es, i).calls + 1)
  }

  lemma {:induction false} CallsGrow(es: seq<Event>, i: nat, j: nat)
    requires i <= j <= |es|
    ensures At(es, i).calls <= At(es, j).calls
    ensures i < j && Passed(es[i]) ==> At(es, i).calls < At(es, j).calls
    decreases j
  {
    if i < j {
      CallsGrow(es, i, j - 1);
    }
  }

  /** Request r is passed on, and before i comes neither a reply to its number nor a request with its number. */
  predicate Pending(es: seq<Event>, r: nat, i: nat)
    requires i <= |es|
  {
    && r < i && Passed(es[r])
    && forall k | r < k < i ::
         !Replies(es[k], Number(es, r)) && !(Passed(es[k]) && Number(es, k) == Number(es, r))
  }

  lemma {:induction false} StaysPending(es: seq<Event>, r: nat, i: nat)
    requires i <= |es| && Pending(es, r, i)
    ensures Number(es, r) in At(es, i).pending && At(es, i).pending[Number(es, r)] == es[r].data
    decreases i
  {
    if r + 1 < i {
      StaysPending(es, r, i - 1);
      var k := i - 1;
      assert !Replies(es[k], Number(es, r)) && !(Passed(es[k]) && Number(es, k) == Number(es, r));
    }
  }

  lemma {:induction false} PendingSince(es: seq<Event>, i: nat, n: int) returns (r: nat)
    requires i <= |es| && n in At(es, i).pending
    ensures Pending(es, r, i) && Number(es, r) == n
    decreases i
  {
    if Passed(es[i - 1]) && Number(es, i - 1) == n {
      r := i - 1;
    } else {
      r := PendingSince(es, i - 1, n);
    }
  }

  lemma {:induction false} NumberTaken(es: seq<Event>, r: nat, i: nat) returns (k: nat)
    requires r < i <= |es| && At(es, r).calls + PERIOD < At(es, i).calls
    ensures r < k < i && Passed(es[k]) && At(es, k).calls == At(es, r).calls + PERIOD
    decreases i
  {
    if At(es, i - 1).calls == At(es, r).calls + PERIOD {
      k := i - 1;
    } else {
      k := NumberTaken(es, r, i - 1);
    }
  }

  /** A request that has no reply is pending exactly until a whole period of requests has come after it. */
  lemma PendingExactly(es: seq<Event>, r: nat, i: nat)
    requires r < i <= |es| && Passed(es[r])
    requires forall k | r < k < i :: !Replies(es[k], Number(es, r))
    ensures Pending(es, r, i) <==> At(es, i).calls <= At(es, r).calls + PERIOD
  {
    if At(es, i).calls <= At(es, r).calls + PERIOD {
      forall k | r < k < i && Passed(es[k]) ensures Number(es, k) != Number(es, r) {
        CallsGrow(es, r, k);
        CallsGrow(es, k, i);
        Fresh(At(es, r).calls + 1, At(es, k).calls + 1);
      }
    } else {
      var k := NumberTaken(es, r, i);
      SameNumber(At(es, r).calls + 1, At(es, k).calls + 1);
      assert Number(es, k) == Number(es, r);
    }
  }

  /** Reply j names the number of request r, which is pending; the packet is the reply under r's own number. */
  predicate Answers(es: seq<Event>, r: nat, j: nat, out: CMPData)
    requires j < |es| && es[j].Reply?
  {
    && Pending(es, r, j)
    && es[j].data.sequence == Number(es, r)
    && out == CMPData(es[r].data.fd, es[j].data.command, es[r].data.sequence, es[j].data.body)
  }

  /** A reply reaches a device exactly when it names a pending request, and then the socket and the sequence
      number are those of that request. */
  lemma RoutedExactly(es: seq<Event>, j: nat, out: CMPData)
    requires j < |es| && es[j].Reply? && es[j].data.IsValid()
    ensures ToDevice(At(es, j), es[j]) == Some(out) <==> exists r :: Answers(es, r, j, out)
  {
    if ToDevice(At(es, j), es[j]) == Some(out) {
      var r := PendingSince(es, j, es[j].data.sequence);
      StaysPending(es, r, j);
      assert Answers(es, r, j, out);
    }
    if r :| Answers(es, r, j, out) {
      StaysPending(es, r, j);
    }
  }

  /** While no more than a period of requests has come since request r, the first reply to its number goes back
      to its socket under its sequence number. */
  lemma Routed(es: seq<Event>, r: nat, j: nat)
    requires r < j < |es| && Passed(es[r]) && Replies(es[j], Number(es, r))
    requires forall k | r < k < j :: !Replies(es[k], Number(es, r))
    requires At(es, j).calls <= At(es, r).calls + PERIOD
    ensures ToDevice(At(es, j), es[j]) ==
            Some(CMPData(es[r].data.fd, es[j].data.command, es[r].data.sequence, es[j].data.body))
  {
    PendingExactly(es, r, j);
    StaysPending(es, r, j);
  }

  /** No two replies answer the same request. */
  lemma AnsweredOnce(es: seq<Event>, r: nat, i: nat, j: nat)
    requires i < j < |es| && es[i].Reply? && es[i].data.IsValid() && Pending(es, r, i)
    requires es[i].data.sequence == Number(es, r)
    ensures !Pending(es, r, j)
  {
    assert Replies(es[i], Number(es, r));
  }

  /** A reply that names no pending request changes nothing and reaches nobody. */
  lemma Unknown(es: seq<Event>, j: nat)
    requires j < |es| && es[j].Reply?
    requires forall r | 0 <= r < j :: Pending(es, r, j) ==> Number(es, r) != es[j].data.sequence
    ensures At(es, j + 1) == At(es, j) && ToDevice(At(es, j), es[j]) == None
    ensures ToMeeting(At(es, j), es[j]) == None
  {
    if es[j].data.sequence in At(es, j).pending {
      var r := PendingSince(es, j, es[j].data.sequence);
      assert false;
    }
  }

  // ---------- Conservation ----------

  /** How many replies have reached a device. */
  function Answered(es: seq<Event>, i: nat): nat
    requires i <= |es|
  {
    if i == 0 then 0 else Answered(es, i - 1) + if ToDevice(At(es, i - 1), es[i - 1]).Some? then 1 else 0
  }

  predicate Overwrites(es: seq<Event>, i: nat)
    requires i < |es|
  {
    Passed(es[i]) && Number(es, i) in At(es, i).pending
  }

  /** How many requests have been forgotten because a later one came under their number. */
  function Overwritten(es: seq<Event>, i: nat): nat
    requires i <= |es|
  {
    if i == 0 then 0 else Overwritten(es, i - 1) + if Overwrites(es, i - 1) then 1 else 0
  }

  lemma {:induction false} Conserved(es: seq<Event>, i: nat)
    requires i <= |es|
    ensures |At(es, i).pending| + Answered(es, i) + Overwritten(es, i) == At(es, i).calls
    decreases i
  {
    if i > 0 {
      Conserved(es, i - 1);
      StepCounts(At(es, i - 1), es[i - 1]);
    }
  }

  lemma StepCounts(s: State, e: Event)
    ensures Passed(e) ==> |Step(s, e).pending| == |s.pending| + if Kth(s.calls + 1) in s.pending then 0 else 1
    ensures !Passed(e) ==> |Step(s, e).pending| + (if ToDevice(s, e).Some? then 1 else 0) == |s.pending|
    ensures Step(s, e).calls == s.calls + if Passed(e) then 1 else 0
  {
    if Passed(e) {
      assert Step(s, e).pending.Keys == s.pending.Keys + {Kth(s.calls + 1)};
    } else if ToDevice(s, e).Some? {
      assert Step(s, e).pending.Keys == s.pending.Keys - {e.data.sequence};
    }
  }

  /** Pending is accepted minus answered exactly as long as no request has been overwritten. */
  lemma PendingCount(es: seq<Event>, i: nat)
    requires i <= |es|
    ensures |At(es, i).pending| == At(es, i).calls - Answered(es, i) <==>
            forall k | 0 <= k < i :: !Overwrites(es, k)
  {
    Conserved(es, i);
    NoneOverwritten(es, i);
  }

  lemma {:induction false} NoneOverwritten(es: seq<Event>, i: nat)
    requires i <= |es|
    ensures Overwritten(es, i) == 0 <==> forall k | 0 <= k < i :: !Overwrites(es, k)
    decreases i
  {
    if i > 0 {
      NoneOverwritten(es, i - 1);
    }
  }

  /** A request overwrites another exactly when the one a period before it is still pending. */
  lemma OverwritesExactly(es: seq<Event>, i: nat)
    requires i < |es| && Passed(es[i])
    ensures Overwrites(es, i) <==> exists r :: Pending(es, r, i) && At(es, i).calls == At(es, r).calls + PERIOD
  {
    if Overwrites(es, i) {
      var r := PendingSince(es, i, Number(es, i));
      PendingExactly(es, r, i);
      CallsGrow(es, r, i);
      if At(es, i).calls < At(es, r).calls + PERIOD {
        Fresh(At(es, r).calls + 1, At(es, i).calls + 1);
        assert false;
      }
    }
    if r :| Pending(es, r, i) && At(es, i).calls == At(es, r).calls + PERIOD {
      SameNumber(At(es, r).calls + 1, At(es, i).calls + 1);
      StaysPending(es, r, i);
    }
  }

  // ---------- The meeting socket ----------

  predicate Current(es: seq<Event>, a: nat, i: nat)
    requires i <= |es|
  {
    a < i && es[a].AddClient? &&
    forall k | a < k < i :: !es[k].AddClient? && es[k] != DeleteClient(es[a].fd)
  }

  lemma WithoutAt(s: seq<int>, i: nat, x: int)
    requires i <= |s|
    ensures s[..i] + Without(s[i..], x) ==
            if i == |s| then s
            else if s[i] == x then s[..i] + s[i + 1..]
            else s[..i + 1] + Without(s[i + 1..], x)
  {
    if i < |s| {
      assert s[i..][1..] == s[i + 1..];
      assert s[..i + 1] == s[..i] + [s[i]];
    }
  }

  /** What is taken out is the first of its kind. */
  lemma {:induction false} WithoutFirst(s: seq<int>, x: int, i: nat)
    requires i < |s| && s[i] == x && forall j | 0 <= j < i :: s[j] != x
    ensures Without(s, x) == s[..i] + s[i + 1..]
  {
    if i > 0 {
      WithoutFirst(s[1..], x, i - 1);
      assert s[..i] == [s[0]] + s[1..][..i - 1] && s[1..][i..] == s[i + 1..];
    }
  }

  lemma {:induction false} WithoutNone(s: seq<int>, x: int)
    requires forall j | 0 <= j < |s| :: s[j] != x
    ensures Without(s, x) == s
  {
    if s != [] {
      WithoutNone(s[1..], x);
    }
  }

  lemma WithoutOne(y: int, x: int)
    ensures Without([y], x) == if y == x then [] else [y]
  {
    assert [y] == [y] + [];
  }

  lemma {:induction false} StaysCurrent(es: seq<Event>, a: nat, i: nat)
    requires i <= |es| && Current(es, a, i)
    ensures At(es, i).clients == [es[a].fd]
    decreases i
  {
    if a + 1 < i {
      StaysCurrent(es, a, i - 1);
      assert !es[i - 1].AddClient? && es[i - 1] != DeleteClient(es[a].fd);
      if es[i - 1].DeleteClient? {
        WithoutOne(es[a].fd, es[i - 1].fd);
      }
    }
  }

  lemma {:induction false} CurrentSince(es: seq<Event>, i: nat) returns (a: nat)
    requires i <= |es| && At(es, i).clients != []
    ensures Current(es, a, i) && At(es, i).clients == [es[a].fd]
    decreases i
  {
    if es[i - 1].AddClient? {
      a := i - 1;
    } else {
      a := CurrentSince(es, i - 1);
      if es[i - 1].DeleteClient? {
        WithoutOne(es[a].fd, es[i - 1].fd);
      }
    }
  }

  /** Requests go to the meeting socket that was added last, unless it has been deleted, and to no other. */
  lemma SentToCurrent(es: seq<Event>, i: nat, fd: int)
    requires i < |es| && Passed(es[i]) && fd >= 0
    ensures ToMeeting(At(es, i), es[i]) == Some(CMPData(fd, es[i].data.command, Number(es, i), es[i].data.body))
            <==> exists a: nat :: Current(es, a, i) && es[a].fd == fd
  {
    if At(es, i).clients != [] {
      var a := CurrentSince(es, i);
    }
    if a: nat :| Current(es, a, i) && es[a].fd == fd {
      StaysCurrent(es, a, i);
    }
  }

  lemma OneClient(es: seq<Event>, i: nat)
    requires i <= |es|
    ensures |At(es, i).clients| <= 1
  {
    if At(es, i).clients != [] {
      var a := CurrentSince(es, i);
    }
  }

  // ---------- The objects ----------

  /** What messages es[..i] sent to the meeting controller and to the devices. */
  function AllToMeeting(es: seq<Event>, i: nat): seq<CMPData>
    requires i <= |es|
  {
    if i == 0 then [] else AllToMeeting(es, i - 1) + Listed(ToMeeting(At(es, i - 1), es[i - 1]))
  }

  function AllToDevices(es: seq<Event>, i: nat): seq<CMPData>
    requires i <= |es|
  {
    if i == 0 then [] else AllToDevices(es, i - 1) + Listed(ToDevice(At(es, i - 1), es[i - 1]))
  }

  function Listed(o: Option<CMPData>): seq<CMPData> {
    match o
    case None => []
    case Some(d) => [d]
  }

  lemma {:induction false} Prefix(es: seq<Event>, e: Event, i: nat)
    requires i <= |es|
    ensures At(es + [e], i) == At(es, i) && AllToMeeting(es + [e], i) == AllToMeeting(es, i)
    ensures AllToDevices(es + [e], i) == AllToDevices(es, i)
  {
    if i > 0 {
      Prefix(es, e, i - 1);
      assert (es + [e])[i - 1] == es[i - 1];
    }
  }

  class MeetingServer {
    var mapClient: seq<int>
    /** The requests sent. */
    var sent: seq<CMPData>

    constructor ()
      ensures mapClient == [] && sent == []
    {
      mapClient, sent := [], [];
    }

    method AddClient(fd: int)
      modifies this`mapClient
      ensures mapClient == [fd]
    {
      if |mapClient| > 0 {
        mapClient := [];
      }
      mapClient := mapClient + [fd];
    }

    method DeleteClient(fd: int)
      modifies this`mapClient
      ensures mapClient == Without(old(mapClient), fd)
    {
      hide Without;
      var position := 0;
      while position < |mapClient| && mapClient[position] != fd
        invariant position <= |mapClient| && mapClient == old(mapClient)
        invariant Without(mapClient, fd) == mapClient[..position] + Without(mapClient[position..], fd)
      {
        WithoutAt(mapClient, position, fd);
        position := position + 1;
      }
      WithoutAt(mapClient, position, fd);
      if position != |mapClient| {
        mapClient := mapClient[..position] + mapClient[position + 1..];
      }
    }

    method SendCommand(command: int, sequence: int, body: string)
      modifies this`sent
      ensures sent == old(sent) + if mapClient != [] && mapClient[|mapClient| - 1] >= 0
                                  then [CMPData(mapClient[|mapClient| - 1], command, sequence, body)]
                                  else []
    {
      var nSocket := -1;
      if |mapClient| > 0 {
        nSocket := mapClient[|mapClient| - 1];
      }
      if nSocket >= 0 {
        sent := sent + [CMPData(nSocket, command, sequence, body)];
      }
    }
  }

  class Agent {
    const serverMeeting: MeetingServer
    const sequences: Generator
    var deviceMapData: map<int, CMPData>
    /** The responses sent to devices. */
    var responses: seq<CMPData>
    ghost var handled: seq<Event>

    constructor ()
      ensures Valid() && handled == [] && fresh(serverMeeting) && fresh(sequences)
    {
      serverMeeting := new MeetingServer();
      sequences := new Generator();
      deviceMapData, responses, handled := map[], [], [];
    }

    /** The objects have done what the run of the messages does. */
    ghost predicate Valid()
      reads this, serverMeeting, sequences
    {
      && sequences.Valid()
      && State(sequences.calls, deviceMapData, serverMeeting.mapClient) == At(handled, |handled|)
      && serverMeeting.sent == AllToMeeting(handled, |handled|)
      && responses == AllToDevices(handled, |handled|)
    }

    method OnMeetingCommand(data: CMPData)
      requires Valid()
      modifies this, serverMeeting, sequences
      ensures Valid() && handled == old(handled) + [Request(data)]
      ensures data.fd != -1 && data.command != -1 && data.sequence != -1 ==>
        var n, clients := sequences.calls, serverMeeting.mapClient;
        && n == old(sequences.calls) + 1 && deviceMapData == old(deviceMapData)[Kth(n) := data]
        && serverMeeting.sent == old(serverMeeting.sent) +
             if clients != [] && clients[|clients| - 1] >= 0
             then [CMPData(clients[|clients| - 1], data.command, Kth(n), data.body)] else []
      ensures data.fd == -1 || data.command == -1 || data.sequence == -1 ==>
        && sequences.calls == old(sequences.calls) && deviceMapData == old(deviceMapData)
        && serverMeeting.sent == old(serverMeeting.sent)
      ensures serverMeeting.mapClient == old(serverMeeting.mapClient) && responses == old(responses)
    {
      hide Kth, AllToMeeting, AllToDevices, At;
      if data.IsValid() {
        var sequence := sequences.GetSequence();
        deviceMapData := deviceMapData[sequence := data];
        serverMeeting.SendCommand(data.command, sequence, data.body);
      }
      Handled(Request(data));
    }

    method OnDeviceCommand(data: CMPData)
      requires Valid()
      modifies this
      ensures Valid() && handled == old(handled) + [Reply(data)]
      ensures data.fd != -1 && data.command != -1 && data.sequence in old(deviceMapData) && data.sequence != -1 ==>
        && deviceMapData == old(deviceMapData) - {data.sequence}
        && var d := old(deviceMapData)[data.sequence];
           responses == old(responses) + [CMPData(d.fd, data.command, d.sequence, data.body)]
      ensures data.fd == -1 || data.command == -1 || data.sequence == -1 || data.sequence !in old(deviceMapData) ==>
        deviceMapData == old(deviceMapData) && responses == old(responses)
    {
      if data.IsValid() {
        if data.sequence in deviceMapData {
          var deviceData := deviceMapData[data.sequence];
          deviceMapData := deviceMapData - {data.sequence};
          responses := responses + [CMPData(deviceData.fd, data.command, deviceData.sequence, data.body)];
        }
      }
      Handled(Reply(data));
    }

    method AddClient(fd: int)
      requires Valid()
      modifies this, serverMeeting
      ensures Valid() && handled == old(handled) + [Event.AddClient(fd)]
    {
      serverMeeting.AddClient(fd);
      Handled(Event.AddClient(fd));
    }

    method DeleteClient(fd: int)
      requires Valid()
      modifies this, serverMeeting
      ensures Valid() && handled == old(handled) + [Event.DeleteClient(fd)]
    {
      serverMeeting.DeleteClient(fd);
      Handled(Event.DeleteClient(fd));
    }

    ghost method Handled(e: Event)
      requires sequences.Valid()
      requires var s := At(handled, |handled|);
               && State(sequences.calls, deviceMapData, serverMeeting.mapClient) == Step(s, e)
               && serverMeeting.sent == AllToMeeting(handled, |handled|) + Listed(ToMeeting(s, e))
               && responses == AllToDevices(handled, |handled|) + Listed(ToDevice(s, e))
      modifies this`handled
      ensures Valid() && handled == old(handled) + [e]
    {
      hide Step, ToMeeting, ToDevice, Listed;
      Prefix(handled, e, |handled|);
      handled := handled + [e];
    }
  }
}
