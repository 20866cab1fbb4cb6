/** Whole runs of the channel protocol: what holds after any of them. */
module ChannelRuns {
  import opened ChannelSteps
  import opened ChannelNetwork

  function Start(): Network {
    Network(Started(HostMode), [])
  }

  // ----- messages remain parsable, however many ids there are

  lemma SentParsable(p: Protocol, id: Id, payload: Payload, safe: bool)
    ensures |Sent(p, id, payload, safe).1| <= 1
    ensures AllParse(Sent(p, id, payload, safe).1)
  {
    KeyRecovered(CHANNEL, GetIdNum(p, id), Raw(payload));
    KeyRecovered(ID_CHANNEL, CreatedNum(p, id), Named(id, payload));
    KeyRecovered(ID_CHANNEL, 0, Named(id, payload));
  }

  lemma RepliesParsable(p: Protocol, m: Message)
    requires WellFormed(m)
    ensures |Received(p, m).replies| <= 1 && AllParse(Received(p, m).replies)
    ensures |Received(p, m).replies| == 1 ==>
              WellFormed(Received(p, m).replies[0].message) && Kind(Received(p, m).replies[0].message) == ID_NUM
  {
    KeyRecovered(ID_NUM, Num(m), Name(GetNumId(p, Num(m))));
    KeyRecovered(ID_NUM, Num(m), Name(""));
    if Kind(m) == ID_CHANNEL {
      KeyRecovered(ID_NUM, CreatedNum(p, m.body.id), Name(m.body.id));
    }
  }

  lemma AppendParsable(a: seq<Envelope>, b: seq<Envelope>)
    requires AllParse(a) && AllParse(b)
    ensures AllParse(a + b)
  {
  }

  lemma RemoveParsable(es: seq<Envelope>, i: nat)
    requires AllParse(es) && i < |es|
    ensures AllParse(RemoveAt(es, i))
  {
  }

  lemma NextParsable(n: Network, e: Event)
    requires AllWellFormed(n)
    ensures AllWellFormed(Next(n, e))
  {
    hide Sent, Received, WellFormed, Content, AllParse, RemoveAt;
    var r := Next(n, e);
    if Possible(n, e) {
      match e
      case HostSend(id, payload, safe) =>
        SentParsable(n.host, id, payload, safe);
        BroadcastParsable(n.clients, Sent(n.host, id, payload, safe).1);
      case ClientSend(k, id, payload, safe) =>
        SentParsable(n.clients[k].p, id, payload, safe);
        AppendParsable(n.clients[k].up, Sent(n.clients[k].p, id, payload, safe).1);
      case DeliverDown(k, i) =>
        var c := n.clients[k];
        ItParses(c.down, i);
        RepliesParsable(c.p, c.down[i].message);
        RemoveParsable(c.down, i);
        AppendParsable(c.up, Received(c.p, c.down[i].message).replies);
      case DeliverUp(k, i) =>
        var c := n.clients[k];
        ItParses(c.up, i);
        RepliesParsable(n.host, c.up[i].message);
        RemoveParsable(c.up, i);
        BroadcastParsable(n.clients, Received(n.host, c.up[i].message).replies);
      case LoseDown(k, i) => RemoveParsable(n.clients[k].down, i);
      case LoseUp(k, i) => RemoveParsable(n.clients[k].up, i);
      case Join => FullSendParsable();
    }
  }

  lemma ItParses(es: seq<Envelope>, i: nat)
    requires AllParse(es) && i < |es|
    ensures WellFormed(es[i].message)
  {
  }

  lemma BroadcastParsable(clients: seq<Client>, es: seq<Envelope>)
    requires AllParse(es) && forall k :: 0 <= k < |clients| ==> AllParse(clients[k].down)
    ensures forall k :: 0 <= k < |clients| ==> AllParse(clients[k].down + es)
  {
    forall k | 0 <= k < |clients|
      ensures AllParse(clients[k].down + es)
    {
      AppendParsable(clients[k].down, es);
    }
  }

  lemma FullSendParsable()
    ensures Parsable(Joined())
  {
    KeyRecovered(FULL_SEND, 0, Empty);
  }

  function Run(n: Network, es: seq<Event>): (r: Network)
    requires AllWellFormed(n)
    ensures AllWellFormed(r)
    decreases |es|
  {
    if es == [] then n
    else
      NextParsable(n, es[0]);
      Run(Next(n, es[0]), es[1..])
  }

  lemma {:induction false} RunAppend(n: Network, a: seq<Event>, b: seq<Event>)
    requires AllWellFormed(n)
    ensures Run(n, a + b) == Run(Run(n, a), b)
    decreases |a|
  {
    hide Next, AllWellFormed;
    if a == [] {
      assert a + b == b;
    } else {
      NextParsable(n, a[0]);
      assert (a + b)[1..] == a[1..] + b;
      RunAppend(Next(n, a[0]), a[1..], b);
    }
  }

  lemma RunOne(n: Network, e: Event)
    requires AllWellFormed(n)
    ensures Run(n, [e]) == Next(n, e)
  {
    hide Next, AllWellFormed;
    NextParsable(n, e);
    assert [e][1..] == [];
  }

  // ----- what every run keeps

  /** The host never forgets a number. */
  lemma Grows(n: Network, e: Event)
    requires AllWellFormed(n)
    ensures |n.host.idToNum| <= |Next(n, e).host.idToNum|
  {
    hide Content, Sent, Received, WellFormed;
    match e
    case HostSend(id, payload, safe) => SendingStays(n.host, id, payload, safe);
    case DeliverUp(k, i) =>
      if Possible(n, e) {
        ReceivingStays(n.host, n.clients[k].up[i].message);
      }
    case _ =>
  }

  lemma SendingStays(p: Protocol, id: Id, payload: Payload, safe: bool)
    ensures var p1 := Sent(p, id, payload, safe).0; p1.mode == p.mode && |p.idToNum| <= |p1.idToNum|
  {
  }

  lemma ReceivingStays(p: Protocol, m: Message)
    requires WellFormed(m)
    ensures var p1 := Received(p, m).p; p1.mode == p.mode && |p.idToNum| <= |p1.idToNum|
  {
    hide Todo, Dispatches, SetIdNum, CreatedNum, Kind, Num, Key;
    if m.body.Named? || m.body.Name? {
      SettingGrows(p, m.body.id, Num(m));
      SettingGrows(p, m.body.id, CreatedNum(p, m.body.id));
    }
  }

  lemma SettingGrows(p: Protocol, id: Id, num: nat)
    ensures var q := SetIdNum(p, id, num); q.mode == p.mode && |p.idToNum| <= |q.idToNum|
  {
  }

  lemma {:induction false} RunGrows(n: Network, es: seq<Event>)
    requires AllWellFormed(n)
    ensures |n.host.idToNum| <= |Run(n, es).host.idToNum|
    decreases |es|
  {
    hide Next, AllWellFormed;
    if es != [] {
      NextParsable(n, es[0]);
      Grows(n, es[0]);
      RunGrows(Next(n, es[0]), es[1..]);
    }
  }

  lemma {:induction false} RunKeeps(n: Network, es: seq<Event>)
    requires Inv(n) && AllWellFormed(n) && |Run(n, es).host.idToNum| <= MAX_IDS
    ensures Inv(Run(n, es))
    decreases |es|
  {
    hide Next, AllWellFormed, Inv;
    if es != [] {
      NextParsable(n, es[0]);
      RunGrows(Next(n, es[0]), es[1..]);
      StepKeeps(n, es[0]);
      RunKeeps(Next(n, es[0]), es[1..]);
    }
  }

  lemma StartIsWell()
    ensures AllWellFormed(Start()) && Inv(Start())
  {
  }

  lemma Reachable(es: seq<Event>)
    requires |Run(Start(), es).host.idToNum| <= MAX_IDS
    ensures Inv(Run(Start(), es))
  {
    StartIsWell();
    RunKeeps(Start(), es);
  }

  /** The host's numbers are exactly 16, 17 and so on, one per id, however many there are. */
  lemma HostNumbersAgree(es: seq<Event>)
    ensures var h := Run(Start(), es).host;
            && h.mode.HostMode?
            && (forall num :: num in h.numToId <==> 16 <= num < 16 + |h.idToNum|)
            && (forall id, num ::
               (id in h.idToNum && h.idToNum[id] == num) <==> (num in h.numToId && h.numToId[num] == id))
  {
    hide Run;
    StartIsWell();
    RunKeepsNumbers(Start(), es);
  }

  lemma {:induction false} RunKeepsNumbers(n: Network, es: seq<Event>)
    requires AllWellFormed(n) && HostNumbers(n.host)
    ensures HostNumbers(Run(n, es).host)
    decreases |es|
  {
    hide Next, AllWellFormed, HostNumbers;
    if es != [] {
      NextParsable(n, es[0]);
      NextKeepsNumbers(n, es[0]);
      RunKeepsNumbers(Next(n, es[0]), es[1..]);
    }
  }

  lemma NextKeepsNumbers(n: Network, e: Event)
    requires AllWellFormed(n) && HostNumbers(n.host)
    ensures HostNumbers(Next(n, e).host)
  {
    hide Content, WellFormed, HostNumbers, CreateIdNum, Received;
    match e
    case HostSend(id, payload, safe) => CreatingKeepsNumbers(n.host, id);
    case DeliverUp(k, i) =>
      if Possible(n, e) {
        var m := n.clients[k].up[i].message;
        ItParses(n.clients[k].up, i);
        CreatingKeepsNumbers(n.host, if Kind(m) == ID_CHANNEL then IdIn(m.body) else "");
        HostTables(n.host, m);
      }
    case _ =>
  }

  function IdIn(body: Body): Id {
    if body.Named? then body.id else ""
  }

  lemma HostTables(h: Protocol, m: Message)
    requires h.mode.HostMode? && WellFormed(m)
    ensures Received(h, m).p == if Kind(m) == ID_CHANNEL then CreateIdNum(h, IdIn(m.body)) else h
  {
  }

  lemma CreatingKeepsNumbers(h: Protocol, id: Id)
    requires HostNumbers(h)
    ensures h.mode.HostMode? && HostNumbers(CreateIdNum(h, id))
  {
    if id !in h.idToNum {
      assert |CreateIdNum(h, id).idToNum| == |h.idToNum| + 1;
    }
  }

  /** Every client's tables are part of the host's. */
  lemma ClientNumbersAgree(es: seq<Event>, k: nat)
    requires var n := Run(Start(), es); |n.host.idToNum| <= MAX_IDS && k < |n.clients|
    ensures var n := Run(Start(), es);
            var p, h := n.clients[k].p, n.host;
            && (forall id :: id in p.idToNum ==> id in h.idToNum && h.idToNum[id] == p.idToNum[id])
            && (forall num :: num in p.numToId ==> num in h.numToId && h.numToId[num] == p.numToId[num])
  {
    hide Run;
    Reachable(es);
    var n := Run(Start(), es);
    assert ClientWell(n.clients[k], n.host);
  }

  // ----- everything can arrive

  function DownWeight(es: seq<Envelope>): nat {
    if es == [] then 0 else (if Kind(es[0].message) == CHANNEL then 3 else 1) + DownWeight(es[1..])
  }

  lemma {:induction false} DownWeightAppend(a: seq<Envelope>, b: seq<Envelope>)
    ensures DownWeight(a + b) == DownWeight(a) + DownWeight(b)
  {
    if a == [] {
      assert a + b == b;
    } else {
      assert (a + b)[1..] == a[1..] + b;
      DownWeightAppend(a[1..], b);
    }
  }

  lemma ReplyWeight(es: seq<Envelope>)
    requires |es| <= 1 && (|es| == 1 ==> Kind(es[0].message) != CHANNEL)
    ensures DownWeight(es) <= 1
  {
    assert |es| == 1 ==> es[1..] == [];
  }

  /** Only deliveries to and from client k. */
  predicate DeliveriesOf(es: seq<Event>, k: nat) {
    forall e :: e in es ==> (e.DeliverDown? || e.DeliverUp?) && e.client == k
  }

  /** Delivering all that is under way, and what that leads to, comes to an end. */
  lemma {:induction false} Drain(n: Network, k: nat) returns (es: seq<Event>)
    requires AllWellFormed(n) && k < |n.clients| && n.clients[k].p.mode.ClientMode?
    ensures var r := Run(n, es);
            && DeliveriesOf(es, k) && |r.clients| == |n.clients|
            && r.clients[k].down == [] && r.clients[k].up == [] && r.clients[k].expected == n.clients[k].expected
            && r.clients[k].lost == n.clients[k].lost && r.clients[k].gone == n.clients[k].gone
            && r.clients[k].sent == n.clients[k].sent
            && r.clients[k].lostUp == n.clients[k].lostUp && r.clients[k].goneUp == n.clients[k].goneUp
    decreases DownWeight(n.clients[k].down) + 2 * |n.clients[k].up|
  {
    hide DownWeight, WellFormed, Content, AllWellFormed, Todo;
    WellFormedClient(n, k);
    var c := n.clients[k];
    if c.up == [] && c.down == [] {
      return [];
    }
    var e := if c.up != [] then DeliverUp(k, 0) else DeliverDown(k, 0);
    NextParsable(n, e);
    if c.up != [] {
      RepliesParsable(n.host, c.up[0].message);
      var replies := Received(n.host, c.up[0].message).replies;
      DownWeightAppend(c.down, replies);
      ReplyWeight(replies);
    } else {
      FirstTaken(c);
    }
    var rest := Drain(Next(n, e), k);
    es := [e] + rest;
    assert es[1..] == rest;
  }

  lemma WellFormedClient(n: Network, k: nat)
    requires AllWellFormed(n) && k < |n.clients|
    ensures n.clients[k].up != [] ==> WellFormed(n.clients[k].up[0].message)
    ensures n.clients[k].down != [] ==> WellFormed(n.clients[k].down[0].message)
  {
  }

  lemma FirstTaken(c: Client)
    requires c.down != [] && WellFormed(c.down[0].message) && c.p.mode.ClientMode?
    ensures DownWeight(RemoveAt(c.down, 0)) + 2 * |Received(c.p, c.down[0].message).replies| < DownWeight(c.down)
  {
    assert RemoveAt(c.down, 0) == c.down[1..];
  }

  ghost predicate Clients(n: Network) {
    forall k :: 0 <= k < |n.clients| ==> n.clients[k].p.mode.ClientMode?
  }

  lemma {:induction false} ClientsAreClients(n: Network, es: seq<Event>)
    requires AllWellFormed(n) && Clients(n)
    ensures Clients(Run(n, es))
    decreases |es|
  {
    hide AllWellFormed;
    if es != [] {
      NextParsable(n, es[0]);
      OneStepClients(n, es[0]);
      ClientsAreClients(Next(n, es[0]), es[1..]);
    }
  }

  lemma OneStepClients(n: Network, e: Event)
    requires AllWellFormed(n) && Clients(n)
    ensures Clients(Next(n, e))
  {
    hide Content, Sent, Received, WellFormed;
    match e
    case ClientSend(k, id, payload, safe) =>
      if k < |n.clients| {
        SendingStays(n.clients[k].p, id, payload, safe);
      }
    case DeliverDown(k, i) =>
      if Possible(n, e) {
        ReceivingStays(n.clients[k].p, n.clients[k].down[i].message);
      }
    case _ =>
  }
}
