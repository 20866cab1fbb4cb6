/**
 * What a single packet goes through, whatever the run before it: which form
 * it is sent in, whether it can get lost, in which order packets that wait
 * are dispatched, and who learns which number.
 */
module ChannelDelivery {
  import opened ChannelSteps
  import opened ChannelNetwork
  import opened ChannelRuns
  import opened ChannelConservation

  // ----- sending

  /**
   * A packet for a numbered id is sent short, and safe exactly if that was
   * asked for; any other packet carries its id and is safe.
   */
  lemma SentForm(p: Protocol, id: Id, payload: Payload, safe: bool)
    requires !p.mode.IdleMode?
    ensures var (q, es) := Sent(p, id, payload, safe);
            if GetIdNum(p, id) != 0 then
              q == p && es == [Envelope(Message((1 + GetIdNum(p, id) * 16) % 0x1_0000, Raw(payload)), safe)]
            else
              && es == [Envelope(Message((2 + (if p.mode.HostMode? then GetIdNum(q, id) else 0) * 16) % 0x1_0000,
                                          Named(id, payload)), true)]
              && (p.mode.ClientMode? ==> q == p)
  {
  }

  /** Without a session nothing is sent, answered, dispatched or remembered. */
  lemma IdleIsSilent(p: Protocol, id: Id, payload: Payload, safe: bool, m: Message)
    requires p.mode.IdleMode? && WellFormed(m)
    ensures Sent(p, id, payload, safe) == (p, []) && Received(p, m) == Outcome(p, [], [])
  {
  }

  // ----- losing

  /** Each message is on its way once, the last one behind all others. */
  lemma LastRemoved(es: seq<Envelope>, e: Envelope)
    ensures RemoveAt(es + [e], |es|) == es && (es + [e])[|es|] == e
  {
  }

  /**
   * In every run, what the host sends next to a client can get lost exactly if
   * its id is numbered and safety was not asked for; and then it is just this
   * payload that is gone.
   */
  lemma HostPacketLost(es: seq<Event>, id: Id, payload: Payload, safe: bool, k: nat)
    requires k < |Run(Start(), es).clients|
    ensures var n := Run(Start(), es);
            var r, c := Next(n, HostSend(id, payload, safe)), n.clients[k];
            && |r.clients[k].down| == |c.down| + 1
            && (Possible(r, LoseDown(k, |c.down|)) <==> id in n.host.idToNum && !safe)
            && (Possible(r, LoseDown(k, |c.down|)) ==>
                  var c1 := Next(r, LoseDown(k, |c.down|)).clients[k];
                  c1.down == c.down && c1.gone == c.gone + multiset{payload})
  {
    hide Run, Sent, HostNumbers, Content;
    StartIsWell();
    RunKeepsNumbers(Start(), es);
    var n := Run(Start(), es);
    HostKnows(n.host, id);
    SentForm(n.host, id, payload, safe);
    var e := Sent(n.host, id, payload, safe).1[0];
    ShortCarries(GetIdNum(n.host, id), payload, safe);
    assert Sent(n.host, id, payload, safe).1 == [e];
    NextParsable(n, HostSend(id, payload, safe));
    LastRemoved(n.clients[k].down, e);
    hide Carried;
  }

  lemma HostKnows(h: Protocol, id: Id)
    requires HostNumbers(h)
    ensures h.mode.HostMode? && (GetIdNum(h, id) != 0 <==> id in h.idToNum)
  {
  }

  lemma ShortCarries(num: nat, payload: Payload, safe: bool)
    ensures Carried(Message((1 + num * 16) % 0x1_0000, Raw(payload))) == multiset{payload}
  {
    KeyRecovered(CHANNEL, num, Raw(payload));
  }

  /** The same upwards, where the client has to know the number. */
  lemma ClientPacketLost(es: seq<Event>, id: Id, payload: Payload, safe: bool, k: nat)
    requires k < |Run(Start(), es).clients|
    ensures var n := Run(Start(), es);
            var r, c := Next(n, ClientSend(k, id, payload, safe)), n.clients[k];
            && |r.clients[k].up| == |c.up| + 1
            && (Possible(r, LoseUp(k, |c.up|)) <==> GetIdNum(c.p, id) != 0 && !safe)
            && (Possible(r, LoseUp(k, |c.up|)) ==>
                  var c1 := Next(r, LoseUp(k, |c.up|)).clients[k];
                  c1.up == c.up && c1.goneUp == c.goneUp + multiset{payload})
  {
    hide Run, Sent, Content;
    StartIsWell();
    ClientsAreClients(Start(), es);
    var n := Run(Start(), es);
    var p := n.clients[k].p;
    SentForm(p, id, payload, safe);
    var e := Sent(p, id, payload, safe).1[0];
    ShortCarries(GetIdNum(p, id), payload, safe);
    assert Sent(p, id, payload, safe).1 == [e];
    NextParsable(n, ClientSend(k, id, payload, safe));
    LastRemoved(n.clients[k].up, e);
    hide Carried;
  }

  // ----- waiting

  lemma {:induction false} DispatchedInOrder(id: Id, payloads: seq<Payload>, i: nat)
    requires i < |payloads|
    ensures Dispatches(id, payloads)[i] == Dispatch(id, payloads[i])
  {
    if i > 0 {
      DispatchedInOrder(id, payloads[1..], i - 1);
    }
  }

  function ChannelPacket(num: nat, payload: Payload): Message {
    Message(Key(CHANNEL, num), Raw(payload))
  }

  lemma IsChannelPacket(num: nat, payload: Payload)
    requires num < NUMBERS
    ensures var m := ChannelPacket(num, payload); WellFormed(m) && Kind(m) == CHANNEL && Num(m) == num
  {
    KeyRecovered(CHANNEL, num, Raw(payload));
  }

  /** A client after receiving the payloads for a number one after the other. */
  function Fed(p: Protocol, num: nat, payloads: seq<Payload>): Protocol
    requires num < NUMBERS
    decreases |payloads|
  {
    if payloads == [] then p
    else
      IsChannelPacket(num, payloads[0]);
      Fed(Received(p, ChannelPacket(num, payloads[0])).p, num, payloads[1..])
  }

  lemma {:induction false} FedWait(p: Protocol, num: nat, payloads: seq<Payload>)
    requires num < NUMBERS && p.mode.ClientMode? && GetNumId(p, num) == ""
    ensures var q := Fed(p, num, payloads); q == p.(todo := q.todo) && Todo(q, num) == Todo(p, num) + payloads
    decreases |payloads|
  {
    if payloads != [] {
      var m := ChannelPacket(num, payloads[0]);
      IsChannelPacket(num, payloads[0]);
      var q := Received(p, m).p;
      assert q == p.(todo := p.todo[num := Todo(p, num) + [payloads[0]]]);
      FedWait(q, num, payloads[1..]);
      assert Todo(p, num) + payloads == Todo(p, num) + [payloads[0]] + payloads[1..];
    }
  }

  /** Packets for an unknown number are dispatched once it is told, in the order they came in. */
  lemma DispatchedAsTheyCame(p: Protocol, num: nat, id: Id, payloads: seq<Payload>, i: nat)
    requires num < NUMBERS && p.mode.ClientMode? && GetNumId(p, num) == "" && num !in p.todo && i < |payloads|
    ensures var m := Message(3 + 16 * num, Name(id));
            && WellFormed(m)
            && var o := Received(Fed(p, num, payloads), m);
               && |o.dispatched| == |payloads| && o.dispatched[i] == Dispatch(id, payloads[i])
               && num !in o.p.todo && o.replies == []
  {
    var m := Message(3 + 16 * num, Name(id));
    assert m.key / 16 == num && m.key % 16 == 3;
    FedWait(p, num, payloads);
    DispatchedInOrder(id, payloads, i);
    hide Fed, Dispatches;
    assert Todo(Fed(p, num, payloads), num) == payloads;
  }

  // ----- learning

  /** The message names the id; requests and replies count if `replies` says so. */
  predicate Names(e: Envelope, id: Id, replies: bool) {
    && e.safe
    && ((Kind(e.message) == ID_CHANNEL && e.message.body.Named? && e.message.body.id == id)
        || (replies && Kind(e.message) == ID_NUM && e.message.body.Name? && e.message.body.id == id))
  }

  ghost predicate SomeNames(es: seq<Envelope>, id: Id, replies: bool) {
    exists i :: 0 <= i < |es| && Names(es[i], id, replies)
  }

  /** The client knows the number of the id, or is being told. */
  ghost predicate Told(c: Client, id: Id) {
    id in c.p.idToNum || SomeNames(c.down, id, true)
  }

  /** Or a packet of the client is on its way that will have it told. */
  ghost predicate Asks(c: Client, id: Id) {
    Told(c, id) || SomeNames(c.up, id, false)
  }

  ghost predicate SentFor(c: Client, id: Id) {
    exists d: Dispatch :: d in c.sent && d.id == id
  }

  /** Client k learns the id if it has sent packets for it; and if `since` then because the host numbers it. */
  ghost predicate Informed(n: Network, k: nat, id: Id, since: bool) {
    && (since ==> k < |n.clients| && (id in n.host.idToNum ==> Told(n.clients[k], id)))
    && (k < |n.clients| && SentFor(n.clients[k], id) ==> Asks(n.clients[k], id))
  }

  lemma NamesMore(a: seq<Envelope>, b: seq<Envelope>, id: Id, replies: bool)
    requires SomeNames(a, id, replies) || SomeNames(b, id, replies)
    ensures SomeNames(a + b, id, replies)
  {
    if SomeNames(a, id, replies) {
      var i :| 0 <= i < |a| && Names(a[i], id, replies);
      assert (a + b)[i] == a[i];
    } else {
      var i :| 0 <= i < |b| && Names(b[i], id, replies);
      assert (a + b)[|a| + i] == b[i];
    }
  }

  lemma NamesLess(es: seq<Envelope>, i: nat, id: Id, replies: bool)
    requires i < |es| && SomeNames(es, id, replies)
    ensures SomeNames(RemoveAt(es, i), id, replies) || Names(es[i], id, replies)
  {
    var j :| 0 <= j < |es| && Names(es[j], id, replies);
    if j < i {
      assert RemoveAt(es, i)[j] == es[j];
    } else if j > i {
      assert RemoveAt(es, i)[j - 1] == es[j];
    }
  }

  /** A client keeps what it knows, and takes in what a message tells. */
  lemma ClientLearns(p: Protocol, e: Envelope, id: Id)
    requires p.mode.ClientMode? && WellFormed(e.message)
    ensures id in p.idToNum || Names(e, id, true) ==> id in Received(p, e.message).p.idToNum
  {
    hide Todo, Dispatches;
  }

  /** An id that the host numbers when sending is named to every client. */
  lemma HostSendTells(h: Protocol, id: Id, payload: Payload, safe: bool, other: Id)
    requires HostNumbers(h)
    ensures var (h1, es) := Sent(h, id, payload, safe);
            other in h1.idToNum && other !in h.idToNum ==> SomeNames(es, other, true)
  {
    if id !in h.idToNum {
      KeyRecovered(ID_CHANNEL, CreatedNum(h, id), Named(id, payload));
      assert Names(Sent(h, id, payload, safe).1[0], id, true);
    }
  }

  /** And so is one that it numbers on receiving a packet, or that a packet it receives names. */
  lemma HostTells(h: Protocol, e: Envelope, other: Id)
    requires h.mode.HostMode? && WellFormed(e.message)
    ensures var o := Received(h, e.message);
            (other in o.p.idToNum && other !in h.idToNum) || Names(e, other, false) ==>
              SomeNames(o.replies, other, true)
  {
    var m := e.message;
    if Kind(m) == ID_CHANNEL {
      KeyRecovered(ID_NUM, CreatedNum(h, m.body.id), Name(m.body.id));
      assert Names(Received(h, m).replies[0], m.body.id, true);
    }
  }

  /** A client that does not know the number sends the id. */
  lemma ClientSendAsks(p: Protocol, id: Id, payload: Payload, safe: bool)
    requires p.mode.ClientMode?
    ensures var (q, es) := Sent(p, id, payload, safe); q == p && (id in p.idToNum || SomeNames(es, id, false))
  {
    if id !in p.idToNum {
      KeyRecovered(ID_CHANNEL, 0, Named(id, payload));
      assert Names(Sent(p, id, payload, safe).1[0], id, false);
    }
  }

  lemma ToldMore(c: Client, es: seq<Envelope>, id: Id)
    ensures var c1 := c.(down := c.down + es);
            (Told(c, id) || SomeNames(es, id, true) ==> Told(c1, id)) && (Asks(c, id) ==> Asks(c1, id))
  {
    hide SomeNames;
    if SomeNames(c.down, id, true) || SomeNames(es, id, true) {
      NamesMore(c.down, es, id, true);
    }
  }

  lemma ToldStays(c: Client, i: nat, id: Id)
    requires i < |c.down| && c.p.mode.ClientMode? && WellFormed(c.down[i].message)
    ensures var c1 := TakenDown(c, i); (Told(c, id) ==> Told(c1, id)) && (Asks(c, id) ==> Asks(c1, id))
  {
    hide SomeNames, Names, Received, WellFormed;
    ClientLearns(c.p, c.down[i], id);
    if SomeNames(c.down, id, true) {
      NamesLess(c.down, i, id, true);
    }
    if SomeNames(c.up, id, false) {
      NamesMore(c.up, Received(c.p, c.down[i].message).replies, id, false);
    }
  }

  lemma DroppedStays(c: Client, i: nat, ids: map<nat, Id>, id: Id)
    ensures i < |c.down| && !c.down[i].safe ==>
              var c1 := DroppedDown(c, i, ids); (Told(c, id) ==> Told(c1, id)) && (Asks(c, id) ==> Asks(c1, id))
    ensures i < |c.up| && !c.up[i].safe ==>
              var c1 := DroppedUp(c, i, ids); (Told(c, id) ==> Told(c1, id)) && (Asks(c, id) ==> Asks(c1, id))
  {
    hide SomeNames;
    if i < |c.down| && SomeNames(c.down, id, true) {
      NamesLess(c.down, i, id, true);
    }
    if i < |c.up| && SomeNames(c.up, id, false) {
      NamesLess(c.up, i, id, false);
    }
  }

  lemma SendsAsks(c: Client, id: Id, payload: Payload, safe: bool, other: Id)
    requires c.p.mode.ClientMode? && (SentFor(c, other) ==> Asks(c, other))
    ensures var (q, es) := Sent(c.p, id, payload, safe);
            var c1 := AccountUp(c.(p := q, up := c.up + es), Dispatch(id, payload), safe);
            (Told(c, other) ==> Told(c1, other)) && (SentFor(c1, other) ==> Asks(c1, other))
  {
    hide SomeNames, Sent;
    var es := Sent(c.p, id, payload, safe).1;
    ClientSendAsks(c.p, id, payload, safe);
    if SomeNames(c.up, other, false) || SomeNames(es, other, false) {
      NamesMore(c.up, es, other, false);
    }
  }

  lemma InformedNext(n: Network, e: Event, k: nat, id: Id, since: bool)
    requires AllWellFormed(n) && HostNumbers(n.host) && Clients(n) && Informed(n, k, id, since)
    ensures Informed(Next(n, e), k, id, since)
  {
    hide *;
    if !Possible(n, e) {
      NothingHappens(n, e);
    } else {
      match e
      case HostSend(x, payload, safe) => InformedHostSend(n, x, payload, safe, k, id, since);
      case ClientSend(j, x, payload, safe) => InformedClientSend(n, j, x, payload, safe, k, id, since);
      case DeliverDown(j, i) => InformedDeliverDown(n, j, i, k, id, since);
      case DeliverUp(j, i) => InformedDeliverUp(n, j, i, k, id, since);
      case LoseDown(j, i) => InformedLose(n, j, i, k, id, since);
      case LoseUp(j, i) => InformedLose(n, j, i, k, id, since);
      case Join => InformedJoin(n, k, id, since);
    }
  }

  lemma NothingHappens(n: Network, e: Event)
    requires AllWellFormed(n) && !Possible(n, e)
    ensures Next(n, e) == n
  {
    hide Possible;
  }

  lemma InformedClientSend(n: Network, j: nat, x: Id, payload: Payload, safe: bool, k: nat, id: Id, since: bool)
    requires AllWellFormed(n) && Clients(n) && Informed(n, k, id, since) && Possible(n, ClientSend(j, x, payload, safe))
    ensures Informed(Next(n, ClientSend(j, x, payload, safe)), k, id, since)
  {
    hide Sent, Told, Asks, SentFor, AllWellFormed;
    if j == k {
      SendsAsks(n.clients[k], x, payload, safe, id);
    }
  }

  lemma InformedDeliverDown(n: Network, j: nat, i: nat, k: nat, id: Id, since: bool)
    requires AllWellFormed(n) && Clients(n) && Informed(n, k, id, since) && Possible(n, DeliverDown(j, i))
    ensures Informed(Next(n, DeliverDown(j, i)), k, id, since)
  {
    WellFormedDown(n, j, i);
    hide Told, Asks, SentFor, AllWellFormed, WellFormed, Received;
    if j == k {
      ToldStays(n.clients[k], i, id);
      SameSent(n.clients[k], TakenDown(n.clients[k], i), id);
    }
  }

  lemma InformedJoin(n: Network, k: nat, id: Id, since: bool)
    requires AllWellFormed(n) && Informed(n, k, id, since)
    ensures Informed(Next(n, Join), k, id, since)
  {
    hide Told, Asks, SentFor, AllWellFormed;
    NothingSent(id);
  }

  lemma InformedLose(n: Network, j: nat, i: nat, k: nat, id: Id, since: bool)
    requires AllWellFormed(n) && Informed(n, k, id, since)
    ensures Possible(n, LoseDown(j, i)) ==> Informed(Next(n, LoseDown(j, i)), k, id, since)
    ensures Possible(n, LoseUp(j, i)) ==> Informed(Next(n, LoseUp(j, i)), k, id, since)
  {
    hide Told, Asks, SentFor, WellFormed, Content, Carried;
    if j < |n.clients| {
      var c, ids := n.clients[j], n.host.numToId;
      DroppedStays(c, i, ids, id);
      if i < |c.down| {
        SameSent(c, DroppedDown(c, i, ids), id);
      }
      if i < |c.up| {
        SameSent(c, DroppedUp(c, i, ids), id);
      }
    }
  }

  lemma NothingSent(id: Id)
    ensures !SentFor(Joined(), id)
  {
  }

  lemma WellFormedDown(n: Network, k: nat, i: nat)
    requires AllWellFormed(n) && k < |n.clients| && i < |n.clients[k].down|
    ensures WellFormed(n.clients[k].down[i].message)
  {
  }

  lemma WellFormedUp(n: Network, k: nat, i: nat)
    requires AllWellFormed(n) && k < |n.clients| && i < |n.clients[k].up|
    ensures WellFormed(n.clients[k].up[i].message)
  {
  }

  lemma SameSent(c: Client, c1: Client, id: Id)
    requires c1.sent == c.sent
    ensures SentFor(c1, id) <==> SentFor(c, id)
  {
  }

  /** Only what a client holds of messages and numbers matters. */
  lemma SameTold(c: Client, c1: Client, id: Id)
    requires c1.p == c.p && c1.down == c.down && c1.up == c.up
    ensures (Told(c1, id) <==> Told(c, id)) && (Asks(c1, id) <==> Asks(c, id))
  {
    hide SomeNames;
  }

  lemma InformedHostSend(n: Network, x: Id, payload: Payload, safe: bool, k: nat, id: Id, since: bool)
    requires AllWellFormed(n) && HostNumbers(n.host) && Informed(n, k, id, since)
    ensures Informed(Next(n, HostSend(x, payload, safe)), k, id, since)
  {
    hide Sent, Told, Asks, SentFor, HostNumbers, AllWellFormed, SomeNames;
    if k >= |n.clients| {
      return;
    }
    var c, r := n.clients[k], Next(n, HostSend(x, payload, safe));
    var es := Sent(n.host, x, payload, safe).1;
    HostSendTells(n.host, x, payload, safe, id);
    ToldMore(c, es, id);
    SameTold(c.(down := c.down + es), r.clients[k], id);
    SameSent(c, r.clients[k], id);
  }

  lemma InformedDeliverUp(n: Network, j: nat, i: nat, k: nat, id: Id, since: bool)
    requires AllWellFormed(n) && HostNumbers(n.host) && Informed(n, k, id, since)
    requires Possible(n, DeliverUp(j, i))
    ensures Informed(Next(n, DeliverUp(j, i)), k, id, since)
  {
    WellFormedUp(n, j, i);
    HostIsHost(n.host);
    hide Told, Asks, SentFor, HostNumbers, AllWellFormed, SomeNames, Received, WellFormed, Names;
    if k >= |n.clients| {
      return;
    }
    var c, r, up := n.clients[k], Next(n, DeliverUp(j, i)), n.clients[j].up[i];
    var replies := Received(n.host, up.message).replies;
    HostTells(n.host, up, id);
    ToldMore(c, replies, id);
    var c1 := c.(down := c.down + replies);
    SameSent(c, r.clients[k], id);
    if j == k {
      if SomeNames(replies, id, true) {
        NamesMore(c.down, replies, id, true);
      }
      TakenUpAsks(c1, i, Received(n.host, up.message), id);
      assert r.clients[k] == TakenUp(c1, i, Received(n.host, up.message));
    } else {
      SameTold(c1, r.clients[k], id);
    }
  }

  lemma HostIsHost(h: Protocol)
    requires HostNumbers(h)
    ensures h.mode.HostMode?
  {
  }

  lemma TakenUpAsks(c: Client, i: nat, o: Outcome, id: Id)
    requires i < |c.up| && (Names(c.up[i], id, false) ==> SomeNames(c.down, id, true))
    ensures var c1 := TakenUp(c, i, o); (Told(c, id) ==> Told(c1, id)) && (Asks(c, id) ==> Asks(c1, id))
  {
    hide SomeNames, Names;
    if SomeNames(c.up, id, false) {
      NamesLess(c.up, i, id, false);
    }
  }

  lemma {:induction false} InformedRun(n: Network, es: seq<Event>, k: nat, id: Id, since: bool)
    requires AllWellFormed(n) && HostNumbers(n.host) && Clients(n) && Informed(n, k, id, since)
    ensures Informed(Run(n, es), k, id, since)
    decreases |es|
  {
    hide AllWellFormed, HostNumbers, Clients, Informed, Next;
    if es != [] {
      NextParsable(n, es[0]);
      NextKeepsNumbers(n, es[0]);
      OneStepClients(n, es[0]);
      InformedNext(n, es[0], k, id, since);
      InformedRun(Next(n, es[0]), es[1..], k, id, since);
    }
  }

  /** What a client knows is what the host has, up to the limit. */
  ghost predicate Knows(n: Network, k: nat, id: Id)
    requires k < |n.clients|
  {
    var p := n.clients[k].p;
    && id in p.idToNum
    && (|n.host.idToNum| <= MAX_IDS ==>
          var num := p.idToNum[id];
          id in n.host.idToNum && n.host.idToNum[id] == num && GetIdNum(p, id) == num != 0 && GetNumId(p, num) == id)
  }

  lemma KnowsRight(es: seq<Event>, k: nat, id: Id)
    requires k < |Run(Start(), es).clients| && id in Run(Start(), es).clients[k].p.idToNum
    ensures Knows(Run(Start(), es), k, id)
  {
    hide Run;
    StartIsWell();
    var n := Run(Start(), es);
    if |n.host.idToNum| <= MAX_IDS {
      Reachable(es);
      assert ClientWell(n.clients[k], n.host);
      NumberGiven(n.host, id);
    }
  }

  /** Every run: an id numbered while a client is there is known to it once nothing is on the way to it. */
  lemma EverybodyLearns(es: seq<Event>, more: seq<Event>, k: nat, id: Id)
    requires k < |Run(Start(), es).clients| && id !in Run(Start(), es).host.idToNum
    ensures var n := Run(Start(), es + more);
            && k < |n.clients|
            && (id in n.host.idToNum && n.clients[k].down == [] ==> Knows(n, k, id))
  {
    hide Run, HostNumbers, Clients, AllWellFormed, Knows;
    StartIsWell();
    var n := Run(Start(), es);
    StartsInformed(k, id);
    InformedRun(Start(), es, k, id, false);
    RunKeepsNumbers(Start(), es);
    ClientsAreClients(Start(), es);
    assert Informed(n, k, id, true);
    InformedRun(n, more, k, id, true);
    RunAppend(Start(), es, more);
    var r := Run(Start(), es + more);
    if id in r.host.idToNum && r.clients[k].down == [] {
      KnowsRight(es + more, k, id);
    }
  }

  lemma StartsInformed(k: nat, id: Id)
    ensures HostNumbers(Start().host) && Clients(Start()) && Informed(Start(), k, id, false)
  {
  }

  /** Every run: a client knows the number of each id it has sent for, once all that has arrived. */
  lemma SenderLearns(es: seq<Event>, k: nat, d: Dispatch)
    requires k < |Run(Start(), es).clients|
    ensures var n := Run(Start(), es);
            var c := n.clients[k];
            d in c.sent && c.down == [] && c.up == [] ==> Knows(n, k, d.id)
  {
    hide Run, HostNumbers, Clients, AllWellFormed, Knows;
    StartIsWell();
    StartsInformed(k, d.id);
    InformedRun(Start(), es, k, d.id, false);
    var n := Run(Start(), es);
    if d in n.clients[k].sent && n.clients[k].down == [] && n.clients[k].up == [] {
      assert SentFor(n.clients[k], d.id);
      KnowsRight(es, k, d.id);
    }
  }

  // ----- from sender to channel

  /** The packets that the host sends in a run; all of them, or the unsafe ones. */
  function SentDown(es: seq<Event>, all: bool): multiset<Dispatch> {
    if es == [] then multiset{} else OneDown(es[0], all) + SentDown(es[1..], all)
  }

  function OneDown(e: Event, all: bool): multiset<Dispatch> {
    match e
    case HostSend(id, payload, safe) => if all || !safe then multiset{Dispatch(id, payload)} else multiset{}
    case _ => multiset{}
  }

  function SentUp(es: seq<Event>, k: nat, all: bool): multiset<Dispatch> {
    if es == [] then multiset{} else OneUp(es[0], k, all) + SentUp(es[1..], k, all)
  }

  function OneUp(e: Event, k: nat, all: bool): multiset<Dispatch> {
    match e
    case ClientSend(j, id, payload, safe) =>
      if j == k && (all || !safe) then multiset{Dispatch(id, payload)} else multiset{}
    case _ => multiset{}
  }

  /** The accounts of a client, with more that was sent to it and by it. */
  ghost predicate Grown(c: Client, r: Client, down: multiset<Dispatch>, downRisk: multiset<Dispatch>,
                        up: multiset<Dispatch>, upRisk: multiset<Dispatch>) {
    && r.expected == c.expected + down && r.risked == c.risked + downRisk
    && r.sent == c.sent + up && r.riskedUp == c.riskedUp + upRisk
  }

  lemma NotGrown(c: Client, r: Client)
    requires r.expected == c.expected && r.risked == c.risked && r.sent == c.sent && r.riskedUp == c.riskedUp
    ensures Grown(c, r, multiset{}, multiset{}, multiset{}, multiset{})
  {
  }

  lemma AccountsNext(n: Network, e: Event, k: nat)
    requires AllWellFormed(n) && k < |n.clients|
    ensures k < |Next(n, e).clients|
    ensures Grown(n.clients[k], Next(n, e).clients[k], OneDown(e, true), OneDown(e, false),
                  OneUp(e, k, true), OneUp(e, k, false))
  {
    hide *;
    match e
    case HostSend(id, payload, safe) => HostSendGrows(n, id, payload, safe, k);
    case ClientSend(j, id, payload, safe) => ClientSendGrows(n, j, id, payload, safe, k);
    case _ => OthersGrowNothing(n, e, k);
  }

  lemma HostSendGrows(n: Network, id: Id, payload: Payload, safe: bool, k: nat)
    requires AllWellFormed(n) && k < |n.clients|
    ensures var e := HostSend(id, payload, safe);
            && k < |Next(n, e).clients|
            && Grown(n.clients[k], Next(n, e).clients[k], OneDown(e, true), OneDown(e, false),
                     OneUp(e, k, true), OneUp(e, k, false))
  {
    hide Sent, AllWellFormed;
  }

  lemma ClientSendGrows(n: Network, j: nat, id: Id, payload: Payload, safe: bool, k: nat)
    requires AllWellFormed(n) && k < |n.clients|
    ensures var e := ClientSend(j, id, payload, safe);
            && k < |Next(n, e).clients|
            && Grown(n.clients[k], Next(n, e).clients[k], OneDown(e, true), OneDown(e, false),
                     OneUp(e, k, true), OneUp(e, k, false))
  {
    hide Sent, AllWellFormed, Grown;
    var r := Next(n, ClientSend(j, id, payload, safe));
    if j == k {
      var (p, es) := Sent(n.clients[k].p, id, payload, safe);
      ItsAccountGrows(n.clients[k].(p := p, up := n.clients[k].up + es), n.clients[k], Dispatch(id, payload), safe);
    } else {
      NotGrown(n.clients[k], r.clients[k]);
    }
  }

  lemma ItsAccountGrows(c: Client, b: Client, d: Dispatch, safe: bool)
    requires c == b.(p := c.p, up := c.up)
    ensures Grown(b, AccountUp(c, d, safe), multiset{}, multiset{},
                  multiset{d}, if safe then multiset{} else multiset{d})
  {
  }

  lemma OthersGrowNothing(n: Network, e: Event, k: nat)
    requires AllWellFormed(n) && k < |n.clients| && !e.HostSend? && !e.ClientSend?
    ensures k < |Next(n, e).clients|
    ensures Grown(n.clients[k], Next(n, e).clients[k], OneDown(e, true), OneDown(e, false),
                  OneUp(e, k, true), OneUp(e, k, false))
  {
    hide Received, WellFormed, Content, Carried, Grown;
    NotGrown(n.clients[k], Next(n, e).clients[k]);
  }

  lemma GrownTwice(c: Client, b: Client, r: Client, d: multiset<Dispatch>, d1: multiset<Dispatch>,
                   u: multiset<Dispatch>, u1: multiset<Dispatch>, e: multiset<Dispatch>, e1: multiset<Dispatch>,
                   v: multiset<Dispatch>, v1: multiset<Dispatch>)
    requires Grown(c, b, d, d1, u, u1) && Grown(b, r, e, e1, v, v1)
    ensures Grown(c, r, d + e, d1 + e1, u + v, u1 + v1)
  {
  }

  /** What is accounted for as sent is what the events of the run send. */
  lemma {:induction false} AccountsAreRight(n: Network, es: seq<Event>, k: nat)
    requires AllWellFormed(n) && k < |n.clients|
    ensures k < |Run(n, es).clients|
    ensures Grown(n.clients[k], Run(n, es).clients[k], SentDown(es, true), SentDown(es, false),
                  SentUp(es, k, true), SentUp(es, k, false))
    decreases |es|
  {
    hide AllWellFormed, Next, Grown, OneDown, OneUp;
    if es == [] {
      NotGrown(n.clients[k], n.clients[k]);
    } else {
      var e, more, b := es[0], es[1..], Next(n, es[0]);
      NextParsable(n, e);
      AccountsNext(n, e, k);
      AccountsAreRight(b, more, k);
      GrownTwice(n.clients[k], b.clients[k], Run(b, more).clients[k], OneDown(e, true), OneDown(e, false),
                 OneUp(e, k, true), OneUp(e, k, false), SentDown(more, true), SentDown(more, false),
                 SentUp(more, k, true), SentUp(more, k, false));
    }
  }

  /**
   * From sender to channel: once nothing is under way, a client has dispatched
   * exactly the packets that the host sent since it joined, each under its id
   * and as often as it was sent, less some of the unsafe ones; and the host
   * those of the client.
   */
  lemma DispatchedIsSent(es: seq<Event>, more: seq<Event>)
    ensures var k, n := |Run(Start(), es).clients|, Run(Start(), es + [Join] + more);
            && k < |n.clients|
            && var c := n.clients[k];
               |n.host.idToNum| <= MAX_IDS && c.down == [] && c.up == [] ==>
                 && c.lost <= SentDown(more, false) && c.dispatched + c.lost == SentDown(more, true)
                 && c.lostUp <= SentUp(more, k, false) && c.arrived + c.lostUp == SentUp(more, k, true)
  {
    hide Run, Next, Balanced, Conserved, AllWellFormed, AllSendable, SentDown, SentUp;
    StartIsWell();
    var m := Run(Start(), es);
    var k := |m.clients|;
    NextParsable(m, Join);
    RunAppend(Start(), es, [Join]);
    RunOne(m, Join);
    RunAppend(Start(), es + [Join], more);
    NewClient(m);
    AccountsAreRight(Next(m, Join), more, k);
    var n := Run(Start(), es + [Join] + more);
    var c := n.clients[k];
    if |n.host.idToNum| <= MAX_IDS && c.down == [] && c.up == [] {
      ReachableSound(es + [Join] + more, k);
      NothingWaits(c);
      forall d: Dispatch
        ensures c.lost[d] <= c.risked[d] && c.dispatched[d] + c.lost[d] == c.expected[d]
        ensures c.lostUp[d] <= c.riskedUp[d] && c.arrived[d] + c.lostUp[d] == c.sent[d]
      {
        NothingAstray(es + [Join] + more, k, d);
        NothingLeft(c, n.host, d);
      }
    }
  }

  lemma NewClient(n: Network)
    requires AllWellFormed(n)
    ensures var r := Next(n, Join);
            && |r.clients| == |n.clients| + 1
            && var c := r.clients[|n.clients|];
               c.expected == c.risked == c.sent == c.riskedUp == multiset{}
  {
  }

  lemma NothingLeft(c: Client, h: Protocol, d: Dispatch)
    requires Conserved(c, h, d) && c.down == [] && c.up == [] && c.p.todo == map[]
    ensures c.lost[d] <= c.risked[d] && c.dispatched[d] + c.lost[d] == c.expected[d]
    ensures c.lostUp[d] <= c.riskedUp[d] && c.arrived[d] + c.lostUp[d] == c.sent[d]
  {
  }
}
