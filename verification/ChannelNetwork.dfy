/**
 * The host and its clients over a network that may deliver messages in any
 * order and lose unsafe ones.  While the host has numbered at most 4080 ids,
 * numbers mean the same everywhere and no packet goes astray.
 */
module ChannelNetwork {
  import opened ChannelSteps

  /** Numbers from 16 that fit into the twelve bits of a key. */
  const MAX_IDS := 4080

  /**
   * A client, what is under way to it and from it, and for the accounts: what
   * the host sent since the client joined (`expected`) and how much of it as
   * unsafe (`risked`), what the client dispatched and what got lost (`gone`
   * holds the payloads, `lost` those that stood for an id); and the same for
   * what the client sent.
   */
  datatype Client = Client(
    p: Protocol, down: seq<Envelope>, up: seq<Envelope>,
    expected: multiset<Dispatch>, risked: multiset<Dispatch>, dispatched: multiset<Dispatch>, lost: multiset<Dispatch>,
    gone: multiset<Payload>,
    sent: multiset<Dispatch>, riskedUp: multiset<Dispatch>, arrived: multiset<Dispatch>, lostUp: multiset<Dispatch>,
    goneUp: multiset<Payload>)

  datatype Network = Network(host: Protocol, clients: seq<Client>)

  datatype Event =
    | HostSend(id: Id, payload: Payload, safe: bool)
    | ClientSend(client: nat, id: Id, payload: Payload, safe: bool)
    | DeliverDown(client: nat, at: nat)
    | DeliverUp(client: nat, at: nat)
    | LoseDown(client: nat, at: nat)
    | LoseUp(client: nat, at: nat)
    | Join

  // ----- steps

  function RemoveAt(s: seq<Envelope>, i: nat): (r: seq<Envelope>)
    requires i < |s|
    ensures |r| == |s| - 1
  {
    s[..i] + s[i + 1..]
  }

  function Joined(): Client {
    Client(Started(ClientMode), [], [Envelope(Message(Key(FULL_SEND, 0), Empty), true)],
           multiset{}, multiset{}, multiset{}, multiset{}, multiset{},
           multiset{}, multiset{}, multiset{}, multiset{}, multiset{})
  }

  /** The messages reach the network of every client. */
  function Broadcast(clients: seq<Client>, es: seq<Envelope>): (r: seq<Client>)
    ensures |r| == |clients| && forall k :: 0 <= k < |r| ==> r[k] == clients[k].(down := clients[k].down + es)
  {
    seq(|clients|, k requires 0 <= k < |clients| => clients[k].(down := clients[k].down + es))
  }

  function Accounted(clients: seq<Client>, d: Dispatch, safe: bool): (r: seq<Client>)
    ensures |r| == |clients|
    ensures forall k :: 0 <= k < |r| ==> r[k] == Account(clients[k], d, safe)
  {
    seq(|clients|, k requires 0 <= k < |clients| => Account(clients[k], d, safe))
  }

  function Account(c: Client, d: Dispatch, safe: bool): Client {
    c.(expected := c.expected + multiset{d}, risked := if safe then c.risked else c.risked + multiset{d})
  }

  function AccountUp(c: Client, d: Dispatch, safe: bool): Client {
    c.(sent := c.sent + multiset{d}, riskedUp := if safe then c.riskedUp else c.riskedUp + multiset{d})
  }

  /** What a message stands for: a payload for an id, or nothing. */
  function Content(m: Message, ids: map<nat, Id>): multiset<Dispatch> {
    if Kind(m) == ID_CHANNEL && m.body.Named? then multiset{Dispatch(m.body.id, m.body.payload)}
    else if Kind(m) == CHANNEL && Num(m) in ids && m.body.Raw? then multiset{Dispatch(ids[Num(m)], m.body.payload)}
    else multiset{}
  }

  /** The payload of a message, whatever id it is for. */
  function Carried(m: Message): multiset<Payload> {
    if (Kind(m) == ID_CHANNEL && m.body.Named?) || (Kind(m) == CHANNEL && m.body.Raw?) then multiset{m.body.payload}
    else multiset{}
  }

  predicate Possible(n: Network, e: Event) {
    match e
    case HostSend(_, _, _) => true
    case ClientSend(k, _, _, _) => k < |n.clients|
    case DeliverDown(k, i) => k < |n.clients| && i < |n.clients[k].down|
    case DeliverUp(k, i) => k < |n.clients| && i < |n.clients[k].up|
    case LoseDown(k, i) => k < |n.clients| && i < |n.clients[k].down| && !n.clients[k].down[i].safe
    case LoseUp(k, i) => k < |n.clients| && i < |n.clients[k].up| && !n.clients[k].up[i].safe
    case Join => true
  }

  predicate AllWellFormed(n: Network) {
    forall k :: 0 <= k < |n.clients| ==> Parsable(n.clients[k])
  }

  predicate Parsable(c: Client) {
    AllParse(c.down) && AllParse(c.up)
  }

  predicate AllParse(es: seq<Envelope>) {
    forall i :: 0 <= i < |es| ==> WellFormed(es[i].message)
  }

  function Next(n: Network, e: Event): Network
    requires AllWellFormed(n)
  {
    if !Possible(n, e) then n
    else
      match e
      case HostSend(id, payload, safe) =>
        var (host, es) := Sent(n.host, id, payload, safe);
        Network(host, Accounted(Broadcast(n.clients, es), Dispatch(id, payload), safe))
      case ClientSend(k, id, payload, safe) =>
        var c := n.clients[k];
        var (p, es) := Sent(c.p, id, payload, safe);
        n.(clients := n.clients[k := AccountUp(c.(p := p, up := c.up + es), Dispatch(id, payload), safe)])
      case DeliverDown(k, i) => n.(clients := n.clients[k := TakenDown(n.clients[k], i)])
      case DeliverUp(k, i) =>
        var o := Received(n.host, n.clients[k].up[i].message);
        Network(o.p, Broadcast(n.clients[k := TakenUp(n.clients[k], i, o)], o.replies))
      case LoseDown(k, i) => n.(clients := n.clients[k := DroppedDown(n.clients[k], i, n.host.numToId)])
      case LoseUp(k, i) => n.(clients := n.clients[k := DroppedUp(n.clients[k], i, n.host.numToId)])
      case Join => n.(clients := n.clients + [Joined()])
  }

  function TakenDown(c: Client, i: nat): Client
    requires i < |c.down| && WellFormed(c.down[i].message)
  {
    var o := Received(c.p, c.down[i].message);
    c.(p := o.p, down := RemoveAt(c.down, i), up := c.up + o.replies,
        dispatched := c.dispatched + multiset(o.dispatched))
  }

  function TakenUp(c: Client, i: nat, o: Outcome): Client
    requires i < |c.up|
  {
    c.(up := RemoveAt(c.up, i), arrived := c.arrived + multiset(o.dispatched))
  }

  function DroppedDown(c: Client, i: nat, ids: map<nat, Id>): Client
    requires i < |c.down|
  {
    c.(down := RemoveAt(c.down, i), lost := c.lost + Content(c.down[i].message, ids),
        gone := c.gone + Carried(c.down[i].message))
  }

  function DroppedUp(c: Client, i: nat, ids: map<nat, Id>): Client
    requires i < |c.up|
  {
    c.(up := RemoveAt(c.up, i), lostUp := c.lostUp + Content(c.up[i].message, ids),
        goneUp := c.goneUp + Carried(c.up[i].message))
  }

  // ----- what is kept

  ghost predicate HostWell(h: Protocol) {
    HostNumbers(h) && |h.idToNum| <= MAX_IDS
  }

  /** Exactly the numbers from 16 on are given, each to one id. */
  ghost predicate HostNumbers(h: Protocol) {
    && h.mode.HostMode?
    && (forall id :: id in h.idToNum ==> h.idToNum[id] in h.numToId && h.numToId[h.idToNum[id]] == id)
    && (forall num :: num in h.numToId ==> h.numToId[num] in h.idToNum && h.idToNum[h.numToId[num]] == num)
    && (forall num :: num in h.numToId <==> 16 <= num < 16 + |h.idToNum|)
  }

  /** The client's tables invert each other and agree with the host's. */
  ghost predicate ClientMaps(p: Protocol, h: Protocol) {
    && p.mode.ClientMode?
    && (forall id :: id in p.idToNum ==>
          id in h.idToNum && h.idToNum[id] == p.idToNum[id] && p.idToNum[id] in p.numToId)
    && (forall num :: num in p.numToId ==>
          num in h.numToId && h.numToId[num] == p.numToId[num] && p.numToId[num] in p.idToNum)
  }

  /** A message of the host: its number is given, and to the id it names. */
  ghost predicate DownWell(e: Envelope, h: Protocol) {
    var m := e.message;
    && (e.safe || Kind(m) == CHANNEL)
    && WellFormed(m) && Kind(m) in {CHANNEL, ID_CHANNEL, ID_NUM} && Num(m) in h.numToId
    && (Kind(m) == ID_CHANNEL ==> m.body.id == h.numToId[Num(m)])
    && (Kind(m) == ID_NUM ==> m.body.id == h.numToId[Num(m)])
  }

  /** A message of a client: numbers it uses are given. */
  ghost predicate UpWell(e: Envelope, h: Protocol) {
    var m := e.message;
    && (e.safe || Kind(m) == CHANNEL)
    && WellFormed(m) && Kind(m) in {FULL_SEND, CHANNEL, ID_CHANNEL, ID_NUM}
    && (Kind(m) == CHANNEL || Kind(m) == ID_NUM ==> Num(m) in h.numToId)
  }

  /** A request or a reply for the number is among the messages. */
  ghost predicate Asked(es: seq<Envelope>, num: nat) {
    exists i :: 0 <= i < |es| && Kind(es[i].message) == ID_NUM && Num(es[i].message) == num
  }

  /** Packets wait only for numbers that are given and asked for. */
  ghost predicate TodoWell(c: Client, h: Protocol) {
    forall num :: num in c.p.todo ==> num in h.numToId && (Asked(c.up, num) || Asked(c.down, num))
  }

  /** How often the messages stand for d; all of them, or the unsafe ones. */
  function Count(es: seq<Envelope>, ids: map<nat, Id>, d: Dispatch, all: bool): nat {
    if es == [] then 0
    else (if all || !es[0].safe then Content(es[0].message, ids)[d] else 0) + Count(es[1..], ids, d, all)
  }

  /** How often d waits for its number. */
  function Waiting(p: Protocol, h: Protocol, d: Dispatch): nat {
    if d.id in h.idToNum then multiset(Todo(p, h.idToNum[d.id]))[d.payload] else 0
  }

  /** Everything the host sent is under way, waiting, dispatched or lost; and only unsafe packets are lost. */
  ghost predicate Conserved(c: Client, h: Protocol, d: Dispatch) {
    && c.expected[d] == Count(c.down, h.numToId, d, true) + Waiting(c.p, h, d) + c.dispatched[d] + c.lost[d]
    && c.lost[d] + Count(c.down, h.numToId, d, false) <= c.risked[d]
    && c.sent[d] == Count(c.up, h.numToId, d, true) + c.arrived[d] + c.lostUp[d]
    && c.lostUp[d] + Count(c.up, h.numToId, d, false) <= c.riskedUp[d]
  }

  ghost predicate ClientWell(c: Client, h: Protocol) {
    && ClientMaps(c.p, h)
    && (forall i :: 0 <= i < |c.down| ==> DownWell(c.down[i], h))
    && (forall i :: 0 <= i < |c.up| ==> UpWell(c.up[i], h))
    && TodoWell(c, h)
    && forall d: Dispatch :: Conserved(c, h, d)
  }

  ghost predicate Inv(n: Network) {
    HostWell(n.host) && forall k :: 0 <= k < |n.clients| ==> ClientWell(n.clients[k], n.host)
  }

  // ----- counting

  lemma {:induction false} CountAppend(a: seq<Envelope>, b: seq<Envelope>, ids: map<nat, Id>, d: Dispatch, all: bool)
    ensures Count(a + b, ids, d, all) == Count(a, ids, d, all) + Count(b, ids, d, all)
  {
    hide Content;
    if a == [] {
      assert a + b == b;
    } else {
      assert (a + b)[1..] == a[1..] + b;
      CountAppend(a[1..], b, ids, d, all);
    }
  }

  lemma CountOne(e: Envelope, ids: map<nat, Id>, d: Dispatch, all: bool)
    ensures Count([e], ids, d, all) == if all || !e.safe then Content(e.message, ids)[d] else 0
    ensures Count([], ids, d, all) == 0
  {
    assert [e][1..] == [];
  }

  lemma CountRemoved(es: seq<Envelope>, i: nat, ids: map<nat, Id>, d: Dispatch, all: bool)
    requires i < |es|
    ensures Count(es, ids, d, all)
         == Count(RemoveAt(es, i), ids, d, all) + if all || !es[i].safe then Content(es[i].message, ids)[d] else 0
  {
    hide Count, Content;
    assert es == es[..i] + ([es[i]] + es[i + 1..]);
    CountAppend(es[..i], [es[i]] + es[i + 1..], ids, d, all);
    CountAppend([es[i]], es[i + 1..], ids, d, all);
    CountAppend(es[..i], es[i + 1..], ids, d, all);
    CountOne(es[i], ids, d, all);
  }

  /** New numbers do not change what messages under given numbers stand for. */
  ghost predicate Extends(h: Protocol, h1: Protocol) {
    && (forall num :: num in h.numToId ==> num in h1.numToId && h1.numToId[num] == h.numToId[num])
    && (forall id :: id in h.idToNum ==> id in h1.idToNum && h1.idToNum[id] == h.idToNum[id])
  }

  lemma {:induction false} CountExtended(es: seq<Envelope>, h: Protocol, h1: Protocol, d: Dispatch, all: bool)
    requires Extends(h, h1)
    requires forall i :: 0 <= i < |es| ==> Kind(es[i].message) == CHANNEL ==> Num(es[i].message) in h.numToId
    ensures Count(es, h1.numToId, d, all) == Count(es, h.numToId, d, all)
  {
    if es != [] {
      CountExtended(es[1..], h, h1, d, all);
    }
  }

  // ----- the host's side

  /** Numbering one more id keeps the numbers without gaps. */
  lemma Created(h: Protocol, id: Id)
    requires HostWell(h) && |CreateIdNum(h, id).idToNum| <= MAX_IDS
    ensures var h1 := CreateIdNum(h, id);
            && HostWell(h1) && Extends(h, h1)
            && CreatedNum(h, id) in h1.numToId && h1.numToId[CreatedNum(h, id)] == id && CreatedNum(h, id) < 4096
  {
    var h1, num := CreateIdNum(h, id), CreatedNum(h, id);
    if id !in h.idToNum {
      assert num !in h.numToId;
      assert |h1.idToNum| == |h.idToNum| + 1;
    }
  }

  lemma NumberGiven(h: Protocol, id: Id)
    requires HostWell(h) && id in h.idToNum
    ensures 16 <= h.idToNum[id] < 4096 && h.idToNum[id] in h.numToId && h.numToId[h.idToNum[id]] == id
  {
  }

  /** What is well stays so when the host numbers more ids. */
  lemma ClientExtended(c: Client, h: Protocol, h1: Protocol)
    requires ClientWell(c, h) && HostWell(h) && HostWell(h1) && Extends(h, h1)
    ensures ClientWell(c, h1)
  {
    hide Conserved;
    forall d: Dispatch
      ensures Conserved(c, h1, d)
    {
      assert Conserved(c, h, d);
      AccountExtended(c, h, h1, d);
    }
  }

  lemma AccountExtended(c: Client, h: Protocol, h1: Protocol, d: Dispatch)
    requires ClientWell(c, h) && HostWell(h) && HostWell(h1) && Extends(h, h1) && Conserved(c, h, d)
    ensures Conserved(c, h1, d)
  {
    hide Count;
    CountExtended(c.down, h, h1, d, true);
    CountExtended(c.down, h, h1, d, false);
    CountExtended(c.up, h, h1, d, true);
    CountExtended(c.up, h, h1, d, false);
    WaitingExtended(c.p, h, h1, d);
  }

  lemma WaitingExtended(p: Protocol, h: Protocol, h1: Protocol, d: Dispatch)
    requires HostWell(h) && HostWell(h1) && Extends(h, h1)
    requires forall num :: num in p.todo ==> num in h.numToId
    ensures Waiting(p, h1, d) == Waiting(p, h, d)
  {
    if d.id in h1.idToNum && d.id !in h.idToNum {
      var num := h1.idToNum[d.id];
      assert num !in h.numToId;
      assert Todo(p, num) == [];
    }
  }

  /** More messages on the way keep requests asked for. */
  lemma AskedMore(a: seq<Envelope>, b: seq<Envelope>, num: nat)
    requires Asked(a, num) || Asked(b, num)
    ensures Asked(a + b, num)
  {
    if Asked(a, num) {
      var i :| 0 <= i < |a| && Kind(a[i].message) == ID_NUM && Num(a[i].message) == num;
      assert (a + b)[i] == a[i];
    } else {
      var i :| 0 <= i < |b| && Kind(b[i].message) == ID_NUM && Num(b[i].message) == num;
      assert (a + b)[|a| + i] == b[i];
    }
  }

  /** A message of the host, with the account for what it stands for. */
  lemma ReachesClient(c: Client, h: Protocol, e: Envelope, more: multiset<Dispatch>, atRisk: multiset<Dispatch>)
    requires ClientWell(c, h) && DownWell(e, h)
    requires Content(e.message, h.numToId) == more && (if e.safe then multiset{} else more) <= atRisk
    ensures ClientWell(c.(down := c.down + [e], expected := c.expected + more, risked := c.risked + atRisk), h)
  {
    hide Conserved, ClientMaps, DownWell, UpWell, Asked, Content;
    var c1 := c.(down := c.down + [e], expected := c.expected + more, risked := c.risked + atRisk);
    forall d: Dispatch
      ensures Conserved(c1, h, d)
    {
      assert Conserved(c, h, d);
      AccountReached(c, h, e, more, atRisk, d);
    }
    forall num | num in c.p.todo
      ensures num in h.numToId && (Asked(c1.up, num) || Asked(c1.down, num))
    {
      if Asked(c.down, num) {
        AskedMore(c.down, [e], num);
      }
    }
  }

  lemma AccountReached(c: Client, h: Protocol, e: Envelope,
                      more: multiset<Dispatch>, atRisk: multiset<Dispatch>, d: Dispatch)
    requires Conserved(c, h, d)
    requires Content(e.message, h.numToId) == more && (if e.safe then multiset{} else more) <= atRisk
    ensures Conserved(c.(down := c.down + [e], expected := c.expected + more, risked := c.risked + atRisk), h, d)
  {
    hide Count, Content;
    CountAppend(c.down, [e], h.numToId, d, true);
    CountAppend(c.down, [e], h.numToId, d, false);
    CountOne(e, h.numToId, d, true);
    CountOne(e, h.numToId, d, false);
  }

  /** What the host sends for an id, and what it stands for. */
  lemma HostSends(h: Protocol, id: Id, payload: Payload, safe: bool)
    requires HostWell(h) && |Sent(h, id, payload, safe).0.idToNum| <= MAX_IDS
    ensures var (h1, es) := Sent(h, id, payload, safe);
            && HostWell(h1) && Extends(h, h1) && |es| == 1 && (safe ==> es[0].safe)
            && DownWell(es[0], h1) && Content(es[0].message, h1.numToId) == multiset{Dispatch(id, payload)}
  {
    if id in h.idToNum {
      NumberGiven(h, id);
      KeyRecovered(CHANNEL, h.idToNum[id], Raw(payload));
    } else {
      Created(h, id);
      KeyRecovered(ID_CHANNEL, CreatedNum(h, id), Named(id, payload));
    }
  }

  lemma HostSendKeeps(n: Network, id: Id, payload: Payload, safe: bool)
    requires Inv(n) && AllWellFormed(n)
    requires |Next(n, HostSend(id, payload, safe)).host.idToNum| <= MAX_IDS
    ensures Inv(Next(n, HostSend(id, payload, safe)))
  {
    hide HostWell, ClientWell, DownWell, Content, Extends, AllWellFormed;
    var r := Next(n, HostSend(id, payload, safe));
    var (h1, es) := Sent(n.host, id, payload, safe);
    HostSends(n.host, id, payload, safe);
    assert es == [es[0]];
    var d := Dispatch(id, payload);
    forall k | 0 <= k < |r.clients|
      ensures ClientWell(r.clients[k], r.host)
    {
      var c := n.clients[k];
      ClientExtended(c, n.host, h1);
      var atRisk := if safe then multiset{} else multiset{d};
      ReachesClient(c, h1, es[0], multiset{d}, atRisk);
      assert c.risked + multiset{} == c.risked;
    }
  }

  // ----- the client's side

  lemma ClientSends(p: Protocol, h: Protocol, id: Id, payload: Payload, safe: bool)
    requires ClientMaps(p, h) && HostWell(h)
    ensures var (p1, es) := Sent(p, id, payload, safe);
            && p1 == p && |es| == 1 && UpWell(es[0], h) && (safe ==> es[0].safe)
            && Content(es[0].message, h.numToId) == multiset{Dispatch(id, payload)}
  {
    if id in p.idToNum {
      NumberGiven(h, id);
      KeyRecovered(CHANNEL, p.idToNum[id], Raw(payload));
    } else {
      KeyRecovered(ID_CHANNEL, 0, Named(id, payload));
    }
  }

  lemma ClientSendKeeps(n: Network, k: nat, id: Id, payload: Payload, safe: bool)
    requires Inv(n) && AllWellFormed(n)
    ensures Inv(Next(n, ClientSend(k, id, payload, safe)))
  {
    if k < |n.clients| {
      var c, h := n.clients[k], n.host;
      var d := Dispatch(id, payload);
      ClientSends(c.p, h, id, payload, safe);
      var es := Sent(c.p, id, payload, safe).1;
      assert es == [es[0]];
      LeavesClient(c, h, es[0], d, safe);
    }
  }

  lemma LeavesClient(c: Client, h: Protocol, e: Envelope, d0: Dispatch, safe: bool)
    requires ClientWell(c, h) && UpWell(e, h) && Content(e.message, h.numToId) == multiset{d0} && (safe ==> e.safe)
    ensures ClientWell(AccountUp(c.(up := c.up + [e]), d0, safe), h)
  {
    hide Conserved, ClientMaps, DownWell, UpWell, Asked, Content;
    var c1 := AccountUp(c.(up := c.up + [e]), d0, safe);
    forall d: Dispatch
      ensures Conserved(c1, h, d)
    {
      assert Conserved(c, h, d);
      AccountLeft(c, h, e, d0, safe, d);
    }
    forall num | num in c.p.todo
      ensures num in h.numToId && (Asked(c1.up, num) || Asked(c1.down, num))
    {
      if Asked(c.up, num) {
        AskedMore(c.up, [e], num);
      }
    }
  }

  lemma AccountLeft(c: Client, h: Protocol, e: Envelope, d0: Dispatch, safe: bool, d: Dispatch)
    requires Conserved(c, h, d) && Content(e.message, h.numToId) == multiset{d0} && (safe ==> e.safe)
    ensures Conserved(AccountUp(c.(up := c.up + [e]), d0, safe), h, d)
  {
    hide Count, Content;
    CountAppend(c.up, [e], h.numToId, d, true);
    CountAppend(c.up, [e], h.numToId, d, false);
    CountOne(e, h.numToId, d, true);
    CountOne(e, h.numToId, d, false);
  }

  lemma AskedRemoved(es: seq<Envelope>, i: nat, num: nat)
    requires i < |es| && Asked(es, num)
    ensures Asked(RemoveAt(es, i), num) || (Kind(es[i].message) == ID_NUM && Num(es[i].message) == num)
  {
    var j :| 0 <= j < |es| && Kind(es[j].message) == ID_NUM && Num(es[j].message) == num;
    if j < i {
      assert RemoveAt(es, i)[j] == es[j];
    } else if j > i {
      assert RemoveAt(es, i)[j - 1] == es[j];
    }
  }

  /** The three accounts of d after a message has been taken off the way down. */
  lemma AccountTaken(c: Client, h: Protocol, i: nat, d: Dispatch)
    requires i < |c.down| && Conserved(c, h, d)
    ensures var m, rest := Content(c.down[i].message, h.numToId)[d], RemoveAt(c.down, i);
            && c.expected[d] == m + Count(rest, h.numToId, d, true) + Waiting(c.p, h, d) + c.dispatched[d] + c.lost[d]
            && c.lost[d] + (if c.down[i].safe then 0 else m) + Count(rest, h.numToId, d, false) <= c.risked[d]
  {
    hide Count, Content, Waiting;
    CountRemoved(c.down, i, h.numToId, d, true);
    CountRemoved(c.down, i, h.numToId, d, false);
  }

  /** The client learns a number, or knew it. */
  lemma Learned(p: Protocol, h: Protocol, id: Id, num: nat)
    requires HostWell(h) && ClientMaps(p, h) && num in h.numToId && h.numToId[num] == id
    ensures ClientMaps(SetIdNum(p, id, num), h) && SetIdNum(p, id, num).todo == p.todo
  {
  }

  /** A packet whose id is known is dispatched; requests and waiting packets are not concerned. */
  lemma DispatchesNow(c: Client, h: Protocol, i: nat, p1: Protocol)
    requires ClientWell(c, h) && i < |c.down| && Kind(c.down[i].message) != ID_NUM
    requires ClientMaps(p1, h) && p1.todo == c.p.todo
    ensures ClientWell(c.(p := p1, down := RemoveAt(c.down, i),
                          dispatched := c.dispatched + Content(c.down[i].message, h.numToId)), h)
  {
    hide Count, ClientMaps, UpWell, DownWell, Asked, Content;
    var c1 := c.(p := p1, down := RemoveAt(c.down, i),
                 dispatched := c.dispatched + Content(c.down[i].message, h.numToId));
    forall num | num in c1.p.todo
      ensures num in h.numToId && (Asked(c1.up, num) || Asked(c1.down, num))
    {
      if Asked(c.down, num) {
        AskedRemoved(c.down, i, num);
      }
    }
    forall d: Dispatch
      ensures Conserved(c1, h, d)
    {
      assert Conserved(c, h, d);
      AccountTaken(c, h, i, d);
    }
  }

  lemma TakesIdChannel(c: Client, h: Protocol, i: nat)
    requires HostWell(h) && ClientWell(c, h) && i < |c.down| && Kind(c.down[i].message) == ID_CHANNEL
    ensures DownWell(c.down[i], h) && ClientWell(TakenDown(c, i), h)
  {
    hide HostWell, ClientMaps, UpWell, Conserved, TodoWell;
    var m := c.down[i].message;
    assert DownWell(c.down[i], h);
    Learned(c.p, h, m.body.id, Num(m));
    DispatchesNow(c, h, i, SetIdNum(c.p, m.body.id, Num(m)));
    assert c.up + [] == c.up;
  }

  lemma {:induction false} DispatchCount(id: Id, payloads: seq<Payload>, d: Dispatch)
    ensures multiset(Dispatches(id, payloads))[d] == if d.id == id then multiset(payloads)[d.payload] else 0
  {
    if payloads != [] {
      DispatchCount(id, payloads[1..], d);
      assert payloads == [payloads[0]] + payloads[1..];
    }
  }

  lemma TakesIdNum(c: Client, h: Protocol, i: nat)
    requires HostWell(h) && ClientWell(c, h) && i < |c.down| && Kind(c.down[i].message) == ID_NUM
    ensures DownWell(c.down[i], h) && ClientWell(TakenDown(c, i), h)
  {
    hide Count, ClientMaps, UpWell, Asked;
    var m, c1 := c.down[i].message, TakenDown(c, i);
    assert DownWell(c.down[i], h);
    var id, num := m.body.id, Num(m);
    Learned(c.p, h, id, num);
    LearnedMaps(SetIdNum(c.p, id, num), c1.p, h);
    assert c1.up == c.up;
    forall n | n in c1.p.todo
      ensures n in h.numToId && (Asked(c1.up, n) || Asked(c1.down, n))
    {
      if Asked(c.down, n) {
        AskedRemoved(c.down, i, n);
      }
    }
    forall d: Dispatch
      ensures Conserved(c1, h, d)
    {
      assert Conserved(c, h, d);
      AccountTaken(c, h, i, d);
      DispatchCount(id, Todo(c.p, num), d);
      Flushed(c.p, c1.p, h, id, num, d);
    }
  }

  lemma LearnedMaps(p: Protocol, q: Protocol, h: Protocol)
    requires ClientMaps(p, h) && q == p.(todo := q.todo)
    ensures ClientMaps(q, h)
  {
  }

  /** What waited for the number no longer does. */
  lemma Flushed(p: Protocol, q: Protocol, h: Protocol, id: Id, num: nat, d: Dispatch)
    requires HostWell(h) && num in h.numToId && h.numToId[num] == id && q.todo == p.todo - {num}
    ensures Waiting(p, h, d) == Waiting(q, h, d) + if d.id == id then multiset(Todo(p, num))[d.payload] else 0
  {
  }

  lemma TakesChannel(c: Client, h: Protocol, i: nat)
    requires HostWell(h) && ClientWell(c, h) && i < |c.down| && Kind(c.down[i].message) == CHANNEL
    ensures DownWell(c.down[i], h) && ClientWell(TakenDown(c, i), h)
  {
    hide Count, HostWell;
    assert DownWell(c.down[i], h);
    if GetNumId(c.p, Num(c.down[i].message)) == "" {
      KeepsForLater(c, h, i);
    } else {
      DispatchesDirectly(c, h, i);
    }
  }

  lemma DispatchesDirectly(c: Client, h: Protocol, i: nat)
    requires ClientWell(c, h) && i < |c.down| && Kind(c.down[i].message) == CHANNEL
    requires DownWell(c.down[i], h) && GetNumId(c.p, Num(c.down[i].message)) != ""
    ensures ClientWell(TakenDown(c, i), h)
  {
    hide UpWell, Conserved, TodoWell;
    DispatchesNow(c, h, i, c.p);
    assert c.up + [] == c.up;
  }

  lemma KeepsForLater(c: Client, h: Protocol, i: nat)
    requires HostWell(h) && ClientWell(c, h) && i < |c.down| && Kind(c.down[i].message) == CHANNEL
    requires DownWell(c.down[i], h) && GetNumId(c.p, Num(c.down[i].message)) == ""
    ensures ClientWell(TakenDown(c, i), h)
  {
    hide Count, Asked, Content, Waiting, HostWell;
    var m, c1 := c.down[i].message, TakenDown(c, i);
    var num, request := Num(m), IdNumMessage(Num(m), "");
    LearnedMaps(c.p, c1.p, h);
    NumberSmall(h, num);
    KeyRecovered(ID_NUM, num, Name(""));
    AskedOne(request, num);
    forall n | n in c1.p.todo
      ensures n in h.numToId && (Asked(c1.up, n) || Asked(c1.down, n))
    {
      if n == num {
        AskedMore(c.up, [request], num);
      } else if Asked(c.up, n) {
        AskedMore(c.up, [request], n);
      } else {
        AskedRemoved(c.down, i, n);
      }
    }
    forall d: Dispatch
      ensures Conserved(c1, h, d)
    {
      assert Conserved(c, h, d);
      AccountTaken(c, h, i, d);
      Kept(c.p, c1.p, h, m, d);
      CountAppend(c.up, [request], h.numToId, d, true);
      CountAppend(c.up, [request], h.numToId, d, false);
      CountOne(request, h.numToId, d, true);
      CountOne(request, h.numToId, d, false);
      assert Content(request.message, h.numToId) == multiset{} by {
        RequestIsEmpty(request.message, h.numToId);
      }
      assert c1.dispatched == c.dispatched;
    }
  }

  lemma RequestIsEmpty(m: Message, ids: map<nat, Id>)
    requires Kind(m) == ID_NUM || Kind(m) == FULL_SEND
    ensures Content(m, ids) == multiset{}
  {
  }

  lemma NumberSmall(h: Protocol, num: nat)
    requires HostWell(h) && num in h.numToId
    ensures 16 <= num < 4096
  {
  }

  lemma AskedOne(e: Envelope, num: nat)
    requires Kind(e.message) == ID_NUM && Num(e.message) == num
    ensures Asked([e], num)
  {
    assert [e][0] == e;
  }

  lemma Kept(p: Protocol, q: Protocol, h: Protocol, m: Message, d: Dispatch)
    requires HostWell(h) && Kind(m) == CHANNEL && m.body.Raw? && Num(m) in h.numToId
    requires q.todo == p.todo[Num(m) := Todo(p, Num(m)) + [m.body.payload]]
    ensures Waiting(q, h, d) == Waiting(p, h, d) + Content(m, h.numToId)[d]
  {
  }

  lemma DeliverDownKeeps(n: Network, k: nat, i: nat)
    requires Inv(n) && AllWellFormed(n)
    ensures Inv(Next(n, DeliverDown(k, i)))
  {
    hide HostWell, ClientWell;
    if Possible(n, DeliverDown(k, i)) {
      var c := n.clients[k];
      DownKinds(c, n.host, i);
      if Kind(c.down[i].message) == ID_CHANNEL {
        TakesIdChannel(c, n.host, i);
      } else if Kind(c.down[i].message) == ID_NUM {
        TakesIdNum(c, n.host, i);
      } else {
        TakesChannel(c, n.host, i);
      }
    }
  }

  lemma DownKinds(c: Client, h: Protocol, i: nat)
    requires ClientWell(c, h) && i < |c.down|
    ensures Kind(c.down[i].message) in {CHANNEL, ID_CHANNEL, ID_NUM}
  {
    assert DownWell(c.down[i], h);
  }

  // ----- the rest of the steps

  /** What the host makes of a message of a client. */
  lemma HostTakes(h: Protocol, e: Envelope)
    requires HostWell(h) && UpWell(e, h) && |Received(h, e.message).p.idToNum| <= MAX_IDS
    ensures var m := e.message;
             var o := Received(h, m);
            && HostWell(o.p) && Extends(h, o.p) && multiset(o.dispatched) == Content(m, h.numToId)
            && (Kind(m) == ID_NUM ==> |o.replies| == 1 && Num(o.replies[0].message) == Num(m))
            && |o.replies| <= 1
            && (|o.replies| == 1 ==>
                  && DownWell(o.replies[0], o.p) && Kind(o.replies[0].message) == ID_NUM && o.replies[0].safe
                  && Content(o.replies[0].message, o.p.numToId) == multiset{})
  {
    var m := e.message;
    if Kind(m) == ID_NUM {
      NumberSmall(h, Num(m));
      KeyRecovered(ID_NUM, Num(m), Name(GetNumId(h, Num(m))));
    } else if Kind(m) == ID_CHANNEL {
      Created(h, m.body.id);
      KeyRecovered(ID_NUM, CreatedNum(h, m.body.id), Name(m.body.id));
    }
  }

  lemma RepliesReach(c: Client, h: Protocol, replies: seq<Envelope>)
    requires ClientWell(c, h) && |replies| <= 1
    requires |replies| == 1 ==> DownWell(replies[0], h) && replies[0].safe
                                && Content(replies[0].message, h.numToId) == multiset{}
    ensures ClientWell(c.(down := c.down + replies), h)
  {
    hide ClientWell, DownWell, Content;
    if |replies| == 1 {
      ReachesClient(c, h, replies[0], multiset{}, multiset{});
      assert replies == [replies[0]];
      assert c.expected + multiset{} == c.expected && c.risked + multiset{} == c.risked;
    } else {
      assert c.down + replies == c.down;
    }
  }

  /** A request may leave the way up once its reply is on the way down. */
  lemma HostTook(c: Client, h: Protocol, i: nat, o: Outcome)
    requires ClientWell(c, h) && i < |c.up| && multiset(o.dispatched) == Content(c.up[i].message, h.numToId)
    requires Kind(c.up[i].message) == ID_NUM ==> Asked(c.down, Num(c.up[i].message))
    ensures ClientWell(TakenUp(c, i, o), h)
  {
    hide Count, ClientMaps, DownWell, UpWell, Asked, Content, Waiting;
    var c1 := TakenUp(c, i, o);
    forall num | num in c1.p.todo
      ensures num in h.numToId && (Asked(c1.up, num) || Asked(c1.down, num))
    {
      if Asked(c.up, num) {
        AskedRemoved(c.up, i, num);
      }
    }
    forall d: Dispatch
      ensures Conserved(c1, h, d)
    {
      assert Conserved(c, h, d);
      CountRemoved(c.up, i, h.numToId, d, true);
      CountRemoved(c.up, i, h.numToId, d, false);
    }
  }

  lemma DeliverUpKeeps(n: Network, k: nat, i: nat)
    requires Inv(n) && AllWellFormed(n)
    requires |Next(n, DeliverUp(k, i)).host.idToNum| <= MAX_IDS
    ensures Inv(Next(n, DeliverUp(k, i)))
  {
    hide HostWell, ClientWell, DownWell, UpWell, Content, Extends, Asked, AllWellFormed, Received;
    if Possible(n, DeliverUp(k, i)) {
      var m := n.clients[k].up[i].message;
      UpFits(n.clients[k], n.host, i);
      var o := Received(n.host, m);
      HostTakes(n.host, n.clients[k].up[i]);
      var r := Next(n, DeliverUp(k, i));
      forall j | 0 <= j < |r.clients|
        ensures ClientWell(r.clients[j], r.host)
      {
        var c := n.clients[j];
        ClientExtended(c, n.host, o.p);
        RepliesReach(c, o.p, o.replies);
        if j == k {
          var c1 := c.(down := c.down + o.replies);
          ContentExtended(c, n.host, o.p, i);
          if Kind(m) == ID_NUM {
            AskedOne(o.replies[0], Num(m));
            assert o.replies == [o.replies[0]];
            AskedMore(c.down, o.replies, Num(m));
          }
          HostTook(c1, o.p, i, o);
          assert r.clients[k] == TakenUp(c1, i, o);
        }
      }
    }
  }

  lemma UpFits(c: Client, h: Protocol, i: nat)
    requires ClientWell(c, h) && i < |c.up|
    ensures UpWell(c.up[i], h) && WellFormed(c.up[i].message)
  {
  }

  lemma ContentExtended(c: Client, h: Protocol, h1: Protocol, i: nat)
    requires ClientWell(c, h) && i < |c.up| && Extends(h, h1)
    ensures Content(c.up[i].message, h1.numToId) == Content(c.up[i].message, h.numToId)
  {
    assert UpWell(c.up[i], h);
  }

  lemma LoseDownKeeps(n: Network, k: nat, i: nat)
    requires Inv(n) && AllWellFormed(n)
    ensures Inv(Next(n, LoseDown(k, i)))
  {
    if Possible(n, LoseDown(k, i)) {
      LostDown(n.clients[k], n.host, i);
    }
  }

  lemma LoseUpKeeps(n: Network, k: nat, i: nat)
    requires Inv(n) && AllWellFormed(n)
    ensures Inv(Next(n, LoseUp(k, i)))
  {
    if Possible(n, LoseUp(k, i)) {
      LostUp(n.clients[k], n.host, i);
    }
  }

  /** What gets lost is an unsafe packet, not a request or a reply. */
  lemma LostDown(c: Client, h: Protocol, i: nat)
    requires ClientWell(c, h) && i < |c.down| && !c.down[i].safe
    ensures ClientWell(DroppedDown(c, i, h.numToId), h)
  {
    hide Count, ClientMaps, Asked, Content, Waiting;
    var c1 := DroppedDown(c, i, h.numToId);
    assert DownWell(c.down[i], h);
    forall num | num in c1.p.todo
      ensures num in h.numToId && (Asked(c1.up, num) || Asked(c1.down, num))
    {
      if Asked(c.down, num) {
        AskedRemoved(c.down, i, num);
      }
    }
    forall d: Dispatch
      ensures Conserved(c1, h, d)
    {
      assert Conserved(c, h, d);
      AccountTaken(c, h, i, d);
    }
  }

  lemma LostUp(c: Client, h: Protocol, i: nat)
    requires ClientWell(c, h) && i < |c.up| && !c.up[i].safe
    ensures ClientWell(DroppedUp(c, i, h.numToId), h)
  {
    hide Count, ClientMaps, Asked, Content, Waiting;
    var c1 := DroppedUp(c, i, h.numToId);
    assert UpWell(c.up[i], h);
    forall num | num in c1.p.todo
      ensures num in h.numToId && (Asked(c1.up, num) || Asked(c1.down, num))
    {
      if Asked(c.up, num) {
        AskedRemoved(c.up, i, num);
      }
    }
    forall d: Dispatch
      ensures Conserved(c1, h, d)
    {
      assert Conserved(c, h, d);
      CountRemoved(c.up, i, h.numToId, d, true);
      CountRemoved(c.up, i, h.numToId, d, false);
    }
  }

  lemma JoinedWell(h: Protocol)
    ensures ClientWell(Joined(), h)
  {
    var c := Joined();
    KeyRecovered(FULL_SEND, 0, Empty);
    forall d: Dispatch
      ensures Conserved(c, h, d)
    {
      CountOne(c.up[0], h.numToId, d, true);
      CountOne(c.up[0], h.numToId, d, false);
    }
  }

  lemma JoinKeeps(n: Network)
    requires Inv(n) && AllWellFormed(n)
    ensures Inv(Next(n, Join))
  {
    hide HostWell, ClientWell;
    JoinedWell(n.host);
  }

  lemma InvParsable(n: Network)
    requires Inv(n)
    ensures AllWellFormed(n)
  {
    forall k | 0 <= k < |n.clients|
      ensures Parsable(n.clients[k])
    {
      var c := n.clients[k];
      assert ClientWell(c, n.host);
      assert forall i :: 0 <= i < |c.down| ==> DownWell(c.down[i], n.host);
      assert forall i :: 0 <= i < |c.up| ==> UpWell(c.up[i], n.host);
    }
  }

  /** Every step keeps everything, as long as the host numbers no more than 4080 ids. */
  lemma StepKeeps(n: Network, e: Event)
    requires Inv(n) && AllWellFormed(n) && |Next(n, e).host.idToNum| <= MAX_IDS
    ensures Inv(Next(n, e)) && AllWellFormed(Next(n, e))
  {
    hide Inv, AllWellFormed;
    match e {
    case HostSend(id, payload, safe) => HostSendKeeps(n, id, payload, safe);
    case ClientSend(k, id, payload, safe) => ClientSendKeeps(n, k, id, payload, safe);
    case DeliverDown(k, i) => DeliverDownKeeps(n, k, i);
    case DeliverUp(k, i) => DeliverUpKeeps(n, k, i);
    case LoseDown(k, i) => LoseDownKeeps(n, k, i);
    case LoseUp(k, i) => LoseUpKeeps(n, k, i);
    case Join => JoinKeeps(n);
    }
    InvParsable(Next(n, e));
  }
}
