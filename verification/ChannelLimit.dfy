/**
 * Beyond 4080 ids: numbers from 4096 on lose their upper bits in the key, and
 * packets are dispatched under what the rest of the number stands for.
 */
module ChannelLimit {
  import opened ChannelSteps
  import opened ChannelNetwork
  import opened ChannelRuns
  import opened ChannelConservation

  /** What a receiver makes of a number that went through a key. */
  function Cut(num: nat): nat {
    num % 4096
  }

  /** A client that knows the cut number dispatches under that number's id at once. */
  lemma ShortKeyMisleads(h: Protocol, p: Protocol, id: Id, payload: Payload, safe: bool)
    requires HostNumbers(h) && id in h.idToNum && p.mode.ClientMode?
    requires var low := Cut(h.idToNum[id]);
             low in h.numToId && low in p.numToId && p.numToId[low] == h.numToId[low] != ""
    ensures var es := Sent(h, id, payload, safe).1;
            var taken := h.numToId[Cut(h.idToNum[id])];
            && |es| == 1 && Received(p, es[0].message) == Outcome(p, [], [Dispatch(taken, payload)])
            && (taken == id <==> h.idToNum[id] < 4096)
  {
    KeyRecovered(CHANNEL, h.idToNum[id], Raw(payload));
  }

  // ----- a client that has just joined

  /** The client k, with the given messages under way and waiting, and one packet sent to it. */
  ghost predicate Newcomer(
    n: Network, k: nat, d: Dispatch, down: seq<Envelope>, todo: map<nat, seq<Payload>>, requests: seq<Envelope>)
  {
    && |n.clients| == k + 1 && n.host.mode.HostMode?
    && n.clients[k].down == down && n.clients[k].up == Joined().up + requests
    && n.clients[k].p == Started(ClientMode).(todo := todo)
    && n.clients[k].expected == multiset{d} && n.clients[k].dispatched == multiset{}
  }

  lemma SentToNewcomer(n: Network, k: nat, id: Id, payload: Payload)
    requires AllWellFormed(n) && |n.clients| == k + 1 && n.clients[k] == Joined() && n.host.mode.HostMode?
    requires GetIdNum(n.host, id) != 0
    ensures var r := Next(n, HostSend(id, payload, true));
            && r.host == n.host
            && Newcomer(r, k, Dispatch(id, payload), [ChannelMessage(GetIdNum(n.host, id), payload, true)], map[], [])
  {
    var es := [ChannelMessage(GetIdNum(n.host, id), payload, true)];
    assert Sent(n.host, id, payload, true) == (n.host, es);
    assert [] + es == es && Joined().up + [] == Joined().up;
  }

  lemma NewcomerAsks(n: Network, k: nat, num: nat, d: Dispatch, payload: Payload)
    requires AllWellFormed(n) && Newcomer(n, k, d, [ChannelMessage(num, payload, true)], map[], [])
    ensures var r := Next(n, DeliverDown(k, 0));
            r.host == n.host && Newcomer(r, k, d, [], map[Cut(num) := [payload]], [IdNumMessage(Cut(num), "")])
  {
    KeyRecovered(CHANNEL, num, Raw(payload));
    var c := n.clients[k];
    var o := Received(c.p, c.down[0].message);
    assert Todo(c.p, Cut(num)) + [payload] == [payload];
    assert o == Outcome(c.p.(todo := map[Cut(num) := [payload]]), [IdNumMessage(Cut(num), "")], []);
    assert RemoveAt(c.down, 0) == [] && Joined().up + [] == Joined().up;
  }

  lemma HostAnswers(n: Network, k: nat, low: nat, d: Dispatch, payload: Payload)
    requires AllWellFormed(n) && low < 4096
    requires Newcomer(n, k, d, [], map[low := [payload]], [IdNumMessage(low, "")])
    ensures var r := Next(n, DeliverUp(k, 1));
            && r.host == n.host
            && Newcomer(r, k, d, [IdNumMessage(low, GetNumId(n.host, low))], map[low := [payload]], [])
  {
    KeyRecovered(ID_NUM, low, Name(""));
    var c := n.clients[k];
    assert c.up[1] == IdNumMessage(low, "");
    var reply := [IdNumMessage(low, GetNumId(n.host, low))];
    assert Received(n.host, c.up[1].message) == Outcome(n.host, reply, []);
    assert RemoveAt(c.up, 1) == Joined().up + [] && [] + reply == reply;
  }

  lemma NewcomerDispatches(n: Network, k: nat, low: nat, d: Dispatch, taken: Id, payload: Payload)
    requires AllWellFormed(n) && low < 4096
    requires Newcomer(n, k, d, [IdNumMessage(low, taken)], map[low := [payload]], [])
    ensures var r := Next(n, DeliverDown(k, 0));
            && r.host == n.host && |r.clients| == k + 1 && r.clients[k].down == [] && r.clients[k].p.todo == map[]
            && r.clients[k].expected == multiset{d} && r.clients[k].dispatched == multiset{Dispatch(taken, payload)}
  {
    KeyRecovered(ID_NUM, low, Name(taken));
    var c := n.clients[k];
    var o := Received(c.p, c.down[0].message);
    assert [payload][1..] == [] && map[low := [payload]] - {low} == map[];
    assert o.dispatched == [Dispatch(taken, payload)];
    assert multiset(o.dispatched) == multiset{Dispatch(taken, payload)};
    assert RemoveAt(c.down, 0) == [];
  }

  /** A newcomer's first packet, followed to its end. */
  function Episode(k: nat, id: Id, payload: Payload): seq<Event> {
    [Join, HostSend(id, payload, true), DeliverDown(k, 0), DeliverUp(k, 1), DeliverDown(k, 0)]
  }

  lemma NewcomersFirstPacket(n: Network, id: Id, payload: Payload)
    requires AllWellFormed(n) && n.host.mode.HostMode? && GetIdNum(n.host, id) != 0
    ensures var k := |n.clients|;
            var r := Run(n, Episode(k, id, payload));
            && r.host == n.host && |r.clients| == k + 1 && r.clients[k].down == [] && r.clients[k].p.todo == map[]
            && r.clients[k].expected == multiset{Dispatch(id, payload)}
            && r.clients[k].dispatched == multiset{Dispatch(GetNumId(n.host, Cut(GetIdNum(n.host, id))), payload)}
  {
    hide Next, Newcomer, AllWellFormed, Run;
    var k, num, d := |n.clients|, GetIdNum(n.host, id), Dispatch(id, payload);
    var e := Episode(k, id, payload);
    NextParsable(n, e[0]);
    var n1 := Next(n, e[0]);
    Joins(n);
    NextParsable(n1, e[1]);
    var n2 := Next(n1, e[1]);
    SentToNewcomer(n1, k, id, payload);
    NextParsable(n2, e[2]);
    var n3 := Next(n2, e[2]);
    NewcomerAsks(n2, k, num, d, payload);
    NextParsable(n3, e[3]);
    var n4 := Next(n3, e[3]);
    HostAnswers(n3, k, Cut(num), d, payload);
    NextParsable(n4, e[4]);
    NewcomerDispatches(n4, k, Cut(num), d, GetNumId(n.host, Cut(num)), payload);
    RunFive(n, e[0], e[1], e[2], e[3], e[4]);
    assert e == [e[0], e[1], e[2], e[3], e[4]];
  }

  lemma Joins(n: Network)
    requires AllWellFormed(n)
    ensures var r := Next(n, Join);
            r.host == n.host && |r.clients| == |n.clients| + 1 && r.clients[|n.clients|] == Joined()
  {
  }

  lemma RunFive(n: Network, a: Event, b: Event, c: Event, d: Event, e: Event)
    requires AllWellFormed(n) && AllWellFormed(Next(n, a)) && AllWellFormed(Next(Next(n, a), b))
    requires AllWellFormed(Next(Next(Next(n, a), b), c)) && AllWellFormed(Next(Next(Next(Next(n, a), b), c), d))
    ensures Run(n, [a, b, c, d, e]) == Next(Next(Next(Next(Next(n, a), b), c), d), e)
  {
    hide Next, AllWellFormed, Run;
    assert [a, b, c, d, e] == [a] + ([b] + ([c] + ([d] + [e])));
    RunAppend(n, [a], [b] + ([c] + ([d] + [e])));
    RunOne(n, a);
    var n1 := Next(n, a);
    RunAppend(n1, [b], [c] + ([d] + [e]));
    RunOne(n1, b);
    var n2 := Next(n1, b);
    RunAppend(n2, [c], [d] + [e]);
    RunOne(n2, c);
    var n3 := Next(n2, c);
    RunAppend(n3, [d], [e]);
    RunOne(n3, d);
    RunOne(Next(n3, d), e);
  }

  // ----- the limit

  /**
   * From every run that numbered an id beyond the key, the packet of that id
   * goes astray: a client that joins dispatches it under the id of the cut
   * number, or under no id if that number is not given.
   */
  lemma AstrayBeyondLimit(es: seq<Event>, id: Id, payload: Payload) returns (more: seq<Event>)
    requires id in Run(Start(), es).host.idToNum
    ensures var n, r := Run(Start(), es), Run(Start(), es + more);
            var k, taken := |n.clients|, GetNumId(n.host, Cut(n.host.idToNum[id]));
            && r.host == n.host && |r.clients| == k + 1 && r.clients[k].down == [] && r.clients[k].p.todo == map[]
            && r.clients[k].expected == multiset{Dispatch(id, payload)}
            && r.clients[k].dispatched == multiset{Dispatch(taken, payload)}
            && (taken != id <==> n.host.idToNum[id] >= 4096 && (id != "" || Cut(n.host.idToNum[id]) >= 16))
  {
    hide Run;
    StartIsWell();
    HostNumbersAgree(es);
    var n := Run(Start(), es);
    var num := n.host.idToNum[id];
    assert num in n.host.numToId && n.host.numToId[num] == id;
    more := Episode(|n.clients|, id, payload);
    NewcomersFirstPacket(n, id, payload);
    RunAppend(Start(), es, more);
  }

  /** Clients dispatch only what was sent to them, and under its id. */
  ghost predicate AllRight(n: Network) {
    forall k :: 0 <= k < |n.clients| ==> n.clients[k].dispatched <= n.clients[k].expected
  }

  /** Runs with a given number of ids dispatch only what was sent exactly if the number is at most 4080. */
  lemma LimitIsExact(ids: nat)
    ensures (forall es :: |Run(Start(), es).host.idToNum| == ids ==> AllRight(Run(Start(), es))) <==> ids <= MAX_IDS
  {
    hide Run;
    if ids <= MAX_IDS {
      forall es | |Run(Start(), es).host.idToNum| == ids
        ensures AllRight(Run(Start(), es))
      {
        RightWithinLimit(es);
      }
    } else {
      var es := WrongWith(ids);
      assert !AllRight(Run(Start(), es));
    }
  }

  lemma RightWithinLimit(es: seq<Event>)
    requires |Run(Start(), es).host.idToNum| <= MAX_IDS
    ensures AllRight(Run(Start(), es))
  {
    hide Run, Count, Waiting;
    var n := Run(Start(), es);
    forall k | 0 <= k < |n.clients|
      ensures n.clients[k].dispatched <= n.clients[k].expected
    {
      forall d: Dispatch
        ensures n.clients[k].dispatched[d] <= n.clients[k].expected[d]
      {
        NothingAstray(es, k, d);
      }
    }
  }

  lemma WrongWith(ids: nat) returns (es: seq<Event>)
    requires ids > MAX_IDS
    ensures var n := Run(Start(), es); |n.host.idToNum| == ids && !AllRight(n)
  {
    hide Run;
    var first, id := FirstSends(ids), IdOf(MAX_IDS);
    ManyIds(ids);
    var more := AstrayBeyondLimit(first, id, []);
    es := first + more;
    var c := Run(Start(), es).clients[0];
    var taken := GetNumId(Run(Start(), first).host, 0);
    assert taken != id;
    assert c.dispatched[Dispatch(taken, [])] == 1 && c.expected[Dispatch(taken, [])] == 0;
  }

  // ----- many ids

  /** The k-th of many different ids. */
  function IdOf(k: nat): Id {
    seq(k + 1, _ => 'a')
  }

  function FirstSends(k: nat): seq<Event> {
    if k == 0 then [] else FirstSends(k - 1) + [HostSend(IdOf(k - 1), [], true)]
  }

  /** A host that has numbered k ids in order. */
  ghost predicate Numbered(n: Network, k: nat) {
    && n.clients == [] && n.host.mode.HostMode? && |n.host.idToNum| == k
    && (forall j :: 0 <= j < k ==> IdOf(j) in n.host.idToNum && n.host.idToNum[IdOf(j)] == 16 + j)
    && forall id :: id in n.host.idToNum ==> 0 < |id| <= k
  }

  lemma {:induction false} ManyIds(k: nat)
    ensures Numbered(Run(Start(), FirstSends(k)), k)
  {
    StartIsWell();
    if k > 0 {
      ManyIds(k - 1);
      var n := Run(Start(), FirstSends(k - 1));
      var e := HostSend(IdOf(k - 1), [], true);
      RunAppend(Start(), FirstSends(k - 1), [e]);
      RunOne(n, e);
      OneMoreId(n, k - 1);
    }
  }

  lemma OneMoreId(n: Network, k: nat)
    requires Numbered(n, k) && AllWellFormed(n)
    ensures Numbered(Next(n, HostSend(IdOf(k), [], true)), k + 1)
  {
    assert IdOf(k) !in n.host.idToNum;
  }
}
