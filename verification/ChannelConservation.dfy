/**
 * What becomes of the packets, however many ids there are.  Under the limit of
 * 4080 ids every packet is accounted for under its id; beyond it only the ids
 * can be mistaken: no payload is lost but with an unsafe packet, none comes
 * twice, and none waits without having been asked for.
 */
module ChannelConservation {
  import opened ChannelSteps
  import opened ChannelNetwork
  import opened ChannelRuns

  /** Numbers that come out of a 16-bit key. */
  const NUMBERS := 4096

  // ----- payloads

  ghost function Pick(m: multiset<Dispatch>): (d: Dispatch)
    requires m != multiset{}
    ensures d in m
  {
    var d :| d in m;
    d
  }

  /** How many of the dispatches have the payload x, for whatever id. */
  ghost function Of(m: multiset<Dispatch>, x: Payload): nat
    decreases |m|
  {
    if m == multiset{} then 0 else OneOf(Pick(m), x) + Of(m - multiset{Pick(m)}, x)
  }

  function OneOf(d: Dispatch, x: Payload): nat {
    if d.payload == x then 1 else 0
  }

  lemma {:induction false} OfTake(m: multiset<Dispatch>, d: Dispatch, x: Payload)
    requires d in m
    ensures Of(m, x) == OneOf(d, x) + Of(m - multiset{d}, x)
    decreases |m|
  {
    hide OneOf;
    var e := Pick(m);
    if e != d {
      var both := m - multiset{e} - multiset{d};
      assert both == m - multiset{d} - multiset{e};
      OfTake(m - multiset{e}, d, x);
      OfTake(m - multiset{d}, e, x);
    }
  }

  lemma {:induction false} OfAdd(a: multiset<Dispatch>, b: multiset<Dispatch>, x: Payload)
    ensures Of(a + b, x) == Of(a, x) + Of(b, x)
    decreases |b|
  {
    hide Of, OneOf;
    if b == multiset{} {
      OfNone(x);
      assert a + b == a;
    } else {
      var d := Pick(b);
      OfTake(b, d, x);
      OfTake(a + b, d, x);
      assert a + b - multiset{d} == a + (b - multiset{d});
      OfAdd(a, b - multiset{d}, x);
    }
  }

  lemma OfNone(x: Payload)
    ensures Of(multiset{}, x) == 0
  {
  }

  lemma OfOne(d: Dispatch, x: Payload)
    ensures Of(multiset{d}, x) == OneOf(d, x)
  {
    hide OneOf;
    OfTake(multiset{d}, d, x);
    assert multiset{d} - multiset{d} == multiset{};
    OfNone(x);
  }

  lemma {:induction false} OfDispatches(id: Id, payloads: seq<Payload>, x: Payload)
    ensures Of(multiset(Dispatches(id, payloads)), x) == multiset(payloads)[x]
  {
    hide Of;
    if payloads == [] {
      OfNone(x);
    } else {
      var d, rest := Dispatch(id, payloads[0]), Dispatches(id, payloads[1..]);
      assert multiset(Dispatches(id, payloads)) == multiset{d} + multiset(rest);
      OfAdd(multiset{d}, multiset(rest), x);
      OfOne(d, x);
      OfDispatches(id, payloads[1..], x);
      assert payloads == [payloads[0]] + payloads[1..];
    }
  }

  /** How often the messages carry the payload x; all of them, or the unsafe ones. */
  function Flying(es: seq<Envelope>, x: Payload, all: bool): nat {
    if es == [] then 0
    else (if all || !es[0].safe then Carried(es[0].message)[x] else 0) + Flying(es[1..], x, all)
  }

  lemma {:induction false} FlyingAppend(a: seq<Envelope>, b: seq<Envelope>, x: Payload, all: bool)
    ensures Flying(a + b, x, all) == Flying(a, x, all) + Flying(b, x, all)
  {
    hide Carried;
    if a == [] {
      assert a + b == b;
    } else {
      assert (a + b)[1..] == a[1..] + b;
      FlyingAppend(a[1..], b, x, all);
    }
  }

  lemma FlyingOne(e: Envelope, x: Payload, all: bool)
    ensures Flying([e], x, all) == if all || !e.safe then Carried(e.message)[x] else 0
    ensures Flying([], x, all) == 0
  {
    assert [e][1..] == [];
  }

  lemma FlyingRemoved(es: seq<Envelope>, i: nat, x: Payload, all: bool)
    requires i < |es|
    ensures Flying(es, x, all)
         == Flying(RemoveAt(es, i), x, all) + if all || !es[i].safe then Carried(es[i].message)[x] else 0
  {
    hide Flying, Carried;
    assert es == es[..i] + ([es[i]] + es[i + 1..]);
    FlyingAppend(es[..i], [es[i]] + es[i + 1..], x, all);
    FlyingAppend([es[i]], es[i + 1..], x, all);
    FlyingAppend(es[..i], es[i + 1..], x, all);
    FlyingOne(es[i], x, all);
  }

  /** How often the payload x waits for one of the first n numbers. */
  function InTodo(p: Protocol, n: nat, x: Payload): nat {
    if n == 0 then 0 else multiset(Todo(p, n - 1))[x] + InTodo(p, n - 1, x)
  }

  /** A change at one number. */
  lemma {:induction false} InTodoChanged(p: Protocol, q: Protocol, num: nat, n: nat, x: Payload)
    requires forall i: nat :: i != num ==> Todo(q, i) == Todo(p, i)
    ensures InTodo(q, n, x) + (if num < n then multiset(Todo(p, num))[x] else 0)
         == InTodo(p, n, x) + (if num < n then multiset(Todo(q, num))[x] else 0)
  {
    hide Todo;
    if n > 0 {
      InTodoChanged(p, q, num, n - 1, x);
    }
  }

  lemma {:induction false} NothingInTodo(p: Protocol, n: nat, x: Payload)
    requires p.todo == map[]
    ensures InTodo(p, n, x) == 0
  {
    if n > 0 {
      NothingInTodo(p, n - 1, x);
    }
  }

  // ----- what every run keeps

  /** A message that the receiver parses, with a 16-bit key; only channel packets are unsafe. */
  ghost predicate Sendable(e: Envelope) {
    WellFormed(e.message) && e.message.key < 0x1_0000 && (e.safe || Kind(e.message) == CHANNEL)
  }

  ghost predicate AllSendable(es: seq<Envelope>) {
    forall i :: 0 <= i < |es| ==> Sendable(es[i])
  }

  /** Packets wait only for numbers that are asked for. */
  ghost predicate WaitsAsked(c: Client) {
    forall num :: num in c.p.todo ==> num < NUMBERS && (Asked(c.up, num) || Asked(c.down, num))
  }

  /** Every payload sent is under way, waiting, dispatched or lost; and lost only with an unsafe packet. */
  ghost predicate Balanced(c: Client, x: Payload) {
    && Of(c.expected, x) == Flying(c.down, x, true) + InTodo(c.p, NUMBERS, x) + Of(c.dispatched, x) + c.gone[x]
    && c.gone[x] + Flying(c.down, x, false) <= Of(c.risked, x)
    && Of(c.sent, x) == Flying(c.up, x, true) + Of(c.arrived, x) + c.goneUp[x]
    && c.goneUp[x] + Flying(c.up, x, false) <= Of(c.riskedUp, x)
  }

  ghost predicate Sound(c: Client) {
    && c.p.mode.ClientMode? && AllSendable(c.down) && AllSendable(c.up) && WaitsAsked(c)
    && forall x: Payload :: Balanced(c, x)
  }

  ghost predicate AllSound(n: Network) {
    n.host.mode.HostMode? && forall k :: 0 <= k < |n.clients| ==> Sound(n.clients[k])
  }

  lemma SendableMore(es: seq<Envelope>, e: Envelope)
    requires AllSendable(es) && Sendable(e)
    ensures AllSendable(es + [e])
  {
  }

  lemma SendableLess(es: seq<Envelope>, i: nat)
    requires AllSendable(es) && i < |es|
    ensures Sendable(es[i]) && AllSendable(RemoveAt(es, i))
  {
  }

  // ----- sending

  /** What is sent for an id carries the payload. */
  lemma SentCarries(p: Protocol, id: Id, payload: Payload, safe: bool)
    requires !p.mode.IdleMode?
    ensures var (p1, es) := Sent(p, id, payload, safe);
            && p1.mode == p.mode && p1.todo == p.todo && |es| == 1
            && Sendable(es[0]) && (safe ==> es[0].safe) && Carried(es[0].message) == multiset{payload}
  {
    KeyRecovered(CHANNEL, GetIdNum(p, id), Raw(payload));
    KeyRecovered(ID_CHANNEL, CreatedNum(p, id), Named(id, payload));
    KeyRecovered(ID_CHANNEL, 0, Named(id, payload));
  }

  lemma GetsSent(c: Client, e: Envelope, d: Dispatch, safe: bool)
    requires Sound(c) && Sendable(e) && (safe ==> e.safe) && Carried(e.message) == multiset{d.payload}
    ensures Sound(Account(c.(down := c.down + [e]), d, safe))
  {
    hide Sendable, AllSendable, Carried, Of, Flying, InTodo, Asked;
    var c1 := Account(c.(down := c.down + [e]), d, safe);
    SendableMore(c.down, e);
    forall num | num in c1.p.todo ensures num < NUMBERS && (Asked(c1.up, num) || Asked(c1.down, num)) {
      if Asked(c.down, num) {
        AskedMore(c.down, [e], num);
      }
    }
    forall x: Payload ensures Balanced(c1, x) {
      assert Balanced(c, x);
      FlyingAppend(c.down, [e], x, true);
      FlyingAppend(c.down, [e], x, false);
      FlyingOne(e, x, true);
      FlyingOne(e, x, false);
      OfAdd(c.expected, multiset{d}, x);
      OfAdd(c.risked, multiset{d}, x);
      OfOne(d, x);
    }
  }

  lemma Sends(c: Client, id: Id, payload: Payload, safe: bool)
    requires Sound(c)
    ensures var (p, es) := Sent(c.p, id, payload, safe);
            Sound(AccountUp(c.(p := p, up := c.up + es), Dispatch(id, payload), safe))
  {
    hide Sendable, AllSendable, Carried, Of, Flying, InTodo, Asked, Sent;
    var (p, es) := Sent(c.p, id, payload, safe);
    SentCarries(c.p, id, payload, safe);
    var e, d := es[0], Dispatch(id, payload);
    assert es == [e];
    var c1 := AccountUp(c.(p := p, up := c.up + es), d, safe);
    SendableMore(c.up, e);
    forall num | num in c1.p.todo ensures num < NUMBERS && (Asked(c1.up, num) || Asked(c1.down, num)) {
      if Asked(c.up, num) {
        AskedMore(c.up, [e], num);
      }
    }
    forall x: Payload ensures Balanced(c1, x) {
      assert Balanced(c, x);
      FlyingAppend(c.up, [e], x, true);
      FlyingAppend(c.up, [e], x, false);
      FlyingOne(e, x, true);
      FlyingOne(e, x, false);
      OfAdd(c.sent, multiset{d}, x);
      OfAdd(c.riskedUp, multiset{d}, x);
      OfOne(d, x);
      SameTodo(c.p, p, x);
    }
  }

  lemma {:induction false} SameTodo(p: Protocol, q: Protocol, x: Payload)
    requires q.todo == p.todo
    ensures InTodo(q, NUMBERS, x) == InTodo(p, NUMBERS, x)
  {
    InTodoChanged(p, q, 0, NUMBERS, x);
  }

  // ----- receiving

  /** At a client, what a message carries is dispatched or waits, with all that waited for its number. */
  lemma ClientGets(p: Protocol, m: Message, x: Payload)
    requires p.mode.ClientMode? && WellFormed(m) && m.key < 0x1_0000
    ensures var o := Received(p, m);
            InTodo(o.p, NUMBERS, x) + Of(multiset(o.dispatched), x) == InTodo(p, NUMBERS, x) + Carried(m)[x]
  {
    hide Of, InTodo, Todo, Dispatches;
    var o, num := Received(p, m), Num(m);
    OfNone(x);
    if Kind(m) == ID_NUM {
      TodoTaken(p, o.p, num);
      InTodoChanged(p, o.p, num, NUMBERS, x);
      OfDispatches(m.body.id, Todo(p, num), x);
    } else if Kind(m) == CHANNEL && GetNumId(p, num) == "" {
      TodoAdded(p, o.p, num, m.body.payload);
      InTodoChanged(p, o.p, num, NUMBERS, x);
    } else {
      SameTodo(p, o.p, x);
      if Kind(m) == CHANNEL || Kind(m) == ID_CHANNEL {
        assert o.dispatched == [o.dispatched[0]];
        OfOne(o.dispatched[0], x);
      }
    }
  }

  lemma TodoTaken(p: Protocol, q: Protocol, num: nat)
    requires q.todo == p.todo - {num}
    ensures Todo(q, num) == [] && forall i: nat :: i != num ==> Todo(q, i) == Todo(p, i)
  {
  }

  lemma TodoAdded(p: Protocol, q: Protocol, num: nat, x: Payload)
    requires q.todo == p.todo[num := Todo(p, num) + [x]]
    ensures Todo(q, num) == Todo(p, num) + [x] && forall i: nat :: i != num ==> Todo(q, i) == Todo(p, i)
  {
  }

  /** A client asks for a number it begins to wait for, and waits no longer for a number it is told. */
  lemma ClientAsks(p: Protocol, m: Message)
    requires p.mode.ClientMode? && WellFormed(m) && m.key < 0x1_0000
    ensures var o := Received(p, m);
            && o.p.mode.ClientMode? && |o.replies| <= 1
            && (|o.replies| == 1 ==>
                  Kind(o.replies[0].message) == ID_NUM && o.replies[0].safe && Sendable(o.replies[0]))
            && forall num :: num in o.p.todo ==>
                 || (num in p.todo && !(Kind(m) == ID_NUM && Num(m) == num))
                 || (num < NUMBERS && |o.replies| == 1 && Num(o.replies[0].message) == num)
  {
    KeyRecovered(ID_NUM, Num(m), Name(""));
  }

  /** At the host, what a message carries is dispatched, and a request is answered. */
  lemma HostGets(h: Protocol, m: Message, x: Payload)
    requires h.mode.HostMode? && WellFormed(m) && m.key < 0x1_0000
    ensures var o := Received(h, m);
            && o.p.mode.HostMode? && Of(multiset(o.dispatched), x) == Carried(m)[x] && |o.replies| <= 1
            && (Kind(m) == ID_NUM ==> |o.replies| == 1 && Num(o.replies[0].message) == Num(m))
            && (|o.replies| == 1 ==>
                  Kind(o.replies[0].message) == ID_NUM && o.replies[0].safe && Sendable(o.replies[0]))
  {
    hide Of;
    var o := Received(h, m);
    OfNone(x);
    KeyRecovered(ID_NUM, Num(m), Name(GetNumId(h, Num(m))));
    if Kind(m) == ID_CHANNEL {
      KeyRecovered(ID_NUM, CreatedNum(h, m.body.id), Name(m.body.id));
    }
    if Kind(m) == CHANNEL || Kind(m) == ID_CHANNEL {
      assert o.dispatched == [o.dispatched[0]];
      OfOne(o.dispatched[0], x);
    }
  }

  lemma RequestCarries(m: Message)
    requires Kind(m) == ID_NUM
    ensures Carried(m) == multiset{}
  {
  }

  /** More messages without a payload do not change how often one is under way. */
  lemma FlyingReplies(es: seq<Envelope>, replies: seq<Envelope>, x: Payload, all: bool)
    requires |replies| <= 1 && (|replies| == 1 ==> Kind(replies[0].message) == ID_NUM)
    ensures Flying(es + replies, x, all) == Flying(es, x, all)
  {
    hide Flying, Carried;
    FlyingAppend(es, replies, x, all);
    if |replies| == 1 {
      assert replies == [replies[0]];
      RequestCarries(replies[0].message);
      FlyingOne(replies[0], x, all);
    } else {
      assert es + replies == es;
    }
  }

  lemma SendableReplies(es: seq<Envelope>, replies: seq<Envelope>)
    requires AllSendable(es) && |replies| <= 1 && (|replies| == 1 ==> Sendable(replies[0]))
    ensures AllSendable(es + replies)
  {
  }

  lemma TakesDown(c: Client, i: nat)
    requires Sound(c) && i < |c.down|
    ensures WellFormed(c.down[i].message) && Sound(TakenDown(c, i))
  {
    hide Sendable, AllSendable, Carried, Of, Flying, InTodo, Asked, Received, Kind, Num, WellFormed;
    SendableLess(c.down, i);
    SendableParses(c.down[i]);
    var m, c1 := c.down[i].message, TakenDown(c, i);
    var o := Received(c.p, m);
    ClientAsks(c.p, m);
    SendableReplies(c.up, o.replies);
    forall num | num in c1.p.todo ensures num < NUMBERS && (Asked(c1.up, num) || Asked(c1.down, num)) {
      if num in c.p.todo && !(Kind(m) == ID_NUM && Num(m) == num) {
        if Asked(c.down, num) {
          AskedRemoved(c.down, i, num);
        } else {
          AskedMore(c.up, o.replies, num);
        }
      } else {
        AskedOne(o.replies[0], num);
        assert o.replies == [o.replies[0]];
        AskedMore(c.up, o.replies, num);
      }
    }
    forall x: Payload ensures Balanced(c1, x) {
      assert Balanced(c, x);
      FlyingRemoved(c.down, i, x, true);
      FlyingRemoved(c.down, i, x, false);
      FlyingReplies(c.up, o.replies, x, true);
      FlyingReplies(c.up, o.replies, x, false);
      ClientGets(c.p, m, x);
      OfAdd(c.dispatched, multiset(o.dispatched), x);
    }
  }

  lemma SendableParses(e: Envelope)
    requires Sendable(e)
    ensures WellFormed(e.message) && e.message.key < 0x1_0000 && (e.safe || Kind(e.message) == CHANNEL)
  {
  }

  /** A reply of the host reaches a client. */
  lemma GetsReplies(c: Client, replies: seq<Envelope>)
    requires Sound(c) && |replies| <= 1
    requires |replies| == 1 ==> Kind(replies[0].message) == ID_NUM && Sendable(replies[0])
    ensures Sound(c.(down := c.down + replies))
  {
    hide Sendable, AllSendable, Carried, Of, Flying, InTodo, Asked, Kind, Num;
    var c1 := c.(down := c.down + replies);
    SendableReplies(c.down, replies);
    forall num | num in c1.p.todo ensures num < NUMBERS && (Asked(c1.up, num) || Asked(c1.down, num)) {
      if Asked(c.down, num) {
        AskedMore(c.down, replies, num);
      }
    }
    forall x: Payload ensures Balanced(c1, x) {
      assert Balanced(c, x);
      FlyingReplies(c.down, replies, x, true);
      FlyingReplies(c.down, replies, x, false);
    }
  }

  /** A message leaves the way up; a request once its reply is on the way down. */
  lemma TakesUp(c: Client, i: nat, o: Outcome)
    requires Sound(c) && i < |c.up| && forall x :: Of(multiset(o.dispatched), x) == Carried(c.up[i].message)[x]
    requires Kind(c.up[i].message) == ID_NUM ==> Asked(c.down, Num(c.up[i].message))
    ensures Sound(TakenUp(c, i, o))
  {
    hide Sendable, AllSendable, Carried, Of, Flying, InTodo, Asked, Kind, Num;
    var c1 := TakenUp(c, i, o);
    SendableLess(c.up, i);
    forall num | num in c1.p.todo ensures num < NUMBERS && (Asked(c1.up, num) || Asked(c1.down, num)) {
      if Asked(c.up, num) {
        AskedRemoved(c.up, i, num);
      }
    }
    forall x: Payload ensures Balanced(c1, x) {
      assert Balanced(c, x);
      FlyingRemoved(c.up, i, x, true);
      FlyingRemoved(c.up, i, x, false);
      OfAdd(c.arrived, multiset(o.dispatched), x);
    }
  }

  // ----- losing

  lemma LosesDown(c: Client, i: nat, ids: map<nat, Id>)
    requires Sound(c) && i < |c.down| && !c.down[i].safe
    ensures Sound(DroppedDown(c, i, ids))
  {
    hide Sendable, AllSendable, Carried, Content, Of, Flying, InTodo, Asked, Kind, Num;
    var c1 := DroppedDown(c, i, ids);
    SendableLess(c.down, i);
    SendableParses(c.down[i]);
    forall num | num in c1.p.todo ensures num < NUMBERS && (Asked(c1.up, num) || Asked(c1.down, num)) {
      if Asked(c.down, num) {
        AskedRemoved(c.down, i, num);
      }
    }
    forall x: Payload ensures Balanced(c1, x) {
      assert Balanced(c, x);
      FlyingRemoved(c.down, i, x, true);
      FlyingRemoved(c.down, i, x, false);
    }
  }

  lemma LosesUp(c: Client, i: nat, ids: map<nat, Id>)
    requires Sound(c) && i < |c.up| && !c.up[i].safe
    ensures Sound(DroppedUp(c, i, ids))
  {
    hide Sendable, AllSendable, Carried, Content, Of, Flying, InTodo, Asked, Kind, Num;
    var c1 := DroppedUp(c, i, ids);
    SendableLess(c.up, i);
    SendableParses(c.up[i]);
    forall num | num in c1.p.todo ensures num < NUMBERS && (Asked(c1.up, num) || Asked(c1.down, num)) {
      if Asked(c.up, num) {
        AskedRemoved(c.up, i, num);
      }
    }
    forall x: Payload ensures Balanced(c1, x) {
      assert Balanced(c, x);
      FlyingRemoved(c.up, i, x, true);
      FlyingRemoved(c.up, i, x, false);
    }
  }

  // ----- steps and runs

  lemma JoinedSound()
    ensures Sound(Joined())
  {
    hide InTodo, Of;
    var c := Joined();
    KeyRecovered(FULL_SEND, 0, Empty);
    forall x: Payload ensures Balanced(c, x) {
      OfNone(x);
      FlyingOne(c.up[0], x, true);
      FlyingOne(c.up[0], x, false);
      NothingInTodo(c.p, NUMBERS, x);
    }
  }

  lemma HostSendSound(n: Network, id: Id, payload: Payload, safe: bool)
    requires AllSound(n) && AllWellFormed(n)
    ensures AllSound(Next(n, HostSend(id, payload, safe)))
  {
    hide Sound, Sendable, Carried, Sent, Account;
    var (h, es) := Sent(n.host, id, payload, safe);
    SentCarries(n.host, id, payload, safe);
    assert es == [es[0]];
    var r, d := Next(n, HostSend(id, payload, safe)), Dispatch(id, payload);
    forall k | 0 <= k < |r.clients| ensures Sound(r.clients[k]) {
      GetsSent(n.clients[k], es[0], d, safe);
    }
  }

  lemma DeliverUpSound(n: Network, k: nat, i: nat)
    requires AllSound(n) && AllWellFormed(n) && Possible(n, DeliverUp(k, i))
    ensures AllSound(Next(n, DeliverUp(k, i)))
  {
    hide Sound, Sendable, AllSendable, Carried, Received, Asked, Of, WellFormed, Kind, Num;
    var m := n.clients[k].up[i].message;
    UpParses(n.clients[k], i);
    var o := Received(n.host, m);
    var r := Next(n, DeliverUp(k, i));
    HostGets(n.host, m, []);
    forall j | 0 <= j < |r.clients| ensures Sound(r.clients[j]) {
      var c := n.clients[j];
      GetsReplies(c, o.replies);
      if j == k {
        var c1 := c.(down := c.down + o.replies);
        forall x ensures Of(multiset(o.dispatched), x) == Carried(m)[x] {
          HostGets(n.host, m, x);
        }
        if Kind(m) == ID_NUM {
          AskedOne(o.replies[0], Num(m));
          assert o.replies == [o.replies[0]];
          AskedMore(c.down, o.replies, Num(m));
        }
        TakesUp(c1, i, o);
        assert r.clients[k] == TakenUp(c1, i, o);
      }
    }
  }

  lemma UpParses(c: Client, i: nat)
    requires Sound(c) && i < |c.up|
    ensures WellFormed(c.up[i].message) && c.up[i].message.key < 0x1_0000
  {
    hide WellFormed;
    SendableLess(c.up, i);
  }

  lemma NextSound(n: Network, e: Event)
    requires AllSound(n) && AllWellFormed(n)
    ensures AllSound(Next(n, e))
  {
    hide Sound, Received, Sent, Content, Carried, WellFormed;
    if Possible(n, e) {
      match e
      case HostSend(id, payload, safe) => HostSendSound(n, id, payload, safe);
      case ClientSend(k, id, payload, safe) => Sends(n.clients[k], id, payload, safe);
      case DeliverDown(k, i) => TakesDown(n.clients[k], i);
      case DeliverUp(k, i) => DeliverUpSound(n, k, i);
      case LoseDown(k, i) => LosesDown(n.clients[k], i, n.host.numToId);
      case LoseUp(k, i) => LosesUp(n.clients[k], i, n.host.numToId);
      case Join => JoinedSound();
    }
  }

  lemma {:induction false} RunSound(n: Network, es: seq<Event>)
    requires AllSound(n) && AllWellFormed(n)
    ensures AllSound(Run(n, es))
    decreases |es|
  {
    hide Next, AllWellFormed, AllSound;
    if es != [] {
      NextParsable(n, es[0]);
      NextSound(n, es[0]);
      RunSound(Next(n, es[0]), es[1..]);
    }
  }

  lemma ReachableSound(es: seq<Event>, k: nat)
    requires k < |Run(Start(), es).clients|
    ensures Sound(Run(Start(), es).clients[k])
  {
    hide Run, Sound;
    StartIsWell();
    RunSound(Start(), es);
  }

  // ----- what that means

  /**
   * In every run, whatever the host sent while the client was there is under
   * way, waiting, dispatched or lost, all together exactly as often as it was
   * sent, and lost only as often as it was sent unsafe; likewise upwards.
   * This holds of every payload, and up to the limit of every packet with its
   * id.
   */
  lemma NothingAstray(es: seq<Event>, k: nat, d: Dispatch)
    requires k < |Run(Start(), es).clients|
    ensures var n := Run(Start(), es);
            Balanced(n.clients[k], d.payload) && (|n.host.idToNum| <= MAX_IDS ==> Conserved(n.clients[k], n.host, d))
  {
    hide Run, Balanced, Conserved, WaitsAsked, AllSendable;
    ReachableSound(es, k);
    var n := Run(Start(), es);
    if |n.host.idToNum| <= MAX_IDS {
      Reachable(es);
      assert ClientWell(n.clients[k], n.host);
    }
  }

  /** In every run, whenever packets wait for a number, a request or a reply for it is under way. */
  lemma WaitingIsAskedFor(es: seq<Event>, k: nat, num: nat)
    requires k < |Run(Start(), es).clients|
    ensures var n := Run(Start(), es);
            var c := n.clients[k];
            num in c.p.todo ==>
              && num < NUMBERS && (Asked(c.up, num) || Asked(c.down, num))
              && (|n.host.idToNum| <= MAX_IDS ==> num in n.host.numToId)
  {
    hide Run, Balanced, AllSendable, Asked;
    ReachableSound(es, k);
    var n := Run(Start(), es);
    if |n.host.idToNum| <= MAX_IDS {
      Reachable(es);
      assert ClientWell(n.clients[k], n.host);
    }
  }

  /**
   * Once everything has arrived, nothing waits, and each payload has been
   * dispatched as often as it was sent, less what got lost; up to the limit,
   * each packet under its id.
   */
  lemma AllDispatched(es: seq<Event>, k: nat, d: Dispatch) returns (more: seq<Event>)
    requires k < |Run(Start(), es).clients|
    ensures DeliveriesOf(more, k)
    ensures var n, r, x := Run(Start(), es), Run(Start(), es + more), d.payload;
            && |r.clients| == |n.clients| && r.clients[k].p.todo == map[]
            && AllCame(Of(n.clients[k].expected, x), Of(n.clients[k].risked, x),
                       n.clients[k].gone[x], Of(r.clients[k].dispatched, x))
            && AllCame(Of(n.clients[k].sent, x), Of(n.clients[k].riskedUp, x),
                       n.clients[k].goneUp[x], Of(r.clients[k].arrived, x))
            && (|r.host.idToNum| <= MAX_IDS ==>
                  && AllCame(n.clients[k].expected[d], n.clients[k].risked[d],
                             n.clients[k].lost[d], r.clients[k].dispatched[d])
                  && AllCame(n.clients[k].sent[d], n.clients[k].riskedUp[d],
                             n.clients[k].lostUp[d], r.clients[k].arrived[d]))
  {
    hide Run, Balanced, Conserved, AllSendable, Of;
    var n := Run(Start(), es);
    StartIsWell();
    ClientsAreClients(Start(), es);
    more := Drain(n, k);
    RunAppend(Start(), es, more);
    var r := Run(Start(), es + more);
    NothingAstray(es, k, d);
    NothingAstray(es + more, k, d);
    ReachableSound(es + more, k);
    NothingWaits(r.clients[k]);
    RunGrows(n, more);
    DrainedBalance(n.clients[k], r.clients[k], d.payload);
    if |r.host.idToNum| <= MAX_IDS {
      DrainedAccount(n.clients[k], n.host, r.clients[k], r.host, d);
    }
  }

  /** What came is what was sent, but for what had got lost; all of it, if none was sent unsafe. */
  predicate AllCame(sent: nat, risked: nat, lost: nat, came: nat) {
    came + lost == sent && (risked == 0 ==> came == sent)
  }

  lemma NothingWaits(c: Client)
    requires WaitsAsked(c) && c.down == [] && c.up == []
    ensures c.p.todo == map[]
  {
    forall num: nat
      ensures num !in c.p.todo
    {
      assert !Asked(c.up, num) && !Asked(c.down, num);
    }
    assert c.p.todo.Keys == {};
  }

  lemma DrainedBalance(c: Client, r: Client, x: Payload)
    requires Balanced(c, x) && Balanced(r, x) && r.down == [] && r.up == [] && r.p.todo == map[]
    requires r.expected == c.expected && r.gone == c.gone && r.sent == c.sent && r.goneUp == c.goneUp
    ensures AllCame(Of(c.expected, x), Of(c.risked, x), c.gone[x], Of(r.dispatched, x))
    ensures AllCame(Of(c.sent, x), Of(c.riskedUp, x), c.goneUp[x], Of(r.arrived, x))
  {
    hide Of, InTodo;
    NothingInTodo(r.p, NUMBERS, x);
  }

  lemma DrainedAccount(c: Client, h: Protocol, r: Client, h1: Protocol, d: Dispatch)
    requires Conserved(c, h, d) && Conserved(r, h1, d) && r.down == [] && r.up == [] && r.p.todo == map[]
    requires r.expected == c.expected && r.lost == c.lost && r.sent == c.sent && r.lostUp == c.lostUp
    ensures AllCame(c.expected[d], c.risked[d], c.lost[d], r.dispatched[d])
    ensures AllCame(c.sent[d], c.riskedUp[d], c.lostUp[d], r.arrived[d])
  {
  }
}
