/**
 * When the image stream stays in step: exactly when the packets under way lead
 * every client to the counter of the host and no reset is under way.  One
 * client can always be brought there.
 */
module MetafileSettled {
  import opened MetafileSteps
  import opened Options
  import opened MetafileRuns

  /** The counter that receiving all the packets ends with, if none is out of sequence. */
  function Expected(sent: seq<Sent>, counter: nat): Option<nat> {
    if sent == [] then Some(counter)
    else if sent[0].packet.counter == counter then Expected(sent[1..], Succ(counter))
    else None
  }

  predicate LinkSettled(sent: seq<Sent>, l: Link, counter: nat)
    requires l.received <= |sent|
  {
    Reset !in l.up && Expected(sent[l.received..], l.client.counter) == Some(counter)
  }

  predicate Settled(s: System)
    requires Safe(s)
  {
    forall k :: 0 <= k < |s.links| ==> LinkSettled(s.sent, s.links[k], s.host.counter)
  }

  /** A client is about to reject a packet. */
  predicate Mismatch(s: System, e: Event) {
    e.DeliverData? && HasData(s, e.link) && s.links[e.link].client.counter != NextSent(s, e.link).packet.counter
  }

  predicate Clean(zd: Codec, s: System, es: seq<Event>)
    requires Safe(s)
    decreases |es|
  {
    es == [] || (!Mismatch(s, es[0]) && Clean(zd, Next(zd, s, es[0]), es[1..]))
  }

  predicate NoJoin(es: seq<Event>) {
    Join !in es
  }

  // ----- settled streams stay settled

  lemma {:induction false} ExpectedAppend(sent: seq<Sent>, counter: nat, p: Sent)
    ensures Expected(sent + [p], counter)
         == if Expected(sent, counter) == Some(p.packet.counter) then Some(Succ(p.packet.counter)) else None
  {
    if sent == [] {
      assert (sent + [p])[1..] == [];
    } else {
      assert (sent + [p])[1..] == sent[1..] + [p];
      ExpectedAppend(sent[1..], Succ(counter), p);
    }
  }

  lemma SettledSend(zd: Codec, s: System, ok: bool)
    requires Safe(s) && Settled(s)
    ensures Settled(Next(zd, s, Compress(ok)))
  {
    var r := Next(zd, s, Compress(ok));
    if |r.sent| > |s.sent| {
      var p := r.sent[|s.sent|];
      forall k | 0 <= k < |s.links|
        ensures LinkSettled(r.sent, r.links[k], r.host.counter)
      {
        var l := s.links[k];
        assert LinkSettled(s.sent, l, s.host.counter);
        assert r.sent[l.received..] == s.sent[l.received..] + [p];
        ExpectedAppend(s.sent[l.received..], l.client.counter, p);
      }
    } else {
      assert forall k :: 0 <= k < |s.links| ==> LinkSettled(s.sent, s.links[k], s.host.counter);
    }
  }

  lemma SettledData(zd: Codec, s: System, k: nat)
    requires Inverse(zd) && Inv(zd, s) && Safe(s) && Settled(s)
    ensures !Mismatch(s, DeliverData(k)) && Settled(Next(zd, s, DeliverData(k)))
  {
    if HasData(s, k) {
      hide Inv, Safe, Inverse;
      var l, r := s.links[k], Next(zd, s, DeliverData(k));
      assert LinkSettled(s.sent, l, s.host.counter);
      assert s.sent[l.received..][1..] == s.sent[l.received + 1..];
      SameReference(zd, s, k);
      UncompressedWell(zd, s, k);
      assert LinkSettled(r.sent, r.links[k], r.host.counter);
      assert forall j :: 0 <= j < |s.links| ==> LinkSettled(s.sent, s.links[j], s.host.counter);
    } else {
      assert Next(zd, s, DeliverData(k)) == s;
    }
  }

  lemma UncompressedWell(zd: Codec, s: System, k: nat)
    requires Inverse(zd) && Inv(zd, s) && Safe(s) && HasData(s, k)
    requires s.links[k].client.counter == NextSent(s, k).packet.counter
    ensures Received(zd, s.links[k].client, NextSent(s, k).packet)
         == (Decompressor(Succ(s.links[k].client.counter), Some(NextSent(s, k).image)), Ack)
  {
    SameReference(zd, s, k);
  }

  lemma SettledReply(zd: Codec, s: System, k: nat)
    requires Safe(s) && Settled(s)
    ensures Settled(Next(zd, s, DeliverReply(k)))
  {
    var r := Next(zd, s, DeliverReply(k));
    if HasReply(s, k) {
      assert LinkSettled(s.sent, s.links[k], s.host.counter);
      assert r.host.counter == s.host.counter;
    }
    forall j | 0 <= j < |r.links|
      ensures LinkSettled(r.sent, r.links[j], r.host.counter)
    {
      assert LinkSettled(s.sent, s.links[j], s.host.counter);
    }
  }

  lemma SettledStep(zd: Codec, s: System, e: Event)
    requires Inverse(zd) && Inv(zd, s) && Safe(s) && Settled(s) && !e.Join?
    ensures !Mismatch(s, e) && Settled(Next(zd, s, e))
  {
    match e
    case Compress(ok) => SettledSend(zd, s, ok);
    case DeliverData(k) => SettledData(zd, s, k);
    case DeliverReply(k) => SettledReply(zd, s, k);
    case Offer(_) => SettledLocally(zd, s, e);
    case Tick => SettledLocally(zd, s, e);
    case Join =>
  }

  lemma SettledLocally(zd: Codec, s: System, e: Event)
    requires Safe(s) && Settled(s) && (e.Offer? || e.Tick?)
    ensures Settled(Next(zd, s, e))
  {
    assert forall k :: 0 <= k < |s.links| ==> LinkSettled(s.sent, s.links[k], s.host.counter);
  }

  /** A late client joins without a mismatch to come just when the host is about to start afresh. */
  lemma JoinSettled(zd: Codec, s: System)
    requires Safe(s) && Settled(s)
    ensures Settled(Next(zd, s, Join)) <==> s.host.counter == 0
  {
    var r := Next(zd, s, Join);
    assert forall k :: 0 <= k < |s.links| ==>
      r.links[k] == s.links[k] && LinkSettled(s.sent, s.links[k], s.host.counter);
    assert s.sent[|s.sent|..] == [];
    assert LinkSettled(r.sent, r.links[|s.links|], s.host.counter) <==> s.host.counter == 0;
  }

  lemma {:induction false} SettledStays(zd: Codec, s: System, es: seq<Event>)
    requires Inverse(zd) && Inv(zd, s) && Safe(s) && Settled(s) && NoJoin(es)
    ensures Clean(zd, s, es) && Settled(Run(zd, s, es))
    decreases |es|
  {
    hide Inv, Next, Settled, Mismatch, Inverse;
    if es != [] {
      SettledStep(zd, s, es[0]);
      StepKeeps(zd, s, es[0]);
      SettledStays(zd, Next(zd, s, es[0]), es[1..]);
    }
  }

  // ----- unsettled streams can be made to miss

  lemma {:induction false} CleanAppend(zd: Codec, s: System, a: seq<Event>, b: seq<Event>)
    requires Safe(s)
    ensures Clean(zd, s, a + b) <==> Clean(zd, s, a) && Clean(zd, Run(zd, s, a), b)
    decreases |a|
  {
    hide Next, Mismatch, Safe;
    if a == [] {
      assert a + b == b;
    } else {
      assert (a + b)[1..] == a[1..] + b;
      CleanAppend(zd, Next(zd, s, a[0]), a[1..], b);
    }
  }

  /** What the host does on its own. */
  predicate Local(es: seq<Event>) {
    forall e :: e in es ==> e.Offer? || e.Tick? || e.Compress?
  }

  function Ticks(n: nat): seq<Event> {
    if n == 0 then [] else [Tick] + Ticks(n - 1)
  }

  lemma {:induction false} TicksLocal(n: nat)
    ensures Local(Ticks(n)) && NoJoin(Ticks(n))
  {
    if n > 0 {
      TicksLocal(n - 1);
    }
  }

  /** Waiting until the compressor may work again. */
  lemma {:induction false} WaitUp(zd: Codec, s: System)
    requires Safe(s) && s.job.None?
    ensures Run(zd, s, Ticks(s.host.timeout)) == s.(host := s.host.(timeout := 0))
    decreases s.host.timeout
  {
    if s.host.timeout > 0 {
      var r := s.(host := s.host.(timeout := s.host.timeout - 1));
      assert Next(zd, s, Tick) == r;
      assert Ticks(s.host.timeout)[1..] == Ticks(r.host.timeout);
      WaitUp(zd, r);
    }
  }

  /** Waiting for the compressor and sending one image. */
  function Sending(timeout: nat, image: Image): seq<Event> {
    Ticks(timeout) + [Offer(Some(image)), Tick, Compress(true)]
  }

  /** The compressor is idle and, should it need one, has a reference. */
  predicate Resting(s: System) {
    s.job.None? && s.host.last.None? && (s.host.counter != 0 ==> s.host.previous.Some?)
  }

  /** What an image is compressed against next. */
  function HostReference(c: Compressor): Image
    requires c.counter != 0 ==> c.previous.Some?
  {
    if c.counter == 0 then Zeros() else c.previous.value
  }

  function NewPacket(zd: Codec, c: Compressor, image: Image): Sent
    requires c.counter != 0 ==> c.previous.Some?
  {
    Sent(Packet(c.counter, zd.compress(HostReference(c), image)), HostReference(c), image)
  }

  lemma SendsOne(zd: Codec, s: System, image: Image)
    requires Safe(s) && Resting(s)
    ensures Run(zd, s, Sending(s.host.timeout, image))
         == s.(host := Compressor(Succ(s.host.counter), None, Some(image), WAITING_ROUNDS),
               sent := s.sent + [NewPacket(zd, s.host, image)])
    ensures Local(Sending(s.host.timeout, image)) && NoJoin(Sending(s.host.timeout, image))
  {
    TicksLocal(s.host.timeout);
    WaitUp(zd, s);
    var s1 := s.(host := s.host.(timeout := 0));
    var last3 := [Offer(Some(image)), Tick, Compress(true)];
    RunAppend(zd, s, Ticks(s.host.timeout), last3);
    assert last3 == [Offer(Some(image))] + ([Tick] + [Compress(true)]);
    var s2 := Next(zd, s1, Offer(Some(image)));
    var s3 := Next(zd, s2, Tick);
    assert s3.job == Some(Job(s.host.counter, image, s.host.previous));
    RunThree(zd, s1, Offer(Some(image)), Tick, Compress(true));
  }

  lemma RunThree(zd: Codec, s: System, a: Event, b: Event, c: Event)
    requires Safe(s)
    ensures Run(zd, s, [a, b, c]) == Next(zd, Next(zd, Next(zd, s, a), b), c)
  {
    hide Next, Safe, Run;
    assert [a, b, c] == [a] + [b, c];
    RunAppend(zd, s, [a], [b, c]);
    RunOne(zd, s, a);
    RunTwo(zd, Next(zd, s, a), b, c);
  }

  /** The compressor can be brought to rest without sending anything. */
  lemma ComesToRest(zd: Codec, s: System) returns (es: seq<Event>)
    requires Inv(zd, s) && Safe(s)
    ensures Local(es) && NoJoin(es)
    ensures var r := Run(zd, s, es);
            && Resting(r) && r.sent == s.sent && r.links == s.links
            && r.host.counter == s.host.counter && r.host.previous == s.host.previous
  {
    if s.job.Some? {
      es := [Compress(false)];
      RunOne(zd, s, Compress(false));
    } else if s.host.last.None? {
      es := [];
    } else {
      var n := s.host.timeout;
      TicksLocal(n);
      WaitUp(zd, s);
      var s1 := s.(host := s.host.(timeout := 0));
      var s2 := Next(zd, s1, Tick);
      assert s2.job.Some?;
      RunTwo(zd, s1, Tick, Compress(false));
      RunAppend(zd, s, Ticks(n), [Tick, Compress(false)]);
      es := Ticks(n) + [Tick, Compress(false)];
    }
  }

  lemma RunTwo(zd: Codec, s: System, a: Event, b: Event)
    requires Safe(s)
    ensures Run(zd, s, [a, b]) == Next(zd, Next(zd, s, a), b)
  {
    hide Next, Safe, Run;
    assert [a, b] == [a] + [b];
    RunAppend(zd, s, [a], [b]);
    RunOne(zd, s, a);
    RunOne(zd, Next(zd, s, a), b);
  }

  /** Sending one packet from any state. */
  lemma SendOne(zd: Codec, s: System) returns (es: seq<Event>)
    requires Inv(zd, s) && Safe(s)
    ensures NoJoin(es)
    ensures var r := Run(zd, s, es);
            && r.links == s.links && r.host.counter == Succ(s.host.counter)
            && exists p: Sent :: r.sent == s.sent + [p] && p.packet.counter == s.host.counter
  {
    hide Inv, Local, Next;
    var a := ComesToRest(zd, s);
    var s1 := Run(zd, s, a);
    SendsOne(zd, s1, []);
    var b := Sending(s1.host.timeout, []);
    RunAppend(zd, s, a, b);
    es := a + b;
    var p := NewPacket(zd, s1.host, []);
    assert Run(zd, s, es).sent == s.sent + [p];
  }

  /** A client that has received everything and does not have the host's counter rejects the next packet. */
  lemma MissesNext(zd: Codec, s: System, k: nat) returns (es: seq<Event>)
    requires Inv(zd, s) && Safe(s) && k < |s.links|
    requires s.links[k].received == |s.sent| && s.links[k].client.counter != s.host.counter
    ensures NoJoin(es) && !Clean(zd, s, es)
  {
    hide Inv, Next;
    var a := SendOne(zd, s);
    CleanAppend(zd, s, a, [DeliverData(k)]);
    es := a + [DeliverData(k)];
  }

  /** Delivering all that is on its way to client k, as far as its counters go. */
  lemma {:induction false} DeliverUpTo(zd: Codec, s: System, k: nat) returns (es: seq<Event>)
    requires Inverse(zd) && Inv(zd, s) && Safe(s) && k < |s.links|
    ensures NoJoin(es)
    ensures var e := Expected(s.sent[s.links[k].received..], s.links[k].client.counter);
            var r := Run(zd, s, es);
            if e.None? then !Clean(zd, s, es)
            else
              && r.sent == s.sent && r.host == s.host && |r.links| == |s.links|
              && r.links[k].received == |s.sent| && r.links[k].client.counter == e.value
              && s.links[k].up <= r.links[k].up
    decreases |s.sent| - s.links[k].received
  {
    hide Inverse, Inv;
    var l := s.links[k];
    if l.received == |s.sent| {
      es := [];
    } else {
      var e := DeliverData(k);
      assert s.sent[l.received..][1..] == s.sent[l.received + 1..];
      if Mismatch(s, e) {
        es := [e];
      } else {
        UncompressedWell(zd, s, k);
        StepKeeps(zd, s, e);
        var rest := DeliverUpTo(zd, Next(zd, s, e), k);
        es := [e] + rest;
        assert es[1..] == rest;
      }
    }
  }

  /** A reset on its way can be delivered, and only replies with it. */
  lemma {:induction false} DeliverReset(zd: Codec, s: System, k: nat) returns (es: seq<Event>)
    requires Safe(s) && k < |s.links| && Reset in s.links[k].up
    ensures NoJoin(es)
    ensures var r := Run(zd, s, es);
            && r.sent == s.sent && r.host.counter == 0 && |r.links| == |s.links|
            && r.links[k].received == s.links[k].received && r.links[k].client == s.links[k].client
    decreases |s.links[k].up|
  {
    var e := DeliverReply(k);
    var r := Next(zd, s, e);
    if s.links[k].up[0] == Reset {
      es := [e];
      RunOne(zd, s, e);
    } else {
      var rest := DeliverReset(zd, r, k);
      es := [e] + rest;
      assert es[1..] == rest;
    }
  }

  lemma {:induction false} CanMiss(zd: Codec, s: System, k: nat) returns (es: seq<Event>)
    requires Inverse(zd) && Inv(zd, s) && Safe(s) && k < |s.links| && !LinkSettled(s.sent, s.links[k], s.host.counter)
    ensures NoJoin(es) && !Clean(zd, s, es)
  {
    hide Inverse, Inv, Next, Mismatch;
    var a := DeliverUpTo(zd, s, k);
    if Expected(s.sent[s.links[k].received..], s.links[k].client.counter).None? {
      return a;
    }
    var s1 := Run(zd, s, a);
    RunKeeps(zd, s, a);
    if s1.links[k].client.counter != s1.host.counter {
      var b := MissesNext(zd, s1, k);
      CleanAppend(zd, s, a, b);
      return a + b;
    }
    var c := MissesAfterReset(zd, s1, k);
    CleanAppend(zd, s, a, c);
    es := a + c;
  }

  /** A client in step misses a packet once a reset that is under way has arrived. */
  lemma MissesAfterReset(zd: Codec, s: System, k: nat) returns (es: seq<Event>)
    requires Inverse(zd) && Inv(zd, s) && Safe(s) && k < |s.links| && Reset in s.links[k].up
    requires s.links[k].received == |s.sent| && s.links[k].client.counter == s.host.counter
    ensures NoJoin(es) && !Clean(zd, s, es)
  {
    hide Inverse, Inv, Next, Mismatch;
    var a: seq<Event> := [];
    var s1 := s;
    if s.host.counter == 0 {
      var b := SendOne(zd, s);
      var s2 := Run(zd, s, b);
      RunKeeps(zd, s, b);
      assert s2.sent[s2.links[k].received..][1..] == [];
      var c := DeliverUpTo(zd, s2, k);
      RunAppend(zd, s, b, c);
      a := b + c;
      s1 := Run(zd, s, a);
      RunKeeps(zd, s, a);
      assert Reset in s1.links[k].up;
    }
    var d := DeliverReset(zd, s1, k);
    var s3 := Run(zd, s1, d);
    RunKeeps(zd, s1, d);
    var f := MissesNext(zd, s3, k);
    CleanAppend(zd, s1, d, f);
    CleanAppend(zd, s, a, d + f);
    es := a + (d + f);
  }

  /** No run without late clients meets a mismatch, exactly when the stream is settled. */
  lemma NeverMissesIffSettled(zd: Codec, s: System)
    requires Inverse(zd) && Inv(zd, s) && Safe(s)
    ensures Settled(s) <==> forall es :: NoJoin(es) ==> Clean(zd, s, es)
  {
    hide Inverse, Inv, Clean, LinkSettled;
    if Settled(s) {
      forall es | NoJoin(es)
        ensures Clean(zd, s, es)
      {
        SettledStays(zd, s, es);
      }
    } else {
      var k :| 0 <= k < |s.links| && !LinkSettled(s.sent, s.links[k], s.host.counter);
      var es := CanMiss(zd, s, k);
      assert NoJoin(es) && !Clean(zd, s, es);
    }
  }

  // ----- rounds in which everything arrives at once

  /** Nothing is under way. */
  predicate Quiet(s: System) {
    && Resting(s)
    && forall k :: 0 <= k < |s.links| ==> s.links[k].received == |s.sent| && s.links[k].up == []
  }

  predicate InStep(s: System, k: nat)
    requires k < |s.links|
  {
    s.links[k].client.counter == s.host.counter
  }

  function DeliverAllData(n: nat): seq<Event> {
    if n == 0 then [] else DeliverAllData(n - 1) + [DeliverData(n - 1)]
  }

  function DeliverAllReplies(n: nat): seq<Event> {
    if n == 0 then [] else DeliverAllReplies(n - 1) + [DeliverReply(n - 1)]
  }

  /** One image is sent, reaches every client, and every reply reaches the host. */
  function PromptRound(s: System, image: Image): seq<Event> {
    Sending(s.host.timeout, image) + (DeliverAllData(|s.links|) + DeliverAllReplies(|s.links|))
  }

  /** The counter a client has, and the reply it has given, after a packet with the counter c. */
  function CounterAfter(d: nat, c: nat): nat {
    if d == c then Succ(c) else 0
  }

  function ReplyAfter(d: nat, c: nat): Reply {
    if d == c then Ack else Reset
  }

  /** Of the links of s, those below n have received the one packet that was under way. */
  ghost predicate Delivered(s: System, r: System, n: nat)
    requires n <= |s.links| && s.sent != []
  {
    var c := s.sent[|s.sent| - 1].packet.counter;
    && r.sent == s.sent && r.host == s.host && r.job == s.job && |r.links| == |s.links|
    && (forall k :: n <= k < |s.links| ==> r.links[k] == s.links[k])
    && forall k :: 0 <= k < n ==>
         && r.links[k].received == |s.sent|
         && r.links[k].up == [ReplyAfter(s.links[k].client.counter, c)]
         && r.links[k].client.counter == CounterAfter(s.links[k].client.counter, c)
  }

  lemma {:induction false} DeliversData(zd: Codec, s: System, n: nat)
    requires Inverse(zd) && Inv(zd, s) && Safe(s) && n <= |s.links| && s.sent != []
    requires forall k :: 0 <= k < |s.links| ==> s.links[k].received + 1 == |s.sent| && s.links[k].up == []
    ensures Delivered(s, Run(zd, s, DeliverAllData(n)), n)
  {
    hide Inverse, Inv, Next, Run, Delivered;
    if n == 0 {
      NothingDelivered(zd, s);
    }
    if n > 0 {
      DeliversData(zd, s, n - 1);
      RunAppend(zd, s, DeliverAllData(n - 1), [DeliverData(n - 1)]);
      var r := Run(zd, s, DeliverAllData(n - 1));
      RunKeeps(zd, s, DeliverAllData(n - 1));
      RunOne(zd, r, DeliverData(n - 1));
      DeliversOneMore(zd, s, r, n - 1);
    }
  }

  lemma NothingDelivered(zd: Codec, s: System)
    requires Safe(s) && s.sent != []
    ensures Delivered(s, Run(zd, s, DeliverAllData(0)), 0)
  {
  }

  lemma DeliversOneMore(zd: Codec, s: System, r: System, k: nat)
    requires Inverse(zd) && Inv(zd, r) && Safe(r) && k < |s.links| && s.sent != []
    requires s.links[k].received + 1 == |s.sent| && s.links[k].up == [] && Delivered(s, r, k)
    ensures Delivered(s, Next(zd, r, DeliverData(k)), k + 1)
  {
    hide Inverse, Inv, Safe;
    var l := r.links[k];
    assert l == s.links[k];
    var reply := ReplyAfter(l.client.counter, NextSent(r, k).packet.counter);
    assert l.up + [reply] == [reply];
    if l.client.counter == NextSent(r, k).packet.counter {
      UncompressedWell(zd, r, k);
    }
  }

  /** Of the links of s, those below n have handed their one reply to the host. */
  ghost predicate Answered(s: System, r: System, n: nat)
    requires n <= |s.links| && forall k :: 0 <= k < |s.links| ==> |s.links[k].up| == 1
  {
    && r.sent == s.sent && r.job == s.job && r.host.last == s.host.last && r.host.previous == s.host.previous
    && |r.links| == |s.links|
    && (forall k :: n <= k < |s.links| ==> r.links[k] == s.links[k])
    && (forall k :: 0 <= k < n ==> r.links[k] == s.links[k].(up := []))
    && r.host.counter == if exists k :: 0 <= k < n && s.links[k].up[0] == Reset then 0 else s.host.counter
  }

  lemma {:induction false} DeliversReplies(zd: Codec, s: System, n: nat)
    requires Safe(s) && n <= |s.links|
    requires forall k :: 0 <= k < |s.links| ==> |s.links[k].up| == 1
    ensures Answered(s, Run(zd, s, DeliverAllReplies(n)), n)
  {
    if n > 0 {
      DeliversReplies(zd, s, n - 1);
      RunAppend(zd, s, DeliverAllReplies(n - 1), [DeliverReply(n - 1)]);
      var r := Run(zd, s, DeliverAllReplies(n - 1));
      RunOne(zd, r, DeliverReply(n - 1));
      hide Answered, Run, Next;
      AnswersOneMore(zd, s, r, n - 1);
    } else {
      NothingAnswered(s);
    }
  }

  lemma NothingAnswered(s: System)
    requires forall k :: 0 <= k < |s.links| ==> |s.links[k].up| == 1
    ensures Answered(s, s, 0)
  {
  }

  lemma AnswersOneMore(zd: Codec, s: System, r: System, k: nat)
    requires Safe(r) && k < |s.links| && (forall k :: 0 <= k < |s.links| ==> |s.links[k].up| == 1) && Answered(s, r, k)
    ensures Answered(s, Next(zd, r, DeliverReply(k)), k + 1)
  {
    assert r.links[k] == s.links[k];
    assert s.links[k].up == [s.links[k].up[0]];
  }

  /** A prompt round: clients in step go on, the others start over, and so does then the host. */
  lemma AfterPromptRound(zd: Codec, s: System, image: Image)
    requires Inverse(zd) && Inv(zd, s) && Safe(s) && Quiet(s)
    ensures var r := Run(zd, s, PromptRound(s, image));
            && Quiet(r) && |r.links| == |s.links|
            && r.sent == s.sent + [NewPacket(zd, s.host, image)]
            && (forall k :: 0 <= k < |s.links| ==>
                  r.links[k].client.counter == CounterAfter(s.links[k].client.counter, s.host.counter))
            && r.host.counter == if forall k :: 0 <= k < |s.links| ==> InStep(s, k) then Succ(s.host.counter) else 0
  {
    hide Inverse, Inv, Next, Run;
    var n := |s.links|;
    SendsOne(zd, s, image);
    var a := Sending(s.host.timeout, image);
    RunKeeps(zd, s, a);
    var s1 := Run(zd, s, a);
    DeliversData(zd, s1, n);
    var s2 := Run(zd, s1, DeliverAllData(n));
    DeliversReplies(zd, s2, n);
    RunAppend(zd, s, a, DeliverAllData(n) + DeliverAllReplies(n));
    RunAppend(zd, s1, DeliverAllData(n), DeliverAllReplies(n));
    assert forall k :: 0 <= k < n ==> (s2.links[k].up[0] == Reset <==> !InStep(s, k));
  }

  /** A quiet stream is settled when all clients have the host's counter. */
  lemma QuietSettled(s: System)
    requires Safe(s) && Quiet(s)
    ensures Settled(s) <==> forall k :: 0 <= k < |s.links| ==> InStep(s, k)
  {
    assert s.sent[|s.sent|..] == [];
    forall k | 0 <= k < |s.links|
      ensures LinkSettled(s.sent, s.links[k], s.host.counter) <==> InStep(s, k)
    {
    }
  }

  /** One prompt round is enough for a single client, whatever went wrong before. */
  lemma OneClientSettles(zd: Codec, s: System, image: Image)
    requires Inverse(zd) && Inv(zd, s) && Safe(s) && Quiet(s) && |s.links| == 1
    ensures Settled(Run(zd, s, PromptRound(s, image)))
  {
    hide Inverse, Inv, Next, Run, PromptRound;
    AfterPromptRound(zd, s, image);
    var r := Run(zd, s, PromptRound(s, image));
    QuietSettled(r);
    assert (forall k :: 0 <= k < |s.links| ==> InStep(s, k)) <==> InStep(s, 0);
    assert InStep(r, 0);
  }
}
