/**
 * Runs of the image stream: one compressor, any number of decompressors that
 * join at any time, and a broadcast link that is reliable and in order.  Every
 * step of either side may happen at any moment, also between the two locked
 * parts of a compression.
 */
module MetafileRuns {
  import opened MetafileSteps
  import opened Options

  /** A packet that was sent, and what it was made from. */
  datatype Sent = Sent(packet: Packet, reference: Image, image: Image)

  /** A client: how much of what was sent has reached it, and its replies under way. */
  datatype Link = Link(client: Decompressor, received: nat, up: seq<Reply>)

  datatype System = System(host: Compressor, job: Option<Job>, sent: seq<Sent>, links: seq<Link>)

  datatype Event =
    | Offer(image: Option<Image>)
    | Tick
    | Compress(ok: bool)
    | DeliverData(link: nat)
    | DeliverReply(link: nat)
    | Join

  function Start(): System {
    System(Compressor(0, None, None, 0), None, [], [])
  }

  /** What keeps the steps defined: no side ever uses a reference it does not have. */
  predicate Safe(s: System) {
    && (s.job.Some? ==> HasReference(s.job.value))
    && forall k :: 0 <= k < |s.links| ==> Ready(s.links[k].client) && s.links[k].received <= |s.sent|
  }

  predicate HasData(s: System, k: nat) {
    k < |s.links| && s.links[k].received < |s.sent|
  }

  predicate HasReply(s: System, k: nat) {
    k < |s.links| && s.links[k].up != []
  }

  /** The packet that client k receives next. */
  function NextSent(s: System, k: nat): Sent
    requires HasData(s, k)
  {
    s.sent[s.links[k].received]
  }

  function WithLink(s: System, k: nat, l: Link): System
    requires k < |s.links|
  {
    s.(links := s.links[k := l])
  }

  /** One step; an event that cannot happen changes nothing. */
  function Next(zd: Codec, s: System, e: Event): (r: System)
    requires Safe(s)
    ensures Safe(r)
  {
    match e
    case Offer(image) => s.(host := Offered(s.host, image))
    case Tick =>
      if s.job.Some? then s
      else
        var (host, round) := Begun(s.host);
        s.(host := host, job := if round.Working? then Some(round.job) else None)
    case Compress(ok) =>
      if s.job.None? then s
      else
        var job := s.job.value;
        var delta := if ok then Some(zd.compress(Reference(job), job.last)) else None;
        var (host, packet) := Finished(s.host, job, delta);
        s.(host := host, job := None,
           sent := if packet.Some? then s.sent + [Sent(packet.value, Reference(job), job.last)] else s.sent)
    case DeliverData(k) =>
      if !HasData(s, k) then s
      else
        var l := s.links[k];
        var (client, reply) := Received(zd, l.client, NextSent(s, k).packet);
        WithLink(s, k, Link(client, l.received + 1, l.up + [reply]))
    case DeliverReply(k) =>
      if !HasReply(s, k) then s
      else
        var l := s.links[k];
        WithLink(s, k, l.(up := l.up[1..])).(host := Replied(s.host, l.up[0]))
    case Join => s.(links := s.links + [Link(Decompressor(0, None), |s.sent|, [])])
  }

  function Run(zd: Codec, s: System, es: seq<Event>): (r: System)
    requires Safe(s)
    ensures Safe(r)
    decreases |es|
  {
    if es == [] then s else Run(zd, Next(zd, s, es[0]), es[1..])
  }

  lemma {:induction false} RunAppend(zd: Codec, s: System, a: seq<Event>, b: seq<Event>)
    requires Safe(s)
    ensures Run(zd, s, a + b) == Run(zd, Run(zd, s, a), b)
    decreases |a|
  {
    hide Next;
    if a == [] {
      assert a + b == b;
    } else {
      assert (a + b)[1..] == a[1..] + b;
      RunAppend(zd, Next(zd, s, a[0]), a[1..], b);
    }
  }

  lemma RunOne(zd: Codec, s: System, e: Event)
    requires Safe(s)
    ensures Run(zd, s, [e]) == Next(zd, s, e)
  {
    assert [e][1..] == [];
  }

  // ----- what every run keeps

  /** Packet i was made against zeros or against the image of the packet before, which has the counter before. */
  ghost predicate SentWell(zd: Codec, sent: seq<Sent>, i: nat)
    requires i < |sent|
  {
    && sent[i].packet.delta == zd.compress(sent[i].reference, sent[i].image)
    && if sent[i].packet.counter == 0 then sent[i].reference == Zeros()
       else i > 0 && Succ(sent[i - 1].packet.counter) == sent[i].packet.counter &&
                  sent[i].reference == sent[i - 1].image
  }

  /** The counter c is 0, or one more than that of the last of the packets, whose image is `last`. */
  ghost predicate Follows(sent: seq<Sent>, c: nat, last: Option<Image>) {
    c != 0 ==> sent != [] && Succ(sent[|sent| - 1].packet.counter) == c && last == Some(sent[|sent| - 1].image)
  }

  ghost predicate JobWell(host: Compressor, job: Job) {
    && host.last == Some(job.last) && host.previous == job.previous && HasReference(job)
  }

  ghost predicate LinkWell(sent: seq<Sent>, l: Link) {
    && l.received <= |sent|
    && Follows(sent[..l.received], l.client.counter, l.client.last)
    && (l.client.last.Some? ==> exists i :: 0 <= i < l.received && sent[i].image == l.client.last.value)
  }

  ghost predicate Inv(zd: Codec, s: System) {
    && (forall i :: 0 <= i < |s.sent| ==> SentWell(zd, s.sent, i))
    && Follows(s.sent, s.host.counter, s.host.previous)
    && (s.job.Some? ==> JobWell(s.host, s.job.value))
    && (forall k :: 0 <= k < |s.links| ==> LinkWell(s.sent, s.links[k]))
  }

  /** One more packet does not disturb what is said about those before. */
  lemma SendKeeps(zd: Codec, s: System, p: Sent)
    requires Inv(zd, s)
    ensures forall i :: 0 <= i < |s.sent| ==> SentWell(zd, s.sent + [p], i)
    ensures forall k :: 0 <= k < |s.links| ==> LinkWell(s.sent + [p], s.links[k])
  {
    forall i | 0 <= i < |s.sent|
      ensures SentWell(zd, s.sent + [p], i)
    {
      assert SentWell(zd, s.sent, i);
    }
    forall k | 0 <= k < |s.links|
      ensures LinkWell(s.sent + [p], s.links[k])
    {
      LinkKeeps(s.sent, p, s.links[k]);
    }
  }

  lemma LinkKeeps(sent: seq<Sent>, p: Sent, l: Link)
    requires LinkWell(sent, l)
    ensures LinkWell(sent + [p], l)
  {
    var r := sent + [p];
    assert r[..l.received] == sent[..l.received];
    if l.client.last.Some? {
      var i :| 0 <= i < l.received && sent[i].image == l.client.last.value;
      assert r[i].image == l.client.last.value;
    }
  }

  lemma CompressKeeps(zd: Codec, s: System, ok: bool)
    requires Inv(zd, s) && Safe(s)
    ensures Inv(zd, Next(zd, s, Compress(ok)))
  {
    hide LinkWell, SentWell, Safe;
    if s.job.Some? {
      var job := s.job.value;
      var r := Next(zd, s, Compress(ok));
      if |r.sent| > |s.sent| {
        var p := Sent(Packet(job.counter, zd.compress(Reference(job), job.last)), Reference(job), job.last);
        assert r.sent == s.sent + [p];
        SendKeeps(zd, s, p);
        assert SentWell(zd, r.sent, |s.sent|) by {
          LastSentWell(zd, s.sent, p);
        }
      }
    }
  }

  lemma LastSentWell(zd: Codec, sent: seq<Sent>, p: Sent)
    requires p.packet.delta == zd.compress(p.reference, p.image)
    requires p.packet.counter == 0 ==> p.reference == Zeros()
    requires p.packet.counter != 0 ==> Follows(sent, p.packet.counter, Some(p.reference))
    ensures SentWell(zd, sent + [p], |sent|)
  {
  }

  /** A packet whose counter a client expects was made against the reference that client uses. */
  lemma SameReference(zd: Codec, s: System, k: nat)
    requires Inv(zd, s) && Safe(s) && HasData(s, k)
    requires s.links[k].client.counter == NextSent(s, k).packet.counter
    ensures OwnReference(s.links[k].client) == NextSent(s, k).reference
    ensures NextSent(s, k).packet.delta == zd.compress(NextSent(s, k).reference, NextSent(s, k).image)
  {
    var l := s.links[k];
    assert LinkWell(s.sent, l);
    assert SentWell(zd, s.sent, l.received);
  }

  lemma DeliverKeeps(zd: Codec, s: System, k: nat)
    requires Inverse(zd) && Inv(zd, s) && Safe(s)
    ensures Inv(zd, Next(zd, s, DeliverData(k)))
  {
    if HasData(s, k) {
      var l, r, p := s.links[k], Next(zd, s, DeliverData(k)), NextSent(s, k);
      assert LinkWell(s.sent, l);
      if l.client.counter == p.packet.counter {
        SameReference(zd, s, k);
        AcceptedWell(s.sent, l, r.links[k]);
      }
      assert LinkWell(s.sent, r.links[k]);
    }
  }

  lemma AcceptedWell(sent: seq<Sent>, l: Link, r: Link)
    requires LinkWell(sent, l) && l.received < |sent| && r.received == l.received + 1
    requires r.client.counter == Succ(sent[l.received].packet.counter)
    requires r.client.last == Some(sent[l.received].image)
    ensures LinkWell(sent, r)
  {
    var t := sent[..r.received];
    assert t[|t| - 1] == sent[l.received];
  }

  lemma JoinKeeps(zd: Codec, s: System)
    requires Inv(zd, s) && Safe(s)
    ensures Inv(zd, Next(zd, s, Join))
  {
    hide SentWell;
  }

  lemma {:induction false} StepKeeps(zd: Codec, s: System, e: Event)
    requires Inverse(zd) && Inv(zd, s) && Safe(s)
    ensures Inv(zd, Next(zd, s, e))
  {
    match e
    case Compress(ok) => CompressKeeps(zd, s, ok);
    case DeliverData(k) => DeliverKeeps(zd, s, k);
    case Join => JoinKeeps(zd, s);
    case DeliverReply(k) => ReplyKeeps(zd, s, k);
    case _ =>
  }

  lemma ReplyKeeps(zd: Codec, s: System, k: nat)
    requires Inv(zd, s) && Safe(s)
    ensures Inv(zd, Next(zd, s, DeliverReply(k)))
  {
    hide SentWell, Follows;
    if HasReply(s, k) {
      assert LinkWell(s.sent, s.links[k]);
      ResetFollows(s.sent, s.host.previous);
    }
  }

  lemma ResetFollows(sent: seq<Sent>, last: Option<Image>)
    ensures Follows(sent, 0, last)
  {
  }

  lemma {:induction false} RunKeeps(zd: Codec, s: System, es: seq<Event>)
    requires Inverse(zd) && Inv(zd, s) && Safe(s)
    ensures Inv(zd, Run(zd, s, es))
    decreases |es|
  {
    hide Inv, Next;
    if es != [] {
      StepKeeps(zd, s, es[0]);
      RunKeeps(zd, Next(zd, s, es[0]), es[1..]);
    }
  }

  lemma StartIsSound(zd: Codec)
    ensures Safe(Start()) && Inv(zd, Start())
  {
  }

  // ----- safety

  /** In every run, a client uncompresses a packet it accepts with exactly the reference it was compressed with. */
  lemma AcceptedMeansSameReference(zd: Codec, es: seq<Event>, k: nat)
    requires Inverse(zd)
    ensures var s := Run(zd, Start(), es);
            HasData(s, k) && s.links[k].client.counter == NextSent(s, k).packet.counter ==>
              && OwnReference(s.links[k].client) == NextSent(s, k).reference
              && var r := Next(zd, s, DeliverData(k)).links[k];
                 && r.client.last == Some(NextSent(s, k).image)
                 && r.client.counter == Succ(NextSent(s, k).packet.counter)
                 && r.up == s.links[k].up + [Ack]
  {
    hide Inv, Run;
    StartIsSound(zd);
    RunKeeps(zd, Start(), es);
    var s := Run(zd, Start(), es);
    if HasData(s, k) && s.links[k].client.counter == NextSent(s, k).packet.counter {
      SameReference(zd, s, k);
    }
  }

  /** In every run, a client shows nothing, or an image the host has sent and this client has received. */
  lemma ShownWasSent(zd: Codec, es: seq<Event>, k: nat)
    requires Inverse(zd)
    ensures var s := Run(zd, Start(), es);
            k < |s.links| && s.links[k].client.last.Some? ==>
              exists i :: 0 <= i < s.links[k].received && s.sent[i].image == s.links[k].client.last.value
  {
    hide Run;
    StartIsSound(zd);
    RunKeeps(zd, Start(), es);
    var s := Run(zd, Start(), es);
    assert k < |s.links| ==> LinkWell(s.sent, s.links[k]);
  }

  /** In every run, whatever the compression library does, the thread never meets a counter without a reference. */
  lemma NeverBroken(zd: Codec, es: seq<Event>)
    ensures !Begun(Run(zd, Start(), es).host).1.Broken?
  {
    hide Run;
    RunHasReference(zd, Start(), es);
  }

  /** The host has a reference whenever its counter is not zero. */
  predicate HostHasReference(s: System) {
    s.host.counter != 0 ==> s.host.previous.Some?
  }

  lemma {:induction false} RunHasReference(zd: Codec, s: System, es: seq<Event>)
    requires Safe(s) && HostHasReference(s)
    ensures HostHasReference(Run(zd, s, es))
    decreases |es|
  {
    hide Safe;
    if es != [] {
      assert HostHasReference(Next(zd, s, es[0]));
      RunHasReference(zd, Next(zd, s, es[0]), es[1..]);
    }
  }

  function Offers(es: seq<Event>): set<Image> {
    if es == [] then {}
    else (if es[0].Offer? && es[0].image.Some? then {es[0].image.value} else {}) + Offers(es[1..])
  }

  ghost predicate OnlyFrom(s: System, images: set<Image>) {
    && (s.host.last.Some? ==> s.host.last.value in images)
    && (s.job.Some? ==> s.job.value.last in images)
    && forall i :: 0 <= i < |s.sent| ==> s.sent[i].image in images
  }

  lemma {:induction false} RunOnlyFrom(zd: Codec, s: System, es: seq<Event>, images: set<Image>)
    requires Safe(s) && OnlyFrom(s, images)
    ensures OnlyFrom(Run(zd, s, es), images + Offers(es))
    decreases |es|
  {
    hide Safe;
    if es != [] {
      var more := images + Offers([es[0]]);
      assert [es[0]][1..] == [];
      assert OnlyFrom(Next(zd, s, es[0]), more);
      RunOnlyFrom(zd, Next(zd, s, es[0]), es[1..], more);
      assert Offers(es) == Offers([es[0]]) + Offers(es[1..]);
      assert images + Offers(es) == more + Offers(es[1..]);
    }
  }

  /** In every run, what was sent had been handed to the compressor. */
  lemma SentWasOffered(zd: Codec, es: seq<Event>, i: nat)
    ensures var s := Run(zd, Start(), es); i < |s.sent| ==> s.sent[i].image in Offers(es)
  {
    hide Run, Offers;
    RunOnlyFrom(zd, Start(), es, {});
    assert {} + Offers(es) == Offers(es);
  }
}
