/**
 * When the image stream goes on: after a packet the compressor waits for an
 * acknowledgement, but no longer than ten rounds, and then compresses the
 * first image it was offered in the meantime.
 */
module MetafileWaiting {
  import opened MetafileSteps
  import opened Options
  import opened MetafileRuns
  import opened MetafileSettled

  /** The job for the image that waits. */
  function NextJob(c: Compressor): Job
    requires c.last.Some?
  {
    Job(c.counter, c.last.value, c.previous)
  }

  lemma RunInv(zd: Codec, es: seq<Event>)
    requires Inverse(zd)
    ensures Safe(Start()) && Inv(zd, Run(zd, Start(), es))
  {
    StartIsSound(zd);
    RunKeeps(zd, Start(), es);
  }

  /** Rounds that only count down. */
  lemma {:induction false} CountsDown(zd: Codec, s: System, n: nat)
    requires Safe(s) && s.job.None? && n <= s.host.timeout
    ensures Run(zd, s, Ticks(n)) == s.(host := s.host.(timeout := s.host.timeout - n))
    decreases n
  {
    if n > 0 {
      var r := s.(host := s.host.(timeout := s.host.timeout - 1));
      assert Next(zd, s, Tick) == r;
      assert Ticks(n)[1..] == Ticks(n - 1);
      CountsDown(zd, r, n - 1);
    }
  }

  /** A round without waiting takes up the image that waits. */
  lemma TakesUp(zd: Codec, s: System)
    requires Inv(zd, s) && Safe(s) && s.job.None? && s.host.last.Some? && s.host.timeout == 0
    ensures Next(zd, s, Tick).job == Some(NextJob(s.host))
  {
  }

  lemma TicksMore(n: nat)
    ensures Ticks(n + 1) == Ticks(n) + [Tick]
  {
    if n > 0 {
      TicksMore(n - 1);
    }
  }

  /** A waiting image is taken up exactly after the rounds of waiting that are left. */
  lemma TakenUpAfter(zd: Codec, s: System, n: nat)
    requires Inv(zd, s) && Safe(s) && s.job.None? && s.host.last.Some?
    ensures n <= s.host.timeout ==> Run(zd, s, Ticks(n)).job.None?
    ensures Run(zd, s, Ticks(s.host.timeout + 1)).job == Some(NextJob(s.host))
  {
    hide Inv, Safe, Next, Ticks;
    if n <= s.host.timeout {
      CountsDown(zd, s, n);
    }
    var t := s.host.timeout;
    CountsDown(zd, s, t);
    var r := Run(zd, s, Ticks(t));
    TicksMore(t);
    RunAppend(zd, s, Ticks(t), [Tick]);
    RunOne(zd, r, Tick);
    TimeoutOnly(zd, s, r);
    TakesUp(zd, r);
  }

  lemma TimeoutOnly(zd: Codec, s: System, r: System)
    requires Inv(zd, s) && Safe(s) && r == s.(host := s.host.(timeout := r.host.timeout))
    ensures Inv(zd, r) && Safe(r)
  {
  }

  /** In every run, an acknowledgement lets the very next round take up the image that waits. */
  lemma AckEndsWaiting(zd: Codec, es: seq<Event>, k: nat)
    requires Inverse(zd)
    ensures var s := Run(zd, Start(), es);
            s.job.None? && s.host.last.Some? && HasReply(s, k) && s.links[k].up[0].Ack? ==>
              Next(zd, Next(zd, s, DeliverReply(k)), Tick).job
                == Some(Job(s.host.counter, s.host.last.value, s.host.previous))
  {
    hide Run, Inv, Safe;
    RunInv(zd, es);
    var s := Run(zd, Start(), es);
    if s.job.None? && s.host.last.Some? && HasReply(s, k) && s.links[k].up[0].Ack? {
      var r := Next(zd, s, DeliverReply(k));
      ReplyKeeps(zd, s, k);
      TakesUp(zd, r);
    }
  }

  /**
   * In every run, without a reply, the image offered after a compression is
   * taken up in the eleventh round and not before, whether or not a packet
   * was sent.
   */
  lemma TenRoundsWithoutReply(zd: Codec, es: seq<Event>, ok: bool, image: Image, n: nat)
    requires Inverse(zd)
    ensures var s := Run(zd, Start(), es);
            s.job.Some? ==>
              var r := Next(zd, Next(zd, s, Compress(ok)), Offer(Some(image)));
              && (n <= 10 ==> Run(zd, r, Ticks(n)).job.None?)
              && Run(zd, r, Ticks(11)).job == Some(Job(r.host.counter, image, r.host.previous))
  {
    hide Run, Inv, Safe;
    RunInv(zd, es);
    var s := Run(zd, Start(), es);
    if s.job.Some? {
      var q := Next(zd, s, Compress(ok));
      var r := Next(zd, q, Offer(Some(image)));
      CompressKeeps(zd, s, ok);
      StepKeeps(zd, q, Offer(Some(image)));
      TakenUpAfter(zd, r, n);
    }
  }

  /** In every run, a reset leaves the waiting as it is; what comes next is compressed against 1000 zeros. */
  lemma ResetStartsAfresh(zd: Codec, es: seq<Event>, k: nat)
    requires Inverse(zd)
    ensures var s := Run(zd, Start(), es);
            s.job.None? && s.host.last.Some? && HasReply(s, k) && s.links[k].up[0].Reset? ==>
              var r := Next(zd, s, DeliverReply(k));
              && r.host.timeout == s.host.timeout
              && var job := Run(zd, r, Ticks(s.host.timeout + 1)).job;
                 && job.Some? && job.value.counter == 0 && job.value.last == s.host.last.value
                 && HasReference(job.value) && Reference(job.value) == seq(1000, _ => 0)
  {
    hide Run, Inv, Safe;
    RunInv(zd, es);
    var s := Run(zd, Start(), es);
    if s.job.None? && s.host.last.Some? && HasReply(s, k) && s.links[k].up[0].Reset? {
      var r := Next(zd, s, DeliverReply(k));
      ReplyKeeps(zd, s, k);
      TakenUpAfter(zd, r, 0);
    }
  }

  /** While an image waits, or is compressed, another one is turned away; otherwise it is the one that waits. */
  lemma FirstOfferWaits(zd: Codec, es: seq<Event>, image: Image)
    requires Inverse(zd)
    ensures var s := Run(zd, Start(), es);
            var r := Next(zd, s, Offer(Some(image)));
            && (s.job.Some? || s.host.last.Some? ==> r == s)
            && (s.job.None? && s.host.last.None? ==> r == s.(host := s.host.(last := Some(image))))
  {
    hide Run;
    RunInv(zd, es);
  }

  /**
   * In every run, a packet with counter 0 was compressed against 1000 zeros,
   * and every other against the image of the packet sent before it, whose
   * counter is one less in 32 bits.
   */
  lemma EachAgainstTheOneBefore(zd: Codec, es: seq<Event>, i: nat)
    requires Inverse(zd)
    ensures var sent := Run(zd, Start(), es).sent;
            i < |sent| ==>
              var p := sent[i].packet;
              if p.counter == 0 then p.delta == zd.compress(seq(1000, _ => 0), sent[i].image)
              else
                && i > 0 && p.counter == (sent[i - 1].packet.counter + 1) % 0x1_0000_0000
                && p.delta == zd.compress(sent[i - 1].image, sent[i].image)
  {
    hide Run;
    RunInv(zd, es);
    var sent := Run(zd, Start(), es).sent;
    assert i < |sent| ==> SentWell(zd, sent, i);
  }

  /**
   * Whatever the library makes of it: a packet is acknowledged exactly if its
   * counter is the expected one, and moves the client on exactly if it also
   * uncompresses.
   */
  lemma ReplyMeans(zd: Codec, d: Decompressor, packet: Packet)
    requires Ready(d)
    ensures var (r, reply) := Received(zd, d, packet);
            var image := zd.uncompress(OwnReference(d), packet.delta);
            && (reply == Ack <==> packet.counter == d.counter)
            && (reply == Reset ==> r.counter == 0 && r.last == d.last)
            && (reply == Ack && image.Some? ==> r == Decompressor((d.counter + 1) % 0x1_0000_0000, image))
            && (reply == Ack && image.None? ==> r == d)
  {
  }
}
