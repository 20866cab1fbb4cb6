/**
 * When clients of the image stream can get in step with each other again: what
 * is under way leads each of them to a counter, and from then on the clients
 * only differ in that counter.  Clients that it divides take no two packets
 * together, whatever is sent, delivered or reset, until a counter wraps.
 */
module MetafileDivided {
  import opened MetafileSteps
  import opened MetafileRuns
  import opened MetafileSettled

  /** The counter that a client comes to with these packets. */
  function EndsAt(sent: seq<Sent>, counter: nat): nat {
    if sent == [] then counter else EndsAt(sent[1..], CounterAfter(counter, sent[0].packet.counter))
  }

  /** The counter that client k has once everything under way to it has arrived. */
  function Ends(s: System, k: nat): nat
    requires Safe(s) && k < |s.links|
  {
    EndsAt(s.sent[s.links[k].received..], s.links[k].client.counter)
  }

  predicate Divided(s: System)
    requires Safe(s)
  {
    exists i, j :: 0 <= i < |s.links| && 0 <= j < |s.links| && Ends(s, i) != Ends(s, j)
  }

  predicate NoneWraps(sent: seq<Sent>) {
    forall n :: 0 <= n < |sent| ==> Succ(sent[n].packet.counter) != 0
  }

  /** One more than the counter of the last packet. */
  function NextCounter(sent: seq<Sent>): nat {
    if sent == [] then 0 else Succ(sent[|sent| - 1].packet.counter)
  }

  // ----- one step

  lemma {:induction false} EndsAppend(sent: seq<Sent>, counter: nat, p: Sent)
    ensures EndsAt(sent + [p], counter) == CounterAfter(EndsAt(sent, counter), p.packet.counter)
  {
    if sent == [] {
      assert (sent + [p])[1..] == [];
    } else {
      assert (sent + [p])[1..] == sent[1..] + [p];
      EndsAppend(sent[1..], CounterAfter(counter, sent[0].packet.counter), p);
    }
  }

  /** A step other than the sending of a packet leaves a client where it comes to. */
  lemma EndsNext(zd: Codec, s: System, e: Event, k: nat)
    requires Inverse(zd) && Inv(zd, s) && Safe(s) && k < |s.links|
    ensures var r := Next(zd, s, e);
            && k < |r.links|
            && if r.sent == s.sent then Ends(r, k) == Ends(s, k)
               else && |r.sent| == |s.sent| + 1 && r.sent[..|s.sent|] == s.sent
                    && r.sent[|s.sent|].packet.counter == s.host.counter
                    && Ends(r, k) == CounterAfter(Ends(s, k), s.host.counter)
  {
    hide EndsAt, CounterAfter, Inv, Inverse;
    match e
    case Compress(ok) => EndsSend(zd, s, ok, k);
    case DeliverData(j) => EndsData(zd, s, j, k);
    case _ =>
  }

  lemma EndsSend(zd: Codec, s: System, ok: bool, k: nat)
    requires Safe(s) && k < |s.links|
    ensures var r := Next(zd, s, Compress(ok));
            && r.links == s.links
            && if r.sent == s.sent then Ends(r, k) == Ends(s, k)
               else && |r.sent| == |s.sent| + 1 && r.sent[..|s.sent|] == s.sent
                    && r.sent[|s.sent|].packet.counter == s.host.counter
                    && Ends(r, k) == CounterAfter(Ends(s, k), s.host.counter)
  {
    hide EndsAt, CounterAfter;
    var r, l := Next(zd, s, Compress(ok)), s.links[k];
    if r.sent != s.sent {
      var p := r.sent[|s.sent|];
      assert r.sent[l.received..] == s.sent[l.received..] + [p];
      EndsAppend(s.sent[l.received..], l.client.counter, p);
    }
  }

  lemma EndsData(zd: Codec, s: System, j: nat, k: nat)
    requires Inverse(zd) && Inv(zd, s) && Safe(s) && k < |s.links|
    ensures var r := Next(zd, s, DeliverData(j));
            r.sent == s.sent && |r.links| == |s.links| && Ends(r, k) == Ends(s, k)
  {
    hide Inv, Inverse;
    if HasData(s, j) && j == k {
      CounterNext(zd, s, k);
      assert s.sent[s.links[k].received..][1..] == s.sent[s.links[k].received + 1..];
    }
  }

  /** A client takes a packet or starts over. */
  lemma CounterNext(zd: Codec, s: System, k: nat)
    requires Inverse(zd) && Inv(zd, s) && Safe(s) && HasData(s, k)
    ensures Next(zd, s, DeliverData(k)).links[k].client.counter
         == CounterAfter(s.links[k].client.counter, NextSent(s, k).packet.counter)
  {
    hide Inv, Inverse;
    if s.links[k].client.counter == NextSent(s, k).packet.counter {
      UncompressedWell(zd, s, k);
    }
  }

  /** There are only two counters to come to. */
  lemma TwoEnds(zd: Codec, s: System, k: nat)
    requires Inv(zd, s) && Safe(s) && k < |s.links|
    ensures Ends(s, k) in {0, NextCounter(s.sent)} && s.host.counter in {0, NextCounter(s.sent)}
  {
    var l := s.links[k];
    assert LinkWell(s.sent, l);
    if l.received < |s.sent| {
      var n := |s.sent| - 1;
      assert s.sent[l.received..] == s.sent[l.received..n] + [s.sent[n]];
      EndsAppend(s.sent[l.received..n], l.client.counter, s.sent[n]);
    } else {
      assert s.sent[..l.received] == s.sent && s.sent[l.received..] == [];
    }
  }

  /** Of two clients that come to different counters exactly one comes to that of the next packet sent. */
  lemma OneInStep(zd: Codec, s: System, i: nat, j: nat)
    requires Inv(zd, s) && Safe(s) && i < |s.links| && j < |s.links| && Ends(s, i) != Ends(s, j)
    ensures Ends(s, i) == s.host.counter <==> Ends(s, j) != s.host.counter
  {
    hide Ends, Inv;
    TwoEnds(zd, s, i);
    TwoEnds(zd, s, j);
  }

  /** Two clients get or stay apart in a step exactly if they were, and no packet is sent whose counter wraps. */
  lemma ApartNext(zd: Codec, s: System, e: Event, i: nat, j: nat)
    requires Inverse(zd) && Inv(zd, s) && Safe(s) && i < |s.links| && j < |s.links|
    ensures var r := Next(zd, s, e);
            && i < |r.links| && j < |r.links|
            && (Ends(r, i) != Ends(r, j) <==>
                Ends(s, i) != Ends(s, j) && (r.sent != s.sent ==> Succ(s.host.counter) != 0))
  {
    hide Ends, Inv, Inverse, Next;
    EndsNext(zd, s, e, i);
    EndsNext(zd, s, e, j);
    TwoEnds(zd, s, i);
    TwoEnds(zd, s, j);
  }

  // ----- all runs

  lemma {:induction false} RunGrows(zd: Codec, s: System, es: seq<Event>)
    requires Safe(s)
    ensures s.sent <= Run(zd, s, es).sent && |s.links| <= |Run(zd, s, es).links|
    ensures forall k :: 0 <= k < |s.links| ==> s.links[k].received <= Run(zd, s, es).links[k].received
    decreases |es|
  {
    if es != [] {
      RunGrows(zd, Next(zd, s, es[0]), es[1..]);
    }
  }

  /** The packets sent in a run. */
  function SentIn(zd: Codec, s: System, es: seq<Event>): seq<Sent>
    requires Safe(s)
  {
    RunGrows(zd, s, es);
    Run(zd, s, es).sent[|s.sent|..]
  }

  /**
   * Whatever is offered, sent, delivered, reset or joined: two clients come to
   * different counters after a run exactly if they did before and no packet
   * sent in the run has a counter that wraps.
   */
  lemma {:induction false} StaysApart(zd: Codec, s: System, es: seq<Event>, i: nat, j: nat)
    requires Inverse(zd) && Inv(zd, s) && Safe(s) && i < |s.links| && j < |s.links|
    ensures var r := Run(zd, s, es);
            && i < |r.links| && j < |r.links|
            && (Ends(r, i) != Ends(r, j) <==> Ends(s, i) != Ends(s, j) && NoneWraps(SentIn(zd, s, es)))
    decreases |es|
  {
    hide Ends, Inv, Inverse, Next, NoneWraps, Safe;
    RunGrows(zd, s, es);
    var r := Run(zd, s, es);
    if es == [] {
      NoneSent(s.sent);
    } else {
      var s1 := Next(zd, s, es[0]);
      ApartNext(zd, s, es[0], i, j);
      EndsNext(zd, s, es[0], i);
      StepKeeps(zd, s, es[0]);
      RunGrows(zd, s1, es[1..]);
      StaysApart(zd, s1, es[1..], i, j);
      if s1.sent != s.sent {
        OneSent(s.sent, s1.sent, r.sent);
      }
    }
  }

  lemma NoneSent(sent: seq<Sent>)
    ensures NoneWraps(sent[|sent|..])
  {
  }

  lemma OneSent(a: seq<Sent>, b: seq<Sent>, c: seq<Sent>)
    requires |b| == |a| + 1 && b <= c
    ensures NoneWraps(c[|a|..]) <==> Succ(b[|a|].packet.counter) != 0 && NoneWraps(c[|b|..])
  {
    var p, q := c[|a|..], c[|b|..];
    assert p == [b[|a|]] + q;
    if NoneWraps(p) {
      forall n | 0 <= n < |q| ensures Succ(q[n].packet.counter) != 0 {
        assert p[n + 1] == q[n];
      }
    }
  }

  /** A settled stream does not divide its clients. */
  lemma SettledTogether(s: System)
    requires Safe(s) && Settled(s)
    ensures !Divided(s) && forall k :: 0 <= k < |s.links| ==> Ends(s, k) == s.host.counter
  {
    forall k | 0 <= k < |s.links| ensures Ends(s, k) == s.host.counter {
      assert LinkSettled(s.sent, s.links[k], s.host.counter);
      ExpectedEnd(s.sent[s.links[k].received..], s.links[k].client.counter);
    }
  }

  lemma {:induction false} ExpectedEnd(sent: seq<Sent>, counter: nat)
    ensures Expected(sent, counter).Some? ==> EndsAt(sent, counter) == Expected(sent, counter).value
  {
    if sent != [] {
      ExpectedEnd(sent[1..], Succ(counter));
    }
  }

  // ----- how often divided clients miss

  /** How many packets are rejected in a run. */
  function Mismatches(zd: Codec, s: System, es: seq<Event>): nat
    requires Safe(s)
    decreases |es|
  {
    if es == [] then 0 else (if Mismatch(s, es[0]) then 1 else 0) + Mismatches(zd, Next(zd, s, es[0]), es[1..])
  }

  /** How many of these packets a client rejects. */
  function Misses(sent: seq<Sent>, counter: nat): nat {
    if sent == [] then 0
    else
      (if counter == sent[0].packet.counter then 0 else 1)
      + Misses(sent[1..], CounterAfter(counter, sent[0].packet.counter))
  }

  lemma {:induction false} MissesAppend(a: seq<Sent>, b: seq<Sent>, counter: nat)
    ensures Misses(a + b, counter) == Misses(a, counter) + Misses(b, EndsAt(a, counter))
  {
    if a == [] {
      assert a + b == b;
    } else {
      assert (a + b)[1..] == a[1..] + b;
      MissesAppend(a[1..], b, CounterAfter(counter, a[0].packet.counter));
    }
  }

  /** Of clients at different counters exactly one takes each packet. */
  lemma {:induction false} OneMissesEach(zd: Codec, sent: seq<Sent>, a: nat, m: nat, x: nat, y: nat)
    requires a <= m <= |sent| && (forall n :: 0 <= n < |sent| ==> SentWell(zd, sent, n)) && NoneWraps(sent[a..])
    requires x != y && x in {0, NextCounter(sent[..a])} && y in {0, NextCounter(sent[..a])}
    ensures Misses(sent[a..m], x) + Misses(sent[a..m], y) == m - a
    decreases m - a
  {
    if a < m {
      var c := sent[a].packet.counter;
      var rest := sent[a + 1..];
      assert SentWell(zd, sent, a);
      assert sent[a..][0] == sent[a];
      assert sent[..a + 1][a] == sent[a];
      assert sent[a..m][1..] == sent[a + 1..m];
      forall n | 0 <= n < |rest| ensures Succ(rest[n].packet.counter) != 0 {
        assert sent[a..][n + 1] == rest[n];
      }
      OneMissesEach(zd, sent, a + 1, m, CounterAfter(x, c), CounterAfter(y, c));
    }
  }

  /** The mismatches of a run are at least those of two of its clients. */
  lemma {:induction false} MissesOfTwo(zd: Codec, s: System, es: seq<Event>, i: nat, j: nat)
    requires Inverse(zd) && Inv(zd, s) && Safe(s) && i < |s.links| && j < |s.links| && i != j
    ensures var r := Run(zd, s, es);
            && s.sent <= r.sent && |s.links| <= |r.links|
            && s.links[i].received <= r.links[i].received && s.links[j].received <= r.links[j].received
            && Mismatches(zd, s, es) >= MissesOf(s, r, i) + MissesOf(s, r, j)
    decreases |es|
  {
    hide Inv, Inverse, Next, MissesOf;
    RunGrows(zd, s, es);
    if es == [] {
      NothingMissed(s, i);
      NothingMissed(s, j);
    } else {
      var s1, r := Next(zd, s, es[0]), Run(zd, s, es);
      StepKeeps(zd, s, es[0]);
      RunGrows(zd, s, [es[0]]);
      RunOne(zd, s, es[0]);
      RunGrows(zd, s1, es[1..]);
      MissesOfTwo(zd, s1, es[1..], i, j);
      MissesOneStep(zd, s, es[0], r, i);
      MissesOneStep(zd, s, es[0], r, j);
    }
  }

  /** How many of the packets that client k has received between two states it has rejected. */
  function MissesOf(s: System, r: System, k: nat): nat
    requires Safe(r) && k < |s.links| && k < |r.links| && s.links[k].received <= r.links[k].received
  {
    Misses(r.sent[s.links[k].received..r.links[k].received], s.links[k].client.counter)
  }

  lemma NothingMissed(s: System, k: nat)
    requires Safe(s) && k < |s.links|
    ensures MissesOf(s, s, k) == 0
  {
  }

  lemma MissesOneStep(zd: Codec, s: System, e: Event, r: System, k: nat)
    requires Inverse(zd) && Inv(zd, s) && Safe(s) && Safe(r) && k < |s.links|
    requires var s1 := Next(zd, s, e);
             k < |s1.links| && k < |r.links| && s1.links[k].received <= r.links[k].received && s.sent <= r.sent
    ensures s.links[k].received <= r.links[k].received
    ensures MissesOf(s, r, k)
         == MissesOf(Next(zd, s, e), r, k) + if e == DeliverData(k) && Mismatch(s, e) then 1 else 0
  {
    hide Inv, Inverse;
    var a, b := s.links[k].received, r.links[k].received;
    if e == DeliverData(k) && HasData(s, k) {
      CounterNext(zd, s, k);
      assert r.sent[a..b][1..] == r.sent[a + 1..b];
      assert r.sent[a] == s.sent[a];
    }
  }

  /**
   * Divided clients stay divided, whatever happens, until a counter wraps: the
   * stream is never settled, and of every packet sent from then on that two
   * of them have received one of the two has rejected it.
   */
  lemma DividedForever(zd: Codec, s: System, es: seq<Event>, i: nat, j: nat)
    requires Inverse(zd) && Inv(zd, s) && Safe(s)
    requires i < |s.links| && j < |s.links| && Ends(s, i) != Ends(s, j)
    requires NoneWraps(SentIn(zd, s, es))
    ensures var r := Run(zd, s, es);
            && Divided(r) && !Settled(r) && i < |r.links| && j < |r.links|
            && (|| r.links[i].received <= |s.sent| + Mismatches(zd, s, es)
                || r.links[j].received <= |s.sent| + Mismatches(zd, s, es))
  {
    hide Inv, Inverse, Next, Run, Ends, MissesOf, NoneWraps, Settled, Mismatches;
    var r := Run(zd, s, es);
    StaysApart(zd, s, es, i, j);
    if Settled(r) {
      SettledTogether(r);
    }
    RunKeeps(zd, s, es);
    MissesOfTwo(zd, s, es, i, j);
    var a := |s.sent|;
    var m := if r.links[i].received <= r.links[j].received then r.links[i].received else r.links[j].received;
    if a < m {
      SentBefore(zd, r);
      TwoEnds(zd, s, i);
      TwoEnds(zd, s, j);
      assert r.sent[..a] == s.sent;
      OneMissesEach(zd, r.sent, a, m, Ends(s, i), Ends(s, j));
      MissesSince(s, r, i, m);
      MissesSince(s, r, j, m);
    }
  }

  lemma SentBefore(zd: Codec, s: System)
    requires Inv(zd, s)
    ensures forall n :: 0 <= n < |s.sent| ==> SentWell(zd, s.sent, n)
  {
  }

  /** A client rejects at least those of the packets sent since. */
  lemma MissesSince(s: System, r: System, k: nat, m: nat)
    requires Safe(s) && Safe(r) && k < |s.links| && k < |r.links| && s.sent <= r.sent
    requires s.links[k].received <= |s.sent| <= m <= r.links[k].received
    ensures MissesOf(s, r, k) >= Misses(r.sent[|s.sent|..m], Ends(s, k))
  {
    hide Misses, EndsAt;
    var a, b, n, c := s.links[k].received, |s.sent|, r.links[k].received, s.links[k].client.counter;
    var first, middle, last := r.sent[a..b], r.sent[b..m], r.sent[m..n];
    assert r.sent[a..n] == first + (middle + last);
    assert first == s.sent[a..];
    MissesAppend(first, middle + last, c);
    MissesAppend(middle, last, EndsAt(first, c));
  }

  /** A late client divides a settled stream, whatever is under way, exactly when others are there and it runs. */
  lemma LateClientDivides(zd: Codec, s: System)
    requires Safe(s) && Settled(s)
    ensures Divided(Next(zd, s, Join)) <==> s.links != [] && s.host.counter != 0
  {
    hide Settled;
    var n, r := |s.links|, Next(zd, s, Join);
    SettledTogether(s);
    assert s.sent[|s.sent|..] == [];
    assert Ends(r, n) == 0;
    assert forall k :: 0 <= k < n ==> Ends(r, k) == Ends(s, k) == s.host.counter;
    if n > 0 {
      assert Ends(r, 0) == s.host.counter;
    }
  }

  // ----- clients that are not divided can get in step

  /** Everything under way to and from client k arrives. */
  lemma {:induction false} DrainLink(zd: Codec, s: System, k: nat) returns (es: seq<Event>)
    requires Inverse(zd) && Inv(zd, s) && Safe(s) && k < |s.links|
    ensures NoJoin(es) && Drained(s, Run(zd, s, es), k, k + 1)
    decreases |s.sent| - s.links[k].received, |s.links[k].up|
  {
    hide Inverse, Inv, Drained, Ends;
    if !HasData(s, k) && !HasReply(s, k) {
      es := [];
      NothingToDrain(s, k);
    } else {
      var e := if HasData(s, k) then DeliverData(k) else DeliverReply(k);
      var s1 := Next(zd, s, e);
      EndsNext(zd, s, e, k);
      StepKeeps(zd, s, e);
      var rest := DrainLink(zd, s1, k);
      es := [e] + rest;
      assert es[1..] == rest;
      DrainedFirst(s, s1, Run(zd, s, es), k);
    }
  }

  /** Of the links of s, those from a up to b have nothing under way; the host may have been reset. */
  ghost predicate Drained(s: System, r: System, a: nat, b: nat)
    requires Safe(s)
  {
    && r.sent == s.sent && r.job == s.job && r.host.last == s.host.last && r.host.previous == s.host.previous
    && (r.host.counter == s.host.counter || r.host.counter == 0) && |r.links| == |s.links|
    && (forall k :: 0 <= k < |s.links| && !(a <= k < b) ==> r.links[k] == s.links[k])
    && forall k :: a <= k < b && k < |s.links| ==>
         r.links[k].received == |s.sent| && r.links[k].up == [] && r.links[k].client.counter == Ends(s, k)
  }

  lemma NothingToDrain(s: System, k: nat)
    requires Safe(s) && k < |s.links| && !HasData(s, k) && !HasReply(s, k)
    ensures Drained(s, s, k, k + 1)
  {
    assert s.sent[|s.sent|..] == [];
  }

  lemma DrainedFirst(s: System, s1: System, r: System, k: nat)
    requires Safe(s) && Safe(s1) && k < |s.links| && k < |s1.links| && Drained(s1, r, k, k + 1)
    requires s1.sent == s.sent && s1.job == s.job && s1.host.last == s.host.last
    requires s1.host.previous == s.host.previous && (s1.host.counter == s.host.counter || s1.host.counter == 0)
    requires |s1.links| == |s.links| && (forall j :: 0 <= j < |s.links| && j != k ==> s1.links[j] == s.links[j])
    requires Ends(s1, k) == Ends(s, k)
    ensures Drained(s, r, k, k + 1)
  {
    hide Ends;
  }

  lemma {:induction false} DrainLinks(zd: Codec, s: System, n: nat) returns (es: seq<Event>)
    requires Inverse(zd) && Inv(zd, s) && Safe(s) && n <= |s.links|
    ensures NoJoin(es) && Drained(s, Run(zd, s, es), 0, n)
  {
    hide Inverse, Inv, Next, Ends, Run;
    if n == 0 {
      es := [];
      NoEvents(zd, s);
    } else {
      var a := DrainLinks(zd, s, n - 1);
      var s1 := Run(zd, s, a);
      RunKeeps(zd, s, a);
      var b := DrainLink(zd, s1, n - 1);
      RunAppend(zd, s, a, b);
      es := a + b;
      SameLinkEnds(s, s1, n - 1);
    }
  }

  lemma NoEvents(zd: Codec, s: System)
    requires Safe(s)
    ensures Run(zd, s, []) == s
  {
  }

  lemma SameLinkEnds(s: System, r: System, k: nat)
    requires Safe(s) && Safe(r) && k < |s.links| && k < |r.links| && r.sent == s.sent && r.links[k] == s.links[k]
    ensures Ends(r, k) == Ends(s, k)
  {
  }

  /** The stream can be brought to rest with nothing under way and no packet sent. */
  lemma ComesToQuiet(zd: Codec, s: System) returns (es: seq<Event>)
    requires Inverse(zd) && Inv(zd, s) && Safe(s)
    ensures NoJoin(es)
    ensures var r := Run(zd, s, es);
            && Quiet(r) && r.sent == s.sent && |r.links| == |s.links|
            && forall k :: 0 <= k < |s.links| ==> r.links[k].client.counter == Ends(s, k)
  {
    hide Inverse, Inv, Next, Run, Ends, Local;
    var a := ComesToRest(zd, s);
    var s1 := Run(zd, s, a);
    RunKeeps(zd, s, a);
    var b := DrainLinks(zd, s1, |s1.links|);
    RunAppend(zd, s, a, b);
    es := a + b;
    forall k | 0 <= k < |s.links| ensures Ends(s1, k) == Ends(s, k) {
      SameLinkEnds(s, s1, k);
    }
  }

  /** From every state in which the clients are not divided, some run settles the stream. */
  lemma TogetherRecovers(zd: Codec, s: System) returns (es: seq<Event>)
    requires Inverse(zd) && Inv(zd, s) && Safe(s) && !Divided(s)
    ensures NoJoin(es) && Settled(Run(zd, s, es))
  {
    hide Inverse, Inv, Next, Run, Ends, Quiet, Settled, PromptRound;
    es := ComesToQuiet(zd, s);
    var r := Run(zd, s, es);
    RunKeeps(zd, s, es);
    QuietDivided(zd, r);
    QuietEnds(r);
    assert !Divided(r);
    PromptRoundSettles(zd, r, []);
    PromptRoundJoinsNobody(r, []);
    RunAppend(zd, s, es, PromptRound(r, []));
    es := es + PromptRound(r, []);
  }

  lemma PromptRoundJoinsNobody(s: System, image: Image)
    ensures NoJoin(PromptRound(s, image))
  {
    TicksLocal(s.host.timeout);
    DeliveriesJoinNobody(|s.links|);
  }

  lemma {:induction false} DeliveriesJoinNobody(n: nat)
    ensures NoJoin(DeliverAllData(n)) && NoJoin(DeliverAllReplies(n))
  {
    if n > 0 {
      DeliveriesJoinNobody(n - 1);
    }
  }

  // ----- divided clients in prompt rounds

  lemma QuietEnds(s: System)
    requires Safe(s) && Quiet(s)
    ensures forall k :: 0 <= k < |s.links| ==> Ends(s, k) == s.links[k].client.counter
  {
    assert s.sent[|s.sent|..] == [];
  }

  /** With nothing under way, divided are clients some of which have the host's counter and some not. */
  lemma QuietDivided(zd: Codec, s: System)
    requires Inv(zd, s) && Safe(s) && Quiet(s)
    ensures Divided(s) <==>
            (exists k :: 0 <= k < |s.links| && InStep(s, k)) && exists k :: 0 <= k < |s.links| && !InStep(s, k)
  {
    hide Inv, Ends;
    QuietEnds(s);
    if Divided(s) {
      var i, j :| 0 <= i < |s.links| && 0 <= j < |s.links| && Ends(s, i) != Ends(s, j);
      OneInStep(zd, s, i, j);
      assert InStep(s, i) <==> !InStep(s, j);
    } else if k :| 0 <= k < |s.links| && InStep(s, k) {
      forall j | 0 <= j < |s.links| ensures InStep(s, j) {
        assert Ends(s, k) == Ends(s, j);
      }
    }
  }

  /** A prompt round makes a quiet stream settled, except when the clients are divided; then they remain so. */
  lemma PromptRoundSettles(zd: Codec, s: System, image: Image)
    requires Inverse(zd) && Inv(zd, s) && Safe(s) && Quiet(s)
    ensures var r, lasts := Run(zd, s, PromptRound(s, image)), Divided(s) && Succ(s.host.counter) != 0;
            && (Settled(r) <==> !lasts) && (Divided(r) <==> lasts) && (lasts ==> r.host.counter == 0)
  {
    hide Inverse, Inv, Next, Run, PromptRound, Divided;
    AfterPromptRound(zd, s, image);
    var r := Run(zd, s, PromptRound(s, image));
    RunKeeps(zd, s, PromptRound(s, image));
    QuietSettled(r);
    QuietDivided(zd, s);
    QuietDivided(zd, r);
    if Divided(s) && Succ(s.host.counter) != 0 {
      var i :| 0 <= i < |s.links| && InStep(s, i);
      var j :| 0 <= j < |s.links| && !InStep(s, j);
      assert r.host.counter == 0 && !InStep(r, i) && InStep(r, j);
    } else {
      forall k | 0 <= k < |s.links|
        ensures InStep(r, k)
      {
        assert r.links[k].client.counter == CounterAfter(s.links[k].client.counter, s.host.counter);
        assert InStep(s, k) || !InStep(s, k);
      }
    }
  }

  /** Any number of prompt rounds, one per image. */
  function PromptRounds(zd: Codec, s: System, images: seq<Image>): seq<Event>
    requires Safe(s)
    decreases |images|
  {
    if images == [] then []
    else
      var es := PromptRound(s, images[0]);
      es + PromptRounds(zd, Run(zd, s, es), images[1..])
  }

  /** Every round sends one packet, all of which arrive, and none has a counter that wraps. */
  lemma {:induction false} RoundsSend(zd: Codec, s: System, images: seq<Image>)
    requires Inverse(zd) && Inv(zd, s) && Safe(s) && Quiet(s) && Divided(s) && Succ(s.host.counter) != 0
    ensures var es := PromptRounds(zd, s, images);
            && Quiet(Run(zd, s, es)) && |s.links| <= |Run(zd, s, es).links|
            && |SentIn(zd, s, es)| == |images| && NoneWraps(SentIn(zd, s, es))
    decreases |images|
  {
    hide Inverse, Inv, Next, Run, PromptRound, Divided, Quiet, Settled;
    if images == [] {
      NoEvents(zd, s);
    } else {
      var es := PromptRound(s, images[0]);
      var s1 := Run(zd, s, es);
      var rest := PromptRounds(zd, s1, images[1..]);
      AfterPromptRound(zd, s, images[0]);
      PromptRoundSettles(zd, s, images[0]);
      RunKeeps(zd, s, es);
      RoundsSend(zd, s1, images[1..]);
      RunAppend(zd, s, es, rest);
      RunGrows(zd, s1, rest);
      OneSent(s.sent, s1.sent, Run(zd, s1, rest).sent);
    }
  }

  /** So in prompt rounds every image is rejected by some client. */
  lemma EveryRoundMisses(zd: Codec, s: System, images: seq<Image>)
    requires Inverse(zd) && Inv(zd, s) && Safe(s) && Quiet(s) && Divided(s) && Succ(s.host.counter) != 0
    ensures var es := PromptRounds(zd, s, images);
            Divided(Run(zd, s, es)) && !Settled(Run(zd, s, es)) && Mismatches(zd, s, es) >= |images|
  {
    hide Inverse, Inv, Next, Run, PromptRounds, Ends, Settled, NoneWraps, Mismatches;
    var es := PromptRounds(zd, s, images);
    var i, j :| 0 <= i < |s.links| && 0 <= j < |s.links| && Ends(s, i) != Ends(s, j);
    RoundsSend(zd, s, images);
    DividedForever(zd, s, es, i, j);
    RunGrows(zd, s, es);
    var r := Run(zd, s, es);
    assert |r.sent| == |s.sent| + |images|;
    assert r.links[i].received == |r.sent| && r.links[j].received == |r.sent|;
  }

  /** A client, one image, and a second client: so short a run divides them. */
  lemma ClientsGetDivided(zd: Codec, image: Image) returns (es: seq<Event>)
    requires Inverse(zd)
    ensures Divided(Run(zd, Start(), es))
  {
    hide PromptRound, Run, Settled, Inv, Next, Divided;
    StartIsSound(zd);
    var s := Run(zd, Start(), [Join]);
    RunKeeps(zd, Start(), [Join]);
    FirstClient(zd);
    QuietSettled(s);
    assert InStep(s, 0);
    var round := PromptRound(s, image);
    var r := Run(zd, s, round);
    RunKeeps(zd, s, round);
    AfterPromptRound(zd, s, image);
    QuietSettled(r);
    LateClientDivides(zd, r);
    es := [Join] + round + [Join];
    RunAppend(zd, Start(), [Join] + round, [Join]);
    RunAppend(zd, Start(), [Join], round);
    RunOne(zd, r, Join);
  }

  lemma FirstClient(zd: Codec)
    ensures var s := Run(zd, Start(), [Join]);
            Quiet(s) && |s.links| == 1 && s.host.counter == 0 && s.links[0].client.counter == 0
  {
    RunOne(zd, Start(), Join);
  }
}
