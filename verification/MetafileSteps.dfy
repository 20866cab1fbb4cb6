/**
 * The delta-compressed image stream: what its two ends do in one step.  The
 * compressor sends each image as a difference to the one before; a counter in
 * the packets tells the decompressors whether they have that one.
 */
module MetafileSteps {
  import opened Bits
  import opened Options

  type Image = seq<Byte>
  type Delta = seq<Byte>

  const COUNTER_RANGE := 0x1_0000_0000
  const WAITING_ROUNDS := 10

  /** The delta compression library. */
  datatype Codec = Codec(compress: (Image, Image) -> Delta, uncompress: (Image, Delta) -> Option<Image>)

  ghost predicate Inverse(zd: Codec) {
    forall reference, image :: zd.uncompress(reference, zd.compress(reference, image)) == Some(image)
  }

  /** The reference of a fresh start: 1000 zeros. */
  function Zeros(): Image {
    seq(1000, _ => 0)
  }

  function Succ(counter: nat): nat {
    (counter + 1) % COUNTER_RANGE
  }

  // ----- the compressor

  datatype Packet = Packet(counter: nat, delta: Delta)

  datatype Reply = Reset | Ack

  datatype Compressor = Compressor(counter: nat, last: Option<Image>, previous: Option<Image>, timeout: nat)

  /** What the thread takes along into the unlocked compression. */
  datatype Job = Job(counter: nat, last: Image, previous: Option<Image>)

  datatype Round = Idle | Broken | Working(job: Job)

  /** open and close: an image is taken only when the one before is done. */
  function Offered(c: Compressor, image: Option<Image>): Compressor {
    if c.last.Some? then c else c.(last := image)
  }

  function Replied(c: Compressor, reply: Reply): Compressor {
    match reply
    case Reset => c.(counter := 0)
    case Ack => c.(timeout := 0)
  }

  /** The locked first part of a round of the thread. */
  function Begun(c: Compressor): (Compressor, Round) {
    if c.timeout > 0 then (c.(timeout := c.timeout - 1), Idle)
    else if c.last.None? then (c, Idle)
    else if c.counter != 0 && c.previous.None? then (c, Broken)
    else (c, Working(Job(c.counter, c.last.value, c.previous)))
  }

  predicate HasReference(job: Job) {
    job.counter != 0 ==> job.previous.Some?
  }

  function Reference(job: Job): Image
    requires HasReference(job)
  {
    if job.counter == 0 then Zeros() else job.previous.value
  }

  /** The locked last part: sends only if no reset has changed the counter in the meantime. */
  function Finished(c: Compressor, job: Job, delta: Option<Delta>): (Compressor, Option<Packet>) {
    if delta.Some? && job.counter == c.counter then
      (Compressor(Succ(c.counter), None, Some(job.last), WAITING_ROUNDS), Some(Packet(c.counter, delta.value)))
    else
      (c.(last := None, timeout := WAITING_ROUNDS), None)
  }

  // ----- the decompressor

  datatype Decompressor = Decompressor(counter: nat, last: Option<Image>)

  predicate Ready(d: Decompressor) {
    d.counter != 0 ==> d.last.Some?
  }

  function OwnReference(d: Decompressor): Image
    requires Ready(d)
  {
    if d.counter == 0 then Zeros() else d.last.value
  }

  /** A packet out of sequence is answered with a reset; otherwise it is acknowledged and uncompressed. */
  function Received(zd: Codec, d: Decompressor, packet: Packet): (r: (Decompressor, Reply))
    requires Ready(d)
    ensures Ready(r.0)
  {
    if d.counter != packet.counter then (d.(counter := 0), Reset)
    else
      match zd.uncompress(OwnReference(d), packet.delta)
      case Some(image) => (Decompressor(Succ(d.counter), Some(image)), Ack)
      case None => (d, Ack)
  }

  // ----- the objects

  class MetafileCompressor {
    var metafileCounter: nat
    var lastMetafile: Option<Image>
    var previousMetafile: Option<Image>
    var timeout: nat

    ghost function State(): Compressor
      reads this
    {
      Compressor(metafileCounter, lastMetafile, previousMetafile, timeout)
    }

    constructor ()
      ensures State() == Compressor(0, None, None, 0)
    {
      metafileCounter, lastMetafile, previousMetafile, timeout := 0, None, None, 0;
    }

    method Receive(reply: Reply)
      modifies this
      ensures State() == Replied(old(State()), reply)
    {
      match reply {
        case Reset => metafileCounter := 0;
        case Ack => timeout := 0;
      }
    }

    /** A caller that gets true keeps the lock until it calls Close. */
    method Open() returns (ready: bool)
      ensures ready == State().last.None?
      ensures forall image :: Offered(State(), image) == if ready then State().(last := image) else State()
    {
      ready := lastMetafile.None?;
    }

    method Close(metafile: Option<Image>)
      requires lastMetafile.None?
      modifies this
      ensures State() == Offered(old(State()), metafile)
    {
      if metafile.Some? {
        lastMetafile := metafile;
      }
    }

    /** threadProc up to the release of the lock. */
    method StartRound() returns (round: Round)
      modifies this
      ensures (State(), round) == Begun(old(State()))
      ensures round.Working? ==> HasReference(round.job)
    {
      round := Idle;
      if timeout > 0 {
        timeout := timeout - 1;
      } else if lastMetafile.Some? {
        if metafileCounter != 0 && previousMetafile.None? {
          return Broken;
        }
        round := Working(Job(metafileCounter, lastMetafile.value, previousMetafile));
      }
    }

    /** threadProc from where it takes the lock again. */
    method FinishRound(job: Job, delta: Option<Delta>) returns (packet: Option<Packet>)
      modifies this
      ensures (State(), packet) == Finished(old(State()), job, delta)
    {
      packet := None;
      lastMetafile := None;
      if delta.Some? && job.counter == metafileCounter {
        packet := Some(Packet(metafileCounter, delta.value));
        metafileCounter := (metafileCounter + 1) % COUNTER_RANGE;
        previousMetafile := Some(job.last);
      }
      timeout := WAITING_ROUNDS;
    }
  }

  class MetafileDecompressor {
    var metafileCounter: nat
    var lastMetafile: Option<Image>

    ghost function State(): Decompressor
      reads this
    {
      Decompressor(metafileCounter, lastMetafile)
    }

    constructor ()
      ensures State() == Decompressor(0, None) && Ready(State())
    {
      metafileCounter, lastMetafile := 0, None;
    }

    method Receive(zd: Codec, packet: Packet) returns (reply: Reply)
      requires Ready(State())
      modifies this
      ensures Ready(State())
      ensures (State(), reply) == Received(zd, old(State()), packet)
    {
      if metafileCounter != packet.counter {
        metafileCounter := 0;
        reply := Reset;
      } else {
        reply := Ack;
        var reference := if metafileCounter == 0 then Zeros() else lastMetafile.value;
        var target := zd.uncompress(reference, packet.delta);
        if target.Some? {
          metafileCounter := (metafileCounter + 1) % COUNTER_RANGE;
          lastMetafile := target;
        }
      }
    }
  }
}
