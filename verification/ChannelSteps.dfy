/**
 * Negotiating short channel numbers: what the host and the clients do with
 * their tables when a packet is sent or received.  The host numbers the ids;
 * a client that meets an unknown number keeps the packet and asks for its id.
 */
module ChannelSteps {
  import opened Bits

  type Id = string
  type Payload = seq<Byte>

  const RESERVED_CHANNELS := 16

  const FULL_SEND := 0
  const CHANNEL := 1
  const ID_CHANNEL := 2
  const ID_NUM := 3

  datatype Mode = IdleMode | HostMode | ClientMode

  datatype Body = Empty | Raw(payload: Payload) | Named(id: Id, payload: Payload) | Name(id: Id)

  /** The 16-bit key holds the kind of the packet in its lower four bits and the channel number above. */
  datatype Message = Message(key: nat, body: Body)

  /** A message as handed to the network: unsafe ones may get lost. */
  datatype Envelope = Envelope(message: Message, safe: bool)

  /** A payload that reached the channels with the given id. */
  datatype Dispatch = Dispatch(id: Id, payload: Payload)

  function Key(kind: nat, num: nat): nat {
    (kind + num * 16) % 0x1_0000
  }

  function Kind(m: Message): nat {
    m.key % 16
  }

  function Num(m: Message): nat {
    m.key / 16
  }

  /** The body is what the receiver parses for the kind. */
  predicate WellFormed(m: Message) {
    && (Kind(m) == CHANNEL ==> m.body.Raw?)
    && (Kind(m) == ID_CHANNEL ==> m.body.Named?)
    && (Kind(m) == ID_NUM ==> m.body.Name?)
  }

  /** A key gives back its kind always, and its number if that is below 4096. */
  lemma KeyRecovered(kind: nat, num: nat, body: Body)
    requires kind < 16
    ensures Kind(Message(Key(kind, num), body)) == kind
    ensures Num(Message(Key(kind, num), body)) == num <==> num < 4096
    ensures Num(Message(Key(kind, num), body)) == num % 4096
  {
    var q, r := num / 4096, num % 4096;
    assert kind + num * 16 == 0x1_0000 * q + (kind + r * 16);
    assert (kind + num * 16) % 0x1_0000 == kind + r * 16;
  }

  // ----- the tables

  datatype Protocol = Protocol(mode: Mode, idToNum: map<Id, nat>, numToId: map<nat, Id>, todo: map<nat, seq<Payload>>)

  function Started(mode: Mode): Protocol {
    Protocol(mode, map[], map[], map[])
  }

  /** 0 stands for no number. */
  function GetIdNum(p: Protocol, id: Id): nat {
    if id in p.idToNum then p.idToNum[id] else 0
  }

  function GetNumId(p: Protocol, num: nat): Id {
    if num in p.numToId then p.numToId[num] else ""
  }

  function SetIdNum(p: Protocol, id: Id, num: nat): Protocol {
    if id in p.idToNum then p else p.(idToNum := p.idToNum[id := num], numToId := p.numToId[num := id])
  }

  function CreatedNum(p: Protocol, id: Id): nat {
    if id in p.idToNum then p.idToNum[id] else |p.idToNum| + RESERVED_CHANNELS
  }

  function CreateIdNum(p: Protocol, id: Id): Protocol {
    SetIdNum(p, id, CreatedNum(p, id))
  }

  function ChannelMessage(num: nat, payload: Payload, safe: bool): Envelope {
    Envelope(Message(Key(CHANNEL, num), Raw(payload)), safe)
  }

  function IdChannelMessage(num: nat, id: Id, payload: Payload): Envelope {
    Envelope(Message(Key(ID_CHANNEL, num), Named(id, payload)), true)
  }

  function IdNumMessage(num: nat, id: Id): Envelope {
    Envelope(Message(Key(ID_NUM, num), Name(id)), true)
  }

  /** sendChannelPacket: the first packet of an id carries the id, from the host also its number. */
  function Sent(p: Protocol, id: Id, payload: Payload, safe: bool): (Protocol, seq<Envelope>) {
    if p.mode.IdleMode? then (p, [])
    else if GetIdNum(p, id) != 0 then (p, [ChannelMessage(GetIdNum(p, id), payload, safe)])
    else if p.mode.HostMode? then (CreateIdNum(p, id), [IdChannelMessage(CreatedNum(p, id), id, payload)])
    else (p, [IdChannelMessage(0, id, payload)])
  }

  /** What receiving a message leads to. */
  datatype Outcome = Outcome(p: Protocol, replies: seq<Envelope>, dispatched: seq<Dispatch>)

  function Todo(p: Protocol, num: nat): seq<Payload> {
    if num in p.todo then p.todo[num] else []
  }

  function Dispatches(id: Id, payloads: seq<Payload>): (s: seq<Dispatch>)
    ensures |s| == |payloads|
  {
    if payloads == [] then [] else [Dispatch(id, payloads[0])] + Dispatches(id, payloads[1..])
  }

  function Received(p: Protocol, m: Message): Outcome
    requires WellFormed(m)
  {
    var num := Num(m);
    if p.mode.IdleMode? then Outcome(p, [], [])
    else if Kind(m) == ID_NUM then
      if p.mode.ClientMode? then
        var q := SetIdNum(p, m.body.id, num);
        Outcome(q.(todo := q.todo - {num}), [], Dispatches(m.body.id, Todo(p, num)))
      else Outcome(p, [IdNumMessage(num, GetNumId(p, num))], [])
    else if Kind(m) == CHANNEL then
      var id := GetNumId(p, num);
      if p.mode.ClientMode? && id == "" then
        Outcome(p.(todo := p.todo[num := Todo(p, num) + [m.body.payload]]), [IdNumMessage(num, "")], [])
      else Outcome(p, [], [Dispatch(id, m.body.payload)])
    else if Kind(m) == ID_CHANNEL then
      var d := Dispatch(m.body.id, m.body.payload);
      if p.mode.ClientMode? then Outcome(SetIdNum(p, m.body.id, num), [], [d])
      else Outcome(CreateIdNum(p, m.body.id), [IdNumMessage(CreatedNum(p, m.body.id), m.body.id)], [d])
    else Outcome(p, [], [])
  }
}
