/** The protocol object with its tables, and the channels it keeps informed of their numbers. */
module ChannelObjects {
  import opened ChannelSteps

  class NetworkChannel {
    const id: Id
    var num: nat

    constructor (id: Id)
      ensures this.id == id && num == 0
    {
      this.id := id;
      num := 0;
    }
  }

  class ChannelProtocol {
    var mode: Mode
    var channels: map<Id, set<NetworkChannel>>
    var numToId: map<nat, Id>
    var idToNum: map<Id, nat>
    var todo: map<nat, seq<Payload>>
    var sentReservedChannelPackets: nat

    ghost function State(): Protocol
      reads this
    {
      Protocol(mode, idToNum, numToId, todo)
    }

    ghost function Channels(): set<NetworkChannel>
      reads this
    {
      set id, ch | id in channels && ch in channels[id] :: ch
    }

    /** Channels are filed under their ids. */
    ghost predicate Valid()
      reads this
    {
      forall id, ch :: id in channels && ch in channels[id] ==> ch.id == id
    }

    /** Every channel has the number of its id, or 0. */
    ghost predicate Current()
      reads this, Channels()
    {
      forall ch :: ch in Channels() ==> ch.num == GetIdNum(State(), ch.id)
    }

    constructor ()
      ensures Valid() && Current() && State() == Started(IdleMode) && channels == map[]
    {
      mode, channels, sentReservedChannelPackets := IdleMode, map[], 0;
      numToId, idToNum, todo := map[], map[], map[];
    }

    /** A new session forgets all numbers; the channels keep what they were told before. */
    method Start(host: bool)
      requires Valid()
      modifies this`mode, this`idToNum, this`numToId, this`todo
      ensures Valid() && State() == Started(if host then HostMode else ClientMode)
    {
      mode := if host then HostMode else ClientMode;
      idToNum, numToId, todo := map[], map[], map[];
    }

    /** Files a channel and tells it the number its id already has. */
    method RegisterNetworkChannel(ch: NetworkChannel)
      requires Valid()
      modifies this`channels, ch`num
      ensures Valid() && (old(Current()) ==> Current()) && State() == old(State())
      ensures Channels() == old(Channels()) + {ch} && ch.num == GetIdNum(State(), ch.id)
    {
      if ch.id !in channels {
        channels := channels[ch.id := {}];
      }
      channels := channels[ch.id := channels[ch.id] + {ch}];
      assert ch.id in channels && ch in channels[ch.id];
      assert forall c :: c in old(Channels()) ==> c.id in channels && c in channels[c.id];
      ch.num := if ch.id in idToNum then idToNum[ch.id] else 0;
    }

    /** Takes a channel out of the files, without touching the tables or other channels. */
    method UnregisterNetworkChannel(ch: NetworkChannel)
      requires Valid()
      modifies this`channels
      ensures Valid() && (old(Current()) ==> Current()) && State() == old(State())
      ensures Channels() == old(Channels()) - {ch}
    {
      if ch.id in channels {
        channels := channels[ch.id := channels[ch.id] - {ch}];
      }
      assert forall c :: c in old(Channels()) - {ch} ==> c.id in channels && c in channels[c.id];
    }

    /** The reserved channels are used in turn. */
    method ReservedChannel() returns (channel: nat)
      modifies this`sentReservedChannelPackets
      ensures channel < RESERVED_CHANNELS
      ensures channel == old(sentReservedChannelPackets) % RESERVED_CHANNELS
      ensures sentReservedChannelPackets == old(sentReservedChannelPackets) + 1
    {
      channel := sentReservedChannelPackets % RESERVED_CHANNELS;
      sentReservedChannelPackets := sentReservedChannelPackets + 1;
    }

    /** The first number an id gets stays; all channels of the id are told. */
    method SetIdNum(id: Id, num: nat)
      requires Valid()
      modifies this`idToNum, this`numToId, Channels()`num
      ensures Valid() && (old(Current()) ==> Current())
      ensures State() == ChannelSteps.SetIdNum(old(State()), id, num)
      ensures forall ch :: ch in Channels() ==>
                ch.num == if ch.id == id && id !in old(idToNum) then num else old(ch.num)
    {
      if id !in idToNum {
        idToNum, numToId := idToNum[id := num], numToId[num := id];
        if id in channels {
          var rest := channels[id];
          while rest != {}
            invariant rest <= channels[id]
            invariant State() == ChannelSteps.SetIdNum(old(State()), id, num)
            invariant forall ch :: ch in Channels() ==>
                        ch.num == if ch.id == id && ch !in rest then num else old(ch.num)
            decreases |rest|
          {
            var ch :| ch in rest;
            assert ch in Channels();
            ch.num := num;
            rest := rest - {ch};
          }
        }
      }
    }

    method CreateIdNum(id: Id) returns (num: nat)
      requires Valid()
      modifies this`idToNum, this`numToId, Channels()`num
      ensures Valid() && (old(Current()) ==> Current())
      ensures num == CreatedNum(old(State()), id)
      ensures State() == ChannelSteps.CreateIdNum(old(State()), id)
    {
      if id !in idToNum {
        num := |idToNum| + RESERVED_CHANNELS;
        SetIdNum(id, num);
      } else {
        num := idToNum[id];
      }
    }

    method SendChannelPacket(ch: NetworkChannel, payload: Payload, safe: bool) returns (es: seq<Envelope>)
      requires Valid()
      modifies this`idToNum, this`numToId, Channels()`num
      ensures Valid() && (old(Current()) ==> Current())
      ensures (State(), es) == Sent(old(State()), ch.id, payload, safe)
    {
      var id := ch.id;
      var num := if id in idToNum then idToNum[id] else 0;
      match mode {
        case IdleMode => es := [];
        case HostMode =>
          if num == 0 {
            num := CreateIdNum(id);
            es := [IdChannelMessage(num, id, payload)];
          } else {
            es := [ChannelMessage(num, payload, safe)];
          }
        case ClientMode =>
          if num == 0 {
            es := [IdChannelMessage(0, id, payload)];
          } else {
            es := [ChannelMessage(num, payload, safe)];
          }
      }
    }

    method Receive(m: Message) returns (replies: seq<Envelope>, dispatched: seq<Dispatch>)
      requires Valid() && WellFormed(m)
      modifies this`idToNum, this`numToId, this`todo, Channels()`num
      ensures Valid() && (old(Current()) ==> Current())
      ensures Outcome(State(), replies, dispatched) == Received(old(State()), m)
    {
      var kind, num := m.key % 16, m.key / 16;
      replies, dispatched := [], [];
      if mode.IdleMode? {
        return;
      }
      if kind == ID_NUM {
        if mode.ClientMode? {
          SetIdNum(m.body.id, num);
          if num in todo {
            dispatched := Dispatches(m.body.id, todo[num]);
          }
          todo := todo - {num};
        } else {
          replies := [IdNumMessage(num, if num in numToId then numToId[num] else "")];
        }
      } else if kind == CHANNEL {
        var id := if num in numToId then numToId[num] else "";
        if mode.ClientMode? && id == "" {
          if num !in todo {
            todo := todo[num := []];
          }
          todo := todo[num := todo[num] + [m.body.payload]];
          replies := [IdNumMessage(num, "")];
        } else {
          dispatched := [Dispatch(id, m.body.payload)];
        }
      } else if kind == ID_CHANNEL {
        dispatched := [Dispatch(m.body.id, m.body.payload)];
        if mode.ClientMode? {
          SetIdNum(m.body.id, num);
        } else {
          num := CreateIdNum(m.body.id);
          replies := [IdNumMessage(num, m.body.id)];
        }
      }
    }
  }
}
