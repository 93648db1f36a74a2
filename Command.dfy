/**
 * The command handler of nikobusconnect/command.py: a cache of the six
 * output bytes of every module it has written to, the group commands built
 * from that cache, and the single send each command gets.
 */
module Command {
  import opened PyBuiltins
  import opened Protocol
  import opened Transport

  /**
   * `(channel - 1) % 6`: the slot a channel's byte occupies. Python's `%`
   * with a positive divisor never goes negative, like Dafny's. The slot is
   * the channel's position inside its group of six.
   */
  function ChannelSlot(channel: int): (i: nat)
    ensures i < 6
    ensures channel == 6 * (CalculateGroupNumber(channel) - 1) + i + 1
  {
    (channel - 1) % 6
  }

  /** Channels six apart, such as 1 and 7, share a slot: the cache folds group 2 onto group 1. */
  lemma SlotFolding(channel: int)
    ensures ChannelSlot(channel + 6) == ChannelSlot(channel)
    ensures CalculateGroupNumber(channel + 6) == CalculateGroupNumber(channel) + 1
  {
    var g := CalculateGroupNumber(channel);
    GroupUnique(channel + 6, g + 1);
  }

  /** `bytearray([0] * 6)` */
  const EmptyBuffer: seq<Byte> := [0, 0, 0, 0, 0, 0]

  /** The buffer with the channel's slot set to `state`. */
  function WithState(buffer: seq<Byte>, channel: int, state: Byte): (r: seq<Byte>)
    requires |buffer| == 6
    ensures |r| == 6 && r[ChannelSlot(channel)] == state
    ensures forall i :: 0 <= i < 6 && i != ChannelSlot(channel) ==> r[i] == buffer[i]
  {
    buffer[ChannelSlot(channel) := state]
  }

  /** Writing a channel and then the channel six above it leaves only the second value. */
  lemma GroupTwoOverwritesGroupOne(buffer: seq<Byte>, channel: int, s: Byte, t: Byte)
    requires |buffer| == 6
    ensures WithState(WithState(buffer, channel, s), channel + 6, t) == WithState(buffer, channel, t)
  {
    SlotFolding(channel);
  }

  /** The function code set_output_state uses: 0x12 for channels 1 to 6, 0x15 for any other. */
  function SetCode(channel: int): (code: nat)
    ensures code == 0x12 || code == 0x15
    ensures code == 0x12 <==> CalculateGroupNumber(channel) == 1
  {
    if 1 <= channel <= 6 then 0x12 else 0x15
  }

  class NikobusCommandHandler {
    const connection: Connection
    const responseQueue: Fifo
    /** `_module_states`: address to its six cached output bytes. */
    var moduleStates: map<string, seq<Byte>>
    /** The commands whose completion handler has run, oldest first. */
    var completed: seq<string>

    /** Every cached buffer holds exactly six bytes. */
    predicate Valid()
      reads this
    {
      forall a :: a in moduleStates ==> |moduleStates[a]| == 6
    }

    constructor(connection: Connection, responseQueue: Fifo)
      ensures this.connection == connection && this.responseQueue == responseQueue
      ensures moduleStates == map[] && completed == [] && Valid()
    {
      this.connection := connection;
      this.responseQueue := responseQueue;
      moduleStates := map[];
      completed := [];
    }

    /**
     * `set_cached_state`. The first write for an address creates a zero
     * buffer; a state outside 0..255 then raises ValueError (`ok` false)
     * and leaves that fresh buffer in place.
     */
    method SetCachedState(address: string, channel: int, state: int) returns (ok: bool)
      requires Valid()
      modifies this`moduleStates
      ensures Valid()
      ensures ok <==> 0 <= state < 256
      ensures var buffer := if address in old(moduleStates) then old(moduleStates)[address] else EmptyBuffer;
        moduleStates == old(moduleStates)[address := if ok then WithState(buffer, channel, state) else buffer]
    {
      if address !in moduleStates {
        moduleStates := moduleStates[address := EmptyBuffer];
      }
      if !(0 <= state < 256) {
        return false;
      }
      moduleStates := moduleStates[address := WithState(moduleStates[address], channel, state)];
      ok := true;
    }

    /**
     * `queue_command`: one send; the completion handler, when there is one,
     * runs only after the send returned. A send error is re-raised (`ok`
     * false).
     */
    method QueueCommand(command: string, hasHandler: bool) returns (ok: bool)
      modifies connection, this`completed
      ensures connection.sent == old(connection.sent) + [command]
      ensures ok <==> |old(connection.sent)| !in connection.failing
      ensures completed == old(completed) + (if ok && hasHandler then [command] else [])
    {
      ok := connection.Send(command);
      if ok && hasHandler {
        completed := completed + [command];
      }
    }

    /**
     * `set_output_state`: update the cache, then send the group command
     * carrying the module's six cached bytes. An out-of-range state raises
     * before anything is sent; the address must be hexadecimal for the
     * builder.
     */
    method SetOutputState(address: string, channel: int, state: int, hasHandler: bool) returns (ok: bool)
      requires Valid() && IsAddress(address)
      modifies this`moduleStates, connection, this`completed
      ensures Valid()
      ensures var buffer := if address in old(moduleStates) then old(moduleStates)[address] else EmptyBuffer;
        && (0 <= state < 256 ==>
              && moduleStates == old(moduleStates)[address := WithState(buffer, channel, state)]
              && connection.sent == old(connection.sent) + [MakePcLinkCommandAsWritten(SetCode(channel), address, WithState(buffer, channel, state))]
              && (ok <==> |old(connection.sent)| !in connection.failing)
              && completed == old(completed) +
                   (if ok && hasHandler then [MakePcLinkCommandAsWritten(SetCode(channel), address, WithState(buffer, channel, state))] else []))
        && (!(0 <= state < 256) ==>
              && moduleStates == old(moduleStates)[address := buffer]
              && connection.sent == old(connection.sent) && !ok
              && completed == old(completed))
    {
      ghost var buffer := if address in moduleStates then moduleStates[address] else EmptyBuffer;
      ok := SetCachedState(address, channel, state);
      if !ok {
        return;
      }
      assert moduleStates[address] == WithState(buffer, channel, state);
      var code := SetCode(channel);
      var command := MakePcLinkCommandAsWritten(code, address, moduleStates[address]);
      ok := QueueCommand(command, hasHandler);
    }

    /**
     * `set_output_states`: resend group 1 of a module from the cache; a
     * module with nothing cached is skipped without a send.
     */
    method SetOutputStates(address: string, hasHandler: bool) returns (ok: bool)
      requires Valid() && IsAddress(address)
      modifies connection, this`completed
      ensures address !in moduleStates ==> connection.sent == old(connection.sent) && completed == old(completed) && ok
      ensures address in moduleStates ==>
        && connection.sent == old(connection.sent) + [MakePcLinkCommandAsWritten(0x12, address, moduleStates[address])]
        && (ok <==> |old(connection.sent)| !in connection.failing)
        && completed == old(completed) + (if ok && hasHandler then [MakePcLinkCommandAsWritten(0x12, address, moduleStates[address])] else [])
    {
      if address !in moduleStates {
        return true;
      }
      var command := MakePcLinkCommandAsWritten(0x12, address, moduleStates[address]);
      ok := QueueCommand(command, hasHandler);
    }

    /** `wait_for_response`: the next frame the listener queued, or "" when none comes in time. */
    method WaitForResponse() returns (r: string)
      modifies responseQueue
      ensures old(responseQueue.items) == [] ==> r == "" && responseQueue.items == []
      ensures old(responseQueue.items) != [] ==> r == old(responseQueue.items)[0] && responseQueue.items == old(responseQueue.items)[1..]
    {
      var x := responseQueue.Get();
      r := if x.Some? then x.value else "";
    }
  }

  /**
   * What set_output_state puts on the bus decodes to the function code,
   * the address, and the module's six cached bytes with the new state in
   * the channel's slot; no terminator byte follows.
   */
  lemma OutputCommandCarriesState(address: string, buffer: seq<Byte>, channel: int, state: Byte)
    requires IsAddress(address) && |buffer| == 6
    ensures var r := MakePcLinkCommandAsWritten(SetCode(channel), address, WithState(buffer, channel, state));
      && |r| == 27
      && IsHexString(r[3..21])
      && HexPairs(r[3..21]) == [SetCode(channel) as Byte, AddressLow(address), AddressHigh(address)] + WithState(buffer, channel, state)
      && HexPairs(r[3..21])[3 + ChannelSlot(channel)] == state
  {
    CommandDecodes(SetCode(channel), address, WithState(buffer, channel, state));
  }
}
