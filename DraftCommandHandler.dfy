/**
 * The second, unfinished command handler of nibobusconnect/command_handler.py.
 * It builds the same commands and signatures as the one in
 * nikobusconnect/command_handler.py and drains its FIFO the same way; its
 * correlation loop is cut off in the file and is not part of this model.
 */
module DraftCommandHandler {
  import opened PyBuiltins
  import opened Protocol
  import opened Transport
  import Command
  import CommandHandler

  /**
   * `_prepare_values_for_command`: a seven-byte bytearray with the value in
   * the channel's slot and 0xFF last. The address and the group are taken
   * and ignored; a value outside 0..255 raises ValueError (None here).
   */
  method PrepareValuesForCommand(address: string, group: int, channel: int, value: int) returns (values: Option<seq<Byte>>)
    ensures !(0 <= value < 256) <==> values == None
    ensures 0 <= value < 256 ==> values == Some(CommandHandler.CommandValues(channel, value))
  {
    var a := new Byte[7](_ => 0);
    var index := (channel - 1) % 6;
    if !(0 <= value < 256) {
      return None;
    }
    a[index] := value;
    a[6] := 0xFF;
    assert a[..] == CommandHandler.CommandValues(channel, value) by {
      forall i | 0 <= i < 7
        ensures a[i] == CommandHandler.CommandValues(channel, value)[i]
      {
      }
    }
    values := Some(a[..]);
  }

  /** `_prepare_ack_and_answer_signals`; SignalsAgree states what it computes. */
  function PrepareAckAndAnswerSignals(command: string, address: string): (signals: (string, string)) {
    var part := Slice(command, 3, 5);
    var answerPrefix := if part == "11" then "$18" else "$1C";
    ("$05" + part, answerPrefix + SliceFrom(address, 2) + SliceTo(address, 2))
  }

  /** Both drafts derive the same acknowledgement and answer from every command and address. */
  lemma SignalsAgree(command: string, address: string)
    ensures PrepareAckAndAnswerSignals(command, address) == CommandHandler.PrepareSignals(command, address)
  {
  }

  /** The code get_output_state asks with: 0x12 when `int(group)` is 1, 0x17 otherwise. */
  function StateCode(group: int): (code: nat)
    ensures code == CommandHandler.StateCode(group)
  {
    if group == 1 then 0x12 else 0x17
  }

  /** The code set_output_state sends with: 0x15 when `int(group)` is 1, 0x16 otherwise. */
  function SetCode(group: int): (code: nat)
    ensures code == 0x15 || code == 0x16
    ensures code == 0x15 <==> group == 1
  {
    if group == 1 then 0x15 else 0x16
  }

  /** Both drafts put the same set command on their queue for every channel and value. */
  lemma SetCommandsAgree(address: string, channel: int, value: Byte)
    requires IsAddress(address)
    ensures MakePcLinkCommandAsWritten(SetCode(CalculateGroupNumber(channel)), address, CommandHandler.CommandValues(channel, value))
         == MakePcLinkCommandAsWritten(CommandHandler.SetCode(channel), address, CommandHandler.CommandValues(channel, value))
  {
  }

  class NikobusCommandHandler {
    const connection: Connection
    const commandQueue: Fifo

    constructor(connection: Connection)
      ensures this.connection == connection && fresh(commandQueue) && commandQueue.items == []
    {
      this.connection := connection;
      commandQueue := new Fifo();
    }

    /**
     * The request get_output_state makes: the command for the group and
     * the two signatures it hands to the (cut off) correlation loop. An
     * address that is not hexadecimal raises, and nothing here catches it.
     */
    method OutputStateRequest(address: string, group: int) returns (command: string, ack: string, answer: string)
      requires IsAddress(address)
      ensures command == MakePcLinkCommandAsWritten(CommandHandler.StateCode(group), address, [])
      ensures (ack, answer) == CommandHandler.PrepareSignals(command, address)
    {
      command := MakePcLinkCommandAsWritten(StateCode(group), address, []);
      var signals := PrepareAckAndAnswerSignals(command, address);
      SignalsAgree(command, address);
      ack, answer := signals.0, signals.1;
    }

    /** `send_command`: one send; a send error is logged and swallowed. */
    method SendCommand(command: string)
      modifies connection
      ensures connection.sent == old(connection.sent) + [command]
    {
      var _ := connection.Send(command);
    }

    /** `queue_command` */
    method QueueCommand(command: string)
      modifies commandQueue
      ensures commandQueue.items == old(commandQueue.items) + [command]
    {
      commandQueue.Put(command);
    }

    /**
     * `process_commands` while running, until the queue is drained: the
     * commands go out in the order they were queued, whichever sends fail.
     */
    method ProcessCommands()
      modifies commandQueue, connection
      ensures commandQueue.items == []
      ensures connection.sent == old(connection.sent) + old(commandQueue.items)
    {
      while commandQueue.items != []
        invariant connection.sent + commandQueue.items == old(connection.sent) + old(commandQueue.items)
        decreases |commandQueue.items|
      {
        var c := commandQueue.Get();
        SendCommand(c.value);
      }
      assert connection.sent + [] == connection.sent;
    }

    /** `set_output_state`: queue exactly one set command, the same one the other draft queues. */
    method SetOutputState(address: string, channel: int, value: int) returns (ok: bool)
      requires IsAddress(address)
      modifies commandQueue
      ensures ok <==> 0 <= value < 256
      ensures ok ==> commandQueue.items == old(commandQueue.items) + [MakePcLinkCommandAsWritten(CommandHandler.SetCode(channel), address, CommandHandler.CommandValues(channel, value))]
      ensures !ok ==> commandQueue.items == old(commandQueue.items)
    {
      var group := CalculateGroupNumber(channel);
      var values := PrepareValuesForCommand(address, group, channel, value);
      if values == None {
        return false;
      }
      var code := SetCode(group);
      QueueCommand(MakePcLinkCommandAsWritten(code, address, values.value));
      ok := true;
    }
  }
}
