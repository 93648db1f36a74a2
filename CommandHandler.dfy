/**
 * The command handler of nikobusconnect/command_handler.py: the FIFO of
 * fire-and-forget commands, the signatures of the acknowledgement and the
 * answer a command expects, and the retry loop that waits for them.
 *
 * Time is abstract: an attempt is the list of read outcomes that arrive
 * before its acknowledgement deadline, in order.
 */
module CommandHandler {
  import opened PyBuiltins
  import opened Protocol
  import opened Transport
  import Command

  // ---------------------------------------------------------------------------
  // _prepare_command_values and _prepare_signals
  // ---------------------------------------------------------------------------

  /** The seven bytes of a set command: the value in the channel's slot, 0xFF last, zeros elsewhere. */
  function CommandValues(channel: int, value: Byte): (v: seq<Byte>)
    ensures |v| == 7 && v[Command.ChannelSlot(channel)] == value && v[6] == 0xFF
    ensures forall i :: 0 <= i < 6 && i != Command.ChannelSlot(channel) ==> v[i] == 0
  {
    [0, 0, 0, 0, 0, 0, 0xFF][Command.ChannelSlot(channel) := value]
  }

  /**
   * `_prepare_command_values`: fill a seven-byte bytearray. A value outside
   * 0..255 raises ValueError on the assignment (None here).
   */
  method PrepareCommandValues(channel: int, value: int) returns (values: Option<seq<Byte>>)
    ensures !(0 <= value < 256) <==> values == None
    ensures 0 <= value < 256 ==> values == Some(CommandValues(channel, value))
  {
    var a := new Byte[7](_ => 0);
    if !(0 <= value < 256) {
      return None;
    }
    a[Command.ChannelSlot(channel)] := value;
    a[6] := 0xFF;
    assert a[..] == CommandValues(channel, value) by {
      forall i | 0 <= i < 7
        ensures a[i] == CommandValues(channel, value)[i]
      {
      }
    }
    values := Some(a[..]);
  }

  /**
   * `_prepare_signals`: the acknowledgement and answer a command waits for.
   * The acknowledgement is "$05" and at most two more characters; the
   * answer is "$18" or "$1C" followed by the address's characters, rotated.
   */
  function PrepareSignals(command: string, address: string): (signals: (string, string))
    ensures 3 <= |signals.0| <= 5 && signals.0[..3] == "$05"
    ensures |signals.1| == |address| + 3 && (signals.1[..3] == "$18" || signals.1[..3] == "$1C")
    ensures multiset(signals.1[3..]) == multiset(address)
  {
    var part := Slice(command, 3, 5);
    var prefix := if part == "11" then "$18" else "$1C";
    var answer := prefix + SliceFrom(address, 2) + SliceTo(address, 2);
    Rotation(prefix, address);
    ("$05" + part, answer)
  }

  /** `address[2:] + address[:2]` after a three-character prefix: the address's characters, rotated. */
  lemma Rotation(prefix: string, address: string)
    requires |prefix| == 3
    ensures var answer := prefix + SliceFrom(address, 2) + SliceTo(address, 2);
      |answer| == |address| + 3 && answer[..3] == prefix && multiset(answer[3..]) == multiset(address)
  {
    var rotated := SliceFrom(address, 2) + SliceTo(address, 2);
    assert prefix + SliceFrom(address, 2) + SliceTo(address, 2) == prefix + rotated;
    assert (prefix + rotated)[3..] == rotated;
    if |address| > 2 {
      assert address == address[..2] + address[2..];
    }
  }

  /**
   * For a built command the acknowledgement is "$05" followed by the
   * function code, and the answer carries the two address halves swapped,
   * in the order the frame carries them: for address "1A2B" the answer is
   * "$1C2B1A" (or "$182B1A" for function 0x11).
   */
  lemma SignalsOfBuiltCommand(func: nat, address: string, args: seq<Byte>)
    requires IsAddress(address) && func < 256 && |args| <= 119
    ensures var (ack, answer) := PrepareSignals(MakePcLinkCommandAsWritten(func, address, args), address);
      && ack == "$05" + Hex2(func)
      && answer == (if func == 0x11 then "$18" else "$1C") + SliceFrom(address, 2) + SliceTo(address, 2)
  {
    var r := MakePcLinkCommandAsWritten(func, address, args);
    CommandFields(func, address, args);
    SignalsOfCode(r, address, Hex2(func));
    Hex2Is11(func);
  }

  /**
   * For a four-digit address the answer echoes the frame's own address
   * field, low byte first: the frame for "1A2B" carries "2B1A" at
   * characters 5..9, so the answer is "$1C2B1A".
   */
  lemma AnswerEchoesAddressField(func: nat, address: string, args: seq<Byte>)
    requires |address| == 4 && IsUpperHexString(address) && func < 256 && |args| <= 119
    ensures var command := MakePcLinkCommandAsWritten(func, address, args);
      PrepareSignals(command, address).1 == (if func == 0x11 then "$18" else "$1C") + command[5..9]
  {
    var command := MakePcLinkCommandAsWritten(func, address, args);
    AddressIsLittleEndian(func, address, args);
    SignalsOfBuiltCommand(func, address, args);
    EchoOfField(command, address, PrepareSignals(command, address).1, if func == 0x11 then "$18" else "$1C");
  }

  /** The swapped halves `s[2:] + s[:2]` of a four-digit address are the frame's address field. */
  lemma EchoOfField(command: string, address: string, answer: string, prefix: string)
    requires |address| == 4 && |command| >= 9 && command[5..9] == address[2..] + address[..2]
    requires answer == prefix + SliceFrom(address, 2) + SliceTo(address, 2)
    ensures answer == prefix + command[5..9]
  {
  }

  /** The signals depend on the command only through its two function-code digits. */
  lemma SignalsOfCode(command: string, address: string, code: string)
    requires |command| >= 5 && command[3..5] == code
    ensures PrepareSignals(command, address) ==
      ("$05" + code, (if code == "11" then "$18" else "$1C") + SliceFrom(address, 2) + SliceTo(address, 2))
  {
    assert Slice(command, 3, 5) == command[3..5];
  }

  /** Only function code 0x11 is written "11". */
  lemma Hex2Is11(b: Byte)
    ensures Hex2(b) == "11" <==> b == 0x11
  {
    ParseHexOfTwo("11");
    IntToHexOfTwoDigits("11");
  }

  /** The request get_output_state sends always expects a "$1C" answer. */
  lemma OutputStateRequestAnswer(group: int, address: string)
    requires IsAddress(address)
    ensures PrepareSignals(MakePcLinkCommandAsWritten(StateCode(group), address, []), address).1[..3] == "$1C"
  {
    SignalsOfBuiltCommand(StateCode(group), address, []);
    var tail := SliceFrom(address, 2) + SliceTo(address, 2);
    assert ("$1C" + tail)[..3] == "$1C";
  }

  // ---------------------------------------------------------------------------
  // _wait_for_signals: the specification
  // ---------------------------------------------------------------------------

  /** What one read of the connection gives: a message, a timeout, or another read error. */
  datatype Arrival = Message(text: string) | ReadTimeout | ReadError

  /** What `_wait_for_signals` does in the end: return a value, or let a read error escape. */
  datatype Reply = Returned(answer: Option<string>) | Raised

  /** The `ack_received` and `answer_received` flags, kept across attempts. */
  datatype Flags = Flags(ack: bool, answer: Option<string>)

  /** How an attempt ends: its deadline passes (or it breaks on an answer), it returns, or it raises. */
  datatype AttemptEnd = Next(flags: Flags) | Return(message: string) | Raise

  /** Python truthiness of `answer_received`. */
  predicate Truthy(answer: Option<string>) {
    answer.Some? && |answer.value| > 0
  }

  /** The reads of attempt `k`: those listed, or none at all past the end of the list. */
  function AttemptArrivals(arrivals: seq<seq<Arrival>>, k: nat): seq<Arrival> {
    if k < |arrivals| then arrivals[k] else []
  }

  /**
   * One attempt, over its reads in order: a message holding the answer
   * records it and ends the attempt; otherwise, once both flags are set,
   * the captured answer is returned.
   */
  function Attempt(ack: string, answer: string, incoming: seq<Arrival>, flags: Flags): AttemptEnd {
    if |incoming| == 0 then Next(flags)
    else match incoming[0]
      case ReadTimeout => Attempt(ack, answer, incoming[1..], flags)
      case ReadError => Raise
      case Message(m) =>
        var acked := flags.ack || Contains(m, ack);
        if Contains(m, answer) then Next(Flags(acked, Some(m)))
        else if acked && Truthy(flags.answer) then Return(flags.answer.value)
        else Attempt(ack, answer, incoming[1..], Flags(acked, flags.answer))
  }

  /** Attempts `k` up to `maxAttempts`: how many more sends, and what is returned. */
  function Attempts(ack: string, answer: string, arrivals: seq<seq<Arrival>>, k: nat, maxAttempts: nat, flags: Flags): (nat, Reply)
    decreases maxAttempts - k
  {
    if k >= maxAttempts then (0, Returned(flags.answer))
    else match Attempt(ack, answer, AttemptArrivals(arrivals, k), flags)
      case Raise => (1, Raised)
      case Return(m) => (1, Returned(Some(m)))
      case Next(f) =>
        var (n, r) := Attempts(ack, answer, arrivals, k + 1, maxAttempts, f);
        (n + 1, r)
  }

  /** The whole loop, from clear flags. */
  function WaitSpec(ack: string, answer: string, arrivals: seq<seq<Arrival>>, maxAttempts: nat): (nat, Reply) {
    Attempts(ack, answer, arrivals, 0, maxAttempts, Flags(false, None))
  }

  /** `[command] * n` */
  function Repeat(command: string, n: nat): (r: seq<string>)
    ensures |r| == n && forall i :: 0 <= i < n ==> r[i] == command
  {
    if n == 0 then [] else Repeat(command, n - 1) + [command]
  }

  /** Attempt `k`, when it is below the bound, as the recursion takes it. */
  lemma AttemptsStep(ack: string, answer: string, arrivals: seq<seq<Arrival>>, k: nat, maxAttempts: nat, flags: Flags)
    requires k < maxAttempts
    ensures var rest := (f: Flags) => Attempts(ack, answer, arrivals, k + 1, maxAttempts, f);
      Attempts(ack, answer, arrivals, k, maxAttempts, flags) ==
        match Attempt(ack, answer, AttemptArrivals(arrivals, k), flags)
        case Raise => (1, Raised)
        case Return(m) => (1, Returned(Some(m)))
        case Next(f) => (rest(f).0 + 1, rest(f).1)
  {
  }

  /** The read at index `i` of an attempt, as the recursion takes it. */
  lemma AttemptAt(ack: string, answer: string, incoming: seq<Arrival>, i: nat, flags: Flags)
    requires i < |incoming|
    ensures Attempt(ack, answer, incoming[i..], flags) ==
      match incoming[i]
      case ReadTimeout => Attempt(ack, answer, incoming[i + 1..], flags)
      case ReadError => Raise
      case Message(m) =>
        var acked := flags.ack || Contains(m, ack);
        if Contains(m, answer) then Next(Flags(acked, Some(m)))
        else if acked && Truthy(flags.answer) then Return(flags.answer.value)
        else Attempt(ack, answer, incoming[i + 1..], Flags(acked, flags.answer))
  {
    assert incoming[i..][0] == incoming[i];
    assert incoming[i..][1..] == incoming[i + 1..];
  }

  /**
   * The inner loop of `_wait_for_signals`: the reads of one attempt, from
   * the flags the attempt starts with.
   */
  method ReadAttempt(ack: string, answer: string, incoming: seq<Arrival>, flags: Flags) returns (end: AttemptEnd)
    ensures end == Attempt(ack, answer, incoming, flags)
  {
    var ackReceived, answerReceived := flags.ack, flags.answer;
    var i := 0;
    while i < |incoming|
      invariant i <= |incoming|
      invariant Attempt(ack, answer, incoming, flags) == Attempt(ack, answer, incoming[i..], Flags(ackReceived, answerReceived))
      decreases |incoming| - i
    {
      AttemptAt(ack, answer, incoming, i, Flags(ackReceived, answerReceived));
      var x := incoming[i];
      if x.ReadError? {
        return Raise;
      }
      if x.Message? {
        if Contains(x.text, ack) {
          ackReceived := true;
        }
        if Contains(x.text, answer) {
          return Next(Flags(ackReceived, Some(x.text)));
        }
        if ackReceived && Truthy(answerReceived) {
          return Return(answerReceived.value);
        }
      }
      i := i + 1;
    }
    end := Next(Flags(ackReceived, answerReceived));
  }

  // ---------------------------------------------------------------------------
  // _wait_for_signals: properties
  // ---------------------------------------------------------------------------

  /** A recorded answer always holds the answer signal. */
  predicate AnswerHolds(answer: string, flags: Flags) {
    flags.answer.Some? ==> Contains(flags.answer.value, answer)
  }

  lemma {:induction false} AttemptKeepsAnswer(ack: string, answer: string, incoming: seq<Arrival>, flags: Flags)
    requires AnswerHolds(answer, flags)
    ensures match Attempt(ack, answer, incoming, flags)
      case Next(f) => AnswerHolds(answer, f) && (flags.ack ==> f.ack) && (flags.answer.Some? ==> f.answer.Some?)
      case Return(m) => Contains(m, answer)
      case Raise => true
  {
    if |incoming| > 0 {
      match incoming[0]
      case ReadTimeout =>
        AttemptKeepsAnswer(ack, answer, incoming[1..], flags);
      case ReadError =>
      case Message(m) =>
        var acked := flags.ack || Contains(m, ack);
        if !Contains(m, answer) && !(acked && Truthy(flags.answer)) {
          AttemptKeepsAnswer(ack, answer, incoming[1..], Flags(acked, flags.answer));
        }
    }
  }

  /**
   * The loop sends the command at most `maxAttempts` times, and what it
   * returns is None or a message holding the answer signal.
   */
  lemma {:induction false} AttemptsBounded(ack: string, answer: string, arrivals: seq<seq<Arrival>>, k: nat, maxAttempts: nat, flags: Flags)
    requires AnswerHolds(answer, flags)
    ensures var (n, r) := Attempts(ack, answer, arrivals, k, maxAttempts, flags);
      && n <= (if k <= maxAttempts then maxAttempts - k else 0)
      && (r.Returned? && r.answer.Some? ==> Contains(r.answer.value, answer))
    decreases maxAttempts - k
  {
    if k < maxAttempts {
      var incoming := AttemptArrivals(arrivals, k);
      AttemptKeepsAnswer(ack, answer, incoming, flags);
      match Attempt(ack, answer, incoming, flags)
      case Raise =>
      case Return(m) =>
      case Next(f) =>
        AttemptsBounded(ack, answer, arrivals, k + 1, maxAttempts, f);
    }
  }

  lemma WaitBounded(ack: string, answer: string, arrivals: seq<seq<Arrival>>, maxAttempts: nat)
    ensures var (n, r) := WaitSpec(ack, answer, arrivals, maxAttempts);
      && n <= maxAttempts
      && (r.Returned? && r.answer.Some? ==> Contains(r.answer.value, answer))
  {
    AttemptsBounded(ack, answer, arrivals, 0, maxAttempts, Flags(false, None));
  }

  /** No message of the incoming holds the answer signal, and no read fails. */
  predicate Silent(answer: string, incoming: seq<Arrival>) {
    forall i :: 0 <= i < |incoming| ==> incoming[i] != ReadError && (incoming[i].Message? ==> !Contains(incoming[i].text, answer))
  }

  lemma {:induction false} SilentAttempt(ack: string, answer: string, incoming: seq<Arrival>, flags: Flags)
    requires Silent(answer, incoming) && flags.answer == None
    ensures Attempt(ack, answer, incoming, flags).Next?
    ensures Attempt(ack, answer, incoming, flags).flags.answer == None
  {
    if |incoming| > 0 {
      var acked := flags.ack || (incoming[0].Message? && Contains(incoming[0].text, ack));
      SilentAttempt(ack, answer, incoming[1..], Flags(acked, None));
    }
  }

  lemma {:induction false} SilentAttempts(ack: string, answer: string, arrivals: seq<seq<Arrival>>, k: nat, maxAttempts: nat, flags: Flags)
    requires forall j :: k <= j < |arrivals| ==> Silent(answer, arrivals[j])
    requires flags.answer == None && k <= maxAttempts
    ensures Attempts(ack, answer, arrivals, k, maxAttempts, flags) == (maxAttempts - k, Returned(None))
    decreases maxAttempts - k
  {
    if k < maxAttempts {
      var incoming := AttemptArrivals(arrivals, k);
      SilentAttempt(ack, answer, incoming, flags);
      SilentAttempts(ack, answer, arrivals, k + 1, maxAttempts, Attempt(ack, answer, incoming, flags).flags);
    }
  }

  /**
   * When no answer ever comes and no read fails, every attempt is used: the
   * command goes out exactly `maxAttempts` times and the result is None.
   */
  lemma NoAnswerUsesEveryAttempt(ack: string, answer: string, arrivals: seq<seq<Arrival>>, maxAttempts: nat)
    requires forall j :: 0 <= j < |arrivals| ==> Silent(answer, arrivals[j])
    ensures WaitSpec(ack, answer, arrivals, maxAttempts) == (maxAttempts, Returned(None))
  {
    SilentAttempts(ack, answer, arrivals, 0, maxAttempts, Flags(false, None));
  }

  /**
   * A message holding both signals in the first attempt does not end the
   * call: the command is sent again in every later attempt, and with
   * nothing more arriving the answer is returned after the last one.
   */
  lemma AnswerDoesNotStopRetries(ack: string, answer: string, m: string, maxAttempts: nat)
    requires Contains(m, ack) && Contains(m, answer) && maxAttempts >= 1
    ensures WaitSpec(ack, answer, [[Message(m)]], maxAttempts) == (maxAttempts, Returned(Some(m)))
  {
    var flags := Flags(true, Some(m));
    assert Attempt(ack, answer, [Message(m)], Flags(false, None)) == Next(flags);
    IdleAttempts(ack, answer, [[Message(m)]], 1, maxAttempts, flags);
  }

  /** Attempts with nothing left to read only resend, and return what was captured. */
  lemma {:induction false} IdleAttempts(ack: string, answer: string, arrivals: seq<seq<Arrival>>, k: nat, maxAttempts: nat, flags: Flags)
    requires |arrivals| <= k <= maxAttempts
    ensures Attempts(ack, answer, arrivals, k, maxAttempts, flags) == (maxAttempts - k, Returned(flags.answer))
    decreases maxAttempts - k
  {
    if k < maxAttempts {
      IdleAttempts(ack, answer, arrivals, k + 1, maxAttempts, flags);
    }
  }

  /** Neither signal arrives in these reads, and none fails. */
  predicate Quiet(ack: string, answer: string, incoming: seq<Arrival>) {
    forall i :: 0 <= i < |incoming| ==>
      incoming[i] != ReadError && (incoming[i].Message? ==> !Contains(incoming[i].text, ack) && !Contains(incoming[i].text, answer))
  }

  lemma {:induction false} QuietAttempt(ack: string, answer: string, incoming: seq<Arrival>, flags: Flags)
    requires Quiet(ack, answer, incoming) && !flags.ack
    ensures Attempt(ack, answer, incoming, flags) == Next(flags)
  {
    if |incoming| > 0 {
      assert forall i :: 0 <= i < |incoming[1..]| ==> incoming[1..][i] == incoming[i + 1];
      QuietAttempt(ack, answer, incoming[1..], flags);
    }
  }

  /** Quiet attempts, with no acknowledgement yet, only resend and keep the flags. */
  lemma {:induction false} QuietAttempts(ack: string, answer: string, arrivals: seq<seq<Arrival>>, k: nat, maxAttempts: nat, flags: Flags)
    requires forall j :: k <= j < |arrivals| ==> Quiet(ack, answer, arrivals[j])
    requires !flags.ack && k <= maxAttempts
    ensures Attempts(ack, answer, arrivals, k, maxAttempts, flags) == (maxAttempts - k, Returned(flags.answer))
    decreases maxAttempts - k
  {
    if k < maxAttempts {
      QuietAttempt(ack, answer, AttemptArrivals(arrivals, k), flags);
      QuietAttempts(ack, answer, arrivals, k + 1, maxAttempts, flags);
    }
  }

  /**
   * An answer seen without any acknowledgement does not end the call: with
   * neither signal in the later attempts, the command goes out
   * `maxAttempts` times and the answer is still returned after the last.
   */
  lemma AnswerWithoutAck(ack: string, answer: string, m: string, later: seq<seq<Arrival>>, maxAttempts: nat)
    requires !Contains(m, ack) && Contains(m, answer) && maxAttempts >= 1
    requires forall j :: 0 <= j < |later| ==> Quiet(ack, answer, later[j])
    ensures WaitSpec(ack, answer, [[Message(m)]] + later, maxAttempts) == (maxAttempts, Returned(Some(m)))
  {
    var arrivals := [[Message(m)]] + later;
    var f := Flags(false, Some(m));
    assert AttemptArrivals(arrivals, 0) == [Message(m)];
    assert Attempt(ack, answer, [Message(m)], Flags(false, None)) == Next(f);
    assert forall j :: 1 <= j < |arrivals| ==> arrivals[j] == later[j - 1];
    QuietAttempts(ack, answer, arrivals, 1, maxAttempts, f);
    AttemptsStep(ack, answer, arrivals, 0, maxAttempts, Flags(false, None));
  }

  /**
   * An attempt returns only an answer captured in an earlier attempt,
   * non-empty, and only once the acknowledgement has been seen, earlier or
   * in one of this attempt's messages.
   */
  lemma {:induction false} ReturnsEarlierAnswer(ack: string, answer: string, incoming: seq<Arrival>, flags: Flags)
    ensures Attempt(ack, answer, incoming, flags).Return? ==>
      && flags.answer == Some(Attempt(ack, answer, incoming, flags).message)
      && |flags.answer.value| > 0
      && (flags.ack || exists i :: 0 <= i < |incoming| && incoming[i].Message? && Contains(incoming[i].text, ack))
  {
    if |incoming| > 0 {
      match incoming[0]
      case ReadTimeout =>
        ReturnsEarlierAnswer(ack, answer, incoming[1..], flags);
        ShiftWitness(ack, incoming);
      case ReadError =>
      case Message(m) =>
        var acked := flags.ack || Contains(m, ack);
        if !Contains(m, answer) && !(acked && Truthy(flags.answer)) {
          ReturnsEarlierAnswer(ack, answer, incoming[1..], Flags(acked, flags.answer));
          ShiftWitness(ack, incoming);
        }
    }
  }

  /** A message with the acknowledgement in the rest of the reads is one of the reads. */
  lemma ShiftWitness(ack: string, incoming: seq<Arrival>)
    requires |incoming| > 0
    ensures (exists i :: 0 <= i < |incoming[1..]| && incoming[1..][i].Message? && Contains(incoming[1..][i].text, ack)) ==>
      exists i :: 0 <= i < |incoming| && incoming[i].Message? && Contains(incoming[i].text, ack)
  {
    if exists i :: 0 <= i < |incoming[1..]| && incoming[1..][i].Message? && Contains(incoming[1..][i].text, ack) {
      var i :| 0 <= i < |incoming[1..]| && incoming[1..][i].Message? && Contains(incoming[1..][i].text, ack);
      assert incoming[i + 1] == incoming[1..][i];
    }
  }

  /** A later message without the answer ends the call early once both flags are set. */
  lemma EarlyReturn(ack: string, answer: string, m: string, other: string, maxAttempts: nat)
    requires Contains(m, answer) && |m| > 0 && Contains(other, ack) && !Contains(other, answer) && maxAttempts >= 2
    ensures WaitSpec(ack, answer, [[Message(m)], [Message(other)]], maxAttempts) == (2, Returned(Some(m)))
  {
    var arrivals := [[Message(m)], [Message(other)]];
    var f := Flags(Contains(m, ack), Some(m));
    assert Attempt(ack, answer, [Message(m)], Flags(false, None)) == Next(f);
    assert Attempt(ack, answer, [Message(other)], f) == Return(m);
    AttemptsStep(ack, answer, arrivals, 1, maxAttempts, f);
    AttemptsStep(ack, answer, arrivals, 0, maxAttempts, Flags(false, None));
  }

  /**
   * A read that raises ends the loop at once, flags or no flags: the
   * command has gone out once and the error escapes to the caller. This is
   * every call's fate when the connection has no `receive` at all, as
   * NikobusConnect of nikobusconnect/nkbconnect.py has not.
   */
  lemma ReadErrorEndsWait(ack: string, answer: string, rest: seq<Arrival>, later: seq<seq<Arrival>>, maxAttempts: nat)
    requires maxAttempts >= 1
    ensures WaitSpec(ack, answer, [[ReadError] + rest] + later, maxAttempts) == (1, Raised)
  {
    var arrivals := [[ReadError] + rest] + later;
    assert AttemptArrivals(arrivals, 0) == [ReadError] + rest;
    AttemptsStep(ack, answer, arrivals, 0, maxAttempts, Flags(false, None));
  }

  // ---------------------------------------------------------------------------
  // The handler object
  // ---------------------------------------------------------------------------

  /** The function code get_output_state asks with: 0x12 for group 1, 0x17 for any other. */
  function StateCode(group: int): (code: nat)
    ensures code == 0x12 || code == 0x17
    ensures code == 0x12 <==> group == 1
  {
    if group == 1 then 0x12 else 0x17
  }

  /**
   * get_output_state sends its request at most `maxAttempts` times and
   * returns None or a message holding the "$1C" answer for the address.
   */
  lemma OutputStateReplies(address: string, group: int, arrivals: seq<seq<Arrival>>, maxAttempts: nat)
    requires IsAddress(address)
    ensures var signals := PrepareSignals(MakePcLinkCommandAsWritten(StateCode(group), address, []), address);
      var spec := WaitSpec(signals.0, signals.1, arrivals, maxAttempts);
      && signals.1[..3] == "$1C"
      && spec.0 <= maxAttempts
      && (spec.1.Returned? && spec.1.answer.Some? ==> Contains(spec.1.answer.value, signals.1))
  {
    var signals := PrepareSignals(MakePcLinkCommandAsWritten(StateCode(group), address, []), address);
    OutputStateRequestAnswer(group, address);
    WaitBounded(signals.0, signals.1, arrivals, maxAttempts);
  }

  /** The function code set_output_state uses: 0x15 for group 1, 0x16 for any other. */
  function SetCode(channel: int): (code: nat)
    ensures code == 0x15 || code == 0x16
    ensures code == 0x15 <==> CalculateGroupNumber(channel) == 1
  {
    if CalculateGroupNumber(channel) == 1 then 0x15 else 0x16
  }

  /**
   * The two set-output paths of the repository disagree on the function
   * code for every channel: command.py sends 0x12 / 0x15 where this file
   * sends 0x15 / 0x16.
   */
  lemma SetCodesDisagree(channel: int)
    ensures Command.SetCode(channel) != SetCode(channel)
    ensures 1 <= channel <= 6 ==> Command.SetCode(channel) == 0x12 && SetCode(channel) == 0x15
    ensures 7 <= channel <= 12 ==> Command.SetCode(channel) == 0x15 && SetCode(channel) == 0x16
  {
  }

  class NikobusCommandHandler {
    const connection: Connection
    /** `_command_queue` */
    const commandQueue: Fifo

    constructor(connection: Connection)
      ensures this.connection == connection && fresh(commandQueue) && commandQueue.items == []
    {
      this.connection := connection;
      commandQueue := new Fifo();
    }

    /** `_send_command`: one send; a send error is logged and swallowed. */
    method SendCommand(command: string)
      modifies connection
      ensures connection.sent == old(connection.sent) + [command]
    {
      var _ := connection.Send(command);
    }

    /** `_queue_command` */
    method QueueCommand(command: string)
      modifies commandQueue
      ensures commandQueue.items == old(commandQueue.items) + [command]
    {
      commandQueue.Put(command);
    }

    /**
     * `_process_commands` while running, until the queue is drained: every
     * queued command is sent, in the order it was queued, whichever sends
     * fail.
     */
    method ProcessCommands()
      modifies commandQueue, connection
      ensures commandQueue.items == []
      ensures connection.sent == old(connection.sent) + old(commandQueue.items)
    {
      ghost var queued := commandQueue.items;
      while commandQueue.items != []
        invariant queued == old(commandQueue.items)
        invariant connection.sent + commandQueue.items == old(connection.sent) + queued
        decreases |commandQueue.items|
      {
        var c := commandQueue.Get();
        SendCommand(c.value);
      }
      assert connection.sent + [] == connection.sent;
    }

    /**
     * `set_output_state`: queue the set command for the channel's group. A
     * value outside 0..255 raises before anything is queued.
     */
    method SetOutputState(address: string, channel: int, value: int) returns (ok: bool)
      requires IsAddress(address)
      modifies commandQueue
      ensures ok <==> 0 <= value < 256
      ensures ok ==> commandQueue.items == old(commandQueue.items) + [MakePcLinkCommandAsWritten(SetCode(channel), address, CommandValues(channel, value))]
      ensures !ok ==> commandQueue.items == old(commandQueue.items)
    {
      var group := CalculateGroupNumber(channel);
      var code := if group == 1 then 0x15 else 0x16;
      var values := PrepareCommandValues(channel, value);
      if values == None {
        return false;
      }
      QueueCommand(MakePcLinkCommandAsWritten(code, address, values.value));
      ok := true;
    }

    /**
     * `_wait_for_signals`: up to `maxAttempts` sends, each followed by the
     * incoming of that attempt, with the flags kept from one attempt to the
     * next.
     */
    method WaitForSignals(command: string, ack: string, answer: string, maxAttempts: nat, arrivals: seq<seq<Arrival>>)
      returns (reply: Reply)
      modifies connection
      ensures reply == WaitSpec(ack, answer, arrivals, maxAttempts).1
      ensures connection.sent == old(connection.sent) + Repeat(command, WaitSpec(ack, answer, arrivals, maxAttempts).0)
    {
      var ackReceived := false;
      var answerReceived: Option<string> := None;
      var attempt := 0;
      while attempt < maxAttempts
        invariant attempt <= maxAttempts
        invariant WaitSpec(ack, answer, arrivals, maxAttempts).1 == Attempts(ack, answer, arrivals, attempt, maxAttempts, Flags(ackReceived, answerReceived)).1
        invariant WaitSpec(ack, answer, arrivals, maxAttempts).0 == Attempts(ack, answer, arrivals, attempt, maxAttempts, Flags(ackReceived, answerReceived)).0 + attempt
        invariant connection.sent == old(connection.sent) + Repeat(command, attempt)
        decreases maxAttempts - attempt
      {
        SendCommand(command);
        assert Repeat(command, attempt + 1) == Repeat(command, attempt) + [command];
        var start := Flags(ackReceived, answerReceived);
        AttemptsStep(ack, answer, arrivals, attempt, maxAttempts, start);
        var end := ReadAttempt(ack, answer, AttemptArrivals(arrivals, attempt), start);
        if end.Raise? {
          return Raised;
        }
        if end.Return? {
          return Returned(Some(end.message));
        }
        ackReceived, answerReceived := end.flags.ack, end.flags.answer;
        attempt := attempt + 1;
      }
      reply := Returned(answerReceived);
    }

    /** `send_command_get_answer`: derive the two signatures, then run the retry loop. */
    method SendCommandGetAnswer(command: string, address: string, maxAttempts: nat, arrivals: seq<seq<Arrival>>)
      returns (reply: Reply)
      modifies connection
      ensures var signals := PrepareSignals(command, address);
        && reply == WaitSpec(signals.0, signals.1, arrivals, maxAttempts).1
        && connection.sent == old(connection.sent) + Repeat(command, WaitSpec(signals.0, signals.1, arrivals, maxAttempts).0)
    {
      var signals := PrepareSignals(command, address);
      reply := WaitForSignals(command, signals.0, signals.1, maxAttempts, arrivals);
    }

    /**
     * `get_output_state`: ask the module for the outputs of a group and
     * return the answer, or None when none came or a read failed.
     */
    method GetOutputState(address: string, group: int, maxAttempts: nat, arrivals: seq<seq<Arrival>>)
      returns (state: Option<string>)
      requires IsAddress(address)
      modifies connection
      ensures var command := MakePcLinkCommandAsWritten(StateCode(group), address, []);
        var signals := PrepareSignals(command, address);
        var spec := WaitSpec(signals.0, signals.1, arrivals, maxAttempts);
        && connection.sent == old(connection.sent) + Repeat(command, spec.0)
        && state == (if spec.1.Raised? then None else spec.1.answer)
    {
      var command := MakePcLinkCommandAsWritten(StateCode(group), address, []);
      var reply := SendCommandGetAnswer(command, address, maxAttempts, arrivals);
      state := if reply.Raised? then None else reply.answer;
    }
  }
}
