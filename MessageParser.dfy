/**
 * `parse_message` of nikobusconnect/message_parser.py (the copy under
 * nibobusconnect/ is the same file): a message is sorted by its prefix into
 * a dictionary whose 'type' names the kind, with the payload it carries.
 */
module MessageParser {
  import opened PyBuiltins

  const ButtonCommandPrefix := "#S"
  const IgnoreAnswer := "$00"
  const FeedbackRefreshCommand := "#R"
  const FeedbackModuleAnswer := "$1F"
  const CommandProcessed := "#A"
  const ControllerAddress := "$05"
  const ManualRefreshCommands := ["$1F", "$0F"]

  /** The six prefixes, in the order the tests try them. */
  const Prefixes := [ButtonCommandPrefix, IgnoreAnswer, CommandProcessed, ControllerAddress, FeedbackRefreshCommand, FeedbackModuleAnswer]

  /** The value of 'type' that each prefix selects, in the same order. */
  const PrefixTypes := ["button_press", "ignore", "command_acknowledged", "controller_address", "feedback_refresh", "feedback_module_answer"]

  /** Every value the 'type' key can take. */
  const MessageTypes: set<string> := set t | t in PrefixTypes + ["manual_refresh", "unknown"]

  /** `any(refresh in message for refresh in MANUAL_REFRESH_COMMAND)` */
  predicate IsManualRefresh(message: string) {
    Contains(message, ManualRefreshCommands[0]) || Contains(message, ManualRefreshCommands[1])
  }

  /** `parse_message` */
  function ParseMessage(message: string): (parsed: map<string, string>)
    ensures "type" in parsed && parsed["type"] in MessageTypes
  {
    if StartsWith(message, ButtonCommandPrefix) then
      map["type" := "button_press", "data" := Slice(message, 2, 8)]
    else if StartsWith(message, IgnoreAnswer) then
      map["type" := "ignore"]
    else if StartsWith(message, CommandProcessed) then
      map["type" := "command_acknowledged"]
    else if StartsWith(message, ControllerAddress) then
      map["type" := "controller_address", "address" := Slice(message, 3, 7)]
    else if StartsWith(message, FeedbackRefreshCommand) then
      map["type" := "feedback_refresh", "message" := message]
    else if StartsWith(message, FeedbackModuleAnswer) then
      map["type" := "feedback_module_answer", "message" := message]
    else if IsManualRefresh(message) then
      map["type" := "manual_refresh", "message" := message]
    else
      map["type" := "unknown", "message" := message]
  }

  /** Two prefixes that differ at a position they both cover cannot both start a message. */
  lemma Distinguished(message: string, p: string, q: string, k: nat)
    requires k < |p| && k < |q| && p[k] != q[k]
    ensures !(StartsWith(message, p) && StartsWith(message, q))
  {
    assert StartsWith(message, p) ==> message[k] == message[..|p|][k] == p[k];
    assert StartsWith(message, q) ==> message[k] == message[..|q|][k] == q[k];
  }

  /** No message starts with two of the six prefixes, so the order of the prefix tests does not matter. */
  lemma PrefixesExclusive(message: string, i: nat, j: nat)
    requires i < j < |Prefixes|
    ensures !(StartsWith(message, Prefixes[i]) && StartsWith(message, Prefixes[j]))
  {
    var p, q := Prefixes[i], Prefixes[j];
    assert p[0] != q[0] || p[1] != q[1] || (|p| == |q| == 3 && p[2] != q[2]);
    if p[0] != q[0] {
      Distinguished(message, p, q, 0);
    } else if p[1] != q[1] {
      Distinguished(message, p, q, 1);
    } else {
      Distinguished(message, p, q, 2);
    }
  }

  /**
   * The kind a prefix selects is chosen exactly when the message starts
   * with that prefix, whatever else the message holds; in particular a
   * feedback module answer, which also holds "$1F", is never a manual
   * refresh.
   */
  lemma TypeByPrefix(message: string, i: nat)
    requires i < |Prefixes|
    ensures ParseMessage(message)["type"] == PrefixTypes[i] <==> StartsWith(message, Prefixes[i])
  {
    if StartsWith(message, Prefixes[i]) {
      if i > 0 { PrefixesExclusive(message, 0, i); }
      if i > 1 { PrefixesExclusive(message, 1, i); }
      if i > 2 { PrefixesExclusive(message, 2, i); }
      if i > 3 { PrefixesExclusive(message, 3, i); }
      if i > 4 { PrefixesExclusive(message, 4, i); }
    }
  }

  /** With no prefix, a message is a manual refresh exactly when "$1F" or "$0F" occurs somewhere in it; otherwise it is unknown. */
  lemma TypeBySubstring(message: string)
    requires forall i :: 0 <= i < |Prefixes| ==> !StartsWith(message, Prefixes[i])
    ensures ParseMessage(message)["type"] == "manual_refresh" <==>
      exists k :: OccursAt(message, "$1F", k) || OccursAt(message, "$0F", k)
    ensures ParseMessage(message)["type"] == "unknown" <==>
      forall k :: !OccursAt(message, "$1F", k) && !OccursAt(message, "$0F", k)
  {
    assert !StartsWith(message, Prefixes[0]) && !StartsWith(message, Prefixes[1]) && !StartsWith(message, Prefixes[2]);
    assert !StartsWith(message, Prefixes[3]) && !StartsWith(message, Prefixes[4]) && !StartsWith(message, Prefixes[5]);
    ContainsAt(message, "$1F");
    ContainsAt(message, "$0F");
  }

  /**
   * The keys of the dictionary: a button press carries the six characters
   * after "#S", a controller address the four after "$05", an ignored
   * answer and an acknowledgement nothing more, and every other kind the
   * whole message unchanged.
   */
  lemma Payload(message: string)
    ensures var parsed := ParseMessage(message);
      && (parsed["type"] == "button_press" ==>
            parsed.Keys == {"type", "data"} && parsed["data"] == Slice(message, 2, 8) && |parsed["data"]| <= 6)
      && (parsed["type"] == "controller_address" ==>
            parsed.Keys == {"type", "address"} && parsed["address"] == Slice(message, 3, 7) && |parsed["address"]| <= 4)
      && (parsed["type"] in {"ignore", "command_acknowledged"} ==> parsed.Keys == {"type"})
      && (parsed["type"] in {"feedback_refresh", "feedback_module_answer", "manual_refresh", "unknown"} ==>
            parsed.Keys == {"type", "message"} && parsed["message"] == message)
  {
  }

  /**
   * Every message starting with "$05" is read as a controller address: the
   * (at most four) characters after the prefix. The five-character
   * acknowledgement "$05xx" therefore gives the two-character address "xx".
   */
  lemma AcknowledgementIsControllerAddress(message: string)
    requires StartsWith(message, ControllerAddress)
    ensures ParseMessage(message) == map["type" := "controller_address", "address" := Slice(message, 3, 7)]
    ensures |message| >= 7 ==> ParseMessage(message)["address"] == message[3..7]
    ensures |message| < 7 ==> ParseMessage(message)["address"] == message[3..]
  {
    TypeByPrefix(message, 3);
  }
}
