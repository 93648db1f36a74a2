/**
 * The connection manager of nikobusconnect/nkbconnect.py, without its I/O:
 * how a connection string is classified as an IP bridge, a serial port or
 * neither, and the handshake sequence sent once a transport is open.
 * `ipaddress.ip_address` and `int()` are library parsers; they are
 * parameters here (`isIpAddress`, `parseInt`: None where they raise).
 */
module NkbConnect {
  import opened PyBuiltins
  import opened Transport
  import Listener

  /** `_ConnType` */
  datatype ConnType = IP | SERIAL | UNKNOWN

  /** The second half of `_parse_conn_str`'s result: `(host, port)`, the device path, or None. */
  datatype Target = HostPort(host: string, port: int) | Device(path: string) | NoTarget

  const TtyUsbPrefix := "/dev/ttyUSB"
  const TtySPrefix := "/dev/ttyS"
  const ByIdPrefix := "/dev/serial/by-id/"

  predicate IsAsciiDigit(c: char) {
    '0' <= c <= '9'
  }

  /** `prefix\d+` matched against the whole string. */
  predicate DigitsAfter(s: string, prefix: string) {
    StartsWith(s, prefix) && |s| > |prefix| && forall k :: |prefix| <= k < |s| ==> IsAsciiDigit(s[k])
  }

  /**
   * `re.fullmatch(r"^(/dev/tty(USB|S)\d+|/dev/serial/by-id/.+)$", conn)`:
   * `.` takes any character but a newline, and a full match leaves no room
   * for the newline `$` would otherwise allow at the end.
   */
  predicate IsSerialPath(conn: string) {
    || DigitsAfter(conn, TtyUsbPrefix)
    || DigitsAfter(conn, TtySPrefix)
    || (StartsWith(conn, ByIdPrefix) && |conn| > |ByIdPrefix| && forall k :: |ByIdPrefix| <= k < |conn| ==> conn[k] != '\n')
  }

  /**
   * `_parse_conn_str`: split at the first ':' and try host and port; if
   * there is no ':' or either parser raises (the error is suppressed), try
   * the serial pattern; otherwise give up. It never raises.
   */
  function ParseConnStr(conn: string, isIpAddress: string -> bool, parseInt: string -> Option<int>): (r: (ConnType, Target))
    ensures r.0 == IP <==> r.1.HostPort?
    ensures r.0 == SERIAL <==> r.1 == Device(conn)
    ensures r.0 == UNKNOWN <==> r.1 == NoTarget
  {
    var colon := FindFrom(conn, ':', 0);
    if colon != -1 && isIpAddress(conn[..colon]) && parseInt(conn[colon + 1..]).Some? then
      (IP, HostPort(conn[..colon], parseInt(conn[colon + 1..]).value))
    else if IsSerialPath(conn) then
      (SERIAL, Device(conn))
    else
      (UNKNOWN, NoTarget)
  }

  /** A host without ':' that is an IP address, a ':' and a port text that `int` accepts give that host and that port. */
  lemma IpEndpoint(host: string, portText: string, port: int, isIpAddress: string -> bool, parseInt: string -> Option<int>)
    requires forall k :: 0 <= k < |host| ==> host[k] != ':'
    requires isIpAddress(host) && parseInt(portText) == Some(port)
    ensures ParseConnStr(host + ":" + portText, isIpAddress, parseInt) == (IP, HostPort(host, port))
  {
    var conn := host + ":" + portText;
    assert conn[..|host|] == host && conn[|host| + 1..] == portText;
    assert conn[|host|] == ':';
    assert forall k :: 0 <= k < |host| ==> conn[k] == host[k];
    assert FindFrom(conn, ':', 0) == |host|;
  }

  /**
   * An IP result always comes from the text before the first ':' and the
   * text after it; the host never holds a ':', so an IPv6 literal, which
   * always does, is never taken as the host.
   */
  lemma IpSplitsAtFirstColon(conn: string, isIpAddress: string -> bool, parseInt: string -> Option<int>)
    requires ParseConnStr(conn, isIpAddress, parseInt).0 == IP
    ensures var t := ParseConnStr(conn, isIpAddress, parseInt).1;
      && (forall k :: 0 <= k < |t.host| ==> t.host[k] != ':')
      && conn == t.host + ":" + conn[|t.host| + 1..]
      && isIpAddress(t.host) && parseInt(conn[|t.host| + 1..]) == Some(t.port)
  {
    var colon := FindFrom(conn, ':', 0);
    assert conn == conn[..colon] + ":" + conn[colon + 1..];
  }

  /**
   * When the IP reading fails (no ':', a host that is not an address, or a
   * port `int` refuses) the string is judged by the serial pattern alone.
   */
  lemma FailedIpFallsThrough(conn: string, isIpAddress: string -> bool, parseInt: string -> Option<int>)
    requires var colon := FindFrom(conn, ':', 0);
      colon == -1 || !isIpAddress(conn[..colon]) || parseInt(conn[colon + 1..]).None?
    ensures ParseConnStr(conn, isIpAddress, parseInt) == (SERIAL, Device(conn)) <==> IsSerialPath(conn)
    ensures ParseConnStr(conn, isIpAddress, parseInt) == (UNKNOWN, NoTarget) <==> !IsSerialPath(conn)
  {
  }

  /** Every USB serial adapter name, `/dev/ttyUSB` and one or more digits, is a serial connection whatever the parsers say. */
  lemma UsbAdapterIsSerial(digits: string, isIpAddress: string -> bool, parseInt: string -> Option<int>)
    requires |digits| > 0 && forall k :: 0 <= k < |digits| ==> IsAsciiDigit(digits[k])
    ensures ParseConnStr(TtyUsbPrefix + digits, isIpAddress, parseInt) == (SERIAL, Device(TtyUsbPrefix + digits))
  {
    var conn := TtyUsbPrefix + digits;
    assert conn[..|TtyUsbPrefix|] == TtyUsbPrefix;
    assert forall k :: |TtyUsbPrefix| <= k < |conn| ==> conn[k] == digits[k - |TtyUsbPrefix|];
    assert FindFrom(conn, ':', 0) == -1 by {
      assert forall k :: 0 <= k < |TtyUsbPrefix| ==> conn[k] == TtyUsbPrefix[k] != ':';
    }
  }

  /** A bare device directory, with no digits or name after it, is not a connection string. */
  lemma BarePrefixIsUnknown(isIpAddress: string -> bool, parseInt: string -> Option<int>)
    ensures ParseConnStr(TtyUsbPrefix, isIpAddress, parseInt) == (UNKNOWN, NoTarget)
    ensures ParseConnStr(ByIdPrefix, isIpAddress, parseInt) == (UNKNOWN, NoTarget)
  {
    assert FindFrom(TtyUsbPrefix, ':', 0) == -1 by {
      assert forall k :: 0 <= k < |TtyUsbPrefix| ==> TtyUsbPrefix[k] != ':';
    }
    assert FindFrom(ByIdPrefix, ':', 0) == -1 by {
      assert forall k :: 0 <= k < |ByIdPrefix| ==> ByIdPrefix[k] != ':';
    }
    assert !StartsWith(TtyUsbPrefix, TtySPrefix) by {
      assert TtyUsbPrefix[8] != TtySPrefix[8];
    }
    assert !StartsWith(ByIdPrefix, TtySPrefix) && !StartsWith(ByIdPrefix, TtyUsbPrefix) by {
      assert ByIdPrefix[5] != TtySPrefix[5] && ByIdPrefix[5] != TtyUsbPrefix[5];
    }
  }

  /** `COMMANDS_HANDSHAKE` of nikobusconnect/const.py. */
  const CommandsHandshake: seq<string> := ["++++", "ATH0", "ATZ", "$10110000B8CF9D", "#L0", "#E0", "#L0", "#E1"]

  /** `EXPECTED_HANDSHAKE_RESPONSE`: defined, and never read by the handshake. */
  const ExpectedHandshakeResponse := "$0511"

  /** The handshake's one PC-Link frame passes the listener's own check. */
  lemma HandshakeFrameIsValid()
    ensures Listener.ValidateCrc(CommandsHandshake[3])
  {
    Listener.HandshakeFrameValid(CommandsHandshake[3]);
  }

  /** Send call number `start + j` returns instead of raising. */
  predicate SendReturns(failing: set<nat>, start: nat, j: nat) {
    start + j !in failing
  }

  /**
   * The position, counted from `i`, of the first handshake command whose
   * send fails when the first of them is send call number `start`; the
   * number of commands when none does.
   */
  function FirstFailure(failing: set<nat>, start: nat, i: nat): (k: nat)
    requires i <= |CommandsHandshake|
    ensures i <= k <= |CommandsHandshake|
    ensures forall j: nat :: i <= j < k ==> SendReturns(failing, start, j)
    ensures k < |CommandsHandshake| ==> !SendReturns(failing, start, k)
    decreases |CommandsHandshake| - i
  {
    if i == |CommandsHandshake| then i
    else if start + i in failing then i
    else FirstFailure(failing, start, i + 1)
  }

  /** The first failure is the one position with only returning sends before it. */
  lemma {:induction false} FirstFailureIs(failing: set<nat>, start: nat, i: nat, k: nat)
    requires i <= k <= |CommandsHandshake|
    requires forall j: nat :: i <= j < k ==> SendReturns(failing, start, j)
    requires k < |CommandsHandshake| ==> !SendReturns(failing, start, k)
    ensures FirstFailure(failing, start, i) == k
    decreases k - i
  {
    if i < k {
      FirstFailureIs(failing, start, i + 1, k);
    }
  }

  class NikobusConnect {
    const connStr: string
    const connType: ConnType
    const target: Target
    /** The open transport `send` writes to. */
    const link: Connection

    /** `__init__`: classify the connection string; nothing is opened yet. */
    constructor(connStr: string, isIpAddress: string -> bool, parseInt: string -> Option<int>, link: Connection)
      ensures this.connStr == connStr && this.link == link
      ensures (connType, target) == ParseConnStr(connStr, isIpAddress, parseInt)
    {
      this.connStr := connStr;
      var parsed := ParseConnStr(connStr, isIpAddress, parseInt);
      connType := parsed.0;
      target := parsed.1;
      this.link := link;
    }

    /**
     * `_handshake`: send the handshake commands in order and stop at the
     * first one whose send raises (false); true when every send returns.
     * Nothing is read back.
     */
    method Handshake() returns (ok: bool)
      modifies link
      ensures var k := FirstFailure(link.failing, |old(link.sent)|, 0);
        && link.sent == old(link.sent) + CommandsHandshake[..if k < |CommandsHandshake| then k + 1 else k]
        && (ok <==> k == |CommandsHandshake|)
    {
      ghost var start := |link.sent|;
      var i := 0;
      while i < |CommandsHandshake|
        invariant 0 <= i <= |CommandsHandshake|
        invariant link.sent == old(link.sent) + CommandsHandshake[..i]
        invariant forall j: nat :: j < i ==> SendReturns(link.failing, start, j)
      {
        assert |link.sent| == start + i;
        var sent := link.Send(CommandsHandshake[i]);
        assert CommandsHandshake[..i] + [CommandsHandshake[i]] == CommandsHandshake[..i + 1];
        if !sent {
          FirstFailureIs(link.failing, start, 0, i);
          return false;
        }
        i := i + 1;
      }
      FirstFailureIs(link.failing, start, 0, i);
      ok := true;
    }
  }

  /** The handshake fails exactly when one of its eight sends raises. */
  lemma HandshakeSucceedsIffNoSendFails(failing: set<nat>, start: nat)
    ensures FirstFailure(failing, start, 0) == |CommandsHandshake| <==>
      forall j: nat :: j < |CommandsHandshake| ==> SendReturns(failing, start, j)
  {
  }
}
