/**
 * What the Nikobus modules share at run time: the PC-Link connection that
 * commands go out through (nikobusconnect/nkbconnect.py) and the asyncio
 * queues of strings that hand frames and commands from one task to another.
 * Both are objects shared by reference, as in the source: the listener's
 * response queue is the very queue the command handler reads.
 */
module Transport {
  import opened PyBuiltins

  /**
   * The connection as the callers of `send` see it. `sent` lists every
   * command handed to `send`, oldest first. Whether a call raises
   * NikobusSendError depends on the transport, which is outside the model:
   * `failing` holds the positions (0 for the first call ever made) of the
   * calls that raise.
   */
  class Connection {
    var sent: seq<string>
    const failing: set<nat>

    constructor(failing: set<nat>)
      ensures this.failing == failing && sent == []
    {
      this.failing := failing;
      sent := [];
    }

    /** `send(command)`: true when it returns, false when it raises NikobusSendError. */
    method Send(command: string) returns (ok: bool)
      modifies this
      ensures sent == old(sent) + [command]
      ensures ok <==> |old(sent)| !in failing
    {
      ok := |sent| !in failing;
      sent := sent + [command];
    }
  }

  /** An unbounded asyncio.Queue of strings: `put` appends, `get` takes the oldest item. */
  class Fifo {
    var items: seq<string>

    constructor()
      ensures items == []
    {
      items := [];
    }

    method Put(x: string)
      modifies this
      ensures items == old(items) + [x]
    {
      items := items + [x];
    }

    /**
     * `get()` under `asyncio.wait_for`: the oldest item, or None when the
     * queue is still empty when the timeout strikes. Items are taken to be
     * queued before the call; arrivals during the wait are not modelled.
     */
    method Get() returns (x: Option<string>)
      modifies this
      ensures old(items) == [] ==> x == None && items == []
      ensures old(items) != [] ==> x == Some(old(items)[0]) && items == old(items)[1..]
    {
      if items == [] {
        x := None;
      } else {
        x := Some(items[0]);
        items := items[1..];
      }
    }
  }
}
