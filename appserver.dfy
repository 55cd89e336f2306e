/** `AppServer` (ha_kickoff.py:27-36): one backend address and its enabled state. */
module AppServers {

  /** The state of one `AppServer` at a moment, as the refresh pass reads it. */
  datatype Entry = Entry(ip: string, port: string, isEnable: bool, switched: bool)

  /** The value-level effect of `switch_enable`. */
  function Switch(e: Entry, isEnable: bool): Entry {
    e.(isEnable := isEnable, switched := true)
  }

  class AppServer {
    /** Nothing assigns the address or the port after construction. */
    const ip: string
    const port: string
    var isEnable: bool
    /** Set once this run has requested a state for the entry. */
    var enableSwitched: bool

    constructor (ip: string, port: string, isEnable: bool := false)
      ensures this.ip == ip && this.port == port && this.isEnable == isEnable
      ensures !enableSwitched
    {
      this.ip := ip;
      this.port := port;
      this.isEnable := isEnable;
      this.enableSwitched := false;
    }

    function Snap(): Entry
      reads this
    {
      Entry(ip, port, isEnable, enableSwitched)
    }

    /** Records the requested state and marks the entry dirty, whether or not the state changes. */
    method SwitchEnable(isEnable: bool)
      modifies this
      ensures this.isEnable == isEnable && enableSwitched
      ensures Snap() == Switch(old(Snap()), isEnable)
    {
      this.isEnable := isEnable;
      this.enableSwitched := true;
    }
  }

  /** The entries of a list of servers, in list order. */
  function Snapshot(servers: seq<AppServer>): seq<Entry>
    reads servers
  {
    seq(|servers|, k requires 0 <= k < |servers| reads servers => servers[k].Snap())
  }
}
