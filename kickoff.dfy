/**
 * The script's main block (ha_kickoff.py:103-118) without its I/O: scan the
 * configuration, switch the entries the request selects, rewrite their lines.
 */
module Kickoff {
  import opened Wrappers
  import opened Text
  import opened Patterns
  import opened AppServers
  import opened HAProxyConfig

  // ---------------------------------------------------------------------------
  // The request
  // ---------------------------------------------------------------------------

  /**
   * `-e` gives Some(true), `-d` gives Some(false), neither gives None. The
   * source stores the value as it is; the pass that reads it back only asks
   * whether it is true, so None is recorded as false.
   */
  function Truthy(status: Option<bool>): bool {
    status == Some(true)
  }

  /** `appserver.is_enable is not opts.switch_status`: booleans are never None. */
  predicate Differs(isEnable: bool, status: Option<bool>) {
    status != Some(isEnable)
  }

  /**
   * The selection test: without a port, the address is one of the
   * comma-separated `--ip` values (line 107); with one, address and port are
   * those requested (line 111, reading `opts.port` for the undefined `port`).
   */
  predicate Selected(e: Entry, ip: string, port: Option<string>, status: Option<bool>) {
    match port
    case None => e.ip in Split(ip, ',') && Differs(e.isEnable, status)
    case Some(p) => e.ip == ip && e.port == p && Differs(e.isEnable, status)
  }

  /** One entry after the selection loop has visited it. */
  function SelectOne(e: Entry, ip: string, port: Option<string>, status: Option<bool>): Entry {
    if Selected(e, ip, port, status) then Switch(e, Truthy(status)) else e
  }

  /** Every entry after the selection loop. */
  function SelectEntries(entries: seq<Entry>, ip: string, port: Option<string>, status: Option<bool>): (r: seq<Entry>)
    ensures |r| == |entries|
  {
    seq(|entries|, k requires 0 <= k < |entries| => SelectOne(entries[k], ip, port, status))
  }

  /** Visiting an entry a second time changes nothing more. */
  lemma SelectOneIdempotent(e: Entry, ip: string, port: Option<string>, status: Option<bool>)
    ensures SelectOne(SelectOne(e, ip, port, status), ip, port, status) == SelectOne(e, ip, port, status)
  {
    if Selected(e, ip, port, status) {
      var s := SelectOne(e, ip, port, status);
      assert s.ip == e.ip && s.port == e.port && s.switched;
      if status.Some? {
        assert s.isEnable == status.value;
        assert !Selected(s, ip, port, status);
      } else {
        assert SelectOne(s, ip, port, status) == s;
      }
    }
  }

  /**
   * The selection marks an entry dirty when it is selected and keeps the
   * mark it had; a selected entry takes the requested state; address and port
   * never change.
   */
  lemma SelectionEffect(entries: seq<Entry>, ip: string, port: Option<string>, status: Option<bool>, k: nat)
    requires k < |entries|
    ensures var r := SelectEntries(entries, ip, port, status)[k];
      r.ip == entries[k].ip && r.port == entries[k].port &&
      (r.switched <==> entries[k].switched || Selected(entries[k], ip, port, status)) &&
      r.isEnable == if Selected(entries[k], ip, port, status) then Truthy(status) else entries[k].isEnable
  {
  }

  /**
   * On freshly scanned entries, without a port, the dirty ones are exactly
   * those whose address is listed and whose state is not the one requested;
   * an entry already in the requested state stays clean.
   */
  lemma SelectionByAddresses(entries: seq<Entry>, ip: string, status: Option<bool>)
    requires forall k :: 0 <= k < |entries| ==> !entries[k].switched
    ensures forall k :: 0 <= k < |entries| ==>
      (SelectEntries(entries, ip, None, status)[k].switched <==>
       entries[k].ip in Split(ip, ',') && status != Some(entries[k].isEnable))
    ensures forall k :: 0 <= k < |entries| && status == Some(entries[k].isEnable) ==>
      SelectEntries(entries, ip, None, status)[k] == entries[k]
  {
  }

  /** On freshly scanned entries, with a port, only the entries of that address and port can become dirty. */
  lemma SelectionByPort(entries: seq<Entry>, ip: string, port: string, status: Option<bool>)
    requires forall k :: 0 <= k < |entries| ==> !entries[k].switched
    ensures forall k :: 0 <= k < |entries| ==>
      (SelectEntries(entries, ip, Some(port), status)[k].switched <==>
       entries[k].ip == ip && entries[k].port == port && status != Some(entries[k].isEnable))
  {
  }

  /** With neither `-e` nor `-d`, every listed entry is switched, to disabled, whatever its state. */
  lemma NoStatusDisablesEveryListed(entries: seq<Entry>, ip: string, k: nat)
    requires k < |entries| && entries[k].ip in Split(ip, ',')
    ensures SelectEntries(entries, ip, None, None)[k].switched
    ensures !SelectEntries(entries, ip, None, None)[k].isEnable
  {
  }

  // ---------------------------------------------------------------------------
  // The selection loops (lines 105-112)
  // ---------------------------------------------------------------------------

  /** Calls `switch_enable` on every selected entry, each entry in list order. */
  method SelectServers(servers: seq<AppServer>, ip: string, port: Option<string>, status: Option<bool>)
    modifies servers
    ensures Snapshot(servers) == SelectEntries(old(Snapshot(servers)), ip, port, status)
  {
    if port.None? {
      var ips := Split(ip, ',');
      for j := 0 to |servers|
        invariant forall k :: 0 <= k < |servers| ==>
          servers[k].Snap() == if servers[k] in servers[..j]
                               then SelectOne(old(servers[k].Snap()), ip, port, status)
                               else old(servers[k].Snap())
      {
        var appserver := servers[j];
        SelectOneIdempotent(old(appserver.Snap()), ip, port, status);
        if appserver.ip in ips && Differs(appserver.isEnable, status) {
          appserver.SwitchEnable(Truthy(status));
        }
        assert servers[..j + 1] == servers[..j] + [appserver];
      }
    } else {
      for j := 0 to |servers|
        invariant forall k :: 0 <= k < |servers| ==>
          servers[k].Snap() == if servers[k] in servers[..j]
                               then SelectOne(old(servers[k].Snap()), ip, port, status)
                               else old(servers[k].Snap())
      {
        var appserver := servers[j];
        SelectOneIdempotent(old(appserver.Snap()), ip, port, status);
        if appserver.ip == ip && appserver.port == port.value && Differs(appserver.isEnable, status) {
          appserver.SwitchEnable(Truthy(status));
        }
        assert servers[..j + 1] == servers[..j] + [appserver];
      }
    }
    assert servers[..|servers|] == servers;
  }

  /**
   * The port loop as written: its condition names `port`, which nothing
   * defines, so evaluating it raises NameError at the first entry whose
   * address equals `--ip`, before that entry or any other is switched.
   */
  method SelectByPortAsWritten(servers: seq<AppServer>, ip: string) returns (raised: bool)
    ensures raised <==> exists k :: 0 <= k < |servers| && servers[k].ip == ip
  {
    for j := 0 to |servers|
      invariant forall k :: 0 <= k < j ==> servers[k].ip != ip
    {
      if servers[j].ip == ip {
        return true;
      }
    }
    return false;
  }

  /**
   * Enabling 10.0.0.1:8080 on a file that also holds 10.0.0.1:9090: the port
   * loop with `opts.port` switches the 8080 entry alone, where the loop as
   * written raises (the first entry carries the requested address).
   */
  lemma PortSelectionExample()
    ensures var entries := [Entry("10.0.0.1", "8080", false, false), Entry("10.0.0.1", "9090", true, false)];
      entries[0].ip == "10.0.0.1" &&
      SelectEntries(entries, "10.0.0.1", Some("8080"), Some(true)) ==
        [Entry("10.0.0.1", "8080", true, true), Entry("10.0.0.1", "9090", true, false)]
  {
    var entries := [Entry("10.0.0.1", "8080", false, false), Entry("10.0.0.1", "9090", true, false)];
    assert Selected(entries[0], "10.0.0.1", Some("8080"), Some(true));
    assert "9090" != "8080" by { assert "9090"[0] != "8080"[0]; }
    assert !Selected(entries[1], "10.0.0.1", Some("8080"), Some(true));
  }

  // ---------------------------------------------------------------------------
  // The whole run
  // ---------------------------------------------------------------------------

  /** The lines a run prints or saves, or the index of the line its scan stops at. */
  function RunSpec(lines: seq<string>, ip: string, port: Option<string>, status: Option<bool>): Result<seq<string>, nat> {
    var scan := Scan(lines);
    if scan.failedAt.Some? then Failure(scan.failedAt.value)
    else Success(RefreshLines(lines, SelectEntries(scan.entries, ip, port, status)))
  }

  /** Build the configuration, scan it, switch the selected entries, rewrite their lines. */
  method Run(configPath: string, lines: seq<string>, ip: string, port: Option<string>, status: Option<bool>)
    returns (r: Result<seq<string>, nat>)
    ensures r == RunSpec(lines, ip, port, status)
  {
    var haproxy := new HAProxy(configPath, lines);
    assert Snapshot(haproxy.appservers) == [];
    var failedAt := haproxy.ParseConfig();
    if failedAt.Some? {
      return Failure(failedAt.value);
    }
    assert Snapshot(haproxy.appservers) == Scan(lines).entries;
    assert fresh(set a | a in haproxy.appservers);
    SelectServers(haproxy.appservers, ip, port, status);
    assert Snapshot(haproxy.appservers) == SelectEntries(Scan(lines).entries, ip, port, status);
    assert haproxy.lines == lines;
    haproxy.RefreshConfig();
    return Success(haproxy.lines);
  }

  /** A run keeps the number of lines. */
  lemma RunKeepsLineCount(lines: seq<string>, ip: string, port: Option<string>, status: Option<bool>)
    requires RunSpec(lines, ip, port, status).Success?
    ensures |RunSpec(lines, ip, port, status).value| == |lines|
  {
  }

  /** A run that selects nothing gives its lines back unchanged. */
  lemma RunSelectingNothing(lines: seq<string>, ip: string, port: Option<string>, status: Option<bool>)
    requires Scan(lines).failedAt.None?
    requires forall k :: 0 <= k < |Scan(lines).entries| ==> !Selected(Scan(lines).entries[k], ip, port, status)
    ensures RunSpec(lines, ip, port, status) == Success(lines)
  {
    var es := Scan(lines).entries;
    ScanEntriesClean(lines);
    RefreshNothingDirty(lines, SelectEntries(es, ip, port, status));
  }

  /** Reading a file, selecting nothing and saving writes the file back byte for byte. */
  lemma SaveRoundTrip(text: string, ip: string, port: Option<string>, status: Option<bool>)
    requires var lines := SplitLines(text);
      Scan(lines).failedAt.None? &&
      forall k :: 0 <= k < |Scan(lines).entries| ==> !Selected(Scan(lines).entries[k], ip, port, status)
    ensures Concat(RunSpec(SplitLines(text), ip, port, status).value) == text
  {
    RunSelectingNothing(SplitLines(text), ip, port, status);
    ConcatSplitLines(text);
  }

  /** A file of one server line: the line is rewritten by its own entry exactly when that entry is selected. */
  lemma RunOneServerLine(line: string, ip: string, port: Option<string>, status: Option<bool>)
    requires IsCandidate(line) && ParseLine(line).Some?
    ensures RunSpec([line], ip, port, status) ==
      Success([if Selected(ParseLine(line).value, ip, port, status) then RewriteLine(line, Truthy(status)) else line])
  {
    var e := ParseLine(line).value;
    assert [line][..0] == [];
    assert Scan([line]) == ScanOutcome([e], None);
    var m := Search(line).value;
    OwnAddressFound(line, m);
    var s := SelectOne(e, ip, port, status);
    assert SelectEntries([e], ip, port, status) == [s];
    assert PatternOf(s) == PatternOf(e);
    assert PatternFound(PatternOf(s), line);
    assert [s][..0] == [];
    assert s.switched <==> Selected(e, ip, port, status);
    assert ApplyEntries(line, [s]) == if Selected(e, ip, port, status) then RewriteLine(line, Truthy(status)) else line;
    assert RefreshLines([line], [s]) == [ApplyEntries(line, [s])];
  }

  /**
   * Line `i` of any file whose scan completes: it is rewritten by its own
   * entry exactly when that entry is selected, provided no other dirty entry
   * is found on it before or after that rewrite.
   */
  lemma RunLine(lines: seq<string>, i: nat, ip: string, port: Option<string>, status: Option<bool>)
    requires Scan(lines).failedAt.None? && i < |lines| && IsCandidate(lines[i])
    requires NoOtherMatch(lines[i], SelectEntries(Scan(lines).entries, ip, port, status),
                          |Candidates(lines[..i])|, Truthy(status))
    ensures ParseLine(lines[i]).Some? && RunSpec(lines, ip, port, status).Success?
    ensures |RunSpec(lines, ip, port, status).value| == |lines|
    ensures RunSpec(lines, ip, port, status).value[i] ==
      if Selected(ParseLine(lines[i]).value, ip, port, status) then RewriteLine(lines[i], Truthy(status)) else lines[i]
  {
    ScanEntryOf(lines, i);
    var line := lines[i];
    var d := |Candidates(lines[..i])|;
    var scanned := Scan(lines).entries;
    var e := scanned[d];
    var es := SelectEntries(scanned, ip, port, status);
    ScanEntriesClean(lines);
    SelectionEffect(scanned, ip, port, status, d);
    assert RefreshLines(lines, es)[i] == ApplyEntries(line, es);
    if Selected(e, ip, port, status) {
      OwnAddressFound(line, Search(line).value);
      assert PatternOf(es[d]) == PatternOf(e);
      ApplyOneDirty(line, es, d);
    } else {
      assert Unmatched(line, es) by {
        forall k | 0 <= k < |es| && es[k].switched ensures !PatternFound(PatternOf(es[k]), line) {
          assert k != d;
        }
      }
      ApplyUnmatched(line, es);
    }
  }

  /**
   * `-d` on a listed enabled line comments it out once; on a listed disabled
   * line it changes nothing, in any file whose scan completes and where no
   * other switched entry is found on that line.
   */
  lemma RunDisable(lines: seq<string>, i: nat, ip: string)
    requires Scan(lines).failedAt.None? && i < |lines| && IsCandidate(lines[i])
    requires ParseLine(lines[i]).Some? && ParseLine(lines[i]).value.ip in Split(ip, ',')
    requires NoOtherMatch(lines[i], SelectEntries(Scan(lines).entries, ip, None, Some(false)),
                          |Candidates(lines[..i])|, false)
    ensures RunSpec(lines, ip, None, Some(false)).Success?
    ensures |RunSpec(lines, ip, None, Some(false)).value| == |lines|
    ensures RunSpec(lines, ip, None, Some(false)).value[i] == if IsEnabledLine(lines[i]) then "#" + lines[i] else lines[i]
  {
    ParseLineSpec(lines[i]);
    RunLine(lines, i, ip, None, Some(false));
  }

  /**
   * `-e` on a listed disabled line removes every '#' from it; on a listed
   * enabled line it changes nothing, in any file whose scan completes and
   * where no other switched entry is found on that line.
   */
  lemma RunEnable(lines: seq<string>, i: nat, ip: string)
    requires Scan(lines).failedAt.None? && i < |lines| && IsCandidate(lines[i])
    requires ParseLine(lines[i]).Some? && ParseLine(lines[i]).value.ip in Split(ip, ',')
    requires NoOtherMatch(lines[i], SelectEntries(Scan(lines).entries, ip, None, Some(true)),
                          |Candidates(lines[..i])|, true)
    ensures RunSpec(lines, ip, None, Some(true)).Success?
    ensures |RunSpec(lines, ip, None, Some(true)).value| == |lines|
    ensures RunSpec(lines, ip, None, Some(true)).value[i] == if IsEnabledLine(lines[i]) then lines[i] else RemoveAll(lines[i], '#')
  {
    ParseLineSpec(lines[i]);
    RunLine(lines, i, ip, None, Some(true));
  }

  /**
   * Neither `-e` nor `-d`: a listed line is commented out once more even
   * when it already was, which `-d` does not do.
   */
  lemma RunWithoutStatusRecomments(line: string, ip: string)
    requires IsCandidate(line) && ParseLine(line).Some? && ParseLine(line).value.ip in Split(ip, ',')
    requires !IsEnabledLine(line)
    ensures RunSpec([line], ip, None, None) == Success(["#" + line])
    ensures RunSpec([line], ip, None, Some(false)) == Success([line])
  {
    RunOneServerLine(line, ip, None, None);
    RunOneServerLine(line, ip, None, Some(false));
  }

  /** The documented default: neither `-e` nor `-d` means `-d`. */
  function DocumentedStatus(status: Option<bool>): Option<bool> {
    if status.None? then Some(false) else status
  }

  /** The run with the documented default. */
  function RunDocumented(lines: seq<string>, ip: string, port: Option<string>, status: Option<bool>): Result<seq<string>, nat> {
    RunSpec(lines, ip, port, DocumentedStatus(status))
  }

  /** With the documented default, a listed line that is already commented out stays as it is. */
  lemma RunDocumentedKeepsDisabled(line: string, ip: string)
    requires IsCandidate(line) && ParseLine(line).Some? && ParseLine(line).value.ip in Split(ip, ',')
    requires !IsEnabledLine(line)
    ensures RunDocumented([line], ip, None, None) == Success([line])
  {
    RunOneServerLine(line, ip, None, Some(false));
  }
}
