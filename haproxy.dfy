/**
 * `HAProxy` (ha_kickoff.py:38-73): the configuration held as a list of
 * lines, the scan that finds the server declarations in it and the pass that
 * rewrites the lines of the entries this run has switched.
 */
module HAProxyConfig {
  import opened Wrappers
  import opened Text
  import opened Patterns
  import opened AppServers

  // ---------------------------------------------------------------------------
  // The scan (`parse_config`, lines 45-54)
  // ---------------------------------------------------------------------------

  /** The entry built from a candidate line, or None when no `ip:port` is on it. */
  function ParseLine(line: string): Option<Entry> {
    match Search(line)
    case None => None
    case Some(m) => Some(Entry(IpOf(line, m), PortOf(line, m), IsEnabledLine(line), false))
  }

  /**
   * A line gives no entry exactly when it holds no `ip:port`; an entry it
   * gives is clean, enabled exactly when the stripped line does not start
   * with '#', and has a whitespace-free address and an all-digit port.
   */
  lemma ParseLineSpec(line: string)
    ensures ParseLine(line).None? <==> forall i, j :: !AddressAt(line, i, j)
    ensures ParseLine(line).Some? ==> var e := ParseLine(line).value;
      !e.switched && (e.isEnable <==> IsEnabledLine(line)) &&
      e.ip != [] && (forall k :: 0 <= k < |e.ip| ==> !IsSpace(e.ip[k])) &&
      e.port != [] && (forall k :: 0 <= k < |e.port| ==> IsDigit(e.port[k]))
  {
    if Search(line).Some? {
      var m := Search(line).value;
      assert forall k :: 0 <= k < |IpOf(line, m)| ==> IpOf(line, m)[k] == line[m.start + k];
      assert forall k :: 0 <= k < |PortOf(line, m)| ==> PortOf(line, m)[k] == line[m.colon + 1 + k];
    }
  }

  /** What the scan appended, and the index of the line it stopped at, if it stopped. */
  datatype ScanOutcome = ScanOutcome(entries: seq<Entry>, failedAt: Option<nat>)

  /**
   * The scan over `lines`, one line after the other. `m.group(1)` on a
   * candidate line without a match raises, so the scan ends there, keeping
   * what it appended before.
   */
  function Scan(lines: seq<string>): ScanOutcome
    decreases |lines|
  {
    if lines == [] then ScanOutcome([], None)
    else
      var n := |lines| - 1;
      var prev := Scan(lines[..n]);
      if prev.failedAt.Some? || !IsCandidate(lines[n]) then prev
      else match ParseLine(lines[n])
        case None => ScanOutcome(prev.entries, Some(n))
        case Some(e) => ScanOutcome(prev.entries + [e], None)
  }

  /** The candidate lines, in file order. */
  function Candidates(lines: seq<string>): seq<string>
    decreases |lines|
  {
    if lines == [] then []
    else
      var n := |lines| - 1;
      Candidates(lines[..n]) + (if IsCandidate(lines[n]) then [lines[n]] else [])
  }

  /** The candidate lines of two pieces of a file are those of the first, then those of the second. */
  lemma {:induction false} CandidatesConcat(a: seq<string>, b: seq<string>)
    ensures Candidates(a + b) == Candidates(a) + Candidates(b)
    decreases |b|
  {
    if b == [] {
      assert a + b == a;
    } else {
      var n := |b| - 1;
      assert (a + b)[..|a + b| - 1] == a + b[..n];
      CandidatesConcat(a, b[..n]);
    }
  }

  /** A single line is a candidate line or none. */
  lemma CandidatesOne(line: string)
    ensures Candidates([line]) == if IsCandidate(line) then [line] else []
  {
    assert [line][..0] == [];
  }

  /** What the scan appends for one line: the line's entry when it is a server line that parses. */
  function Appended(line: string): seq<Entry> {
    if IsCandidate(line) && ParseLine(line).Some? then [ParseLine(line).value] else []
  }

  /** One more line: the scan either stops at it or appends what the line yields. */
  lemma ScanNext(lines: seq<string>, i: nat)
    requires i < |lines| && Scan(lines[..i]).failedAt.None?
    ensures Scan(lines[..i + 1]).failedAt ==
      if IsCandidate(lines[i]) && ParseLine(lines[i]).None? then Some(i) else None
    ensures Scan(lines[..i + 1]).entries == Scan(lines[..i]).entries + Appended(lines[i])
  {
    assert lines[..i + 1][..i] == lines[..i];
  }

  /** Once the scan has stopped, later lines change nothing. */
  lemma {:induction false} ScanStaysStopped(lines: seq<string>, i: nat)
    requires i <= |lines|
    requires Scan(lines[..i]).failedAt.Some?
    ensures Scan(lines) == Scan(lines[..i])
    decreases |lines| - i
  {
    if i < |lines| {
      assert lines[..i + 1][..i] == lines[..i];
      ScanStaysStopped(lines, i + 1);
    } else {
      assert lines[..i] == lines;
    }
  }

  /** The scan succeeds exactly when every candidate line holds an `ip:port`. */
  lemma {:induction false} ScanSucceeds(lines: seq<string>)
    ensures Scan(lines).failedAt.None? <==>
            forall k :: 0 <= k < |lines| && IsCandidate(lines[k]) ==> ParseLine(lines[k]).Some?
    decreases |lines|
  {
    if lines != [] {
      var n := |lines| - 1;
      var prev := Scan(lines[..n]);
      ScanSucceeds(lines[..n]);
      assert forall k :: 0 <= k < n ==> lines[..n][k] == lines[k];
      if prev.failedAt.Some? {
        var k :| 0 <= k < n && IsCandidate(lines[..n][k]) && ParseLine(lines[..n][k]).None?;
        assert IsCandidate(lines[k]) && ParseLine(lines[k]).None?;
      }
    }
  }

  /** A successful scan appends one entry per candidate line, in file order, duplicates kept. */
  lemma {:induction false} ScanEntries(lines: seq<string>)
    requires Scan(lines).failedAt.None?
    ensures |Scan(lines).entries| == |Candidates(lines)|
    ensures forall k :: 0 <= k < |Candidates(lines)| ==>
              ParseLine(Candidates(lines)[k]) == Some(Scan(lines).entries[k])
    decreases |lines|
  {
    if lines != [] {
      var n := |lines| - 1;
      ScanEntries(lines[..n]);
    }
  }

  /** Candidate line `i` sits in the candidate list at the index that counts the candidate lines before it. */
  lemma CandidateAt(lines: seq<string>, i: nat)
    requires i < |lines| && IsCandidate(lines[i])
    ensures |Candidates(lines[..i])| < |Candidates(lines)|
    ensures Candidates(lines)[|Candidates(lines[..i])|] == lines[i]
  {
    var rest := [lines[i]] + lines[i + 1..];
    assert lines == lines[..i] + rest;
    CandidatesConcat([lines[i]], lines[i + 1..]);
    CandidatesOne(lines[i]);
    assert Candidates(rest)[0] == lines[i];
    CandidatesConcat(lines[..i], rest);
  }

  /**
   * The entry of candidate line `i` of a completed scan sits at the index
   * that counts the candidate lines before it.
   */
  lemma ScanEntryOf(lines: seq<string>, i: nat)
    requires Scan(lines).failedAt.None? && i < |lines| && IsCandidate(lines[i])
    ensures ParseLine(lines[i]).Some?
    ensures |Candidates(lines[..i])| < |Scan(lines).entries|
    ensures Scan(lines).entries[|Candidates(lines[..i])|] == ParseLine(lines[i]).value
  {
    CandidateAt(lines, i);
    ScanEntries(lines);
  }

  /** A failed scan stopped at the first candidate line without an `ip:port`. */
  lemma {:induction false} ScanFails(lines: seq<string>)
    requires Scan(lines).failedAt.Some?
    ensures Scan(lines).failedAt.value < |lines|
    ensures var i := Scan(lines).failedAt.value;
      IsCandidate(lines[i]) && ParseLine(lines[i]).None? &&
      Scan(lines[..i]).failedAt.None? && Scan(lines).entries == Scan(lines[..i]).entries
    decreases |lines|
  {
    var n := |lines| - 1;
    var prev := Scan(lines[..n]);
    if prev.failedAt.Some? {
      ScanFails(lines[..n]);
      var i := prev.failedAt.value;
      assert lines[..n][..i] == lines[..i];
    } else {
      assert lines[..n] == lines[..Scan(lines).failedAt.value];
    }
  }

  /** Every entry a scan appends comes out of `switch_enable`'s reach: none is dirty. */
  lemma {:induction false} ScanEntriesClean(lines: seq<string>)
    ensures forall k :: 0 <= k < |Scan(lines).entries| ==> !Scan(lines).entries[k].switched
    decreases |lines|
  {
    if lines != [] {
      ScanEntriesClean(lines[..|lines| - 1]);
    }
  }

  // ---------------------------------------------------------------------------
  // The rewrite (`refresh_config`, lines 56-62)
  // ---------------------------------------------------------------------------

  /** `'%s:%s' % (appserver.ip, appserver.port)`. */
  function PatternOf(e: Entry): string {
    e.ip + ":" + e.port
  }

  /**
   * One line after the inner loop has visited `entries` in order: each dirty
   * entry whose pattern is found on the line as it then reads rewrites it.
   */
  function ApplyEntries(line: string, entries: seq<Entry>): string
    decreases |entries|
  {
    if entries == [] then line
    else
      var n := |entries| - 1;
      var cur := ApplyEntries(line, entries[..n]);
      var e := entries[n];
      if e.switched && PatternFound(PatternOf(e), cur) then RewriteLine(cur, e.isEnable) else cur
  }

  /** Every line after the pass. */
  function RefreshLines(lines: seq<string>, entries: seq<Entry>): (r: seq<string>)
    ensures |r| == |lines|
  {
    seq(|lines|, i requires 0 <= i < |lines| => ApplyEntries(lines[i], entries))
  }

  /** No dirty entry's pattern is found on the line. */
  predicate Unmatched(line: string, entries: seq<Entry>) {
    forall k :: 0 <= k < |entries| && entries[k].switched ==> !PatternFound(PatternOf(entries[k]), line)
  }

  /** A line no dirty entry matches comes out of the inner loop unchanged. */
  lemma {:induction false} ApplyUnmatched(line: string, entries: seq<Entry>)
    requires Unmatched(line, entries)
    ensures ApplyEntries(line, entries) == line
    decreases |entries|
  {
    if entries != [] {
      var n := |entries| - 1;
      assert Unmatched(line, entries[..n]) by {
        forall k | 0 <= k < n && entries[..n][k].switched
          ensures !PatternFound(PatternOf(entries[..n][k]), line)
        {
          assert entries[..n][k] == entries[k];
        }
      }
      ApplyUnmatched(line, entries[..n]);
    }
  }

  /** The pass keeps the number of lines and leaves every line no dirty entry matches as it was. */
  lemma RefreshKeepsUnmatched(lines: seq<string>, entries: seq<Entry>, i: nat)
    requires i < |lines| && Unmatched(lines[i], entries)
    ensures |RefreshLines(lines, entries)| == |lines|
    ensures RefreshLines(lines, entries)[i] == lines[i]
  {
    ApplyUnmatched(lines[i], entries);
  }

  /** With no dirty entry the pass is the identity. */
  lemma RefreshNothingDirty(lines: seq<string>, entries: seq<Entry>)
    requires forall k :: 0 <= k < |entries| ==> !entries[k].switched
    ensures RefreshLines(lines, entries) == lines
  {
    forall i | 0 <= i < |lines| ensures RefreshLines(lines, entries)[i] == lines[i] {
      ApplyUnmatched(lines[i], entries);
    }
  }

  /**
   * No dirty entry other than the one at `d` is found on the line, either as
   * it reads or as the rewrite to `isEnable` leaves it.
   */
  predicate NoOtherMatch(line: string, entries: seq<Entry>, d: nat, isEnable: bool) {
    forall k :: 0 <= k < |entries| && k != d && entries[k].switched ==>
      !PatternFound(PatternOf(entries[k]), line) &&
      !PatternFound(PatternOf(entries[k]), RewriteLine(line, isEnable))
  }

  /**
   * A line that the dirty entry at `d` matches, and that no other dirty
   * entry matches before or after the rewrite, is rewritten once, by that
   * entry's rule, whatever other entries are dirty.
   */
  lemma {:induction false} ApplyOneDirty(line: string, entries: seq<Entry>, d: nat)
    requires d < |entries| && entries[d].switched && PatternFound(PatternOf(entries[d]), line)
    requires NoOtherMatch(line, entries, d, entries[d].isEnable)
    ensures ApplyEntries(line, entries) == RewriteLine(line, entries[d].isEnable)
    decreases |entries|
  {
    var n := |entries| - 1;
    var prefix := entries[..n];
    if d < n {
      assert prefix[d] == entries[d];
      assert NoOtherMatch(line, prefix, d, entries[d].isEnable) by {
        forall k | 0 <= k < n && k != d && prefix[k].switched
          ensures !PatternFound(PatternOf(prefix[k]), line) &&
                  !PatternFound(PatternOf(prefix[k]), RewriteLine(line, entries[d].isEnable))
        {
          assert prefix[k] == entries[k];
        }
      }
      ApplyOneDirty(line, prefix, d);
      assert !entries[n].switched || !PatternFound(PatternOf(entries[n]), RewriteLine(line, entries[d].isEnable));
    } else {
      assert Unmatched(line, prefix) by {
        forall k | 0 <= k < n && prefix[k].switched
          ensures !PatternFound(PatternOf(prefix[k]), line)
        {
          assert prefix[k] == entries[k];
        }
      }
      ApplyUnmatched(line, prefix);
    }
  }

  /** `n` comment markers. */
  function Hashes(n: nat): (r: string)
    ensures |r| == n && forall k :: 0 <= k < n ==> r[k] == '#'
  {
    if n == 0 then [] else "#" + Hashes(n - 1)
  }

  /** The number of dirty entries. */
  function DirtyCount(entries: seq<Entry>): nat
    decreases |entries|
  {
    if entries == [] then 0
    else DirtyCount(entries[..|entries| - 1]) + (if entries[|entries| - 1].switched then 1 else 0)
  }

  /** Markers in front of a line keep every match on it. */
  lemma {:induction false} FoundAfterHashes(pattern: string, line: string, n: nat)
    requires PatternFound(pattern, line)
    ensures PatternFound(pattern, Hashes(n) + line)
  {
    if n > 0 {
      FoundAfterHashes(pattern, line, n - 1);
      FoundAfterPrefix(pattern, Hashes(n - 1) + line, '#');
      assert [ '#' ] + (Hashes(n - 1) + line) == Hashes(n) + line;
    } else {
      assert Hashes(0) + line == line;
    }
  }

  /**
   * The rewrites accumulate: when every dirty entry is disabled and matches
   * the line, each of them puts one more '#' in front of it.
   */
  lemma {:induction false} ApplyDisablesAccumulate(line: string, entries: seq<Entry>)
    requires forall k :: 0 <= k < |entries| && entries[k].switched ==>
               !entries[k].isEnable && PatternFound(PatternOf(entries[k]), line)
    ensures ApplyEntries(line, entries) == Hashes(DirtyCount(entries)) + line
    decreases |entries|
  {
    if entries == [] {
      assert Hashes(0) + line == line;
    } else {
      var n := |entries| - 1;
      ApplyDisablesAccumulate(line, entries[..n]);
      var m := DirtyCount(entries[..n]);
      if entries[n].switched {
        FoundAfterHashes(PatternOf(entries[n]), line, m);
        assert "#" + (Hashes(m) + line) == Hashes(m + 1) + line;
      }
    }
  }

  // ---------------------------------------------------------------------------
  // The object
  // ---------------------------------------------------------------------------

  class HAProxy {
    const configPath: string
    var lines: seq<string>
    var appservers: seq<AppServer>
    var ipList: seq<string>

    /** `ip_list` runs parallel to `appservers`. */
    ghost predicate Valid()
      reads this
    {
      |ipList| == |appservers| &&
      forall k :: 0 <= k < |ipList| ==> ipList[k] == appservers[k].ip
    }

    /** The file's lines are given; reading them is not part of the model. */
    constructor (configPath: string, lines: seq<string>)
      ensures this.configPath == configPath && this.lines == lines
      ensures appservers == [] && ipList == [] && Valid()
    {
      this.configPath := configPath;
      this.lines := lines;
      this.appservers := [];
      this.ipList := [];
    }

    /**
     * The body of the scan loop for one line: append the entry of a server
     * line, or report that the line is a server line without an `ip:port`.
     */
    method ScanLine(line: string) returns (ok: bool)
      requires Valid()
      modifies this`appservers, this`ipList
      ensures Valid()
      ensures ok <==> !(IsCandidate(line) && ParseLine(line).None?)
      ensures Snapshot(appservers) == old(Snapshot(appservers)) + Appended(line)
      ensures |old(appservers)| <= |appservers| && appservers[..|old(appservers)|] == old(appservers)
      ensures forall a :: a in appservers ==> a in old(appservers) || fresh(a)
    {
      ok := true;
      if IsCandidate(line) {
        var m := Search(line);
        if m.None? {
          return false;
        }
        var ip := IpOf(line, m.value);
        var port := PortOf(line, m.value);
        var isEnable := IsEnabledLine(line);
        var appserver := new AppServer(ip, port, isEnable);
        appservers := appservers + [appserver];
        ipList := ipList + [ip];
      }
    }

    /**
     * Appends one fresh entry per candidate line, in file order; stops with
     * the index of a candidate line that holds no `ip:port`.
     */
    method ParseConfig() returns (failedAt: Option<nat>)
      requires Valid()
      modifies this`appservers, this`ipList
      ensures Valid() && lines == old(lines)
      ensures failedAt == Scan(lines).failedAt
      ensures Snapshot(appservers) == old(Snapshot(appservers)) + Scan(lines).entries
      ensures |old(appservers)| <= |appservers| && appservers[..|old(appservers)|] == old(appservers)
      ensures forall a :: a in appservers ==> a in old(appservers) || fresh(a)
    {
      ghost var before := appservers;
      for i := 0 to |lines|
        invariant Valid()
        invariant Scan(lines[..i]).failedAt.None?
        invariant |before| <= |appservers| && appservers[..|before|] == before
        invariant Snapshot(appservers) == old(Snapshot(appservers)) + Scan(lines[..i]).entries
        invariant forall a :: a in appservers ==> a in before || fresh(a)
      {
        ScanNext(lines, i);
        ghost var mid := appservers;
        var ok := ScanLine(lines[i]);
        if !ok {
          ScanStaysStopped(lines, i + 1);
          return Some(i);
        }
      }
      assert lines[..|lines|] == lines;
      return None;
    }

    /** Rewrites, line by line and entry by entry, every line a dirty entry matches. */
    method RefreshConfig()
      modifies this`lines
      ensures lines == RefreshLines(old(lines), Snapshot(appservers))
    {
      ghost var entries := Snapshot(appservers);
      for i := 0 to |lines|
        invariant |lines| == |old(lines)|
        invariant forall k :: 0 <= k < i ==> lines[k] == ApplyEntries(old(lines)[k], entries)
        invariant forall k :: i <= k < |lines| ==> lines[k] == old(lines)[k]
      {
        for j := 0 to |appservers|
          invariant |lines| == |old(lines)|
          invariant lines[i] == ApplyEntries(old(lines)[i], entries[..j])
          invariant forall k :: 0 <= k < i ==> lines[k] == ApplyEntries(old(lines)[k], entries)
          invariant forall k :: i < k < |lines| ==> lines[k] == old(lines)[k]
        {
          assert entries[..j + 1][..j] == entries[..j];
          var appserver := appservers[j];
          if appserver.enableSwitched {
            var serverPattern := appserver.ip + ":" + appserver.port;
            if PatternFound(serverPattern, lines[i]) {
              lines := lines[i := RewriteLine(lines[i], appserver.isEnable)];
            }
          }
        }
        assert entries[..|appservers|] == entries;
      }
    }
  }
}
