/**
 * The four regular expressions of ha_kickoff.py, each written out as the
 * string predicate or function it amounts to, and the one-line rewrite that
 * `refresh_config` applies.
 */
module Patterns {
  import opened Wrappers
  import opened Text

  // ---------------------------------------------------------------------------
  // Server declaration lines (`parse_config`, line 47 and line 51)
  // ---------------------------------------------------------------------------

  /** `re.match('server', t)`: `t` begins with the token. */
  predicate MatchesServer(t: string) {
    StartsWith(t, "server")
  }

  /** `re.match('#\s*server', t)`, as the expression reads: a '#', a whitespace run, then the token. */
  predicate MatchesCommentedServer(t: string) {
    |t| > 0 && t[0] == '#' &&
    exists k :: 1 <= k <= |t| && (forall m :: 1 <= m < k ==> IsSpace(t[m])) && StartsWith(t[k..], "server")
  }

  /** A candidate line: once stripped, it declares a server, commented out or not. */
  predicate IsCandidate(line: string) {
    var t := Strip(line);
    MatchesServer(t) || MatchesCommentedServer(t)
  }

  /** `False if re.match('#', line.strip()) else True`. */
  predicate IsEnabledLine(line: string) {
    !StartsWith(Strip(line), "#")
  }

  /**
   * The whitespace run after the '#' is the whole run: the expression matches
   * exactly when skipping all whitespace after the '#' reaches the token.
   */
  lemma CommentedServerByTrim(t: string)
    ensures MatchesCommentedServer(t) <==> |t| > 0 && t[0] == '#' && MatchesServer(TrimLeft(t[1..]))
  {
    if |t| > 0 && t[0] == '#' {
      var v := t[1..];
      TrimLeftSpec(v);
      var k0 := 1 + LeadingSpaces(v);
      assert TrimLeft(v) == t[k0..];
      assert forall m :: 1 <= m < k0 ==> IsSpace(t[m]) by {
        forall m | 1 <= m < k0 ensures IsSpace(t[m]) {
          assert t[m] == v[m - 1];
        }
      }
      if MatchesCommentedServer(t) {
        var k :| 1 <= k <= |t| && (forall m :: 1 <= m < k ==> IsSpace(t[m])) && StartsWith(t[k..], "server");
        assert t[k] == 's';
        assert k0 == |t| || !IsSpace(t[k0]);
      }
    }
  }

  /** A candidate is enabled exactly when it is an uncommented declaration. */
  lemma CandidateClassified(line: string)
    requires IsCandidate(line)
    ensures IsEnabledLine(line) <==> MatchesServer(Strip(line))
    ensures !IsEnabledLine(line) <==> MatchesCommentedServer(Strip(line))
  {
    var t := Strip(line);
    if MatchesServer(t) {
      assert t[0] == 's';
    }
    if MatchesCommentedServer(t) {
      assert t[0] == '#';
    }
  }

  // ---------------------------------------------------------------------------
  // The address:port of a server line (`re.search(r'(\S+):(\d+)', line)`, line 48)
  // ---------------------------------------------------------------------------

  /** A match of `(\S+):(\d+)` whose first group starts at `i` and whose colon is at `j`. */
  predicate AddressAt(line: string, i: int, j: int) {
    0 <= i < j && j + 1 < |line| &&
    (forall k :: i <= k < j ==> !IsSpace(line[k])) &&
    line[j] == ':' && IsDigit(line[j + 1])
  }

  /** A colon with a digit after it. */
  predicate ColonDigitAt(line: string, j: int) {
    0 <= j && j + 1 < |line| && line[j] == ':' && IsDigit(line[j + 1])
  }

  /** `end` is where the digit run that starts at `from` stops. */
  predicate DigitRun(line: string, from: nat, end: nat) {
    from < end <= |line| &&
    (forall k :: from <= k < end ==> IsDigit(line[k])) &&
    (end == |line| || !IsDigit(line[end]))
  }

  /** Positions of a match: group 1 is `line[start..colon]`, group 2 is `line[colon + 1..end]`. */
  datatype Match = Match(start: nat, colon: nat, end: nat)

  /** Where the non-whitespace run that starts at `i` stops. */
  function RunEnd(line: string, i: nat): (e: nat)
    requires i <= |line|
    ensures i <= e <= |line|
    ensures forall k :: i <= k < e ==> !IsSpace(line[k])
    ensures e == |line| || IsSpace(line[e])
    decreases |line| - i
  {
    if i == |line| || IsSpace(line[i]) then i else RunEnd(line, i + 1)
  }

  /** Where the digit run that starts at `i` stops. */
  function DigitsEnd(line: string, i: nat): (e: nat)
    requires i <= |line|
    ensures i <= e <= |line|
    ensures forall k :: i <= k < e ==> IsDigit(line[k])
    ensures e == |line| || !IsDigit(line[e])
    decreases |line| - i
  {
    if i == |line| || !IsDigit(line[i]) then i else DigitsEnd(line, i + 1)
  }

  /**
   * The greedy `\S+` backs off from the end of its run one character at a
   * time, so the colon it settles on is the last usable one before `hi`.
   */
  function LastColon(line: string, i: nat, hi: nat): (r: Option<nat>)
    requires i < hi <= |line|
    ensures r.Some? ==> i < r.value < hi && ColonDigitAt(line, r.value)
    ensures forall j :: i < j < hi && ColonDigitAt(line, j) ==> r.Some? && j <= r.value
    decreases hi
  {
    if hi == i + 1 then None
    else if ColonDigitAt(line, hi - 1) then Some(hi - 1)
    else LastColon(line, i, hi - 1)
  }

  /** A match starting at `i` keeps its first group inside the run that starts at `i`. */
  lemma AddressInRun(line: string, i: nat, j: int)
    requires i < |line|
    ensures AddressAt(line, i, j) <==> !IsSpace(line[i]) && i < j < RunEnd(line, i) && ColonDigitAt(line, j)
  {
  }

  /** The leftmost match at or after `p`, with the regex engine's greedy choice of colon. */
  function SearchFrom(line: string, p: nat): (r: Option<Match>)
    requires p <= |line|
    ensures r.None? ==> forall i, j :: p <= i ==> !AddressAt(line, i, j)
    ensures r.Some? ==> p <= r.value.start && AddressAt(line, r.value.start, r.value.colon)
    ensures r.Some? ==> forall i, j :: p <= i < r.value.start ==> !AddressAt(line, i, j)
    ensures r.Some? ==> forall j :: r.value.colon < j ==> !AddressAt(line, r.value.start, j)
    ensures r.Some? ==> DigitRun(line, r.value.colon + 1, r.value.end)
    decreases |line| - p
  {
    if p == |line| then None
    else if IsSpace(line[p]) then
      assert forall j :: !AddressAt(line, p, j);
      SearchFrom(line, p + 1)
    else
      var e := RunEnd(line, p);
      assert forall j :: AddressAt(line, p, j) <==> p < j < e && ColonDigitAt(line, j) by {
        forall j ensures AddressAt(line, p, j) <==> p < j < e && ColonDigitAt(line, j) {
          AddressInRun(line, p, j);
        }
      }
      match LastColon(line, p, e)
      case Some(j) => Some(Match(p, j, DigitsEnd(line, j + 1)))
      case None => SearchFrom(line, p + 1)
  }

  /**
   * `re.search(r'(\S+):(\d+)', line)`: None when the line holds no match;
   * otherwise the leftmost match, its colon the last one the greedy first
   * group can reach, its port the whole digit run after that colon.
   */
  function Search(line: string): (r: Option<Match>)
    ensures r.None? <==> forall i, j :: !AddressAt(line, i, j)
    ensures r.Some? ==> AddressAt(line, r.value.start, r.value.colon)
    ensures r.Some? ==> forall i, j :: i < r.value.start ==> !AddressAt(line, i, j)
    ensures r.Some? ==> forall j :: r.value.colon < j ==> !AddressAt(line, r.value.start, j)
    ensures r.Some? ==> DigitRun(line, r.value.colon + 1, r.value.end)
  {
    SearchFrom(line, 0)
  }

  /** Group 1 of a match: the address. */
  function IpOf(line: string, m: Match): string
    requires m.start <= m.colon <= |line|
  {
    line[m.start..m.colon]
  }

  /** Group 2 of a match: the port. */
  function PortOf(line: string, m: Match): string
    requires m.colon < m.end <= |line|
  {
    line[m.colon + 1..m.end]
  }

  // ---------------------------------------------------------------------------
  // Finding an entry's `ip:port` on a line (`re.search(server_pattern, l)`, line 61)
  // ---------------------------------------------------------------------------

  /** One pattern character against one line character: '.' is any character but a newline. */
  predicate CharMatches(p: char, c: char) {
    if p == '.' then c != '\n' else p == c
  }

  /** `pattern` matches the line at offset `k`. */
  predicate MatchesAt(pattern: string, line: string, k: int) {
    0 <= k && k + |pattern| <= |line| &&
    forall m :: 0 <= m < |pattern| ==> CharMatches(pattern[m], line[k + m])
  }

  /** `re.search(pattern, line)` is not None, for a pattern whose only metacharacter is '.'. */
  predicate PatternFound(pattern: string, line: string) {
    exists k :: 0 <= k <= |line| - |pattern| && MatchesAt(pattern, line, k)
  }

  /** A line that holds the pattern literally matches it. */
  lemma FoundWhenContained(a: string, pattern: string, b: string)
    ensures PatternFound(pattern, a + pattern + b)
  {
    var line := a + pattern + b;
    assert forall m :: 0 <= m < |pattern| ==> line[|a| + m] == pattern[m];
    assert MatchesAt(pattern, line, |a|);
  }

  /** Putting a character in front of a line keeps every match (one place further on). */
  lemma FoundAfterPrefix(pattern: string, line: string, c: char)
    requires PatternFound(pattern, line)
    ensures PatternFound(pattern, [c] + line)
  {
    var k :| 0 <= k <= |line| - |pattern| && MatchesAt(pattern, line, k);
    forall m | 0 <= m < |pattern| ensures CharMatches(pattern[m], ([c] + line)[k + 1 + m]) {
      assert ([c] + line)[k + 1 + m] == line[k + m];
    }
    assert MatchesAt(pattern, [c] + line, k + 1);
  }

  /** The search is unanchored: the pattern of port 80 is found in a line that names port 8080. */
  lemma PortPrefixFound(ip: string, a: string, b: string)
    ensures PatternFound(ip + ":80", a + ip + ":8080" + b)
  {
    assert a + ip + ":8080" + b == a + (ip + ":80") + ("80" + b);
    FoundWhenContained(a, ip + ":80", "80" + b);
  }

  /** '.' in an address is a wildcard: the pattern of 10.0.0.1:80 is found in "10-0-0-1:80". */
  lemma DotIsWildcard()
    ensures PatternFound("10.0.0.1:80", "10-0-0-1:80")
  {
    var p, l := "10.0.0.1:80", "10-0-0-1:80";
    assert forall m :: 0 <= m < |p| ==> CharMatches(p[m], l[m]);
    assert MatchesAt(p, l, 0);
  }

  /** A server line's own `ip:port`, taken from its leftmost address match, is found on it again. */
  lemma OwnAddressFound(line: string, m: Match)
    requires Search(line) == Some(m)
    ensures PatternFound(IpOf(line, m) + ":" + PortOf(line, m), line)
  {
    var ip, port := IpOf(line, m), PortOf(line, m);
    assert line[m.colon] == ':';
    assert line == line[..m.start] + (ip + ":" + port) + line[m.end..];
    FoundWhenContained(line[..m.start], ip + ":" + port, line[m.end..]);
  }

  // ---------------------------------------------------------------------------
  // The rewrite of a matching line (line 62)
  // ---------------------------------------------------------------------------

  /**
   * For an enabled entry, `re.sub('#', '', line)` drops every '#'; for a
   * disabled one, `re.sub('^', '#', line)` puts one '#' in front.
   */
  function RewriteLine(line: string, isEnable: bool): string {
    if isEnable then RemoveAll(line, '#') else "#" + line
  }

  /** Disabling adds exactly one '#', in front, and keeps the rest of the line. */
  lemma DisableAddsOneHash(line: string)
    ensures multiset(RewriteLine(line, false))['#'] == multiset(line)['#'] + 1
    ensures RewriteLine(line, false)[1..] == line
    ensures !IsEnabledLine(RewriteLine(line, false))
  {
    var r := RewriteLine(line, false);
    assert r == ['#'] + line;
    assert r[1..] == line;
    assert !IsSpace(r[0]);
    assert TrimLeft(r) == r;
    StripSpec(r);
    assert StartsWith(Strip(r), "#");
  }

  /** Enabling leaves no '#' at all and every other character where it was. */
  lemma EnableRemovesEveryHash(line: string)
    ensures '#' !in RewriteLine(line, true)
    ensures |RewriteLine(line, true)| == |line| - multiset(line)['#']
    ensures IsEnabledLine(RewriteLine(line, true))
  {
    StripSpec(RewriteLine(line, true));
  }

  /** Enabling twice is enabling once. */
  lemma EnableIdempotent(line: string)
    ensures RewriteLine(RewriteLine(line, true), true) == RewriteLine(line, true)
  {
    RemoveAllIdempotent(line, '#');
  }

  /** Enabling a line that was disabled gives back the line, when it held no '#' of its own. */
  lemma DisableThenEnable(line: string)
    requires '#' !in line
    ensures RewriteLine(RewriteLine(line, false), true) == line
  {
    assert "#" + line == ['#'] + line;
    RemoveAllAbsent(line, '#');
  }
}
