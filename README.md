# HAProxy kickoff, modelled in Dafny

`ha_kickoff.py` enables and disables backend servers in an HAProxy
configuration by commenting their `server` lines in or out. It reads the
file into a list of lines, scans the lines for server declarations (one
`AppServer` per declaration: address, port, enabled flag, and a flag that
records whether this run switched it), switches the entries that the
`--ip`/`--port`/`-e`/`-d` request selects, and rewrites the lines of the
switched entries: an enabled entry loses every `#` on its line, a disabled
one gets a `#` in front. The result is printed or written back.

This project models that pipeline on an in-memory list of lines:

- `wrappers.dfy` — `Option` and `Result`.
- `text.dfy` (module `Text`) — the Python string operations the script relies
  on: `strip()`, `split(',')`, deleting every occurrence of a character,
  `readlines()` and `writelines()`.
- `patterns.dfy` (module `Patterns`) — the four regular expressions, each
  written as a string predicate or function: the server-line test
  `server` / `#\s*server` on the stripped line, the address search
  `(\S+):(\d+)` with the regex engine's leftmost and greedy choice, the
  comment test `#`, the unanchored search for an entry's `ip:port`, and the
  one-line rewrite.
- `appserver.dfy` (module `AppServers`) — the `AppServer` class and the
  `Entry` value that is its state at one moment.
- `haproxy.dfy` (module `HAProxyConfig`) — the `HAProxy` class with
  `ParseConfig` and `RefreshConfig` as loops over its `lines` and
  `appservers` fields, each proved against a function (`Scan`,
  `RefreshLines`) whose properties are lemmas.
- `kickoff.dfy` (module `Kickoff`) — the selection loops of the main block,
  the whole run (`Run`, proved against `RunSpec`), and the lemmas about
  complete runs.

Python 2 semantics are assumed (the script dates from 2011 and runs under
`python`): whitespace for `strip()` and `\s` is space, tab, newline, carriage
return, vertical tab and form feed; `\d` is an ASCII digit.

Three behaviours of the code are easy to misread:

- Enabling removes every `#` on the line, not only the first: `re.sub('#',
  '', line)` at line 62 has no count. `RewriteLine` does the same.
- The `ip:port` test at line 61 is a regular-expression search, so a `.` in
  an address matches any character but a newline (`PatternFound`).
- The help text at line 89 calls `-d` the default, but with neither `-e` nor
  `-d` the requested status is `None`. The model keeps the code's behaviour
  for it (see Findings).

The script works on byte strings, and a Dafny `char` here stands for one byte
of the file. A multi-byte character in the file is therefore several
`char`s, each matched by one `.` at line 61, as in Python 2.

## Model

| member | source | states |
|---|---|---|
| AppServers.AppServer.constructor | ha_kickoff.py:28-32 | a new entry holds the given address, port and state (disabled by default) and is not dirty |
| AppServers.AppServer.SwitchEnable | ha_kickoff.py:34-36 | the entry takes the requested state and is marked dirty, even when the state does not change; address and port do not change |
| AppServers.Switch | ha_kickoff.py:34-36 | definition: the value an entry has after `switch_enable`; `SwitchEnable` is proved to produce it |
| Text.IsSpace | ha_kickoff.py:47-48 | definition: the whitespace of Python 2's `strip()` and `\s`, the six ASCII characters space, tab, newline, carriage return, vertical tab and form feed |
| Text.Strip | ha_kickoff.py:47 | definition: `strip()` as the left trim of the right trim; `StripSpec` states what it keeps |
| Text.TrimLeftSpec | ha_kickoff.py:47 | the left half of `strip()`: removes exactly the leading whitespace and keeps the rest as a suffix |
| Text.TrimRightSpec | ha_kickoff.py:47 | the right half of `strip()`: removes exactly the trailing whitespace and keeps the rest as a prefix |
| Text.StripSpec | ha_kickoff.py:47 | `strip()` keeps one contiguous piece that neither starts nor ends with whitespace; the result is empty exactly when the line is all whitespace |
| Text.RemoveAll | ha_kickoff.py:62 | `re.sub('#', '', l)` leaves no `#`, is shorter by exactly the number of `#` and keeps every other character |
| Text.RemoveAllAbsent | ha_kickoff.py:62 | removing a character that does not occur changes nothing |
| Text.RemoveAllIdempotent | ha_kickoff.py:62 | removing every `#` twice gives the same result as removing them once |
| Text.RemoveAllConcat | ha_kickoff.py:62 | removal goes character by character and keeps the order of what remains |
| Text.Split | ha_kickoff.py:107 | `--ip` split on commas gives at least one piece and no piece holds a comma |
| Text.JoinSplit | ha_kickoff.py:107 | joining the comma-split pieces gives back the `--ip` string |
| Text.SplitJoin | ha_kickoff.py:107 | splitting a join of comma-free pieces gives back the pieces |
| Text.SplitLines | ha_kickoff.py:41 | definition: `readlines()`, each line keeping its newline; `SplitLinesWellSplit` and `ConcatSplitLines` state its properties |
| Text.Concat | ha_kickoff.py:72 | definition: `writelines`, the lines written one after the other with nothing between them |
| Text.SplitLinesWellSplit | ha_kickoff.py:41 | `readlines()` returns non-empty lines; each has a newline only at its end, and every line but the last has one |
| Text.ConcatSplitLines | ha_kickoff.py:72 | `writelines` of what `readlines` returned reproduces the file text exactly |
| Patterns.MatchesServer | ha_kickoff.py:47 | definition: `re.match('server', t)`, the stripped line begins with the token |
| Patterns.MatchesCommentedServer | ha_kickoff.py:47 | definition: `re.match('#\s*server', t)`, a `#`, a whitespace run, then the token |
| Patterns.IsCandidate | ha_kickoff.py:47 | definition: the test of line 47 on the stripped line; `CandidateClassified` relates it to line 51 |
| Patterns.IsEnabledLine | ha_kickoff.py:51 | definition: the stripped line does not start with `#` |
| Patterns.CommentedServerByTrim | ha_kickoff.py:47 | `#\s*server` matches exactly when the text after the `#`, with its leading whitespace skipped, starts with `server` |
| Patterns.CandidateClassified | ha_kickoff.py:47-51 | a server line is enabled exactly when it is the uncommented form, and disabled exactly when it is the `#` form |
| Patterns.AddressAt | ha_kickoff.py:48 | definition: `(\S+):(\d+)` matches with group 1 spanning `i` up to the colon at `j`; `Search` is characterised against it |
| Patterns.LastColon | ha_kickoff.py:48 | the greedy `\S+` backs off to the last colon before the end of its run that has a digit after it |
| Patterns.SearchFrom | ha_kickoff.py:48 | from a start position the search returns the leftmost match, its rightmost colon and its whole digit run, or None when no match exists |
| Patterns.Search | ha_kickoff.py:48-50 | `re.search(r'(\S+):(\d+)', line)` is None exactly when the line has no match; otherwise no match starts earlier, no later colon works from the same start, and the port is the whole digit run |
| Patterns.IpOf | ha_kickoff.py:49 | definition: `m.group(1)`, the text from the match start to its colon |
| Patterns.PortOf | ha_kickoff.py:50 | definition: `m.group(2)`, the digit run after the colon |
| Patterns.PatternFound | ha_kickoff.py:61 | definition: `re.search(server_pattern, line)` succeeds, some offset where every pattern character matches, `.` matching any character but a newline |
| Patterns.FoundWhenContained | ha_kickoff.py:61 | a line that holds `ip:port` literally matches the pattern |
| Patterns.FoundAfterPrefix | ha_kickoff.py:61-62 | putting a character in front of a line keeps every match, so an added `#` never hides a line from a later entry |
| Patterns.PortPrefixFound | ha_kickoff.py:60-61 | the search is unanchored: the pattern of port 80 is found on a line naming port 8080 |
| Patterns.DotIsWildcard | ha_kickoff.py:60-61 | a `.` in the address is a wildcard: `10.0.0.1:80` is found in `10-0-0-1:80` |
| Patterns.OwnAddressFound | ha_kickoff.py:48-61 | a server line always matches the `ip:port` pattern of the entry parsed from it |
| Patterns.RewriteLine | ha_kickoff.py:62 | definition: the two rewrites of line 62, chosen by the entry's state; the four lemmas below state what each does |
| Patterns.DisableAddsOneHash | ha_kickoff.py:62 | disabling adds exactly one `#`, in front, keeps the rest of the line, and leaves a line that reads as disabled |
| Patterns.EnableRemovesEveryHash | ha_kickoff.py:62 | enabling leaves no `#`, shortens the line by the number of `#` removed, and leaves a line that reads as enabled |
| Patterns.EnableIdempotent | ha_kickoff.py:62 | enabling twice is the same as enabling once |
| Patterns.DisableThenEnable | ha_kickoff.py:62 | enabling a disabled line gives back the original line when that line had no `#` of its own |
| HAProxyConfig.ParseLine | ha_kickoff.py:48-52 | definition: the entry lines 48-52 build from a line, or None where `m.group(1)` would raise; `ParseLineSpec` states its properties |
| HAProxyConfig.Scan | ha_kickoff.py:45-54 | definition: the loop of `parse_config` over the lines, ending at the first candidate line without `ip:port`; `ParseConfig` is proved equal to it and the lemmas below state its properties |
| HAProxyConfig.ParseLineSpec | ha_kickoff.py:47-52 | a candidate line gives no entry exactly when it has no `\S+:\d+`; otherwise the entry is not dirty, is enabled exactly when the stripped line does not start with `#`, has an address without whitespace and a non-empty port made of digits |
| HAProxyConfig.CandidatesConcat | ha_kickoff.py:46-47 | candidate lines keep file order: the candidates of two pieces of a file are those of the first piece followed by those of the second |
| HAProxyConfig.CandidatesOne | ha_kickoff.py:47 | a line that is not a candidate contributes nothing |
| HAProxyConfig.ScanNext | ha_kickoff.py:46-54 | one more line either stops the scan at its index, when it is a server line without `ip:port`, or appends exactly the entry that line yields |
| HAProxyConfig.ScanStaysStopped | ha_kickoff.py:48-49 | once a candidate line without an address has stopped the scan, later lines change nothing |
| HAProxyConfig.ScanSucceeds | ha_kickoff.py:46-50 | the scan completes exactly when every candidate line holds an `ip:port` |
| HAProxyConfig.ScanEntries | ha_kickoff.py:45-54 | a completed scan gives one entry per candidate line, in file order, with duplicates kept; each entry is the one parsed from its line |
| HAProxyConfig.CandidateAt | ha_kickoff.py:46-47 | candidate line `i` sits in the candidate list at the index that counts the candidate lines before it |
| HAProxyConfig.ScanEntryOf | ha_kickoff.py:46-54 | in a completed scan, the entry of candidate line `i` sits at the index that counts the candidate lines before it and is the entry parsed from that line |
| HAProxyConfig.ScanFails | ha_kickoff.py:48-50 | a failed scan stops at the first candidate line that has no address, keeping the entries of the lines before it |
| HAProxyConfig.ScanEntriesClean | ha_kickoff.py:32-52 | no scanned entry is dirty |
| HAProxyConfig.PatternOf | ha_kickoff.py:60 | definition: `'%s:%s' % (ip, port)` |
| HAProxyConfig.ApplyEntries | ha_kickoff.py:58-62 | definition: one line after the inner loop has visited every entry in order, each dirty entry that is found on the line as it then reads rewriting it; `RefreshConfig` is proved equal to it line by line |
| HAProxyConfig.RefreshLines | ha_kickoff.py:56-62 | the pass keeps the number of lines |
| HAProxyConfig.ApplyUnmatched | ha_kickoff.py:58-61 | a line that no dirty entry's pattern matches stays as it was |
| HAProxyConfig.RefreshKeepsUnmatched | ha_kickoff.py:56-61 | after the pass, a line that no dirty entry matches is unchanged at its index |
| HAProxyConfig.RefreshNothingDirty | ha_kickoff.py:56-61 | with no dirty entries the pass is the identity |
| HAProxyConfig.NoOtherMatch | ha_kickoff.py:58-62 | definition: no dirty entry but the one at `d` is found on the line, neither before nor after that entry's rewrite |
| HAProxyConfig.ApplyOneDirty | ha_kickoff.py:58-62 | a line that one dirty entry matches, and that no other dirty entry matches before or after its rewrite, is rewritten once by that entry's rule, however many other entries are dirty |
| HAProxyConfig.FoundAfterHashes | ha_kickoff.py:61-62 | any number of `#` put in front keep a match |
| HAProxyConfig.ApplyDisablesAccumulate | ha_kickoff.py:58-62 | rewrites accumulate: when every dirty entry is disabled and matches the line, the line gains one `#` per dirty entry |
| HAProxyConfig.HAProxy.constructor | ha_kickoff.py:39-43 | the configuration holds the given lines and no entries yet |
| HAProxyConfig.HAProxy.ScanLine | ha_kickoff.py:47-54 | one pass of the loop body: reports a server line without `ip:port`, or appends exactly the line's entry as a fresh object, keeping `ip_list` parallel to `appservers` |
| HAProxyConfig.HAProxy.ParseConfig | ha_kickoff.py:45-54 | appends one fresh entry per candidate line, as the scan gives them, or stops at the scan's failing line; keeps `ip_list` parallel to `appservers`; leaves the lines unchanged |
| HAProxyConfig.HAProxy.RefreshConfig | ha_kickoff.py:56-62 | the nested loops leave the lines equal to the pass over the old lines with the current entries |
| Kickoff.Truthy | ha_kickoff.py:62 | definition: the state line 62 acts on: `None` stored by `switch_enable` reads as false |
| Kickoff.Differs | ha_kickoff.py:107 | definition: `is_enable is not switch_status`, true for every entry when the status is `None` |
| Kickoff.Selected | ha_kickoff.py:107 | definition: the condition of line 107, or of line 111 read with `opts.port` |
| Kickoff.SelectOne | ha_kickoff.py:107-108 | definition: an entry after the loop body has visited it; `SelectionEffect` states what it becomes |
| Kickoff.SelectEntries | ha_kickoff.py:105-112 | the selection keeps the number of entries |
| Kickoff.SelectOneIdempotent | ha_kickoff.py:106-108 | visiting an entry a second time changes nothing more, so a list that holds the same object twice ends up the same |
| Kickoff.SelectionEffect | ha_kickoff.py:105-112 | an entry becomes dirty exactly when it is selected or already was; a selected entry takes the requested state; address and port never change |
| Kickoff.SelectionByAddresses | ha_kickoff.py:105-108 | on scanned entries without `--port`, the dirty entries are exactly those whose address is listed and whose state is not the requested one; an entry already in the requested state is left as it was |
| Kickoff.SelectionByPort | ha_kickoff.py:109-112 | on scanned entries with `--port`, the dirty entries are exactly those of that address and port whose state is not the requested one |
| Kickoff.NoStatusDisablesEveryListed | ha_kickoff.py:107-108 | without `-e` or `-d`, every listed entry is switched to disabled, whatever its state |
| Kickoff.SelectServers | ha_kickoff.py:105-112 | the selection loops leave every entry as the selection function gives it |
| Kickoff.SelectByPortAsWritten | ha_kickoff.py:111 | the port loop as written raises exactly when some entry has the requested address, and switches nothing |
| Kickoff.PortSelectionExample | ha_kickoff.py:110-112 | `--ip=10.0.0.1 --port=8080 --enable` switches only the 8080 entry when the file also has 10.0.0.1:9090 |
| Kickoff.RunSpec | ha_kickoff.py:103-114 | definition: scan, select, refresh, or the index of the line the scan stops at; `Run` is proved equal to it |
| Kickoff.Run | ha_kickoff.py:103-114 | a run gives the lines that the scan, the selection and the pass produce, or the index of the line where the scan stopped |
| Kickoff.RunKeepsLineCount | ha_kickoff.py:114 | a run keeps the number of lines |
| Kickoff.RunSelectingNothing | ha_kickoff.py:104-114 | a run that selects no entry gives back its lines unchanged |
| Kickoff.SaveRoundTrip | ha_kickoff.py:41-72 | reading a file, selecting nothing and saving writes the file back byte for byte |
| Kickoff.RunOneServerLine | ha_kickoff.py:103-114 | on a one-line file, the line is rewritten by its own entry's rule exactly when that entry is selected |
| Kickoff.RunLine | ha_kickoff.py:103-114 | in any file whose scan completes, line `i` is rewritten by its own entry exactly when that entry is selected, provided no other dirty entry is found on it before or after that rewrite; the run keeps the number of lines |
| Kickoff.RunDisable | ha_kickoff.py:105-114 | in any file whose scan completes, `-d` comments out a listed enabled line once and leaves a listed disabled line unchanged, when no other switched entry is found on that line |
| Kickoff.RunEnable | ha_kickoff.py:105-114 | in any file whose scan completes, `-e` removes every `#` from a listed disabled line and leaves a listed enabled line unchanged, when no other switched entry is found on that line |
| Kickoff.RunWithoutStatusRecomments | ha_kickoff.py:107-108 | without `-e` or `-d`, a listed line that is already commented out gets a second `#`, where `-d` leaves it unchanged |
| Kickoff.DocumentedStatus | ha_kickoff.py:89 | definition: the help text's default, neither flag meaning `--disable` |
| Kickoff.RunDocumented | ha_kickoff.py:89-114 | definition: the run with the documented default |
| Kickoff.RunDocumentedKeepsDisabled | ha_kickoff.py:89 | with the documented default (no flag means `-d`), a listed line that is already commented out stays unchanged |

## Left out

- Reading the file (`open(...).readlines()`, line 41): `HAProxy` is built from a list of lines. `SplitLines` gives the lines `readlines()` returns, with Python 2 text mode on POSIX, where no newline translation happens.
- `print_config` (lines 64-66): output to standard output. `print` adds a second newline to each line, which already ends in one.
- `save_config` (lines 68-73): writing the file. What it writes is `Concat` of the lines; `ConcatSplitLines` and `SaveRoundTrip` are about that text.
- Option parsing, usage and help text (lines 82-93), and the exit on a missing `--ip` (lines 95-96): `Run` takes the ip list, the port and the status as parameters.
- `--test` mode (lines 98-102): copying files is a file-system side effect. `--reload` (lines 119-120): an external shell command.
- Non-ASCII whitespace and digits: Python 2 byte strings have none. Each `char` of the model is one byte of the file; decoding is not modelled.
- Kickoff.SelectServers: the source stores `None` in `is_enable` when neither `-e` nor `-d` is given; the model stores `false`. The only later reader is the truth test in `refresh_config`, which reads `None` as false. A second selection in the same run would tell the two apart, and the script has none.
- HAProxyConfig.HAProxy.RefreshConfig: `PatternFound` treats `.` as the only regular-expression metacharacter in an entry's `ip:port`. Other metacharacters in an address (`*`, `+`, `?`, brackets, parentheses, `\`, `|`, `^`, `$`) are read literally, and a pattern that fails to compile is not modelled.
- Kickoff.SelectServers: on the `--port` path the model compares with `opts.port`, the evident intent, instead of raising NameError (see Findings).
- The scan's crash on a candidate line without an address is a `Failure` carrying the line's index; entries appended before that line stay appended, as in the source.

## Findings

| source | as written | input that shows it | evidently intended | confidence | as-written member | corrected member |
|---|---|---|---|---|---|---|
| ha_kickoff.py:111 | the condition compares with `port`, a name nothing defines, so it raises NameError when it reaches an entry whose address equals `--ip` | `--ip=10.0.0.1 --port=8080 --enable` on a file with `server a 10.0.0.1:8080` commented out and `server b 10.0.0.1:9090` | compare with `opts.port`, so that only the 8080 entry is enabled | high; not executed | Kickoff.SelectByPortAsWritten | Kickoff.PortSelectionExample |
| ha_kickoff.py:89 | without `-e` or `-d` the requested status is `None`; `x is not None` is true for every entry, so an already disabled line gets a second `#` | `--ip=10.0.0.1` with no flag on the line `#server a 10.0.0.1:80` | the help text says that giving neither flag is the same as `--disable`, which leaves that line unchanged | medium; not executed | Kickoff.RunWithoutStatusRecomments | Kickoff.RunDocumentedKeepsDisabled |

`Kickoff.Run` and `Kickoff.SelectServers` use the corrected port comparison. For the missing status they keep the behaviour as written, `Option<bool>` with `None`. `Kickoff.RunDocumented` is the corrected run.
