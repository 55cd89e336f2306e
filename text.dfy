/**
 * Character classes and the string operations of the Python runtime that the
 * script relies on: `str.strip()`, `str.split(',')`, `file.readlines()`,
 * `file.writelines()` and the deletion of every occurrence of one character.
 * Python 2 byte strings are assumed: whitespace is the six ASCII characters
 * that both `strip()` and the regular expression class `\s` accept there.
 */
module Text {

  /** `\s` and `str.isspace()` on a Python 2 byte string. */
  predicate IsSpace(c: char) {
    c == ' ' || c == '\t' || c == '\n' || c == '\r' || c == '\U{000B}' || c == '\U{000C}'
  }

  /** `\d` on a Python 2 byte string. */
  predicate IsDigit(c: char) {
    '0' <= c <= '9'
  }

  predicate StartsWith(s: string, prefix: string) {
    |prefix| <= |s| && s[..|prefix|] == prefix
  }

  /** `s.lstrip()`: `s` without its leading whitespace. */
  function TrimLeft(s: string): string {
    if s != [] && IsSpace(s[0]) then TrimLeft(s[1..]) else s
  }

  /** `s.rstrip()`: `s` without its trailing whitespace. */
  function TrimRight(s: string): string {
    if s != [] && IsSpace(s[|s| - 1]) then TrimRight(s[..|s| - 1]) else s
  }

  /** `s.strip()`: `s` without its leading and trailing whitespace. */
  function Strip(s: string): string {
    TrimRight(TrimLeft(s))
  }

  /** The number of whitespace characters `s` starts with. */
  function LeadingSpaces(s: string): (n: nat)
    ensures n <= |s|
  {
    if s != [] && IsSpace(s[0]) then 1 + LeadingSpaces(s[1..]) else 0
  }

  /** The number of whitespace characters `s` ends with. */
  function TrailingSpaces(s: string): (n: nat)
    ensures n <= |s|
  {
    if s != [] && IsSpace(s[|s| - 1]) then 1 + TrailingSpaces(s[..|s| - 1]) else 0
  }

  /** `lstrip()` drops the leading whitespace, and only that: the suffix left starts with another character. */
  lemma {:induction false} TrimLeftSpec(s: string)
    ensures var n := LeadingSpaces(s);
      TrimLeft(s) == s[n..] &&
      (forall k :: 0 <= k < n ==> IsSpace(s[k])) &&
      (n == |s| || !IsSpace(s[n]))
  {
    if s != [] && IsSpace(s[0]) {
      TrimLeftSpec(s[1..]);
      assert s[1..][LeadingSpaces(s[1..])..] == s[LeadingSpaces(s)..];
    }
  }

  /** `rstrip()` drops the trailing whitespace, and only that: the prefix left ends with another character. */
  lemma {:induction false} TrimRightSpec(s: string)
    ensures var n := |s| - TrailingSpaces(s);
      TrimRight(s) == s[..n] &&
      (forall k :: n <= k < |s| ==> IsSpace(s[k])) &&
      (n == 0 || !IsSpace(s[n - 1]))
  {
    if s != [] && IsSpace(s[|s| - 1]) {
      var t := s[..|s| - 1];
      TrimRightSpec(t);
      assert t[..|t| - TrailingSpaces(t)] == s[..|s| - TrailingSpaces(s)];
    }
  }

  /**
   * `strip()` keeps the piece of `s` between its leading and its trailing
   * whitespace; that piece neither starts nor ends with whitespace, and it
   * is empty exactly when `s` is all whitespace.
   */
  lemma StripSpec(s: string)
    ensures var a := LeadingSpaces(s);
      a + |Strip(s)| <= |s| && Strip(s) == s[a..a + |Strip(s)|]
    ensures Strip(s) == [] || (!IsSpace(Strip(s)[0]) && !IsSpace(Strip(s)[|Strip(s)| - 1]))
    ensures Strip(s) == [] <==> forall k :: 0 <= k < |s| ==> IsSpace(s[k])
  {
    TrimLeftSpec(s);
    var u := TrimLeft(s);
    TrimRightSpec(u);
    var a := LeadingSpaces(s);
    assert Strip(s) == u[..|u| - TrailingSpaces(u)];
    assert forall k :: a <= k < |s| ==> s[k] == u[k - a];
  }

  /** `re.sub(c, '', s)` for a pattern that is one literal character: every occurrence goes. */
  function RemoveAll(s: string, c: char): (r: string)
    ensures c !in r
    ensures |r| == |s| - multiset(s)[c]
    ensures multiset(r) == multiset(s)[c := 0]
  {
    if s == [] then []
    else
      assert s == [s[0]] + s[1..];
      if s[0] == c then RemoveAll(s[1..], c) else [s[0]] + RemoveAll(s[1..], c)
  }

  /** Deleting a character from a string that does not hold it changes nothing. */
  lemma {:induction false} RemoveAllAbsent(s: string, c: char)
    requires c !in s
    ensures RemoveAll(s, c) == s
  {
    if s != [] {
      assert c !in s[1..];
      RemoveAllAbsent(s[1..], c);
    }
  }

  /** Deleting every occurrence is idempotent. */
  lemma RemoveAllIdempotent(s: string, c: char)
    ensures RemoveAll(RemoveAll(s, c), c) == RemoveAll(s, c)
  {
    RemoveAllAbsent(RemoveAll(s, c), c);
  }

  /** Deletion works character by character, so it distributes over concatenation and keeps order. */
  lemma {:induction false} RemoveAllConcat(s: string, t: string, c: char)
    ensures RemoveAll(s + t, c) == RemoveAll(s, c) + RemoveAll(t, c)
  {
    if s != [] {
      assert (s + t)[1..] == s[1..] + t;
      RemoveAllConcat(s[1..], t, c);
    } else {
      assert s + t == t;
    }
  }

  /** `s.split(sep)` with an explicit separator: the pieces between separators, empty ones kept. */
  function Split(s: string, sep: char): (r: seq<string>)
    ensures |r| >= 1
    ensures forall k :: 0 <= k < |r| ==> sep !in r[k]
  {
    if s == [] then [""]
    else
      var rest := Split(s[1..], sep);
      if s[0] == sep then [""] + rest else [[s[0]] + rest[0]] + rest[1..]
  }

  /** `sep.join(pieces)`. */
  function Join(pieces: seq<string>, sep: char): string
    requires |pieces| >= 1
  {
    if |pieces| == 1 then pieces[0] else pieces[0] + [sep] + Join(pieces[1..], sep)
  }

  /** Joining the pieces of a split gives the string back. */
  lemma {:induction false} JoinSplit(s: string, sep: char)
    ensures Join(Split(s, sep), sep) == s
  {
    if s != [] {
      var rest := Split(s[1..], sep);
      JoinSplit(s[1..], sep);
      if s[0] == sep {
        assert ([""] + rest)[1..] == rest;
      } else {
        var r := [[s[0]] + rest[0]] + rest[1..];
        if |rest| == 1 {
          assert r == [[s[0]] + rest[0]];
        } else {
          assert r[1..] == rest[1..];
          assert Join(rest, sep) == rest[0] + [sep] + Join(rest[1..], sep);
        }
      }
    }
  }

  /** Splitting a join of separator-free pieces gives the pieces back. */
  lemma {:induction false} SplitJoin(pieces: seq<string>, sep: char)
    requires |pieces| >= 1
    requires forall k :: 0 <= k < |pieces| ==> sep !in pieces[k]
    ensures Split(Join(pieces, sep), sep) == pieces
  {
    if |pieces| == 1 {
      SplitPiece(pieces[0], [], sep);
      assert pieces[0] + [] == pieces[0];
    } else {
      var tail := Join(pieces[1..], sep);
      SplitJoin(pieces[1..], sep);
      SplitPiece(pieces[0], [sep] + tail, sep);
      assert pieces[0] + [sep] + tail == pieces[0] + ([sep] + tail);
      assert ([sep] + tail)[1..] == tail;
      assert Split([sep] + tail, sep) == [""] + Split(tail, sep);
      assert pieces[0] + "" == pieces[0];
      assert [pieces[0]] + pieces[1..] == pieces;
    }
  }

  /** A separator-free piece in front of the rest joins the rest's first piece. */
  lemma {:induction false} SplitPiece(p: string, t: string, sep: char)
    requires sep !in p
    ensures Split(p + t, sep) == [p + Split(t, sep)[0]] + Split(t, sep)[1..]
  {
    if p == [] {
      assert p + t == t;
      assert p + Split(t, sep)[0] == Split(t, sep)[0];
      assert [Split(t, sep)[0]] + Split(t, sep)[1..] == Split(t, sep);
    } else {
      assert (p + t)[1..] == p[1..] + t;
      assert sep !in p[1..];
      SplitPiece(p[1..], t, sep);
      assert [p[0]] + (p[1..] + Split(t, sep)[0]) == p + Split(t, sep)[0];
    }
  }

  /** Every line except possibly the last ends in a newline, and no line holds one elsewhere. */
  predicate WellSplit(lines: seq<string>) {
    forall k :: 0 <= k < |lines| ==>
      lines[k] != [] &&
      (forall m :: 0 <= m < |lines[k]| - 1 ==> lines[k][m] != '\n') &&
      (k < |lines| - 1 ==> lines[k][|lines[k]| - 1] == '\n')
  }

  /** `file.readlines()`: the text cut after every newline, terminators kept, no empty last line. */
  function SplitLines(text: string): seq<string> {
    if text == [] then []
    else
      var rest := SplitLines(text[1..]);
      if text[0] == '\n' then ["\n"] + rest
      else if rest == [] then [[text[0]]]
      else [[text[0]] + rest[0]] + rest[1..]
  }

  /** The lines `readlines()` returns are well split. */
  lemma {:induction false} SplitLinesWellSplit(text: string)
    ensures WellSplit(SplitLines(text))
  {
    if text != [] {
      SplitLinesWellSplit(text[1..]);
    }
  }

  /** `file.writelines(lines)`: the lines written one after the other. */
  function Concat(lines: seq<string>): string {
    if lines == [] then [] else lines[0] + Concat(lines[1..])
  }

  /** Writing back what was read reproduces the text exactly. */
  lemma {:induction false} ConcatSplitLines(text: string)
    ensures Concat(SplitLines(text)) == text
  {
    if text != [] {
      var rest := SplitLines(text[1..]);
      ConcatSplitLines(text[1..]);
      if text[0] == '\n' {
        assert (["\n"] + rest)[1..] == rest;
      } else if rest == [] {
        assert text == [text[0]];
      } else {
        var r := [[text[0]] + rest[0]] + rest[1..];
        assert r[0] == [text[0]] + rest[0];
        assert r[1..] == rest[1..];
        calc {
          Concat(r);
          r[0] + Concat(r[1..]);
          [text[0]] + rest[0] + Concat(rest[1..]);
          [text[0]] + Concat(rest);
          [text[0]] + text[1..];
        }
      }
    }
  }
}
