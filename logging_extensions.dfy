/**
  LoggingExtensions.Escape: message text made safe for a GitHub Actions workflow-command
  log line (`::notice::`, `::warning::`, `::error::`). Carriage return, line feed, `]` and
  `:` are percent-encoded; everything else, `%` included, is copied as it is.
 */
module LoggingExtensions {
  import opened Strings

  /** The characters Escape replaces. */
  predicate Special(c: char)
  {
    c == '\r' || c == '\n' || c == ']' || c == ':'
  }

  /** The four Replace calls, in the order the code makes them. */
  function Escape(input: seq<char>): (r: seq<char>)
    ensures forall k :: 0 <= k < |r| ==> !Special(r[k])
  {
    ReplaceChar(ReplaceChar(ReplaceChar(ReplaceChar(input, '\r', "%0D"), '\n', "%0A"), ']', "%5D"), ':', "%3A")
  }

  /** What one character becomes. */
  function EscapeChar(c: char): (r: seq<char>)
    ensures Special(c) ==> |r| == 3 && r[0] == '%'
    ensures !Special(c) ==> r == [c]
  {
    if c == '\r' then "%0D"
    else if c == '\n' then "%0A"
    else if c == ']' then "%5D"
    else if c == ':' then "%3A"
    else [c]
  }

  /** Every character replaced by what it becomes, in order. */
  function EscapeEach(s: seq<char>): seq<char>
    decreases |s|
  {
    if s == [] then [] else EscapeChar(s[0]) + EscapeEach(s[1..])
  }

  /** How many characters of `s` Escape replaces. */
  function SpecialCount(s: seq<char>): nat
    decreases |s|
  {
    if s == [] then 0 else (if Special(s[0]) then 1 else 0) + SpecialCount(s[1..])
  }

  /** Escape of one character: no replacement text holds a character replaced by a later
      Replace call, so each later call leaves the earlier result alone. */
  lemma EscapeOne(c: char)
    ensures Escape([c]) == EscapeChar(c)
  {
    ReplaceOneChar(c, '\r', "%0D");
    if c == '\r' {
      ReplaceCharAbsent("%0D", '\n', "%0A");
      ReplaceCharAbsent("%0D", ']', "%5D");
      ReplaceCharAbsent("%0D", ':', "%3A");
    } else {
      ReplaceOneChar(c, '\n', "%0A");
      if c == '\n' {
        ReplaceCharAbsent("%0A", ']', "%5D");
        ReplaceCharAbsent("%0A", ':', "%3A");
      } else {
        ReplaceOneChar(c, ']', "%5D");
        if c == ']' {
          ReplaceCharAbsent("%5D", ':', "%3A");
        } else {
          ReplaceOneChar(c, ':', "%3A");
        }
      }
    }
  }

  /** Escape of a concatenation. */
  lemma EscapeAppend(a: seq<char>, b: seq<char>)
    ensures Escape(a + b) == Escape(a) + Escape(b)
  {
    ReplaceCharAppend(a, b, '\r', "%0D");
    var a1, b1 := ReplaceChar(a, '\r', "%0D"), ReplaceChar(b, '\r', "%0D");
    ReplaceCharAppend(a1, b1, '\n', "%0A");
    var a2, b2 := ReplaceChar(a1, '\n', "%0A"), ReplaceChar(b1, '\n', "%0A");
    ReplaceCharAppend(a2, b2, ']', "%5D");
    var a3, b3 := ReplaceChar(a2, ']', "%5D"), ReplaceChar(b2, ']', "%5D");
    ReplaceCharAppend(a3, b3, ':', "%3A");
  }

  /** The chain of four Replace calls is one pass that replaces each character by
      EscapeChar of it. */
  lemma {:induction false} EscapeIsPerChar(s: seq<char>)
    ensures Escape(s) == EscapeEach(s)
    decreases |s|
  {
    if s != [] {
      EscapeIsPerChar(s[1..]);
      assert s == [s[0]] + s[1..];
      EscapeAppend([s[0]], s[1..]);
      EscapeOne(s[0]);
    }
  }

  /** Each replaced character grows by two, every other character stays one. */
  lemma {:induction false} EscapeLength(s: seq<char>)
    ensures |Escape(s)| == |s| + 2 * SpecialCount(s)
    decreases |s|
  {
    EscapeIsPerChar(s);
    if s != [] {
      EscapeLength(s[1..]);
      EscapeIsPerChar(s[1..]);
    }
  }

  /** A string with no character to replace escapes to itself. */
  lemma {:induction false} EscapeEachPlain(s: seq<char>)
    requires forall k :: 0 <= k < |s| ==> !Special(s[k])
    ensures EscapeEach(s) == s
    decreases |s|
  {
    if s != [] {
      EscapeEachPlain(s[1..]);
      assert [s[0]] + s[1..] == s;
    }
  }

  /** Escaping twice is escaping once: `%` is not escaped and nothing special is left. */
  lemma EscapeIdempotent(s: seq<char>)
    ensures Escape(Escape(s)) == Escape(s)
  {
    EscapeIsPerChar(Escape(s));
    EscapeEachPlain(Escape(s));
  }

  /** Since `%` is copied as it is, a `:` and the text `%3A` are logged alike. */
  lemma EscapeNotInjective()
    ensures Escape(":") == Escape("%3A") == "%3A"
  {
    EscapeOne(':');
    EscapeIsPerChar("%3A");
    EscapeEachPlain("%3A");
  }
}
