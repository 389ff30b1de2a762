/**
  What VersionGlobber computes, as functions: the scanners for `]` and `}`, the
  character-class builder, the brace-aware pattern splitter and the glob-to-regex
  translation. The methods in module VersionGlobber compute the same values with the
  loops of the C# code and are proved equal to these functions.
 */
module GlobSpec {
  import opened Strings

  /** The characters that `\X` re-escapes in the regex: the regex metacharacters
      `[]{}().+*?^$|` and the backslash. */
  predicate EscapedAfterBackslash(x: char)
  {
    x == '[' || x == ']' || x == '{' || x == '}' || x == '(' || x == ')' || x == '.'
    || x == '+' || x == '*' || x == '?' || x == '^' || x == '$' || x == '|' || x == '\\'
  }

  /** Plain characters that mean something to a regex but nothing to a glob:
      `.+()^$|` and a stray `}` or `]`. */
  predicate RegexOnlyMeta(c: char)
  {
    c == '.' || c == '+' || c == '(' || c == ')' || c == '^' || c == '$' || c == '|'
    || c == '}' || c == ']'
  }

  /** The characters that start a glob construct. */
  predicate GlobMeta(c: char)
  {
    c == '\\' || c == '*' || c == '?' || c == '[' || c == '{'
  }

  /** Class members that are escaped when they come after a backslash. */
  predicate EscapedInClass(c: char)
  {
    c == '\\' || c == ']' || c == '^' || c == '-'
  }

  /** The translation of `\X`: `X`, re-escaped when it is a regex metacharacter. */
  function EscapedLiteral(x: char): seq<char>
  {
    if EscapedAfterBackslash(x) then ['\\', x] else [x]
  }

  /** The length of the run of `*` that `s` starts with. */
  function StarRun(s: seq<char>): (n: nat)
    ensures n <= |s|
    ensures forall k :: 0 <= k < n ==> s[k] == '*'
    ensures n < |s| ==> s[n] != '*'
    decreases |s|
  {
    if s != [] && s[0] == '*' then 1 + StarRun(s[1..]) else 0
  }

  /**
    FindClosingBracket: the index of the first `]` at or after `from` that is not
    escaped by a backslash (a backslash skips the character after it), or -1.
   */
  function ClosingBracket(s: seq<char>, from: nat): (r: int)
    ensures r == -1 || (from <= r < |s| && s[r] == ']')
    decreases |s| - from
  {
    if from >= |s| then -1
    else if s[from] == '\\' then ClosingBracket(s, from + 2)
    else if s[from] == ']' then from
    else ClosingBracket(s, from + 1)
  }

  /**
    FindClosingBrace: scanning from `from` with `depth` braces open, the index of the
    `}` that closes the last of them, or -1. Unescaped `{` opens one more, unescaped
    `}` closes one, and a backslash skips the character after it.
   */
  function ClosingBrace(s: seq<char>, from: nat, depth: nat): (r: int)
    requires depth >= 1
    ensures r == -1 || (from <= r < |s| && s[r] == '}')
    decreases |s| - from
  {
    if from >= |s| then -1
    else if s[from] == '\\' then ClosingBrace(s, from + 2, depth)
    else if s[from] == '{' then ClosingBrace(s, from + 1, depth + 1)
    else if s[from] == '}' then (if depth == 1 then from else ClosingBrace(s, from + 1, depth - 1))
    else ClosingBrace(s, from + 1, depth)
  }

  /** Scanning a suffix of `p` finds the same `]` as scanning `p` itself, at an index
      shifted by where the suffix starts. */
  lemma {:induction false} ClosingBracketShift(p: seq<char>, i: nat, j: nat)
    requires i <= |p|
    ensures ClosingBracket(p[i..], j) ==
      (if ClosingBracket(p, i + j) < 0 then -1 else ClosingBracket(p, i + j) - i)
    decreases |p| - i - j
  {
    if i + j < |p| {
      assert p[i..][j] == p[i + j];
      if p[i + j] == '\\' {
        ClosingBracketShift(p, i, j + 2);
      } else if p[i + j] != ']' {
        ClosingBracketShift(p, i, j + 1);
      }
    }
  }

  /** Scanning a suffix of `p` finds the same closing `}` as scanning `p` itself, at an
      index shifted by where the suffix starts. */
  lemma {:induction false} ClosingBraceShift(p: seq<char>, i: nat, j: nat, depth: nat)
    requires i <= |p| && depth >= 1
    ensures ClosingBrace(p[i..], j, depth) ==
      (if ClosingBrace(p, i + j, depth) < 0 then -1 else ClosingBrace(p, i + j, depth) - i)
    decreases |p| - i - j
  {
    if i + j < |p| {
      assert p[i..][j] == p[i + j];
      if p[i + j] == '\\' {
        ClosingBraceShift(p, i, j + 2, depth);
      } else if p[i + j] == '{' {
        ClosingBraceShift(p, i, j + 1, depth + 1);
      } else if p[i + j] == '}' {
        if depth > 1 { ClosingBraceShift(p, i, j + 1, depth - 1); }
      } else {
        ClosingBraceShift(p, i, j + 1, depth);
      }
    }
  }

  /** What BuildRegexCharClass returns: the class content and its `negated` flag. */
  datatype CharClass = CharClass(content: seq<char>, negated: bool)

  /** BuildRegexCharClass: a leading `!` or `^` negates; the members follow. */
  function CharClassOf(cls: seq<char>): (r: CharClass)
  {
    if cls == [] then CharClass([], false)
    else if cls[0] == '!' || cls[0] == '^' then CharClass(ClassBody(cls, 1, false, '\0'), true)
    else CharClass(ClassBody(cls, 0, false, '\0'), false)
  }

  /**
    The members of the class body `cls` from index `i` on, translated one by one.
    `havePrev` and `prev` say whether a member that can start a range precedes, and
    which character it is. Every member produces output, so the result is empty only
    when there is no member left.
   */
  function ClassBody(cls: seq<char>, i: nat, havePrev: bool, prev: char): (r: seq<char>)
    ensures r == [] <==> i >= |cls|
    decreases |cls| - i
  {
    if i >= |cls| then []
    else
      var ch := cls[i];
      if ch == '\\' then
        if i + 1 < |cls| then
          var lit := cls[i + 1];
          (if EscapedInClass(lit) then ['\\', lit] else [lit]) + ClassBody(cls, i + 2, true, lit)
        else ['\\', '\\'] + ClassBody(cls, i + 1, true, '\\')
      else if ch == '-' then
        if havePrev && i + 1 < |cls| && cls[i + 1] != ']' then
          var next := if cls[i + 1] == '\\' && i + 2 < |cls| then cls[i + 2] else cls[i + 1];
          if prev <= next then ['-'] + ClassBody(cls, i + 1, false, prev)
          else ['\\', '-'] + ClassBody(cls, i + 1, true, '-')
        else ['\\', '-'] + ClassBody(cls, i + 1, true, '-')
      else (if ch == ']' || ch == '^' then ['\\', ch] else [ch]) + ClassBody(cls, i + 1, true, ch)
  }

  /* One member of a class body at index `i`, in the terms BuildRegexCharClass uses. */

  lemma ClassEscapeStep(cls: seq<char>, i: nat, h: bool, p: char)
    requires i + 1 < |cls| && cls[i] == '\\'
    ensures ClassBody(cls, i, h, p) == (if EscapedInClass(cls[i + 1]) then ['\\', cls[i + 1]] else [cls[i + 1]]) + ClassBody(cls, i + 2, true, cls[i + 1])
  {
  }

  lemma ClassTrailingStep(cls: seq<char>, i: nat, h: bool, p: char)
    requires i + 1 == |cls| && cls[i] == '\\'
    ensures ClassBody(cls, i, h, p) == ['\\', '\\'] + ClassBody(cls, i + 1, true, '\\')
  {
  }

  lemma ClassDashStep(cls: seq<char>, i: nat, h: bool, p: char)
    requires i < |cls| && cls[i] == '-'
    ensures var range := h && i + 1 < |cls| && cls[i + 1] != ']' &&
      p <= (if cls[i + 1] == '\\' && i + 2 < |cls| then cls[i + 2] else cls[i + 1]);
      ClassBody(cls, i, h, p) == if range then ['-'] + ClassBody(cls, i + 1, false, p)
      else ['\\', '-'] + ClassBody(cls, i + 1, true, '-')
  {
  }

  lemma ClassCharStep(cls: seq<char>, i: nat, h: bool, p: char)
    requires i < |cls| && cls[i] != '\\' && cls[i] != '-'
    ensures ClassBody(cls, i, h, p) == (if cls[i] == ']' || cls[i] == '^' then ['\\', cls[i]] else [cls[i]]) + ClassBody(cls, i + 1, true, cls[i])
  {
  }

  /**
    SplitByCommaOutsideBraces from the state (`depth` open braces, piece `cur` so far):
    a comma at depth 0 ends a piece, `{` and `}` move the depth (never below 0), a
    backslash is copied with the character after it, and a last piece is kept only when
    it is not empty. Every piece is made of characters of `cur` and `s`.
   */
  function SplitPieces(s: seq<char>, depth: nat, cur: seq<char>): (r: seq<seq<char>>)
    ensures forall k :: 0 <= k < |r| ==> |r[k]| <= |cur| + |s|
    decreases |s|
  {
    if s == [] then (if |cur| > 0 then [cur] else [])
    else
      var ch := s[0];
      if ch == '\\' then
        if |s| > 1 then SplitPieces(s[2..], depth, cur + ['\\', s[1]])
        else SplitPieces(s[1..], depth, cur + ['\\'])
      else if ch == '{' then SplitPieces(s[1..], depth + 1, cur + [ch])
      else if ch == '}' then SplitPieces(s[1..], if depth == 0 then 0 else depth - 1, cur + [ch])
      else if ch == ',' && depth == 0 then [cur] + SplitPieces(s[1..], 0, [])
      else SplitPieces(s[1..], depth, cur + [ch])
  }

  /** SplitByCommaOutsideBraces: the top-level comma-separated pieces of `s`. */
  function SplitPatterns(s: seq<char>): (r: seq<seq<char>>)
    ensures forall k :: 0 <= k < |r| ==> |r[k]| <= |s|
  {
    if s == [] then [] else SplitPieces(s, 0, [])
  }

  /**
    GlobToRegex on the part `s` of the glob that is still to be translated. Each case
    is one branch of the source's switch; `[` and `{` have their own functions.
   */
  function Translate(s: seq<char>): (r: seq<char>)
    decreases |s|, 1
  {
    if s == [] then []
    else
      var c := s[0];
      if c == '\\' then
        if |s| > 1 then EscapedLiteral(s[1]) + Translate(s[2..])
        else ['\\', '\\'] + Translate(s[1..])
      else if c == '*' then ".*" + Translate(s[StarRun(s)..])
      else if c == '?' then "." + Translate(s[1..])
      else if c == '[' then TranslateBracket(s)
      else if c == '{' then TranslateBrace(s)
      else if RegexOnlyMeta(c) then ['\\', c] + Translate(s[1..])
      else [c] + Translate(s[1..])
  }

  /** A non-empty, non-degenerate class becomes a regex class; an unterminated `[`, a
      body that is empty or `!`, or a body whose content is empty makes the `[` a
      literal, and the translation goes on just after it. */
  function TranslateBracket(s: seq<char>): (r: seq<char>)
    requires s != [] && s[0] == '['
    decreases |s|, 0
  {
    var e := ClosingBracket(s, 1);
    if e > 0 && ClassUsable(s[1..e]) then
      ClassRegex(s[1..e]) + Translate(s[e + 1..])
    else "\\[" + Translate(s[1..])
  }

  /** A class body that makes a regex class: not empty, not a lone `!`, and with content. */
  predicate ClassUsable(raw: seq<char>)
  {
    raw != [] && raw != "!" && CharClassOf(raw).content != []
  }

  /** The regex class for the class body `raw`: its content in brackets, negated with `^`. */
  function ClassRegex(raw: seq<char>): (r: seq<char>)
  {
    var cls := CharClassOf(raw);
    "[" + (if cls.negated then "^" else "") + cls.content + "]"
  }

  /** A brace group with a matching `}` becomes a non-capturing alternation of the
      translated top-level alternatives; an unmatched `{` is a literal. */
  function TranslateBrace(s: seq<char>): (r: seq<char>)
    requires s != [] && s[0] == '{'
    decreases |s|, 0
  {
    var e := ClosingBrace(s, 1, 1);
    if e > 0 then "(?:" + Alternation(s[1..e]) + ")" + Translate(s[e + 1..])
    else "\\{" + Translate(s[1..])
  }

  /** The body of a brace group: its top-level alternatives, each translated, joined by `|`. */
  function Alternation(body: seq<char>): (r: seq<char>)
    decreases |body|, 2
  {
    var alts := SplitPatterns(body);
    Join(seq(|alts|, k requires 0 <= k < |alts| => Translate(alts[k])), '|')
  }

  /*
    One step of the translation at index `i` of a glob `p`, stated on the suffix
    `p[i..]` in the terms the index-driven loop of GlobToRegex uses.
   */

  /** A backslash escapes the next character; a trailing one is a literal backslash. */
  lemma TranslateAtEscape(p: seq<char>, i: nat)
    requires i < |p| && p[i] == '\\'
    ensures Translate(p[i..]) ==
      if i + 1 < |p| then EscapedLiteral(p[i + 1]) + Translate(p[i + 2..])
      else ['\\', '\\'] + Translate(p[i + 1..])
  {
    assert p[i..][1..] == p[i + 1..];
    if i + 1 < |p| {
      assert p[i..][2..] == p[i + 2..];
    }
  }

  /** A run of stars, ending just before index `j`, is one `.*`. */
  lemma TranslateAtStars(p: seq<char>, i: nat, j: nat)
    requires i < |p| && p[i] == '*' && j == i + StarRun(p[i..])
    ensures j <= |p| && Translate(p[i..]) == ".*" + Translate(p[j..])
  {
    assert p[i..][j - i..] == p[j..];
  }

  /** A character that is not special to the glob syntax is copied, quoted if needed. */
  lemma TranslateAtChar(p: seq<char>, i: nat)
    requires i < |p| && p[i] != '\\' && p[i] != '*' && p[i] != '[' && p[i] != '{'
    ensures Translate(p[i..]) ==
      (if p[i] == '?' then "." else if RegexOnlyMeta(p[i]) then ['\\', p[i]] else [p[i]])
      + Translate(p[i + 1..])
  {
    assert p[i..][1..] == p[i + 1..];
  }

  /** `[` at index `i`, with `e` the index of its closing `]` in `p` (or -1). */
  lemma TranslateAtBracket(p: seq<char>, i: nat, e: int)
    requires i < |p| && p[i] == '[' && e == ClosingBracket(p, i + 1)
    ensures e < 0 || i < e < |p|
    ensures Translate(p[i..]) ==
      if e > i && ClassUsable(p[i + 1..e]) then
        ClassRegex(p[i + 1..e]) + Translate(p[e + 1..])
      else "\\[" + Translate(p[i + 1..])
  {
    var s := p[i..];
    ClosingBracketShift(p, i, 1);
    assert Translate(s) == TranslateBracket(s);
    assert s[1..] == p[i + 1..];
    if e > i {
      assert s[1..e - i] == p[i + 1..e];
      assert s[e - i + 1..] == p[e + 1..];
    }
  }

  /** TranslateAtBracket for the text `cls` the `[` case emits from the body: a class
      when there is one, nothing when the `[` is literal. */
  lemma BracketStep(p: seq<char>, i: nat, e: int, cls: seq<char>)
    requires i < |p| && p[i] == '[' && e == ClosingBracket(p, i + 1)
    requires e > i ==> (cls != [] <==> ClassUsable(p[i + 1..e])) && (cls != [] ==> cls == ClassRegex(p[i + 1..e]))
    requires e <= i ==> cls == []
    ensures e < 0 || i < e < |p|
    ensures cls != [] ==> Translate(p[i..]) == cls + Translate(p[e + 1..])
    ensures cls == [] ==> Translate(p[i..]) == "\\[" + Translate(p[i + 1..])
  {
    TranslateAtBracket(p, i, e);
  }

  /** `{` at index `i`, with `e` the index of its matching `}` in `p` (or -1). */
  lemma TranslateAtBrace(p: seq<char>, i: nat, e: int)
    requires i < |p| && p[i] == '{' && e == ClosingBrace(p, i + 1, 1)
    ensures e < 0 || i < e < |p|
    ensures Translate(p[i..]) ==
      if e > i then "(?:" + Alternation(p[i + 1..e]) + ")" + Translate(p[e + 1..])
      else "\\{" + Translate(p[i + 1..])
  {
    var s := p[i..];
    ClosingBraceShift(p, i, 1, 1);
    assert Translate(s) == TranslateBrace(s);
    if e > i {
      assert s[1..e - i] == p[i + 1..e];
      assert s[e - i + 1..] == p[e + 1..];
    } else {
      assert s[1..] == p[i + 1..];
    }
  }
}
