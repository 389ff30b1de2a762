/**
  VersionGlobber: glob patterns for package version names. The translator and its
  helpers are the index-driven loops of the C# code, each proved to compute the
  function of module GlobSpec that states what it does.
 */
module VersionGlobber {
  import opened Wrappers
  import opened Strings
  import opened Enumerables
  import opened GlobSpec
  import opened MatchSpec

  /** Whether `input` matches the whole glob `pattern`; null stands for the empty string. */
  method IsMatch(input: Option<seq<char>>, pattern: Option<seq<char>>, caseInsensitive: bool,
                 matches: (Regex, seq<char>) -> bool) returns (b: bool)
    ensures b == matches(Regex(Anchored(pattern.GetOr([])), caseInsensitive), input.GetOr([]))
  {
    var glob := GlobToRegex(if pattern.Some? then pattern.value else []);
    var text := if input.Some? then input.value else [];
    b := matches(Regex("^" + glob + "$", caseInsensitive), text);
  }

  /**
    The predicate that admits a string when it matches an include glob (or there are
    none) and matches no exclude glob.
   */
  method CreateMatcher(includes: Option<seq<seq<char>>>, excludes: Option<seq<seq<char>>>,
                       caseInsensitive: bool, matches: (Regex, seq<char>) -> bool)
    returns (matcher: seq<char> -> bool)
    ensures forall s :: matcher(s) == Admits(Compiled(includes, caseInsensitive), Compiled(excludes, caseInsensitive), matches, s)
  {
    var inc := CompilePatterns(includes, caseInsensitive);
    var exc := CompilePatterns(excludes, caseInsensitive);
    matcher := s =>
      var included := |inc| == 0 || Any(inc, rx => matches(rx, s));
      included && (|exc| == 0 || All(exc, rx => !matches(rx, s)));
  }

  /** The inputs the include and exclude globs admit, in their original order. */
  method Filter(inputs: seq<seq<char>>, includes: Option<seq<seq<char>>>, excludes: Option<seq<seq<char>>>,
                caseInsensitive: bool, matches: (Regex, seq<char>) -> bool)
    returns (r: seq<seq<char>>)
    ensures r == Filtered(inputs, Compiled(includes, caseInsensitive), Compiled(excludes, caseInsensitive), matches)
  {
    var list := inputs;
    var includeRegexes := CompilePatterns(includes, caseInsensitive);
    var excludeRegexes := CompilePatterns(excludes, caseInsensitive);
    ghost var admits := AdmittedBy(includeRegexes, excludeRegexes, matches);
    var included := s => Any(includeRegexes, rx => matches(rx, s));
    var kept := s => All(excludeRegexes, rx => !matches(rx, s));
    // with no include glob everything is permitted before the excludes
    var candidate := if |includeRegexes| == 0 then list else Where(list, included);
    if |excludeRegexes| > 0 {
      if |includeRegexes| > 0 {
        WhereWhere(list, included, kept, admits);
      } else {
        WhereAgree(list, kept, admits);
      }
      candidate := Where(candidate, kept);
    } else if |includeRegexes| > 0 {
      WhereAgree(list, included, admits);
    } else {
      WhereAll(list, admits);
    }
    r := candidate;
  }

  /**
    The anchored regexes of all non-blank comma-separated pieces of `patterns`, each
    trimmed; none for a null list.
   */
  method CompilePatterns(patterns: Option<seq<seq<char>>>, caseInsensitive: bool) returns (result: seq<Regex>)
    ensures result == Compiled(patterns, caseInsensitive)
  {
    result := [];
    if patterns.None? {
      return;
    }
    var pieces := SelectPieces(patterns.value);
    var m := 0;
    while m < |pieces|
      invariant 0 <= m <= |pieces|
      invariant result == CompiledPieces(pieces[..m], caseInsensitive)
    {
      var p := pieces[m];
      CompiledPiecesPrefix(pieces, m, caseInsensitive);
      if IsBlank(p) {
        m := m + 1;
        continue;
      }
      var body := GlobToRegex(Trim(p));
      result := result + [Regex("^" + body + "$", caseInsensitive)];
      m := m + 1;
    }
    assert pieces[..m] == pieces;
  }

  /** patterns.SelectMany(SplitByCommaOutsideBraces): the pieces of every pattern, in order. */
  method SelectPieces(patterns: seq<seq<char>>) returns (pieces: seq<seq<char>>)
    ensures pieces == Pieces(patterns)
  {
    pieces := [];
    var n := 0;
    while n < |patterns|
      invariant 0 <= n <= |patterns|
      invariant pieces == Pieces(patterns[..n])
    {
      var more := SplitByCommaOutsideBraces(patterns[n]);
      PiecesPrefix(patterns, n);
      pieces := pieces + more;
      n := n + 1;
    }
    assert patterns[..n] == patterns;
  }

  /** The index of the first unescaped `]` at or after `from`, or -1. */
  method FindClosingBracket(s: seq<char>, from: nat) returns (r: int)
    ensures r == ClosingBracket(s, from)
  {
    var i := from;
    while i < |s|
      invariant from <= i
      invariant ClosingBracket(s, i) == ClosingBracket(s, from)
      decreases |s| - i
    {
      if s[i] == '\\' {
        // the escaped character is skipped along with the backslash
        i := i + 2;
        continue;
      }
      if s[i] == ']' {
        return i;
      }
      i := i + 1;
    }
    return -1;
  }

  /** The index of the `}` that closes the brace opened just before `from`, or -1. */
  method FindClosingBrace(s: seq<char>, from: nat) returns (r: int)
    ensures r == ClosingBrace(s, from, 1)
  {
    var depth: nat := 1;
    var i := from;
    while i < |s|
      invariant from <= i && depth >= 1
      invariant ClosingBrace(s, i, depth) == ClosingBrace(s, from, 1)
      decreases |s| - i
    {
      if s[i] == '\\' {
        i := i + 2;
        continue;
      }
      if s[i] == '{' {
        depth := depth + 1;
      } else if s[i] == '}' {
        if depth == 1 {
          return i;
        }
        depth := depth - 1;
      }
      i := i + 1;
    }
    return -1;
  }

  /** The regex content of the class body `cls` and whether the class is negated. */
  method BuildRegexCharClass(cls: seq<char>) returns (content: seq<char>, negated: bool)
    ensures CharClass(content, negated) == CharClassOf(cls)
  {
    negated := false;
    if |cls| == 0 {
      return [], negated;
    }
    var i := 0;
    if cls[i] == '!' || cls[i] == '^' {
      negated := true;
      i := i + 1;
    }
    var sb: seq<char> := [];
    var havePrevChar := false;
    var prevChar := '\0';
    while i < |cls|
      invariant 0 <= i <= |cls|
      invariant negated == CharClassOf(cls).negated
      invariant sb + ClassBody(cls, i, havePrevChar, prevChar) == CharClassOf(cls).content
    {
      var emitted;
      ghost var sb0 := sb;
      emitted, i, havePrevChar, prevChar := ClassMember(cls, i, havePrevChar, prevChar);
      sb := sb + emitted;
      ConcatAssoc(sb0, emitted, ClassBody(cls, i, havePrevChar, prevChar));
    }
    content := sb;
  }

  /**
    One pass of the loop of BuildRegexCharClass at index `i`: the text it appends, where
    it resumes, and the new `havePrevChar` and `prevChar`.
   */
  method ClassMember(cls: seq<char>, i: nat, havePrevChar: bool, prevChar: char)
    returns (emitted: seq<char>, next: nat, havePrev: bool, prev: char)
    requires i < |cls|
    ensures i < next <= |cls|
    ensures ClassBody(cls, i, havePrevChar, prevChar) == emitted + ClassBody(cls, next, havePrev, prev)
  {
    var ch := cls[i];
    if ch == '\\' {
      emitted, next, havePrev, prev := ClassEscapeAt(cls, i, havePrevChar, prevChar);
    } else if ch == '-' {
      emitted, next, havePrev, prev := ClassDashAt(cls, i, havePrevChar, prevChar);
    } else {
      ClassCharStep(cls, i, havePrevChar, prevChar);
      next := i + 1;
      // `]` and `^` are special in a regex class
      if ch == ']' || ch == '^' {
        emitted := ['\\', ch];
      } else {
        emitted := [ch];
      }
      havePrev, prev := true, ch;
    }
  }

  /** A backslash in a class body: the next character as a literal, or a trailing
      backslash. Either one can start a range. */
  method ClassEscapeAt(cls: seq<char>, i: nat, havePrevChar: bool, prevChar: char)
    returns (emitted: seq<char>, next: nat, havePrev: bool, prev: char)
    requires i < |cls| && cls[i] == '\\'
    ensures i < next <= |cls|
    ensures ClassBody(cls, i, havePrevChar, prevChar) == emitted + ClassBody(cls, next, havePrev, prev)
  {
    next := i + 1;
    if next < |cls| {
      var lit := cls[next];
      next := next + 1;
      ClassEscapeStep(cls, i, havePrevChar, prevChar);
      emitted := [];
      if EscapedInClass(lit) {
        emitted := emitted + ['\\'];
      }
      emitted := emitted + [lit];
      havePrev, prev := true, lit;
    } else {
      // trailing backslash
      ClassTrailingStep(cls, i, havePrevChar, prevChar);
      emitted := ['\\', '\\'];
      havePrev, prev := true, '\\';
    }
  }

  /** A `-` in a class body: a range separator when a member precedes it, it is not last,
      the next character is not `]` and the range is not reversed; a literal otherwise. */
  method ClassDashAt(cls: seq<char>, i: nat, havePrevChar: bool, prevChar: char)
    returns (emitted: seq<char>, next: nat, havePrev: bool, prev: char)
    requires i < |cls| && cls[i] == '-'
    ensures i < next <= |cls|
    ensures ClassBody(cls, i, havePrevChar, prevChar) == emitted + ClassBody(cls, next, havePrev, prev)
  {
    ClassDashStep(cls, i, havePrevChar, prevChar);
    next := i + 1;
    var canBeRange := havePrevChar && next < |cls| && cls[next] != ']';
    if canBeRange {
      var j := next;
      var peek := if j < |cls| && cls[j] == '\\' && j + 1 < |cls| then cls[j + 1] else cls[j];
      if prevChar <= peek {
        // a range separator; the range is consumed
        emitted := ['-'];
        havePrev, prev := false, prevChar;
        return;
      }
      emitted := ['\\', '-'];
      havePrev, prev := true, '-';
    } else {
      emitted := ['\\', '-'];
      havePrev, prev := true, '-';
    }
  }

  /** The pieces of `input` between commas that are outside every `{...}`. */
  method SplitByCommaOutsideBraces(input: seq<char>) returns (pieces: seq<seq<char>>)
    ensures pieces == SplitPatterns(input)
  {
    pieces := [];
    if |input| == 0 {
      return;
    }
    var sb: seq<char> := [];
    var depth: nat := 0;
    var i := 0;
    while i < |input|
      invariant 0 <= i <= |input|
      invariant pieces + SplitPieces(input[i..], depth, sb) == SplitPatterns(input)
    {
      ghost var rest, depth0, pieces0, sb0 := input[i..], depth, pieces, sb;
      assert rest[1..] == input[i + 1..];
      var ch := input[i];
      if ch == '\\' {
        if i + 1 < |input| {
          assert rest[2..] == input[i + 2..];
          sb := sb + ['\\', input[i + 1]];
          i := i + 1;
        } else {
          sb := sb + ['\\'];
        }
        i := i + 1;
        assert SplitPieces(rest, depth0, sb0) == SplitPieces(input[i..], depth, sb);
        continue;
      }
      if ch == '{' {
        depth := depth + 1;
        sb := sb + [ch];
        assert SplitPieces(rest, depth0, sb0) == SplitPieces(rest[1..], depth, sb);
      } else if ch == '}' {
        depth := if depth > 0 then depth - 1 else 0;  // the depth never drops below 0
        sb := sb + [ch];
        assert SplitPieces(rest, depth0, sb0) == SplitPieces(rest[1..], depth, sb);
      } else if ch == ',' && depth == 0 {
        pieces := pieces + [sb];
        sb := [];
        assert SplitPieces(rest, depth0, sb0) == [sb0] + SplitPieces(rest[1..], depth, sb);
        ConcatAssoc(pieces0, [sb0], SplitPieces(rest[1..], depth, sb));
      } else {
        sb := sb + [ch];
        assert SplitPieces(rest, depth0, sb0) == SplitPieces(rest[1..], depth, sb);
      }
      i := i + 1;
    }
    if |sb| > 0 {
      pieces := pieces + [sb];
    }
  }

  /**
    The regex for the glob `pattern`, without anchors: `*` runs, `?`, classes, brace
    alternations and escapes are translated, and everything else is copied literally.
   */
  method GlobToRegex(pattern: seq<char>) returns (regex: seq<char>)
    ensures regex == Translate(pattern)
    decreases |pattern|, 2
  {
    var sb: seq<char> := [];
    var i := 0;
    while i < |pattern|
      invariant 0 <= i <= |pattern|
      invariant sb + Translate(pattern[i..]) == Translate(pattern)
    {
      ghost var sb0 := sb;
      var emitted;
      emitted, i := TranslateCase(pattern, i);
      sb := sb + emitted;
      ConcatAssoc(sb0, emitted, Translate(pattern[i..]));
    }
    regex := sb;
  }

  /** One case of the switch of GlobToRegex at index `i`: the text it appends and where
      it resumes. */
  method TranslateCase(pattern: seq<char>, i: nat) returns (emitted: seq<char>, next: nat)
    requires i < |pattern|
    ensures i < next <= |pattern|
    ensures Translate(pattern[i..]) == emitted + Translate(pattern[next..])
    decreases |pattern|, 1
  {
    var c := pattern[i];
    if c == '\\' {
      emitted, next := EscapeAt(pattern, i);
    } else if c == '*' {
      emitted, next := StarsAt(pattern, i);
    } else if c == '[' {
      emitted, next := BracketAt(pattern, i);
    } else if c == '{' {
      emitted, next := BraceAt(pattern, i);
    } else {
      emitted, next := CharAt(pattern, i);
    }
  }

  /** The `\\` case of GlobToRegex at index `i`. */
  method EscapeAt(pattern: seq<char>, i: nat) returns (emitted: seq<char>, next: nat)
    requires i < |pattern| && pattern[i] == '\\'
    ensures i < next <= |pattern|
    ensures Translate(pattern[i..]) == emitted + Translate(pattern[next..])
  {
    TranslateAtEscape(pattern, i);
    if i + 1 < |pattern| {
      var lit := pattern[i + 1];
      emitted := [];
      if EscapedAfterBackslash(lit) {
        emitted := emitted + ['\\'];
      }
      emitted := emitted + [lit];
      next := i + 2;
      assert emitted == EscapedLiteral(lit);
    } else {
      // trailing backslash: a literal backslash
      emitted, next := ['\\', '\\'], i + 1;
    }
  }

  /** The `*` case of GlobToRegex at index `i`: a run of consecutive stars is one wildcard. */
  method StarsAt(pattern: seq<char>, i: nat) returns (emitted: seq<char>, next: nat)
    requires i < |pattern| && pattern[i] == '*'
    ensures i < next <= |pattern|
    ensures Translate(pattern[i..]) == emitted + Translate(pattern[next..])
  {
    next := i;
    while next < |pattern| && pattern[next] == '*'
      invariant i <= next <= |pattern|
      invariant StarRun(pattern[i..]) == (next - i) + StarRun(pattern[next..])
    {
      assert pattern[next..][1..] == pattern[next + 1..];
      next := next + 1;
    }
    assert StarRun(pattern[next..]) == 0;
    TranslateAtStars(pattern, i, next);
    emitted := ".*";
  }

  /** The remaining cases of GlobToRegex at index `i`: `?`, the characters quoted for the
      regex, and the characters copied as they are. */
  method CharAt(pattern: seq<char>, i: nat) returns (emitted: seq<char>, next: nat)
    requires i < |pattern| && pattern[i] != '\\' && pattern[i] != '*' && pattern[i] != '[' && pattern[i] != '{'
    ensures next == i + 1
    ensures Translate(pattern[i..]) == emitted + Translate(pattern[next..])
  {
    var c := pattern[i];
    TranslateAtChar(pattern, i);
    next := i + 1;
    if c == '?' {
      emitted := ".";
    } else if c == '.' || c == '+' || c == '(' || c == ')' || c == '^' || c == '$' || c == '|' {
      emitted := ['\\', c];
    } else if c == '}' || c == ']' {
      emitted := ['\\', c];
    } else {
      emitted := [c];
    }
  }

  /** The `[` case of GlobToRegex at index `i`: the text it appends and where it resumes. */
  method BracketAt(pattern: seq<char>, i: nat) returns (emitted: seq<char>, next: nat)
    requires i < |pattern| && pattern[i] == '['
    ensures i < next <= |pattern|
    ensures Translate(pattern[i..]) == emitted + Translate(pattern[next..])
  {
    var end := FindClosingBracket(pattern, i + 1);
    if end > i {
      var cls := ClassAt(pattern[i + 1..end]);
      BracketStep(pattern, i, end, cls);
      if cls != [] {
        return cls, end + 1;
      }
    } else {
      BracketStep(pattern, i, end, []);
    }
    emitted, next := "\\[", i + 1;
  }

  /**
    The regex class the `[` case emits for the body `raw` between the brackets, or
    nothing when the `[` is to be a literal: a body that is empty or `!`, or one whose
    content is empty.
   */
  method ClassAt(raw: seq<char>) returns (cls: seq<char>)
    ensures cls != [] <==> ClassUsable(raw)
    ensures cls != [] ==> cls == ClassRegex(raw)
  {
    if |raw| == 0 || raw == "!" {
      return [];
    }
    var content, neg := BuildRegexCharClass(raw);
    if |content| == 0 {
      return [];
    }
    cls := "[";
    if neg {
      cls := cls + "^";
    }
    cls := cls + content + "]";
  }

  /** The `{` case of GlobToRegex at index `i`: the text it appends and where it resumes. */
  method BraceAt(pattern: seq<char>, i: nat) returns (emitted: seq<char>, next: nat)
    requires i < |pattern| && pattern[i] == '{'
    ensures i < next <= |pattern|
    ensures Translate(pattern[i..]) == emitted + Translate(pattern[next..])
    decreases |pattern|, 0
  {
    var endBrace := FindClosingBrace(pattern, i + 1);
    TranslateAtBrace(pattern, i, endBrace);
    if endBrace > i {
      var inner := pattern[i + 1..endBrace];
      var alternation := TranslateAlternatives(inner);
      emitted := "(?:" + alternation + ")";
      next := endBrace + 1;
    } else {
      // no matching brace: a literal '{'
      emitted, next := "\\{", i + 1;
    }
  }

  /** The alternatives of a brace body, each translated by GlobToRegex, joined by `|`. */
  method TranslateAlternatives(inner: seq<char>) returns (alternation: seq<char>)
    ensures alternation == Alternation(inner)
    decreases |inner|, 3
  {
    var alts := SplitByCommaOutsideBraces(inner);
    ghost var all := seq(|alts|, j requires 0 <= j < |alts| => Translate(alts[j]));
    var translated: seq<seq<char>> := [];
    var k := 0;
    while k < |alts|
      invariant 0 <= k <= |alts|
      invariant translated == all[..k]
    {
      var alt := GlobToRegex(alts[k]);
      assert all[..k + 1] == all[..k] + [alt];
      translated := translated + [alt];
      k := k + 1;
    }
    assert translated == all;
    alternation := Join(translated, '|');
  }
}
