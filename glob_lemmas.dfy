/**
  Properties of the glob translation and of the pattern splitter, stated on the
  functions of module GlobSpec (which the methods of VersionGlobber are proved to
  compute).
 */
module GlobLemmas {
  import opened Strings
  import opened GlobSpec

  /** `n` stars. */
  function Stars(n: nat): (r: seq<char>)
    ensures |r| == n
    ensures forall k :: 0 <= k < n ==> r[k] == '*'
  {
    seq(n, _ => '*')
  }

  /** A run of one or more `*` becomes a single `.*`, and a `?` becomes `.`; the rest of
      the glob is translated on its own. */
  lemma WildcardTranslation(n: nat, t: seq<char>)
    requires n >= 1
    requires t == [] || t[0] != '*'
    ensures Translate(Stars(n) + t) == ".*" + Translate(t)
    ensures Translate(['?'] + t) == "." + Translate(t)
  {
    var s := Stars(n) + t;
    assert n < |s| ==> s[n] == t[0];
    assert StarRun(s) == n;
    assert s[n..] == t;
    assert (['?'] + t)[1..] == t;
  }

  /** The content of a class is empty exactly for the bodies ``, `!` and `^`. */
  lemma ClassContentEmpty(cls: seq<char>)
    ensures CharClassOf(cls).content == [] <==> cls == [] || cls == "!" || cls == "^"
  {
    if |cls| == 1 && (cls[0] == '!' || cls[0] == '^') {
      assert cls == "!" || cls == "^";
    }
  }

  /** A `[` becomes the literal `\[`, and translation goes on right after it, exactly when
      it has no unescaped closing `]` or its body is ``, `!` or `^`. Otherwise it becomes a
      regex class and translation goes on after the `]`. */
  lemma BracketFallback(s: seq<char>)
    requires s != [] && s[0] == '['
    ensures var e := ClosingBracket(s, 1);
      Translate(s) == "\\[" + Translate(s[1..]) <==>
        e < 0 || s[1..e] == [] || s[1..e] == "!" || s[1..e] == "^"
    ensures var e := ClosingBracket(s, 1);
      e > 0 && s[1..e] != [] && s[1..e] != "!" && s[1..e] != "^" ==>
        Translate(s) == ClassRegex(s[1..e]) + Translate(s[e + 1..])
  {
    var e := ClosingBracket(s, 1);
    TranslateAtBracket(s, 0, e);
    assert s[0..] == s;
    if e > 0 {
      ClassContentEmpty(s[1..e]);
      if s[1..e] != [] && s[1..e] != "!" && s[1..e] != "^" {
        assert Translate(s)[0] == '[';
      }
    }
  }

  /** A `{` becomes the literal `\{` exactly when no `}` closes it at the same depth;
      otherwise it becomes a non-capturing group of the translated alternatives. */
  lemma BraceFallback(s: seq<char>)
    requires s != [] && s[0] == '{'
    ensures Translate(s) == "\\{" + Translate(s[1..]) <==> ClosingBrace(s, 1, 1) < 0
  {
    var e := ClosingBrace(s, 1, 1);
    TranslateAtBrace(s, 0, e);
    assert s[0..] == s;
    if e > 0 {
      assert Translate(s)[0] == '(';
    }
  }

  /** A glob made only of characters that are special neither to globs nor to regexes
      translates to itself. */
  lemma {:induction false} LiteralPassThrough(s: seq<char>)
    requires forall k :: 0 <= k < |s| ==> !GlobMeta(s[k]) && !RegexOnlyMeta(s[k])
    ensures Translate(s) == s
    decreases |s|
  {
    if s != [] {
      LiteralPassThrough(s[1..]);
    }
  }

  /** A prefix made only of characters that are special neither to globs nor to regexes
      is copied, and the rest is translated on its own. */
  lemma {:induction false} LiteralPrefix(a: seq<char>, t: seq<char>)
    requires forall k :: 0 <= k < |a| ==> !GlobMeta(a[k]) && !RegexOnlyMeta(a[k])
    ensures Translate(a + t) == a + Translate(t)
    decreases |a|
  {
    if a != [] {
      LiteralPrefix(a[1..], t);
      assert (a + t)[1..] == a[1..] + t;
      assert [a[0]] + a[1..] == a;
    } else {
      assert a + t == t;
    }
  }

  /** `s` with every regex metacharacter and backslash escaped by a backslash. */
  function Quote(s: seq<char>): (r: seq<char>)
    ensures |s| <= |r| <= 2 * |s|
    decreases |s|
  {
    if s == [] then []
    else EscapedLiteral(s[0]) + Quote(s[1..])
  }

  /** Any text can be written as a glob that matches only itself: quoting it with
      backslashes gives a glob whose regex is the same quoted text, in which every
      metacharacter is escaped. */
  lemma {:induction false} QuotedGlobIsQuotedRegex(s: seq<char>)
    ensures Translate(Quote(s)) == Quote(s)
    decreases |s|
  {
    if s != [] {
      var q := Quote(s);
      var rest := Quote(s[1..]);
      QuotedGlobIsQuotedRegex(s[1..]);
      if EscapedAfterBackslash(s[0]) {
        assert q[2..] == rest;
      } else {
        assert q[1..] == rest;
      }
    }
  }

  /** Every translation of a non-empty glob is non-empty. */
  lemma TranslateNonEmpty(s: seq<char>)
    ensures Translate(s) == [] <==> s == []
  {
    if s != [] {
      var c := s[0];
      if c == '[' {
        assert TranslateBracket(s) != [];
      } else if c == '{' {
        assert TranslateBrace(s) != [];
      }
    }
  }

  /** The content of a class is a sequence of tokens that keep the class open: a
      backslash with one of `\ ] ^ -` after it, or a single character other than a
      backslash, `]` and `^`. So the content never closes the class early, never ends in
      a dangling backslash and never starts with a negating `^`. */
  predicate ClassTokens(r: seq<char>)
    decreases |r|
  {
    if r == [] then true
    else if r[0] == '\\' then |r| >= 2 && EscapedInClass(r[1]) && ClassTokens(r[2..])
    else r[0] != ']' && r[0] != '^' && ClassTokens(r[1..])
  }

  lemma ClassTokensAppend(a: seq<char>, b: seq<char>)
    requires |a| == 1 || (|a| == 2 && a[0] == '\\')
    requires ClassTokens(a) && ClassTokens(b)
    ensures ClassTokens(a + b)
  {
    if |a| == 2 {
      assert (a + b)[2..] == b;
    } else {
      assert (a + b)[1..] == b;
    }
  }

  lemma {:induction false} ClassBodyTokens(cls: seq<char>, i: nat, havePrev: bool, prev: char)
    ensures ClassTokens(ClassBody(cls, i, havePrev, prev))
    decreases |cls| - i
  {
    if i < |cls| {
      var ch := cls[i];
      if ch == '\\' {
        if i + 1 < |cls| {
          var lit := cls[i + 1];
          ClassBodyTokens(cls, i + 2, true, lit);
          var t := if EscapedInClass(lit) then ['\\', lit] else [lit];
          if |t| == 2 { assert t[2..] == []; } else { assert t[1..] == []; }
          ClassTokensAppend(t, ClassBody(cls, i + 2, true, lit));
        } else {
          ClassBodyTokens(cls, i + 1, true, '\\');
          ClassTokensAppend(['\\', '\\'], ClassBody(cls, i + 1, true, '\\'));
        }
      } else if ch == '-' {
        ClassBodyTokens(cls, i + 1, false, prev);
        ClassBodyTokens(cls, i + 1, true, '-');
        ClassTokensAppend(['-'], ClassBody(cls, i + 1, false, prev));
        ClassTokensAppend(['\\', '-'], ClassBody(cls, i + 1, true, '-'));
      } else {
        ClassBodyTokens(cls, i + 1, true, ch);
        var t := if ch == ']' || ch == '^' then ['\\', ch] else [ch];
        if |t| == 2 { assert t[2..] == []; } else { assert t[1..] == []; }
        ClassTokensAppend(t, ClassBody(cls, i + 1, true, ch));
      }
    }
  }

  /** The content BuildRegexCharClass produces is made of class tokens. */
  lemma CharClassWellFormed(cls: seq<char>)
    ensures ClassTokens(CharClassOf(cls).content)
  {
    if cls != [] {
      ClassBodyTokens(cls, 0, false, '\0');
      ClassBodyTokens(cls, 1, false, '\0');
    }
  }

  /** The next depth after `ch` in the splitter: `{` opens, `}` closes but never below 0. */
  function NextDepth(ch: char, depth: nat): nat
  {
    if ch == '{' then depth + 1 else if ch == '}' then (if depth == 0 then 0 else depth - 1) else depth
  }

  /**
    One step of the splitter that does not end a piece: a backslash pair, a brace or a
    plain character moves from the input to the pending piece, which is then not empty.
   */
  lemma SplitPiecesStep(s: seq<char>, depth: nat, cur: seq<char>) returns (s2: seq<char>, d2: nat, cur2: seq<char>)
    requires s != [] && !(s[0] == ',' && depth == 0)
    ensures |s2| < |s| && s2 == s[|s| - |s2|..]
    ensures cur2 != [] && cur2 + s2 == cur + s
    ensures SplitPieces(s, depth, cur) == SplitPieces(s2, d2, cur2)
  {
    if s[0] == '\\' && |s| > 1 {
      s2, d2, cur2 := s[2..], depth, cur + ['\\', s[1]];
      assert s == [s[0], s[1]] + s2;
    } else {
      s2, d2, cur2 := s[1..], NextDepth(s[0], depth), cur + [s[0]];
      assert s == [s[0]] + s2;
    }
  }

  /** There are no pieces exactly when there is nothing pending and nothing left. */
  lemma {:induction false} SplitPiecesEmpty(s: seq<char>, depth: nat, cur: seq<char>)
    ensures SplitPieces(s, depth, cur) == [] <==> cur + s == []
    decreases |s|
  {
    if s != [] && !(s[0] == ',' && depth == 0) {
      var s2, d2, cur2 := SplitPiecesStep(s, depth, cur);
      SplitPiecesEmpty(s2, d2, cur2);
    }
  }

  /** `x` is the pieces `r` joined by commas, with or without one more comma. */
  predicate JoinedUpToComma(x: seq<char>, r: seq<seq<char>>)
  {
    x == Join(r, ',') || x == Join(r, ',') + [',']
  }

  /** A piece ended by the comma that starts `s`, in front of pieces that join to the
      rest of `s`. */
  lemma JoinCommaStep(cur: seq<char>, s: seq<char>, rest: seq<seq<char>>)
    requires s != [] && s[0] == ','
    requires JoinedUpToComma(s[1..], rest) && (rest == [] <==> s[1..] == [])
    ensures JoinedUpToComma(cur + s, [cur] + rest)
  {
    var t := s[1..];
    assert cur + s == cur + [','] + t;
    var r := [cur] + rest;
    if rest == [] {
      assert cur + s == Join(r, ',') + [','];
    } else {
      assert r[1..] == rest;
      assert Join(r, ',') == cur + [','] + Join(rest, ',');
      if t == Join(rest, ',') {
        assert cur + s == Join(r, ',');
      } else {
        assert cur + s == Join(r, ',') + [','];
      }
    }
  }

  /** The comma case of SplitPiecesJoin: the pending piece ends at a top-level comma. */
  lemma SplitPiecesJoinComma(s: seq<char>, cur: seq<char>)
    requires s != [] && s[0] == ','
    requires JoinedUpToComma(s[1..], SplitPieces(s[1..], 0, []))
    ensures JoinedUpToComma(cur + s, SplitPieces(s, 0, cur))
  {
    var rest := SplitPieces(s[1..], 0, []);
    assert SplitPieces(s, 0, cur) == [cur] + rest;
    SplitPiecesEmpty(s[1..], 0, []);
    assert [] + s[1..] == s[1..];
    JoinCommaStep(cur, s, rest);
  }

  /** Joining the pieces with commas gives back the pending piece and the input, up to
      one trailing comma (a last piece is kept only when it is not empty). */
  lemma {:induction false} SplitPiecesJoin(s: seq<char>, depth: nat, cur: seq<char>)
    ensures JoinedUpToComma(cur + s, SplitPieces(s, depth, cur))
    decreases |s|
  {
    if s == [] {
      assert cur + s == cur;
    } else if s[0] == ',' && depth == 0 {
      SplitPiecesJoin(s[1..], 0, []);
      assert [] + s[1..] == s[1..];
      SplitPiecesJoinComma(s, cur);
    } else {
      var s2, d2, cur2 := SplitPiecesStep(s, depth, cur);
      SplitPiecesJoin(s2, d2, cur2);
    }
  }

  /** SplitByCommaOutsideBraces loses nothing but a trailing comma: the input is the
      pieces joined by commas, with or without one more comma. */
  lemma SplitPatternsJoin(s: seq<char>)
    ensures s == Join(SplitPatterns(s), ',') || s == Join(SplitPatterns(s), ',') + [',']
    ensures SplitPatterns(s) == [] <==> s == []
  {
    if s != [] {
      SplitPiecesJoin(s, 0, []);
      SplitPiecesEmpty(s, 0, []);
      assert JoinedUpToComma([] + s, SplitPatterns(s));
      assert [] + s == s;
    }
  }

  /** The last piece is empty only when the input ends with a comma: the empty piece
      after a trailing comma is never yielded. */
  lemma {:induction false} SplitPiecesLast(s: seq<char>, depth: nat, cur: seq<char>)
    ensures var r := SplitPieces(s, depth, cur);
      r != [] && r[|r| - 1] == [] ==> s != [] && s[|s| - 1] == ','
    decreases |s|
  {
    if s == [] {
    } else if s[0] == ',' && depth == 0 {
      SplitPiecesLast(s[1..], 0, []);
      SplitPiecesEmpty(s[1..], 0, []);
      assert SplitPieces(s, depth, cur) == [cur] + SplitPieces(s[1..], 0, []);
    } else {
      var s2, d2, cur2 := SplitPiecesStep(s, depth, cur);
      SplitPiecesLast(s2, d2, cur2);
      if s2 == [] {
        assert SplitPieces(s2, d2, cur2) == [cur2];
      } else {
        assert s2[|s2| - 1] == s[|s| - 1];
      }
    }
  }

  /** No trailing empty piece: the last piece is empty only after a trailing comma. */
  lemma SplitPatternsLast(s: seq<char>)
    ensures var r := SplitPatterns(s);
      r != [] && r[|r| - 1] == [] ==> s[|s| - 1] == ','
  {
    SplitPiecesLast(s, 0, []);
  }

  /** Without a comma there is nothing to split: the pending piece and the rest of the
      input make one piece. */
  lemma {:induction false} SplitPiecesNoComma(s: seq<char>, depth: nat, cur: seq<char>)
    requires forall k :: 0 <= k < |s| ==> s[k] != ','
    ensures SplitPieces(s, depth, cur) == if cur + s == [] then [] else [cur + s]
    decreases |s|
  {
    if s == [] {
      assert cur + s == cur;
    } else {
      var s2, d2, cur2 := SplitPiecesStep(s, depth, cur);
      forall k | 0 <= k < |s2|
        ensures s2[k] != ','
      {
        assert s2[k] == s[|s| - |s2| + k];
      }
      SplitPiecesNoComma(s2, d2, cur2);
    }
  }

  /** A non-empty pattern without commas is one piece. */
  lemma SplitPatternsNoComma(s: seq<char>)
    requires s != [] && forall k :: 0 <= k < |s| ==> s[k] != ','
    ensures SplitPatterns(s) == [s]
  {
    SplitPiecesNoComma(s, 0, []);
    assert [] + s == s;
  }

  /**
    A range whose upper end is `[`: the class body `+-[` keeps its `[` unescaped, so the
    regex text holds `-[`, which the .NET parser reads as the start of a class subtraction
    and rejects when it is not closed.
   */
  lemma RangeToBracket()
    ensures Translate("[+-[]") == "[+-[]"
  {
    var s := "[+-[]";
    assert ClosingBracket(s, 4) == 4;
    assert ClosingBracket(s, 1) == 4;
    assert s[1..4] == "+-[";
    assert ClassBody("+-[", 2, false, '\0') == "[";
    assert ClassBody("+-[", 0, false, '\0') == "+-[";
    assert s[5..] == [];
  }

  /** Splitting `{a,b},c`: a comma inside braces does not split. */
  lemma SplitExampleBraces()
    ensures SplitPatterns("{a,b},c") == ["{a,b}", "c"]
  {
    assert [] + ['{'] == "{";
    assert "{a,b},c"[1..] == "a,b},c";
    SplitExampleBracesInside();
    SplitExampleBracesAfter();
  }

  /** Inside `{a,b}` the comma is kept in the pending piece. */
  lemma SplitExampleBracesInside()
    ensures SplitPieces("a,b},c", 1, "{") == SplitPieces(",c", 0, "{a,b}")
  {
    assert "{" + ['a'] == "{a";
    assert "a,b},c"[1..] == ",b},c";
    assert "{a" + [','] == "{a,";
    assert ",b},c"[1..] == "b},c";
    assert "{a," + ['b'] == "{a,b";
    assert "b},c"[1..] == "},c";
    assert "{a,b" + ['}'] == "{a,b}";
    assert "},c"[1..] == ",c";
  }

  /** After `{a,b}` the comma is at depth 0 and ends the piece. */
  lemma SplitExampleBracesAfter()
    ensures SplitPieces(",c", 0, "{a,b}") == ["{a,b}", "c"]
  {
    assert ",c"[1..] == "c";
    assert [] + ['c'] == "c";
    assert "c"[1..] == [];
    assert SplitPieces("c", 0, []) == ["c"];
  }

  /** Splitting `a,,b,`: an empty piece between commas is kept, the one after a trailing comma is not. */
  lemma SplitExampleEmpty()
    ensures SplitPatterns("a,,b,") == ["a", [], "b"]
  {
    assert [] + ['a'] == "a";
    assert "a,,b,"[1..] == ",,b,";
    assert ",,b,"[1..] == ",b,";
    assert ",b,"[1..] == "b,";
    assert [] + ['b'] == "b";
    assert "b,"[1..] == ",";
    assert ","[1..] == [];
    assert SplitPieces(",", 0, "b") == ["b"];
    assert SplitPieces("b,", 0, []) == ["b"];
    assert SplitPieces(",b,", 0, []) == [[], "b"];
    assert SplitPieces(",,b,", 0, "a") == ["a", [], "b"];
  }

  /** Splitting `1,2` gives its two digits. */
  lemma SplitExampleSimple()
    ensures SplitPatterns("1,2") == ["1", "2"]
  {
    assert "1,2"[1..] == ",2";
    assert ",2"[1..] == "2";
    assert "2"[1..] == [];
    assert [] + ['1'] == "1";
    assert [] + ['2'] == "2";
  }

  /** Class bodies with ranges: a range, a negated range, and a reversed range, whose
      `-` is literal. */
  lemma ClassRangeExamples()
    ensures CharClassOf("1-3") == CharClass("1-3", false)
    ensures CharClassOf("!1-3") == CharClass("1-3", true)
    ensures CharClassOf("3-1") == CharClass("3\\-1", false)
  {
  }

  /** Class bodies without a range: a `-` at either end is literal, and a lone `^`
      negates an empty class. */
  lemma ClassDashExamples()
    ensures CharClassOf("a-") == CharClass("a\\-", false)
    ensures CharClassOf("-a") == CharClass("\\-a", false)
    ensures CharClassOf("^") == CharClass([], true)
  {
  }

  /** The include pattern of the documented example: `test-*` is `test-.*`. */
  lemma TranslateExampleStar()
    ensures Translate("test-*") == "test-.*"
  {
    var lit, star := "test-", "*";
    assert star == Stars(1);
    WildcardTranslation(1, []);
    assert star + [] == star;
    LiteralPrefix(lit, star);
    assert lit + star == "test-*";
  }

  /** An empty class is no class: `[]` is the two literal brackets. */
  lemma TranslateExampleEmptyClass()
    ensures Translate("[]") == "\\[\\]"
  {
    var p := "[]";
    assert ClosingBracket(p, 1) == 1;
    TranslateAtBracket(p, 0, 1);
    assert p[2..] == [];
    TranslateAtChar(p, 1);
    assert p[0..] == p;
  }

  /** A negated range class: `[!0-9]` is `[^0-9]`. */
  lemma TranslateExampleClass()
    ensures Translate("[!0-9]") == "[^0-9]"
  {
    var p := "[!0-9]";
    assert ClosingBracket(p, 1) == 5;
    TranslateAtBracket(p, 0, 5);
    assert p[1..5] == "!0-9";
    assert CharClassOf("!0-9") == CharClass("0-9", true);
    assert p[6..] == [];
    assert p[0..] == p;
  }

  /** The alternatives `1,2` are translated one by one and joined: `1|2`. */
  lemma AlternationExample()
    ensures Alternation("1,2") == "1|2"
  {
    SplitExampleSimple();
    var alts := SplitPatterns("1,2");
    LiteralPassThrough("1");
    LiteralPassThrough("2");
    assert seq(|alts|, k requires 0 <= k < |alts| => Translate(alts[k])) == ["1", "2"];
    assert Join(["1", "2"], '|') == "1|2";
  }

  /** The `}` that closes `{1,2}` is its last character. */
  lemma ClosingBraceExample()
    ensures ClosingBrace("{1,2}", 1, 1) == 4
  {
    var p := "{1,2}";
    assert ClosingBrace(p, 3, 1) == 4;
  }

  /** An alternation: `{1,2}` is `(?:1|2)`. */
  lemma TranslateExampleBraces()
    ensures Translate("{1,2}") == "(?:1|2)"
  {
    var p := "{1,2}";
    ClosingBraceExample();
    TranslateAtBrace(p, 0, 4);
    assert p[1..4] == "1,2";
    assert p[5..] == [];
    assert p[0..] == p;
    AlternationExample();
  }
}
