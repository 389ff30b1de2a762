/**
  Properties of CompilePatterns, CreateMatcher, Filter and IsMatch, stated on the
  functions of module MatchSpec that those methods are proved to compute.
 */
module MatchLemmas {
  import opened Wrappers
  import opened Strings
  import opened Enumerables
  import opened GlobSpec
  import opened GlobLemmas
  import opened MatchSpec

  /** The anchored regex of each glob of `globs`, trimmed, in order. */
  function AnchorAll(globs: seq<seq<char>>, ignoreCase: bool): (r: seq<Regex>)
    ensures |r| == |globs|
    ensures forall k :: 0 <= k < |globs| ==> r[k] == Regex(Anchored(Trim(globs[k])), ignoreCase)
  {
    seq(|globs|, k requires 0 <= k < |globs| => Regex(Anchored(Trim(globs[k])), ignoreCase))
  }

  /** AnchorAll over one more glob at the end. */
  lemma AnchorAllSnoc(globs: seq<seq<char>>, g: seq<char>, ignoreCase: bool)
    ensures AnchorAll(globs + [g], ignoreCase) == AnchorAll(globs, ignoreCase) + [Regex(Anchored(Trim(g)), ignoreCase)]
  {
    var l := AnchorAll(globs + [g], ignoreCase);
    var r := AnchorAll(globs, ignoreCase) + [Regex(Anchored(Trim(g)), ignoreCase)];
    forall k | 0 <= k < |l|
      ensures l[k] == r[k]
    {
      if k < |globs| {
        assert (globs + [g])[k] == globs[k];
      } else {
        assert (globs + [g])[k] == g;
      }
    }
  }

  /**
    CompilePatterns is "drop the blank pieces, then anchor the translation of each
    trimmed piece": one regex per non-blank piece, in order, all with the same options.
   */
  lemma {:induction false} CompiledPiecesAreFilterThenAnchor(pieces: seq<seq<char>>, ignoreCase: bool)
    ensures CompiledPieces(pieces, ignoreCase) == AnchorAll(Where(pieces, NotBlank), ignoreCase)
    decreases |pieces|
  {
    if pieces != [] {
      var init, last := pieces[..|pieces| - 1], pieces[|pieces| - 1];
      CompiledPiecesAreFilterThenAnchor(init, ignoreCase);
      FrontLast(pieces);
      WhereSnoc(init, last, NotBlank);
      var w := Where(init, NotBlank);
      if !IsBlank(last) {
        AnchorAllSnoc(w, last, ignoreCase);
      } else {
        assert w + [] == w;
      }
    }
  }

  /** Every compiled regex is the anchored translation of a trimmed non-blank piece,
      and carries the requested case option. */
  lemma CompiledShape(patterns: seq<seq<char>>, ignoreCase: bool)
    ensures forall k :: 0 <= k < |Compiled(Some(patterns), ignoreCase)| ==>
      var rx := Compiled(Some(patterns), ignoreCase)[k];
      rx.ignoreCase == ignoreCase
      && exists q :: q in Pieces(patterns) && !IsBlank(q) && rx.pattern == Anchored(Trim(q))
  {
    var pieces := Pieces(patterns);
    CompiledPiecesAreFilterThenAnchor(pieces, ignoreCase);
  }

  /** No regex at all exactly when every piece is blank (an empty include list admits
      everything). */
  lemma CompiledEmpty(patterns: seq<seq<char>>, ignoreCase: bool)
    ensures Compiled(Some(patterns), ignoreCase) == [] <==> forall q :: q in Pieces(patterns) ==> IsBlank(q)
  {
    var pieces := Pieces(patterns);
    CompiledPiecesAreFilterThenAnchor(pieces, ignoreCase);
    WhereCounts(pieces, NotBlank);
    if exists q :: q in pieces && !IsBlank(q) {
      var q :| q in pieces && !IsBlank(q);
      assert multiset(Where(pieces, NotBlank))[q] > 0;
    }
  }

  /** A non-blank pattern without commas compiles to the single anchored translation of
      its trimmed text. */
  lemma SinglePattern(p: seq<char>, ignoreCase: bool)
    requires !IsBlank(p) && forall k :: 0 <= k < |p| ==> p[k] != ','
    ensures Compiled(Some([p]), ignoreCase) == [Regex(Anchored(Trim(p)), ignoreCase)]
  {
    SplitPatternsNoComma(p);
    PiecesOfOne(p);
    CompiledPiecesOfOne(p, ignoreCase);
    assert CompiledPiece(p, ignoreCase) == [Regex(Anchored(Trim(p)), ignoreCase)];
  }

  /**
    For one trimmed, non-blank, comma-free glob and no exclude list, the matcher of
    CreateMatcher and IsMatch agree on every string.
   */
  lemma MatcherAgreesWithIsMatch(p: seq<char>, ignoreCase: bool, matches: (Regex, seq<char>) -> bool, s: seq<char>)
    requires !IsBlank(p) && Trim(p) == p && forall k :: 0 <= k < |p| ==> p[k] != ','
    ensures Admits(Compiled(Some([p]), ignoreCase), Compiled(None, ignoreCase), matches, s)
         == matches(Regex(Anchored(Some(p).GetOr([])), ignoreCase), Some(s).GetOr([]))
  {
    SinglePattern(p, ignoreCase);
  }

  /** A glob of lower-case letters and dashes compiles to itself anchored. */
  lemma LiteralGlob(p: seq<char>, ignoreCase: bool)
    requires p != [] && forall k :: 0 <= k < |p| ==> 'a' <= p[k] <= 'z' || p[k] == '-'
    ensures CompiledPiece(p, ignoreCase) == [Regex("^" + p + "$", ignoreCase)]
    ensures SplitPatterns(p) == [p]
  {
    assert !IsWhiteSpace(p[0]) && !IsWhiteSpace(p[|p| - 1]);
    TrimUnchanged(p);
    LiteralPassThrough(p);
    SplitPatternsNoComma(p);
  }

  /** Two globs of lower-case letters and dashes compile to themselves anchored. */
  lemma LiteralPair(a: seq<char>, b: seq<char>, ignoreCase: bool)
    requires a != [] && forall k :: 0 <= k < |a| ==> 'a' <= a[k] <= 'z' || a[k] == '-'
    requires b != [] && forall k :: 0 <= k < |b| ==> 'a' <= b[k] <= 'z' || b[k] == '-'
    ensures Compiled(Some([a, b]), ignoreCase) == [Regex("^" + a + "$", ignoreCase), Regex("^" + b + "$", ignoreCase)]
  {
    LiteralGlob(a, ignoreCase);
    LiteralGlob(b, ignoreCase);
    PiecesOfTwo(a, b);
    CompiledPiecesOfTwo(a, b, ignoreCase);
  }

  /** A pattern that is one piece gives that piece. */
  lemma PiecesOfOne(p: seq<char>)
    requires SplitPatterns(p) == [p]
    ensures Pieces([p]) == [p]
  {
    assert [p][..0] == [];
  }

  /** One piece compiles to its own regex, if any. */
  lemma CompiledPiecesOfOne(p: seq<char>, ignoreCase: bool)
    ensures CompiledPieces([p], ignoreCase) == CompiledPiece(p, ignoreCase)
  {
    assert [p][..0] == [];
  }

  /** Two patterns that are one piece each give those two pieces. */
  lemma PiecesOfTwo(a: seq<char>, b: seq<char>)
    requires SplitPatterns(a) == [a] && SplitPatterns(b) == [b]
    ensures Pieces([a, b]) == [a, b]
  {
    var ps := [a, b];
    assert ps[..1] == [a];
    assert Pieces([a]) == [a];
    assert ps[..|ps| - 1] == [a];
  }

  /** Two pieces compile to the regex of the first, then that of the second. */
  lemma CompiledPiecesOfTwo(a: seq<char>, b: seq<char>, ignoreCase: bool)
    ensures CompiledPieces([a, b], ignoreCase) == CompiledPiece(a, ignoreCase) + CompiledPiece(b, ignoreCase)
  {
    var ps := [a, b];
    assert ps[..1] == [a];
    assert CompiledPieces([a], ignoreCase) == CompiledPiece(a, ignoreCase);
    assert ps[..|ps| - 1] == [a];
  }

  /** A comma-free glob with no white space at its ends compiles to one anchored regex. */
  lemma TrimmedGlob(p: seq<char>, ignoreCase: bool)
    requires p != [] && !IsWhiteSpace(p[0]) && !IsWhiteSpace(p[|p| - 1])
    requires forall k :: 0 <= k < |p| ==> p[k] != ','
    ensures Compiled(Some([p]), ignoreCase) == [Regex("^" + Translate(p) + "$", ignoreCase)]
  {
    TrimUnchanged(p);
    SinglePattern(p, ignoreCase);
  }

  /** The include list of the documented CreateMatcher example. */
  lemma DocExampleInclude()
    ensures Compiled(Some(["test-*"]), true) == [Regex("^test-.*$", true)]
  {
    TrimmedGlob("test-*", true);
    TranslateExampleStar();
    assert "^" + "test-.*" + "$" == "^test-.*$";
  }

  /** The exclude list of the documented CreateMatcher example. */
  lemma DocExampleExclude()
    ensures Compiled(Some(["test-backup", "test-temp"]), true)
         == [Regex("^test-backup$", true), Regex("^test-temp$", true)]
  {
    calc {
      Compiled(Some(["test-backup", "test-temp"]), true);
      { LiteralPair("test-backup", "test-temp", true); }
      [Regex("^" + "test-backup" + "$", true), Regex("^" + "test-temp" + "$", true)];
      { assert "^" + "test-backup" + "$" == "^test-backup$";
        assert "^" + "test-temp" + "$" == "^test-temp$"; }
      [Regex("^test-backup$", true), Regex("^test-temp$", true)];
    }
  }

  /**
    The documented example: with `test-*` included and `test-backup`, `test-temp`
    excluded, `test-v1` is admitted and `test-backup` is not, for any engine that
    matches these anchored regexes as a regular-expression engine does.
   */
  lemma DocExampleMatcher(matches: (Regex, seq<char>) -> bool)
    requires matches(Regex("^test-.*$", true), "test-v1")
    requires !matches(Regex("^test-backup$", true), "test-v1") && !matches(Regex("^test-temp$", true), "test-v1")
    requires matches(Regex("^test-backup$", true), "test-backup")
    ensures Admits(Compiled(Some(["test-*"]), true), Compiled(Some(["test-backup", "test-temp"]), true), matches, "test-v1")
    ensures !Admits(Compiled(Some(["test-*"]), true), Compiled(Some(["test-backup", "test-temp"]), true), matches, "test-backup")
  {
    DocExampleInclude();
    DocExampleExclude();
    var exc := Compiled(Some(["test-backup", "test-temp"]), true);
    assert exc[0] == Regex("^test-backup$", true);
  }
}
