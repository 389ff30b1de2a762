/**
  What the pattern lists of VersionGlobber compile to, and which strings a compiled
  include/exclude pair admits. The regular-expression engine itself is a parameter
  `matches`: it decides whether a compiled expression matches a string.
 */
module MatchSpec {
  import opened Wrappers
  import opened Strings
  import opened Enumerables
  import opened GlobSpec

  /** A compiled System.Text.RegularExpressions.Regex: its pattern text and whether it
      was built with RegexOptions.IgnoreCase. */
  datatype Regex = Regex(pattern: seq<char>, ignoreCase: bool)

  /** The regex text for a whole glob: its translation anchored at both ends. */
  function Anchored(glob: seq<char>): seq<char>
  {
    "^" + Translate(glob) + "$"
  }

  /** `p` is not blank: CompilePatterns keeps it. */
  predicate NotBlank(p: seq<char>)
  {
    !IsBlank(p)
  }

  /** patterns.SelectMany(SplitByCommaOutsideBraces): every piece of every pattern, in order. */
  function Pieces(patterns: seq<seq<char>>): seq<seq<char>>
    decreases |patterns|
  {
    if patterns == [] then []
    else Pieces(patterns[..|patterns| - 1]) + SplitPatterns(patterns[|patterns| - 1])
  }

  /** The regex CompilePatterns adds for one piece: none for a blank piece. */
  function CompiledPiece(p: seq<char>, ignoreCase: bool): seq<Regex>
  {
    if IsBlank(p) then [] else [Regex(Anchored(Trim(p)), ignoreCase)]
  }

  /** The regexes CompilePatterns adds for the pieces `pieces`, in order. */
  function CompiledPieces(pieces: seq<seq<char>>, ignoreCase: bool): seq<Regex>
    decreases |pieces|
  {
    if pieces == [] then []
    else CompiledPieces(pieces[..|pieces| - 1], ignoreCase) + CompiledPiece(pieces[|pieces| - 1], ignoreCase)
  }

  /** One more pattern adds its pieces at the end. */
  lemma PiecesPrefix(patterns: seq<seq<char>>, n: nat)
    requires n < |patterns|
    ensures Pieces(patterns[..n + 1]) == Pieces(patterns[..n]) + SplitPatterns(patterns[n])
  {
    assert patterns[..n + 1][..n] == patterns[..n];
  }

  /** One more piece adds its regex, if any, at the end. */
  lemma CompiledPiecesPrefix(pieces: seq<seq<char>>, m: nat, ignoreCase: bool)
    requires m < |pieces|
    ensures CompiledPieces(pieces[..m + 1], ignoreCase)
         == CompiledPieces(pieces[..m], ignoreCase) + CompiledPiece(pieces[m], ignoreCase)
  {
    assert pieces[..m + 1][..m] == pieces[..m];
  }

  /** The regexes of two runs of pieces, one after the other. */
  lemma {:induction false} CompiledPiecesAppend(a: seq<seq<char>>, b: seq<seq<char>>, ignoreCase: bool)
    ensures CompiledPieces(a + b, ignoreCase) == CompiledPieces(a, ignoreCase) + CompiledPieces(b, ignoreCase)
    decreases |b|
  {
    if b == [] {
      assert a + b == a;
    } else {
      var b', last := b[..|b| - 1], b[|b| - 1];
      FrontLast(b);
      assert a + b == (a + b') + [last];
      CompiledPiecesSnoc(a + b', last, ignoreCase);
      CompiledPiecesSnoc(b', last, ignoreCase);
      CompiledPiecesAppend(a, b', ignoreCase);
      var ca, cb', cl := CompiledPieces(a, ignoreCase), CompiledPieces(b', ignoreCase), CompiledPiece(last, ignoreCase);
      assert (ca + cb') + cl == ca + (cb' + cl);
    }
  }

  /** One more piece at the end adds its regex, if any, at the end. */
  lemma CompiledPiecesSnoc(pieces: seq<seq<char>>, p: seq<char>, ignoreCase: bool)
    ensures CompiledPieces(pieces + [p], ignoreCase) == CompiledPieces(pieces, ignoreCase) + CompiledPiece(p, ignoreCase)
  {
    var all := pieces + [p];
    assert all[..|all| - 1] == pieces;
    assert all[|all| - 1] == p;
  }

  /** The regexes CompilePatterns returns; a null pattern list (None) compiles to none. */
  function Compiled(patterns: Option<seq<seq<char>>>, ignoreCase: bool): seq<Regex>
  {
    match patterns
    case None => []
    case Some(ps) => CompiledPieces(Pieces(ps), ignoreCase)
  }

  /**
    The predicate of CreateMatcher: `s` is included when there are no include regexes or
    one of them matches, and it must not match any exclude regex.
   */
  function Admits(inc: seq<Regex>, exc: seq<Regex>, matches: (Regex, seq<char>) -> bool, s: seq<char>): (r: bool)
    ensures r <==> (|inc| == 0 || exists k :: 0 <= k < |inc| && matches(inc[k], s))
                   && (forall k :: 0 <= k < |exc| ==> !matches(exc[k], s))
  {
    (|inc| == 0 || Any(inc, rx => matches(rx, s)))
    && (|exc| == 0 || All(exc, rx => !matches(rx, s)))
  }

  /** The predicate CreateMatcher returns, for compiled include and exclude lists. */
  function AdmittedBy(inc: seq<Regex>, exc: seq<Regex>, matches: (Regex, seq<char>) -> bool): seq<char> -> bool
  {
    s => Admits(inc, exc, matches, s)
  }

  /**
    What Filter returns: the admitted inputs, each as often as it occurs in `inputs`,
    in their original order.
   */
  function Filtered(inputs: seq<seq<char>>, inc: seq<Regex>, exc: seq<Regex>,
                    matches: (Regex, seq<char>) -> bool): (r: seq<seq<char>>)
    ensures forall x :: multiset(r)[x] == if Admits(inc, exc, matches, x) then multiset(inputs)[x] else 0
    ensures IsSubsequence(r, inputs)
  {
    WhereCounts(inputs, AdmittedBy(inc, exc, matches));
    WhereOrder(inputs, AdmittedBy(inc, exc, matches));
    Where(inputs, AdmittedBy(inc, exc, matches))
  }
}
