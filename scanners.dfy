/**
  What the scans of VersionGlobber find, stated independently of how they scan. The
  scanners FindClosingBracket and FindClosingBrace and the splitter
  SplitByCommaOutsideBraces all move left to right and let a backslash skip the
  character after it. Here, whether a character is escaped, how deep in braces it
  sits and which commas are top-level are defined by looking back over the prefix
  before it. The lemmas show that the scans find exactly the positions these
  definitions describe.
 */
module Scanning {
  import opened GlobSpec

  /** When `s` is scanned from `from`, the character at `k` is skipped because it
      follows a backslash that is not itself skipped. */
  predicate Escaped(s: seq<char>, from: nat, k: nat)
    requires from <= k <= |s|
    decreases k
  {
    k > from && s[k - 1] == '\\' && !Escaped(s, from, k - 1)
  }

  /** Index `k` holds `c`, and a scan from `from` does not skip it. */
  predicate UnescapedAt(s: seq<char>, from: nat, k: nat, c: char)
  {
    from <= k < |s| && s[k] == c && !Escaped(s, from, k)
  }

  /** How one character that is not skipped moves the brace depth. */
  function BraceStep(c: char): int
  {
    if c == '{' then 1 else if c == '}' then -1 else 0
  }

  /** The brace depth just before index `k`, starting with `depth` at `from`. Escaped
      characters and the backslashes that escape them leave it unchanged. */
  function BraceDepth(s: seq<char>, from: nat, k: nat, depth: int): int
    requires from <= k <= |s|
    decreases k
  {
    if k == from then depth
    else BraceDepth(s, from, k - 1, depth) + (if Escaped(s, from, k - 1) then 0 else BraceStep(s[k - 1]))
  }

  /** Index `k` holds a `}` that is not escaped and closes the last open brace. */
  predicate ClosesBrace(s: seq<char>, from: nat, depth: int, k: nat)
  {
    UnescapedAt(s, from, k, '}') && BraceDepth(s, from, k, depth) == 1
  }

  /** After a character that is not a backslash, skipping works the same whether the
      scan starts on it or just after it. */
  lemma {:induction false} EscapedAfterPlain(s: seq<char>, from: nat, k: nat)
    requires from < |s| && s[from] != '\\' && from + 1 <= k <= |s|
    ensures Escaped(s, from, k) == Escaped(s, from + 1, k)
    decreases k
  {
    if k > from + 1 {
      EscapedAfterPlain(s, from, k - 1);
    }
  }

  /** After a backslash and the character it skips, skipping works the same whether the
      scan starts on the backslash or just after the pair. */
  lemma {:induction false} EscapedAfterPair(s: seq<char>, from: nat, k: nat)
    requires from + 1 < |s| && s[from] == '\\' && from + 2 <= k <= |s|
    ensures Escaped(s, from, k) == Escaped(s, from + 2, k)
    decreases k
  {
    assert Escaped(s, from, from + 1);
    if k > from + 2 {
      EscapedAfterPair(s, from, k - 1);
    }
  }

  /** The depth counted from `from` equals the depth counted from just after a first
      character that is not a backslash, started one step further. */
  lemma {:induction false} DepthAfterPlain(s: seq<char>, from: nat, k: nat, depth: int)
    requires from < |s| && s[from] != '\\' && from + 1 <= k <= |s|
    ensures BraceDepth(s, from, k, depth) == BraceDepth(s, from + 1, k, depth + BraceStep(s[from]))
    decreases k
  {
    if k > from + 1 {
      DepthAfterPlain(s, from, k - 1, depth);
      EscapedAfterPlain(s, from, k - 1);
    }
  }

  /** A backslash and the character it skips leave the depth unchanged. */
  lemma {:induction false} DepthAfterPair(s: seq<char>, from: nat, k: nat, depth: int)
    requires from + 1 < |s| && s[from] == '\\' && from + 2 <= k <= |s|
    ensures BraceDepth(s, from, k, depth) == BraceDepth(s, from + 2, k, depth)
    decreases k
  {
    assert Escaped(s, from, from + 1);
    assert BraceDepth(s, from, from + 1, depth) == depth;
    assert BraceDepth(s, from, from + 2, depth) == depth;
    if k > from + 2 {
      DepthAfterPair(s, from, k - 1, depth);
      EscapedAfterPair(s, from, k - 1);
    }
  }

  /**
    FindClosingBracket finds the first `]` from `from` on that a backslash does not
    escape, and returns -1 exactly when there is none.
   */
  lemma {:induction false} ClosingBracketIsFirst(s: seq<char>, from: nat)
    ensures var r := ClosingBracket(s, from);
      (r == -1 <==> forall k :: from <= k < |s| ==> !UnescapedAt(s, from, k, ']'))
      && (r != -1 ==> UnescapedAt(s, from, r, ']') && forall k :: from <= k < r ==> !UnescapedAt(s, from, k, ']'))
    decreases |s| - from
  {
    if from < |s| {
      if s[from] == '\\' {
        var next := from + 2;
        ClosingBracketIsFirst(s, next);
        forall k | from <= k < |s|
          ensures UnescapedAt(s, from, k, ']') == (next <= k && UnescapedAt(s, next, k, ']'))
        {
          if next <= k {
            EscapedAfterPair(s, from, k);
          } else if k == from + 1 {
            assert Escaped(s, from, k);
          }
        }
      } else if s[from] != ']' {
        var next := from + 1;
        ClosingBracketIsFirst(s, next);
        forall k | from <= k < |s|
          ensures UnescapedAt(s, from, k, ']') == (next <= k && UnescapedAt(s, next, k, ']'))
        {
          if next <= k {
            EscapedAfterPlain(s, from, k);
          }
        }
      } else {
        assert UnescapedAt(s, from, from, ']');
      }
    }
  }

  /**
    FindClosingBrace finds the first `}` from `from` on that closes the last of the
    `depth` open braces, counting only unescaped braces, and returns -1 exactly when
    there is none.
   */
  lemma {:induction false} ClosingBraceIsFirst(s: seq<char>, from: nat, depth: nat)
    requires depth >= 1
    ensures var r := ClosingBrace(s, from, depth);
      (r == -1 <==> forall k :: from <= k < |s| ==> !ClosesBrace(s, from, depth, k))
      && (r != -1 ==> ClosesBrace(s, from, depth, r) && forall k :: from <= k < r ==> !ClosesBrace(s, from, depth, k))
    decreases |s| - from
  {
    if from < |s| {
      var c := s[from];
      if c == '\\' {
        var next := from + 2;
        ClosingBraceIsFirst(s, next, depth);
        forall k | from <= k < |s|
          ensures ClosesBrace(s, from, depth, k) == (next <= k && ClosesBrace(s, next, depth, k))
        {
          if next <= k {
            EscapedAfterPair(s, from, k);
            DepthAfterPair(s, from, k, depth);
          } else if k == from + 1 {
            assert Escaped(s, from, k);
          }
        }
      } else if c == '}' && depth == 1 {
        assert ClosesBrace(s, from, depth, from);
      } else {
        var next, d := from + 1, depth + BraceStep(c);
        assert d >= 1;
        ClosingBraceIsFirst(s, next, d);
        forall k | from <= k < |s|
          ensures ClosesBrace(s, from, depth, k) == (next <= k && ClosesBrace(s, next, d, k))
        {
          if next <= k {
            EscapedAfterPlain(s, from, k);
            DepthAfterPlain(s, from, k, depth);
          }
        }
      }
    }
  }

  /** The splitter's brace depth just before index `k` of `s`: unescaped `{` opens,
      unescaped `}` closes, and the depth never goes below 0. */
  function SplitDepth(s: seq<char>, k: nat): nat
    requires k <= |s|
    decreases k
  {
    if k == 0 then 0
    else
      var d := SplitDepth(s, k - 1);
      if Escaped(s, 0, k - 1) then d
      else if s[k - 1] == '{' then d + 1
      else if s[k - 1] == '}' then (if d == 0 then 0 else d - 1)
      else d
  }

  /** Index `k` of `s` holds a comma that splits: not escaped, and outside braces. */
  predicate TopComma(s: seq<char>, k: nat)
  {
    UnescapedAt(s, 0, k, ',') && SplitDepth(s, k) == 0
  }

  /**
    One step of the splitter inside a text `a` that has no top-level comma, from a
    position `i` that the scan reaches: the scan goes on to the next such position,
    with the depth and the pending piece that the prefix of `a` up to there gives.
   */
  lemma ScanStep(a: seq<char>, t: seq<char>, i: nat) returns (i2: nat)
    requires i < |a| && !Escaped(a, 0, i) && !TopComma(a, i)
    requires a[i] != '\\' || i + 1 < |a|
    ensures i < i2 <= |a| && !Escaped(a, 0, i2)
    ensures SplitPieces(a[i..] + t, SplitDepth(a, i), a[..i]) == SplitPieces(a[i2..] + t, SplitDepth(a, i2), a[..i2])
  {
    var u := a[i..] + t;
    assert u[0] == a[i];
    if a[i] == '\\' {
      i2 := i + 2;
      assert Escaped(a, 0, i + 1);
      assert u[1] == a[i + 1] && u[2..] == a[i2..] + t;
      assert a[..i] + ['\\', a[i + 1]] == a[..i2];
    } else {
      i2 := i + 1;
      assert u[1..] == a[i2..] + t;
      assert a[..i] + [a[i]] == a[..i2];
    }
  }

  /** Scanning a text with no top-level comma that does not end in an unpaired backslash
      only adds it to the pending piece. */
  lemma {:induction false} ScanWhole(a: seq<char>, t: seq<char>, i: nat)
    requires i <= |a| && !Escaped(a, 0, i)
    requires forall k :: !TopComma(a, k)
    requires !Escaped(a, 0, |a|)
    ensures SplitPieces(a[i..] + t, SplitDepth(a, i), a[..i]) == SplitPieces(t, SplitDepth(a, |a|), a)
    decreases |a| - i
  {
    if i == |a| {
      assert a[i..] + t == t && a[..i] == a;
    } else {
      var i2 := ScanStep(a, t, i);
      ScanWhole(a, t, i2);
    }
  }

  /** Scanning a text with no top-level comma to its end gives that text as one piece. */
  lemma {:induction false} ScanToEnd(a: seq<char>, i: nat)
    requires a != [] && i <= |a| && !Escaped(a, 0, i)
    requires forall k :: !TopComma(a, k)
    ensures SplitPieces(a[i..], SplitDepth(a, i), a[..i]) == [a]
    decreases |a| - i
  {
    if i == |a| {
      assert a[..i] == a;
    } else if a[i] == '\\' && i + 1 == |a| {
      assert a[i..] == ['\\'] && a[..i] + ['\\'] == a;
    } else {
      var i2 := ScanStep(a, [], i);
      assert a[i..] + [] == a[i..] && a[i2..] + [] == a[i2..];
      ScanToEnd(a, i2);
    }
  }

  /** A prefix with no top-level comma, ending outside braces and escapes, is all
      pending when the scan reaches what follows it. */
  lemma ScanPrefix(a: seq<char>, t: seq<char>)
    requires forall k :: !TopComma(a, k)
    requires !Escaped(a, 0, |a|) && SplitDepth(a, |a|) == 0
    ensures SplitPieces(a + t, 0, []) == SplitPieces(t, 0, a)
  {
    ScanWhole(a, t, 0);
    assert a[0..] == a && a[..0] == [];
  }

  /**
    `a` can stand before a splitting comma: it has no top-level comma of its own, does
    not end in a backslash that would escape the comma, and closes every brace it opens.
   */
  ghost predicate Unsplit(a: seq<char>)
  {
    (forall k :: !TopComma(a, k)) && !Escaped(a, 0, |a|) && SplitDepth(a, |a|) == 0
  }

  /**
    SplitByCommaOutsideBraces splits at the first top-level comma: when `a` holds no
    top-level comma and the comma after it is neither escaped by a trailing backslash
    of `a` nor inside braces that `a` leaves open, the first piece is `a` and the rest
    is split on its own.
   */
  lemma SplitAtTopComma(a: seq<char>, b: seq<char>)
    requires Unsplit(a)
    ensures SplitPatterns(a + [','] + b) == [a] + SplitPatterns(b)
  {
    var t := [','] + b;
    assert a + [','] + b == a + t;
    CommaAfter(a, t);
    assert t[1..] == b;
  }

  /** The comma that follows a prefix with no top-level comma of its own ends the first piece. */
  lemma CommaAfter(a: seq<char>, t: seq<char>)
    requires Unsplit(a)
    requires t != [] && t[0] == ','
    ensures SplitPieces(a + t, 0, []) == [a] + SplitPieces(t[1..], 0, [])
  {
    ScanPrefix(a, t);
  }

  /** A non-empty text with no top-level comma is one piece: commas that are escaped
      or inside braces do not split. */
  lemma SplitWithoutTopComma(a: seq<char>)
    requires a != [] && forall k :: !TopComma(a, k)
    ensures SplitPatterns(a) == [a]
  {
    ScanToEnd(a, 0);
    assert a[0..] == a && a[..0] == [];
  }
}
