/**
  The members of System.String that the modelled code calls, each defined by the
  behaviour .NET documents for it. A C# string is a `seq<char>`.
 */
module Strings {
  import opened Enumerables

  /** char.IsWhiteSpace: the Unicode White_Space characters. */
  predicate IsWhiteSpace(c: char)
  {
    ('\U{9}' <= c <= '\U{D}') || c == ' ' || c == '\U{85}' || c == '\U{A0}' || c == '\U{1680}'
    || ('\U{2000}' <= c <= '\U{200A}') || c == '\U{2028}' || c == '\U{2029}' || c == '\U{202F}'
    || c == '\U{205F}' || c == '\U{3000}'
  }

  /** string.IsNullOrWhiteSpace, for a string that is not null. */
  predicate IsBlank(s: seq<char>)
  {
    forall k :: 0 <= k < |s| ==> IsWhiteSpace(s[k])
  }

  /** The part of `s` that String.TrimStart() keeps. */
  function TrimStart(s: seq<char>): (r: seq<char>)
    ensures |r| <= |s| && r == s[|s| - |r|..]
    ensures r == [] || !IsWhiteSpace(r[0])
    ensures IsBlank(s[..|s| - |r|])
    decreases |s|
  {
    if s != [] && IsWhiteSpace(s[0]) then
      var r := TrimStart(s[1..]);
      assert s[..|s| - |r|] == [s[0]] + s[1..][..|s| - 1 - |r|];
      r
    else s
  }

  /** The part of `s` that String.TrimEnd() keeps. */
  function TrimEnd(s: seq<char>): (r: seq<char>)
    ensures |r| <= |s| && r == s[..|r|]
    ensures r == [] || !IsWhiteSpace(r[|r| - 1])
    ensures IsBlank(s[|r|..])
    decreases |s|
  {
    if s != [] && IsWhiteSpace(s[|s| - 1]) then
      var r := TrimEnd(s[..|s| - 1]);
      assert s[|r|..] == s[..|s| - 1][|r|..] + [s[|s| - 1]];
      r
    else s
  }

  /** String.Trim(): white space removed from both ends; the result is empty exactly
      for the strings IsNullOrWhiteSpace accepts. */
  function Trim(s: seq<char>): (r: seq<char>)
    ensures |r| <= |s|
    ensures r == [] || (!IsWhiteSpace(r[0]) && !IsWhiteSpace(r[|r| - 1]))
    ensures r == [] <==> IsBlank(s)
  {
    var a := TrimStart(s);
    var r := TrimEnd(a);
    assert r != [] ==> r[0] == a[0];
    r
  }

  /** string.Join with a one-character separator. */
  function Join(parts: seq<seq<char>>, sep: char): (r: seq<char>)
    decreases |parts|
  {
    if parts == [] then []
    else if |parts| == 1 then parts[0]
    else parts[0] + [sep] + Join(parts[1..], sep)
  }

  /** String.Split(sep) without options: the fields between separators, empty ones kept. */
  function SplitOn(s: seq<char>, sep: char): (r: seq<seq<char>>)
    ensures |r| >= 1
    ensures forall k :: 0 <= k < |r| ==> sep !in r[k]
    decreases |s|
  {
    if s == [] then [[]]
    else
      var rest := SplitOn(s[1..], sep);
      if s[0] == sep then [[]] + rest
      else [[s[0]] + rest[0]] + rest[1..]
  }

  /** Joining the fields of a split with the same separator gives back the string. */
  lemma {:induction false} JoinSplitOn(s: seq<char>, sep: char)
    ensures Join(SplitOn(s, sep), sep) == s
    decreases |s|
  {
    if s != [] {
      var rest := SplitOn(s[1..], sep);
      JoinSplitOn(s[1..], sep);
      if s[0] == sep {
        assert SplitOn(s, sep)[1..] == rest;
      } else {
        var r := SplitOn(s, sep);
        if |rest| == 1 {
          assert r == [[s[0]] + rest[0]];
        } else {
          assert r[1..] == rest[1..];
          assert Join(rest, sep) == rest[0] + [sep] + Join(rest[1..], sep);
        }
      }
    }
  }

  /** A field that StringSplitOptions.RemoveEmptyEntries keeps. */
  predicate NonEmpty(field: seq<char>)
  {
    field != []
  }

  /**
    The fields StringSplitOptions.RemoveEmptyEntries keeps: every non-empty field, as
    often as it occurs and in its order, and nothing else.
   */
  function RemoveEmpty(parts: seq<seq<char>>): (r: seq<seq<char>>)
    ensures forall k :: 0 <= k < |r| ==> r[k] != [] && r[k] in parts
    ensures forall x :: multiset(r)[x] == if x != [] then multiset(parts)[x] else 0
    ensures IsSubsequence(r, parts)
  {
    WhereCounts(parts, NonEmpty);
    WhereOrder(parts, NonEmpty);
    Where(parts, NonEmpty)
  }

  /** `s` without its leading run of `c`. */
  function DropLeading(s: seq<char>, c: char): (r: seq<char>)
    ensures |r| <= |s| && r == s[|s| - |r|..]
    ensures r == [] || r[0] != c
    ensures forall k :: 0 <= k < |s| - |r| ==> s[k] == c
    decreases |s|
  {
    if s != [] && s[0] == c then DropLeading(s[1..], c) else s
  }

  /** The index of the first `c` in `s`, or -1 (String.IndexOf). */
  function IndexOf(s: seq<char>, c: char): (r: int)
    ensures -1 <= r < |s|
    ensures r >= 0 ==> s[r] == c && c !in s[..r]
    ensures r < 0 ==> c !in s
    decreases |s|
  {
    if s == [] then -1
    else if s[0] == c then 0
    else
      var k := IndexOf(s[1..], c);
      if k < 0 then -1 else k + 1
  }

  /**
    String.Split(sep, 2, StringSplitOptions.RemoveEmptyEntries) as .NET implements it:
    empty fields before the first non-empty one are skipped, that field is the first
    piece, the empty fields after it are skipped too, and everything from there to the
    end of the string (separators included) is the second piece. So there are at most
    two pieces, none empty; the first holds no separator; the second is the rest of the
    string and does not start with a separator; and there is no piece at all exactly
    when the string is made of separators only.
   */
  function SplitInTwo(s: seq<char>, sep: char): (r: seq<seq<char>>)
    ensures |r| <= 2
    ensures [] !in r
    ensures |r| == 2 ==> sep !in r[0] && r[1][0] != sep && |r[1]| < |s| && r[1] == s[|s| - |r[1]|..]
    ensures r == [] <==> (forall k :: 0 <= k < |s| ==> s[k] == sep)
  {
    var t := DropLeading(s, sep);
    assert t != [] ==> s[|s| - |t|] == t[0];
    SplitAtFirst(t, sep)
  }

  /** The two pieces of SplitInTwo, for a string that does not start with `sep`. */
  function SplitAtFirst(t: seq<char>, sep: char): (r: seq<seq<char>>)
    requires t == [] || t[0] != sep
    ensures |r| <= 2
    ensures [] !in r
    ensures |r| == 2 ==> sep !in r[0] && r[1][0] != sep && |r[1]| < |t| && r[1] == t[|t| - |r[1]|..]
    ensures r == [] <==> t == []
  {
    var j := IndexOf(t, sep);
    if j < 0 then (if t == [] then [] else [t])
    else
      assert j != 0;
      var u := t[j + 1..];
      var rest := DropLeading(u, sep);
      assert rest == t[|t| - |rest|..] by {
        assert rest == u[|u| - |rest|..];
      }
      if rest == [] then [t[..j]] else [t[..j], rest]
  }

  /** s.Replace(old, "") for a one-character `old`. */
  function RemoveChar(s: seq<char>, c: char): (r: seq<char>)
    ensures c !in r
    ensures |r| <= |s|
    ensures forall x :: x in r ==> x in s
    decreases |s|
  {
    if s == [] then []
    else if s[0] == c then RemoveChar(s[1..], c)
    else [s[0]] + RemoveChar(s[1..], c)
  }

  /** s.Replace(old, replacement) for a one-character `old`. */
  function ReplaceChar(s: seq<char>, c: char, replacement: seq<char>): (r: seq<char>)
    ensures c !in replacement ==> c !in r
    ensures forall x :: x in r ==> x in s || x in replacement
    decreases |s|
  {
    if s == [] then []
    else (if s[0] == c then replacement else [s[0]]) + ReplaceChar(s[1..], c, replacement)
  }

  /** s.Replace on a concatenation. */
  lemma {:induction false} ReplaceCharAppend(a: seq<char>, b: seq<char>, c: char, replacement: seq<char>)
    ensures ReplaceChar(a + b, c, replacement) == ReplaceChar(a, c, replacement) + ReplaceChar(b, c, replacement)
    decreases |a|
  {
    if a == [] {
      assert a + b == b;
    } else {
      assert (a + b)[1..] == a[1..] + b;
      ReplaceCharAppend(a[1..], b, c, replacement);
    }
  }

  /** s.Replace on a one-character string. */
  lemma ReplaceOneChar(x: char, c: char, replacement: seq<char>)
    ensures ReplaceChar([x], c, replacement) == if x == c then replacement else [x]
  {
    assert [x][1..] == [];
  }

  /** s.Replace leaves a string without the character as it is. */
  lemma {:induction false} ReplaceCharAbsent(s: seq<char>, c: char, replacement: seq<char>)
    requires c !in s
    ensures ReplaceChar(s, c, replacement) == s
    decreases |s|
  {
    if s != [] {
      ReplaceCharAbsent(s[1..], c, replacement);
      assert [s[0]] + s[1..] == s;
    }
  }

  /** Upper case of an ASCII letter; every other character is its own upper case. */
  function AsciiUpper(c: char): char
  {
    if 'a' <= c <= 'z' then (c as int - 32) as char else c
  }

  /** `s` starts with `p` under ordinal case-insensitive comparison. */
  predicate StartsWithIgnoreCase(s: seq<char>, p: seq<char>)
  {
    |p| <= |s| && forall k :: 0 <= k < |p| ==> AsciiUpper(s[k]) == AsciiUpper(p[k])
  }

  /**
    s.Replace(pattern, "", StringComparison.OrdinalIgnoreCase): the occurrences of `pattern`
    found left to right, without overlap, are removed; the result is not scanned again.
   */
  function RemoveIgnoreCase(s: seq<char>, pattern: seq<char>): (r: seq<char>)
    requires pattern != []
    ensures |r| <= |s|
    ensures IsSubsequence(r, s)
    decreases |s|
  {
    if s == [] then []
    else if StartsWithIgnoreCase(s, pattern) then
      var r := RemoveIgnoreCase(s[|pattern|..], pattern);
      SubsequenceOfSuffix(r, s, |pattern|);
      r
    else
      var r := RemoveIgnoreCase(s[1..], pattern);
      assert ([s[0]] + r)[1..] == r;
      [s[0]] + r
  }

  /** A string with no white space at either end is its own Trim(). */
  lemma TrimUnchanged(s: seq<char>)
    requires s == [] || (!IsWhiteSpace(s[0]) && !IsWhiteSpace(s[|s| - 1]))
    ensures Trim(s) == s
  {
  }

  /** One leading space in front of a string with no white space at its ends is all
      that Trim() removes. */
  lemma TrimLeadingSpace(s: seq<char>)
    requires s != [] && !IsWhiteSpace(s[0]) && !IsWhiteSpace(s[|s| - 1])
    ensures Trim([' '] + s) == s
  {
    var t := [' '] + s;
    assert t[1..] == s;
    assert TrimStart(s) == s;
    assert TrimStart(t) == s;
    assert TrimEnd(s) == s;
  }

  /** Splitting a join whose parts hold no separator gives back the parts. */
  lemma {:induction false} SplitOnJoin(parts: seq<seq<char>>, sep: char)
    requires parts != [] && forall k :: 0 <= k < |parts| ==> sep !in parts[k]
    ensures SplitOn(Join(parts, sep), sep) == parts
    decreases |parts|
  {
    if |parts| == 1 {
      SplitOnNoSeparator(parts[0], sep);
    } else {
      SplitOnJoin(parts[1..], sep);
      SplitOnAfter(parts[0], Join(parts[1..], sep), sep);
      assert parts == [parts[0]] + parts[1..];
    }
  }

  /** A string without the separator is one field. */
  lemma {:induction false} SplitOnNoSeparator(s: seq<char>, sep: char)
    requires sep !in s
    ensures SplitOn(s, sep) == [s]
    decreases |s|
  {
    if s != [] {
      SplitOnNoSeparator(s[1..], sep);
      assert [s[0]] + s[1..] == s;
    }
  }

  /** The first field ends at the first separator. */
  lemma {:induction false} SplitOnAfter(a: seq<char>, b: seq<char>, sep: char)
    requires sep !in a
    ensures SplitOn(a + [sep] + b, sep) == [a] + SplitOn(b, sep)
    decreases |a|
  {
    if a == [] {
      assert ([] + [sep] + b)[1..] == b;
    } else {
      assert (a + [sep] + b)[1..] == a[1..] + [sep] + b;
      SplitOnAfter(a[1..], b, sep);
      assert [a[0]] + a[1..] == a;
    }
  }

  /** RemoveEmpty keeps a list without empty strings as it is. */
  lemma RemoveEmptyNone(parts: seq<seq<char>>)
    requires forall k :: 0 <= k < |parts| ==> parts[k] != []
    ensures RemoveEmpty(parts) == parts
  {
    WhereAll(parts, NonEmpty);
  }

  /** IndexOf finds the separator right after a prefix without one. */
  lemma {:induction false} IndexOfAfter(a: seq<char>, b: seq<char>, c: char)
    requires c !in a
    ensures IndexOf(a + [c] + b, c) == |a|
    decreases |a|
  {
    if a != [] {
      assert (a + [c] + b)[1..] == a[1..] + [c] + b;
      IndexOfAfter(a[1..], b, c);
    }
  }

  /** RemoveChar on a concatenation. */
  lemma {:induction false} RemoveCharAppend(a: seq<char>, b: seq<char>, c: char)
    ensures RemoveChar(a + b, c) == RemoveChar(a, c) + RemoveChar(b, c)
    decreases |a|
  {
    if a == [] {
      assert a + b == b;
    } else {
      assert (a + b)[1..] == a[1..] + b;
      RemoveCharAppend(a[1..], b, c);
    }
  }

  /** RemoveChar on a one-character string. */
  lemma RemoveCharSingle(d: seq<char>, c: char)
    requires |d| == 1
    ensures RemoveChar(d, c) == if d[0] == c then [] else d
  {
    assert d[1..] == [];
  }

  /** RemoveChar leaves a string without the character as it is. */
  lemma {:induction false} RemoveCharAbsent(s: seq<char>, c: char)
    requires c !in s
    ensures RemoveChar(s, c) == s
    decreases |s|
  {
    if s != [] {
      RemoveCharAbsent(s[1..], c);
      assert [s[0]] + s[1..] == s;
    }
  }

  /** RemoveIgnoreCase leaves a string in which the pattern never starts as it is. */
  lemma {:induction false} RemoveIgnoreCaseNone(s: seq<char>, pattern: seq<char>)
    requires pattern != []
    requires forall k :: 0 <= k < |s| ==> !StartsWithIgnoreCase(s[k..], pattern)
    ensures RemoveIgnoreCase(s, pattern) == s
    decreases |s|
  {
    if s != [] {
      assert forall k :: 0 <= k < |s| - 1 ==> s[1..][k..] == s[k + 1..];
      RemoveIgnoreCaseNone(s[1..], pattern);
      assert s[0..] == s;
      assert [s[0]] + s[1..] == s;
    }
  }

  /** RemoveIgnoreCase changes every string in which the pattern starts somewhere: an
      occurrence is either removed or overlapped by one found earlier and removed. */
  lemma {:induction false} RemoveIgnoreCaseSome(s: seq<char>, pattern: seq<char>, k: nat)
    requires pattern != [] && k < |s| && StartsWithIgnoreCase(s[k..], pattern)
    ensures |RemoveIgnoreCase(s, pattern)| < |s|
    decreases |s|
  {
    if !StartsWithIgnoreCase(s, pattern) && k != 0 {
      assert s[1..][k - 1..] == s[k..];
      RemoveIgnoreCaseSome(s[1..], pattern, k - 1);
    }
  }

  /** Concatenation regroups freely. */
  lemma ConcatAssoc<T>(a: seq<T>, b: seq<T>, c: seq<T>)
    ensures (a + b) + c == a + (b + c)
  {
  }
}
