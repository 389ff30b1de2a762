/**
  Properties of the Link dictionary ParseLinkHeader builds, stated on the functions of
  module HttpExtensions that the method is proved to compute.
 */
module HttpLemmas {
  import opened Wrappers
  import opened Strings
  import opened Enumerables
  import opened HttpExtensions

  /** Without a `Link` header the dictionary is empty. */
  lemma NoLinkHeader()
    ensures Parsed(None) == map[]
  {
  }

  /** The keys after storing `links` are the keys before and the relation types stored. */
  lemma {:induction false} StoreKeys(m: map<seq<char>, seq<char>>, links: seq<Link>)
    ensures Store(m, links).Keys == m.Keys + (set k | 0 <= k < |links| :: links[k].rel)
    decreases |links|
  {
    if links != [] {
      var front := links[..|links| - 1];
      StoreKeys(m, front);
      assert (set k | 0 <= k < |links| :: links[k].rel)
          == (set k | 0 <= k < |front| :: front[k].rel) + {links[|links| - 1].rel};
    }
  }

  /** Last wins: an entry no later entry overwrites is what the dictionary holds for its
      relation type. */
  lemma {:induction false} StoreLastWins(m: map<seq<char>, seq<char>>, links: seq<Link>, k: nat)
    requires k < |links|
    requires forall j :: k < j < |links| ==> links[j].rel != links[k].rel
    ensures links[k].rel in Store(m, links) && Store(m, links)[links[k].rel] == links[k].url
    decreases |links|
  {
    if k < |links| - 1 {
      StoreLastWins(m, links[..|links| - 1], k);
    }
  }

  /** A key no entry names keeps its value, or stays absent. */
  lemma {:induction false} StoreUntouched(m: map<seq<char>, seq<char>>, links: seq<Link>, key: seq<char>)
    requires forall j :: 0 <= j < |links| ==> links[j].rel != key
    ensures key in Store(m, links) <==> key in m
    ensures key in m ==> Store(m, links)[key] == m[key]
    decreases |links|
  {
    if links != [] {
      StoreUntouched(m, links[..|links| - 1], key);
    }
  }

  /** An entry worth storing: relation type and URL non-blank, no quote in the relation
      type, no angle bracket in the URL. */
  predicate Clean(rel: seq<char>, url: seq<char>)
  {
    !IsBlank(rel) && !IsBlank(url) && '"' !in rel && '<' !in url && '>' !in url
  }

  /** Every entry of a list of parts is clean. */
  lemma {:induction false} PartLinksClean(parts: seq<seq<char>>)
    ensures forall l :: l in PartLinks(parts) ==> Clean(l.rel, l.url)
    decreases |parts|
  {
    if parts != [] {
      PartLinksClean(parts[..|parts| - 1]);
    }
  }

  /** Every entry of a list of header values is clean. */
  lemma {:induction false} HeaderLinksClean(values: seq<seq<char>>)
    ensures forall l :: l in HeaderLinks(values) ==> Clean(l.rel, l.url)
    decreases |values|
  {
    if values != [] {
      HeaderLinksClean(values[..|values| - 1]);
      PartLinksClean(Parts(values[|values| - 1]));
    }
  }

  /** Storing clean entries into a clean dictionary keeps it clean. */
  lemma {:induction false} StoreClean(m: map<seq<char>, seq<char>>, links: seq<Link>)
    requires forall rel :: rel in m ==> Clean(rel, m[rel])
    requires forall l :: l in links ==> Clean(l.rel, l.url)
    ensures forall rel :: rel in Store(m, links) ==> Clean(rel, Store(m, links)[rel])
    decreases |links|
  {
    if links != [] {
      assert forall l :: l in links[..|links| - 1] ==> l in links;
      StoreClean(m, links[..|links| - 1]);
    }
  }

  /** No stored relation type is blank or holds a quote; no stored URL is blank or holds
      an angle bracket. */
  lemma ParsedClean(headers: Option<seq<seq<char>>>)
    ensures forall rel :: rel in Parsed(headers) ==> Clean(rel, Parsed(headers)[rel])
  {
    if headers.Some? {
      HeaderLinksClean(headers.value);
      StoreClean(map[], HeaderLinks(headers.value));
    }
  }

  /** `rel` holds no `rel=`, in any letter case. */
  predicate NoRelIn(rel: seq<char>)
  {
    forall k :: 0 <= k < |rel| ==> !StartsWithIgnoreCase(rel[k..], "rel=")
  }

  /** An entry that survives being written as a Link header part and read back: no
      character the parser strips or splits on, nothing blank. */
  predicate Formattable(l: Link)
  {
    !IsBlank(l.url) && '<' !in l.url && '>' !in l.url && ';' !in l.url && ',' !in l.url
    && !IsBlank(l.rel) && '"' !in l.rel && ',' !in l.rel && NoRelIn(l.rel)
  }

  /** The part `<url>; rel="rel"`, after `lead` (GitHub puts a space after each comma). */
  function FormatLink(l: Link, lead: seq<char>): seq<char>
  {
    lead + "<" + l.url + ">; rel=\"" + l.rel + "\""
  }

  /** The parts of a Link header as GitHub writes it: a space before every part but the first. */
  function FormattedParts(links: seq<Link>): (r: seq<seq<char>>)
    ensures |r| == |links|
  {
    seq(|links|, k requires 0 <= k < |links| => FormatLink(links[k], if k == 0 then [] else " "))
  }

  /** A Link header as GitHub writes it: the parts joined by `, `. */
  function GitHubHeader(links: seq<Link>): seq<char>
  {
    Join(FormattedParts(links), ',')
  }

  /** In `"rel"` the pattern `rel=` starts nowhere. */
  lemma QuotedNoRel(rel: seq<char>)
    requires NoRelIn(rel)
    ensures forall k :: 0 <= k < |rel| + 2 ==> !StartsWithIgnoreCase((['"'] + rel + ['"'])[k..], "rel=")
  {
    var y := ['"'] + rel + ['"'];
    forall k | 0 <= k < |y|
      ensures !StartsWithIgnoreCase(y[k..], "rel=")
    {
      if k == 0 {
        assert AsciiUpper(y[k..][0]) != AsciiUpper("rel="[0]);
      } else if k + 3 <= |rel| {
        assert !StartsWithIgnoreCase(rel[k - 1..], "rel=");
        assert forall i :: 0 <= i < 4 ==> y[k..][i] == rel[k - 1..][i];
      } else {
        var q := |rel| + 1 - k;
        assert y[k..][q] == '"';
        assert AsciiUpper(y[k..][q]) != AsciiUpper("rel="[q]);
      }
    }
  }

  /** The relation type of a formatted part reads back as written. */
  lemma CleanRelFormatted(rel: seq<char>)
    requires !IsBlank(rel) && '"' !in rel && NoRelIn(rel)
    ensures CleanRel([' '] + ("rel=" + (['"'] + rel + ['"']))) == rel
  {
    var y := ['"'] + rel + ['"'];
    var x := "rel=" + y;
    TrimLeadingSpace(x);
    assert x[4..] == y;
    assert StartsWithIgnoreCase(x, "rel=");
    assert RemoveIgnoreCase(x, "rel=") == RemoveIgnoreCase(y, "rel=");
    QuotedNoRel(rel);
    RemoveIgnoreCaseNone(y, "rel=");
    StripQuotes(rel);
  }

  /** Removing the quotes around a relation type without any gives the relation type. */
  lemma StripQuotes(rel: seq<char>)
    requires '"' !in rel
    ensures RemoveChar(['"'] + rel + ['"'], '"') == rel
  {
    RemoveCharAppend(['"'] + rel, ['"'], '"');
    RemoveCharAppend(['"'], rel, '"');
    RemoveCharAbsent(rel, '"');
    RemoveCharSingle(['"'], '"');
  }

  /** The first segment of a formatted part trims to `<url>`. */
  lemma TrimFormattedUrl(a: seq<char>, lead: seq<char>)
    requires a != [] && a[0] == '<' && a[|a| - 1] == '>'
    requires lead == [] || lead == " "
    ensures Trim(lead + a) == a
  {
    if lead == [] {
      assert lead + a == a;
      TrimUnchanged(a);
    } else {
      TrimLeadingSpace(a);
    }
  }

  /** Removing the angle brackets around a URL without any gives the URL. */
  lemma StripAngles(url: seq<char>)
    requires '<' !in url && '>' !in url
    ensures RemoveChar(RemoveChar(['<'] + url + ['>'], '<'), '>') == url
  {
    RemoveCharAppend(['<'] + url, ['>'], '<');
    RemoveCharAppend(['<'], url, '<');
    RemoveCharAbsent(url, '<');
    RemoveCharSingle(['<'], '<');
    RemoveCharSingle(['>'], '<');
    assert RemoveChar(['<'] + url + ['>'], '<') == url + ['>'];
    RemoveCharAppend(url, ['>'], '>');
    RemoveCharAbsent(url, '>');
    RemoveCharSingle(['>'], '>');
  }

  /** The URL of a formatted part reads back as written. */
  lemma CleanUrlFormatted(url: seq<char>, lead: seq<char>)
    requires '<' !in url && '>' !in url
    requires lead == [] || lead == " "
    ensures CleanUrl(lead + (['<'] + url + ['>'])) == url
  {
    TrimFormattedUrl(['<'] + url + ['>'], lead);
    StripAngles(url);
  }

  /** A part `a;b` with no `;` in `a` and none leading `b` splits into `a` and `b`. */
  lemma SplitAtSemicolon(a: seq<char>, b: seq<char>)
    requires a != [] && ';' !in a && b != [] && b[0] != ';'
    ensures SplitInTwo(a + [';'] + b, ';') == [a, b]
  {
    var part := a + [';'] + b;
    assert DropLeading(part, ';') == part;
    IndexOfAfter(a, b, ';');
    assert part[..|a|] == a && part[|a| + 1..] == b;
  }

  /** The pieces of a formatted part. */
  lemma FormatLinkShape(l: Link, lead: seq<char>)
    ensures FormatLink(l, lead)
         == (lead + (['<'] + l.url + ['>'])) + [';'] + ([' '] + ("rel=" + (['"'] + l.rel + ['"'])))
  {
  }

  /** A formatted part is not empty and, for an entry without commas, holds none. */
  lemma FormatLinkNoComma(l: Link, lead: seq<char>)
    requires ',' !in l.url && ',' !in l.rel
    requires lead == [] || lead == " "
    ensures ',' !in FormatLink(l, lead) && FormatLink(l, lead) != []
  {
    var a := lead + (['<'] + l.url + ['>']);
    var b := [' '] + ("rel=" + (['"'] + l.rel + ['"']));
    FormatLinkShape(l, lead);
    assert ',' !in a;
    assert ',' !in "rel=";
    assert ',' !in b;
  }

  /** Writing an entry as a part and parsing the part gives the entry back. */
  lemma LinkOfFormatted(l: Link, lead: seq<char>)
    requires Formattable(l)
    requires lead == [] || lead == " "
    ensures LinkOf(FormatLink(l, lead)) == Some(l)
  {
    var a := lead + (['<'] + l.url + ['>']);
    var b := [' '] + ("rel=" + (['"'] + l.rel + ['"']));
    FormatLinkShape(l, lead);
    SplitAtSemicolon(a, b);
    CleanRelFormatted(l.rel);
    CleanUrlFormatted(l.url, lead);
  }

  /** Parsing the formatted parts gives back the entries, in order. */
  lemma {:induction false} PartLinksFormatted(links: seq<Link>, parts: seq<seq<char>>)
    requires |parts| == |links|
    requires forall k :: 0 <= k < |links| ==> Formattable(links[k])
    requires forall k :: 0 <= k < |links| ==> parts[k] == FormatLink(links[k], if k == 0 then [] else " ")
    ensures PartLinks(parts) == links
    decreases |parts|
  {
    if parts != [] {
      var n := |parts| - 1;
      PartLinksFormatted(links[..n], parts[..n]);
      LinkOfFormatted(links[n], if n == 0 then [] else " ");
      FrontLast(links);
    }
  }

  /**
    Round trip: parsing a Link header written the way GitHub writes it stores every
    entry, a later entry overwriting an earlier one with the same relation type.
   */
  lemma HeaderRoundTrip(links: seq<Link>)
    requires forall k :: 0 <= k < |links| ==> Formattable(links[k])
    ensures Parsed(Some([GitHubHeader(links)])) == Store(map[], links)
  {
    var v := GitHubHeader(links);
    OneHeaderValue(v);
    GitHubHeaderLinks(links);
  }

  /** A header with one value holds the entries of that value's parts. */
  lemma OneHeaderValue(v: seq<char>)
    ensures HeaderLinks([v]) == PartLinks(Parts(v))
  {
    assert [v][..0] == [];
  }

  /** The entries of the parts of a GitHub Link header are the links it was written from. */
  lemma GitHubHeaderLinks(links: seq<Link>)
    requires forall k :: 0 <= k < |links| ==> Formattable(links[k])
    ensures PartLinks(Parts(GitHubHeader(links))) == links
  {
    if links == [] {
      assert Parts(GitHubHeader(links)) == [];
    } else {
      PartsOfGitHubHeader(links);
      PartLinksFormatted(links, FormattedParts(links));
    }
  }

  /** The parts of a non-empty GitHub Link header are the formatted entries. */
  lemma PartsOfGitHubHeader(links: seq<Link>)
    requires links != []
    requires forall k :: 0 <= k < |links| ==> Formattable(links[k])
    ensures Parts(GitHubHeader(links)) == FormattedParts(links)
  {
    var fs := FormattedParts(links);
    forall k | 0 <= k < |fs|
      ensures ',' !in fs[k] && fs[k] != []
    {
      FormatLinkNoComma(links[k], if k == 0 then [] else " ");
    }
    SplitOnJoin(fs, ',');
    RemoveEmptyNone(fs);
  }

  /** GitHub's pagination header: `<next>; rel="next", <last>; rel="last"` gives the two
      URLs under `next` and `last`. */
  lemma GitHubPagination(next: seq<char>, last: seq<char>)
    requires !IsBlank(next) && '<' !in next && '>' !in next && ';' !in next && ',' !in next
    requires !IsBlank(last) && '<' !in last && '>' !in last && ';' !in last && ',' !in last
    ensures Parsed(Some([GitHubHeader([Link("next", next), Link("last", last)])])) == map["next" := next, "last" := last]
  {
    RelIsFormattable("next");
    RelIsFormattable("last");
    HeaderRoundTrip([Link("next", next), Link("last", last)]);
    StoreTwo(Link("next", next), Link("last", last));
  }

  /** Storing two entries into an empty dictionary. */
  lemma StoreTwo(a: Link, b: Link)
    ensures Store(map[], [a, b]) == map[a.rel := a.url][b.rel := b.url]
  {
    assert [a, b][..1] == [a] && [a][..0] == [];
    assert Store(map[], [a]) == map[a.rel := a.url];
    assert Store(map[], [a, b]) == Store(map[], [a])[b.rel := b.url];
  }

  /** A relation type of lower-case letters without an `r` can be written and read back. */
  lemma RelIsFormattable(rel: seq<char>)
    requires rel != [] && forall k :: 0 <= k < |rel| ==> 'a' <= rel[k] <= 'z' && rel[k] != 'r'
    ensures !IsBlank(rel) && '"' !in rel && ',' !in rel && NoRelIn(rel)
  {
    assert !IsWhiteSpace(rel[0]);
    forall k | 0 <= k < |rel|
      ensures !StartsWithIgnoreCase(rel[k..], "rel=")
    {
      assert AsciiUpper(rel[k..][0]) != AsciiUpper("rel="[0]);
    }
  }
}
