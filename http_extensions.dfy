/**
  HttpExtensions.ParseLinkHeader: the values of the HTTP `Link` response header
  (GitHub's pagination links, a simplified reading of section 3 of RFC 8288) become a
  dictionary from relation type to URL. The header collection is reduced to its `Link`
  values: None when the response has no `Link` header.
 */
module HttpExtensions {
  import opened Wrappers
  import opened Strings

  /** One stored entry: relation type and target URL. */
  datatype Link = Link(rel: seq<char>, url: seq<char>)

  /** The parts of one header value: split on `,` with empty entries dropped. */
  function Parts(value: seq<char>): seq<seq<char>>
  {
    RemoveEmpty(SplitOn(value, ','))
  }

  /** The relation type of a part's second segment: trimmed, every `rel=` (ignoring case)
      and every `"` removed. */
  function CleanRel(segment: seq<char>): (r: seq<char>)
    ensures '"' !in r
  {
    RemoveChar(RemoveIgnoreCase(Trim(segment), "rel="), '"')
  }

  /** The URL of a part's first segment: trimmed, every `<` and `>` removed. */
  function CleanUrl(segment: seq<char>): (r: seq<char>)
    ensures '<' !in r && '>' !in r
  {
    RemoveChar(RemoveChar(Trim(segment), '<'), '>')
  }

  /**
    The entry a part stores, if any: none unless the part splits on its first `;` into
    exactly two non-empty segments, and none when the cleaned relation type or URL is
    blank.
   */
  function LinkOf(part: seq<char>): (r: Option<Link>)
    ensures r.Some? ==> !IsBlank(r.value.rel) && !IsBlank(r.value.url)
    ensures r.Some? ==> '"' !in r.value.rel && '<' !in r.value.url && '>' !in r.value.url
    ensures r.None? <==> |SplitInTwo(part, ';')| != 2
                         || IsBlank(CleanRel(SplitInTwo(part, ';')[1]))
                         || IsBlank(CleanUrl(SplitInTwo(part, ';')[0]))
  {
    var segments := SplitInTwo(part, ';');
    if |segments| != 2 then None
    else
      var rel := CleanRel(segments[1]);
      var url := CleanUrl(segments[0]);
      if IsBlank(rel) || IsBlank(url) then None else Some(Link(rel, url))
  }

  /** The entries of `parts`, in order. */
  function PartLinks(parts: seq<seq<char>>): seq<Link>
    decreases |parts|
  {
    if parts == [] then []
    else
      var last := LinkOf(parts[|parts| - 1]);
      PartLinks(parts[..|parts| - 1]) + (if last.Some? then [last.value] else [])
  }

  /** The entries of all header values, in order. */
  function HeaderLinks(values: seq<seq<char>>): seq<Link>
    decreases |values|
  {
    if values == [] then []
    else HeaderLinks(values[..|values| - 1]) + PartLinks(Parts(values[|values| - 1]))
  }

  /** `m` after `result[rel] = url` for each entry of `links` in turn. */
  function Store(m: map<seq<char>, seq<char>>, links: seq<Link>): map<seq<char>, seq<char>>
    decreases |links|
  {
    if links == [] then m
    else
      var last := links[|links| - 1];
      Store(m, links[..|links| - 1])[last.rel := last.url]
  }

  /** The dictionary ParseLinkHeader returns. */
  function Parsed(headers: Option<seq<seq<char>>>): map<seq<char>, seq<char>>
  {
    match headers
    case None => map[]
    case Some(values) => Store(map[], HeaderLinks(values))
  }

  /** One more part stores its entry, if any, last. */
  lemma PartLinksPrefix(parts: seq<seq<char>>, m: nat)
    requires m < |parts|
    ensures PartLinks(parts[..m + 1])
         == PartLinks(parts[..m]) + (if LinkOf(parts[m]).Some? then [LinkOf(parts[m]).value] else [])
  {
    assert parts[..m + 1][..m] == parts[..m];
  }

  /** One more header value stores its entries last. */
  lemma HeaderLinksPrefix(values: seq<seq<char>>, n: nat)
    requires n < |values|
    ensures HeaderLinks(values[..n + 1]) == HeaderLinks(values[..n]) + PartLinks(Parts(values[n]))
  {
    assert values[..n + 1][..n] == values[..n];
  }

  /** Storing two runs of entries is storing the first, then the second. */
  lemma {:induction false} StoreAppend(m: map<seq<char>, seq<char>>, a: seq<Link>, b: seq<Link>)
    ensures Store(m, a + b) == Store(Store(m, a), b)
    decreases |b|
  {
    if b == [] {
      assert a + b == a;
    } else {
      var b' := b[..|b| - 1];
      assert (a + b)[..|a + b| - 1] == a + b';
      StoreAppend(m, a, b');
    }
  }

  /** The Link dictionary of the response: `rel` to `url` for every usable part, a later
      part overwriting an earlier one with the same `rel`. */
  method ParseLinkHeader(headers: Option<seq<seq<char>>>) returns (result: map<seq<char>, seq<char>>)
    ensures result == Parsed(headers)
  {
    if headers.None? {
      return map[];
    }
    var rawLinkHeaders := headers.value;
    result := map[];
    for n := 0 to |rawLinkHeaders|
      invariant result == Store(map[], HeaderLinks(rawLinkHeaders[..n]))
    {
      var parts := Parts(rawLinkHeaders[n]);
      ghost var before := result;
      for m := 0 to |parts|
        invariant result == Store(before, PartLinks(parts[..m]))
      {
        PartLinksPrefix(parts, m);
        StoreAppend(before, PartLinks(parts[..m]), if LinkOf(parts[m]).Some? then [LinkOf(parts[m]).value] else []);
        var segments := SplitInTwo(parts[m], ';');
        if |segments| != 2 {
          continue;
        }
        var rel := RemoveChar(RemoveIgnoreCase(Trim(segments[1]), "rel="), '"');
        var url := RemoveChar(RemoveChar(Trim(segments[0]), '<'), '>');
        if IsBlank(rel) || IsBlank(url) {
          continue;
        }
        result := result[rel := url];
      }
      assert parts[..|parts|] == parts;
      HeaderLinksPrefix(rawLinkHeaders, n);
      StoreAppend(map[], HeaderLinks(rawLinkHeaders[..n]), PartLinks(parts));
    }
    assert rawLinkHeaders[..|rawLinkHeaders|] == rawLinkHeaders;
  }
}
