/**
 * How download-data.py finds the next page in a `Link` response header.
 * The header is split at every `,`; each entry is split at every `;`. The
 * URL is the first part, stripped, with its first and last characters cut
 * off (meant to be `<` and `>`). The entry is chosen when its whole stripped
 * second part is exactly `next`. The `rel` parameter of Web Linking
 * (RFC 8288, section 3) is not parsed, so the standard form `rel="next"`
 * never matches. An entry without `;` has no second part, and indexing it
 * raises `IndexError`.
 */
module LinkHeader {
  import opened Text

  datatype LinkResult =
      /** The URL of the first entry whose relation text is `next`. */
    | Next(url: string)
      /** No entry matches: `next_link` stays `None`. */
    | NoNext
      /** `parts[1]` raised for this entry before any entry matched. */
    | Malformed(entry: string)

  /** `link.split(';')` has a second part, which holds exactly when the entry contains `;`. */
  predicate HasParams(entry: string)
  {
    |Split(entry, ';')| >= 2
  }

  /** `parts[0].strip()[1:-1]`. */
  function EntryUrl(entry: string): string
  {
    DropEnds(Strip(Split(entry, ';')[0]))
  }

  /** `parts[1].strip()`. */
  function EntryRel(entry: string): string
    requires HasParams(entry)
  {
    Strip(Split(entry, ';')[1])
  }

  predicate IsNext(entry: string)
  {
    HasParams(entry) && EntryRel(entry) == "next"
  }

  /** The `for link in links` loop, with its `break` at the first match. */
  function ScanLinks(links: seq<string>): LinkResult
  {
    if links == [] then NoNext
    else if !HasParams(links[0]) then Malformed(links[0])
    else if EntryRel(links[0]) == "next" then Next(EntryUrl(links[0]))
    else ScanLinks(links[1..])
  }

  /** The next-link rule applied to a whole header value. */
  function NextLink(header: string): LinkResult
  {
    ScanLinks(Split(header, ','))
  }

  /**
   * The scan is decided by the first entry that either lacks `;` or is a
   * `next` entry; the entries after it are never looked at.
   */
  lemma {:induction false} ScanLinksFirstDecisive(links: seq<string>, i: nat)
    requires i < |links|
    requires forall j :: 0 <= j < i ==> HasParams(links[j]) && !IsNext(links[j])
    requires !HasParams(links[i]) || IsNext(links[i])
    ensures ScanLinks(links) == if HasParams(links[i]) then Next(EntryUrl(links[i])) else Malformed(links[i])
  {
    if i > 0 {
      assert HasParams(links[0]) && !IsNext(links[0]);
      ScanLinksFirstDecisive(links[1..], i - 1);
    }
  }

  /** No next link is found exactly when every entry has `;` and none is a `next` entry. */
  lemma {:induction false} ScanLinksNone(links: seq<string>)
    ensures ScanLinks(links) == NoNext <==> forall j :: 0 <= j < |links| ==> HasParams(links[j]) && !IsNext(links[j])
  {
    if links != [] {
      ScanLinksNone(links[1..]);
      if HasParams(links[0]) && !IsNext(links[0]) {
        assert forall j :: 1 <= j < |links| ==> links[j] == links[1..][j - 1];
      }
    }
  }

  /** Lines 58-70 of download-data.py, once the header is known to be non-empty. */
  method ParseNextLink(header: string) returns (r: LinkResult)
    ensures r == NextLink(header)
  {
    var links := Split(header, ',');
    r := NoNext;
    var i := 0;
    while i < |links|
      invariant 0 <= i <= |links|
      invariant ScanLinks(links[i..]) == ScanLinks(links)
      invariant r == NoNext
    {
      var parts := Split(links[i], ';');
      var url := DropEnds(Strip(parts[0]));
      if |parts| < 2 {
        return Malformed(links[i]);
      }
      var rel := Strip(parts[1]);
      if rel == "next" {
        r := Next(url);
        break;
      }
      assert links[i..][1..] == links[i + 1..];
      i := i + 1;
    }
  }

  lemma ParseSingleEntry(header: string, url: string, rel: string)
    requires ',' !in url && ';' !in url && ',' !in rel && ';' !in rel
    requires header == url + ";" + rel
    ensures Split(header, ',') == [header]
    ensures Split(header, ';') == [url, rel]
  {
    assert header == Join([url, rel], ';');
    SplitJoin([url, rel], ';');
    assert ',' !in header by {
      forall c | c in header ensures c != ',' {
        var k :| 0 <= k < |header| && header[k] == c;
        if k < |url| {
          assert header[k] == url[k];
        } else if k > |url| {
          assert header[k] == rel[k - |url| - 1];
        }
      }
    }
    SplitPieces(header, ',');
    JoinSplit(header, ',');
  }

  /** A header `<u>; next` yields `u` back, for any `u` free of `,` and `;`. */
  lemma NextEntryRoundTrip(u: string)
    requires ',' !in u && ';' !in u
    ensures NextLink("<" + u + ">; next") == Next(u)
  {
    var url := "<" + u + ">";
    ParseSingleEntry(url + "; next", url, " next");
    assert "<" + u + ">; next" == url + ";" + " next";
    StripUnchanged(url);
    StripOneSpace("next");
    assert DropEnds(url) == u;
  }

  /** Stripping a single leading space off a string with no whitespace at its ends. */
  lemma StripOneSpace(s: string)
    requires s != [] && !IsSpace(s[0]) && !IsSpace(s[|s| - 1])
    ensures Strip(" " + s) == s
  {
    assert (" " + s)[1..] == s;
    assert StripLeading(" " + s) == StripLeading(s) == s;
  }

  /** The standard Web Linking form `<u>; rel="next"` is not recognised. */
  lemma QuotedRelNeverMatches(u: string)
    requires ',' !in u && ';' !in u
    ensures NextLink("<" + u + ">; rel=\"next\"") == NoNext
  {
    var url := "<" + u + ">";
    var rel := "rel=\"next\"";
    var h := "<" + u + ">; rel=\"next\"";
    assert h == url + ";" + (" " + rel);
    ParseSingleEntry(h, url, " " + rel);
    StripOneSpace(rel);
    assert EntryRel(h) == rel;
    assert rel != "next" by {
      assert |rel| != |"next"|;
    }
    assert ScanLinks([h]) == ScanLinks([h][1..]);
    assert [h][1..] == [];
  }
}
