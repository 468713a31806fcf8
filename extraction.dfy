/** The link extractor: from the items of one search-result payload, the
    join.com company pages, each cut down to its canonical link and its
    company name. */
module Extraction {
  import opened Wrappers
  import opened PyStr
  import opened Entries

  /** The substring that marks a relevant result link. */
  const Marker := "join.com/companies/"
  /** The canonical form every stored link takes, before the company name. */
  const CanonicalPrefix := "https://join.com/companies/"

  /** One element of the payload's `items` list. `Item(None)` has no
      `link` key. `BadItem` stands for an element on which `.get`, the
      marker test or `.split` raises: an element that is not an object, a
      numeric link, or a list link that holds the marker string. */
  datatype Item = Item(link: Option<string>) | BadItem

  /** A decoded response. `Payload(None)` has no `items` key. `BadPayload`
      stands for a response on which `.get("items", [])` or iterating over
      the items raises before any item is reached. */
  datatype Payload = Payload(items: Option<seq<Item>>) | BadPayload

  /** What a fetch task delivers at `future.result()`: the decoded payload,
      or an exception (transport failure, undecodable body, no key). */
  datatype Outcome = Ok(payload: Payload) | Err

  /** `link.split(Marker)[-1].split("/")[0]`. */
  function CompanyName(link: string): string {
    Split(Last(Split(link, Marker)), "/")[0]
  }

  /** The entry one result link yields, if it contains the marker. */
  function ExtractLink(link: string): (r: Option<Entry>)
    ensures r.Some? <==> Contains(link, Marker)
  {
    if Contains(link, Marker) then
      var name := CompanyName(link);
      Some(Entry(CanonicalPrefix + name, name))
    else
      None
  }

  /** The entries a list of items yields, in item order, up to the first
      item on which extraction raises. */
  function Candidates(items: seq<Item>): seq<Entry> {
    if items == [] then []
    else match items[0]
      case BadItem => []
      case Item(link) => ToSeq(ExtractLink(link.GetOr(""))) + Candidates(items[1..])
  }

  /** The entries one outcome offers to the accumulator. */
  function Offered(o: Outcome): seq<Entry> {
    match o
    case Err => []
    case Ok(BadPayload) => []
    case Ok(Payload(None)) => []
    case Ok(Payload(Some(items))) => Candidates(items)
  }

  /** Processing the outcome raises, and the error is logged. */
  predicate Failed(o: Outcome) {
    match o
    case Err => true
    case Ok(BadPayload) => true
    case Ok(Payload(None)) => false
    case Ok(Payload(Some(items))) => BadItem in items
  }

  /** A canonical entry: its link is the prefix followed by its name, and
      the name is a single path segment. */
  ghost predicate WellFormed(e: Entry) {
    e.link == CanonicalPrefix + e.companyName && '/' !in e.companyName
  }

  lemma CanonicalPrefixShape()
    ensures CanonicalPrefix == "https://" + Marker
    ensures |Marker| == 19 && Marker[18] == '/'
  {
  }

  /** The marker never overlaps itself: its first character, `j`, does not
      occur again in it. */
  lemma MarkerNoSelfOverlap()
    ensures NoSelfOverlap(Marker)
  {
    forall d | 0 < d < |Marker|
      ensures Marker[d] != Marker[0]
    {
    }
    FirstCharUniqueNoOverlap(Marker);
  }

  /** What extraction finds: for a link containing the marker, the name is
      the text after the LAST occurrence of the marker, up to the first `/`
      or the end; the stored link is the canonical prefix and that name. */
  lemma ExtractLinkSound(link: string)
    requires Contains(link, Marker)
    ensures ExtractLink(link).Some?
    ensures WellFormed(ExtractLink(link).value)
    ensures exists i :: (LastOccurrence(link, Marker, i) &&
                         UpTo(ExtractLink(link).value.companyName, link[i + |Marker|..], '/'))
  {
    MarkerNoSelfOverlap();
    SplitLastAfterLastOccurrence(link, Marker);
    var rest := Last(Split(link, Marker));
    SplitFirstUpTo(rest, '/');
    var i := RFind(link, Marker, |link|);
    assert link[i + |Marker|..] == rest;
  }

  /** Conversely, any name after the last occurrence of the marker, up to
      the first `/`, is exactly what extraction yields. */
  lemma ExtractLinkComplete(link: string, i: int, name: string)
    requires LastOccurrence(link, Marker, i)
    requires UpTo(name, link[i + |Marker|..], '/')
    ensures ExtractLink(link) == Some(Entry(CanonicalPrefix + name, name))
  {
    assert Contains(link, Marker) by {
      assert OccursAt(link, Marker, i);
    }
    ExtractLinkSound(link);
    var j :| LastOccurrence(link, Marker, j) &&
      UpTo(ExtractLink(link).value.companyName, link[j + |Marker|..], '/');
    LastOccurrenceUnique(link, Marker, i, j);
    UpToUnique(name, ExtractLink(link).value.companyName, link[i + |Marker|..], '/');
  }

  /** In `https://` + marker + `rest`, where `rest` does not contain the
      marker, the last occurrence of the marker is the one after `https://`. */
  lemma PrefixedLastOccurrence(rest: string)
    requires !Contains(rest, Marker)
    ensures LastOccurrence("https://" + Marker + rest, Marker, 8)
  {
    var link := "https://" + Marker + rest;
    var n := 8 + |Marker|;
    MarkerNoSelfOverlap();
    assert link[8..n] == Marker;
    assert link[n..] == rest;
    forall j | 8 < j
      ensures !OccursAt(link, Marker, j)
    {
      if j < n {
        if OccursAt(link, Marker, j) {
          NoOverlappingOccurrences(link, Marker, 8, j);
        }
      } else if j + |Marker| <= |link| {
        assert link[j..j + |Marker|] == rest[j - n..j - n + |Marker|];
        assert !OccursAt(rest, Marker, j - n);
      }
    }
  }

  /** The canonical link of a single-segment name contains the marker
      exactly once, right after `https://`. */
  lemma CanonicalLastOccurrence(name: string)
    requires '/' !in name
    ensures LastOccurrence(CanonicalPrefix + name, Marker, 8)
  {
    CanonicalPrefixShape();
    MissingCharExcludes(name, Marker, 18);
    PrefixedLastOccurrence(name);
  }

  /** Extraction is idempotent: a canonical link extracts to itself. */
  lemma CanonicalIsFixpoint(link: string)
    requires Contains(link, Marker)
    ensures ExtractLink(ExtractLink(link).value.link) == ExtractLink(link)
  {
    ExtractLinkSound(link);
    var e := ExtractLink(link).value;
    CanonicalLastOccurrence(e.companyName);
    CanonicalPrefixShape();
    assert e.link[8 + |Marker|..] == e.companyName;
    ExtractLinkComplete(e.link, 8, e.companyName);
  }

  /** A link of the form `https://join.com/companies/<rest>`, with no marker
      in `rest`, yields the first segment of `rest`. */
  lemma ExtractFromCompanyPath(rest: string, name: string)
    requires !Contains(rest, Marker) && UpTo(name, rest, '/')
    ensures ExtractLink("https://" + Marker + rest) == Some(Entry(CanonicalPrefix + name, name))
  {
    var link := "https://" + Marker + rest;
    PrefixedLastOccurrence(rest);
    assert link[8 + |Marker|..] == rest;
    ExtractLinkComplete(link, 8, name);
  }

  /** The job-page example: the link
      `https://join.com/companies/acme/jobs/1` yields the link
      `https://join.com/companies/acme` and the name `acme`. */
  lemma ExtractExample(path: string)
    // The path is a parameter so that the verifier does not unroll the
    // string functions on a literal.
    requires path == "acme/jobs/1"
    ensures ExtractLink(CanonicalPrefix + path) == Some(Entry(CanonicalPrefix + "acme", "acme"))
  {
    CanonicalPrefixShape();
    assert !Contains(path, Marker) by {
      assert Marker[2] == 'i' && 'i' !in path;
      MissingCharExcludes(path, Marker, 2);
    }
    assert UpTo("acme", path, '/');
    ExtractFromCompanyPath(path, "acme");
  }

  /** Links without the marker, and a missing link (which defaults to the
      empty string), yield nothing. */
  lemma NoMarkerNoEntry(link: string)
    requires !Contains(link, Marker)
    ensures ExtractLink(link) == None
    ensures ExtractLink(Item(None).link.GetOr("")) == None
  {
    assert !Contains("", Marker);
  }

  /** Every offered entry is canonical. */
  lemma {:induction false} CandidatesWellFormed(items: seq<Item>)
    ensures forall e :: e in Candidates(items) ==> WellFormed(e)
  {
    if items != [] && items[0].Item? {
      CandidatesWellFormed(items[1..]);
      var link := items[0].link.GetOr("");
      if Contains(link, Marker) {
        ExtractLinkSound(link);
      }
    }
  }

  /** A payload without items, or whose item links all lack the marker,
      offers nothing and does not fail. */
  lemma {:induction false} IrrelevantItemsOfferNothing(items: seq<Item>)
    requires forall k :: 0 <= k < |items| ==> items[k].Item? && !Contains(items[k].link.GetOr(""), Marker)
    ensures Candidates(items) == []
    ensures Offered(Ok(Payload(Some(items)))) == [] && !Failed(Ok(Payload(Some(items))))
    ensures Offered(Ok(Payload(None))) == [] && !Failed(Ok(Payload(None)))
  {
    if items != [] {
      IrrelevantItemsOfferNothing(items[1..]);
    }
  }

  /** The entries an item list offers come from the items before the first
      one that raises, one per marked link, in item order: the items split
      at any point offer the concatenation of what the parts offer. */
  lemma {:induction false} CandidatesAppend(a: seq<Item>, b: seq<Item>)
    requires BadItem !in a
    ensures Candidates(a + b) == Candidates(a) + Candidates(b)
  {
    if a != [] {
      assert a[0] in a;
      var link := a[0].link.GetOr("");
      assert (a + b)[0] == a[0] && (a + b)[1..] == a[1..] + b;
      assert Candidates(a + b) == ToSeq(ExtractLink(link)) + Candidates(a[1..] + b);
      assert Candidates(a) == ToSeq(ExtractLink(link)) + Candidates(a[1..]);
      CandidatesAppend(a[1..], b);
    } else {
      assert a + b == b;
    }
  }

  /** Items after the first one that raises are never looked at. */
  lemma CandidatesStopAtBadItem(a: seq<Item>, b: seq<Item>)
    requires BadItem !in a
    ensures Candidates(a + [BadItem] + b) == Candidates(a)
  {
    CandidatesAppend(a, [BadItem] + b);
    assert a + [BadItem] + b == a + ([BadItem] + b);
  }
}
