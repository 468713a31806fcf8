/** The merge of the run's captured entries into the entries persisted by
    earlier runs, and the list of company names the run returns. */
module Merging {
  import opened Entries

  /** `[entry for entry in captured if entry["link"] not in known]`. */
  function FreshEntries(captured: seq<Entry>, known: set<string>): (r: seq<Entry>)
    ensures |r| <= |captured|
    ensures forall e :: e in r <==> e in captured && e.link !in known
  {
    if captured == [] then []
    else (if captured[0].link in known then [] else [captured[0]]) + FreshEntries(captured[1..], known)
  }

  /** `existing_data + new_entries`: the array written back. */
  function Merge(existing: seq<Entry>, captured: seq<Entry>): (r: seq<Entry>)
    ensures existing <= r
    ensures Links(r) == Links(existing) + Links(captured)
  {
    LinksAppend(existing, FreshEntries(captured, Links(existing)));
    FreshEntriesLinks(captured, Links(existing));
    existing + FreshEntries(captured, Links(existing))
  }

  /** `[entry["company_name"] for entry in s]`. */
  function Names(s: seq<Entry>): (r: seq<string>)
    ensures |r| == |s|
    ensures forall i :: 0 <= i < |s| ==> r[i] == s[i].companyName
  {
    if s == [] then [] else [s[0].companyName] + Names(s[1..])
  }

  /** The new entries bring exactly the captured links not yet known. */
  lemma FreshEntriesLinks(captured: seq<Entry>, known: set<string>)
    ensures Links(FreshEntries(captured, known)) == Links(captured) - known
  {
  }

  /** The filter keeps order: filtering a concatenation filters each part. */
  lemma {:induction false} FreshEntriesAppend(a: seq<Entry>, b: seq<Entry>, known: set<string>)
    ensures FreshEntries(a + b, known) == FreshEntries(a, known) + FreshEntries(b, known)
    decreases |a|
  {
    if a == [] {
      assert a + b == b;
    } else {
      assert (a + b)[0] == a[0] && (a + b)[1..] == a[1..] + b;
      FreshEntriesAppend(a[1..], b, known);
    }
  }

  /** Nothing is added once every link is known. */
  lemma {:induction false} FreshEntriesAllKnown(captured: seq<Entry>, known: set<string>)
    requires Links(captured) <= known
    ensures FreshEntries(captured, known) == []
    decreases |captured|
  {
    if captured != [] {
      assert captured[0] in captured;
      assert Links(captured[1..]) <= Links(captured) by {
        assert forall e :: e in captured[1..] ==> e in captured;
      }
      FreshEntriesAllKnown(captured[1..], known);
    }
  }

  /** Filtering keeps distinct links distinct. */
  lemma {:induction false} FreshEntriesDistinct(captured: seq<Entry>, known: set<string>)
    requires Distinct(captured)
    ensures Distinct(FreshEntries(captured, known))
    decreases |captured|
  {
    if captured != [] {
      var e, rest := captured[0], captured[1..];
      assert captured == [e] + rest;
      DistinctCons(e, rest);
      FreshEntriesDistinct(rest, known);
      if e.link !in known {
        FreshEntriesLinks(rest, known);
        DistinctCons(e, FreshEntries(rest, known));
      }
    }
  }

  /** The combined array keeps `existing_data` as a prefix and appends
      exactly the captured entries whose links are not yet stored, in
      captured order. */
  lemma MergeShape(existing: seq<Entry>, captured: seq<Entry>)
    ensures Merge(existing, captured)[..|existing|] == existing
    ensures Merge(existing, captured)[|existing|..] == FreshEntries(captured, Links(existing))
    ensures forall e :: e in Merge(existing, captured)[|existing|..] <==> e in captured && e.link !in Links(existing)
  {
  }

  /** No duplicate links: merging distinct captured entries into a
      distinct persisted array gives a distinct array. */
  lemma MergeDistinct(existing: seq<Entry>, captured: seq<Entry>)
    requires Distinct(existing) && Distinct(captured)
    ensures Distinct(Merge(existing, captured))
  {
    var added := FreshEntries(captured, Links(existing));
    var r := Merge(existing, captured);
    FreshEntriesDistinct(captured, Links(existing));
    forall i, j | 0 <= i < j < |r|
      ensures r[i].link != r[j].link
    {
      if j < |existing| {
        assert r[i] == existing[i] && r[j] == existing[j];
      } else if i < |existing| {
        assert r[i] in existing && r[j] in added;
        assert r[i].link in Links(existing);
      } else {
        assert r[i] == added[i - |existing|] && r[j] == added[j - |existing|];
      }
    }
  }

  /** Merging the same captured entries again changes nothing. */
  lemma MergeIdempotent(existing: seq<Entry>, captured: seq<Entry>)
    ensures Merge(Merge(existing, captured), captured) == Merge(existing, captured)
  {
    var r := Merge(existing, captured);
    FreshEntriesAllKnown(captured, Links(r));
    assert r + [] == r;
  }

  /** A run that captured nothing leaves the persisted array as it was. */
  lemma MergeNothing(existing: seq<Entry>)
    ensures Merge(existing, []) == existing
  {
    assert existing + [] == existing;
  }

  /** Without a persisted file every captured entry is new. */
  lemma {:induction false} MergeIntoNothing(captured: seq<Entry>)
    ensures Merge([], captured) == captured
    decreases |captured|
  {
    if captured != [] {
      MergeIntoNothing(captured[1..]);
    }
  }

  /** The names returned are the persisted names followed by the new ones. */
  lemma {:induction false} NamesAppend(a: seq<Entry>, b: seq<Entry>)
    ensures Names(a + b) == Names(a) + Names(b)
    decreases |a|
  {
    if a != [] {
      assert (a + b)[1..] == a[1..] + b;
      NamesAppend(a[1..], b);
    } else {
      assert a + b == b;
    }
  }

  /** The merge example: the already stored link A is not
      added again, the new link B is. */
  lemma MergeExample(existing: seq<Entry>, captured: seq<Entry>)
    // The arrays are parameters so that the verifier does not unroll the
    // filter on literals.
    requires existing == [Entry("A", "Acme")]
    requires captured == [Entry("A", "Acme Corp"), Entry("B", "Beta")]
    ensures Merge(existing, captured) == [Entry("A", "Acme"), Entry("B", "Beta")]
    ensures Names(FreshEntries(captured, Links(existing))) == ["Beta"]
    ensures Names(Merge(existing, captured)) == ["Acme", "Beta"]
  {
    assert Links(existing) == {"A"};
    assert captured[1..][1..] == [];
    assert FreshEntries(captured, {"A"}) == [Entry("B", "Beta")];
  }
}
