/** The accumulator `captured_links`: entries gathered from the outcomes of
    all fetch tasks as they complete, at most one per link, the first
    arrival winning. */
module Accumulation {
  import opened Wrappers
  import opened PyStr
  import opened Entries
  import opened Extraction

  /** One insertion attempt: the entry is appended when its link is new. */
  function Admit(acc: seq<Entry>, e: Entry): seq<Entry> {
    if e.link in Links(acc) then acc else acc + [e]
  }

  /** The insertion attempts for `s`, in order. */
  function AdmitAll(acc: seq<Entry>, s: seq<Entry>): seq<Entry>
    decreases |s|
  {
    if s == [] then acc else AdmitAll(Admit(acc, s[0]), s[1..])
  }

  /** The accumulator after the outcomes `outs`, taken in completion order. */
  function Harvest(acc: seq<Entry>, outs: seq<Outcome>): seq<Entry>
    decreases |outs|
  {
    if outs == [] then acc else Harvest(AdmitAll(acc, Offered(outs[0])), outs[1..])
  }

  /** Every link some outcome of `outs` offers. */
  ghost function HarvestedLinks(outs: seq<Outcome>): set<string> {
    set o, l | o in outs && l in Links(Offered(o)) :: l
  }

  /** The outcomes that did not fail at `future.result()`. */
  function WithoutErrors(outs: seq<Outcome>): (r: seq<Outcome>)
    ensures forall o :: o in r <==> o in outs && o.Ok?
  {
    if outs == [] then []
    else (if outs[0].Err? then [] else [outs[0]]) + WithoutErrors(outs[1..])
  }

  /** Earlier entries are never changed, removed or reordered. */
  lemma {:induction false} AdmitAllKeepsPrefix(acc: seq<Entry>, s: seq<Entry>)
    ensures acc <= AdmitAll(acc, s)
    decreases |s|
  {
    if s != [] {
      AdmitAllKeepsPrefix(Admit(acc, s[0]), s[1..]);
    }
  }

  /** The links afterwards are the links before plus the offered links. */
  lemma {:induction false} AdmitAllLinks(acc: seq<Entry>, s: seq<Entry>)
    ensures Links(AdmitAll(acc, s)) == Links(acc) + Links(s)
    decreases |s|
  {
    if s != [] {
      AdmitAllLinks(Admit(acc, s[0]), s[1..]);
      LinksAppend(acc, [s[0]]);
      LinksAppend([s[0]], s[1..]);
      assert s == [s[0]] + s[1..];
    }
  }

  /** Insertion keeps the links pairwise distinct. */
  lemma {:induction false} AdmitAllDistinct(acc: seq<Entry>, s: seq<Entry>)
    requires Distinct(acc)
    ensures Distinct(AdmitAll(acc, s))
    decreases |s|
  {
    if s != [] {
      DistinctSnoc(acc, s[0]);
      AdmitAllDistinct(Admit(acc, s[0]), s[1..]);
    }
  }

  /** The links of a non-empty prefix of `s` are the first link and the
      links of the rest's shorter prefix. */
  lemma PrefixLinks(s: seq<Entry>, k: nat)
    requires 0 < k <= |s|
    ensures Links(s[..k]) == {s[0].link} + Links(s[1..][..k - 1])
  {
    assert s[..k] == [s[0]] + s[1..][..k - 1];
    LinksAppend([s[0]], s[1..][..k - 1]);
  }

  /** First writer wins: an offered entry whose link no earlier entry had,
      before or among the offers, ends up in the accumulator. */
  lemma {:induction false} AdmitAllKeepsFirst(acc: seq<Entry>, s: seq<Entry>, k: nat)
    requires k < |s| && s[k].link !in Links(acc) + Links(s[..k])
    ensures s[k] in AdmitAll(acc, s)
    decreases |s|
  {
    var acc' := Admit(acc, s[0]);
    if k == 0 {
      assert s[0] in acc';
      AdmitAllKeepsPrefix(acc', s[1..]);
    } else {
      PrefixLinks(s, k);
      LinksAppend(acc, [s[0]]);
      assert s[1..][k - 1] == s[k];
      AdmitAllKeepsFirst(acc', s[1..], k - 1);
    }
  }

  /** Conversely, every entry the accumulator gains is the first offered
      entry with its link. */
  lemma {:induction false} AdmitAllGainsFirst(acc: seq<Entry>, s: seq<Entry>, e: Entry)
    requires e in AdmitAll(acc, s) && e !in acc
    ensures exists k :: 0 <= k < |s| && s[k] == e && e.link !in Links(acc) + Links(s[..k])
    decreases |s|
  {
    var acc' := Admit(acc, s[0]);
    LinksAppend(acc, [s[0]]);
    if e in acc' {
      assert s[..0] == [];
      assert s[0] == e && e.link !in Links(acc) + Links(s[..0]);
    } else {
      AdmitAllGainsFirst(acc', s[1..], e);
      var k' :| 0 <= k' < |s[1..]| && s[1..][k'] == e && e.link !in Links(acc') + Links(s[1..][..k']);
      PrefixLinks(s, k' + 1);
      assert s[k' + 1] == e && e.link !in Links(acc) + Links(s[..k' + 1]);
    }
  }

  /** The run's accumulator starts from what it had and only grows. */
  lemma {:induction false} HarvestKeepsPrefix(acc: seq<Entry>, outs: seq<Outcome>)
    ensures acc <= Harvest(acc, outs)
    decreases |outs|
  {
    if outs != [] {
      AdmitAllKeepsPrefix(acc, Offered(outs[0]));
      HarvestKeepsPrefix(AdmitAll(acc, Offered(outs[0])), outs[1..]);
    }
  }

  /** The captured links are the union of the links each outcome offers. */
  lemma {:induction false} HarvestLinks(acc: seq<Entry>, outs: seq<Outcome>)
    ensures Links(Harvest(acc, outs)) == Links(acc) + HarvestedLinks(outs)
    decreases |outs|
  {
    if outs != [] {
      var acc' := AdmitAll(acc, Offered(outs[0]));
      HarvestLinks(acc', outs[1..]);
      AdmitAllLinks(acc, Offered(outs[0]));
      HarvestedLinksCons(outs);
    }
  }

  /** The links offered by the first outcome and by the rest. */
  lemma HarvestedLinksCons(outs: seq<Outcome>)
    requires outs != []
    ensures HarvestedLinks(outs) == Links(Offered(outs[0])) + HarvestedLinks(outs[1..])
  {
    assert forall o :: o in outs <==> o == outs[0] || o in outs[1..] by {
      assert outs == [outs[0]] + outs[1..];
    }
  }

  /** The accumulator never holds two entries with the same link. */
  lemma {:induction false} HarvestDistinct(acc: seq<Entry>, outs: seq<Outcome>)
    requires Distinct(acc)
    ensures Distinct(Harvest(acc, outs))
    decreases |outs|
  {
    if outs != [] {
      AdmitAllDistinct(acc, Offered(outs[0]));
      HarvestDistinct(AdmitAll(acc, Offered(outs[0])), outs[1..]);
    }
  }

  /** Failure isolation: a task that failed at `future.result()` changes
      nothing, so the accumulator is what the other outcomes alone give. */
  lemma {:induction false} HarvestIgnoresErrors(acc: seq<Entry>, outs: seq<Outcome>)
    ensures Harvest(acc, outs) == Harvest(acc, WithoutErrors(outs))
    decreases |outs|
  {
    if outs != [] {
      var o, rest := outs[0], outs[1..];
      var acc' := AdmitAll(acc, Offered(o));
      HarvestIgnoresErrors(acc', rest);
      var w := WithoutErrors(rest);
      if o.Err? {
        assert WithoutErrors(outs) == [] + w;
        assert [] + w == w;
      } else {
        assert WithoutErrors(outs) == [o] + w;
        HarvestCons(acc, o, w);
      }
    }
  }

  /** Absorbing `o` and then `rest`. */
  lemma HarvestCons(acc: seq<Entry>, o: Outcome, rest: seq<Outcome>)
    ensures Harvest(acc, [o] + rest) == Harvest(AdmitAll(acc, Offered(o)), rest)
  {
    assert ([o] + rest)[1..] == rest;
  }

  /** The set of captured links does not depend on the completion order. */
  lemma HarvestOrderIrrelevant(acc: seq<Entry>, a: seq<Outcome>, b: seq<Outcome>)
    requires multiset(a) == multiset(b)
    ensures Links(Harvest(acc, a)) == Links(Harvest(acc, b))
  {
    HarvestLinks(acc, a);
    HarvestLinks(acc, b);
    assert forall o :: o in a <==> o in b by {
      forall o
        ensures o in a <==> o in b
      {
        assert o in a <==> o in multiset(a);
        assert o in b <==> o in multiset(b);
      }
    }
    assert HarvestedLinks(a) == HarvestedLinks(b);
  }

  /** `captured_links`, owned by one run. */
  class Accumulator {
    var entries: seq<Entry>

    ghost predicate Valid()
      reads this
    {
      Distinct(entries)
    }

    constructor ()
      ensures Valid() && entries == []
    {
      entries := [];
    }

    /** The membership test and append of one canonical entry. */
    method Offer(e: Entry) returns (added: bool)
      requires Valid()
      modifies this
      ensures Valid()
      ensures added <==> e.link !in Links(old(entries))
      ensures entries == if added then old(entries) + [e] else old(entries)
      ensures entries == Admit(old(entries), e)
    {
      added := e.link !in Links(entries);
      if added {
        DistinctSnoc(entries, e);
        entries := entries + [e];
      }
    }

    /** The body of the `as_completed` loop for one outcome: every item's
        link is tested for the marker, cut down and offered, until an item
        raises; an outcome that raises is logged and reported as failed. */
    method Absorb(o: Outcome) returns (failed: bool)
      requires Valid()
      modifies this
      ensures Valid()
      ensures entries == AdmitAll(old(entries), Offered(o))
      ensures failed == Failed(o)
    {
      match o
      case Err =>
        failed := true;
      case Ok(BadPayload) =>
        failed := true;
      case Ok(Payload(None)) =>
        failed := false;
      case Ok(Payload(Some(items))) =>
        failed := AbsorbItems(items);
    }

    /** The `for item in result.get("items", [])` loop. */
    method AbsorbItems(items: seq<Item>) returns (failed: bool)
      requires Valid()
      modifies this
      ensures Valid()
      ensures entries == AdmitAll(old(entries), Candidates(items))
      ensures failed == (BadItem in items)
    {
      failed := false;
      var i := 0;
      while i < |items|
        invariant 0 <= i <= |items|
        invariant Valid()
        invariant BadItem !in items[..i]
        invariant AdmitAll(entries, Candidates(items[i..])) == AdmitAll(old(entries), Candidates(items))
      {
        if items[i].BadItem? {
          failed := true;
          assert Candidates(items[i..]) == [];
          assert items[i] in items;
          return;
        }
        var link := items[i].link.GetOr("");
        ghost var before := entries;
        AbsorbLink(link);
        AdmitAllAppend(before, ToSeq(ExtractLink(link)), Candidates(items[i + 1..]));
        assert items[i..][1..] == items[i + 1..];
        assert items[..i + 1] == items[..i] + [items[i]];
        i := i + 1;
      }
      assert items[..i] == items;
    }

    /** One item's link: tested for the marker, cut down to its company
        and offered. */
    method AbsorbLink(link: string)
      requires Valid()
      modifies this
      ensures Valid()
      ensures entries == AdmitAll(old(entries), ToSeq(ExtractLink(link)))
    {
      if Contains(link, Marker) {
        var companyName := CompanyName(link);
        var canonical := CanonicalPrefix + companyName;
        var _ := Offer(Entry(canonical, companyName));
        assert [Entry(canonical, companyName)][1..] == [];
      }
    }
  }

  /** Offering `a` then `b` is offering `a + b`. */
  lemma {:induction false} AdmitAllAppend(acc: seq<Entry>, a: seq<Entry>, b: seq<Entry>)
    ensures AdmitAll(acc, a + b) == AdmitAll(AdmitAll(acc, a), b)
    decreases |a|
  {
    if a == [] {
      assert a + b == b;
    } else {
      assert (a + b)[0] == a[0] && (a + b)[1..] == a[1..] + b;
      AdmitAllAppend(Admit(acc, a[0]), a[1..], b);
    }
  }
}
