/** The records kept in `captured_links` and in the persisted
    `websites.json` array: `{"link": ..., "company_name": ...}`. */
module Entries {

  /** One captured company. Its identity is its link, compared exactly. */
  datatype Entry = Entry(link: string, companyName: string)

  /** `{entry["link"] for entry in s}`. */
  function Links(s: seq<Entry>): set<string> {
    set e | e in s :: e.link
  }

  /** No two entries of `s` share a link. */
  predicate Distinct(s: seq<Entry>) {
    forall i, j :: 0 <= i < j < |s| ==> s[i].link != s[j].link
  }

  lemma LinksAppend(a: seq<Entry>, b: seq<Entry>)
    ensures Links(a + b) == Links(a) + Links(b)
  {
  }

  lemma LinksIndex(s: seq<Entry>, l: string)
    ensures l in Links(s) <==> exists i :: 0 <= i < |s| && s[i].link == l
  {
    if l in Links(s) {
      var e :| e in s && e.link == l;
      var i :| 0 <= i < |s| && s[i] == e;
    }
  }

  /** Appending one entry keeps the links distinct exactly when its link is
      new. */
  lemma DistinctSnoc(s: seq<Entry>, e: Entry)
    ensures Distinct(s + [e]) <==> Distinct(s) && e.link !in Links(s)
  {
    var t := s + [e];
    if Distinct(t) {
      assert forall i, j :: 0 <= i < j < |s| ==> s[i] == t[i] && s[j] == t[j];
      forall i | 0 <= i < |s|
        ensures s[i].link != e.link
      {
        assert t[i] == s[i] && t[|s|] == e;
      }
      LinksIndex(s, e.link);
    }
    if Distinct(s) && e.link !in Links(s) {
      forall i, j | 0 <= i < j < |t|
        ensures t[i].link != t[j].link
      {
        if j == |s| {
          assert t[i] in s;
        } else {
          assert t[i] == s[i] && t[j] == s[j];
        }
      }
    }
  }

  /** Putting one entry in front keeps the links distinct exactly when its
      link is new. */
  lemma DistinctCons(e: Entry, s: seq<Entry>)
    ensures Distinct([e] + s) <==> Distinct(s) && e.link !in Links(s)
  {
    var t := [e] + s;
    if Distinct(t) {
      forall i, j | 0 <= i < j < |s|
        ensures s[i].link != s[j].link
      {
        assert s[i] == t[i + 1] && s[j] == t[j + 1];
      }
      forall i | 0 <= i < |s|
        ensures s[i].link != e.link
      {
        assert t[i + 1] == s[i] && t[0] == e;
      }
      LinksIndex(s, e.link);
    }
    if Distinct(s) && e.link !in Links(s) {
      forall i, j | 0 <= i < j < |t|
        ensures t[i].link != t[j].link
      {
        if i == 0 {
          assert t[j] in s;
        } else {
          assert t[i] == s[i - 1] && t[j] == s[j - 1];
        }
      }
    }
  }
}
