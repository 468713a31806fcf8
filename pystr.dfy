/** The few operations on Python `str` values that the scraper relies on:
    the `in` operator, `str.find` and `str.split` with a non-empty separator.
    They are written out here because the extraction of company names is
    defined by exactly how Python cuts a link into pieces. */
module PyStr {

  /** `sep` occurs in `s` starting at index `i`. */
  predicate OccursAt(s: string, sep: string, i: int) {
    0 <= i && i + |sep| <= |s| && s[i..i + |sep|] == sep
  }

  /** Python's `sep in s`. */
  predicate Contains(s: string, sep: string) {
    exists i | 0 <= i <= |s| - |sep| :: OccursAt(s, sep, i)
  }

  /** `i` is the start of the last occurrence of `sep` in `s`. */
  ghost predicate LastOccurrence(s: string, sep: string, i: int) {
    OccursAt(s, sep, i) && forall j :: i < j ==> !OccursAt(s, sep, j)
  }

  /** The suffix of `sep` from index `d` is also a prefix of `sep`, so a
      second copy of `sep` can start `d` characters into the first. */
  ghost predicate Border(sep: string, d: nat)
    requires d <= |sep|
  {
    sep[d..] == sep[..|sep| - d]
  }

  /** No proper suffix of `sep` is also a prefix of it, so two occurrences
      of `sep` in a string never overlap. */
  ghost predicate NoSelfOverlap(sep: string) {
    forall d: nat :: 0 < d < |sep| ==> !Border(sep, d)
  }

  /** `name` is what `rest.split(c)[0]` yields: the longest prefix of `rest`
      in which `c` does not occur. */
  ghost predicate UpTo(name: string, rest: string, c: char) {
    c !in name && name <= rest && (|name| == |rest| || rest[|name|] == c)
  }

  /** Python's `s.find(sep, start)`: the lowest index at or after `start`
      where `sep` occurs, or -1. */
  function Find(s: string, sep: string, start: nat): (r: int)
    requires start <= |s|
    ensures r == -1 || (start <= r && OccursAt(s, sep, r))
    decreases |s| - start
  {
    if start + |sep| > |s| then -1
    else if s[start..start + |sep|] == sep then start
    else Find(s, sep, start + 1)
  }

  /** The highest index at or below `hi` where `sep` occurs, or -1;
      `RFind(s, sep, |s|)` is Python's `s.rfind(sep)`. */
  function RFind(s: string, sep: string, hi: int): (r: int)
    ensures r == -1 || (0 <= r <= hi && OccursAt(s, sep, r))
    decreases hi + 1
  {
    if hi < 0 then -1
    else if OccursAt(s, sep, hi) then hi
    else RFind(s, sep, hi - 1)
  }

  /** The pieces of `s[start..]` cut at the occurrences of `sep` found
      left to right, as CPython's `str.split` cuts them. */
  function SplitFrom(s: string, sep: string, start: nat): (r: seq<string>)
    requires |sep| > 0 && start <= |s|
    ensures |r| >= 1
    decreases |s| - start
  {
    var i := Find(s, sep, start);
    if i == -1 then [s[start..]] else [s[start..i]] + SplitFrom(s, sep, i + |sep|)
  }

  /** Python's `s.split(sep)` for a non-empty separator. */
  function Split(s: string, sep: string): seq<string>
    requires |sep| > 0
  {
    SplitFrom(s, sep, 0)
  }

  /** Python's `sep.join(pieces)` for a non-empty list of pieces. */
  function Join(pieces: seq<string>, sep: string): string
    requires |pieces| >= 1
  {
    if |pieces| == 1 then pieces[0] else pieces[0] + sep + Join(pieces[1..], sep)
  }

  /** Python's `xs[-1]`. */
  function Last<T>(xs: seq<T>): T
    requires |xs| >= 1
  {
    xs[|xs| - 1]
  }

  /** `find` returns the FIRST occurrence: there is none before it. */
  lemma {:induction false} FindFirst(s: string, sep: string, start: nat)
    requires start <= |s|
    ensures forall j :: start <= j && (Find(s, sep, start) == -1 || j < Find(s, sep, start)) ==> !OccursAt(s, sep, j)
    decreases |s| - start
  {
    if start + |sep| <= |s| && s[start..start + |sep|] != sep {
      FindFirst(s, sep, start + 1);
    }
  }

  /** `rfind` returns the LAST occurrence: there is none after it. */
  lemma {:induction false} RFindLast(s: string, sep: string, hi: int)
    ensures forall j :: RFind(s, sep, hi) < j <= hi ==> !OccursAt(s, sep, j)
    decreases hi + 1
  {
    if hi >= 0 && !OccursAt(s, sep, hi) {
      RFindLast(s, sep, hi - 1);
    }
  }

  /** A string that contains `sep` has a last occurrence of it, the one
      `rfind` reports. */
  lemma RFindFindsLast(s: string, sep: string)
    requires Contains(s, sep)
    ensures LastOccurrence(s, sep, RFind(s, sep, |s|))
  {
    var i :| 0 <= i <= |s| - |sep| && OccursAt(s, sep, i);
    RFindLast(s, sep, |s|);
    assert RFind(s, sep, |s|) != -1;
  }

  lemma OccursInSlice(s: string, sep: string, a: nat, b: nat, j: int)
    requires a <= b <= |s| && OccursAt(s[a..b], sep, j)
    ensures OccursAt(s, sep, a + j) && a + j + |sep| <= b
  {
    assert s[a..b][j..j + |sep|] == sep;
    forall t | 0 <= t < |sep|
      ensures s[a + j..a + j + |sep|][t] == sep[t]
    {
      assert s[a..b][j..j + |sep|][t] == s[a + j + t];
    }
  }

  /** The `Contains` of a single character is membership. */
  lemma ContainsChar(s: string, c: char)
    ensures Contains(s, [c]) <==> c in s
  {
    if c in s {
      var i :| 0 <= i < |s| && s[i] == c;
      assert s[i..i + 1] == [c];
      assert OccursAt(s, [c], i);
    }
    if Contains(s, [c]) {
      var i :| 0 <= i <= |s| - 1 && OccursAt(s, [c], i);
      assert s[i] == s[i..i + 1][0];
    }
  }

  /** A string that lacks some character of `sep` cannot contain `sep`. */
  lemma MissingCharExcludes(s: string, sep: string, k: nat)
    requires k < |sep| && sep[k] !in s
    ensures !Contains(s, sep)
  {
    forall i | 0 <= i <= |s| - |sep|
      ensures !OccursAt(s, sep, i)
    {
      assert s[i..i + |sep|][k] == s[i + k];
    }
  }

  /** Joining the pieces of a split gives back the split string. */
  lemma {:induction false} SplitFromJoin(s: string, sep: string, start: nat)
    requires |sep| > 0 && start <= |s|
    ensures Join(SplitFrom(s, sep, start), sep) == s[start..]
    decreases |s| - start
  {
    var i := Find(s, sep, start);
    if i != -1 {
      var next := i + |sep|;
      SplitFromJoin(s, sep, next);
      JoinCons(s[start..i], SplitFrom(s, sep, next), sep);
      assert s[start..] == s[start..i] + s[i..next] + s[next..];
    }
  }

  /** `sep.join([p] + rest)` is `p + sep + sep.join(rest)`. */
  lemma JoinCons(p: string, rest: seq<string>, sep: string)
    requires |rest| >= 1
    ensures Join([p] + rest, sep) == p + sep + Join(rest, sep)
  {
    assert ([p] + rest)[1..] == rest;
  }

  lemma SplitJoin(s: string, sep: string)
    requires |sep| > 0
    ensures Join(Split(s, sep), sep) == s
  {
    SplitFromJoin(s, sep, 0);
    assert s[0..] == s;
  }

  /** No piece of a split contains the separator. */
  lemma {:induction false} SplitFromPiecesFree(s: string, sep: string, start: nat)
    requires |sep| > 0 && start <= |s|
    ensures forall k :: 0 <= k < |SplitFrom(s, sep, start)| ==> !Contains(SplitFrom(s, sep, start)[k], sep)
    decreases |s| - start
  {
    var i := Find(s, sep, start);
    var pieces := SplitFrom(s, sep, start);
    var end := if i == -1 then |s| else i;
    assert pieces[0] == s[start..end];
    FindFirst(s, sep, start);
    if Contains(s[start..end], sep) {
      var j :| 0 <= j <= |s[start..end]| - |sep| && OccursAt(s[start..end], sep, j);
      OccursInSlice(s, sep, start, end, j);
      assert false;
    }
    if i != -1 {
      var rest := SplitFrom(s, sep, i + |sep|);
      SplitFromPiecesFree(s, sep, i + |sep|);
      assert pieces == [s[start..i]] + rest;
      forall k | 1 <= k < |pieces|
        ensures !Contains(pieces[k], sep)
      {
        assert pieces[k] == rest[k - 1];
      }
    }
  }

  lemma SplitPiecesFree(s: string, sep: string)
    requires |sep| > 0
    ensures forall p :: p in Split(s, sep) ==> !Contains(p, sep)
  {
    SplitFromPiecesFree(s, sep, 0);
  }

  /** A split yields more than one piece exactly when the separator occurs. */
  lemma SplitCount(s: string, sep: string)
    requires |sep| > 0
    ensures |Split(s, sep)| > 1 <==> Contains(s, sep)
  {
    FindFindsOccurrence(s, sep);
  }

  /** `s.find(sep)` is -1 exactly when `sep in s` is false. */
  lemma FindFindsOccurrence(s: string, sep: string)
    ensures Find(s, sep, 0) != -1 <==> Contains(s, sep)
  {
    FindFirst(s, sep, 0);
    var i := Find(s, sep, 0);
    if i != -1 {
      assert OccursAt(s, sep, i);
    }
  }

  /** Two occurrences of a separator that does not overlap itself are at
      least its length apart. */
  lemma NoOverlappingOccurrences(s: string, sep: string, i: int, j: int)
    requires NoSelfOverlap(sep) && OccursAt(s, sep, i) && OccursAt(s, sep, j)
    requires i < j
    ensures i + |sep| <= j
  {
    if j < i + |sep| {
      OverlapIsBorder(s, sep, i, j);
    }
  }

  /** Two overlapping occurrences of `sep` make a suffix of `sep` equal to
      a prefix of it. */
  lemma OverlapIsBorder(s: string, sep: string, i: int, j: int)
    requires OccursAt(s, sep, i) && OccursAt(s, sep, j)
    requires i < j < i + |sep|
    ensures Border(sep, j - i)
  {
    var d := j - i;
    assert sep[d..] == s[i..i + |sep|][d..];
    assert sep[..|sep| - d] == s[j..j + |sep|][..|sep| - d];
  }

  /** If the first character of `sep` does not occur again in `sep`, then
      `sep` does not overlap itself. */
  lemma FirstCharUniqueNoOverlap(sep: string)
    requires forall d :: 0 < d < |sep| ==> sep[d] != sep[0]
    ensures NoSelfOverlap(sep)
  {
    forall d: nat | 0 < d < |sep|
      ensures !Border(sep, d)
    {
      assert sep[d..][0] == sep[d];
      assert sep[..|sep| - d][0] == sep[0];
    }
  }

  /** Splitting from `start`, at or before the last occurrence `i` of a
      separator that cannot overlap itself, ends with the text after `i`. */
  lemma {:induction false} SplitFromLastPiece(s: string, sep: string, start: nat, i: int)
    requires |sep| > 0 && NoSelfOverlap(sep) && LastOccurrence(s, sep, i) && start <= i
    ensures Last(SplitFrom(s, sep, start)) == s[i + |sep|..]
    decreases i - start
  {
    FindFirst(s, sep, start);
    var f := Find(s, sep, start);
    var next := f + |sep|;
    if f == i {
      FindFirst(s, sep, next);
      assert Find(s, sep, next) == -1;
      SplitFromStep(s, sep, start);
    } else {
      NoOverlappingOccurrences(s, sep, f, i);
      SplitFromLastPiece(s, sep, next, i);
      SplitFromStep(s, sep, start);
    }
  }

  /** One cut of a split whose separator is found: the last piece is the
      last piece of the rest. */
  lemma SplitFromStep(s: string, sep: string, start: nat)
    requires |sep| > 0 && start <= |s| && Find(s, sep, start) != -1
    ensures Last(SplitFrom(s, sep, start)) == Last(SplitFrom(s, sep, Find(s, sep, start) + |sep|))
  {
    var i := Find(s, sep, start);
    var rest := SplitFrom(s, sep, i + |sep|);
    var pieces := SplitFrom(s, sep, start);
    assert |pieces| == 1 + |rest|;
    assert pieces[|pieces| - 1] == rest[|rest| - 1];
  }

  /** For a separator that cannot overlap itself, `s.split(sep)[-1]` is the
      text after the last occurrence of `sep`: `s[s.rfind(sep) + len(sep):]`. */
  lemma SplitLastAfterLastOccurrence(s: string, sep: string)
    requires |sep| > 0 && NoSelfOverlap(sep) && Contains(s, sep)
    ensures LastOccurrence(s, sep, RFind(s, sep, |s|))
    ensures Last(Split(s, sep)) == s[RFind(s, sep, |s|) + |sep|..]
  {
    RFindFindsLast(s, sep);
    SplitFromLastPiece(s, sep, 0, RFind(s, sep, |s|));
  }

  /** There is only one last occurrence. */
  lemma LastOccurrenceUnique(s: string, sep: string, i: int, j: int)
    requires LastOccurrence(s, sep, i) && LastOccurrence(s, sep, j)
    ensures i == j
  {
  }

  /** `s.split(c)[0]` is the longest prefix of `s` free of `c`. */
  lemma SplitFirstUpTo(s: string, c: char)
    ensures UpTo(Split(s, [c])[0], s, c)
  {
    var i := Find(s, [c], 0);
    FindFirst(s, [c], 0);
    var name := Split(s, [c])[0];
    var end := if i == -1 then |s| else i;
    assert name == s[..end];
    if c in name {
      var k :| 0 <= k < |name| && name[k] == c;
      assert s[k..k + 1] == [c];
      assert OccursAt(s, [c], k);
      assert false;
    }
    if i != -1 {
      assert s[i] == s[i..i + 1][0];
    }
  }

  /** The longest `c`-free prefix is unique. */
  lemma UpToUnique(a: string, b: string, s: string, c: char)
    requires UpTo(a, s, c) && UpTo(b, s, c)
    ensures a == b
  {

  }
}
