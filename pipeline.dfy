/** One run of the scraper: build the tasks, fetch each with the next API
    key, absorb the outcomes in completion order, merge into the persisted
    entries and return the company names. */
module Pipeline {
  import opened Wrappers
  import opened Entries
  import opened Tasks
  import opened Rotation
  import opened Extraction
  import opened Accumulation
  import opened Merging

  /** The query parameters of one API call: `q`, `cx`, `key`, `start`. */
  datatype Request = Request(q: string, cx: string, key: string, start: int)

  /** The search API, seen from the scraper: what a request delivers. */
  type Api = Request -> Outcome

  /** `fetch_results(cse_id, query, start_index)` given the key `next`
      produced: without a key, `next` raised and so does the task. */
  function FetchOutcome(task: FetchTask, key: Option<string>, api: Api): Outcome {
    match key
    case None => Err
    case Some(k) => api(Request(task.query, task.cseId, k, task.start))
  }

  /** The outcome of every task, keys drawn in submission order from call
      number `calls` on. */
  ghost function Planned(tasks: seq<FetchTask>, keys: seq<string>, calls: nat, api: Api): (r: seq<Outcome>)
    ensures |r| == |tasks|
  {
    seq(|tasks|, i requires 0 <= i < |tasks| => FetchOutcome(tasks[i], KeyAt(keys, calls + i), api))
  }

  /** `0, 1, ..., n - 1`. */
  function Indices(n: nat): (r: seq<nat>)
    ensures |r| == n && forall i :: 0 <= i < n ==> r[i] == i
  {
    if n == 0 then [] else Indices(n - 1) + [n - 1]
  }

  /** `order` lists every task index exactly once: a completion order. */
  predicate IsCompletionOrder(order: seq<nat>, n: nat) {
    multiset(order) == multiset(Indices(n))
  }

  /** The outcomes `outs` in the completion order `order`. */
  function InOrder(outs: seq<Outcome>, order: seq<nat>): seq<Outcome>
    requires forall k :: 0 <= k < |order| ==> order[k] < |outs|
  {
    seq(|order|, k requires 0 <= k < |order| => outs[order[k]])
  }

  /** A completion order only names tasks, and names each of them. */
  lemma CompletionOrderIndices(order: seq<nat>, n: nat)
    requires IsCompletionOrder(order, n)
    ensures forall i: nat :: i in order <==> i < n
  {
    forall i: nat
      ensures i in order <==> i < n
    {
      assert i in order <==> i in multiset(order);
      assert i in Indices(n) <==> i in multiset(Indices(n));
      if i < n {
        assert Indices(n)[i] == i;
      }
    }
  }

  /** Completing in any order delivers the same outcomes. */
  lemma InOrderSameOutcomes(outs: seq<Outcome>, order: seq<nat>)
    requires IsCompletionOrder(order, |outs|)
    ensures forall k :: 0 <= k < |order| ==> order[k] < |outs|
    ensures forall o :: o in InOrder(outs, order) <==> o in outs
  {
    CompletionOrderIndices(order, |outs|);
    assert forall k :: 0 <= k < |order| ==> order[k] < |outs| by {
      forall k | 0 <= k < |order|
        ensures order[k] < |outs|
      {
        assert order[k] in order;
      }
    }
    var r := InOrder(outs, order);
    forall o
      ensures o in r <==> o in outs
    {
      if o in outs {
        var i :| 0 <= i < |outs| && outs[i] == o;
        assert i in order;
        var k :| 0 <= k < |order| && order[k] == i;
        assert r[k] == o;
      }
    }
  }

  /** Task `i` asks the API for page `i % 10` of pair `i / 10`, with the
      key of call `calls + i` of the cycle. */
  lemma PlannedAt(config: seq<ScopeSpec>, keys: seq<string>, calls: nat, api: Api, i: int)
    requires keys != [] && 0 <= i < PagesPerScope * |config|
    ensures |Planned(TaskList(config), keys, calls, api)| == PagesPerScope * |config|
    ensures Planned(TaskList(config), keys, calls, api)[i] ==
      api(Request(config[i / PagesPerScope].query, config[i / PagesPerScope].cseId,
                  keys[(calls + i) % |keys|], 1 + ResultsPerPage * (i % PagesPerScope)))
  {
    TaskListAt(config, i);
    assert Planned(TaskList(config), keys, calls, api)[i] ==
      FetchOutcome(TaskList(config)[i], KeyAt(keys, calls + i), api);
  }

  /** Without keys every task raises at `next`. */
  lemma PlannedWithoutKeys(tasks: seq<FetchTask>, calls: nat, api: Api)
    ensures forall o :: o in Planned(tasks, [], calls, api) ==> o == Err
  {
  }

  /** Completing `a` and then `b`. */
  lemma InOrderAppend(outs: seq<Outcome>, a: seq<nat>, b: seq<nat>)
    requires forall k :: 0 <= k < |a| ==> a[k] < |outs|
    requires forall k :: 0 <= k < |b| ==> b[k] < |outs|
    ensures multiset(InOrder(outs, a + b)) == multiset(InOrder(outs, a)) + multiset(InOrder(outs, b))
  {
    assert InOrder(outs, a + b) == InOrder(outs, a) + InOrder(outs, b);
  }

  /** `b` with its element at `j` taken out. */
  function Without(b: seq<nat>, j: nat): seq<nat>
    requires j < |b|
  {
    b[..j] + b[j + 1..]
  }

  /** Taking index `j` out of an order takes its outcome out of what it
      delivers. */
  lemma InOrderRemove(outs: seq<Outcome>, b: seq<nat>, j: nat)
    requires forall k :: 0 <= k < |b| ==> b[k] < |outs|
    requires j < |b|
    ensures multiset(Without(b, j)) == multiset(b) - multiset{b[j]}
    ensures forall k :: 0 <= k < |Without(b, j)| ==> Without(b, j)[k] < |outs|
    ensures multiset(InOrder(outs, b)) ==
      multiset(InOrder(outs, Without(b, j))) + multiset{outs[b[j]]}
  {
    var b1, b2 := b[..j], b[j + 1..];
    assert b == b1 + [b[j]] + b2;
    assert multiset(b) == multiset(b1) + multiset{b[j]} + multiset(b2);
    InOrderAppend(outs, b1, b2);
    InOrderAppend(outs, b1, [b[j]]);
    InOrderAppend(outs, b1 + [b[j]], b2);
    assert InOrder(outs, [b[j]]) == [outs[b[j]]];
  }

  /** Two orders naming the same indices, as often, deliver the same
      outcomes as often. */
  lemma {:induction false} InOrderPermuted(outs: seq<Outcome>, a: seq<nat>, b: seq<nat>)
    requires forall k :: 0 <= k < |a| ==> a[k] < |outs|
    requires forall k :: 0 <= k < |b| ==> b[k] < |outs|
    requires multiset(a) == multiset(b)
    ensures multiset(InOrder(outs, a)) == multiset(InOrder(outs, b))
    decreases |a|
  {
    if a == [] {
      assert |multiset(b)| == 0;
    } else {
      var x := a[0];
      assert x in multiset(b);
      var j :| 0 <= j < |b| && b[j] == x;
      InOrderRemove(outs, b, j);
      InOrderRemove(outs, a, 0);
      assert Without(a, 0) == a[1..];
      InOrderPermuted(outs, a[1..], Without(b, j));
    }
  }

  /** `as_completed` yields every future exactly once: in any completion
      order, each outcome is delivered exactly as often as it occurs. */
  lemma InOrderPermutation(outs: seq<Outcome>, order: seq<nat>)
    requires IsCompletionOrder(order, |outs|)
    ensures forall k :: 0 <= k < |order| ==> order[k] < |outs|
    ensures multiset(InOrder(outs, order)) == multiset(outs)
  {
    InOrderSameOutcomes(outs, order);
    var ids := Indices(|outs|);
    InOrderPermuted(outs, order, ids);
    assert InOrder(outs, ids) == outs;
  }

  /** `fetch_results`: draw a key, build the request, call the API. */
  method FetchResults(rotator: KeyRotator, task: FetchTask, api: Api) returns (o: Outcome)
    requires rotator.Valid()
    modifies rotator
    ensures rotator.Valid() && rotator.calls == old(rotator.calls) + 1
    ensures o == FetchOutcome(task, KeyAt(rotator.keys, old(rotator.calls)), api)
  {
    var key := rotator.Next();
    match key
    case None =>
      o := Err;
    case Some(k) =>
      var request := Request(task.query, task.cseId, k, task.start);
      o := api(request);
  }

  /** The fetch tasks submitted one after the other, each drawing its key
      from the rotator; `outs[i]` is what task `i` delivers. */
  method FetchAll(rotator: KeyRotator, tasks: seq<FetchTask>, api: Api) returns (outs: seq<Outcome>)
    requires rotator.Valid()
    modifies rotator
    ensures rotator.Valid() && rotator.calls == old(rotator.calls) + |tasks|
    ensures outs == Planned(tasks, rotator.keys, old(rotator.calls), api)
  {
    ghost var planned := Planned(tasks, rotator.keys, rotator.calls, api);
    outs := [];
    var i := 0;
    while i < |tasks|
      invariant 0 <= i <= |tasks|
      invariant rotator.Valid() && rotator.calls == old(rotator.calls) + i
      invariant outs == planned[..i]
    {
      var o := FetchResults(rotator, tasks[i], api);
      outs := outs + [o];
      i := i + 1;
    }
  }

  /** The `as_completed` loop: a fresh accumulator absorbs the outcomes in
      the order they complete. */
  method Collect(completed: seq<Outcome>) returns (entries: seq<Entry>)
    ensures entries == Harvest([], completed)
    ensures Distinct(entries)
    ensures Links(entries) == HarvestedLinks(completed)
  {
    var captured := new Accumulator();
    var k := 0;
    while k < |completed|
      invariant 0 <= k <= |completed|
      invariant captured.Valid()
      invariant Harvest(captured.entries, completed[k..]) == Harvest([], completed)
    {
      assert completed[k..][1..] == completed[k + 1..];
      var _ := captured.Absorb(completed[k]);
      k := k + 1;
    }
    entries := captured.entries;
    HarvestLinks([], completed);
  }

  /** `get_all_company_names`: returns the array written to `websites.json`
      and the list of company names. Keys are drawn in submission order;
      the outcomes are absorbed in the completion order `order`. */
  method GetAllCompanyNames(config: seq<ScopeSpec>, rotator: KeyRotator, api: Api,
                            order: seq<nat>, existing: seq<Entry>)
    returns (stored: seq<Entry>, names: seq<string>)
    requires rotator.Valid()
    requires IsCompletionOrder(order, |TaskList(config)|)
    modifies rotator
    ensures rotator.Valid() && rotator.calls == old(rotator.calls) + |TaskList(config)|
    ensures forall k :: 0 <= k < |order| ==> order[k] < |TaskList(config)|
    ensures var outs := Planned(TaskList(config), rotator.keys, old(rotator.calls), api);
            stored == Merge(existing, Harvest([], InOrder(outs, order)))
    ensures names == Names(stored)
    ensures existing <= stored
    ensures Links(stored) == Links(existing) +
      HarvestedLinks(Planned(TaskList(config), rotator.keys, old(rotator.calls), api))
    ensures Distinct(existing) ==> Distinct(stored)
  {
    var tasks := BuildTasks(config);
    var outs := FetchAll(rotator, tasks, api);
    InOrderSameOutcomes(outs, order);
    var completed := InOrder(outs, order);
    var entries := Collect(completed);
    stored := Merge(existing, entries);
    names := Names(stored);
    assert HarvestedLinks(completed) == HarvestedLinks(outs);
    if Distinct(existing) {
      MergeDistinct(existing, entries);
    }
  }

  /** An empty scope list submits no task and leaves the persisted array,
      and so the returned names, as they were. */
  lemma EmptyConfigKeepsStore(keys: seq<string>, calls: nat, api: Api, order: seq<nat>, existing: seq<Entry>)
    requires IsCompletionOrder(order, |TaskList([])|)
    ensures TaskList([]) == [] && order == []
    ensures var outs := Planned(TaskList([]), keys, calls, api);
            Merge(existing, Harvest([], InOrder(outs, order))) == existing
  {
    assert |multiset(order)| == 0;
    MergeNothing(existing);
  }
}
