/** The task builder: every configured (search engine, query) pair is
    expanded into one fetch task per result page. */
module Tasks {

  /** Results returned by one API call. */
  const ResultsPerPage := 10
  /** Results fetched at most per search engine and query. */
  const MaxResults := 100
  /** Pages fetched per configured pair, `len(range(1, 101, 10))`. */
  const PagesPerScope := 10

  /** One entry of the search-engine configuration. */
  datatype ScopeSpec = ScopeSpec(cseId: string, query: string)

  /** One call to make: search engine, query and 1-based start offset. */
  datatype FetchTask = FetchTask(cseId: string, query: string, start: int)

  /** Python's `range(start, stop, step)` for a positive step. */
  function Range(start: int, stop: int, step: int): (r: seq<int>)
    requires step > 0
    ensures start < stop ==> |r| >= 1 && r[0] == start
    ensures forall k :: 0 <= k < |r| ==> start <= r[k] < stop
    ensures forall k :: 0 < k < |r| ==> r[k] == r[k - 1] + step
    ensures |r| > 0 ==> r[|r| - 1] + step >= stop
    decreases stop - start
  {
    if start >= stop then [] else [start] + Range(start + step, stop, step)
  }

  /** The start offsets one configured pair is paged through. */
  function PageStarts(): seq<int> {
    Range(1, MaxResults + 1, ResultsPerPage)
  }

  /** The tasks of one configured pair, one per page start, in order. */
  function ScopeTasks(spec: ScopeSpec): seq<FetchTask> {
    var starts := PageStarts();
    seq(|starts|, k requires 0 <= k < |starts| => FetchTask(spec.cseId, spec.query, starts[k]))
  }

  /** Every task of the configuration: the pairs in order, each paged. */
  function TaskList(config: seq<ScopeSpec>): seq<FetchTask> {
    if config == [] then [] else ScopeTasks(config[0]) + TaskList(config[1..])
  }

  /** With 10 results per page and at most 100 results, the offsets are
      exactly 1, 11, ..., 91. */
  lemma PageStartsValues()
    ensures PageStarts() == [1, 11, 21, 31, 41, 51, 61, 71, 81, 91]
    ensures |PageStarts()| == PagesPerScope
  {
    var r := PageStarts();
    forall k | 0 <= k < |r|
      ensures r[k] == 1 + ResultsPerPage * k
    {
      RangeAt(1, MaxResults + 1, ResultsPerPage, k);
    }
    assert |r| == PagesPerScope;
  }

  /** The `k`-th value of a range is `start + k * step`. */
  lemma {:induction false} RangeAt(start: int, stop: int, step: int, k: nat)
    requires step > 0 && k < |Range(start, stop, step)|
    ensures Range(start, stop, step)[k] == start + k * step
  {
    if k > 0 {
      RangeAt(start, stop, step, k - 1);
      assert (k - 1) * step + step == k * step;
    }
  }

  /** Adding a pair at the end of the configuration adds its tasks at the
      end of the task list. */
  lemma {:induction false} TaskListSnoc(config: seq<ScopeSpec>, spec: ScopeSpec)
    ensures TaskList(config + [spec]) == TaskList(config) + ScopeTasks(spec)
  {
    if config == [] {
      assert [spec][1..] == [];
    } else {
      assert (config + [spec])[1..] == config[1..] + [spec];
      TaskListSnoc(config[1..], spec);
    }
  }

  /** Every pair contributes ten tasks. */
  lemma {:induction false} TaskListLength(config: seq<ScopeSpec>)
    ensures |TaskList(config)| == PagesPerScope * |config|
  {
    PageStartsValues();
    if config != [] {
      TaskListLength(config[1..]);
    }
  }

  /** Task `k` of one pair starts at offset `1 + 10 * k`. */
  lemma ScopeTasksAt(spec: ScopeSpec, k: int)
    requires 0 <= k < PagesPerScope
    ensures |ScopeTasks(spec)| == PagesPerScope
    ensures ScopeTasks(spec)[k] == FetchTask(spec.cseId, spec.query, 1 + ResultsPerPage * k)
  {
    PageStartsValues();
    RangeAt(1, MaxResults + 1, ResultsPerPage, k);
  }

  /** Task `i` of the whole list, by induction over the pairs. */
  lemma {:induction false} TaskListAt(config: seq<ScopeSpec>, i: int)
    requires 0 <= i < PagesPerScope * |config|
    ensures |TaskList(config)| == PagesPerScope * |config|
    ensures TaskList(config)[i] == FetchTask(config[i / PagesPerScope].cseId, config[i / PagesPerScope].query,
                                             1 + ResultsPerPage * (i % PagesPerScope))
    decreases |config|
  {
    TaskListLength(config);
    var head, tail := ScopeTasks(config[0]), TaskList(config[1..]);
    assert TaskList(config) == head + tail;
    if i < PagesPerScope {
      ScopeTasksAt(config[0], i);
    } else {
      var j := i - PagesPerScope;
      ScopeTasksAt(config[0], 0);
      TaskListAt(config[1..], j);
      assert TaskList(config)[i] == tail[j];
      assert i / PagesPerScope == j / PagesPerScope + 1 && i % PagesPerScope == j % PagesPerScope;
      assert config[i / PagesPerScope] == config[1..][j / PagesPerScope];
    }
  }

  /** Task `i` belongs to pair `i / 10` and starts at offset `1 + 10 * (i % 10)`:
      ten tasks per pair, in configuration order, every offset within the
      result cap. An empty configuration yields no tasks. */
  lemma TaskListShape(config: seq<ScopeSpec>)
    ensures |TaskList(config)| == PagesPerScope * |config|
    ensures forall i :: 0 <= i < |TaskList(config)| ==>
      TaskList(config)[i] == FetchTask(config[i / PagesPerScope].cseId, config[i / PagesPerScope].query,
                                       1 + ResultsPerPage * (i % PagesPerScope))
    ensures forall t :: t in TaskList(config) ==> 1 <= t.start <= MaxResults
  {
    TaskListLength(config);
    var tasks := TaskList(config);
    forall i | 0 <= i < |tasks|
      ensures tasks[i] == FetchTask(config[i / PagesPerScope].cseId, config[i / PagesPerScope].query,
                                    1 + ResultsPerPage * (i % PagesPerScope))
    {
      TaskListAt(config, i);
    }
    forall t | t in tasks
      ensures 1 <= t.start <= MaxResults
    {
      var i :| 0 <= i < |tasks| && tasks[i] == t;
      TaskListAt(config, i);
    }
  }

  /** The nested loop that submits the tasks: for each configured pair, in
      order, one task per page start. */
  method BuildTasks(config: seq<ScopeSpec>) returns (tasks: seq<FetchTask>)
    ensures tasks == TaskList(config)
  {
    tasks := [];
    var e := 0;
    while e < |config|
      invariant 0 <= e <= |config|
      invariant tasks == TaskList(config[..e])
    {
      var cseId := config[e].cseId;
      var query := config[e].query;
      var starts := Range(1, MaxResults + 1, ResultsPerPage);
      var k := 0;
      while k < |starts|
        invariant 0 <= k <= |starts|
        invariant tasks == TaskList(config[..e]) + ScopeTasks(config[e])[..k]
      {
        tasks := tasks + [FetchTask(cseId, query, starts[k])];
        k := k + 1;
      }
      assert ScopeTasks(config[e])[..k] == ScopeTasks(config[e]);
      assert config[..e + 1] == config[..e] + [config[e]];
      TaskListSnoc(config[..e], config[e]);
      e := e + 1;
    }
    assert config[..e] == config;
  }
}
