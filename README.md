# join.com company scraper, modelled in Dafny

`script.py` asks a custom-search API for pages of results, one request per
(search engine, query, start offset). It rotates through a list of API keys
and keeps every result link that points to a join.com company page, cut down
to `https://join.com/companies/<name>`, at most once per link. At the end it
merges these entries into the array persisted in `websites.json` and returns
the company names of the merged array.

The model follows the program's own structure:

- `Tasks` (tasks.dfy): `range(1, max_results + 1, results_per_page)` and the
  nested submission loop. `BuildTasks` is the loop and `TaskList` its
  specification.
- `Rotation` (rotation.dfy): `itertools.cycle(api_keys)` as the class
  `KeyRotator`, with a cursor that `Next` advances. The fairness of the
  rotation is proved as lemmas.
- `PyStr` (pystr.dfy): Python's `in`, `str.find` and `str.split` on
  strings, with their round trip and the "text after the last separator"
  property of `split(...)[-1]`.
- `Extraction` (extraction.dfy): the item loop of one decoded payload, as
  the function `Candidates`. Its parts are the marker test, the company name
  and the canonical link.
- `Accumulation` (accumulation.dfy): `captured_links` as the class
  `Accumulator`. Its methods are proved against the folds
  `AdmitAll`/`Harvest`, and first-writer-wins, distinct links, failure
  isolation and order-independence are proved about those folds.
- `Merging` (merging.dfy): the filter against the existing links, the
  concatenation, and the list of names.
- `Pipeline` (pipeline.dfy): `fetch_results` and `get_all_company_names`.
  The search API is a function parameter from request to outcome. The order
  in which `as_completed` yields the futures is a parameter `order`, a
  permutation of the task indices.

An exception inside a task is the outcome `Err`. That covers a transport
failure, a body that is not JSON, and `next` on an empty key cycle, which
raises `StopIteration`. The broad `except` turns an `Err` into a log line,
and `Failed` says exactly when that happens.

## Model

| member | source | states |
|---|---|---|
| Tasks.Range | script.py:61 | Python `range(start, stop, step)`: begins at `start`, stays in `[start, stop)`, rises by `step`, and its last element plus `step` reaches `stop` |
| Tasks.RangeAt | script.py:61 | element `k` of the range is `start + k * step` |
| Tasks.PageStartsValues | script.py:61 | the start offsets are exactly `1, 11, ..., 91`: ten pages of ten results up to 100 |
| Tasks.PageStarts | script.py:61 | definition: `range(1, max_results + 1, results_per_page)` |
| Tasks.ScopeTasks | script.py:61-62 | definition: one task per page start of one pair, in order |
| Tasks.TaskList | script.py:57-62 | definition: the pairs in configuration order, each expanded into its page tasks |
| Tasks.TaskListSnoc | script.py:57-62 | one more scope appends exactly that scope's ten tasks to the task list |
| Tasks.TaskListLength | script.py:57-62 | the task list has ten tasks per configured scope |
| Tasks.ScopeTasksAt | script.py:61-62 | task `k` of one scope starts at offset `1 + 10 * k` |
| Tasks.TaskListAt | script.py:57-62 | task `i` belongs to scope `i / 10` and starts at `1 + 10 * (i % 10)` |
| Tasks.TaskListShape | script.py:57-62 | there are ten tasks per configured scope; task `i` belongs to scope `i / 10` with start `1 + 10 * (i % 10)`, and every start lies in `[1, 100]` |
| Tasks.BuildTasks | script.py:57-62 | the nested submission loop produces exactly `TaskList(config)`, scope by scope, offsets in order |
| Rotation.KeyAt | script.py:33 | call `n` gets a key exactly when the key list is non-empty, and that key is one of the configured keys |
| Rotation.KeyRotator.constructor | script.py:12 | a fresh cycle over the given keys, with no call made yet |
| Rotation.KeyRotator.Next | script.py:33 | the `n`-th call returns `keys[n mod K]` (none when `K = 0`) and advances the cursor cyclically |
| Rotation.NextSlot | script.py:12 | moving the cursor one step is the next call's slot: `(n + 1) mod K == (n mod K + 1) mod K` |
| Rotation.Served | script.py:33 | the list of keys served by `n` calls has length `n` |
| Rotation.ServedAt | script.py:33 | the `i`-th served key is `keys[i mod K]`, the key `KeyAt` gives call `i` |
| Rotation.SlotCountValue | script.py:12 | over `n` calls key index `j` is used `n / K` times, plus one when `j < n mod K` |
| Rotation.RotationFair | script.py:12 | every key index is used between floor(n / K) and ceil(n / K) times |
| Rotation.CeilDiv | script.py:12 | `(n + K - 1) / K` is `n / K`, plus one unless `K` divides `n` |
| Rotation.ServedCount | script.py:12 | with pairwise different keys, the number of times key `j` is served is its slot count |
| PyStr.Contains | script.py:73 | definition: Python `sep in s`, some index where `sep` occurs |
| PyStr.Find | script.py:73 | `str.find`: the least index at or after `start` where the separator occurs, or -1 when there is none |
| PyStr.SplitFrom | script.py:74 | Python's left-to-right `split` of a suffix gives at least one piece |
| PyStr.Split | script.py:74 | definition: Python `s.split(sep)`, the left-to-right split from the start |
| PyStr.FindFirst | script.py:73 | no occurrence lies between `start` and what `find` returns |
| PyStr.RFind | script.py:74 | `str.rfind`: -1 or an index, at most `hi`, where the separator occurs |
| PyStr.RFindLast | script.py:74 | no occurrence lies after what `rfind` returns |
| PyStr.RFindFindsLast | script.py:73-74 | a string that contains the separator has a last occurrence, the one `rfind` returns |
| PyStr.SplitJoin | script.py:74 | joining the pieces of `split` with the separator gives back the string |
| PyStr.SplitFromJoin | script.py:74 | the same for a split that starts part-way into the string |
| PyStr.SplitPiecesFree | script.py:74 | no piece of `split` contains the separator |
| PyStr.SplitCount | script.py:73-74 | `split` gives more than one piece exactly when the string contains the separator (`in`) |
| PyStr.FindFindsOccurrence | script.py:73 | `find` returns a real occurrence exactly when `in` holds, and -1 otherwise |
| PyStr.NoOverlappingOccurrences | script.py:74 | two occurrences of a separator that cannot overlap itself are at least its length apart |
| PyStr.FirstCharUniqueNoOverlap | script.py:73-74 | a separator whose first character never recurs in it cannot overlap itself |
| PyStr.SplitFromStep | script.py:74 | after a cut, the last piece is the last piece of the rest |
| PyStr.SplitFromLastPiece | script.py:74 | a split started at or before the last occurrence of a non-overlapping separator ends with the text after that occurrence |
| PyStr.SplitLastAfterLastOccurrence | script.py:74 | for a non-overlapping separator, `split(sep)[-1]` is `s[s.rfind(sep) + len(sep):]`, the text after its last occurrence |
| PyStr.Last | script.py:74 | definition: Python's `xs[-1]`, the `[-1]` of `split(...)[-1]` |
| PyStr.SplitFirstUpTo | script.py:74 | `split("/")[0]` is the longest prefix without `/` |
| Extraction.CompanyName | script.py:74 | definition: `link.split(marker)[-1].split("/")[0]`; ExtractLinkSound proves it is the segment after the last marker |
| Extraction.ExtractLink | script.py:71-75 | a link yields an entry exactly when it contains `join.com/companies/` |
| Extraction.Candidates | script.py:70-75 | definition: the entries of the items in order, up to the first raising item |
| Extraction.Offered | script.py:65-86 | definition: what one outcome offers; nothing for a raised fetch, a bad payload or a missing `items` |
| Extraction.Failed | script.py:65-86 | definition: the processing of one outcome raises and is logged |
| Extraction.CanonicalPrefixShape | script.py:73-75 | the canonical prefix is `https://` followed by the marker, and the marker ends in `/` |
| Extraction.MarkerNoSelfOverlap | script.py:73-74 | the marker `join.com/companies/` cannot overlap itself |
| Extraction.ExtractLinkSound | script.py:73-75 | for a marked link, the name is the text after the last marker up to the next `/` or the end, and the entry is the canonical link with that name |
| Extraction.ExtractLinkComplete | script.py:73-75 | conversely, any name found after the last marker up to `/` is exactly the extracted name and canonical link |
| Extraction.PrefixedLastOccurrence | script.py:74-75 | in `https://` + marker + rest, with no marker in rest, the last marker is the one at index 8 |
| Extraction.CanonicalLastOccurrence | script.py:75 | a canonical link of a one-segment name contains the marker only right after `https://` |
| Extraction.CanonicalIsFixpoint | script.py:73-75 | extracting from a canonical link gives the same entry again |
| Extraction.ExtractFromCompanyPath | script.py:73-75 | `https://join.com/companies/` + `rest`, with no marker in `rest`, yields the first `/`-free segment of `rest` |
| Extraction.ExtractExample | script.py:73-75 | `https://join.com/companies/acme/jobs/1` yields link `https://join.com/companies/acme` and name `acme` |
| Extraction.NoMarkerNoEntry | script.py:71-73 | a link without the marker, and a missing `link` (default `""`), yield nothing |
| Extraction.CandidatesWellFormed | script.py:70-75 | every entry a payload offers is canonical, with a name free of `/` |
| Extraction.IrrelevantItemsOfferNothing | script.py:70-73 | a payload whose links lack the marker, or with no `items`, offers nothing and does not fail |
| Extraction.CandidatesAppend | script.py:70-75 | the items before the first raising item offer their entries in order, piece by piece |
| Extraction.CandidatesStopAtBadItem | script.py:66-86 | items after the one that raises are never examined |
| Entries.Links | script.py:78 | definition: the set `{entry["link"] for entry in s}` |
| Entries.DistinctSnoc | script.py:78-82 | appending keeps links distinct exactly when the new link is absent |
| Entries.DistinctCons | script.py:98 | an entry in front of distinct entries keeps them distinct exactly when its link is absent |
| Entries.LinksIndex | script.py:78 | a link is in the set of links exactly when some entry carries it |
| Accumulation.Admit | script.py:78-82 | definition: one first-writer-wins insertion |
| Accumulation.AdmitAll | script.py:78-82 | definition: the insertions of a list of entries, in order |
| Accumulation.Harvest | script.py:65-86 | definition: the accumulator after the outcomes, in completion order |
| Accumulation.WithoutErrors | script.py:65-86 | the outcomes kept are exactly those that did not raise at `future.result()` |
| Accumulation.AdmitAllKeepsPrefix | script.py:78-82 | the accumulator only grows at its end: earlier entries stay as they were |
| Accumulation.AdmitAllLinks | script.py:78-82 | the links afterwards are the links before together with the offered links |
| Accumulation.AdmitAllDistinct | script.py:78-82 | the accumulator keeps its links pairwise distinct |
| Accumulation.AdmitAllKeepsFirst | script.py:78-82 | an offered entry whose link was not seen before it ends up in the accumulator (first writer wins) |
| Accumulation.AdmitAllGainsFirst | script.py:78-82 | every entry gained is the first offered entry with its link |
| Accumulation.HarvestKeepsPrefix | script.py:65-86 | absorbing outcomes never changes entries already captured |
| Accumulation.HarvestLinks | script.py:65-86 | the captured links are the union of the links offered by every outcome |
| Accumulation.HarvestedLinksCons | script.py:65-86 | the offered links are the first outcome's and the rest's |
| Accumulation.HarvestDistinct | script.py:65-86 | the captured entries have pairwise distinct links |
| Accumulation.HarvestIgnoresErrors | script.py:65-86 | a failed task changes nothing: the result is what the other outcomes alone give |
| Accumulation.HarvestCons | script.py:65-67 | absorbing one outcome and then the rest is absorbing them all |
| Accumulation.HarvestOrderIrrelevant | script.py:65 | the set of captured links does not depend on the completion order |
| Accumulation.AdmitAllAppend | script.py:78-82 | offering `a` and then `b` is offering `a + b` |
| Accumulation.Accumulator.constructor | script.py:17 | the run starts with no captured entry |
| Accumulation.Accumulator.Offer | script.py:78-82 | the entry is appended exactly when its link is not yet captured, and nothing else changes |
| Accumulation.Accumulator.AbsorbLink | script.py:71-82 | one item's link adds the entry extraction yields from it, if any, as a first-writer-wins insertion |
| Accumulation.Accumulator.AbsorbItems | script.py:70-82 | the item loop adds what `Candidates` offers, stops at the first raising item, and reports whether one raised |
| Accumulation.Accumulator.Absorb | script.py:66-86 | one completed outcome adds exactly what it offers and reports whether its processing raised |
| Merging.FreshEntries | script.py:97-98 | the new entries are exactly the captured entries whose link is not stored, in captured order, with those links |
| Merging.Merge | script.py:97-102 | the written array starts with the existing array and has exactly the existing and the captured links |
| Merging.Names | script.py:105 | one name per entry, position by position |
| Merging.FreshEntriesLinks | script.py:97-98 | the new entries carry exactly the captured links that are not stored yet |
| Merging.FreshEntriesAppend | script.py:98 | the filter keeps order across a concatenation |
| Merging.FreshEntriesAllKnown | script.py:98 | when every captured link is stored, nothing is added |
| Merging.FreshEntriesDistinct | script.py:98 | filtering distinct entries keeps them distinct |
| Merging.MergeShape | script.py:97-102 | the written array is the existing array followed by exactly the new entries |
| Merging.MergeDistinct | script.py:97-102 | with distinct existing and captured links, the written array has no duplicate link |
| Merging.MergeIdempotent | script.py:97-102 | merging the same captured entries a second time changes nothing |
| Merging.MergeNothing | script.py:97-102 | a run that captured nothing writes the existing array back unchanged |
| Merging.MergeIntoNothing | script.py:90-102 | without a stored file every captured entry is written, in order |
| Merging.NamesAppend | script.py:105 | the names are the stored names followed by the new names |
| Merging.MergeExample | script.py:97-105 | stored `A` and captured `A`, `B` give `A`, `B` and the names `Acme`, `Beta` |
| Pipeline.FetchOutcome | script.py:33-43 | definition: `fetch_results` once the key is drawn; `Err` when `next` raised, otherwise the API's answer to `q`, `cx`, `key`, `start` |
| Pipeline.IsCompletionOrder | script.py:65 | definition: each submitted future is yielded exactly once |
| Pipeline.InOrder | script.py:65 | definition: the outcomes in the order `as_completed` yields them |
| Pipeline.Indices | script.py:62-65 | the task indices `0 .. n-1` in order |
| Pipeline.CompletionOrderIndices | script.py:65 | a completion order names every task and only tasks |
| Pipeline.Planned | script.py:33-62 | definition: task `i` delivers what `fetch_results` returns with the key of call `calls + i`; one outcome per task |
| Pipeline.PlannedAt | script.py:33-62 | with keys, task `i` asks the API with `q` and `cx` of pair `i / 10`, the key `keys[(calls + i) mod K]` and `start` `1 + 10 * (i % 10)` |
| Pipeline.PlannedWithoutKeys | script.py:12-33 | with an empty key list every task raises (`StopIteration` at `next`) |
| Pipeline.InOrderAppend | script.py:65 | completing the tasks of `a` and then those of `b` delivers both parts' outcomes |
| Pipeline.InOrderRemove | script.py:65 | taking one task out of a completion order takes exactly its outcome out of what is delivered |
| Pipeline.InOrderPermuted | script.py:65 | two orders naming the same tasks equally often deliver the same outcomes equally often |
| Pipeline.InOrderPermutation | script.py:65 | in any completion order every outcome is delivered exactly once: the delivered multiset is the outcomes' multiset |
| Pipeline.InOrderSameOutcomes | script.py:65 | completing in any order delivers the same outcomes |
| Pipeline.FetchResults | script.py:21-43 | one fetch draws the next key and calls the API with it |
| Pipeline.FetchAll | script.py:57-62 | task `i` is fetched with the key of call `i` counted from the current state |
| Pipeline.Collect | script.py:65-86 | absorbing the outcomes in completion order gives the captured entries, distinct and with every offered link |
| Pipeline.GetAllCompanyNames | script.py:46-106 | the written array is the merge of the existing array and the harvest in completion order; it keeps the existing prefix, covers every captured link, has no new duplicates, and the names follow it |
| Pipeline.EmptyConfigKeepsStore | script.py:57-102 | no configured scope means no task and an unchanged stored array |

## Left out

- HTTP, `time.sleep`, the thread pool's eight workers and the `as_completed` scheduling are left out. The API is the parameter `api`, and completion order is the parameter `order`.
- Pipeline.FetchAll: keys are drawn in submission order, one task after the other. Under real concurrency the `next` calls of the workers may interleave in another order. The model does not capture that order or any race on the cycle object.
- Reading `API_KEYS` and `CSE_CONFIG` from the environment and decoding them from JSON is left out. A scope without `cse_id` or `query` raises a `KeyError` that ends the run; the model's config is already decoded.
- Reading and writing `websites.json` is left out. The existing array is a parameter, and the written array is the result `stored`. A stored file that is not valid JSON, or an entry without `link`, raises outside any handler; that case is not modelled. A stored entry is modelled as exactly a link and a company name: a stored entry without `company_name` makes the name list raise `KeyError` after the file has already been written; the model always returns `names`. Extra keys of stored entries, which `json.dump` writes back, are not modelled.
- The `print` calls (`Company: ...` and `Error: ...`) and the module-level call at the end are left out. `Failed` says exactly when the error line would be printed.
- Payloads and items of the wrong JSON type are approximated. `BadPayload` and `BadItem` stand for values on which `.get`, iteration, the marker test or `.split` raises. Such an item ends that payload's loop without dropping the entries already captured from it. A non-string link on which the marker test does not raise and that is not split (a list or object without the marker string as an element or key) is skipped; the model takes it as a link without the marker.
- The model follows the code: an empty key list does not stop the run up front; every fetch raises inside its task and is logged. A malformed item is not skipped; it ends the loop over its payload.
