# Landsat level-2 acquisition workflow: a Dafny model

The workflow orders Landsat Collection-1 level-2 surface-reflectance scenes from
the USGS ESPA service, downloads them, and unpacks them into a
`target/<tile>/<scene>` folder tree. Three scripts make up the core modelled here:

- `download_script/level2_order_download.py`
  - builds a product-id catalogue from the USGS bulk metadata files (`produce_id_file`);
  - selects the scenes of one path/row and date window (`extract_products`);
  - turns the `available-products` response into an order (`define_order`);
  - decides whether to submit it (`run`);
  - polls the order's item status, downloading every completed item (`start_check_download` / `check_n_download`).
- `download_script/resume_download.py` reads a jobs file of ESPA order ids. It polls those orders again, newest first, with the same polling code.
- `download_script/unpack_scenes.py` unpacks every `*.tar.gz` archive of a source folder. Each archive goes into a tile folder and a scene folder named after its XML metadata member. The archive is deleted once it has been extracted.

The remote responses, the file contents and the archive listings are all given
as values. Python exceptions become `Err` values that name the exception. Each
imperative piece of the source is a Dafny `method`, and each method is proved
equal to a specification function. A method with a loop is proved with loop
invariants. The properties the scripts promise are proved as lemmas about
those functions.

| file | module | what it holds |
|---|---|---|
| `results.dfy` | `Results` | `Option` and `Result` |
| `py_text.dfy` | `PyText` | Python string semantics the scripts rely on: slicing, `s[-n:]`, `split`, `'sep'.join`, `strip`, substring `in`, lexicographic `<=` on `str`, and `os.path.join` |
| `catalogue.dfy` | `Catalogue` | the id-column filter of `produce_id_file`; `extract_products` |
| `order.dfy` | `OrderAssembly` | a JSON value model and `define_order`; the submit decision and the date-range loop of `run` |
| `polling.dfy` | `Polling` | one status cycle, the polling recursion driven by a given sequence of status responses, and `start_check_download` |
| `resume.dfy` | `Resume` | jobs-file parsing and the reversed polling loop of `resume_download` |
| `unpack.dfy` | `Unpack` | a `FileSystem` class over a path map, the plan for one archive, and the per-archive create, extract and delete steps of `untar_scenes` |

Points where the model follows the code rather than what a reader of the scripts' comments and docstrings might expect:

- Date-restricted scenes are pruned only when `date_restricted` is itself one of the desired sensors.
  - The problem keys are looked up in the already filtered order, so they are only present if they were desired.
  - `OrderAssembly.NoCleanupUnlessRequested` states this.
- The archive is deleted only after `extractall` has returned without raising. A failed extraction keeps the archive and the folders made so far.
- A sequence of item statuses "pending, pending, complete" costs four status queries:
  - the initial `start_check_download` query;
  - then one `check_n_download` query per cycle.
  - `Polling.FourQueriesForTwoWaits` states this.

Behaviour of the code that the model exhibits:

- A collection whose inputs are all date-restricted is emptied, but it is still submitted with zero scenes (`OrderAssembly.EmptiedCollectionStillSubmitted`).
- A date-restricted `LO08` scene always makes `define_order` raise. `oli8_collection` is deleted as a problem key before the scenes are pruned from it (`OrderAssembly.Oli8ScenesAlwaysFail`).
- A jobs file whose last line has no newline loses the last character of that order id (`Resume.UnterminatedLastLine`).
- The path/row filter is a plain substring test, so a date inside a product id can match it (`Catalogue.PathRowMatchIsLoose`).

## Model

| member | source | states |
|---|---|---|
| PyText.Slice | download_script/unpack_scenes.py:22 | Python's clamping slice `s[lo:hi]`: never longer than `s` or `hi`, and exactly `s[lo..hi]` when the bounds are in range |
| PyText.Tail | download_script/level2_order_download.py:295 | `s[-n:]` is a suffix of `s` of length `min(n, len(s))` |
| PyText.TailIsSuffix | download_script/level2_order_download.py:295 | `s[-len(t):] == t` holds iff `s` ends with `t` |
| PyText.ContainsAt | download_script/level2_order_download.py:222 | substring `p in s` holds iff `p` occurs at some index of `s` |
| PyText.TrimStartShape | download_script/level2_order_download.py:222 | `lstrip` removes exactly a whitespace prefix, and the result starts with a non-space |
| PyText.TrimEndShape | download_script/level2_order_download.py:222 | `rstrip` removes exactly a whitespace suffix, and the result ends with a non-space |
| PyText.StripShape | download_script/level2_order_download.py:222 | `strip` returns the middle `s[i:j]` between an all-space prefix and an all-space suffix, and it starts and ends with a non-space |
| PyText.Split | download_script/level2_order_download.py:225 | `str.split(c)` always yields at least one field |
| PyText.SplitJoin | download_script/level2_order_download.py:225 | joining the fields of `split(c)` with `c` gives back the string, and no field contains `c` |
| PyText.JoinSplit | download_script/resume_download.py:128-134 | splitting a `c`-join of fields free of `c` gives back the fields |
| PyText.JoinEndsWithLast | download_script/resume_download.py:128-134 | a `c`-join ends with its last field |
| PyText.SplitNoSeparator | download_script/unpack_scenes.py:23 | a string without `c` splits into itself alone |
| PyText.StrLeReflexive | download_script/level2_order_download.py:225 | Python's `str <=` is reflexive |
| PyText.StrLeTotal | download_script/level2_order_download.py:225 | Python's `str <=` is total |
| PyText.StrLeTransitive | download_script/level2_order_download.py:225 | Python's `str <=` is transitive |
| PyText.StrLeAntisymmetric | download_script/level2_order_download.py:225 | Python's `str <=` is antisymmetric |
| PyText.DigitStringOrder | download_script/level2_order_download.py:225 | on digit strings of equal length (`YYYYMMDD` dates), string order is numeric order |
| PyText.PathJoin | download_script/level2_order_download.py:42 | `os.path.join(a, b)` ends with `b`, and is `a + '/' + b` for a relative `b` and an `a` without a trailing slash |
| Catalogue.ProduceIdFile | download_script/level2_order_download.py:279-297 | the writing loop, with its reader counter, produces exactly the `Catalogue` lines, or the first short row |
| Catalogue.WriteRows | download_script/level2_order_download.py:284-296 | the loop over one reader's rows writes exactly the kept ids of its column, in order, or stops at the first row too short for it |
| Catalogue.KeepsIsRowTest | download_script/level2_order_download.py:295 | `Keeps` holds exactly when the id's last two characters are not `RT` and the id is not the header |
| Catalogue.KeptIdsIsColumn | download_script/level2_order_download.py:284-296 | one file's rows give ids iff every row has the file's id column, and then the ids are that column filtered by the row test |
| Catalogue.CatalogueIsMerge | download_script/level2_order_download.py:281-297 | the catalogue succeeds iff every row of every file is wide enough; it is then the header followed by each file's kept ids, file by file in source order |
| Catalogue.ColumnMembers | download_script/level2_order_download.py:295-296 | an id is written for a file iff some row carries it in the file's id column and it passes the row test |
| Catalogue.MergedMembers | download_script/level2_order_download.py:283-297 | an id is in the merged body iff it passes the row test and some file's row carries it in that file's column |
| Catalogue.CatalogueMembers | download_script/level2_order_download.py:281-296 | the header comes first; after it, an id is written iff it does not end in `RT`, is not `LANDSAT_PRODUCT_ID`, and sits in the id column (26, 29, 31) of some row |
| Catalogue.CatalogueFailsAtFirstShortRow | download_script/level2_order_download.py:283-295 | a failed run names the first row, in file and row order, that lacks its file's id column |
| Catalogue.KeptIdsFailsAtFirstShortRow | download_script/level2_order_download.py:284-295 | within one file, the error names the first row too short for the column |
| Catalogue.CatalogueErrorPersists | download_script/level2_order_download.py:283-297 | once a short row raises, later files do not change the outcome |
| Catalogue.ExtractProducts | download_script/level2_order_download.py:222-226 | the comprehension and the filtering loop compute `ExtractSpec`: the matching stripped lines in window, or the first line without a fourth `_` field |
| Catalogue.CandidatesMembers | download_script/level2_order_download.py:222 | a candidate is exactly the strip of a line that contains the path/row |
| Catalogue.CandidateSource | download_script/level2_order_download.py:222 | each candidate is the stripped form of some catalogue line holding the path/row |
| Catalogue.CandidateKept | download_script/level2_order_download.py:222 | each catalogue line holding the path/row yields its stripped form as a candidate |
| Catalogue.SelectedMembers | download_script/level2_order_download.py:224-225 | selection fails iff some candidate has no fourth `_` field; otherwise it keeps exactly the candidates whose date lies in the window |
| Catalogue.ExtractedExactly | download_script/level2_order_download.py:222-226 | `extract_products` raises iff a matching line has fewer than four `_` fields; otherwise it returns exactly the stripped matching lines with `ymd1 <= date <= ymd2` |
| Catalogue.WindowInclusive | download_script/level2_order_download.py:225 | both window bounds are inclusive |
| Catalogue.ExtractKeepsFileOrder | download_script/level2_order_download.py:222-226 | the selection of a concatenated file is the concatenation of the selections, so file order is kept |
| Catalogue.PathRowMatchIsLoose | download_script/level2_order_download.py:222 | the path/row test is a substring test over the whole line: a product id whose own path/row field `[10:16]` differs from the key is still a candidate when its date holds the key |
| OrderAssembly.RemoveFirst | download_script/level2_order_download.py:179 | `list.remove` succeeds iff the scene is in the list, and raises otherwise |
| OrderAssembly.RemoveFirstOneCopy | download_script/level2_order_download.py:179 | a successful `list.remove` takes out exactly one copy of the scene: the multiset of the list loses that one element and nothing else |
| OrderAssembly.RemoveFirstCutsFirst | download_script/level2_order_download.py:179 | `list.remove` removes exactly the first occurrence |
| OrderAssembly.DefineOrder | download_script/level2_order_download.py:150-187 | the in-place restrict, problem, prune and attach loops compute `DefineOrderSpec`, including the exception raised |
| OrderAssembly.ClearProblems | download_script/level2_order_download.py:162-173 | the problem-key loop deletes the problem keys in order and gathers the `date_restricted` scenes, or raises as `ClearUpTo` says |
| OrderAssembly.PruneScenes | download_script/level2_order_download.py:176-179 | the prune loop removes each problem scene from its collection, or raises as `PruneAll` says |
| OrderAssembly.AttachEach | download_script/level2_order_download.py:181-183 | the loop over the keys attaches the product types exactly to the dict entries whose `inputs` value is truthy, leaving the others unchanged |
| OrderAssembly.ClearUpToEffect | download_script/level2_order_download.py:162-173 | the problem loop deletes exactly the problem keys looked at so far. The problem scenes are the items of `date_restricted['sr']` when that key is present, and none otherwise |
| OrderAssembly.ClearErrorPersists | download_script/level2_order_download.py:164-173 | an exception in the problem loop is the outcome of the whole loop |
| OrderAssembly.PruneSceneKeeps | download_script/level2_order_download.py:177-179 | a successful prune keeps the order's keys, needs a known prefix whose collection is present, and touches only that collection |
| OrderAssembly.PruneAllKeeps | download_script/level2_order_download.py:176-179 | a successful prune loop keeps the order's keys |
| OrderAssembly.PruneFailsOnMissingOwner | download_script/level2_order_download.py:176-179 | a problem scene whose prefix names a collection absent from the order makes the prune loop raise |
| OrderAssembly.PruneErrorPersists | download_script/level2_order_download.py:177-179 | the first failing `remove` decides the outcome of the prune loop |
| OrderAssembly.PruneSceneEffect | download_script/level2_order_download.py:178-179 | pruning one scene removes it from its owner's `inputs` and leaves other collections as they were |
| OrderAssembly.PruneAllEffect | download_script/level2_order_download.py:176-179 | a collection that owns no problem scene is unchanged; otherwise its `inputs` lose exactly its owned scenes, one copy each, with the other fields unchanged |
| OrderAssembly.PruneSceneFails | download_script/level2_order_download.py:156-179 | pruning a scene fails iff its prefix is unknown, its collection is missing or has no `inputs` list, or the scene is not in that list |
| OrderAssembly.OrderKeys | download_script/level2_order_download.py:152-185 | the order's keys are the desired keys present in the response, minus the three problem keys, plus `format`; `format` is `gtiff`; no problem key survives |
| OrderAssembly.ProductsAttached | download_script/level2_order_download.py:141-183 | `products = ['sr','bt','pixel_qa']` is set on exactly the dict entries with truthy `inputs`, leaving their other fields; every other entry is unchanged |
| OrderAssembly.Oli8ScenesAlwaysFail | download_script/level2_order_download.py:162-179 | when `date_restricted` is desired and its `sr` list holds an `LO08` scene, `define_order` raises |
| OrderAssembly.NoCleanupUnlessRequested | download_script/level2_order_download.py:152-183 | when `date_restricted` is not desired, every kept collection is the response's entry with products attached and nothing pruned |
| OrderAssembly.SubmitDecision | download_script/level2_order_download.py:414-419 | the loop computes `Decision`: the desired sensors found in the order, and the sum of their `len(inputs)` |
| OrderAssembly.DecisionErrorPersists | download_script/level2_order_download.py:416-419 | an exception on one sensor is the outcome of the whole loop |
| OrderAssembly.DecisionFinds | download_script/level2_order_download.py:414-420 | a sensor is found iff it is desired and in the order; something is found iff some desired key is in the order |
| OrderAssembly.SubmittedIff | download_script/level2_order_download.py:408-427 | an order is submitted iff some desired sensor other than a problem key is in the `available-products` response |
| OrderAssembly.EmptiedCollectionStillSubmitted | download_script/level2_order_download.py:176-424 | a collection whose only scene is date-restricted ends with empty `inputs`, and is still submitted with a count of zero scenes |
| OrderAssembly.PlanOrders | download_script/level2_order_download.py:408-427 | the date-range loop for one path/row computes `PlanAll`: split the range, select, build, decide; the first exception ends it |
| OrderAssembly.PlanErrorPersists | download_script/level2_order_download.py:408-427 | a failure on one date range is the outcome for the path/row |
| OrderAssembly.PlannedExactly | download_script/level2_order_download.py:408-427 | a date range is submitted iff it is listed and its own build-and-decide finds a desired sensor |
| OrderAssembly.PlansHoldDesired | download_script/level2_order_download.py:408-427 | every order the loop submits holds at least one desired sensor |
| OrderAssembly.PlanOneFinds | download_script/level2_order_download.py:414-419 | a date range that is submitted carries its own name and an order holding a desired sensor |
| OrderAssembly.PlanOneOkInPrefix | download_script/level2_order_download.py:408-427 | when the loop succeeds, every date range succeeded on its own |
| OrderAssembly.PlanSource | download_script/level2_order_download.py:408-427 | each submitted order is the one its own date range's build-and-decide produced |
| OrderAssembly.PlanKept | download_script/level2_order_download.py:408-427 | each date range whose build-and-decide finds a desired sensor has its order submitted |
| Polling.LastSegmentShape | download_script/level2_order_download.py:42 | the URL's last `/` segment holds no `/` and ends the URL |
| Polling.DownloadTargetShape | download_script/level2_order_download.py:42 | a download is saved under the data folder as the URL's last `/` segment: that segment has no `/`, the URL and the target end with it, and the target is `dir + '/' + segment` |
| Polling.CheckItems | download_script/level2_order_download.py:95-101 | one status cycle computes `Cycle`: downloads and next worklist, or the completed item without a URL |
| Polling.CycleErrorPersists | download_script/level2_order_download.py:95-99 | the first completed item without a download URL ends the cycle |
| Polling.CycleFails | download_script/level2_order_download.py:95-99 | a cycle fails iff some awaited item is complete but has no download URL |
| Polling.CycleInOrder | download_script/level2_order_download.py:95-101 | the downloads are the awaited complete items in response order, each saved at its target; the next worklist is the other awaited items in response order |
| Polling.CycleMembers | download_script/level2_order_download.py:95-101 | a name is downloaded iff it is awaited and some item with it is complete; it is re-queued iff it is awaited and some item with it is not complete. Other names are ignored |
| Polling.ReadyMembers | download_script/level2_order_download.py:96-101 | the same membership facts for the reference partition `ReadyNames` / `StillPending` |
| Polling.ReadySource | download_script/level2_order_download.py:96-101 | each name the cycle downloads is on the worklist and reported `complete` |
| Polling.ReadyKept | download_script/level2_order_download.py:96-101 | each worklist item reported `complete` is downloaded |
| Polling.PendingSource | download_script/level2_order_download.py:96-101 | each name kept waiting is on the worklist and reported with another status |
| Polling.PendingKept | download_script/level2_order_download.py:96-101 | each worklist item reported with another status is kept waiting |
| Polling.CompleteNotRequeued | download_script/resume_download.py:77-83 | with distinct item names, no downloaded name is re-queued, and neither list repeats a name |
| Polling.DistinctFilters | download_script/resume_download.py:77-83 | with distinct item names, the ready and pending partitions repeat no name |
| Polling.CheckNDownload | download_script/level2_order_download.py:76-107 | the recursion, driven by the given responses, computes `Poll`. It stops with `Done` the first time nothing awaited is pending, and otherwise runs out of responses with `Waiting` |
| Polling.StartCheckDownload | download_script/level2_order_download.py:110-125 | polling starts with every item name of the initial response in response order, after one extra query |
| Polling.PollUsesPrefix | download_script/resume_download.py:85-89 | polling reads a prefix of the responses: a `Done` outcome is reproduced by the responses it counted, and a `Waiting` one used them all with awaited names left, each from the first worklist |
| Polling.PollStopsWhenNothingPending | download_script/resume_download.py:85-89 | polling stops exactly when nothing awaited is pending: a `Done` run ends on the first cycle whose worklist `PendingAfter` is empty, every earlier cycle left a non-empty one, and a `Waiting` run left a non-empty worklist after every cycle, its last being the one reported |
| Polling.PollDownloadsFromWorklist | download_script/resume_download.py:77-89 | every downloaded name was in the first worklist |
| Polling.PollDownloadsOnce | download_script/resume_download.py:77-89 | with distinct names in each response, no name is downloaded twice over the whole run |
| Polling.FourQueriesForTwoWaits | download_script/level2_order_download.py:93-125 | an item seen pending twice and then complete is downloaded once after four status queries |
| Resume.ChopLast | download_script/resume_download.py:131 | `line[:-1]` drops exactly the last character of a non-empty line |
| Resume.ReadJobs | download_script/resume_download.py:128-134 | the reading loop yields `JobIds`: each line of the file, newline kept, minus its last character |
| Resume.FileLinesCover | download_script/resume_download.py:129 | iterating over the file yields lines that concatenate back to the whole file |
| Resume.JobIdsRoundTrip | download_script/resume_download.py:128-134 | a jobs file written one id per line, each line ended by a newline, reads back as exactly those ids |
| Resume.UnterminatedLastLine | download_script/resume_download.py:131 | when the last line has no newline, the last order id loses its last character |
| Resume.PolledIsReversed | download_script/resume_download.py:139-141 | the orders polled are the non-empty ids in reverse file order |
| Resume.PolledMembers | download_script/resume_download.py:139-141 | an id is polled iff it is in the file and non-empty |
| Resume.ResumeDownload | download_script/resume_download.py:128-141 | parsing then the reversed loop computes `ResumeSpec` over the polled ids |
| Resume.PollOrders | download_script/resume_download.py:139-141 | the reversed loop that skips empty ids computes `ResumeSpec` over `Polled(ids)` |
| Resume.ResumeVisitsInOrder | download_script/resume_download.py:139-141 | orders are visited in the polled order; every order before the last was completed, and the run stops early only at an order still waiting |
| Unpack.FileSystem.Mkdir | download_script/unpack_scenes.py:29-31 | `os.mkdir` succeeds iff the path is new and its parent is a directory, and then adds exactly that directory; on failure nothing changes |
| Unpack.FileSystem.Unlink | download_script/unpack_scenes.py:33 | `os.unlink` succeeds iff the path is a file, and then removes exactly that path |
| Unpack.TarFiles | download_script/unpack_scenes.py:17 | every path the glob yields ends in `.tar.gz` |
| Unpack.TarFilesMembers | download_script/unpack_scenes.py:17 | a path is processed iff it is `source + '/' + name` for a listed, non-hidden `*.tar.gz` name |
| Unpack.IsXmlIsTail | download_script/unpack_scenes.py:21 | `IsXml` holds exactly when the name's last three characters are `xml` |
| Unpack.MetadataIndex | download_script/unpack_scenes.py:21 | the metadata member is the first whose last three characters are `xml`, or there is none |
| Unpack.SceneNameShape | download_script/unpack_scenes.py:23 | the scene name is the text of the member name before its first `.` |
| Unpack.PlanShape | download_script/unpack_scenes.py:21-25 | a plan exists iff some member ends in `xml`. The tile folder is `target + '/' + xml[10:16]`, and the scene folder is the tile folder plus `'/' + scene` |
| Unpack.UnpackArchive | download_script/unpack_scenes.py:19-40 | one loop iteration, through `FileSystem` calls, leaves the outcome and entries that `UnpackOne` gives |
| Unpack.UnpackOneEffect | download_script/unpack_scenes.py:19-40 | an existing archive is deleted iff it was unpacked. Every other entry is kept unchanged, and every new entry is one of the archive's two folders |
| Unpack.UnpackedIff | download_script/unpack_scenes.py:20-34 | an archive is unpacked iff it opens, has an xml member, its tile folder exists or can be made, its scene folder is new and can be made, and extraction succeeds |
| Unpack.ExistingSceneFolderKeepsArchive | download_script/unpack_scenes.py:30-37 | when the scene folder already exists, the archive is neither extracted nor deleted |
| Unpack.TileFolderMadeOnlyIfAbsent | download_script/unpack_scenes.py:28-29 | when the tile folder exists, nothing besides the scene folder and the archive changes |
| Unpack.UntarScenes | download_script/unpack_scenes.py:17-40 | the loop over the globbed archives computes `UnpackAll`: one outcome per archive, in order |
| Unpack.UnpackAllPrefix | download_script/unpack_scenes.py:18-40 | every archive gets an outcome, and later archives do not change earlier outcomes |
| Unpack.EveryArchiveTried | download_script/unpack_scenes.py:18-40 | each archive is tried against the filesystem its predecessors left, whatever their outcomes |
| Unpack.UnpackAllEffect | download_script/unpack_scenes.py:18-40 | over the run, an entry changes or disappears only as an archive that was unpacked, and everything new is a directory |

## Left out

- HTTP and the ESPA API (`espa_api`, `requests`, basic auth, JSON decoding) are foreign network calls. The `available-products` and `item-status` responses are parameters: a map for the former, item lists for the latter.
- An `espa_api` call that returns `None` on an HTTP error, and a status response missing the order id, `name` or `status`, are not modelled. The response is given in its decoded, well-formed shape.
- `download_file`'s streaming and chunk filtering are I/O. Only the target path of each download is modelled (`Polling.DownloadTarget`).
- Gzip decompression, `get_latest_csv_from_usgs` and CSV quoting are library behaviour. Bulk files are given as rows already split into fields.
- `submit_order` and the order id it returns are network calls. A planned submission records the order and its scene count.
- The final loop of `run` that polls each submitted order is not modelled: the submitted order ids come from the network. Polling itself is modelled by `Polling.StartCheckDownload`.
- `time.sleep(300)` and the unbounded recursion: polling is driven by a given sequence of status responses. Running out of them gives `Waiting`, and termination is not claimed.
- `tarfile` internals and `extractall` are not modelled. An archive is its member names plus whether extraction succeeds, and extracted files are not added to the path map.
- `glob` order and matching: the folder listing is a parameter in the order `glob` returns it. Only non-hidden names ending in `.tar.gz` directly in the source folder are selected, with no path normalisation.
- `getpass`, `argparse`, `configparser`, logging, `print`, `create_sub_output_folder` and the `timer` decorator (floating-point wall-clock time) are interactive or plumbing.
- JSON numbers are integers, and `list.extend` over a dict, which iterates its keys, is modelled as a `TypeError`: the map model keeps no key order.
- Universal-newline translation when reading the jobs file is not modelled: only `'\n'` ends a line.
- Resume.ResumeDownload: an order id that is polled twice gets the same status responses both times, because responses are given per order id.
- OrderAssembly.PlanOrders: an exception on a later date range is reported as `Err` alone, dropping the plans of earlier ranges. Their orders were already placed by `submit_order` (download_script/level2_order_download.py:423-424), and the model does not record them.
- Polling.CheckItems: `Err(name)` for a complete item without a URL drops the downloads made earlier in the same cycle, which `download_file` has already written to disk.
- Polling.CheckNDownload: an `Err` outcome drops the downloads of earlier cycles as well, so the files already fetched before the failing cycle are not recorded.
- Resume.ResumeDownload: an `Err` outcome drops the downloads of the orders polled before the failing one.
- Catalogue.ProduceIdFile: `Err(ShortRow)` drops the header and the ids already written. The `with` block closes and flushes that partial catalogue file when the exception propagates, and the model does not describe its contents.
- Unpack.UnpackOne: paths are compared as raw strings. `os.mkdir` collapses repeated `/`, so a target given as `out/` makes the tile folder `out//090085`, which Python creates but the model reports as `TileFolderFailed` because its parent `out/` is not an entry.
- Unpack.FileSystem: permissions are not modelled, so an `EACCES` from `os.mkdir` or `os.unlink` never happens in the model.
- Unpack.PlanShape: the tile folder is stated as `xml[10:16]` only for member names of at least 16 characters. Shorter names get Python's truncated slice, which the model computes but the contract does not restate.
