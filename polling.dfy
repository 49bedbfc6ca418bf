/** The poll cycle of `check_n_download` / `start_check_download`, which both
    download scripts carry word for word.

    Each status query of the remote order service is an input: `responses`
    holds, in turn, the item list each query returns. The recursion of
    `check_n_download` becomes a loop over that sequence; when the sequence
    runs out the outcome is `Waiting` with the worklist still to poll, so
    nothing here claims that polling ends. */
module Polling {
  import opened Results
  import opened PyText

  /** One entry of `item_status_resp[order_id]`. */
  datatype Item = Item(name: string, status: string, url: Option<string>)

  /** A call of `download_file(url, data_dir)` and the local file it writes. */
  datatype Download = Download(name: string, url: string, target: string)

  /** The downloads of one cycle and `items_not_complete`. */
  datatype CycleResult = CycleResult(downloads: seq<Download>, pending: seq<string>)

  const Complete: string := "complete"

  /** The last `/`-separated segment of a URL. */
  function LastSegment(url: string): string {
    var parts := Split(url, '/');
    parts[|parts| - 1]
  }

  /** `os.path.join(output_dir, url.split('/')[-1])`. */
  function DownloadTarget(dataDir: string, url: string): string {
    PathJoin(dataDir, LastSegment(url))
  }

  /** The file is named after the URL's last segment, which holds no `/` and
      ends the URL; under a directory not ending in `/` it lands directly
      inside that directory. */
  lemma DownloadTargetShape(dataDir: string, url: string)
    ensures '/' !in LastSegment(url)
    ensures EndsWith(url, LastSegment(url))
    ensures EndsWith(DownloadTarget(dataDir, url), LastSegment(url))
    ensures dataDir != [] && dataDir[|dataDir| - 1] != '/' ==>
              DownloadTarget(dataDir, url) == dataDir + "/" + LastSegment(url)
  {
    LastSegmentShape(url);
    var seg := LastSegment(url);
    if dataDir != [] && dataDir[|dataDir| - 1] != '/' {
      if seg == [] {
        assert PathJoin(dataDir, seg) == dataDir + "/" + seg;
      } else {
        assert seg[0] != '/' by { assert seg[0] in seg; }
      }
    }
  }

  /** The last segment holds no `/` and ends the URL. */
  lemma LastSegmentShape(url: string)
    ensures '/' !in LastSegment(url)
    ensures EndsWith(url, LastSegment(url))
  {
    LastSegmentHasNoSlash(url);
    LastSegmentEndsUrl(url);
  }

  lemma LastSegmentHasNoSlash(url: string)
    ensures '/' !in LastSegment(url)
  {
    SplitJoin(url, '/');
  }

  lemma LastSegmentEndsUrl(url: string)
    ensures EndsWith(url, LastSegment(url))
  {
    var parts := Split(url, '/');
    assert Join(parts, '/') == url by { SplitJoin(url, '/'); }
    JoinedEndsWithLast(parts, url);
  }

  lemma JoinedEndsWithLast(parts: seq<string>, url: string)
    requires |parts| >= 1 && Join(parts, '/') == url
    ensures EndsWith(url, parts[|parts| - 1])
  {
    JoinEndsWithLast(parts, '/');
  }

  /** One cycle over the first |items| entries of a status response: complete
      items of the worklist are downloaded, the others are kept waiting.
      `Err(name)`: a complete item has no download URL, and `download_file`
      fails on `None`. */
  function Cycle(worklist: seq<string>, items: seq<Item>, dataDir: string): Result<CycleResult, string>
    decreases |items|
  {
    if items == [] then Ok(CycleResult([], []))
    else
      var n := |items| - 1;
      var item := items[n];
      match Cycle(worklist, items[..n], dataDir)
      case Err(e) => Err(e)
      case Ok(c) =>
        if item.name !in worklist then Ok(c)
        else if item.status == Complete then
          match item.url
          case None => Err(item.name)
          case Some(u) => Ok(CycleResult(c.downloads + [Download(item.name, u, DownloadTarget(dataDir, u))], c.pending))
        else Ok(CycleResult(c.downloads, c.pending + [item.name]))
  }

  /** The loop of `check_n_download` over one status response. */
  method CheckItems(worklist: seq<string>, items: seq<Item>, dataDir: string) returns (r: Result<CycleResult, string>)
    ensures r == Cycle(worklist, items, dataDir)
  {
    var downloads: seq<Download> := [];
    var pending: seq<string> := [];
    for i := 0 to |items|
      invariant Cycle(worklist, items[..i], dataDir) == Ok(CycleResult(downloads, pending))
    {
      var item := items[i];
      assert items[..i + 1][..i] == items[..i] && items[..i + 1][i] == item;
      if item.name in worklist {
        if item.status == Complete {
          if item.url.None? {
            CycleErrorPersists(worklist, items, dataDir, i + 1);
            return Err(item.name);
          }
          var url := item.url.value;
          downloads := downloads + [Download(item.name, url, DownloadTarget(dataDir, url))];
        } else {
          pending := pending + [item.name];
        }
      }
    }
    assert items[..|items|] == items;
    return Ok(CycleResult(downloads, pending));
  }

  lemma {:induction false} CycleErrorPersists(worklist: seq<string>, items: seq<Item>, dataDir: string, k: nat)
    requires k <= |items| && Cycle(worklist, items[..k], dataDir).Err?
    ensures Cycle(worklist, items, dataDir) == Cycle(worklist, items[..k], dataDir)
    decreases |items|
  {
    if k < |items| {
      var n := |items| - 1;
      assert items[..n][..k] == items[..k];
      CycleErrorPersists(worklist, items[..n], dataDir, k);
    } else {
      assert items[..k] == items;
    }
  }

  /** A cycle fails exactly when a complete item of the worklist has no URL. */
  lemma {:induction false} CycleFails(worklist: seq<string>, items: seq<Item>, dataDir: string)
    ensures Cycle(worklist, items, dataDir).Ok? <==>
            forall i :: 0 <= i < |items| && items[i].name in worklist && items[i].status == Complete ==> items[i].url.Some?
    decreases |items|
  {
    if items != [] {
      var n := |items| - 1;
      CycleFails(worklist, items[..n], dataDir);
      assert forall i :: 0 <= i < n ==> items[..n][i] == items[i];
    }
  }

  /** The names of the cycle's downloads, in order. */
  function DownloadNames(ds: seq<Download>): seq<string> {
    seq(|ds|, k requires 0 <= k < |ds| => ds[k].name)
  }

  /** Reference definitions, front to back: the worklist items of a response
      with a given completeness, in response order. */
  function ReadyNames(worklist: seq<string>, items: seq<Item>): seq<string>
    decreases |items|
  {
    if items == [] then []
    else
      (if items[0].name in worklist && items[0].status == Complete then [items[0].name] else [])
      + ReadyNames(worklist, items[1..])
  }

  function StillPending(worklist: seq<string>, items: seq<Item>): seq<string>
    decreases |items|
  {
    if items == [] then []
    else
      (if items[0].name in worklist && items[0].status != Complete then [items[0].name] else [])
      + StillPending(worklist, items[1..])
  }

  lemma {:induction false} ReadyNamesSnoc(worklist: seq<string>, items: seq<Item>, x: Item)
    ensures ReadyNames(worklist, items + [x])
            == ReadyNames(worklist, items) + if x.name in worklist && x.status == Complete then [x.name] else []
    ensures StillPending(worklist, items + [x])
            == StillPending(worklist, items) + if x.name in worklist && x.status != Complete then [x.name] else []
    decreases |items|
  {
    if items != [] {
      assert (items + [x])[1..] == items[1..] + [x];
      ReadyNamesSnoc(worklist, items[1..], x);
    }
  }

  /** One cycle, in response order: the downloads are the complete items of
      the worklist, each fetched from its own URL into its target, and the
      next worklist is the worklist items with any other status. */
  lemma {:induction false} CycleInOrder(worklist: seq<string>, items: seq<Item>, dataDir: string)
    requires Cycle(worklist, items, dataDir).Ok?
    ensures DownloadNames(Cycle(worklist, items, dataDir).value.downloads) == ReadyNames(worklist, items)
    ensures Cycle(worklist, items, dataDir).value.pending == StillPending(worklist, items)
    ensures forall d :: d in Cycle(worklist, items, dataDir).value.downloads ==>
              d.target == DownloadTarget(dataDir, d.url) && Item(d.name, Complete, Some(d.url)) in items
    decreases |items|
  {
    if items != [] {
      var n := |items| - 1;
      var pre := items[..n];
      var x := items[n];
      var c := Cycle(worklist, pre, dataDir).value;
      var r := Cycle(worklist, items, dataDir).value;
      CycleInOrder(worklist, pre, dataDir);
      assert pre + [x] == items;
      ReadyNamesSnoc(worklist, pre, x);
      if x.name !in worklist {
        assert r == c;
        assert ReadyNames(worklist, items) == ReadyNames(worklist, pre) + [];
        assert StillPending(worklist, items) == StillPending(worklist, pre) + [];
      } else if x.status == Complete {
        var d := Download(x.name, x.url.value, DownloadTarget(dataDir, x.url.value));
        assert r == CycleResult(c.downloads + [d], c.pending);
        DownloadNamesSnoc(c.downloads, d);
        assert StillPending(worklist, items) == StillPending(worklist, pre) + [];
        assert x == Item(d.name, Complete, Some(d.url));
      } else {
        assert r == CycleResult(c.downloads, c.pending + [x.name]);
        assert ReadyNames(worklist, items) == ReadyNames(worklist, pre) + [];
      }
    }
  }

  lemma DownloadNamesSnoc(ds: seq<Download>, d: Download)
    ensures DownloadNames(ds + [d]) == DownloadNames(ds) + [d.name]
  {
  }

  /** Membership form of the cycle: a worklist name is downloaded iff the
      response lists it complete, re-queued iff it lists it with another
      status; names outside the worklist never appear. */
  lemma {:induction false} CycleMembers(worklist: seq<string>, items: seq<Item>, dataDir: string, name: string)
    requires Cycle(worklist, items, dataDir).Ok?
    ensures name in DownloadNames(Cycle(worklist, items, dataDir).value.downloads) <==>
            name in worklist && exists i :: 0 <= i < |items| && items[i].name == name && items[i].status == Complete
    ensures name in Cycle(worklist, items, dataDir).value.pending <==>
            name in worklist && exists i :: 0 <= i < |items| && items[i].name == name && items[i].status != Complete
    decreases |items|
  {
    CycleInOrder(worklist, items, dataDir);
    ReadyMembers(worklist, items, name);
  }

  lemma {:induction false} ReadyMembers(worklist: seq<string>, items: seq<Item>, name: string)
    ensures name in ReadyNames(worklist, items) <==>
            name in worklist && exists i :: 0 <= i < |items| && items[i].name == name && items[i].status == Complete
    ensures name in StillPending(worklist, items) <==>
            name in worklist && exists i :: 0 <= i < |items| && items[i].name == name && items[i].status != Complete
  {
    if name in ReadyNames(worklist, items) {
      var i := ReadySource(worklist, items, name);
    }
    if name in worklist && exists i :: 0 <= i < |items| && items[i].name == name && items[i].status == Complete {
      var i :| 0 <= i < |items| && items[i].name == name && items[i].status == Complete;
      ReadyKept(worklist, items, i);
    }
    if name in StillPending(worklist, items) {
      var i := PendingSource(worklist, items, name);
    }
    if name in worklist && exists i :: 0 <= i < |items| && items[i].name == name && items[i].status != Complete {
      var i :| 0 <= i < |items| && items[i].name == name && items[i].status != Complete;
      PendingKept(worklist, items, i);
    }
  }

  /** Every name the cycle downloads is on the worklist and reported complete. */
  lemma {:induction false} ReadySource(worklist: seq<string>, items: seq<Item>, name: string) returns (i: nat)
    requires name in ReadyNames(worklist, items)
    ensures name in worklist && i < |items| && items[i].name == name && items[i].status == Complete
    decreases |items|
  {
    if items[0].name in worklist && items[0].status == Complete && name == items[0].name {
      i := 0;
    } else {
      var j := ReadySource(worklist, items[1..], name);
      i := j + 1;
    }
  }

  /** Every complete item of the worklist is downloaded. */
  lemma {:induction false} ReadyKept(worklist: seq<string>, items: seq<Item>, i: nat)
    requires i < |items| && items[i].name in worklist && items[i].status == Complete
    ensures items[i].name in ReadyNames(worklist, items)
    decreases |items|
  {
    if i > 0 {
      assert items[1..][i - 1] == items[i];
      ReadyKept(worklist, items[1..], i - 1);
    }
  }

  /** Every name kept waiting is on the worklist and reported not complete. */
  lemma {:induction false} PendingSource(worklist: seq<string>, items: seq<Item>, name: string) returns (i: nat)
    requires name in StillPending(worklist, items)
    ensures name in worklist && i < |items| && items[i].name == name && items[i].status != Complete
    decreases |items|
  {
    if items[0].name in worklist && items[0].status != Complete && name == items[0].name {
      i := 0;
    } else {
      var j := PendingSource(worklist, items[1..], name);
      i := j + 1;
    }
  }

  /** Every item of the worklist not yet complete is kept waiting. */
  lemma {:induction false} PendingKept(worklist: seq<string>, items: seq<Item>, i: nat)
    requires i < |items| && items[i].name in worklist && items[i].status != Complete
    ensures items[i].name in StillPending(worklist, items)
    decreases |items|
  {
    if i > 0 {
      assert items[1..][i - 1] == items[i];
      PendingKept(worklist, items[1..], i - 1);
    }
  }

  predicate DistinctNames(items: seq<Item>) {
    forall i, j :: 0 <= i < j < |items| ==> items[i].name != items[j].name
  }

  predicate Distinct(names: seq<string>) {
    forall i, j :: 0 <= i < j < |names| ==> names[i] != names[j]
  }

  /** With one entry per name in the response, an item seen complete is not
      re-queued, and each is downloaded once. */
  lemma {:induction false} CompleteNotRequeued(worklist: seq<string>, items: seq<Item>, dataDir: string)
    requires DistinctNames(items) && Cycle(worklist, items, dataDir).Ok?
    ensures forall name :: name in DownloadNames(Cycle(worklist, items, dataDir).value.downloads) ==>
              name !in Cycle(worklist, items, dataDir).value.pending
    ensures Distinct(DownloadNames(Cycle(worklist, items, dataDir).value.downloads))
    ensures Distinct(Cycle(worklist, items, dataDir).value.pending)
  {
    var c := Cycle(worklist, items, dataDir).value;
    forall name | name in DownloadNames(c.downloads)
      ensures name !in c.pending
    {
      CycleMembers(worklist, items, dataDir, name);
    }
    DistinctFilters(worklist, items);
    CycleInOrder(worklist, items, dataDir);
  }

  lemma {:induction false} DistinctFilters(worklist: seq<string>, items: seq<Item>)
    requires DistinctNames(items)
    ensures Distinct(ReadyNames(worklist, items))
    ensures Distinct(StillPending(worklist, items))
    decreases |items|
  {
    if items != [] {
      var rest := items[1..];
      assert DistinctNames(rest) by {
        forall i, j | 0 <= i < j < |rest| ensures rest[i].name != rest[j].name {
          assert rest[i] == items[i + 1] && rest[j] == items[j + 1];
        }
      }
      DistinctFilters(worklist, rest);
      ReadyMembers(worklist, rest, items[0].name);
      forall i | 0 <= i < |rest| ensures rest[i].name != items[0].name {
        assert rest[i] == items[i + 1];
      }
    }
  }

  /** Outcome of polling: every awaited item came in (`Done`), or the given
      responses ran out with items still awaited (`Waiting`). `queries`
      counts the status queries made. */
  datatype PollOutcome =
    | Done(downloads: seq<Download>, queries: nat)
    | Waiting(downloads: seq<Download>, worklist: seq<string>, queries: nat)

  /** `check_n_download(worklist, ...)` fed the given status responses. */
  function Poll(worklist: seq<string>, responses: seq<seq<Item>>, dataDir: string): Result<PollOutcome, string>
    decreases |responses|
  {
    if responses == [] then Ok(Waiting([], worklist, 0))
    else
      match Cycle(worklist, responses[0], dataDir)
      case Err(e) => Err(e)
      case Ok(c) =>
        if |c.pending| == 0 then Ok(Done(c.downloads, 1))
        else Prepend(c.downloads, 1, Poll(c.pending, responses[1..], dataDir))
  }

  /** Earlier downloads and queries in front of a later outcome. */
  function Prepend(ds: seq<Download>, k: nat, r: Result<PollOutcome, string>): Result<PollOutcome, string> {
    match r
    case Err(e) => Err(e)
    case Ok(Done(more, q)) => Ok(Done(ds + more, k + q))
    case Ok(Waiting(more, w, q)) => Ok(Waiting(ds + more, w, k + q))
  }

  /** `check_n_download` with its tail recursion written as a loop. */
  method CheckNDownload(worklist: seq<string>, responses: seq<seq<Item>>, dataDir: string)
    returns (r: Result<PollOutcome, string>)
    ensures r == Poll(worklist, responses, dataDir)
  {
    var work := worklist;
    var downloads: seq<Download> := [];
    var k := 0;
    assert responses[0..] == responses;
    PrependNothing(Poll(worklist, responses, dataDir));
    while k < |responses|
      invariant k <= |responses|
      invariant Poll(worklist, responses, dataDir) == Prepend(downloads, k, Poll(work, responses[k..], dataDir))
    {
      assert responses[k..][0] == responses[k] && responses[k..][1..] == responses[k + 1..];
      var c := CheckItems(work, responses[k], dataDir);
      if c.Err? {
        return Err(c.error);
      }
      ghost var before := downloads;
      downloads := downloads + c.value.downloads;
      k := k + 1;
      if |c.value.pending| == 0 {
        return Ok(Done(downloads, k));
      }
      work := c.value.pending;
      PrependTwice(before, k - 1, c.value.downloads, 1, Poll(work, responses[k..], dataDir));
    }
    assert responses[k..] == [];
    assert downloads + [] == downloads;
    return Ok(Waiting(downloads, work, k));
  }

  lemma PrependNothing(r: Result<PollOutcome, string>)
    ensures Prepend([], 0, r) == r
  {
    match r
    case Err(_) =>
    case Ok(o) => assert [] + o.downloads == o.downloads;
  }

  lemma PrependTwice(a: seq<Download>, i: nat, b: seq<Download>, j: nat, r: Result<PollOutcome, string>)
    ensures Prepend(a, i, Prepend(b, j, r)) == Prepend(a + b, i + j, r)
  {
    match r
    case Err(_) =>
    case Ok(o) => assert a + (b + o.downloads) == (a + b) + o.downloads;
  }

  /** `[x['name'] for x in item_status_resp[order_id]]`. */
  function Names(items: seq<Item>): seq<string> {
    seq(|items|, i requires 0 <= i < |items| => items[i].name)
  }

  /** `start_check_download`: one query for the initial item list, whose
      names, in response order, are the first worklist. */
  function StartPoll(first: seq<Item>, responses: seq<seq<Item>>, dataDir: string): Result<PollOutcome, string> {
    Prepend([], 1, Poll(Names(first), responses, dataDir))
  }

  method StartCheckDownload(first: seq<Item>, responses: seq<seq<Item>>, dataDir: string)
    returns (r: Result<PollOutcome, string>)
    ensures r == StartPoll(first, responses, dataDir)
  {
    var names := [];
    for i := 0 to |first|
      invariant names == Names(first[..i])
    {
      names := names + [first[i].name];
    }
    assert first[..|first|] == first;
    r := CheckNDownload(names, responses, dataDir);
    r := Prepend([], 1, r);
  }

  /** Polling uses a prefix of the responses: a finished run made `queries`
      cycles and the responses after those are never looked at; a run still
      waiting has used them all and still awaits a non-empty subset of the
      initial worklist. */
  lemma {:induction false} PollUsesPrefix(worklist: seq<string>, responses: seq<seq<Item>>, dataDir: string)
    requires Poll(worklist, responses, dataDir).Ok?
    ensures var o := Poll(worklist, responses, dataDir).value;
            o.Done? ==> 1 <= o.queries <= |responses| && Poll(worklist, responses[..o.queries], dataDir) == Ok(o)
    ensures var o := Poll(worklist, responses, dataDir).value;
            o.Waiting? ==> o.queries == |responses| && (responses != [] ==> |o.worklist| > 0)
                           && forall name :: name in o.worklist ==> name in worklist
    decreases |responses|
  {
    if responses != [] {
      var c := Cycle(worklist, responses[0], dataDir).value;
      var o := Poll(worklist, responses, dataDir).value;
      if |c.pending| == 0 {
        assert responses[..1][0] == responses[0] && responses[..1][1..] == [];
      } else {
        PollUsesPrefix(c.pending, responses[1..], dataDir);
        forall name | name in c.pending ensures name in worklist {
          CycleMembers(worklist, responses[0], dataDir, name);
        }
        if o.Done? {
          var q := o.queries;
          assert responses[..q][0] == responses[0] && responses[..q][1..] == responses[1..][..q - 1];
        }
      }
    }
  }

  /** The worklist after `k` cycles over the given responses, cycling on
      regardless of whether anything is left: `Err(name)` when one of those
      cycles fails. */
  function PendingAfter(worklist: seq<string>, responses: seq<seq<Item>>, dataDir: string, k: nat): Result<seq<string>, string>
    requires k <= |responses|
    decreases k
  {
    if k == 0 then Ok(worklist)
    else
      match Cycle(worklist, responses[0], dataDir)
      case Err(e) => Err(e)
      case Ok(c) => PendingAfter(c.pending, responses[1..], dataDir, k - 1)
  }

  /** Polling stops exactly when nothing awaited is pending: a `Done` run
      ends on the first cycle that leaves an empty worklist, every cycle
      before it left a non-empty one, and a `Waiting` run left a non-empty
      worklist after every cycle, the last of them its own. */
  lemma {:induction false} PollStopsWhenNothingPending(worklist: seq<string>, responses: seq<seq<Item>>, dataDir: string)
    requires Poll(worklist, responses, dataDir).Ok?
    ensures var o := Poll(worklist, responses, dataDir).value;
            o.Done? ==> o.queries <= |responses| && PendingAfter(worklist, responses, dataDir, o.queries) == Ok([])
    ensures var o := Poll(worklist, responses, dataDir).value;
            o.Done? ==> forall k :: 1 <= k < o.queries ==>
                          PendingAfter(worklist, responses, dataDir, k).Ok? && PendingAfter(worklist, responses, dataDir, k).value != []
    ensures var o := Poll(worklist, responses, dataDir).value;
            o.Waiting? ==> PendingAfter(worklist, responses, dataDir, |responses|) == Ok(o.worklist)
    ensures var o := Poll(worklist, responses, dataDir).value;
            o.Waiting? ==> forall k :: 1 <= k <= |responses| ==>
                             PendingAfter(worklist, responses, dataDir, k).Ok? && PendingAfter(worklist, responses, dataDir, k).value != []
    decreases |responses|
  {
    if responses != [] {
      var c := Cycle(worklist, responses[0], dataDir).value;
      var rest := responses[1..];
      if |c.pending| > 0 {
        PollStopsWhenNothingPending(c.pending, rest, dataDir);
        var o := Poll(worklist, responses, dataDir).value;
        var inner := Poll(c.pending, rest, dataDir).value;
        assert o.queries == inner.queries + 1;
        forall k | 1 <= k <= o.queries && k <= |responses|
          ensures PendingAfter(worklist, responses, dataDir, k) == PendingAfter(c.pending, rest, dataDir, k - 1)
        {
        }
      }
    }
  }

  /** Every download is of an item of the initial worklist. */
  lemma {:induction false} PollDownloadsFromWorklist(worklist: seq<string>, responses: seq<seq<Item>>, dataDir: string)
    requires Poll(worklist, responses, dataDir).Ok?
    ensures forall name :: name in DownloadNames(Poll(worklist, responses, dataDir).value.downloads) ==> name in worklist
    decreases |responses|
  {
    if responses != [] {
      var c := Cycle(worklist, responses[0], dataDir).value;
      forall name | name in DownloadNames(c.downloads) || name in c.pending
        ensures name in worklist
      {
        CycleMembers(worklist, responses[0], dataDir, name);
      }
      if |c.pending| > 0 {
        PollDownloadsFromWorklist(c.pending, responses[1..], dataDir);
        var rest := Poll(c.pending, responses[1..], dataDir).value.downloads;
        assert DownloadNames(c.downloads + rest) == DownloadNames(c.downloads) + DownloadNames(rest);
      }
    }
  }

  /** When every response lists each name once, no item is downloaded twice
      over the whole run. */
  lemma {:induction false} PollDownloadsOnce(worklist: seq<string>, responses: seq<seq<Item>>, dataDir: string)
    requires forall k :: 0 <= k < |responses| ==> DistinctNames(responses[k])
    requires Poll(worklist, responses, dataDir).Ok?
    ensures Distinct(DownloadNames(Poll(worklist, responses, dataDir).value.downloads))
    decreases |responses|
  {
    if responses != [] {
      var c := Cycle(worklist, responses[0], dataDir).value;
      CompleteNotRequeued(worklist, responses[0], dataDir);
      if |c.pending| > 0 {
        var rest := responses[1..];
        assert forall k :: 0 <= k < |rest| ==> rest[k] == responses[k + 1];
        PollDownloadsOnce(c.pending, rest, dataDir);
        PollDownloadsFromWorklist(c.pending, rest, dataDir);
        var a := DownloadNames(c.downloads);
        var b := DownloadNames(Poll(c.pending, rest, dataDir).value.downloads);
        var all := DownloadNames(c.downloads + Poll(c.pending, rest, dataDir).value.downloads);
        assert all == a + b;
        forall i, j | 0 <= i < j < |all| ensures all[i] != all[j] {
          if i < |a| && j >= |a| {
            assert all[j] == b[j - |a|];
            assert all[i] in a;
          }
        }
      }
    }
  }

  /** An order whose single item is reported pending at the first two cycles
      and complete at the third: downloaded once, after 4 status queries
      (the initial one of `start_check_download` and three cycles). */
  lemma FourQueriesForTwoWaits(name: string, url: string, dataDir: string)
    ensures var waiting := [Item(name, "processing", None)];
            var ready := [Item(name, Complete, Some(url))];
            StartPoll(waiting, [waiting, waiting, ready], dataDir)
              == Ok(Done([Download(name, url, DownloadTarget(dataDir, url))], 4))
  {
    var waiting := [Item(name, "processing", None)];
    var ready := [Item(name, Complete, Some(url))];
    var d := Download(name, url, DownloadTarget(dataDir, url));
    assert [name] == Names(waiting);
    assert waiting[..0] == [] && ready[..0] == [];
    assert Cycle([name], [], dataDir) == Ok(CycleResult([], []));
    assert "processing" != Complete by { assert |"processing"| != |Complete|; }
    assert [] + [name] == [name] && [] + [d] == [d];
    assert Cycle([name], waiting, dataDir) == Ok(CycleResult([], [name]));
    assert Cycle([name], ready, dataDir) == Ok(CycleResult([d], []));
    var rs := [waiting, waiting, ready];
    assert rs[1..] == [waiting, ready] && rs[1..][1..] == [ready];
    assert Poll([name], [ready], dataDir) == Ok(Done([d], 1));
    assert Poll([name], [waiting, ready], dataDir) == Ok(Done([d], 2));
    assert Poll([name], rs, dataDir) == Ok(Done([d], 3));
  }
}
