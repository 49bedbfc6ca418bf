/** `resume_download`: read order ids from a jobs file, one per line with
    the line's last character cut off, and poll every non-empty id, last
    line first, until its items are in.

    The file's text (after newline translation) is an input, and so are the
    status responses each order gets: `sessions[id]` holds the initial item
    list and the responses of the following cycles for order `id`. */
module Resume {
  import opened Results
  import opened PyText
  import Polling

  // ----- The jobs file -----

  /** Python's iteration over a text file: every line keeps its `\n`, except
      a last line that has none. */
  function FileLines(content: string): seq<string> {
    var ps := Split(content, '\n');
    var last := ps[|ps| - 1];
    Terminated(ps[..|ps| - 1]) + if last == [] then [] else [last]
  }

  /** Each piece with its newline put back. */
  function Terminated(ps: seq<string>): seq<string> {
    seq(|ps|, i requires 0 <= i < |ps| => ps[i] + "\n")
  }

  /** `line[:-1]`. */
  function ChopLast(line: string): (r: string)
    ensures line != [] ==> |r| == |line| - 1 && r == line[..|r|]
  {
    if line == [] then [] else line[..|line| - 1]
  }

  /** The order ids `resume_download` reads from a jobs file. */
  function JobIds(content: string): seq<string> {
    var lines := FileLines(content);
    seq(|lines|, i requires 0 <= i < |lines| => ChopLast(lines[i]))
  }

  /** The `with open(jobs_file)` loop of `resume_download`. */
  method ReadJobs(content: string) returns (ids: seq<string>)
    ensures ids == JobIds(content)
  {
    var lines := FileLines(content);
    ids := [];
    for i := 0 to |lines|
      invariant ids == seq(i, k requires 0 <= k < i => ChopLast(lines[k]))
    {
      ids := ids + [ChopLast(lines[i])];
    }
  }

  function Concat(ls: seq<string>): string
    decreases |ls|
  {
    if ls == [] then [] else ls[0] + Concat(ls[1..])
  }

  /** A jobs file with each id on its own newline-terminated line. */
  function WriteJobs(ids: seq<string>): string {
    Concat(Terminated(ids))
  }

  lemma {:induction false} TerminatedJoin(ps: seq<string>)
    requires |ps| >= 1
    ensures Concat(Terminated(ps[..|ps| - 1])) + ps[|ps| - 1] == Join(ps, '\n')
    decreases |ps|
  {
    if |ps| > 1 {
      var rest := ps[1..];
      TerminatedJoin(rest);
      assert rest[..|rest| - 1] == ps[1..|ps| - 1];
      var t := Terminated(ps[..|ps| - 1]);
      assert t[0] == ps[0] + "\n" && t[1..] == Terminated(rest[..|rest| - 1]);
    }
  }

  /** Iterating the file's lines loses nothing: they concatenate back to it. */
  lemma FileLinesCover(content: string)
    ensures Concat(FileLines(content)) == content
  {
    var ps := Split(content, '\n');
    var front := Terminated(ps[..|ps| - 1]);
    var last := ps[|ps| - 1];
    assert Concat(front) + last == content by {
      SplitJoin(content, '\n');
      TerminatedJoin(ps);
    }
    if last == [] {
      assert FileLines(content) == front by {
        assert front + [] == front;
      }
    } else {
      assert FileLines(content) == front + [last];
      assert Concat(front + [last]) == Concat(front) + last by {
        ConcatAppend(front, [last]);
        assert Concat([last]) == last + Concat([]);
      }
    }
  }

  lemma {:induction false} ConcatAppend(a: seq<string>, b: seq<string>)
    ensures Concat(a + b) == Concat(a) + Concat(b)
    decreases |a|
  {
    if a != [] {
      assert (a + b)[1..] == a[1..] + b;
      ConcatAppend(a[1..], b);
    } else {
      assert a + b == b;
    }
  }

  /** Reading back a jobs file written one id per terminated line gives the
      ids, provided none holds a newline. */
  lemma JobIdsRoundTrip(ids: seq<string>)
    requires forall i :: 0 <= i < |ids| ==> '\n' !in ids[i]
    ensures JobIds(WriteJobs(ids)) == ids
  {
    var ps := ids + [[]];
    assert ps[..|ps| - 1] == ids;
    TerminatedJoin(ps);
    assert WriteJobs(ids) == Join(ps, '\n');
    assert forall k :: 0 <= k < |ps| ==> '\n' !in ps[k] by {
      forall k | 0 <= k < |ps| ensures '\n' !in ps[k] {
        if k < |ids| { assert ps[k] == ids[k]; }
      }
    }
    JoinSplit(ps, '\n');
    assert FileLines(WriteJobs(ids)) == Terminated(ids);
    forall i | 0 <= i < |ids| ensures ChopLast(ids[i] + "\n") == ids[i] {
      assert (ids[i] + "\n")[..|ids[i]|] == ids[i];
    }
  }

  /** A last line without its newline loses a real character: the file
      holding the ids joined by newlines, unterminated, reads back as the ids
      with the final one cut short. */
  lemma UnterminatedLastLine(ids: seq<string>)
    requires |ids| >= 1 && ids[|ids| - 1] != []
    requires forall i :: 0 <= i < |ids| ==> '\n' !in ids[i]
    ensures var n := |ids| - 1;
            JobIds(Join(ids, '\n')) == ids[..n] + [ids[n][..|ids[n]| - 1]]
  {
    var n := |ids| - 1;
    var lines := FileLines(Join(ids, '\n'));
    assert lines == Terminated(ids[..n]) + [ids[n]] by { JoinSplit(ids, '\n'); }
    var got := JobIds(Join(ids, '\n'));
    var want := ids[..n] + [ids[n][..|ids[n]| - 1]];
    assert |got| == |want|;
    forall i | 0 <= i < |ids| ensures got[i] == want[i] {
      if i < n {
        assert lines[i] == ids[i] + "\n";
        assert (ids[i] + "\n")[..|ids[i]|] == ids[i];
      } else {
        assert lines[i] == ids[n];
      }
    }
  }

  // ----- Which orders are polled, and in which order -----

  /** The ids the reversed loop polls: last line first, empty ids skipped. */
  function Polled(ids: seq<string>): seq<string>
    decreases |ids|
  {
    if ids == [] then []
    else
      var n := |ids| - 1;
      (if ids[n] != [] then [ids[n]] else []) + Polled(ids[..n])
  }

  /** Independent definitions: the non-empty ids in file order, and reversal. */
  function NonEmpty(ids: seq<string>): seq<string>
    decreases |ids|
  {
    if ids == [] then [] else (if ids[0] != [] then [ids[0]] else []) + NonEmpty(ids[1..])
  }

  function Reverse(xs: seq<string>): (r: seq<string>)
    ensures |r| == |xs|
    decreases |xs|
  {
    if xs == [] then [] else Reverse(xs[1..]) + [xs[0]]
  }

  lemma {:induction false} NonEmptySnoc(ids: seq<string>, x: string)
    ensures NonEmpty(ids + [x]) == NonEmpty(ids) + if x != [] then [x] else []
    decreases |ids|
  {
    if ids != [] {
      assert (ids + [x])[1..] == ids[1..] + [x];
      NonEmptySnoc(ids[1..], x);
    }
  }

  lemma {:induction false} ReverseSnoc(xs: seq<string>, x: string)
    ensures Reverse(xs + [x]) == [x] + Reverse(xs)
    decreases |xs|
  {
    if xs != [] {
      assert (xs + [x])[1..] == xs[1..] + [x];
      ReverseSnoc(xs[1..], x);
    }
  }

  /** Orders are polled in reverse file order, skipping empty ids. */
  lemma {:induction false} PolledIsReversed(ids: seq<string>)
    ensures Polled(ids) == Reverse(NonEmpty(ids))
    decreases |ids|
  {
    if ids != [] {
      var n := |ids| - 1;
      PolledIsReversed(ids[..n]);
      assert ids == ids[..n] + [ids[n]];
      NonEmptySnoc(ids[..n], ids[n]);
      if ids[n] != [] {
        ReverseSnoc(NonEmpty(ids[..n]), ids[n]);
      } else {
        assert NonEmpty(ids) == NonEmpty(ids[..n]) + [] == NonEmpty(ids[..n]);
        assert Polled(ids) == [] + Polled(ids[..n]) == Polled(ids[..n]);
      }
    }
  }

  /** An id is polled iff it is in the file and not empty. */
  lemma {:induction false} PolledMembers(ids: seq<string>, x: string)
    ensures x in Polled(ids) <==> x in ids && x != []
    decreases |ids|
  {
    if ids != [] {
      var n := |ids| - 1;
      PolledMembers(ids[..n], x);
      assert ids == ids[..n] + [ids[n]];
    }
  }

  // ----- Polling each order in turn -----

  /** The responses order `id` gets: the item list of `start_check_download`
      and those of the following `check_n_download` cycles. */
  datatype Session = Session(first: seq<Polling.Item>, cycles: seq<seq<Polling.Item>>)

  datatype ResumeError =
    | UnknownOrder(orderId: string)      // no status for this order: the lookup raises
    | MissingUrl(orderId: string, item: string)

  /** Polling `orders` in turn. A `Waiting` outcome ends the run: the
      source would go on polling that order, so later ones are not reached. */
  function ResumeSpec(orders: seq<string>, target: string, sessions: map<string, Session>)
    : Result<seq<(string, Polling.PollOutcome)>, ResumeError>
    decreases |orders|
  {
    if orders == [] then Ok([])
    else
      var id := orders[0];
      if id !in sessions then Err(UnknownOrder(id))
      else
        match Polling.StartPoll(sessions[id].first, sessions[id].cycles, target)
        case Err(item) => Err(MissingUrl(id, item))
        case Ok(o) =>
          if o.Waiting? then Ok([(id, o)])
          else
            match ResumeSpec(orders[1..], target, sessions)
            case Err(e) => Err(e)
            case Ok(rest) => Ok([(id, o)] + rest)
  }

  function Then(steps: seq<(string, Polling.PollOutcome)>, r: Result<seq<(string, Polling.PollOutcome)>, ResumeError>)
    : Result<seq<(string, Polling.PollOutcome)>, ResumeError>
  {
    match r
    case Err(e) => Err(e)
    case Ok(more) => Ok(steps + more)
  }

  /** `resume_download` after the arguments: read the jobs, then poll them.
      Downloads go under `target`. */
  method ResumeDownload(content: string, target: string, sessions: map<string, Session>)
    returns (r: Result<seq<(string, Polling.PollOutcome)>, ResumeError>)
    ensures r == ResumeSpec(Polled(JobIds(content)), target, sessions)
  {
    var ids := ReadJobs(content);
    r := PollOrders(ids, target, sessions);
  }

  /** The `for order_id in reversed(order_ids)` loop. */
  method PollOrders(ids: seq<string>, target: string, sessions: map<string, Session>)
    returns (r: Result<seq<(string, Polling.PollOutcome)>, ResumeError>)
    ensures r == ResumeSpec(Polled(ids), target, sessions)
  {
    var steps: seq<(string, Polling.PollOutcome)> := [];
    var m := |ids|;
    assert ids[..m] == ids;
    ThenNothing(ResumeSpec(Polled(ids), target, sessions));
    while m > 0
      invariant m <= |ids|
      invariant ResumeSpec(Polled(ids), target, sessions) == Then(steps, ResumeSpec(Polled(ids[..m]), target, sessions))
    {
      var id := ids[m - 1];
      PolledStep(ids, m);
      m := m - 1;
      if |id| == 0 {
        assert Polled(ids[..m + 1]) == Polled(ids[..m]);
        continue;
      }
      ghost var rest := Polled(ids[..m]);
      assert Polled(ids[..m + 1]) == [id] + rest;
      ResumeCons(id, rest, target, sessions);
      if id !in sessions {
        return Err(UnknownOrder(id));
      }
      var o := Polling.StartCheckDownload(sessions[id].first, sessions[id].cycles, target);
      if o.Err? {
        return Err(MissingUrl(id, o.error));
      }
      if o.value.Waiting? {
        return Ok(steps + [(id, o.value)]);
      }
      ThenTwice(steps, [(id, o.value)], ResumeSpec(rest, target, sessions));
      steps := steps + [(id, o.value)];
    }
    assert ResumeSpec(Polled(ids[..0]), target, sessions) == Ok([]);
    assert steps + [] == steps;
    return Ok(steps);
  }

  lemma ThenNothing(r: Result<seq<(string, Polling.PollOutcome)>, ResumeError>)
    ensures Then([], r) == r
  {
    match r
    case Err(_) =>
    case Ok(more) => assert [] + more == more;
  }

  lemma ResumeCons(id: string, rest: seq<string>, target: string, sessions: map<string, Session>)
    ensures id !in sessions ==> ResumeSpec([id] + rest, target, sessions) == Err(UnknownOrder(id))
    ensures id in sessions ==>
              var p := Polling.StartPoll(sessions[id].first, sessions[id].cycles, target);
              && (p.Err? ==> ResumeSpec([id] + rest, target, sessions) == Err(MissingUrl(id, p.error)))
              && (p.Ok? && p.value.Waiting? ==> ResumeSpec([id] + rest, target, sessions) == Ok([(id, p.value)]))
              && (p.Ok? && p.value.Done? ==>
                    ResumeSpec([id] + rest, target, sessions) == Then([(id, p.value)], ResumeSpec(rest, target, sessions)))
  {
    assert ([id] + rest)[0] == id && ([id] + rest)[1..] == rest;
  }

  lemma PolledStep(ids: seq<string>, m: nat)
    requires 1 <= m <= |ids|
    ensures Polled(ids[..m]) == (if ids[m - 1] != [] then [ids[m - 1]] else []) + Polled(ids[..m - 1])
  {
    assert ids[..m][..m - 1] == ids[..m - 1];
  }

  lemma ThenTwice(a: seq<(string, Polling.PollOutcome)>, b: seq<(string, Polling.PollOutcome)>,
                  r: Result<seq<(string, Polling.PollOutcome)>, ResumeError>)
    ensures Then(a, Then(b, r)) == Then(a + b, r)
  {
    match r
    case Err(_) =>
    case Ok(more) => assert a + (b + more) == (a + b) + more;
  }

  /** The orders visited are the first ones of the list, in its order; all
      but the last are complete, and the run stops early only at an order
      still waiting. */
  lemma {:induction false} ResumeVisitsInOrder(orders: seq<string>, target: string, sessions: map<string, Session>)
    requires ResumeSpec(orders, target, sessions).Ok?
    ensures var steps := ResumeSpec(orders, target, sessions).value;
            && |steps| <= |orders|
            && (forall i :: 0 <= i < |steps| ==> steps[i].0 == orders[i])
            && (forall i :: 0 <= i < |steps| - 1 ==> steps[i].1.Done?)
            && (|steps| < |orders| ==> |steps| >= 1 && steps[|steps| - 1].1.Waiting?)
    decreases |orders|
  {
    if orders != [] {
      var id := orders[0];
      var o := Polling.StartPoll(sessions[id].first, sessions[id].cycles, target).value;
      if !o.Waiting? {
        ResumeVisitsInOrder(orders[1..], target, sessions);
        var rest := ResumeSpec(orders[1..], target, sessions).value;
        var steps := [(id, o)] + rest;
        assert forall i :: 1 <= i < |steps| ==> steps[i] == rest[i - 1];
      }
    }
  }
}
