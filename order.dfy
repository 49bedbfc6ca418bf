/** Order assembly of the level-2 ordering script: `define_order` after the
    `available-products` call, and the submit decision of `run`.

    The decoded `available-products` response is passed in as a map from
    response key to JSON value; Python exceptions (KeyError, TypeError,
    AttributeError, ValueError) become `Err`. */
module OrderAssembly {
  import opened Results
  import opened PyText
  import Catalogue

  /** A decoded JSON value; numbers are integers here. */
  datatype Value =
    | Null
    | Bool(b: bool)
    | Num(n: int)
    | Str(s: string)
    | Arr(items: seq<Value>)
    | Obj(fields: map<string, Value>)

  /** The Python exception that ends the computation. */
  datatype PyError = KeyError(key: string) | TypeError | AttributeError | ValueError

  /** An order payload, or a response being filtered into one. */
  type Order = map<string, Value>

  const DateRestricted: string := "date_restricted"
  const NotImplemented: string := "not_implemented"
  const Oli8: string := "oli8_collection"
  /** The problem keys, in the order they are looked at. */
  const Problems: seq<string> := [DateRestricted, NotImplemented, Oli8]
  const ProductTypes: Value := Arr([Str("sr"), Str("bt"), Str("pixel_qa")])
  const FormatKey: string := "format"
  const Gtiff: Value := Str("gtiff")

  /** The `collection` dict: the collection that owns a scene, by the
      scene id's 4-character prefix. */
  const Collections: map<string, string> :=
    map["LT05" := "tm5_collection", "LE07" := "etm7_collection",
        "LC08" := "olitirs8_collection", "LO08" := Oli8]

  /** `collection[prefix]`, or None where the lookup raises KeyError. */
  function CollectionOf(prefix: string): Option<string> {
    if prefix in Collections then Some(Collections[prefix]) else None
  }

  /** Python truthiness. */
  predicate Truthy(v: Value) {
    match v
    case Null => false
    case Bool(b) => b
    case Num(n) => n != 0
    case Str(s) => s != []
    case Arr(xs) => xs != []
    case Obj(f) => |f| > 0
  }

  /** `v[key]` with a string key. */
  function Index(v: Value, key: string): Result<Value, PyError> {
    match v
    case Obj(f) => if key in f then Ok(f[key]) else Err(KeyError(key))
    case _ => Err(TypeError)
  }

  /** `len(v)`. */
  function Len(v: Value): Result<nat, PyError> {
    match v
    case Str(s) => Ok(|s|)
    case Arr(xs) => Ok(|xs|)
    case Obj(f) => Ok(|f|)
    case _ => Err(TypeError)
  }

  /** What `list.extend(v)` appends: a list's items, or a string's characters. */
  function Iterate(v: Value): Result<seq<Value>, PyError> {
    match v
    case Arr(xs) => Ok(xs)
    case Str(s) => Ok(seq(|s|, i requires 0 <= i < |s| => Str([s[i]])))
    case _ => Err(TypeError)
  }

  /** `xs.remove(x)`: drop the first element equal to x; None is ValueError. */
  function RemoveFirst(xs: seq<Value>, x: Value): (r: Option<seq<Value>>)
    ensures r.Some? <==> x in xs
    decreases |xs|
  {
    if xs == [] then None
    else if xs[0] == x then Some(xs[1..])
    else
      match RemoveFirst(xs[1..], x)
      case None => None
      case Some(rest) => Some([xs[0]] + rest)
  }

  /** The index of the first occurrence of x. */
  function FirstIndex(xs: seq<Value>, x: Value): (i: nat)
    requires x in xs
    ensures i < |xs| && xs[i] == x && x !in xs[..i]
    decreases |xs|
  {
    if xs[0] == x then 0 else 1 + FirstIndex(xs[1..], x)
  }

  /** `list.remove` cuts out exactly the first occurrence. */
  lemma {:induction false} RemoveFirstCutsFirst(xs: seq<Value>, x: Value)
    requires x in xs
    ensures RemoveFirst(xs, x) == Some(xs[..FirstIndex(xs, x)] + xs[FirstIndex(xs, x) + 1..])
    decreases |xs|
  {
    var j := FirstIndex(xs, x);
    if xs[0] == x {
      assert j == 0;
      assert xs[..0] + xs[1..] == xs[1..];
    } else {
      var tl := xs[1..];
      RemoveFirstCutsFirst(tl, x);
      var i := FirstIndex(tl, x);
      assert j == i + 1;
      var cut := RemoveFirst(tl, x).value;
      assert cut == tl[..i] + tl[i + 1..];
      RemoveFirstStep(xs, x);
      assert RemoveFirst(xs, x) == Some([xs[0]] + cut);
      ConsCut(xs, i);
      assert [xs[0]] + cut == xs[..j] + xs[j + 1..];
    }
  }

  lemma RemoveFirstStep(xs: seq<Value>, x: Value)
    requires xs != [] && xs[0] != x && x in xs
    ensures x in xs[1..] && RemoveFirst(xs, x) == Some([xs[0]] + RemoveFirst(xs[1..], x).value)
  {
  }

  /** `list.remove` takes away exactly one copy of the scene. */
  lemma RemoveFirstOneCopy(xs: seq<Value>, x: Value)
    requires x in xs
    ensures RemoveFirst(xs, x).Some?
    ensures multiset(RemoveFirst(xs, x).value) + multiset{x} == multiset(xs)
  {
    var i := FirstIndex(xs, x);
    var front, back := xs[..i], xs[i + 1..];
    RemoveFirstCutsFirst(xs, x);
    MultisetCut(front, x, back);
    SplitAround(xs, i);
  }

  lemma SplitAround(xs: seq<Value>, i: nat)
    requires i < |xs|
    ensures xs == xs[..i] + [xs[i]] + xs[i + 1..]
  {
  }

  lemma MultisetCut(front: seq<Value>, x: Value, back: seq<Value>)
    ensures multiset(front + back) + multiset{x} == multiset(front + [x] + back)
  {
    calc {
      multiset(front + [x] + back);
      multiset(front) + multiset([x]) + multiset(back);
      multiset(front + back) + multiset{x};
    }
  }

  lemma ConsCut(xs: seq<Value>, i: nat)
    requires i + 1 < |xs|
    ensures [xs[0]] + (xs[1..][..i] + xs[1..][i + 1..]) == xs[..i + 1] + xs[i + 2..]
  {
    assert xs[..i + 1] == [xs[0]] + xs[1..][..i];
    assert xs[i + 2..] == xs[1..][i + 1..];
  }

  // ----- define_order, step by step -----

  /** The first loop: the desired sensors that the response has. */
  function Restrict(response: Order, desired: seq<string>): Order {
    map k | k in response && k in desired :: response[k]
  }

  /** One problem key: note its scenes if it is `date_restricted`, evaluate
      the `len` the source prints, and delete the key. */
  function ClearProblem(m: Order, p: string, scenes: seq<Value>): Result<(Order, seq<Value>), PyError> {
    if p !in m then Ok((m, scenes))
    else if p == DateRestricted then
      match Index(m[p], "sr")
      case Err(e) => Err(e)
      case Ok(sr) =>
        match Iterate(sr)
        case Err(e) => Err(e)
        case Ok(more) => Ok((m - {p}, scenes + more))
    else if p == NotImplemented then
      match Len(m[p])
      case Err(e) => Err(e)
      case Ok(_) => Ok((m - {p}, scenes))
    else
      match Index(m[p], "inputs")
      case Err(e) => Err(e)
      case Ok(inputs) =>
        match Len(inputs)
        case Err(e) => Err(e)
        case Ok(_) => Ok((m - {p}, scenes))
  }

  /** The problem loop after its first k iterations. */
  function ClearUpTo(m: Order, k: nat): Result<(Order, seq<Value>), PyError>
    requires k <= |Problems|
  {
    if k == 0 then Ok((m, []))
    else
      match ClearUpTo(m, k - 1)
      case Err(e) => Err(e)
      case Ok(state) => ClearProblem(state.0, Problems[k - 1], state.1)
  }

  /** The collection a date-restricted scene is pruned from, by its prefix. */
  function OwnerOf(scene: Value): Option<string> {
    if scene.Str? then CollectionOf(Slice(scene.s, 0, 4)) else None
  }

  /** An entry with a list under `inputs`. */
  predicate HasList(v: Value) {
    v.Obj? && "inputs" in v.fields && v.fields["inputs"].Arr?
  }

  function Inputs(v: Value): seq<Value>
    requires HasList(v)
  {
    v.fields["inputs"].items
  }

  /** `filtered_order[collection[scene[:4]]]['inputs'].remove(scene)`. */
  function PruneScene(m: Order, scene: Value): Result<Order, PyError> {
    if !scene.Str? then Err(TypeError)
    else
      var prefix := Slice(scene.s, 0, 4);
      match CollectionOf(prefix)
      case None => Err(KeyError(prefix))
      case Some(c) =>
        if c !in m then Err(KeyError(c))
        else if !m[c].Obj? then Err(TypeError)
        else if "inputs" !in m[c].fields then Err(KeyError("inputs"))
        else if !m[c].fields["inputs"].Arr? then Err(AttributeError)
        else
          match RemoveFirst(m[c].fields["inputs"].items, scene)
          case None => Err(ValueError)
          case Some(rest) => Ok(m[c := Obj(m[c].fields["inputs" := Arr(rest)])])
  }

  /** The pruning loop over the problem scenes. */
  function PruneAll(m: Order, scenes: seq<Value>): Result<Order, PyError>
    decreases |scenes|
  {
    if scenes == [] then Ok(m)
    else
      var n := |scenes| - 1;
      match PruneAll(m, scenes[..n])
      case Err(e) => Err(e)
      case Ok(m') => PruneScene(m', scenes[n])
  }

  /** `products` is attached to a dict entry whose `inputs` is truthy. */
  function AttachProducts(v: Value): Value {
    if v.Obj? && "inputs" in v.fields && Truthy(v.fields["inputs"])
    then Obj(v.fields["products" := ProductTypes])
    else v
  }

  function AttachAll(m: Order): Order {
    map k | k in m :: AttachProducts(m[k])
  }

  /** The order after restriction, problem deletion and pruning. */
  function PrunedOrder(response: Order, desired: seq<string>): Result<Order, PyError> {
    match ClearUpTo(Restrict(response, desired), |Problems|)
    case Err(e) => Err(e)
    case Ok(state) => PruneAll(state.0, state.1)
  }

  /** What `define_order` returns for this response. */
  function DefineOrderSpec(response: Order, desired: seq<string>): Result<Order, PyError> {
    match PrunedOrder(response, desired)
    case Err(e) => Err(e)
    case Ok(m) => Ok(AttachAll(m)[FormatKey := Gtiff])
  }

  /** `define_order(scene_list, desired_sensors_list)` once the
      `available-products` response is in hand. */
  method DefineOrder(response: Order, desired: seq<string>) returns (r: Result<Order, PyError>)
    ensures r == DefineOrderSpec(response, desired)
  {
    var filtered: Order := map[];
    for n := 0 to |desired|
      invariant filtered == Restrict(response, desired[..n])
    {
      var d := desired[n];
      RestrictSnoc(response, desired, n);
      if d in response {
        filtered := filtered[d := response[d]];
      }
    }
    assert desired[..|desired|] == desired;

    var cleared := ClearProblems(filtered);
    if cleared.Err? {
      return Err(cleared.error);
    }
    var (rest, scenes) := cleared.value;
    assert PrunedOrder(response, desired) == PruneAll(rest, scenes);
    var pruned := PruneScenes(rest, scenes);
    if pruned.Err? {
      return Err(pruned.error);
    }
    var attached := AttachEach(pruned.value);
    return Ok(attached[FormatKey := Gtiff]);
  }

  /** The loop of `define_order` over the problem keys: note the
      date-restricted scenes, evaluate the lengths it prints, and delete
      each problem key that is present. */
  method ClearProblems(m: Order) returns (r: Result<(Order, seq<Value>), PyError>)
    ensures r == ClearUpTo(m, |Problems|)
  {
    var filtered := m;
    var scenes: seq<Value> := [];
    for k := 0 to |Problems|
      invariant ClearUpTo(m, k) == Ok((filtered, scenes))
    {
      var p := Problems[k];
      if p in filtered {
        if p == DateRestricted {
          var sr := Index(filtered[p], "sr");
          if sr.Err? {
            ClearErrorPersists(m, k + 1);
            return Err(sr.error);
          }
          var more := Iterate(sr.value);
          if more.Err? {
            ClearErrorPersists(m, k + 1);
            return Err(more.error);
          }
          scenes := scenes + more.value;
        } else if p == NotImplemented {
          var count := Len(filtered[p]);
          if count.Err? {
            ClearErrorPersists(m, k + 1);
            return Err(count.error);
          }
        } else {
          var inputs := Index(filtered[p], "inputs");
          if inputs.Err? {
            ClearErrorPersists(m, k + 1);
            return Err(inputs.error);
          }
          var count := Len(inputs.value);
          if count.Err? {
            ClearErrorPersists(m, k + 1);
            return Err(count.error);
          }
        }
        filtered := filtered - {p};
      }
    }
    return Ok((filtered, scenes));
  }

  /** The loop of `define_order` that removes each problem scene from the
      `inputs` of its collection, in place. */
  method PruneScenes(m: Order, scenes: seq<Value>) returns (r: Result<Order, PyError>)
    ensures r == PruneAll(m, scenes)
  {
    var filtered := m;
    for i := 0 to |scenes|
      invariant PruneAll(m, scenes[..i]) == Ok(filtered)
    {
      var scene := scenes[i];
      assert scenes[..i + 1][..i] == scenes[..i] && scenes[..i + 1][i] == scene;
      var e: PyError;
      if !scene.Str? {
        e := TypeError;
      } else {
        var prefix := Slice(scene.s, 0, 4);
        var owner := CollectionOf(prefix);
        if owner.None? {
          e := KeyError(prefix);
        } else if owner.value !in filtered {
          e := KeyError(owner.value);
        } else if !filtered[owner.value].Obj? {
          e := TypeError;
        } else if "inputs" !in filtered[owner.value].fields {
          e := KeyError("inputs");
        } else if !filtered[owner.value].fields["inputs"].Arr? {
          e := AttributeError;
        } else {
          var c := owner.value;
          var rest := RemoveFirst(filtered[c].fields["inputs"].items, scene);
          if rest.Some? {
            filtered := filtered[c := Obj(filtered[c].fields["inputs" := Arr(rest.value)])];
            continue;
          }
          e := ValueError;
        }
      }
      PruneErrorPersists(m, scenes, i + 1);
      return Err(e);
    }
    assert scenes[..|scenes|] == scenes;
    return Ok(filtered);
  }

  /** The loop of `define_order` that sets `products` on every entry with
      truthy `inputs`, in place. */
  method AttachEach(m: Order) returns (r: Order)
    ensures r == AttachAll(m)
  {
    r := m;
    var todo := m.Keys;
    while todo != {}
      invariant todo <= m.Keys && r.Keys == m.Keys
      invariant forall k :: k in r ==> r[k] == if k in todo then m[k] else AttachProducts(m[k])
      decreases todo
    {
      var sensor :| sensor in todo;
      var entry := r[sensor];
      if entry.Obj? && "inputs" in entry.fields && Truthy(entry.fields["inputs"]) {
        r := r[sensor := Obj(entry.fields["products" := ProductTypes])];
      }
      todo := todo - {sensor};
    }
  }

  lemma RestrictSnoc(response: Order, desired: seq<string>, n: nat)
    requires n < |desired|
    ensures Restrict(response, desired[..n + 1])
            == if desired[n] in response then Restrict(response, desired[..n])[desired[n] := response[desired[n]]]
               else Restrict(response, desired[..n])
  {
    assert desired[..n + 1] == desired[..n] + [desired[n]];
    assert forall k :: k in desired[..n + 1] <==> k in desired[..n] || k == desired[n];
  }

  lemma {:induction false} ClearErrorPersists(m: Order, k: nat)
    requires k <= |Problems| && ClearUpTo(m, k).Err?
    ensures ClearUpTo(m, |Problems|) == ClearUpTo(m, k)
    decreases |Problems| - k
  {
    if k < |Problems| {
      ClearErrorPersists(m, k + 1);
    }
  }

  lemma {:induction false} PruneErrorPersists(m: Order, scenes: seq<Value>, k: nat)
    requires k <= |scenes| && PruneAll(m, scenes[..k]).Err?
    ensures PruneAll(m, scenes) == PruneAll(m, scenes[..k])
    decreases |scenes|
  {
    if k < |scenes| {
      var n := |scenes| - 1;
      assert scenes[..n][..k] == scenes[..k];
      PruneErrorPersists(m, scenes[..n], k);
      var e := PruneAll(m, scenes[..n]).error;
      assert PruneAll(m, scenes[..n]) == Err(e);
      assert PruneAll(m, scenes) == Err(e);
    } else {
      assert scenes[..k] == scenes;
    }
  }

  // ----- What the assembled order is -----

  /** The set of the first k problem keys. */
  function ProblemsBefore(k: nat): set<string>
    requires k <= |Problems|
  {
    if k == 0 then {} else ProblemsBefore(k - 1) + {Problems[k - 1]}
  }

  lemma AllProblems()
    ensures ProblemsBefore(|Problems|) == {DateRestricted, NotImplemented, Oli8}
  {
    assert ProblemsBefore(1) == {DateRestricted};
    assert ProblemsBefore(2) == {DateRestricted, NotImplemented};
  }

  /** After k iterations of the problem loop, exactly the first k problem
      keys are gone, nothing else changed, and the noted scenes are the
      items of `date_restricted['sr']` when that key was there. */
  lemma {:induction false} ClearUpToEffect(m: Order, k: nat)
    requires k <= |Problems| && ClearUpTo(m, k).Ok?
    ensures ClearUpTo(m, k).value.0 == m - ProblemsBefore(k)
    ensures k >= 1 && DateRestricted in m ==>
              && Index(m[DateRestricted], "sr").Ok?
              && Iterate(Index(m[DateRestricted], "sr").value).Ok?
              && ClearUpTo(m, k).value.1 == Iterate(Index(m[DateRestricted], "sr").value).value
    ensures !(k >= 1 && DateRestricted in m) ==> ClearUpTo(m, k).value.1 == []
  {
    if k > 0 {
      ClearUpToEffect(m, k - 1);
      var prev := ClearUpTo(m, k - 1).value;
      if k >= 2 {
        assert Problems[k - 1] != DateRestricted;
      }
    }
  }

  lemma {:induction false} PruneSceneKeeps(m: Order, scene: Value)
    requires PruneScene(m, scene).Ok?
    ensures PruneScene(m, scene).value.Keys == m.Keys
    ensures OwnerOf(scene).Some? && OwnerOf(scene).value in m
    ensures forall k :: k in m && Some(k) != OwnerOf(scene) ==> PruneScene(m, scene).value[k] == m[k]
  {
  }

  lemma {:induction false} PruneAllKeeps(m: Order, scenes: seq<Value>)
    requires PruneAll(m, scenes).Ok?
    ensures PruneAll(m, scenes).value.Keys == m.Keys
    decreases |scenes|
  {
    if scenes != [] {
      var n := |scenes| - 1;
      var prev := PruneAll(m, scenes[..n]);
      assert prev.Ok?;
      PruneAllKeeps(m, scenes[..n]);
      PruneSceneKeeps(prev.value, scenes[n]);
      assert PruneAll(m, scenes) == PruneScene(prev.value, scenes[n]);
    }
  }

  /** A problem scene whose collection is not in the order makes the prune
      loop raise, whatever comes before or after it. */
  lemma PruneFailsOnMissingOwner(m: Order, scenes: seq<Value>, i: nat, c: string)
    requires i < |scenes| && OwnerOf(scenes[i]) == Some(c) && c !in m
    ensures PruneAll(m, scenes).Err?
  {
    var pre := scenes[..i + 1];
    assert pre[..i] == scenes[..i] && pre[i] == scenes[i];
    if PruneAll(m, scenes[..i]).Ok? {
      PruneAllKeeps(m, scenes[..i]);
    }
    assert PruneAll(m, pre).Err?;
    PruneErrorPersists(m, scenes, i + 1);
  }

  /** The keys of the assembled order are `format` and the desired sensors
      present in the response, less the three problem keys; `format` is
      always `gtiff`. */
  lemma OrderKeys(response: Order, desired: seq<string>)
    requires DefineOrderSpec(response, desired).Ok?
    ensures DefineOrderSpec(response, desired).value.Keys
            == (set k | k in desired && k in response && k !in Problems) + {FormatKey}
    ensures DefineOrderSpec(response, desired).value[FormatKey] == Gtiff
    ensures DateRestricted !in DefineOrderSpec(response, desired).value
    ensures NotImplemented !in DefineOrderSpec(response, desired).value
    ensures Oli8 !in DefineOrderSpec(response, desired).value
  {
    var restricted := Restrict(response, desired);
    ClearUpToEffect(restricted, |Problems|);
    AllProblems();
    var state := ClearUpTo(restricted, |Problems|).value;
    PruneAllKeeps(state.0, state.1);
  }

  /** `products` is set on exactly the dict entries with a truthy `inputs`
      (after pruning); every other entry is as pruning left it. */
  lemma ProductsAttached(response: Order, desired: seq<string>, k: string)
    requires DefineOrderSpec(response, desired).Ok?
    requires k in DefineOrderSpec(response, desired).value && k != FormatKey
    ensures k in PrunedOrder(response, desired).value
    ensures var before := PrunedOrder(response, desired).value[k];
            var after := DefineOrderSpec(response, desired).value[k];
            if before.Obj? && "inputs" in before.fields && Truthy(before.fields["inputs"])
            then after.Obj? && after.fields.Keys == before.fields.Keys + {"products"}
                 && after.fields["products"] == ProductTypes
                 && forall f :: f in before.fields && f != "products" ==> after.fields[f] == before.fields[f]
            else after == before
  {
  }

  /** The scenes of `date_restricted['sr']` owned by collection c, in order. */
  function Owned(scenes: seq<Value>, c: string): seq<Value>
    decreases |scenes|
  {
    if scenes == [] then []
    else
      var n := |scenes| - 1;
      Owned(scenes[..n], c) + if OwnerOf(scenes[n]) == Some(c) then [scenes[n]] else []
  }

  /** `after` is `before` with some of its `inputs` removed: the new
      inputs plus the removed ones are, as a multiset, the old inputs, and
      every other field is unchanged. */
  predicate PrunedFrom(before: Value, after: Value, removed: seq<Value>) {
    && HasList(before) && HasList(after)
    && after.fields == before.fields["inputs" := after.fields["inputs"]]
    && multiset(Inputs(after)) + multiset(removed) == multiset(Inputs(before))
  }

  lemma PruneSceneEffect(m: Order, x: Value, c: string)
    requires PruneScene(m, x).Ok? && c in m
    ensures c in PruneScene(m, x).value
    ensures OwnerOf(x) == Some(c) ==> PrunedFrom(m[c], PruneScene(m, x).value[c], [x])
    ensures OwnerOf(x) != Some(c) ==> PruneScene(m, x).value[c] == m[c]
  {
    if OwnerOf(x) == Some(c) {
      RemoveFirstOneCopy(Inputs(m[c]), x);
    }
  }

  lemma PrunedFromTrans(a: Value, b: Value, c: Value, r1: seq<Value>, r2: seq<Value>)
    requires PrunedFrom(a, b, r1) && PrunedFrom(b, c, r2)
    ensures PrunedFrom(a, c, r1 + r2)
  {
    assert b.fields["inputs" := c.fields["inputs"]] == a.fields["inputs" := c.fields["inputs"]];
  }

  /** Pruning touches only the `inputs` of collections that own a
      date-restricted scene, and removes from each one occurrence per
      owned scene. */
  lemma {:induction false} PruneAllEffect(m: Order, scenes: seq<Value>, c: string)
    requires PruneAll(m, scenes).Ok? && c in m
    ensures c in PruneAll(m, scenes).value
    ensures Owned(scenes, c) == [] ==> PruneAll(m, scenes).value[c] == m[c]
    ensures Owned(scenes, c) != [] ==> PrunedFrom(m[c], PruneAll(m, scenes).value[c], Owned(scenes, c))
    decreases |scenes|
  {
    if scenes != [] {
      var n := |scenes| - 1;
      var x := scenes[n];
      PruneAllEffect(m, scenes[..n], c);
      var mid := PruneAll(m, scenes[..n]).value;
      PruneSceneEffect(mid, x, c);
      var after := PruneAll(m, scenes).value;
      assert after == PruneScene(mid, x).value;
      if OwnerOf(x) == Some(c) {
        assert Owned(scenes, c) == Owned(scenes[..n], c) + [x];
        if Owned(scenes[..n], c) != [] {
          PrunedFromTrans(m[c], mid[c], after[c], Owned(scenes[..n], c), [x]);
        } else {
          assert Owned(scenes, c) == [x];
        }
      } else {
        assert Owned(scenes, c) == Owned(scenes[..n], c);
      }
    }
  }

  /** The three error cases of pruning one scene, and only those (besides a
      non-string scene or a collection without an `inputs` list): an unknown
      prefix, a collection missing from the order, a scene not in its inputs. */
  lemma PruneSceneFails(m: Order, s: string)
    ensures PruneScene(m, Str(s)).Err? <==>
            || CollectionOf(Slice(s, 0, 4)).None?
            || CollectionOf(Slice(s, 0, 4)).value !in m
            || !HasList(m[CollectionOf(Slice(s, 0, 4)).value])
            || Str(s) !in Inputs(m[CollectionOf(Slice(s, 0, 4)).value])
  {
  }

  /** A date-restricted scene of prefix LO08 always makes `define_order`
      fail: its collection `oli8_collection` is one of the deleted problem
      keys, so the lookup before `remove` raises KeyError. */
  lemma Oli8ScenesAlwaysFail(response: Order, desired: seq<string>, xs: seq<Value>, i: nat)
    requires DateRestricted in desired && DateRestricted in response
    requires Index(response[DateRestricted], "sr") == Ok(Arr(xs))
    requires i < |xs| && xs[i].Str? && Slice(xs[i].s, 0, 4) == "LO08"
    ensures DefineOrderSpec(response, desired).Err?
  {
    var restricted := Restrict(response, desired);
    if ClearUpTo(restricted, |Problems|).Ok? {
      ClearUpToEffect(restricted, |Problems|);
      AllProblems();
      var state := ClearUpTo(restricted, |Problems|).value;
      assert state.1 == xs;
      PruneFailsOnMissingOwner(state.0, state.1, i, Oli8);
    }
  }

  /** Cross-collection cleanup happens only when `date_restricted` is itself
      one of the desired sensors: otherwise every entry is the response's
      own, with products attached. */
  lemma NoCleanupUnlessRequested(response: Order, desired: seq<string>, k: string)
    requires DateRestricted !in desired
    requires DefineOrderSpec(response, desired).Ok?
    requires k in DefineOrderSpec(response, desired).value && k != FormatKey
    ensures k in response && DefineOrderSpec(response, desired).value[k] == AttachProducts(response[k])
  {
    var restricted := Restrict(response, desired);
    ClearUpToEffect(restricted, |Problems|);
    AllProblems();
    OrderKeys(response, desired);
  }

  // ----- The submit decision of run -----

  /** `len(order[sensor]['inputs'])`. */
  function InputCount(v: Value): Result<nat, PyError> {
    match Index(v, "inputs")
    case Err(e) => Err(e)
    case Ok(inputs) => Len(inputs)
  }

  /** found_sensors and order_no after the loop, or the exception it raised. */
  datatype Submission = Submission(found: seq<string>, scenes: nat)

  function Decision(order: Order, desired: seq<string>): Result<Submission, PyError>
    decreases |desired|
  {
    if desired == [] then Ok(Submission([], 0))
    else
      var n := |desired| - 1;
      match Decision(order, desired[..n])
      case Err(e) => Err(e)
      case Ok(sub) =>
        if desired[n] !in order then Ok(sub)
        else
          match InputCount(order[desired[n]])
          case Err(e) => Err(e)
          case Ok(c) => Ok(Submission(sub.found + [desired[n]], sub.scenes + c))
  }

  /** Lines 414-419 of `run`: collect the desired sensors present in the
      order and add up their input counts. */
  method SubmitDecision(order: Order, desired: seq<string>) returns (r: Result<Submission, PyError>)
    ensures r == Decision(order, desired)
  {
    var orderNo := 0;
    var found := [];
    for i := 0 to |desired|
      invariant Decision(order, desired[..i]) == Ok(Submission(found, orderNo))
    {
      var sensor := desired[i];
      assert desired[..i + 1][..i] == desired[..i] && desired[..i + 1][i] == sensor;
      if sensor in order {
        var count := InputCount(order[sensor]);
        if count.Err? {
          DecisionErrorPersists(order, desired, i + 1);
          return Err(count.error);
        }
        found := found + [sensor];
        orderNo := orderNo + count.value;
      }
    }
    assert desired[..|desired|] == desired;
    return Ok(Submission(found, orderNo));
  }

  lemma {:induction false} DecisionErrorPersists(order: Order, desired: seq<string>, k: nat)
    requires k <= |desired| && Decision(order, desired[..k]).Err?
    ensures Decision(order, desired) == Decision(order, desired[..k])
    decreases |desired|
  {
    if k < |desired| {
      var n := |desired| - 1;
      assert desired[..n][..k] == desired[..k];
      DecisionErrorPersists(order, desired[..n], k);
    } else {
      assert desired[..k] == desired;
    }
  }

  /** The sensors found are the desired ones present in the order, in the
      desired order; an order is submitted iff at least one is found. */
  lemma {:induction false} DecisionFinds(order: Order, desired: seq<string>, s: string)
    requires Decision(order, desired).Ok?
    ensures s in Decision(order, desired).value.found <==> s in desired && s in order
    ensures |Decision(order, desired).value.found| > 0 <==> exists i :: 0 <= i < |desired| && desired[i] in order
    decreases |desired|
  {
    if desired != [] {
      var n := |desired| - 1;
      DecisionFinds(order, desired[..n], s);
      assert desired == desired[..n] + [desired[n]];
      assert forall i :: 0 <= i < n ==> desired[..n][i] == desired[i];
    }
  }

  /** Combined with `define_order` (and `format` not among the desired
      sensors): an order is submitted iff some desired sensor other than
      the three problem keys is in the response. */
  lemma SubmittedIff(response: Order, desired: seq<string>)
    requires FormatKey !in desired
    requires DefineOrderSpec(response, desired).Ok?
    requires Decision(DefineOrderSpec(response, desired).value, desired).Ok?
    ensures |Decision(DefineOrderSpec(response, desired).value, desired).value.found| > 0
            <==> exists i :: 0 <= i < |desired| && desired[i] in response && desired[i] !in Problems
  {
    var order := DefineOrderSpec(response, desired).value;
    OrderKeys(response, desired);
    DecisionFinds(order, desired, FormatKey);
    if exists i :: 0 <= i < |desired| && desired[i] in order {
      var i :| 0 <= i < |desired| && desired[i] in order;
      assert desired[i] != FormatKey;
    }
    if exists i :: 0 <= i < |desired| && desired[i] in response && desired[i] !in Problems {
      var i :| 0 <= i < |desired| && desired[i] in response && desired[i] !in Problems;
      assert desired[i] in order;
    }
  }

  /** An order is submitted even when pruning emptied it: a desired
      collection whose every input was date-restricted stays in the order
      with empty inputs and no products, and counts as found with 0 scenes. */
  lemma EmptiedCollectionStillSubmitted(tail: string)
    ensures var scene := Str("LC08" + tail);
            var response := map[
              "olitirs8_collection" := Obj(map["inputs" := Arr([scene])]),
              DateRestricted := Obj(map["sr" := Arr([scene])])];
            var desired := ["olitirs8_collection", DateRestricted];
            && DefineOrderSpec(response, desired).Ok?
            && "olitirs8_collection" in DefineOrderSpec(response, desired).value
            && DefineOrderSpec(response, desired).value["olitirs8_collection"] == Obj(map["inputs" := Arr([])])
            && Decision(DefineOrderSpec(response, desired).value, desired) == Ok(Submission(["olitirs8_collection"], 0))
  {
    var scene := Str("LC08" + tail);
    var collection := Obj(map["inputs" := Arr([scene])]);
    var restricted := map["olitirs8_collection" := collection, DateRestricted := Obj(map["sr" := Arr([scene])])];
    var desired := ["olitirs8_collection", DateRestricted];
    assert ("LC08" + tail)[0..4] == "LC08";
    assert OwnerOf(scene) == Some("olitirs8_collection");
    assert Restrict(restricted, desired) == restricted;
    EmptiedCleared(scene);
    EmptiedPruned(scene);
    var emptied := map["olitirs8_collection" := Obj(map["inputs" := Arr([])])];
    assert PrunedOrder(restricted, desired) == Ok(emptied);
    assert AttachAll(emptied) == emptied;
    var order := emptied[FormatKey := Gtiff];
    assert DefineOrderSpec(restricted, desired) == Ok(order);
    EmptiedDecision();
  }

  /** The scene listed under `date_restricted` is collected and that key dropped. */
  lemma EmptiedCleared(scene: Value)
    ensures var collection := Obj(map["inputs" := Arr([scene])]);
            var restricted := map["olitirs8_collection" := collection, DateRestricted := Obj(map["sr" := Arr([scene])])];
            ClearUpTo(restricted, |Problems|) == Ok((map["olitirs8_collection" := collection], [scene]))
  {
    var collection := Obj(map["inputs" := Arr([scene])]);
    var restricted := map["olitirs8_collection" := collection, DateRestricted := Obj(map["sr" := Arr([scene])])];
    var cleared := map["olitirs8_collection" := collection];
    assert restricted - {DateRestricted} == cleared;
    assert ClearUpTo(restricted, 0) == Ok((restricted, []));
    assert Index(restricted[DateRestricted], "sr") == Ok(Arr([scene]));
    assert ClearProblem(restricted, Problems[0], []) == Ok((cleared, [] + [scene]));
    assert [] + [scene] == [scene];
    assert ClearUpTo(restricted, 1) == Ok((cleared, [scene]));
    assert ClearUpTo(restricted, 2) == Ok((cleared, [scene]));
  }

  /** Pruning the collection's only scene leaves its inputs empty. */
  lemma EmptiedPruned(scene: Value)
    requires OwnerOf(scene) == Some("olitirs8_collection")
    ensures var cleared := map["olitirs8_collection" := Obj(map["inputs" := Arr([scene])])];
            PruneAll(cleared, [scene]) == Ok(map["olitirs8_collection" := Obj(map["inputs" := Arr([])])])
  {
    var collection := Obj(map["inputs" := Arr([scene])]);
    var cleared := map["olitirs8_collection" := collection];
    var emptied := map["olitirs8_collection" := Obj(map["inputs" := Arr([])])];
    assert [scene][..0] == [];
    assert [scene][1..] == [];
    assert RemoveFirst([scene], scene) == Some([]);
    assert collection.fields["inputs" := Arr([])] == map["inputs" := Arr([])];
    assert cleared["olitirs8_collection" := Obj(map["inputs" := Arr([])])] == emptied;
    assert PruneScene(cleared, scene) == Ok(emptied);
  }

  /** An emptied collection still counts as found: it is submitted, with no scenes. */
  lemma EmptiedDecision()
    ensures var order := map["olitirs8_collection" := Obj(map["inputs" := Arr([])]), FormatKey := Gtiff];
            Decision(order, ["olitirs8_collection", DateRestricted]) == Ok(Submission(["olitirs8_collection"], 0))
  {
    var order := map["olitirs8_collection" := Obj(map["inputs" := Arr([])]), FormatKey := Gtiff];
    var desired := ["olitirs8_collection", DateRestricted];
    assert desired[..1] == ["olitirs8_collection"];
    assert desired[..1][..0] == [];
    assert Decision(order, []) == Ok(Submission([], 0));
    assert [] + ["olitirs8_collection"] == ["olitirs8_collection"];
    assert InputCount(order["olitirs8_collection"]) == Ok(0);
    assert Decision(order, desired[..1]) == Ok(Submission(["olitirs8_collection"], 0));
  }

  // ----- One path/row of run: every date range in turn -----

  datatype Planned = Planned(dateRange: string, order: Order, scenes: nat)

  datatype RunError =
    | BadDateRange(dateRange: string)
    | NoDateField(line: string)
    | OrderFailed(error: PyError)

  /** Lines 408-427 for one date range: split it, select the scenes, build the
      order from the response `available` gives for them, and plan a
      submission iff some desired sensor was found. */
  function PlanOne(catalogue: seq<string>, pathRow: string, dateRange: string, desired: seq<string>,
                   available: seq<string> -> Order): Result<Option<Planned>, RunError>
  {
    var parts := Split(dateRange, '_');
    if |parts| < 2 then Err(BadDateRange(dateRange))
    else
      match Catalogue.ExtractSpec(catalogue, pathRow, parts[0], parts[1])
      case Err(line) => Err(NoDateField(line))
      case Ok(products) =>
        match DefineOrderSpec(available(products), desired)
        case Err(e) => Err(OrderFailed(e))
        case Ok(order) =>
          match Decision(order, desired)
          case Err(e) => Err(OrderFailed(e))
          case Ok(sub) =>
            if |sub.found| > 0 then Ok(Some(Planned(dateRange, order, sub.scenes))) else Ok(None)
  }

  function PlanAll(catalogue: seq<string>, pathRow: string, ranges: seq<string>, desired: seq<string>,
                   available: seq<string> -> Order): Result<seq<Planned>, RunError>
    decreases |ranges|
  {
    if ranges == [] then Ok([])
    else
      var n := |ranges| - 1;
      match PlanAll(catalogue, pathRow, ranges[..n], desired, available)
      case Err(e) => Err(e)
      case Ok(plans) =>
        match PlanOne(catalogue, pathRow, ranges[n], desired, available)
        case Err(e) => Err(e)
        case Ok(None) => Ok(plans)
        case Ok(Some(p)) => Ok(plans + [p])
  }

  /** The date-range loop of `run` for one path/row, up to the submission. */
  method PlanOrders(catalogue: seq<string>, pathRow: string, ranges: seq<string>, desired: seq<string>,
                    available: seq<string> -> Order) returns (r: Result<seq<Planned>, RunError>)
    ensures r == PlanAll(catalogue, pathRow, ranges, desired, available)
  {
    var plans := [];
    for i := 0 to |ranges|
      invariant PlanAll(catalogue, pathRow, ranges[..i], desired, available) == Ok(plans)
    {
      var dateRange := ranges[i];
      assert ranges[..i + 1][..i] == ranges[..i] && ranges[..i + 1][i] == dateRange;
      var parts := Split(dateRange, '_');
      var e: RunError;
      if |parts| < 2 {
        e := BadDateRange(dateRange);
      } else {
        var products := Catalogue.ExtractProducts(catalogue, pathRow, parts[0], parts[1]);
        if products.Err? {
          e := NoDateField(products.error);
        } else {
          var order := DefineOrder(available(products.value), desired);
          if order.Err? {
            e := OrderFailed(order.error);
          } else {
            var sub := SubmitDecision(order.value, desired);
            if sub.Err? {
              e := OrderFailed(sub.error);
            } else {
              if |sub.value.found| > 0 {
                plans := plans + [Planned(dateRange, order.value, sub.value.scenes)];
              }
              continue;
            }
          }
        }
      }
      PlanErrorPersists(catalogue, pathRow, ranges, desired, available, i + 1);
      return Err(e);
    }
    assert ranges[..|ranges|] == ranges;
    return Ok(plans);
  }

  lemma {:induction false} PlanErrorPersists(catalogue: seq<string>, pathRow: string, ranges: seq<string>,
                                             desired: seq<string>, available: seq<string> -> Order, k: nat)
    requires k <= |ranges| && PlanAll(catalogue, pathRow, ranges[..k], desired, available).Err?
    ensures PlanAll(catalogue, pathRow, ranges, desired, available)
            == PlanAll(catalogue, pathRow, ranges[..k], desired, available)
    decreases |ranges|
  {
    if k < |ranges| {
      var n := |ranges| - 1;
      assert ranges[..n][..k] == ranges[..k];
      PlanErrorPersists(catalogue, pathRow, ranges[..n], desired, available, k);
    } else {
      assert ranges[..k] == ranges;
    }
  }

  /** A date range gets a submission exactly when its order holds some
      desired sensor, and every planned order does. */
  lemma {:induction false} PlannedExactly(catalogue: seq<string>, pathRow: string, ranges: seq<string>,
                       desired: seq<string>, available: seq<string> -> Order, dr: string)
    requires PlanAll(catalogue, pathRow, ranges, desired, available).Ok?
    ensures (exists p :: p in PlanAll(catalogue, pathRow, ranges, desired, available).value && p.dateRange == dr)
            <==> dr in ranges && PlanOne(catalogue, pathRow, dr, desired, available) != Ok(None)
  {
    var plans := PlanAll(catalogue, pathRow, ranges, desired, available).value;
    if exists p :: p in plans && p.dateRange == dr {
      var p :| p in plans && p.dateRange == dr;
      var j := PlanSource(catalogue, pathRow, ranges, desired, available, p);
      PlanOneFinds(catalogue, pathRow, ranges[j], desired, available);
    }
    if dr in ranges && PlanOne(catalogue, pathRow, dr, desired, available) != Ok(None) {
      var j :| 0 <= j < |ranges| && ranges[j] == dr;
      PlanOneOkInPrefix(catalogue, pathRow, ranges, desired, available, j);
      PlanKept(catalogue, pathRow, ranges, desired, available, j);
      PlanOneFinds(catalogue, pathRow, ranges[j], desired, available);
    }
  }

  /** Every planned order comes from one date range's own build-and-decide. */
  lemma {:induction false} PlanSource(catalogue: seq<string>, pathRow: string, ranges: seq<string>,
                                      desired: seq<string>, available: seq<string> -> Order, p: Planned)
    returns (j: nat)
    requires PlanAll(catalogue, pathRow, ranges, desired, available).Ok?
    requires p in PlanAll(catalogue, pathRow, ranges, desired, available).value
    ensures j < |ranges| && PlanOne(catalogue, pathRow, ranges[j], desired, available) == Ok(Some(p))
    decreases |ranges|
  {
    var n := |ranges| - 1;
    var plans := PlanAll(catalogue, pathRow, ranges[..n], desired, available).value;
    var one := PlanOne(catalogue, pathRow, ranges[n], desired, available);
    if p in plans {
      j := PlanSource(catalogue, pathRow, ranges[..n], desired, available, p);
      assert ranges[..n][j] == ranges[j];
    } else {
      assert PlanAll(catalogue, pathRow, ranges, desired, available).value == plans + [one.value.value];
      j := n;
    }
  }

  /** Every date range whose build-and-decide plans an order has that order in the loop's result. */
  lemma {:induction false} PlanKept(catalogue: seq<string>, pathRow: string, ranges: seq<string>,
                                    desired: seq<string>, available: seq<string> -> Order, j: nat)
    requires PlanAll(catalogue, pathRow, ranges, desired, available).Ok? && j < |ranges|
    requires PlanOne(catalogue, pathRow, ranges[j], desired, available).Ok?
    requires PlanOne(catalogue, pathRow, ranges[j], desired, available).value.Some?
    ensures PlanOne(catalogue, pathRow, ranges[j], desired, available).value.value
              in PlanAll(catalogue, pathRow, ranges, desired, available).value
    decreases |ranges|
  {
    var n := |ranges| - 1;
    var plans := PlanAll(catalogue, pathRow, ranges[..n], desired, available).value;
    var one := PlanOne(catalogue, pathRow, ranges[n], desired, available);
    if j < n {
      assert ranges[..n][j] == ranges[j];
      PlanKept(catalogue, pathRow, ranges[..n], desired, available, j);
      assert one.Ok?;
      if one.value.Some? {
        assert PlanAll(catalogue, pathRow, ranges, desired, available).value == plans + [one.value.value];
      }
    }
  }

  /** Every order the loop plans holds at least one desired sensor. */
  lemma {:induction false} PlansHoldDesired(catalogue: seq<string>, pathRow: string, ranges: seq<string>,
                                            desired: seq<string>, available: seq<string> -> Order)
    requires PlanAll(catalogue, pathRow, ranges, desired, available).Ok?
    ensures forall p :: p in PlanAll(catalogue, pathRow, ranges, desired, available).value ==>
              exists s :: s in desired && s in p.order
    decreases |ranges|
  {
    if ranges != [] {
      var n := |ranges| - 1;
      PlansHoldDesired(catalogue, pathRow, ranges[..n], desired, available);
      var plans := PlanAll(catalogue, pathRow, ranges[..n], desired, available).value;
      var one := PlanOne(catalogue, pathRow, ranges[n], desired, available);
      if one.Ok? && one.value.Some? {
        PlanOneFinds(catalogue, pathRow, ranges[n], desired, available);
        assert PlanAll(catalogue, pathRow, ranges, desired, available).value == plans + [one.value.value];
      } else {
        assert PlanAll(catalogue, pathRow, ranges, desired, available).value == plans;
      }
    }
  }

  /** A planned date range carries its own name and an order holding a desired sensor. */
  lemma PlanOneFinds(catalogue: seq<string>, pathRow: string, dateRange: string, desired: seq<string>,
                     available: seq<string> -> Order)
    requires PlanOne(catalogue, pathRow, dateRange, desired, available).Ok?
    requires PlanOne(catalogue, pathRow, dateRange, desired, available).value.Some?
    ensures var p := PlanOne(catalogue, pathRow, dateRange, desired, available).value.value;
            p.dateRange == dateRange && exists s :: s in desired && s in p.order
  {
    var p := PlanOne(catalogue, pathRow, dateRange, desired, available).value.value;
    var sub := Decision(p.order, desired).value;
    DecisionFinds(p.order, desired, sub.found[0]);
  }

  lemma {:induction false} PlanOneOkInPrefix(catalogue: seq<string>, pathRow: string, ranges: seq<string>,
                                             desired: seq<string>, available: seq<string> -> Order, j: nat)
    requires PlanAll(catalogue, pathRow, ranges, desired, available).Ok? && j < |ranges|
    ensures PlanOne(catalogue, pathRow, ranges[j], desired, available).Ok?
    decreases |ranges|
  {
    var n := |ranges| - 1;
    if j < n {
      assert ranges[..n][j] == ranges[j];
      PlanOneOkInPrefix(catalogue, pathRow, ranges[..n], desired, available, j);
    }
  }
}
