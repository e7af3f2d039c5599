/** Two shapes the application's table code uses over and over: scanning
    rows for the first one that matches, and building a dictionary row by
    row so that a later row with the same key overwrites an earlier one. */
module Tables {
  import opened Wrappers

  /** The position of the first element satisfying `p`. */
  function FirstWhere<T>(xs: seq<T>, p: T -> bool): (r: Option<nat>)
    ensures r.Some? ==> r.value < |xs| && p(xs[r.value])
    ensures r.Some? ==> forall j :: 0 <= j < r.value ==> !p(xs[j])
    ensures r.None? ==> forall j :: 0 <= j < |xs| ==> !p(xs[j])
    decreases |xs|
  {
    if |xs| == 0 then None
    else if p(xs[0]) then Some(0)
    else match FirstWhere(xs[1..], p)
      case None => None
      case Some(k) => Some(k + 1)
  }

  /** The first position passing `p` is the one FirstWhere finds. */
  lemma FirstWhereAt<T>(xs: seq<T>, p: T -> bool, k: nat)
    requires k < |xs| && p(xs[k])
    requires forall j :: 0 <= j < k ==> !p(xs[j])
    ensures FirstWhere(xs, p) == Some(k)
  {
  }

  /** Two predicates that agree on every element find the same position. */
  lemma {:induction false} FirstWhereSame<T>(xs: seq<T>, p: T -> bool, q: T -> bool)
    requires forall j :: 0 <= j < |xs| ==> p(xs[j]) == q(xs[j])
    ensures FirstWhere(xs, p) == FirstWhere(xs, q)
    decreases |xs|
  {
    if |xs| > 0 {
      FirstWhereSame(xs[1..], p, q);
    }
  }

  /** The dictionary a loop builds with `d[key(x)] = value(x)` for every x
      in order. */
  function KeyedMap<T, K, V>(xs: seq<T>, key: T -> K, value: T -> V): map<K, V>
    decreases |xs|
  {
    if xs == [] then map[]
    else KeyedMap(xs[..|xs| - 1], key, value)[key(xs[|xs| - 1]) := value(xs[|xs| - 1])]
  }

  /** One more loop iteration adds (or overwrites) one entry. */
  lemma KeyedMapSnoc<T, K, V>(xs: seq<T>, i: nat, key: T -> K, value: T -> V)
    requires i < |xs|
    ensures KeyedMap(xs[..i + 1], key, value) == KeyedMap(xs[..i], key, value)[key(xs[i]) := value(xs[i])]
  {
    assert xs[..i + 1][..i] == xs[..i];
  }

  /** The dictionary has an entry for exactly the keys of the elements. */
  lemma {:induction false} KeyedMapKeys<T, K, V>(xs: seq<T>, key: T -> K, value: T -> V)
    ensures KeyedMap(xs, key, value).Keys == set i | 0 <= i < |xs| :: key(xs[i])
    decreases |xs|
  {
    if xs != [] {
      var front := xs[..|xs| - 1];
      KeyedMapKeys(front, key, value);
      assert (set i | 0 <= i < |xs| :: key(xs[i]))
          == (set i | 0 <= i < |front| :: key(front[i])) + {key(xs[|xs| - 1])};
    }
  }

  /** The entry for a key is the value of the last element with that key. */
  lemma {:induction false} KeyedMapLastWins<T, K, V>(xs: seq<T>, k: nat, key: T -> K, value: T -> V)
    requires k < |xs|
    requires forall j :: k < j < |xs| ==> key(xs[j]) != key(xs[k])
    ensures key(xs[k]) in KeyedMap(xs, key, value)
    ensures KeyedMap(xs, key, value)[key(xs[k])] == value(xs[k])
    decreases |xs|
  {
    if k < |xs| - 1 {
      var front := xs[..|xs| - 1];
      assert front[k] == xs[k];
      KeyedMapLastWins(front, k, key, value);
    }
  }

  /** `[f(x) for x in xs]`. */
  function MapSeq<T, U>(xs: seq<T>, f: T -> U): (r: seq<U>)
    ensures |r| == |xs|
    ensures forall i :: 0 <= i < |xs| ==> r[i] == f(xs[i])
  {
    seq(|xs|, i requires 0 <= i < |xs| => f(xs[i]))
  }

  /** `[x for x in xs if p(x)]`. */
  function Filter<T>(xs: seq<T>, p: T -> bool): (r: seq<T>)
    ensures |r| <= |xs|
    ensures forall i :: 0 <= i < |r| ==> p(r[i])
    decreases |xs|
  {
    if xs == [] then []
    else Filter(xs[..|xs| - 1], p) + (if p(xs[|xs| - 1]) then [xs[|xs| - 1]] else [])
  }

  /** Filtering a concatenation filters each part and keeps their order. */
  lemma {:induction false} FilterAppend<T>(a: seq<T>, b: seq<T>, p: T -> bool)
    ensures Filter(a + b, p) == Filter(a, p) + Filter(b, p)
    decreases |b|
  {
    if b == [] {
      assert a + b == a;
    } else {
      var b' := b[..|b| - 1];
      assert (a + b)[..|a + b| - 1] == a + b';
      assert (a + b)[|a + b| - 1] == b[|b| - 1];
      FilterAppend(a, b', p);
    }
  }

  /** An element survives the filter exactly when it was there and passes. */
  lemma {:induction false} FilterMembers<T>(xs: seq<T>, p: T -> bool, x: T)
    ensures x in Filter(xs, p) <==> x in xs && p(x)
    decreases |xs|
  {
    if xs != [] {
      var init := xs[..|xs| - 1];
      FilterMembers(init, p, x);
      assert xs == init + [xs[|xs| - 1]];
    }
  }

  /** Nothing is dropped exactly when every element passes. */
  lemma {:induction false} FilterKeepsAll<T>(xs: seq<T>, p: T -> bool)
    ensures |Filter(xs, p)| == |xs| <==> forall i :: 0 <= i < |xs| ==> p(xs[i])
    ensures (forall i :: 0 <= i < |xs| ==> p(xs[i])) ==> Filter(xs, p) == xs
    decreases |xs|
  {
    if xs != [] {
      var init := xs[..|xs| - 1];
      FilterKeepsAll(init, p);
      assert xs == init + [xs[|xs| - 1]];
    }
  }

  /** The running maximum a loop computes with `m = max(m, v(x))` from 0,
      skipping the elements `v` gives no value for. */
  function MaxValue<T>(xs: seq<T>, v: T -> Option<int>): int
    decreases |xs|
  {
    if xs == [] then 0
    else
      var m := MaxValue(xs[..|xs| - 1], v);
      match v(xs[|xs| - 1])
      case Some(x) => if x > m then x else m
      case None => m
  }

  /** One more element of the running maximum: the step `m = max(m, v(x))`. */
  lemma MaxValueStep<T>(xs: seq<T>, v: T -> Option<int>, i: nat)
    requires i < |xs|
    ensures MaxValue(xs[..i + 1], v)
              == match v(xs[i])
                 case Some(x) => if x > MaxValue(xs[..i], v) then x else MaxValue(xs[..i], v)
                 case None => MaxValue(xs[..i], v)
  {
    assert xs[..i + 1][..i] == xs[..i];
    assert xs[..i + 1][i] == xs[i];
  }

  /** The maximum is at least 0, bounds every value, and is one of them
      unless it is 0. */
  lemma {:induction false} MaxValueSpec<T>(xs: seq<T>, v: T -> Option<int>)
    ensures MaxValue(xs, v) >= 0
    ensures forall k :: 0 <= k < |xs| && v(xs[k]).Some? ==> v(xs[k]).value <= MaxValue(xs, v)
    ensures MaxValue(xs, v) == 0 || exists k :: 0 <= k < |xs| && v(xs[k]) == Some(MaxValue(xs, v))
    decreases |xs|
  {
    if xs != [] {
      var init := xs[..|xs| - 1];
      MaxValueSpec(init, v);
      assert forall k :: 0 <= k < |init| ==> init[k] == xs[k];
    }
  }

  /** Mapping that stops at the first element `f` fails on: the images
      before it, and whether every element was mapped. */
  datatype Partial<U> = Partial(done: seq<U>, complete: bool)

  function MapUntil<T, U>(xs: seq<T>, f: T -> Option<U>): (r: Partial<U>)
    ensures |r.done| <= |xs|
    ensures r.complete ==> |r.done| == |xs|
    decreases |xs|
  {
    if xs == [] then Partial([], true)
    else match f(xs[0])
      case None => Partial([], false)
      case Some(y) =>
        var rest := MapUntil(xs[1..], f);
        Partial([y] + rest.done, rest.complete)
  }

  /** An element `f` fails on stops the mapping at or before it. */
  lemma {:induction false} MapUntilStops<T, U>(xs: seq<T>, f: T -> Option<U>, k: nat)
    requires k < |xs| && f(xs[k]).None?
    ensures !MapUntil(xs, f).complete && |MapUntil(xs, f).done| <= k
    decreases k
  {
    if k > 0 && f(xs[0]).Some? {
      assert xs[1..][k - 1] == xs[k];
      MapUntilStops(xs[1..], f, k - 1);
    }
  }

  /** When `f` succeeds on every element, the mapping completes and maps
      each element. */
  lemma {:induction false} MapUntilAll<T, U>(xs: seq<T>, f: T -> Option<U>)
    requires forall k :: 0 <= k < |xs| ==> f(xs[k]).Some?
    ensures MapUntil(xs, f).complete
    ensures |MapUntil(xs, f).done| == |xs|
    ensures forall k :: 0 <= k < |xs| ==> MapUntil(xs, f).done[k] == f(xs[k]).value
    decreases |xs|
  {
    if xs != [] {
      assert f(xs[0]).Some?;
      forall k | 0 <= k < |xs[1..]|
        ensures f(xs[1..][k]).Some?
      {
        assert xs[1..][k] == xs[k + 1];
      }
      MapUntilAll(xs[1..], f);
      forall k | 1 <= k < |xs|
        ensures MapUntil(xs, f).done[k] == f(xs[k]).value
      {
        assert xs[1..][k - 1] == xs[k];
      }
    }
  }
}
