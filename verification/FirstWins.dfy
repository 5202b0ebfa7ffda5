/** Two list operations of the tally: picking items out, and keeping the first item of each key. */
module FirstWins {
  import opened Text

  function Collect<V, T>(vs: seq<V>, pick: V -> Option<T>): seq<T> {
    if vs == [] then []
    else
      var rest := Collect(vs[..|vs| - 1], pick);
      match pick(vs[|vs| - 1])
      case Some(x) => rest + [x]
      case None => rest
  }

  lemma {:induction false} CollectAppend<V, T>(xs: seq<V>, ys: seq<V>, pick: V -> Option<T>)
    ensures Collect(xs + ys, pick) == Collect(xs, pick) + Collect(ys, pick)
  {
    if ys == [] {
      assert xs + ys == xs;
    } else {
      var n := |ys| - 1;
      CollectAppend(xs, ys[..n], pick);
      assert (xs + ys)[..|xs + ys| - 1] == xs + ys[..n];
    }
  }

  lemma CollectOne<V, T>(xs: seq<V>, x: V, pick: V -> Option<T>)
    ensures Collect(xs + [x], pick) == if pick(x).Some? then Collect(xs, pick) + [pick(x).value] else Collect(xs, pick)
  {
    assert (xs + [x])[..|xs|] == xs;
  }

  /** What is collected are the picks at these places of the list, in this order, and there are no others. */
  ghost predicate PickedFrom<V, T>(vs: seq<V>, pick: V -> Option<T>, out: seq<T>, places: seq<nat>) {
    && |places| == |out|
    && (forall i, j :: 0 <= i < j < |places| ==> places[i] < places[j])
    && (forall i :: 0 <= i < |places| ==> places[i] < |vs| && pick(vs[places[i]]) == Some(out[i]))
    && (forall j: nat :: j < |vs| && pick(vs[j]).Some? ==> j in places)
  }

  lemma PickedFromOneMore<V, T>(vs: seq<V>, pick: V -> Option<T>, out: seq<T>, places: seq<nat>, x: V)
    requires PickedFrom(vs, pick, out, places)
    ensures pick(x).None? ==> PickedFrom(vs + [x], pick, out, places)
    ensures pick(x).Some? ==> PickedFrom(vs + [x], pick, out + [pick(x).value], places + [|vs|])
  {
    var all, more := vs + [x], places + [|vs|];
    forall i | 0 <= i < |places| ensures all[places[i]] == vs[places[i]] && more[i] == places[i] {}
    forall j: nat | j < |all| && pick(all[j]).Some? ensures j in more && (pick(x).None? ==> j in places) {
      if j < |vs| { assert j in places; var i :| 0 <= i < |places| && places[i] == j; assert more[i] == j; }
      else { assert more[|places|] == j; }
    }
  }

  lemma {:induction false} CollectPlaces<V, T>(vs: seq<V>, pick: V -> Option<T>) returns (places: seq<nat>)
    ensures PickedFrom(vs, pick, Collect(vs, pick), places)
  {
    places := [];
    if vs != [] {
      var n := |vs| - 1;
      places := CollectPlaces(vs[..n], pick);
      PickedFromOneMore(vs[..n], pick, Collect(vs[..n], pick), places, vs[n]);
      assert vs == vs[..n] + [vs[n]];
      if pick(vs[n]).Some? { places := places + [n]; }
    }
  }

  function KeysOf<T, K(==)>(xs: seq<T>, key: T -> K): set<K> {
    set i | 0 <= i < |xs| :: key(xs[i])
  }

  function FirstPer<T, K(==)>(xs: seq<T>, key: T -> K): (out: seq<T>)
    ensures |out| <= |xs|
  {
    if xs == [] then []
    else
      var rest, x := xs[..|xs| - 1], xs[|xs| - 1];
      FirstPer(rest, key) + (if key(x) in KeysOf(rest, key) then [] else [x])
  }

  lemma KeysAppend<T, K>(xs: seq<T>, x: T, key: T -> K)
    ensures KeysOf(xs + [x], key) == KeysOf(xs, key) + {key(x)}
  {
    var all := xs + [x];
    forall k | k in KeysOf(xs, key) + {key(x)} ensures k in KeysOf(all, key) {
      if k == key(x) { assert all[|xs|] == x; }
      else { var i :| 0 <= i < |xs| && key(xs[i]) == k; assert all[i] == xs[i]; }
    }
  }

  lemma FirstPerStep<T, K>(xs: seq<T>, x: T, key: T -> K)
    ensures FirstPer(xs + [x], key) == FirstPer(xs, key) + (if key(x) in KeysOf(xs, key) then [] else [x])
  {
    assert (xs + [x])[..|xs|] == xs;
  }

  /** Every key survives, and each only once. */
  lemma {:induction false} FirstPerKeys<T, K>(xs: seq<T>, key: T -> K)
    ensures KeysOf(FirstPer(xs, key), key) == KeysOf(xs, key)
    ensures |FirstPer(xs, key)| == |KeysOf(xs, key)|
  {
    if xs != [] {
      var rest, x := xs[..|xs| - 1], xs[|xs| - 1];
      assert xs == rest + [x];
      FirstPerKeys(rest, key);
      KeysAppend(rest, x, key);
      if key(x) in KeysOf(rest, key) {
        assert FirstPer(xs, key) == FirstPer(rest, key);
      } else {
        KeysAppend(FirstPer(rest, key), x, key);
      }
    }
  }

  /** Later items never displace earlier ones. */
  lemma {:induction false} FirstPerPrefix<T, K>(xs: seq<T>, ys: seq<T>, key: T -> K)
    ensures FirstPer(xs, key) <= FirstPer(xs + ys, key)
  {
    if ys == [] {
      assert xs + ys == xs;
    } else {
      var n := |ys| - 1;
      FirstPerPrefix(xs, ys[..n], key);
      assert xs + ys == xs + ys[..n] + [ys[n]];
      FirstPerStep(xs + ys[..n], ys[n], key);
    }
  }

  /** No key is kept twice. */
  lemma {:induction false} FirstPerDistinct<T, K>(xs: seq<T>, key: T -> K, i: nat, j: nat)
    requires i < j < |FirstPer(xs, key)|
    ensures key(FirstPer(xs, key)[i]) != key(FirstPer(xs, key)[j])
  {
    var rest, x := xs[..|xs| - 1], xs[|xs| - 1];
    var kept := FirstPer(rest, key);
    if j < |kept| {
      FirstPerDistinct(rest, key, i, j);
    } else {
      FirstPerKeys(rest, key);
      assert key(kept[i]) in KeysOf(kept, key);
    }
  }

  // ----- First wins, by position in the list that is picked from -----

  ghost predicate PickedAt<V, T, K>(vs: seq<V>, pick: V -> Option<T>, key: T -> K, j: nat, k: K) {
    j < |vs| && pick(vs[j]).Some? && key(pick(vs[j]).value) == k
  }

  /** `x` is picked at `i`, and nothing before has its key. */
  ghost predicate FirstPicked<V, T, K>(vs: seq<V>, pick: V -> Option<T>, key: T -> K, i: nat, x: T) {
    && i < |vs| && pick(vs[i]) == Some(x)
    && forall j: nat :: j < i ==> !PickedAt(vs, pick, key, j, key(x))
  }

  lemma {:induction false} PickedKeys<V, T, K>(vs: seq<V>, pick: V -> Option<T>, key: T -> K, k: K)
    ensures k in KeysOf(Collect(vs, pick), key) <==> exists j: nat :: PickedAt(vs, pick, key, j, k)
  {
    if vs != [] {
      var n := |vs| - 1;
      var rest := vs[..n];
      PickedKeys(rest, pick, key, k);
      forall j: nat | j < n ensures PickedAt(vs, pick, key, j, k) <==> PickedAt(rest, pick, key, j, k) {}
      match pick(vs[n]) {
        case None => assert Collect(vs, pick) == Collect(rest, pick);
        case Some(x) => KeysAppend(Collect(rest, pick), x, key);
      }
      assert k in KeysOf(Collect(vs, pick), key) <==>
             k in KeysOf(Collect(rest, pick), key) || PickedAt(vs, pick, key, n, k);
    }
  }

  lemma FirstPickedPrefix<V, T, K>(vs: seq<V>, pick: V -> Option<T>, key: T -> K, n: nat, i: nat, x: T)
    requires i < n <= |vs|
    ensures FirstPicked(vs, pick, key, i, x) <==> FirstPicked(vs[..n], pick, key, i, x)
  {
    forall j: nat | j < i
      ensures PickedAt(vs, pick, key, j, key(x)) <==> PickedAt(vs[..n], pick, key, j, key(x))
    {}
  }

  lemma FirstPickedLast<V, T, K>(vs: seq<V>, pick: V -> Option<T>, key: T -> K, n: nat, x: T)
    requires n < |vs|
    ensures FirstPicked(vs, pick, key, n, x) <==>
            pick(vs[n]) == Some(x) && key(x) !in KeysOf(Collect(vs[..n], pick), key)
  {
    PickedKeys(vs[..n], pick, key, key(x));
    forall j: nat | j < n
      ensures PickedAt(vs, pick, key, j, key(x)) <==> PickedAt(vs[..n], pick, key, j, key(x))
    {}
  }

  /** What is kept of what is picked: exactly what is picked first. */
  lemma {:induction false} FirstPickedIff<V, T, K>(vs: seq<V>, pick: V -> Option<T>, key: T -> K, x: T)
    ensures x in FirstPer(Collect(vs, pick), key) <==> exists i: nat :: FirstPicked(vs, pick, key, i, x)
  {
    if vs != [] {
      var n := |vs| - 1;
      var rest := vs[..n];
      FirstPickedIff(rest, pick, key, x);
      forall i: nat | i < n ensures FirstPicked(vs, pick, key, i, x) <==> FirstPicked(rest, pick, key, i, x) {
        FirstPickedPrefix(vs, pick, key, n, i, x);
      }
      FirstPickedLast(vs, pick, key, n, x);
      LastKept(vs, pick, key, n, x);
    }
  }

  lemma LastKept<V, T, K>(vs: seq<V>, pick: V -> Option<T>, key: T -> K, n: nat, x: T)
    requires n + 1 == |vs|
    ensures x in FirstPer(Collect(vs, pick), key) <==>
            || x in FirstPer(Collect(vs[..n], pick), key)
            || (pick(vs[n]) == Some(x) && key(x) !in KeysOf(Collect(vs[..n], pick), key))
  {
    var kept := Collect(vs[..n], pick);
    if pick(vs[n]).Some? {
      FirstPerStep(kept, pick(vs[n]).value, key);
    } else {
      assert Collect(vs, pick) == kept;
    }
  }
}
