/**
 * Python's list-comprehension filter and its insertion-ordered `dict`,
 * the latter as an association list with one pair per key.
 */
module Collections {
  import opened Wrappers

  lemma AppendAssoc<T>(a: seq<T>, b: seq<T>, c: seq<T>)
    ensures a + b + c == a + (b + c)
  {
  }

  /** `[x for x in xs if p(x)]` */
  function Filter<T>(xs: seq<T>, p: T -> bool): seq<T>
    decreases |xs|
  {
    if |xs| == 0 then []
    else Filter(xs[..|xs| - 1], p) + (if p(xs[|xs| - 1]) then [xs[|xs| - 1]] else [])
  }

  /** The filter keeps exactly the elements satisfying `p`. */
  lemma {:induction false} FilterMembers<T>(xs: seq<T>, p: T -> bool)
    ensures forall x :: x in Filter(xs, p) <==> x in xs && p(x)
    ensures |Filter(xs, p)| <= |xs|
    decreases |xs|
  {
    if |xs| > 0 {
      var n := |xs| - 1;
      FilterMembers(xs[..n], p);
      assert xs == xs[..n] + [xs[n]];
    }
  }

  /** `xs.index(x)`, the first position of `x`; `|xs|` when it is absent (where Python raises). */
  function IndexOf<T(==)>(xs: seq<T>, x: T): (i: nat)
    ensures i <= |xs|
    ensures i < |xs| <==> x in xs
    ensures i < |xs| ==> xs[i] == x
    ensures forall j :: 0 <= j < i ==> xs[j] != x
    decreases |xs|
  {
    if |xs| == 0 then 0
    else if xs[0] == x then 0
    else 1 + IndexOf(xs[1..], x)
  }

  /** `{f(x) for x in xs if f(x) is not None}`, the set a loop of `add` calls builds. */
  function Collected<T, K>(xs: seq<T>, f: T -> Option<K>): set<K>
    decreases |xs|
  {
    if |xs| == 0 then {}
    else
      var prev := Collected(xs[..|xs| - 1], f);
      match f(xs[|xs| - 1])
      case None => prev
      case Some(k) => prev + {k}
  }

  /** A value is collected exactly when some element yields it. */
  lemma {:induction false} CollectedSpec<T, K>(xs: seq<T>, f: T -> Option<K>, k: K)
    ensures k in Collected(xs, f) <==> exists i :: 0 <= i < |xs| && f(xs[i]) == Some(k)
    decreases |xs|
  {
    if |xs| > 0 {
      var n := |xs| - 1;
      CollectedSpec(xs[..n], f, k);
      if k in Collected(xs[..n], f) {
        var i :| 0 <= i < n && f(xs[..n][i]) == Some(k);
        assert xs[i] == xs[..n][i];
      }
      if exists i :: 0 <= i < |xs| && f(xs[i]) == Some(k) {
        var i :| 0 <= i < |xs| && f(xs[i]) == Some(k);
        if i < n {
          assert xs[..n][i] == xs[i];
        }
      }
    }
  }

  /** The filter keeps the order of the input: filtering a concatenation concatenates the filtered parts. */
  lemma {:induction false} FilterAppend<T>(xs: seq<T>, ys: seq<T>, p: T -> bool)
    ensures Filter(xs + ys, p) == Filter(xs, p) + Filter(ys, p)
    decreases |ys|
  {
    if |ys| > 0 {
      var m := |ys| - 1;
      FilterAppend(xs, ys[..m], p);
      var zs := xs + ys;
      assert zs[..|zs| - 1] == xs + ys[..m];
      assert zs[|zs| - 1] == ys[m];
      var last := if p(ys[m]) then [ys[m]] else [];
      assert Filter(zs, p) == Filter(xs + ys[..m], p) + last;
      assert Filter(ys, p) == Filter(ys[..m], p) + last;
      assert Filter(xs, p) + Filter(ys[..m], p) + last == Filter(xs, p) + (Filter(ys[..m], p) + last);
    } else {
      assert xs + ys == xs;
    }
  }

  type Dict<K, V> = seq<(K, V)>

  predicate DistinctKeys<K(==), V>(d: Dict<K, V>) {
    forall i, j :: 0 <= i < j < |d| ==> d[i].0 != d[j].0
  }

  /** The first position holding key `k`, or `|d|` when there is none. */
  function IndexOfKey<K(==), V>(d: Dict<K, V>, k: K): (i: nat)
    ensures i <= |d|
    ensures i < |d| ==> d[i].0 == k
    ensures forall j :: 0 <= j < i ==> d[j].0 != k
    decreases |d|
  {
    if |d| == 0 then 0
    else if d[0].0 == k then 0
    else 1 + IndexOfKey(d[1..], k)
  }

  predicate HasKey<K(==), V>(d: Dict<K, V>, k: K) {
    IndexOfKey(d, k) < |d|
  }

  lemma HasKeyAt<K, V>(d: Dict<K, V>, k: K, i: nat)
    requires i < |d| && d[i].0 == k
    ensures HasKey(d, k) && IndexOfKey(d, k) <= i
  {
  }

  /** `d.get(k)` */
  function Get<K(==), V>(d: Dict<K, V>, k: K): Option<V> {
    var i := IndexOfKey(d, k);
    if i < |d| then Some(d[i].1) else None
  }

  /** `d[k] = v`: an existing key keeps its place and takes the new value, a new key goes last. */
  function Put<K(==), V>(d: Dict<K, V>, k: K, v: V): Dict<K, V> {
    var i := IndexOfKey(d, k);
    if i < |d| then d[i := (k, v)] else d + [(k, v)]
  }

  lemma {:induction false} IndexOfKeySnoc<K, V>(d: Dict<K, V>, x: (K, V), k: K)
    ensures IndexOfKey(d + [x], k) == if HasKey(d, k) then IndexOfKey(d, k) else if x.0 == k then |d| else |d| + 1
    decreases |d|
  {
    if |d| > 0 && d[0].0 != k {
      assert (d + [x])[0] == d[0] && (d + [x])[1..] == d[1..] + [x];
      IndexOfKeySnoc(d[1..], x, k);
    }
  }

  /** What `d[k] = v` does to a dict with distinct keys. */
  lemma PutSpec<K, V>(d: Dict<K, V>, k: K, v: V)
    requires DistinctKeys(d)
    ensures var r := Put(d, k, v);
      DistinctKeys(r) && HasKey(r, k) && r[IndexOfKey(r, k)] == (k, v)
      && (forall x :: HasKey(r, x) <==> HasKey(d, x) || x == k)
      && (forall i :: 0 <= i < |d| && d[i].0 != k ==> r[i] == d[i])
      && (forall x :: HasKey(d, x) ==> IndexOfKey(r, x) == IndexOfKey(d, x))
      && (!HasKey(d, k) ==> IndexOfKey(r, k) == |d|)
  {
    var r := Put(d, k, v);
    var i := IndexOfKey(d, k);
    if i < |d| {
      forall x ensures IndexOfKey(r, x) == IndexOfKey(d, x) {
        var a := IndexOfKey(d, x);
        if a < |d| { HasKeyAt(r, x, a); }
      }
    } else {
      forall x ensures IndexOfKey(r, x) == if HasKey(d, x) then IndexOfKey(d, x) else if k == x then |d| else |d| + 1 {
        IndexOfKeySnoc(d, (k, v), x);
      }
    }
  }

  /** `Get` after `Put`: the new value for the key written, the old answer for every other key. */
  lemma PutGet<K, V>(d: Dict<K, V>, k: K, v: V, x: K)
    requires DistinctKeys(d)
    ensures Get(Put(d, k, v), x) == if x == k then Some(v) else Get(d, x)
  {
    PutSpec(d, k, v);
    var r := Put(d, k, v);
    if x != k && HasKey(d, x) {
      var a := IndexOfKey(d, x);
      assert r[a] == d[a];
    }
  }

  /** `{key(x): val(x) for x in xs if cond(x)}`: the pairs put in one after another. */
  function DictComp<T, K(==), V>(xs: seq<T>, cond: T -> bool, key: T -> K, val: T -> V): Dict<K, V>
    decreases |xs|
  {
    if |xs| == 0 then []
    else
      var d := DictComp(xs[..|xs| - 1], cond, key, val);
      var x := xs[|xs| - 1];
      if cond(x) then Put(d, key(x), val(x)) else d
  }

  /** `cond(xs[j])` holds and `xs[j]` has key `k`. */
  predicate MatchAt<T, K(==)>(xs: seq<T>, cond: T -> bool, key: T -> K, k: K, j: nat) {
    j < |xs| && cond(xs[j]) && key(xs[j]) == k
  }

  /** `j` is the last position of `xs` whose element is kept with key `k`. */
  predicate LastMatch<T, K(==)>(xs: seq<T>, cond: T -> bool, key: T -> K, k: K, j: nat) {
    MatchAt(xs, cond, key, k, j) && forall j' :: j < j' < |xs| ==> !MatchAt(xs, cond, key, k, j')
  }

  /** The first position whose element is kept with key `k`, or `|xs|`. */
  function FirstMatch<T, K(==)>(xs: seq<T>, cond: T -> bool, key: T -> K, k: K): (f: nat)
    ensures f <= |xs|
    ensures f < |xs| ==> MatchAt(xs, cond, key, k, f)
    ensures forall j :: 0 <= j < f ==> !MatchAt(xs, cond, key, k, j)
    decreases |xs|
  {
    if |xs| == 0 then 0
    else
      var n := |xs| - 1;
      var f := FirstMatch(xs[..n], cond, key, k);
      assert forall j :: 0 <= j < f ==> MatchAt(xs, cond, key, k, j) == MatchAt(xs[..n], cond, key, k, j);
      if f < n then (assert MatchAt(xs[..n], cond, key, k, f); f)
      else if cond(xs[n]) && key(xs[n]) == k then n
      else n + 1
  }

  /** The invariant `DictCompSpec` carries from one element to the next. */
  ghost predicate CompInvariant<T, K(!new), V>(xs: seq<T>, cond: T -> bool, key: T -> K, val: T -> V, d: Dict<K, V>) {
    DistinctKeys(d)
    && (forall k :: HasKey(d, k) <==> FirstMatch(xs, cond, key, k) < |xs|)
    && (forall k, j: nat :: LastMatch(xs, cond, key, k, j) ==> Get(d, k) == Some(val(xs[j])))
    && (forall i, i' :: 0 <= i < i' < |d| ==> FirstMatch(xs, cond, key, d[i].0) < FirstMatch(xs, cond, key, d[i'].0))
  }

  /**
   * The comprehension has one pair per key of a kept element, holding the value of the
   * key's last kept element, with the keys in the order of their first kept element.
   */
  lemma {:induction false} DictCompSpec<T, K(!new), V>(xs: seq<T>, cond: T -> bool, key: T -> K, val: T -> V)
    ensures var d := DictComp(xs, cond, key, val);
      DistinctKeys(d)
      && (forall k :: HasKey(d, k) <==> exists j :: 0 <= j < |xs| && cond(xs[j]) && key(xs[j]) == k)
      && (forall k, j: nat :: LastMatch(xs, cond, key, k, j) ==> Get(d, k) == Some(val(xs[j])))
      && (forall i, i' :: 0 <= i < i' < |d| ==> FirstMatch(xs, cond, key, d[i].0) < FirstMatch(xs, cond, key, d[i'].0))
  {
    DictCompInvariant(xs, cond, key, val);
    var d := DictComp(xs, cond, key, val);
    forall k ensures HasKey(d, k) <==> exists j :: 0 <= j < |xs| && cond(xs[j]) && key(xs[j]) == k {
      var f := FirstMatch(xs, cond, key, k);
      if exists j :: 0 <= j < |xs| && cond(xs[j]) && key(xs[j]) == k {
        var j :| 0 <= j < |xs| && cond(xs[j]) && key(xs[j]) == k;
        assert MatchAt(xs, cond, key, k, j);
      }
      if f < |xs| { assert MatchAt(xs, cond, key, k, f); }
    }
  }

  lemma {:induction false} DictCompInvariant<T, K(!new), V>(xs: seq<T>, cond: T -> bool, key: T -> K, val: T -> V)
    ensures CompInvariant(xs, cond, key, val, DictComp(xs, cond, key, val))
    decreases |xs|
  {
    if |xs| > 0 {
      var n := |xs| - 1;
      DictCompInvariant(xs[..n], cond, key, val);
      CompStep(xs, cond, key, val, DictComp(xs[..n], cond, key, val));
    }
  }

  /** One element of the comprehension: kept (a `Put`) or dropped. */
  lemma CompStep<T, K(!new), V>(xs: seq<T>, cond: T -> bool, key: T -> K, val: T -> V, d': Dict<K, V>)
    requires |xs| > 0
    requires CompInvariant(xs[..|xs| - 1], cond, key, val, d')
    ensures var x := xs[|xs| - 1];
      CompInvariant(xs, cond, key, val, if cond(x) then Put(d', key(x), val(x)) else d')
  {
    if cond(xs[|xs| - 1]) {
      KeepStep(xs, cond, key, val, d');
    } else {
      DropStep(xs, cond, key, val, d');
    }
  }

  lemma KeepStep<T, K(!new), V>(xs: seq<T>, cond: T -> bool, key: T -> K, val: T -> V, d': Dict<K, V>)
    requires |xs| > 0 && cond(xs[|xs| - 1])
    requires CompInvariant(xs[..|xs| - 1], cond, key, val, d')
    ensures var x := xs[|xs| - 1];
      CompInvariant(xs, cond, key, val, Put(d', key(x), val(x)))
  {
    var x := xs[|xs| - 1];
    PutSpec(d', key(x), val(x));
    KeepKeys(xs, cond, key, val, d');
    KeepValues(xs, cond, key, val, d');
    KeepOrder(xs, cond, key, val, d');
  }

  /** A match in the prefix is a match in the whole sequence, and the last match of the whole lies in the prefix unless it is the new element. */
  lemma MatchPrefix<T, K>(xs: seq<T>, cond: T -> bool, key: T -> K, k: K, j: nat)
    requires j < |xs| - 1
    ensures MatchAt(xs, cond, key, k, j) == MatchAt(xs[..|xs| - 1], cond, key, k, j)
    ensures LastMatch(xs, cond, key, k, j) ==> LastMatch(xs[..|xs| - 1], cond, key, k, j)
  {
    var n := |xs| - 1;
    assert xs[..n][j] == xs[j];
    if LastMatch(xs, cond, key, k, j) {
      forall j' | j < j' < n ensures !MatchAt(xs[..n], cond, key, k, j') {
        assert !MatchAt(xs, cond, key, k, j') && xs[..n][j'] == xs[j'];
      }
    }
  }

  lemma DropStep<T, K(!new), V>(xs: seq<T>, cond: T -> bool, key: T -> K, val: T -> V, d': Dict<K, V>)
    requires |xs| > 0 && !cond(xs[|xs| - 1])
    requires CompInvariant(xs[..|xs| - 1], cond, key, val, d')
    ensures CompInvariant(xs, cond, key, val, d')
  {
    var n := |xs| - 1;
    forall k, j: nat | LastMatch(xs, cond, key, k, j) ensures Get(d', k) == Some(val(xs[j])) {
      assert j < n;
      MatchPrefix(xs, cond, key, k, j);
    }
  }

  lemma KeepKeys<T, K(!new), V>(xs: seq<T>, cond: T -> bool, key: T -> K, val: T -> V, d': Dict<K, V>)
    requires |xs| > 0 && cond(xs[|xs| - 1])
    requires CompInvariant(xs[..|xs| - 1], cond, key, val, d')
    ensures var x := xs[|xs| - 1];
      forall k :: HasKey(Put(d', key(x), val(x)), k) <==> FirstMatch(xs, cond, key, k) < |xs|
  {
    PutSpec(d', key(xs[|xs| - 1]), val(xs[|xs| - 1]));
  }

  lemma KeepValues<T, K(!new), V>(xs: seq<T>, cond: T -> bool, key: T -> K, val: T -> V, d': Dict<K, V>)
    requires |xs| > 0 && cond(xs[|xs| - 1])
    requires CompInvariant(xs[..|xs| - 1], cond, key, val, d')
    ensures var x := xs[|xs| - 1];
      forall k, j: nat :: LastMatch(xs, cond, key, k, j) ==> Get(Put(d', key(x), val(x)), k) == Some(val(xs[j]))
  {
    var n := |xs| - 1;
    var x := xs[n];
    forall k, j: nat | LastMatch(xs, cond, key, k, j) ensures Get(Put(d', key(x), val(x)), k) == Some(val(xs[j])) {
      PutGet(d', key(x), val(x), k);
      if k != key(x) {
        assert j < n;
        MatchPrefix(xs, cond, key, k, j);
      } else {
        assert MatchAt(xs, cond, key, k, n);
        assert j == n;
      }
    }
  }

  lemma KeepOrder<T, K(!new), V>(xs: seq<T>, cond: T -> bool, key: T -> K, val: T -> V, d': Dict<K, V>)
    requires |xs| > 0 && cond(xs[|xs| - 1])
    requires CompInvariant(xs[..|xs| - 1], cond, key, val, d')
    ensures var x := xs[|xs| - 1];
      var d := Put(d', key(x), val(x));
      forall i, i' :: 0 <= i < i' < |d| ==> FirstMatch(xs, cond, key, d[i].0) < FirstMatch(xs, cond, key, d[i'].0)
  {
    var n := |xs| - 1;
    var x := xs[n];
    var d := Put(d', key(x), val(x));
    PutSpec(d', key(x), val(x));
    forall i, i' | 0 <= i < i' < |d| ensures FirstMatch(xs, cond, key, d[i].0) < FirstMatch(xs, cond, key, d[i'].0) {
      KeepOrderAt(xs, cond, key, val, d', i);
      KeepOrderAt(xs, cond, key, val, d', i');
      if i' < |d'| {
        assert FirstMatch(xs[..n], cond, key, d'[i].0) < FirstMatch(xs[..n], cond, key, d'[i'].0);
      }
    }
  }

  /** Position `i` of the dict after the `Put`: an old key keeps its place and its first match. */
  lemma KeepOrderAt<T, K(!new), V>(xs: seq<T>, cond: T -> bool, key: T -> K, val: T -> V, d': Dict<K, V>, i: nat)
    requires |xs| > 0 && cond(xs[|xs| - 1])
    requires CompInvariant(xs[..|xs| - 1], cond, key, val, d')
    requires i < |Put(d', key(xs[|xs| - 1]), val(xs[|xs| - 1]))|
    ensures var n, x := |xs| - 1, xs[|xs| - 1];
      var d := Put(d', key(x), val(x));
      (i < |d'| ==> d[i].0 == d'[i].0 && FirstMatch(xs, cond, key, d[i].0) == FirstMatch(xs[..n], cond, key, d'[i].0) < n)
      && (i >= |d'| ==> d[i].0 == key(x) && FirstMatch(xs, cond, key, d[i].0) == n)
  {
    var n, x := |xs| - 1, xs[|xs| - 1];
    var d := Put(d', key(x), val(x));
    PutSpec(d', key(x), val(x));
    if i < |d'| {
      HasKeyAt(d', d'[i].0, i);
      if d'[i].0 != key(x) { assert d[i] == d'[i]; }
      else { assert IndexOfKey(d', key(x)) == i && d[i] == (key(x), val(x)); }
    } else {
      assert !HasKey(d', key(x)) && IndexOfKey(d, key(x)) == |d'|;
    }
  }

  /** `2 ** k` */
  function Pow2(k: nat): nat {
    if k == 0 then 1 else 2 * Pow2(k - 1)
  }

  /** Doubling the factor in front is doubling the power: `(2 * d) * 2 ** k == d * 2 ** (k + 1)`. */
  lemma DoubledPow2(d: nat, k: nat)
    ensures 2 * d * Pow2(k) == d * Pow2(k + 1)
  {
    assert Pow2(k + 1) == 2 * Pow2(k);
  }

  /** `sum(xs)` */
  function Total(xs: seq<nat>): nat
    decreases |xs|
  {
    if |xs| == 0 then 0 else xs[0] + Total(xs[1..])
  }

  lemma {:induction false} TotalSnoc(xs: seq<nat>, x: nat)
    ensures Total(xs + [x]) == Total(xs) + x
    decreases |xs|
  {
    if |xs| == 0 {
      assert xs + [x] == [x];
    } else {
      assert (xs + [x])[1..] == xs[1..] + [x];
      TotalSnoc(xs[1..], x);
    }
  }
}
