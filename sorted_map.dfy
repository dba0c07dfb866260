/** The part of `java.util.TreeMap<String, V>` the list report uses: `put`,
    where a later value for a key replaces the earlier one, and `values()`, in
    increasing key order. A map is a sequence of bindings kept strictly
    increasing by `String.compareTo`. */
module SortedMap {
  import opened Common
  import opened JavaText

  datatype Binding<V> = Binding(key: string, value: V)

  /** The keys strictly increase: every key is bound once. */
  predicate Sorted<V>(t: seq<Binding<V>>) {
    forall i, j :: 0 <= i < j < |t| ==> StrLess(t[i].key, t[j].key)
  }

  /** What the sequence stands for as a map. */
  function ToMap<V>(t: seq<Binding<V>>): map<string, V> {
    if t == [] then map[] else ToMap(t[1..])[t[0].key := t[0].value]
  }

  /** `put(k, v)`. */
  function Put<V>(t: seq<Binding<V>>, k: string, v: V): seq<Binding<V>> {
    if t == [] then [Binding(k, v)]
    else if k == t[0].key then [Binding(k, v)] + t[1..]
    else if StrLess(k, t[0].key) then [Binding(k, v)] + t
    else [t[0]] + Put(t[1..], k, v)
  }

  /** `put` keeps the keys increasing, binds `k` to `v` and leaves every
      other key bound as it was. */
  lemma PutSpec<V>(t: seq<Binding<V>>, k: string, v: V)
    requires Sorted(t)
    ensures Sorted(Put(t, k, v))
    ensures ToMap(Put(t, k, v)) == ToMap(t)[k := v]
    ensures Put(t, k, v)[0].key == k || (t != [] && Put(t, k, v)[0].key == t[0].key)
  {
    PutSorted(t, k, v);
    PutToMap(t, k, v);
  }

  /** A binding before a sorted sequence whose first key is greater. */
  lemma ConsSorted<V>(b: Binding<V>, t: seq<Binding<V>>)
    requires Sorted(t) && (t != [] ==> StrLess(b.key, t[0].key))
    ensures Sorted([b] + t)
  {
    var r := [b] + t;
    forall i, j | 0 <= i < j < |r| ensures StrLess(r[i].key, r[j].key) {
      if i == 0 && j > 1 {
        StrLessTransitive(b.key, t[0].key, t[j - 1].key);
      }
    }
  }

  lemma {:induction false} PutSorted<V>(t: seq<Binding<V>>, k: string, v: V)
    requires Sorted(t)
    ensures Sorted(Put(t, k, v))
    ensures Put(t, k, v)[0].key == k || (t != [] && Put(t, k, v)[0].key == t[0].key)
  {
    if t != [] && k != t[0].key && !StrLess(k, t[0].key) {
      var rest := Put(t[1..], k, v);
      PutSorted(t[1..], k, v);
      StrLessTotal(k, t[0].key);
      assert StrLess(t[0].key, rest[0].key);
      ConsSorted(t[0], rest);
    } else if t != [] && k != t[0].key {
      ConsSorted(Binding(k, v), t);
    }
  }

  lemma {:induction false} PutToMap<V>(t: seq<Binding<V>>, k: string, v: V)
    ensures ToMap(Put(t, k, v)) == ToMap(t)[k := v]
  {
    if t != [] && k != t[0].key && !StrLess(k, t[0].key) {
      var rest := Put(t[1..], k, v);
      PutToMap(t[1..], k, v);
      assert ([t[0]] + rest)[1..] == rest;
    } else if t != [] && k == t[0].key {
      assert ([Binding(k, v)] + t[1..])[1..] == t[1..];
    } else if t != [] {
      assert ([Binding(k, v)] + t)[1..] == t;
    }
  }

  /** In a sorted sequence each binding is what the map holds for its key. */
  lemma {:induction false} ToMapAt<V>(t: seq<Binding<V>>, i: nat)
    requires Sorted(t) && i < |t|
    ensures t[i].key in ToMap(t) && ToMap(t)[t[i].key] == t[i].value
  {
    if i > 0 {
      ToMapAt(t[1..], i - 1);
      assert t[i] == t[1..][i - 1];
      assert StrLess(t[0].key, t[i].key);
      StrLessIrreflexive(t[0].key);
    }
  }

  /** The map binds exactly the keys of the sequence. */
  lemma {:induction false} ToMapKeys<V>(t: seq<Binding<V>>, k: string)
    ensures k in ToMap(t) <==> exists i :: 0 <= i < |t| && t[i].key == k
  {
    if t != [] {
      ToMapKeys(t[1..], k);
      if k in ToMap(t[1..]) {
        var i :| 0 <= i < |t| - 1 && t[1..][i].key == k;
        assert t[i + 1].key == k;
      }
      forall i | 1 <= i < |t| && t[i].key == k ensures k in ToMap(t[1..]) {
        assert t[1..][i - 1].key == k;
      }
    }
  }

  /** `values()`: the values in increasing key order. */
  function Values<V>(t: seq<Binding<V>>): (vs: seq<V>)
    ensures |vs| == |t| && forall i :: 0 <= i < |t| ==> vs[i] == t[i].value
  {
    if t == [] then [] else [t[0].value] + Values(t[1..])
  }

  // ---------------------------------------------------------------------
  // Filling a map from a list, each element under its own key

  /** `vs.forEach(v -> put(key(v), v))`. */
  function PutAll<V>(key: V -> string, vs: seq<V>): seq<Binding<V>> {
    if vs == [] then []
    else Put(PutAll(key, vs[..|vs| - 1]), key(vs[|vs| - 1]), vs[|vs| - 1])
  }

  /** The loop `vs.forEach(v -> put(key(requireNonNull(v)), v))`: `None`
      where an element fails `present` and `requireNonNull` throws. */
  method PutEach<V>(key: V -> string, present: V -> bool, vs: seq<V>) returns (t: Option<seq<Binding<V>>>)
    ensures t.None? <==> exists i :: 0 <= i < |vs| && !present(vs[i])
    ensures t.Some? ==> t.value == PutAll(key, vs)
  {
    var tree: seq<Binding<V>> := [];
    for i := 0 to |vs|
      invariant forall k :: 0 <= k < i ==> present(vs[k])
      invariant tree == PutAll(key, vs[..i])
    {
      if !present(vs[i]) {
        return None;
      }
      assert vs[..i + 1][..i] == vs[..i];
      tree := Put(tree, key(vs[i]), vs[i]);
    }
    assert vs[..|vs|] == vs;
    return Some(tree);
  }

  /** Reference definition of the filled map: each key bound to the last
      element written under it. */
  function LastWrite<V>(key: V -> string, vs: seq<V>): map<string, V> {
    if vs == [] then map[]
    else LastWrite(key, vs[..|vs| - 1])[key(vs[|vs| - 1]) := vs[|vs| - 1]]
  }

  /** The filled tree keeps its keys increasing and holds exactly `LastWrite`. */
  lemma {:induction false} PutAllSpec<V>(key: V -> string, vs: seq<V>)
    ensures Sorted(PutAll(key, vs)) && ToMap(PutAll(key, vs)) == LastWrite(key, vs)
  {
    if vs != [] {
      PutAllSpec(key, vs[..|vs| - 1]);
      PutSpec(PutAll(key, vs[..|vs| - 1]), key(vs[|vs| - 1]), vs[|vs| - 1]);
    }
  }

  /** The last element under a key: nothing after position `m` has its key. */
  predicate LastWithKey<V>(key: V -> string, vs: seq<V>, m: nat) {
    m < |vs| && forall j :: m < j < |vs| ==> key(vs[j]) != key(vs[m])
  }

  /** A key is bound exactly when some element has it, and then to the last
      element that has it: a later element overwrites an earlier one. */
  lemma {:induction false} LastWriteWins<V>(key: V -> string, vs: seq<V>, k: string)
    ensures k in LastWrite(key, vs) <==> exists i :: 0 <= i < |vs| && key(vs[i]) == k
    ensures k in LastWrite(key, vs) ==>
      exists m :: 0 <= m < |vs| && key(vs[m]) == k && LastWrite(key, vs)[k] == vs[m] && LastWithKey(key, vs, m)
  {
    if vs != [] {
      var n := |vs| - 1;
      var init := vs[..n];
      LastWriteWins(key, init, k);
      assert forall i :: 0 <= i < n ==> init[i] == vs[i];
      if key(vs[n]) == k {
        assert LastWithKey(key, vs, n);
      } else if k in LastWrite(key, init) {
        var m :| 0 <= m < n && key(init[m]) == k && LastWrite(key, init)[k] == init[m] && LastWithKey(key, init, m);
        assert key(vs[m]) == k && LastWrite(key, vs)[k] == vs[m];
        assert LastWithKey(key, vs, m);
      }
    }
  }

  /** Each binding of the filled tree is the last element with its key,
      stored under that key. */
  lemma PutAllBinding<V>(key: V -> string, vs: seq<V>, i: nat)
    requires i < |PutAll(key, vs)|
    ensures var b := PutAll(key, vs)[i];
      key(b.value) == b.key && exists m :: 0 <= m < |vs| && b.value == vs[m] && LastWithKey(key, vs, m)
  {
    PutAllSpec(key, vs);
    ToMapAt(PutAll(key, vs), i);
    LastWriteWins(key, vs, PutAll(key, vs)[i].key);
  }

  /** Keys strictly increase along `s`. */
  predicate KeysIncrease<V>(key: V -> string, s: seq<V>) {
    forall i, j :: 0 <= i < j < |s| ==> StrLess(key(s[i]), key(s[j]))
  }

  /** Keys strictly decrease along `s`. */
  predicate KeysDecrease<V>(key: V -> string, s: seq<V>) {
    forall i, j :: 0 <= i < j < |s| ==> StrLess(key(s[j]), key(s[i]))
  }

  /** `values()` of the filled tree: increasing keys, and each value the last
      element written under its key. */
  lemma ValuesOfPutAll<V>(key: V -> string, vs: seq<V>)
    ensures KeysIncrease(key, Values(PutAll(key, vs)))
    ensures var values := Values(PutAll(key, vs));
      forall i :: 0 <= i < |values| ==> exists m :: 0 <= m < |vs| && values[i] == vs[m] && LastWithKey(key, vs, m)
  {
    var t := PutAll(key, vs);
    PutAllSpec(key, vs);
    forall i | 0 <= i < |t|
      ensures key(Values(t)[i]) == t[i].key
      ensures exists m :: 0 <= m < |vs| && Values(t)[i] == vs[m] && LastWithKey(key, vs, m)
    {
      PutAllBinding(key, vs, i);
    }
  }

  /** Completeness: the last element under each key is among the values. */
  lemma ValuesComplete<V>(key: V -> string, vs: seq<V>, m: nat)
    requires LastWithKey(key, vs, m)
    ensures vs[m] in Values(PutAll(key, vs))
  {
    var t := PutAll(key, vs);
    var k := key(vs[m]);
    PutAllSpec(key, vs);
    LastWriteWins(key, vs, k);
    var m' :| 0 <= m' < |vs| && key(vs[m']) == k && LastWrite(key, vs)[k] == vs[m'] && LastWithKey(key, vs, m');
    assert m' == m;
    ToMapKeys(t, k);
    var i :| 0 <= i < |t| && t[i].key == k;
    ToMapAt(t, i);
    assert Values(t)[i] == vs[m];
  }

  /** The same holds once the values are reversed. */
  lemma ValuesCompleteReversed<V>(key: V -> string, vs: seq<V>, m: nat)
    requires LastWithKey(key, vs, m)
    ensures vs[m] in Reverse(Values(PutAll(key, vs)))
  {
    ValuesComplete(key, vs, m);
    InReverse(Values(PutAll(key, vs)), vs[m]);
  }

  /** Reversing turns increasing keys into decreasing ones. */
  lemma ReverseDecreases<V>(key: V -> string, s: seq<V>)
    requires KeysIncrease(key, s)
    ensures KeysDecrease(key, Reverse(s))
  {
    var r := Reverse(s);
    var n := |s|;
    forall i, j | 0 <= i < j < n ensures StrLess(key(r[j]), key(r[i])) {
      assert r[i] == s[n - 1 - i] && r[j] == s[n - 1 - j];
    }
  }

  /** Filtering keeps increasing and decreasing keys. */
  lemma FilterKeepsKeyOrder<V>(key: V -> string, keep: V -> bool, s: seq<V>)
    ensures KeysIncrease(key, s) ==> KeysIncrease(key, Filter(keep, s))
    ensures KeysDecrease(key, s) ==> KeysDecrease(key, Filter(keep, s))
  {
    if KeysIncrease(key, s) {
      FilterKeepsOrder(keep, s, (a: V, b: V) => StrLess(key(a), key(b)));
    }
    if KeysDecrease(key, s) {
      FilterKeepsOrder(keep, s, (a: V, b: V) => StrLess(key(b), key(a)));
    }
  }

  /** Three elements put in the order `a, b, c` with keys ordered `b < a < c`
      come out of `values()` as `b, a, c`. */
  lemma PutThree<V>(key: V -> string, a: V, b: V, c: V)
    requires StrLess(key(b), key(a)) && StrLess(key(a), key(c))
    ensures Values(PutAll(key, [a, b, c])) == [b, a, c]
  {
    var ka, kb, kc := key(a), key(b), key(c);
    StrLessTransitive(kb, ka, kc);
    StrLessAsymmetric(kb, ka);
    StrLessAsymmetric(ka, kc);
    StrLessAsymmetric(kb, kc);
    StrLessIrreflexive(ka);
    StrLessIrreflexive(kb);
    assert [a, b, c][..2] == [a, b] && [a, b][..1] == [a] && [a][..0] == [];
    var t1 := [Binding(ka, a)];
    assert PutAll(key, [a]) == t1;
    var t2 := [Binding(kb, b), Binding(ka, a)];
    assert PutAll(key, [a, b]) == t2;
    assert t2[1..] == t1;
    assert Put(t1, kc, c) == [Binding(ka, a), Binding(kc, c)];
    assert PutAll(key, [a, b, c]) == [Binding(kb, b), Binding(ka, a), Binding(kc, c)];
  }
}
