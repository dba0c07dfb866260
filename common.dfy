/** Small value types and sequence operations shared by the whole model. */
module Common {

  /** A possibly missing value; stands for a nullable Java reference. */
  datatype Option<+T> = None | Some(value: T)

  /** The outcome of an operation that may throw; `Err` carries what was thrown. */
  datatype Result<+T, +E> = Ok(value: T) | Err(error: E)

  /** `List.removeIf(x -> !keep(x))` on a value: the elements satisfying `keep`, in order. */
  function Filter<T>(keep: T -> bool, s: seq<T>): (r: seq<T>)
    ensures |r| <= |s|
  {
    if s == [] then []
    else if keep(s[0]) then [s[0]] + Filter(keep, s[1..])
    else Filter(keep, s[1..])
  }

  /** The filtered sequence holds exactly the elements that pass, and all of
      `s` when every element passes. */
  lemma {:induction false} FilterSpec<T>(keep: T -> bool, s: seq<T>)
    ensures forall x :: x in Filter(keep, s) ==> x in s && keep(x)
    ensures forall x :: x in s && keep(x) ==> x in Filter(keep, s)
    ensures (forall k :: 0 <= k < |s| ==> keep(s[k])) ==> Filter(keep, s) == s
  {
    if s != [] {
      FilterSpec(keep, s[1..]);
      assert s == [s[0]] + s[1..];
    }
  }

  /** An element before an ordered sequence, related to all of it. */
  lemma ConsOrdered<T>(b: T, s: seq<T>, before: (T, T) -> bool)
    requires forall i, j :: 0 <= i < j < |s| ==> before(s[i], s[j])
    requires forall k :: 0 <= k < |s| ==> before(b, s[k])
    ensures forall i, j :: 0 <= i < j < |[b] + s| ==> before(([b] + s)[i], ([b] + s)[j])
  {
    var r := [b] + s;
    forall i, j | 0 <= i < j < |r| ensures before(r[i], r[j]) {
      if i > 0 {
        assert r[i] == s[i - 1] && r[j] == s[j - 1];
      }
    }
  }

  /** Filtering keeps the relative order of the elements it keeps: whatever
      order relation holds between any two positions of `s` holds between any
      two positions of the filtered sequence. */
  lemma {:induction false} FilterKeepsOrder<T>(keep: T -> bool, s: seq<T>, before: (T, T) -> bool)
    requires forall i, j :: 0 <= i < j < |s| ==> before(s[i], s[j])
    ensures forall i, j :: 0 <= i < j < |Filter(keep, s)| ==> before(Filter(keep, s)[i], Filter(keep, s)[j])
  {
    if s != [] {
      FilterKeepsOrder(keep, s[1..], before);
      var rest := Filter(keep, s[1..]);
      if keep(s[0]) {
        FilterSpec(keep, s[1..]);
        forall k | 0 <= k < |rest| ensures before(s[0], rest[k]) {
          assert rest[k] in rest;
          var m :| 0 <= m < |s| - 1 && s[1..][m] == rest[k];
          assert s[1 + m] == rest[k];
        }
        ConsOrdered(s[0], rest, before);
      }
    }
  }

  /** Filtering a concatenation filters each part. */
  lemma {:induction false} FilterConcat<T>(keep: T -> bool, a: seq<T>, b: seq<T>)
    ensures Filter(keep, a + b) == Filter(keep, a) + Filter(keep, b)
  {
    if a == [] {
      assert a + b == b;
    } else {
      var ab := a + b;
      assert ab[0] == a[0] && ab[1..] == a[1..] + b;
      FilterConcat(keep, a[1..], b);
      var rest := Filter(keep, a[1..]);
      if keep(a[0]) {
        assert Filter(keep, ab) == [a[0]] + (rest + Filter(keep, b));
        assert Filter(keep, a) == [a[0]] + rest;
        assert [a[0]] + (rest + Filter(keep, b)) == ([a[0]] + rest) + Filter(keep, b);
      } else {
        assert Filter(keep, ab) == rest + Filter(keep, b);
      }
    }
  }

  /** `list.addAll(more)` where either side may instead have thrown: the first
      failure, in evaluation order, is the outcome. */
  function Concat<T, E>(a: Result<seq<T>, E>, b: Result<seq<T>, E>): Result<seq<T>, E> {
    if a.Err? then a else if b.Err? then b else Ok(a.value + b.value)
  }

  lemma ConcatAssociative<T, E>(a: Result<seq<T>, E>, b: Result<seq<T>, E>, c: Result<seq<T>, E>)
    ensures Concat(Concat(a, b), c) == Concat(a, Concat(b, c))
  {
    if a.Ok? && b.Ok? && c.Ok? {
      assert (a.value + b.value) + c.value == a.value + (b.value + c.value);
    }
  }

  /** An empty successful outcome is a unit of `Concat` on both sides. */
  lemma ConcatEmpty<T, E>(r: Result<seq<T>, E>)
    ensures Concat(Ok([]), r) == r && Concat(r, Ok([])) == r
  {
    if r.Ok? {
      assert [] + r.value == r.value && r.value + [] == r.value;
    }
  }

  /** The values of `rs` in order, or the first failure among them. */
  function CollectOk<T, E>(rs: seq<Result<T, E>>): Result<seq<T>, E> {
    if rs == [] then Ok([])
    else match rs[0]
      case Err(e) => Err(e)
      case Ok(t) => Concat(Ok([t]), CollectOk(rs[1..]))
  }

  /** Collecting succeeds exactly when every element is a success. */
  lemma {:induction false} CollectOkSucceeds<T, E>(rs: seq<Result<T, E>>)
    ensures CollectOk(rs).Ok? <==> forall k :: 0 <= k < |rs| ==> rs[k].Ok?
  {
    if rs != [] {
      CollectOkSucceeds(rs[1..]);
      assert forall k :: 1 <= k < |rs| ==> rs[k] == rs[1..][k - 1];
    }
  }

  /** A successful collection has one value per element, in order. */
  lemma {:induction false} CollectOkValues<T, E>(rs: seq<Result<T, E>>)
    ensures CollectOk(rs).Ok? ==> (|CollectOk(rs).value| == |rs|
      && forall k :: 0 <= k < |rs| ==> rs[k] == Ok(CollectOk(rs).value[k]))
  {
    if rs != [] && CollectOk(rs).Ok? {
      var tail := rs[1..];
      CollectOkValues(tail);
      var v := [rs[0].value] + CollectOk(tail).value;
      assert CollectOk(rs) == Ok(v);
      forall k | 0 <= k < |rs| ensures rs[k] == Ok(v[k]) {
        if k > 0 {
          assert rs[k] == tail[k - 1] && v[k] == CollectOk(tail).value[k - 1];
        }
      }
    }
  }

  /** A failed collection fails with the first failure. */
  lemma {:induction false} CollectOkFailsAtFirst<T, E>(rs: seq<Result<T, E>>)
    ensures CollectOk(rs).Err? ==> exists k :: (0 <= k < |rs| && rs[k] == Err(CollectOk(rs).error)
      && forall j :: 0 <= j < k ==> rs[j].Ok?)
  {
    if rs != [] && rs[0].Ok? && CollectOk(rs).Err? {
      var tail := rs[1..];
      CollectOkFailsAtFirst(tail);
      var k :| 0 <= k < |tail| && tail[k] == Err(CollectOk(tail).error)
        && forall j :: 0 <= j < k ==> tail[j].Ok?;
      assert rs[k + 1] == tail[k];
      forall j | 0 <= j < k + 1 ensures rs[j].Ok? {
        if j > 0 {
          assert rs[j] == tail[j - 1];
        }
      }
    }
  }

  /** The elements of a successful outcome that satisfy `keep`; a failure stays as it is. */
  function FilterResult<T, E>(keep: T -> bool, r: Result<seq<T>, E>): Result<seq<T>, E> {
    if r.Ok? then Ok(Filter(keep, r.value)) else r
  }

  /** `Collections.reverse` on a value. */
  function Reverse<T>(s: seq<T>): (r: seq<T>)
    ensures |r| == |s|
    ensures forall k :: 0 <= k < |s| ==> r[k] == s[|s| - 1 - k]
  {
    if s == [] then [] else Reverse(s[1..]) + [s[0]]
  }

  lemma ReverseThree<T>(x: T, y: T, z: T)
    ensures Reverse([x, y, z]) == [z, y, x]
  {
    var r := Reverse([x, y, z]);
    assert r[0] == z && r[1] == y && r[2] == x;
  }

  lemma InReverse<T>(s: seq<T>, x: T)
    requires x in s
    ensures x in Reverse(s)
  {
    var i :| 0 <= i < |s| && s[i] == x;
    assert Reverse(s)[|s| - 1 - i] == x;
  }

  /** `f` applied to every element, in order. */
  function MapSeq<T, U>(f: T -> U, s: seq<T>): (r: seq<U>)
    ensures |r| == |s|
    ensures forall k :: 0 <= k < |s| ==> r[k] == f(s[k])
  {
    if s == [] then [] else [f(s[0])] + MapSeq(f, s[1..])
  }

  /** Mapping one more element appends its image. */
  lemma MapSeqSnoc<T, U>(f: T -> U, s: seq<T>, x: T)
    ensures MapSeq(f, s + [x]) == MapSeq(f, s) + [f(x)]
  {
    var l, r := MapSeq(f, s + [x]), MapSeq(f, s) + [f(x)];
    assert forall k :: 0 <= k < |s| ==> (s + [x])[k] == s[k];
    assert forall k :: 0 <= k < |l| ==> l[k] == r[k];
  }

  /** Mapping one element more of `s`. */
  lemma MapSeqPrefix<T, U>(f: T -> U, s: seq<T>, i: nat)
    requires i < |s|
    ensures MapSeq(f, s[..i + 1]) == MapSeq(f, s[..i]) + [f(s[i])]
  {
    assert s[..i + 1] == s[..i] + [s[i]];
    MapSeqSnoc(f, s[..i], s[i]);
  }

  /** `Collections.reverse` on an array list. */
  method ReverseInPlace<T>(a: array<T>)
    modifies a
    ensures a[..] == Reverse(old(a[..]))
  {
    ghost var s := a[..];
    var n := a.Length;
    var i := 0;
    while i < n / 2
      invariant 0 <= i <= n / 2
      invariant forall k :: 0 <= k < i ==> a[k] == s[n - 1 - k] && a[n - 1 - k] == s[k]
      invariant forall k :: i <= k < n - i ==> a[k] == s[k]
    {
      a[i], a[n - 1 - i] := a[n - 1 - i], a[i];
      i := i + 1;
    }
    assert forall k :: 0 <= k < n ==> a[k] == s[n - 1 - k];
  }

  /** `list.removeIf(x -> !keep(x))` on an array list: the kept elements are
      moved to the front, in order, and their number is returned. */
  method RemoveIf<T>(a: array<T>, keep: T -> bool) returns (n: nat)
    modifies a
    ensures n <= a.Length && a[..n] == Filter(keep, old(a[..]))
  {
    ghost var s := a[..];
    n := 0;
    for i := 0 to a.Length
      invariant n <= i
      invariant a[..n] == Filter(keep, s[..i])
      invariant a[i..] == s[i..]
    {
      assert s[..i + 1] == s[..i] + [s[i]];
      FilterConcat(keep, s[..i], [s[i]]);
      assert a[i] == s[i];
      if keep(a[i]) {
        a[n] := a[i];
        n := n + 1;
      }
      assert a[i + 1..] == s[i + 1..];
    }
    assert s[..a.Length] == s;
  }
}
