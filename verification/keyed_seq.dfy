/**
 Ordered sequences of records that carry a key, searched front to back the way
 a Python `for` loop over a list does. Both configuration managers look their
 servers up by `screen_name` with exactly this first-match search.
 */
module KeyedSeq {
  import opened Wrappers

  /** Some element of `xs` has key `k`. */
  predicate HasKey<T, K(==)>(xs: seq<T>, key: T -> K, k: K)
  {
    exists i :: 0 <= i < |xs| && key(xs[i]) == k
  }

  /** No two elements of `xs` share a key. */
  predicate UniqueKeys<T, K(==)>(xs: seq<T>, key: T -> K)
  {
    forall i, j :: 0 <= i < j < |xs| ==> key(xs[i]) != key(xs[j])
  }

  /** Position of the first element with key `k`, if any. */
  function IndexOf<T, K(==)>(xs: seq<T>, key: T -> K, k: K): (r: Option<nat>)
    ensures r.None? <==> !HasKey(xs, key, k)
    ensures r.Some? ==> r.value < |xs| && key(xs[r.value]) == k
    ensures r.Some? ==> forall j :: 0 <= j < r.value ==> key(xs[j]) != k
  {
    if |xs| == 0 then None
    else if key(xs[0]) == k then Some(0)
    else
      match IndexOf(xs[1..], key, k)
      case None =>
        assert forall i :: 1 <= i < |xs| ==> xs[i] == xs[1..][i - 1];
        None
      case Some(i) =>
        assert xs[i + 1] == xs[1..][i];
        Some(i + 1)
  }

  /** The first element with key `k`, if any. */
  function Find<T, K(==)>(xs: seq<T>, key: T -> K, k: K): (r: Option<T>)
    ensures r.None? <==> !HasKey(xs, key, k)
    ensures r.Some? ==> r.value in xs && key(r.value) == k
  {
    if |xs| == 0 then None
    else if key(xs[0]) == k then Some(xs[0])
    else
      var r := Find(xs[1..], key, k);
      assert forall i :: 1 <= i < |xs| ==> xs[i] == xs[1..][i - 1];
      assert r.Some? ==> r.value in xs[1..];
      r
  }

  /** `Find` returns exactly the element at the position `IndexOf` reports. */
  lemma {:induction false} FindAtIndexOf<T, K>(xs: seq<T>, key: T -> K, k: K)
    ensures IndexOf(xs, key, k).None? <==> Find(xs, key, k).None?
    ensures IndexOf(xs, key, k).Some? ==>
              Find(xs, key, k) == Some(xs[IndexOf(xs, key, k).value])
  {
    if |xs| > 0 && key(xs[0]) != k {
      FindAtIndexOf(xs[1..], key, k);
    }
  }

  /** `xs` with the element at position `i` taken out (Python's `list.pop(i)`). */
  function RemoveAt<T>(xs: seq<T>, i: nat): (r: seq<T>)
    requires i < |xs|
    ensures |r| == |xs| - 1
    ensures forall j :: 0 <= j < i ==> r[j] == xs[j]
    ensures forall j :: i <= j < |r| ==> r[j] == xs[j + 1]
    ensures multiset(r) + multiset{xs[i]} == multiset(xs)
  {
    assert xs == xs[..i] + [xs[i]] + xs[i + 1..];
    xs[..i] + xs[i + 1..]
  }

  /** Appending an element whose key is new keeps keys unique. */
  lemma AppendKeepsUnique<T, K>(xs: seq<T>, key: T -> K, x: T)
    requires UniqueKeys(xs, key)
    requires !HasKey(xs, key, key(x))
    ensures UniqueKeys(xs + [x], key)
  {
  }

  /** The appended element is the first one carrying its (fresh) key. */
  lemma IndexOfAppendFresh<T, K>(xs: seq<T>, key: T -> K, x: T)
    requires !HasKey(xs, key, key(x))
    ensures IndexOf(xs + [x], key, key(x)) == Some(|xs|)
    ensures Find(xs + [x], key, key(x)) == Some(x)
  {
    assert (xs + [x])[|xs|] == x;
    FindAtIndexOf(xs + [x], key, key(x));
  }

  /** Removing any element keeps keys unique. */
  lemma RemoveAtKeepsUnique<T, K>(xs: seq<T>, key: T -> K, i: nat)
    requires UniqueKeys(xs, key)
    requires i < |xs|
    ensures UniqueKeys(RemoveAt(xs, i), key)
  {
    var r := RemoveAt(xs, i);
    forall a, b | 0 <= a < b < |r|
      ensures key(r[a]) != key(r[b])
    {
      var a' := if a < i then a else a + 1;
      var b' := if b < i then b else b + 1;
      assert r[a] == xs[a'] && r[b] == xs[b'];
    }
  }

  /** With unique keys, removing the match for `k` leaves no element keyed `k`. */
  lemma RemoveMatchClearsKey<T, K>(xs: seq<T>, key: T -> K, k: K)
    requires UniqueKeys(xs, key)
    requires IndexOf(xs, key, k).Some?
    ensures !HasKey(RemoveAt(xs, IndexOf(xs, key, k).value), key, k)
  {
    var i := IndexOf(xs, key, k).value;
    var r := RemoveAt(xs, i);
    forall j | 0 <= j < |r|
      ensures key(r[j]) != k
    {
      if j < i {
        assert r[j] == xs[j];
      } else {
        assert r[j] == xs[j + 1];
      }
    }
  }

  /** Removing the last element undoes an append. */
  lemma RemoveAtUndoesAppend<T>(xs: seq<T>, x: T)
    ensures RemoveAt(xs + [x], |xs|) == xs
  {
    assert (xs + [x])[..|xs|] == xs;
  }
}
