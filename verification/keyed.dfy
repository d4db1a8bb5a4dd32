/** Sequences whose elements are identified by a key, as the repositories and the
    member's contract list identify entities by their id (Java's `equals` on ids).
    `List.contains`, `List.remove(Object)` and the `stream().filter(..).findFirst()`
    lookups are all defined here once, generically in the key function. */
module Keyed {
  import opened Wrappers

  /** Some element carries key `k` (`List.contains` under id equality). */
  predicate HasKey<T, K(==)>(xs: seq<T>, key: T -> K, k: K) {
    exists i | 0 <= i < |xs| :: key(xs[i]) == k
  }

  /** No two elements share a key. */
  predicate DistinctKeys<T, K(==)>(xs: seq<T>, key: T -> K) {
    forall i, j | 0 <= i < j < |xs| :: key(xs[i]) != key(xs[j])
  }

  /** Index of the first element with key `k`, or -1 (`List.indexOf`). */
  function FirstIndex<T, K(==)>(xs: seq<T>, key: T -> K, k: K): (r: int)
    ensures -1 <= r < |xs|
    ensures r == -1 <==> !HasKey(xs, key, k)
    ensures 0 <= r ==> key(xs[r]) == k && !HasKey(xs[..r], key, k)
  {
    if |xs| == 0 then -1
    else if key(xs[0]) == k then 0
    else
      var i := FirstIndex(xs[1..], key, k);
      if i == -1 then
        assert forall j | 1 <= j < |xs| :: xs[j] == xs[1..][j - 1];
        -1
      else
        assert xs[..i + 1] == [xs[0]] + xs[1..][..i];
        i + 1
  }

  /** The first element with key `k`, or None (`stream().filter(..).findFirst().orElse(null)`). */
  function Find<T, K(==)>(xs: seq<T>, key: T -> K, k: K): (r: Option<T>)
    ensures r.Some? <==> HasKey(xs, key, k)
    ensures r.Some? ==> key(r.value) == k
    ensures r.Some? ==> exists i | 0 <= i < |xs| :: xs[i] == r.value && !HasKey(xs[..i], key, k)
  {
    var i := FirstIndex(xs, key, k);
    if i == -1 then None else Some(xs[i])
  }

  /** `List.remove(Object)`: drop the first element with key `k`; no change when there is none. */
  function RemoveFirst<T, K(==)>(xs: seq<T>, key: T -> K, k: K): (r: seq<T>)
    ensures !HasKey(xs, key, k) ==> r == xs
    ensures HasKey(xs, key, k) ==> |r| == |xs| - 1
  {
    var i := FirstIndex(xs, key, k);
    if i == -1 then xs else xs[..i] + xs[i + 1..]
  }

  /** Reference definition: every element whose key is not `k`, in order. */
  function Without<T, K(==)>(xs: seq<T>, key: T -> K, k: K): (r: seq<T>)
    ensures |r| <= |xs|
    ensures !HasKey(r, key, k)
    ensures forall i | 0 <= i < |r| :: r[i] in xs && key(r[i]) != k
    ensures forall i | 0 <= i < |xs| && key(xs[i]) != k :: xs[i] in r
  {
    if |xs| == 0 then []
    else if key(xs[0]) == k then Without(xs[1..], key, k)
    else [xs[0]] + Without(xs[1..], key, k)
  }

  /** Replace every element whose key is key(x) by x: the stored object mutated in place. */
  function Replace<T, K(==)>(xs: seq<T>, key: T -> K, x: T): (r: seq<T>)
    ensures |r| == |xs|
    ensures forall i | 0 <= i < |xs| && key(xs[i]) != key(x) :: r[i] == xs[i]
    ensures forall i | 0 <= i < |xs| && key(xs[i]) == key(x) :: r[i] == x
  {
    seq(|xs|, i requires 0 <= i < |xs| => if key(xs[i]) == key(x) then x else xs[i])
  }

  lemma {:induction false} WithoutAbsent<T, K>(xs: seq<T>, key: T -> K, k: K)
    requires !HasKey(xs, key, k)
    ensures Without(xs, key, k) == xs
  {
    if |xs| > 0 {
      assert key(xs[0]) != k;
      assert !HasKey(xs[1..], key, k) by {
        forall j | 0 <= j < |xs[1..]| ensures key(xs[1..][j]) != k {
          assert xs[1..][j] == xs[j + 1];
        }
      }
      WithoutAbsent(xs[1..], key, k);
      assert [xs[0]] + xs[1..] == xs;
    }
  }

  lemma TailDistinct<T, K>(xs: seq<T>, key: T -> K)
    requires |xs| > 0 && DistinctKeys(xs, key)
    ensures DistinctKeys(xs[1..], key)
    ensures !HasKey(xs[1..], key, key(xs[0]))
  {
    forall i, j | 0 <= i < j < |xs[1..]| ensures key(xs[1..][i]) != key(xs[1..][j]) {
      assert xs[1..][i] == xs[i + 1] && xs[1..][j] == xs[j + 1];
    }
    forall j | 0 <= j < |xs[1..]| ensures key(xs[1..][j]) != key(xs[0]) {
      assert xs[1..][j] == xs[j + 1];
    }
  }

  /** Under distinct keys, removing the first match is the same as removing every match:
      the other elements survive, in their original order. */
  lemma {:induction false} RemoveFirstIsWithout<T, K>(xs: seq<T>, key: T -> K, k: K)
    requires DistinctKeys(xs, key)
    ensures RemoveFirst(xs, key, k) == Without(xs, key, k)
  {
    if |xs| == 0 {
    } else if key(xs[0]) == k {
      TailDistinct(xs, key);
      WithoutAbsent(xs[1..], key, k);
      assert FirstIndex(xs, key, k) == 0;
    } else {
      TailDistinct(xs, key);
      RemoveFirstIsWithout(xs[1..], key, k);
      RemoveFirstCons(xs, key, k);
    }
  }

  /** Past a head with a different key, removal works on the tail. */
  lemma RemoveFirstCons<T, K>(xs: seq<T>, key: T -> K, k: K)
    requires |xs| > 0 && key(xs[0]) != k
    ensures RemoveFirst(xs, key, k) == [xs[0]] + RemoveFirst(xs[1..], key, k)
  {
    var t := xs[1..];
    var j := FirstIndex(t, key, k);
    assert FirstIndex(xs, key, k) == if j == -1 then -1 else j + 1;
    if j == -1 {
      assert RemoveFirst(t, key, k) == t;
      assert [xs[0]] + t == xs;
    } else {
      assert RemoveFirst(xs, key, k) == xs[..j + 1] + xs[j + 2..];
      assert RemoveFirst(t, key, k) == t[..j] + t[j + 1..];
      DropPastHead(xs, j);
    }
  }

  /** Dropping index j + 1 from xs is keeping the head and dropping index j from the tail. */
  lemma DropPastHead<T>(xs: seq<T>, j: nat)
    requires j + 1 < |xs|
    ensures xs[..j + 1] + xs[j + 2..] == [xs[0]] + (xs[1..][..j] + xs[1..][j + 1..])
  {
    var t := xs[1..];
    assert xs[..j + 1] == [xs[0]] + t[..j];
    assert xs[j + 2..] == t[j + 1..];
  }

  /** Removing keeps keys distinct and leaves no element with the removed key. */
  lemma RemoveFirstKeepsDistinct<T, K>(xs: seq<T>, key: T -> K, k: K, key2: T -> K)
    requires DistinctKeys(xs, key) && DistinctKeys(xs, key2)
    ensures DistinctKeys(RemoveFirst(xs, key, k), key2)
    ensures !HasKey(RemoveFirst(xs, key, k), key, k)
    ensures forall i | 0 <= i < |xs| && key(xs[i]) != k :: xs[i] in RemoveFirst(xs, key, k)
  {
    RemoveFirstIsWithout(xs, key, k);
    var i := FirstIndex(xs, key, k);
    if i != -1 {
      RemoveAtKeepsDistinct(xs, key2, i);
    }
  }

  lemma RemoveAtKeepsDistinct<T, K>(xs: seq<T>, key: T -> K, i: int)
    requires DistinctKeys(xs, key) && 0 <= i < |xs|
    ensures DistinctKeys(xs[..i] + xs[i + 1..], key)
  {
    var r := xs[..i] + xs[i + 1..];
    assert forall a | 0 <= a < |r| :: r[a] == xs[if a < i then a else a + 1];
  }

  /** Appending an element whose key is fresh keeps keys distinct. */
  lemma AppendFreshKeepsDistinct<T, K>(xs: seq<T>, key: T -> K, x: T)
    requires DistinctKeys(xs, key) && !HasKey(xs, key, key(x))
    ensures DistinctKeys(xs + [x], key)
  {
    var r := xs + [x];
    forall i, j | 0 <= i < j < |r| ensures key(r[i]) != key(r[j]) {
      assert r[i] == xs[i];
      if j < |xs| { assert r[j] == xs[j]; }
    }
  }

  /** Under distinct keys a lookup finds the unique element carrying the key. */
  lemma FindUnique<T, K>(xs: seq<T>, key: T -> K, i: int)
    requires DistinctKeys(xs, key) && 0 <= i < |xs|
    ensures Find(xs, key, key(xs[i])) == Some(xs[i])
  {
    var j := FirstIndex(xs, key, key(xs[i]));
    assert forall t | 0 <= t < j :: xs[..j][t] == xs[t];
  }

  /** Removing the element just appended gives back the original sequence. */
  lemma RemoveAppended<T, K>(xs: seq<T>, key: T -> K, x: T)
    requires !HasKey(xs, key, key(x))
    ensures RemoveFirst(xs + [x], key, key(x)) == xs
  {
    var r := xs + [x];
    var i := FirstIndex(r, key, key(x));
    assert forall t | 0 <= t < |xs| :: r[t] == xs[t];
    assert r[|xs|] == x;
    assert i == |xs|;
    assert r[..|xs|] == xs;
  }

  /** Replacing an element by one with the same key keeps every key function that
      agrees on the two distinct. */
  lemma ReplaceKeepsDistinct<T, K, K2>(xs: seq<T>, key: T -> K, x: T, key2: T -> K2, i: int)
    requires DistinctKeys(xs, key) && DistinctKeys(xs, key2)
    requires 0 <= i < |xs| && key(xs[i]) == key(x) && key2(xs[i]) == key2(x)
    ensures DistinctKeys(Replace(xs, key, x), key2)
  {
    var r := Replace(xs, key, x);
    forall a, b | 0 <= a < b < |r| ensures key2(r[a]) != key2(r[b]) {
      assert key(xs[a]) == key(x) ==> a == i;
      assert key(xs[b]) == key(x) ==> b == i;
    }
  }
}
