/** Sequences of records addressed by a key: the lookups and removals that
    the back end performs on a table and the front end performs on its
    cached lists. */
module Keyed {
  import opened Outcomes

  /** No two entries share a key (a primary-key constraint). */
  ghost predicate UniqueKeys<R, K>(xs: seq<R>, key: R -> K) {
    forall i, j | 0 <= i < j < |xs| :: key(xs[i]) != key(xs[j])
  }

  /** Some entry has key `k`. */
  predicate HasKey<R, K(==)>(xs: seq<R>, key: R -> K, k: K) {
    exists i | 0 <= i < |xs| :: key(xs[i]) == k
  }

  /** `query.filter(key == k).first()`: the position of the first entry with
      key `k`, or `None` when there is none. */
  function FindFirst<R, K(==)>(xs: seq<R>, key: R -> K, k: K): (r: Option<nat>)
    ensures r.None? <==> !HasKey(xs, key, k)
    ensures r.Some? ==> r.value < |xs| && key(xs[r.value]) == k
    ensures r.Some? ==> forall j | 0 <= j < r.value :: key(xs[j]) != k
  {
    if |xs| == 0 then None
    else if key(xs[0]) == k then Some(0)
    else
      match FindFirst(xs[1..], key, k)
      case None =>
        assert forall i | 1 <= i < |xs| :: xs[i] == xs[1..][i - 1];
        None
      case Some(i) => Some(i + 1)
  }

  /** `xs.filter(x => key(x) !== k)`: keeps exactly the entries whose key is
      not `k`, so nothing is added and nothing with another key is lost. */
  function RemoveKey<R, K(==)>(xs: seq<R>, key: R -> K, k: K): (r: seq<R>)
    ensures |r| <= |xs|
    ensures forall x | x in r :: x in xs && key(x) != k
    ensures forall x | x in xs && key(x) != k :: x in r
    ensures !HasKey(r, key, k)
  {
    if |xs| == 0 then []
    else if key(xs[0]) == k then RemoveKey(xs[1..], key, k)
    else [xs[0]] + RemoveKey(xs[1..], key, k)
  }

  /** Removing a key that no entry carries changes nothing. */
  lemma {:induction false} RemoveAbsentKey<R, K>(xs: seq<R>, key: R -> K, k: K)
    requires !HasKey(xs, key, k)
    ensures RemoveKey(xs, key, k) == xs
  {
    if |xs| > 0 {
      assert key(xs[0]) != k;
      assert !HasKey(xs[1..], key, k) by {
        forall i | 0 <= i < |xs[1..]| ensures key(xs[1..][i]) != k {
          assert xs[1..][i] == xs[i + 1];
        }
      }
      RemoveAbsentKey(xs[1..], key, k);
      assert [xs[0]] + xs[1..] == xs;
    }
  }

  /** Removing the same key twice is the same as removing it once. */
  lemma {:induction false} RemoveKeyIdempotent<R, K>(xs: seq<R>, key: R -> K, k: K)
    ensures RemoveKey(RemoveKey(xs, key, k), key, k) == RemoveKey(xs, key, k)
  {
    RemoveAbsentKey(RemoveKey(xs, key, k), key, k);
  }

  /** Removal works piecewise: the survivors keep their relative order. */
  lemma {:induction false} RemoveKeyAppend<R, K>(xs: seq<R>, ys: seq<R>, key: R -> K, k: K)
    ensures RemoveKey(xs + ys, key, k) == RemoveKey(xs, key, k) + RemoveKey(ys, key, k)
  {
    if |xs| == 0 {
      assert xs + ys == ys;
    } else {
      assert (xs + ys)[0] == xs[0];
      assert (xs + ys)[1..] == xs[1..] + ys;
      RemoveKeyAppend(xs[1..], ys, key, k);
    }
  }

  /** Under unique keys, the entries before and after the one carrying `k`
      carry other keys. */
  lemma {:induction false} KeyOnlyAt<R, K>(xs: seq<R>, key: R -> K, k: K, i: nat)
    requires UniqueKeys(xs, key)
    requires i < |xs| && key(xs[i]) == k
    ensures !HasKey(xs[..i], key, k) && !HasKey(xs[i + 1..], key, k)
  {
  }

  /** Removing the key of the only entry that carries it drops just that entry. */
  lemma {:induction false} RemoveSoleKey<R, K>(xs: seq<R>, key: R -> K, k: K, i: nat)
    requires i < |xs| && key(xs[i]) == k
    requires !HasKey(xs[..i], key, k) && !HasKey(xs[i + 1..], key, k)
    ensures RemoveKey(xs, key, k) == xs[..i] + xs[i + 1..]
  {
    var before, mid, after := xs[..i], [xs[i]], xs[i + 1..];
    assert xs == (before + mid) + after;
    RemoveKeyAppend(before + mid, after, key, k);
    RemoveKeyAppend(before, mid, key, k);
    RemoveAbsentKey(before, key, k);
    RemoveAbsentKey(after, key, k);
    assert RemoveKey(mid, key, k) == [] by {
      assert mid[1..] == [];
    }
  }

  /** Under unique keys, removing a key that is present drops exactly the one
      entry that carries it and keeps the others in place. */
  lemma {:induction false} RemoveUniqueKey<R, K>(xs: seq<R>, key: R -> K, k: K, i: nat)
    requires UniqueKeys(xs, key)
    requires i < |xs| && key(xs[i]) == k
    ensures RemoveKey(xs, key, k) == xs[..i] + xs[i + 1..]
    ensures |RemoveKey(xs, key, k)| == |xs| - 1
  {
    KeyOnlyAt(xs, key, k, i);
    RemoveSoleKey(xs, key, k, i);
  }
}
