// The PHP array built-ins the plugin relies on, on lists (arrays with the
// keys 0, 1, 2, ...): `array_unique`, `array_intersect`, and reading the
// entries of an array at a list of kept keys, which is what `array_filter`
// returns.

module PhpArrays {

  /** No value occurs twice in `s`. */
  predicate NoDuplicates<T(==)>(s: seq<T>) {
    forall i, j :: 0 <= i < j < |s| ==> s[i] != s[j]
  }

  /** The position of the first occurrence of `x` in `s`. */
  function FirstIndex<T(==)>(s: seq<T>, x: T): (k: nat)
    requires x in s
    ensures k < |s| && s[k] == x && x !in s[..k]
  {
    if s[0] == x then 0
    else
      var k := 1 + FirstIndex(s[1..], x);
      assert s[..k] == [s[0]] + s[1..][..k - 1];
      k
  }

  /** Appending to a list does not move the first occurrence of a value it
      already holds. */
  lemma {:induction false} FirstIndexAppend<T>(s: seq<T>, t: seq<T>, x: T)
    requires x in s
    ensures FirstIndex(s + t, x) == FirstIndex(s, x)
  {
    if s[0] != x {
      assert (s + t)[1..] == s[1..] + t;
      FirstIndexAppend(s[1..], t, x);
    }
  }

  /** A value appended to a list that lacks it first occurs at the end. */
  lemma {:induction false} FirstIndexNew<T>(s: seq<T>, x: T)
    requires x !in s
    ensures FirstIndex(s + [x], x) == |s|
  {
    if s != [] {
      assert (s + [x])[1..] == s[1..] + [x];
      FirstIndexNew(s[1..], x);
    }
  }

  /** `array_unique`: keeps the first occurrence of every value, in order. */
  function ArrayUnique<T(==,!new)>(s: seq<T>): (r: seq<T>)
    ensures NoDuplicates(r)
    ensures forall x :: x in r <==> x in s
    ensures |r| <= |s|
  {
    if |s| == 0 then []
    else
      var init := s[..|s| - 1];
      var d := ArrayUnique(init);
      assert s == init + [s[|s| - 1]];
      if s[|s| - 1] in init then d else d + [s[|s| - 1]]
  }

  /** `array_unique` keeps first occurrences in order: of two values it keeps,
      the one whose first occurrence in `s` comes earlier comes first. */
  lemma {:induction false} ArrayUniqueOrder<T(!new)>(s: seq<T>, i: nat, j: nat)
    requires i < j < |ArrayUnique(s)|
    ensures FirstIndex(s, ArrayUnique(s)[i]) < FirstIndex(s, ArrayUnique(s)[j])
  {
    var init, last := s[..|s| - 1], s[|s| - 1];
    assert s == init + [last];
    var d, r := ArrayUnique(init), ArrayUnique(s);
    assert r == if last in init then d else d + [last];
    assert r[i] in init by { assert r[i] in d; }
    FirstIndexAppend(init, [last], r[i]);
    if j < |d| {
      assert r[j] == d[j];
      FirstIndexAppend(init, [last], r[j]);
      ArrayUniqueOrder(init, i, j);
    } else {
      assert r[j] == last && last !in init;
      FirstIndexNew(init, last);
    }
  }

  /** On a list without duplicates `array_unique` changes nothing. */
  lemma {:induction false} ArrayUniqueNoDuplicates<T(!new)>(s: seq<T>)
    requires NoDuplicates(s)
    ensures ArrayUnique(s) == s
  {
    if |s| > 0 {
      var init := s[..|s| - 1];
      assert NoDuplicates(init);
      ArrayUniqueNoDuplicates(init);
      forall k | 0 <= k < |init| ensures init[k] != s[|s| - 1] {
        assert init[k] == s[k];
      }
      assert s == init + [s[|s| - 1]];
    }
  }

  /** De-duplicating a prefix first does not change the final de-duplication:
      `array_unique(array_merge(array_unique(x), y)) == array_unique(array_merge(x, y))`. */
  lemma {:induction false} ArrayUniqueAbsorbs<T(!new)>(x: seq<T>, y: seq<T>)
    ensures ArrayUnique(ArrayUnique(x) + y) == ArrayUnique(x + y)
  {
    if |y| == 0 {
      assert ArrayUnique(x) + y == ArrayUnique(x);
      assert x + y == x;
      ArrayUniqueNoDuplicates(ArrayUnique(x));
    } else {
      var y', z := y[..|y| - 1], y[|y| - 1];
      ArrayUniqueAbsorbs(x, y');
      var u := ArrayUnique(x);
      assert (u + y)[..|u + y| - 1] == u + y' && (u + y)[|u + y| - 1] == z;
      assert (x + y)[..|x + y| - 1] == x + y' && (x + y)[|x + y| - 1] == z;
      assert z in u + y' <==> z in x + y';
    }
  }

  /** Repeated `array_merge`: the lists `f(x)` of the entries `x` of `s`,
      one after another, in order. */
  function MergeAll<T, U>(s: seq<T>, f: T -> seq<U>): seq<U> {
    if |s| == 0 then [] else MergeAll(s[..|s| - 1], f) + f(s[|s| - 1])
  }

  /** A value is merged in exactly when some entry's list holds it. */
  lemma {:induction false} MergeAllHas<T, U>(s: seq<T>, f: T -> seq<U>, x: U)
    ensures x in MergeAll(s, f) <==> exists i :: 0 <= i < |s| && x in f(s[i])
  {
    if |s| > 0 {
      var init := s[..|s| - 1];
      MergeAllHas(init, f, x);
      if exists i :: 0 <= i < |s| && x in f(s[i]) {
        var i :| 0 <= i < |s| && x in f(s[i]);
        if i < |init| {
          assert init[i] == s[i];
        }
      }
      if exists i :: 0 <= i < |init| && x in f(init[i]) {
        var i :| 0 <= i < |init| && x in f(init[i]);
        assert init[i] == s[i];
      }
    }
  }

  /** Merging two lists of entries one after the other merges their lists. */
  lemma {:induction false} MergeAllAppend<T, U>(a: seq<T>, b: seq<T>, f: T -> seq<U>)
    ensures MergeAll(a + b, f) == MergeAll(a, f) + MergeAll(b, f)
  {
    if |b| == 0 {
      assert a + b == a;
    } else {
      var b' := b[..|b| - 1];
      MergeAllAppend(a, b', f);
      assert (a + b)[..|a + b| - 1] == a + b';
      assert (a + b)[|a + b| - 1] == b[|b| - 1];
    }
  }

  /** Merging into an accumulator in two rounds, de-duplicating after each,
      is merging into it once and de-duplicating. */
  lemma MergeAllTwice<T, U(!new)>(acc: seq<U>, a: seq<T>, b: seq<T>, f: T -> seq<U>)
    ensures ArrayUnique(ArrayUnique(acc + MergeAll(a, f)) + MergeAll(b, f))
         == ArrayUnique(acc + MergeAll(a + b, f))
  {
    var m1, m2 := MergeAll(a, f), MergeAll(b, f);
    ArrayUniqueAbsorbs(acc + m1, m2);
    MergeAllAppend(a, b, f);
    assert acc + m1 + m2 == acc + (m1 + m2);
  }

  /** `array_intersect(a, b)`: the entries of `a` whose value occurs in `b`,
      in the order of `a`. */
  function ArrayIntersect<T(==,!new)>(a: seq<T>, b: seq<T>): (r: seq<T>)
    ensures forall x :: x in r <==> x in a && x in b
    ensures |r| <= |a|
  {
    if |a| == 0 then []
    else (if a[0] in b then [a[0]] else []) + ArrayIntersect(a[1..], b)
  }

  /** The keys in `keys` are valid positions of `s`, in increasing order. */
  predicate IsKeySequence<T>(s: seq<T>, keys: seq<nat>) {
    (forall i :: 0 <= i < |keys| ==> keys[i] < |s|) &&
    (forall i, j :: 0 <= i < j < |keys| ==> keys[i] < keys[j])
  }

  /** The entries of `s` at `keys`, in the order of `keys`. */
  function Pick<T>(s: seq<T>, keys: seq<nat>): (r: seq<T>)
    requires IsKeySequence(s, keys)
    ensures |r| == |keys|
    ensures forall i :: 0 <= i < |keys| ==> r[i] == s[keys[i]]
  {
    seq(|keys|, i requires 0 <= i < |keys| => s[keys[i]])
  }

  /** The keys 0, 1, ..., n - 1. */
  function AllKeys(n: nat): (keys: seq<nat>)
    ensures |keys| == n
    ensures forall i :: 0 <= i < n ==> keys[i] == i
  {
    seq(n, i => i)
  }

  /** The keys `array_filter` keeps: the positions whose entry passes `keep`,
      in increasing order. */
  function FilterKeys<T>(s: seq<T>, keep: T -> bool): (keys: seq<nat>)
    ensures IsKeySequence(s, keys)
    ensures forall k: nat :: k in keys <==> k < |s| && keep(s[k])
  {
    if |s| == 0 then []
    else
      var init := s[..|s| - 1];
      var keys := FilterKeys(init, keep);
      assert forall k: nat :: k < |init| ==> init[k] == s[k];
      if keep(s[|s| - 1]) then keys + [|s| - 1] else keys
  }

  /** Filtering a list with one more entry at the end. */
  lemma FilterKeysSnoc<T>(s: seq<T>, x: T, keep: T -> bool)
    ensures FilterKeys(s + [x], keep) == FilterKeys(s, keep) + (if keep(x) then [|s|] else [])
  {
    assert (s + [x])[..|s|] == s;
  }

  /** A strictly increasing list of keys below n has at most n entries. */
  lemma {:induction false} KeysBound(keys: seq<nat>, n: nat)
    requires forall i :: 0 <= i < |keys| ==> keys[i] < n
    requires forall i, j :: 0 <= i < j < |keys| ==> keys[i] < keys[j]
    ensures |keys| <= n
  {
    if |keys| > 0 {
      KeysBound(keys[..|keys| - 1], keys[|keys| - 1]);
    }
  }

  /** `array_filter`, read as the list of the entries it keeps, in order. */
  function ArrayFilter<T>(s: seq<T>, keep: T -> bool): (r: seq<T>)
    ensures |r| <= |s|
  {
    var keys := FilterKeys(s, keep);
    KeysBound(keys, |s|);
    Pick(s, keys)
  }

  /** `array_filter` keeps exactly the entries that pass `keep`. */
  lemma ArrayFilterMembers<T>(s: seq<T>, keep: T -> bool, x: T)
    ensures x in ArrayFilter(s, keep) <==> x in s && keep(x)
  {
    var keys := FilterKeys(s, keep);
    var r := ArrayFilter(s, keep);
    if x in r {
      var i :| 0 <= i < |r| && r[i] == x;
      assert keys[i] in keys;
    }
    if x in s && keep(x) {
      var k :| 0 <= k < |s| && s[k] == x;
      assert k in keys;
      var i :| 0 <= i < |keys| && keys[i] == k;
      assert r[i] == x;
    }
  }

  /** Filtering a list with one more entry at the end keeps what filtering
      the list kept, then that entry if it passes. */
  lemma ArrayFilterSnoc<T>(s: seq<T>, x: T, keep: T -> bool)
    ensures ArrayFilter(s + [x], keep) == ArrayFilter(s, keep) + (if keep(x) then [x] else [])
  {
    FilterKeysSnoc(s, x, keep);
    var keys := FilterKeys(s, keep);
    var r, r' := ArrayFilter(s, keep), ArrayFilter(s + [x], keep);
    assert r == Pick(s, keys);
    assert r' == Pick(s + [x], FilterKeys(s + [x], keep));
    forall i | 0 <= i < |keys| ensures r'[i] == r[i] {
      assert (s + [x])[keys[i]] == s[keys[i]];
    }
  }

  /** Of three entries where only the middle one fails, the outer two are
      kept, in order. */
  lemma ArrayFilterKeepsOuter<T>(x1: T, x2: T, x3: T, keep: T -> bool)
    requires keep(x1) && !keep(x2) && keep(x3)
    ensures ArrayFilter([x1, x2, x3], keep) == [x1, x3]
  {
    var s0: seq<T> := [];
    var s1 := s0 + [x1];
    var s2 := s1 + [x2];
    var s3 := s2 + [x3];
    ArrayFilterSnoc(s0, x1, keep);
    ArrayFilterSnoc(s1, x2, keep);
    ArrayFilterSnoc(s2, x3, keep);
    assert ArrayFilter(s3, keep) == [x1, x3] by {
      assert ArrayFilter(s0, keep) == [];
      assert ArrayFilter(s2, keep) == [x1];
    }
    assert s3 == [x1, x2, x3];
  }

  /** When every entry passes, every key is kept. */
  lemma {:induction false} FilterKeysAll<T>(s: seq<T>, keep: T -> bool)
    requires forall i :: 0 <= i < |s| ==> keep(s[i])
    ensures FilterKeys(s, keep) == AllKeys(|s|)
  {
    if |s| > 0 {
      var init := s[..|s| - 1];
      FilterKeysAll(init, keep);
      assert AllKeys(|s|) == AllKeys(|init|) + [|init|];
    }
  }

  /** Filtering twice with the same predicate is filtering once. */
  lemma ArrayFilterIdempotent<T>(s: seq<T>, keep: T -> bool)
    ensures ArrayFilter(ArrayFilter(s, keep), keep) == ArrayFilter(s, keep)
  {
    var r := ArrayFilter(s, keep);
    forall i | 0 <= i < |r| ensures keep(r[i]) {
      ArrayFilterMembers(s, keep, r[i]);
    }
    FilterKeysAll(r, keep);
    assert Pick(r, AllKeys(|r|)) == r;
  }
}
