/**
 * Sequence operations that stand for the JavaScript array methods the pages use:
 * `filter`, `find`/`findIndex`, and the "keep the first occurrence of each id"
 * idiom `xs.filter((x, i, self) => i === self.findIndex(y => y.id === x.id))`.
 */
module Seqs {
  import opened Wrappers

  /** `a` can be obtained from `b` by deleting elements: order is preserved. */
  predicate IsSubsequence<T(==)>(a: seq<T>, b: seq<T>)
    decreases |b|
  {
    if |a| == 0 then true
    else if |b| == 0 then false
    else if a[0] == b[0] then IsSubsequence(a[1..], b[1..])
    else IsSubsequence(a, b[1..])
  }

  /** `Array.prototype.filter`: the elements of `s` that satisfy `p`, in order. */
  function Filter<T>(s: seq<T>, p: T -> bool): (r: seq<T>)
    ensures |r| <= |s|
    ensures forall x :: x in r ==> x in s && p(x)
    ensures forall i :: 0 <= i < |s| && p(s[i]) ==> s[i] in r
    ensures forall x :: x in s && p(x) ==> x in r
    decreases |s|
  {
    if |s| == 0 then []
    else (if p(s[0]) then [s[0]] else []) + Filter(s[1..], p)
  }

  /**
   * `Array.prototype.findIndex` (as an option): the first index whose element
   * satisfies `p`, or None when no element does.
   */
  function FindFirst<T>(s: seq<T>, p: T -> bool): (r: Option<nat>)
    ensures r.Some? ==> r.value < |s| && p(s[r.value])
    ensures r.Some? ==> forall j :: 0 <= j < r.value ==> !p(s[j])
    ensures r.None? <==> forall j :: 0 <= j < |s| ==> !p(s[j])
    decreases |s|
  {
    if |s| == 0 then None
    else if p(s[0]) then Some(0)
    else
      match FindFirst(s[1..], p)
      case None => None
      case Some(k) => Some(k + 1)
  }

  /** No two elements of `s` share a key. */
  predicate DistinctKeys<T, K(==)>(s: seq<T>, key: T -> K) {
    forall i, j :: 0 <= i < j < |s| ==> key(s[i]) != key(s[j])
  }

  /** The keys that occur in `s`. */
  function KeySet<T, K>(s: seq<T>, key: T -> K): set<K> {
    set i | 0 <= i < |s| :: key(s[i])
  }

  /** The predicate "the key of `x` is not in `keys`". */
  function Outside<T, K>(keys: set<K>, key: T -> K): T -> bool {
    x => key(x) !in keys
  }

  /** Position `i` holds the first element of `s` with its key. */
  predicate IsFirstWithKey<T, K(==)>(s: seq<T>, key: T -> K, i: int)
    requires 0 <= i < |s|
  {
    forall j :: 0 <= j < i ==> key(s[j]) != key(s[i])
  }

  /**
   * Keeps an element exactly when no earlier element has the same key: the
   * `index === self.findIndex(j => j.id === job.id)` filter, written from the
   * last element backwards so that "earlier" is a prefix.
   */
  function Dedupe<T, K(==)>(s: seq<T>, key: T -> K): (r: seq<T>)
    ensures DistinctKeys(r, key)
    ensures forall x :: x in r ==> x in s
    ensures KeySet(r, key) == KeySet(s, key)
    decreases |s|
  {
    if |s| == 0 then []
    else
      var init := s[..|s| - 1];
      var last := s[|s| - 1];
      var r0 := Dedupe(init, key);
      assert forall x :: x in init ==> x in s;
      if key(last) in KeySet(init, key) then
        assert s == init + [last];
        KeySetSnoc(init, last, key);
        r0
      else
        var r := r0 + [last];
        KeySetSnoc(r0, last, key);
        assert s == init + [last];
        KeySetSnoc(init, last, key);
        assert forall i :: 0 <= i < |r0| ==> key(r0[i]) in KeySet(r0, key);
        r
  }

  lemma KeySetSnoc<T, K>(s: seq<T>, x: T, key: T -> K)
    ensures KeySet(s + [x], key) == KeySet(s, key) + {key(x)}
  {
    var t := s + [x];
    assert key(t[|s|]) == key(x);
    forall k | k in KeySet(s, key)
      ensures k in KeySet(t, key)
    {
      var i :| 0 <= i < |s| && key(s[i]) == k;
      assert t[i] == s[i];
    }
  }

  // ---------------------------------------------------------------------------
  // Filter lemmas

  lemma {:induction false} FilterIsSubsequence<T>(s: seq<T>, p: T -> bool)
    ensures IsSubsequence(Filter(s, p), s)
    decreases |s|
  {
    if |s| > 0 {
      FilterIsSubsequence(s[1..], p);
      if p(s[0]) {
        assert Filter(s, p) == [s[0]] + Filter(s[1..], p);
        assert Filter(s, p)[1..] == Filter(s[1..], p);
      } else {
        assert Filter(s, p) == Filter(s[1..], p);
        SubsequenceDropHead(Filter(s, p), s);
      }
    }
  }

  /** Skipping the first element of `b` keeps a subsequence of `b[1..]` one of `b`. */
  lemma {:induction false} SubsequenceDropHead<T>(a: seq<T>, b: seq<T>)
    requires |b| > 0 && IsSubsequence(a, b[1..])
    ensures IsSubsequence(a, b)
    decreases |b|, |a|
  {
    if |a| > 0 && a[0] == b[0] {
      SubsequenceTail(a, b[1..]);
    }
  }

  /** Dropping the first element of `a` keeps it a subsequence. */
  lemma {:induction false} SubsequenceTail<T>(a: seq<T>, b: seq<T>)
    requires |a| > 0 && IsSubsequence(a, b)
    ensures IsSubsequence(a[1..], b)
    decreases |b|, |a|
  {
    assert |b| > 0;
    if a[0] == b[0] {
      SubsequenceDropHead(a[1..], b);
    } else {
      SubsequenceTail(a, b[1..]);
      SubsequenceDropHead(a[1..], b);
    }
  }

  lemma {:induction false} FilterAppend<T>(a: seq<T>, b: seq<T>, p: T -> bool)
    ensures Filter(a + b, p) == Filter(a, p) + Filter(b, p)
    decreases |a|
  {
    if |a| > 0 {
      assert (a + b)[1..] == a[1..] + b;
      FilterAppend(a[1..], b, p);
    } else {
      assert a + b == b;
    }
  }

  lemma {:induction false} FilterAll<T>(s: seq<T>, p: T -> bool)
    requires forall i :: 0 <= i < |s| ==> p(s[i])
    ensures Filter(s, p) == s
    decreases |s|
  {
    if |s| > 0 {
      FilterAll(s[1..], p);
    }
  }

  lemma {:induction false} FilterNone<T>(s: seq<T>, p: T -> bool)
    requires forall i :: 0 <= i < |s| ==> !p(s[i])
    ensures Filter(s, p) == []
    decreases |s|
  {
    if |s| > 0 {
      FilterNone(s[1..], p);
    }
  }

  /** Two successive filters are one filter by the conjunction. */
  lemma {:induction false} FilterCompose<T>(s: seq<T>, p: T -> bool, q: T -> bool, pq: T -> bool)
    requires forall x :: pq(x) == (p(x) && q(x))
    ensures Filter(Filter(s, p), q) == Filter(s, pq)
    decreases |s|
  {
    if |s| > 0 {
      FilterCompose(s[1..], p, q, pq);
      assert Filter(s, pq) == (if pq(s[0]) then [s[0]] else []) + Filter(s[1..], pq);
      if p(s[0]) {
        assert Filter(s, p) == [s[0]] + Filter(s[1..], p);
        FilterAppend([s[0]], Filter(s[1..], p), q);
        assert Filter([s[0]], q) == (if q(s[0]) then [s[0]] else []) + Filter([s[0]][1..], q);
      } else {
        assert Filter(s, p) == Filter(s[1..], p);
      }
    }
  }

  /** Filters that agree on every element of `s` give the same result. */
  lemma {:induction false} FilterCongruent<T>(s: seq<T>, p: T -> bool, q: T -> bool)
    requires forall i :: 0 <= i < |s| ==> p(s[i]) == q(s[i])
    ensures Filter(s, p) == Filter(s, q)
    decreases |s|
  {
    if |s| > 0 {
      FilterCongruent(s[1..], p, q);
    }
  }

  // ---------------------------------------------------------------------------
  // Dedupe lemmas

  /** Appending the same element to both sides preserves being a subsequence. */
  lemma {:induction false} SubsequenceSnoc<T>(a: seq<T>, b: seq<T>, x: T)
    requires IsSubsequence(a, b)
    ensures IsSubsequence(a + [x], b + [x])
    decreases |b|
  {
    if |a| == 0 {
      if |b| == 0 {
      } else {
        SubsequenceSnoc(a, b[1..], x);
        assert (b + [x])[1..] == b[1..] + [x];
        SubsequenceDropHead(a + [x], b + [x]);
      }
    } else {
      assert |b| > 0;
      assert (a + [x])[1..] == a[1..] + [x];
      assert (b + [x])[1..] == b[1..] + [x];
      if a[0] == b[0] {
        SubsequenceSnoc(a[1..], b[1..], x);
      } else {
        SubsequenceSnoc(a, b[1..], x);
      }
    }
  }

  /** Appending an element to `b` only preserves being a subsequence of it. */
  lemma {:induction false} SubsequenceExtend<T>(a: seq<T>, b: seq<T>, x: T)
    requires IsSubsequence(a, b)
    ensures IsSubsequence(a, b + [x])
    decreases |b|
  {
    if |a| > 0 {
      assert |b| > 0;
      assert (b + [x])[1..] == b[1..] + [x];
      if a[0] == b[0] {
        SubsequenceExtend(a[1..], b[1..], x);
      } else {
        SubsequenceExtend(a, b[1..], x);
      }
    }
  }

  lemma {:induction false} DedupeIsSubsequence<T, K>(s: seq<T>, key: T -> K)
    ensures IsSubsequence(Dedupe(s, key), s)
    decreases |s|
  {
    if |s| > 0 {
      var init := s[..|s| - 1];
      var last := s[|s| - 1];
      DedupeIsSubsequence(init, key);
      assert s == init + [last];
      if key(last) in KeySet(init, key) {
        SubsequenceExtend(Dedupe(init, key), init, last);
      } else {
        SubsequenceSnoc(Dedupe(init, key), init, last);
      }
    }
  }

  /** Every first occurrence of a key is kept. */
  lemma {:induction false} DedupeKeepsFirst<T, K>(s: seq<T>, key: T -> K)
    ensures forall i :: 0 <= i < |s| && IsFirstWithKey(s, key, i) ==> s[i] in Dedupe(s, key)
    decreases |s|
  {
    if |s| > 0 {
      var init := s[..|s| - 1];
      var last := s[|s| - 1];
      DedupeKeepsFirst(init, key);
      forall i | 0 <= i < |s| && IsFirstWithKey(s, key, i)
        ensures s[i] in Dedupe(s, key)
      {
        if i < |s| - 1 {
          assert init[i] == s[i];
          assert IsFirstWithKey(init, key, i);
          assert s[i] in Dedupe(init, key);
        } else {
          assert key(last) !in KeySet(init, key);
        }
      }
    }
  }

  /** Everything kept is the first occurrence of its key. */
  lemma {:induction false} DedupeOnlyFirst<T, K>(s: seq<T>, key: T -> K)
    ensures forall x :: x in Dedupe(s, key) ==>
              exists i :: 0 <= i < |s| && s[i] == x && IsFirstWithKey(s, key, i)
    decreases |s|
  {
    if |s| > 0 {
      var init := s[..|s| - 1];
      var last := s[|s| - 1];
      DedupeOnlyFirst(init, key);
      forall x | x in Dedupe(s, key)
        ensures exists i :: 0 <= i < |s| && s[i] == x && IsFirstWithKey(s, key, i)
      {
        if x in Dedupe(init, key) {
          var i :| 0 <= i < |init| && init[i] == x && IsFirstWithKey(init, key, i);
          assert s[i] == x;
          assert IsFirstWithKey(s, key, i);
        } else {
          assert x == last;
          assert key(last) !in KeySet(init, key);
          assert IsFirstWithKey(s, key, |s| - 1);
        }
      }
    }
  }

  /** A list whose keys are already distinct is left as it is. */
  lemma {:induction false} DedupeOfDistinct<T, K>(s: seq<T>, key: T -> K)
    requires DistinctKeys(s, key)
    ensures Dedupe(s, key) == s
    decreases |s|
  {
    if |s| > 0 {
      var init := s[..|s| - 1];
      DedupeOfDistinct(init, key);
      assert key(s[|s| - 1]) !in KeySet(init, key);
    }
  }

  /**
   * De-duplicating a concatenation de-duplicates the front, then keeps the
   * de-duplicated back without the keys the front already has.
   */
  lemma {:induction false} DedupeAppend<T, K>(a: seq<T>, b: seq<T>, key: T -> K)
    ensures Dedupe(a + b, key)
         == Dedupe(a, key) + Filter(Dedupe(b, key), Outside(KeySet(a, key), key))
    decreases |b|
  {
    var novel := Outside(KeySet(a, key), key);
    if |b| == 0 {
      assert a + b == a;
    } else {
      var binit := b[..|b| - 1];
      var last := b[|b| - 1];
      DedupeAppend(a, binit, key);
      assert (a + b)[..|a + b| - 1] == a + binit;
      assert (a + b)[|a + b| - 1] == last;
      assert KeySet(a + binit, key) == KeySet(a, key) + KeySet(binit, key) by {
        forall k | k in KeySet(a, key) + KeySet(binit, key)
          ensures k in KeySet(a + binit, key)
        {
          if k in KeySet(a, key) {
            var i :| 0 <= i < |a| && key(a[i]) == k;
            assert (a + binit)[i] == a[i];
          } else {
            var i :| 0 <= i < |binit| && key(binit[i]) == k;
            assert (a + binit)[|a| + i] == binit[i];
          }
        }
      }
      if key(last) in KeySet(binit, key) {
        assert Dedupe(b, key) == Dedupe(binit, key);
      } else {
        assert Dedupe(b, key) == Dedupe(binit, key) + [last];
        FilterAppend(Dedupe(binit, key), [last], novel);
      }
    }
  }

  /** Filtering by a predicate the elements already satisfy twice changes nothing. */
  lemma {:induction false} FilterIdempotent<T>(s: seq<T>, p: T -> bool)
    ensures Filter(Filter(s, p), p) == Filter(s, p)
  {
    FilterAll(Filter(s, p), p);
  }
}
