/**
 * The backward walk of calculateStreak, for any strictly decreasing step: starting from a
 * key, step back while the stepped-to key is among the keys found in the logs, and count.
 * The step is one day, one week or one calendar month (see Periods.Step); nothing here
 * depends on which.
 */
module Walks {

  /** A step that always moves strictly back. */
  ghost predicate Decreasing(step: int -> int) {
    forall k :: step(k) < k
  }

  predicate Distinct(s: seq<int>) {
    forall i, j :: 0 <= i < j < |s| ==> s[i] != s[j]
  }

  /** Math.max(...s). */
  function MaxOf(s: seq<int>): (m: int)
    requires s != []
    ensures m in s && forall x :: x in s ==> x <= m
  {
    if |s| == 1 then s[0]
    else
      var rest := MaxOf(s[1..]);
      assert forall x :: x in s <==> x == s[0] || x in s[1..];
      if s[0] >= rest then s[0] else rest
  }

  /** The smallest element; it bounds the backward walk. */
  function MinOf(s: seq<int>): (m: int)
    requires s != []
    ensures m in s && forall x :: x in s ==> m <= x
  {
    if |s| == 1 then s[0]
    else
      var rest := MinOf(s[1..]);
      assert forall x :: x in s <==> x == s[0] || x in s[1..];
      if s[0] <= rest then s[0] else rest
  }

  lemma MaxOfSameElements(a: seq<int>, b: seq<int>)
    requires a != [] && b != []
    requires forall x :: x in a <==> x in b
    ensures MaxOf(a) == MaxOf(b)
  {
  }

  /** The key reached after i steps back from key. */
  function Back(step: int -> int, key: int, i: nat): (r: int)
    ensures Decreasing(step) ==> r <= key - i
  {
    if i == 0 then key else step(Back(step, key, i - 1))
  }

  /** A step that moves each g(k) to g(k - 1) walks g(m) back to g(m - i) in i steps. */
  lemma {:induction false} BackAlong(step: int -> int, g: int -> int, m: int, i: nat)
    requires forall k :: step(g(k)) == g(k - 1)
    ensures Back(step, g(m), i) == g(m - i)
  {
    if i > 0 {
      BackAlong(step, g, m, i - 1);
    }
  }

  /** Walking back strictly decreases the key. */
  lemma {:induction false} BackDecreasing(step: int -> int, key: int, i: nat, j: nat)
    requires Decreasing(step)
    requires i < j
    ensures Back(step, key, j) < Back(step, key, i)
    decreases j
  {
    if i < j - 1 {
      BackDecreasing(step, key, i, j - 1);
    }
  }

  /** Stepping back first and then i times is stepping back i + 1 times. */
  lemma {:induction false} BackShift(step: int -> int, key: int, i: nat)
    ensures Back(step, step(key), i) == Back(step, key, i + 1)
  {
    if i > 0 {
      BackShift(step, key, i - 1);
    }
  }

  /**
   * The number of consecutive keys, stepping back from key, that are present: what
   * `while (keys.includes(check)) { streak++; check = step back }` counts.
   */
  function Run(step: int -> int, keys: seq<int>, key: int): (n: nat)
    requires Decreasing(step)
    ensures n == 0 <==> key !in keys
    ensures n <= (if key in keys then key - MinOf(keys) + 1 else 0)
    decreases if key in keys then key - MinOf(keys) + 1 else 0
  {
    if key in keys then 1 + Run(step, keys, step(key)) else 0
  }

  /** The keys Back(key, 0), ..., Back(key, n - 1) are present and Back(key, n) is not. */
  predicate RunLength(step: int -> int, keys: seq<int>, key: int, n: nat) {
    (forall i: nat :: i < n ==> Back(step, key, i) in keys) && Back(step, key, n) !in keys
  }

  lemma {:induction false} RunIsRunLength(step: int -> int, keys: seq<int>, key: int)
    requires Decreasing(step)
    ensures RunLength(step, keys, key, Run(step, keys, key))
    decreases if key in keys then key - MinOf(keys) + 1 else 0
  {
    if key in keys {
      var next := step(key);
      RunIsRunLength(step, keys, next);
      var m := Run(step, keys, next);
      forall i: nat | i < m + 1
        ensures Back(step, key, i) in keys
      {
        if i > 0 {
          BackShift(step, key, i - 1);
        }
      }
      BackShift(step, key, m);
    }
  }

  /** Run counts exactly the consecutive present keys: both directions. */
  lemma RunIffRunLength(step: int -> int, keys: seq<int>, key: int, n: nat)
    requires Decreasing(step)
    ensures Run(step, keys, key) == n <==> RunLength(step, keys, key, n)
  {
    RunIsRunLength(step, keys, key);
  }

  /** Run depends only on which keys are present, not on their order or repetition. */
  lemma {:induction false} RunSameElements(step: int -> int, a: seq<int>, b: seq<int>, key: int)
    requires Decreasing(step)
    requires forall x :: x in a <==> x in b
    ensures Run(step, a, key) == Run(step, b, key)
    decreases if key in a then key - MinOf(a) + 1 else 0
  {
    if key in a {
      RunSameElements(step, a, b, step(key));
    }
  }

  /** A subset has no more elements than its superset. */
  lemma {:induction false} SubsetCard(a: set<int>, b: set<int>)
    requires a <= b
    ensures |a| <= |b|
    decreases |b|
  {
    if a != {} {
      assert !(forall y: int :: y !in a) by {
        if forall y: int :: y !in a {
          assert false;
        }
      }
      var x: int :| x in a;
      SubsetCard(a - {x}, b - {x});
    }
  }

  /** A run never counts more keys than there are distinct keys not after its start. */
  lemma {:induction false} RunBound(step: int -> int, keys: seq<int>, key: int)
    requires Decreasing(step)
    ensures Run(step, keys, key) <= |set k | k in keys && k <= key|
    decreases if key in keys then key - MinOf(keys) + 1 else 0
  {
    if key in keys {
      var next := step(key);
      RunBound(step, keys, next);
      var below := set k | k in keys && k <= next;
      var upTo := set k | k in keys && k <= key;
      assert key !in below;
      SubsetCard(below + {key}, upTo);
    }
  }

  /** A duplicate-free sequence has as many distinct elements as entries. */
  lemma {:induction false} DistinctCard(s: seq<int>)
    requires Distinct(s)
    ensures |set k | k in s| == |s|
  {
    if s != [] {
      var rest := s[1..];
      assert Distinct(rest) by {
        forall i, j | 0 <= i < j < |rest| ensures rest[i] != rest[j] {
          assert rest[i] == s[i + 1] && rest[j] == s[j + 1];
        }
      }
      DistinctCard(rest);
      assert s[0] !in rest by {
        forall i | 0 <= i < |rest| ensures rest[i] != s[0] {
          assert rest[i] == s[i + 1];
        }
      }
      assert (set k | k in s) == (set k | k in rest) + {s[0]};
    }
  }
}
