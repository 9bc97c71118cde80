/** Sequence helpers shared by the model: dict key order, index search, numpy-style
    selection by an index list or a boolean mask. */
module Seqs {

  predicate Distinct<T(==)>(xs: seq<T>)
  {
    forall i, j :: 0 <= i < j < |xs| ==> xs[i] != xs[j]
  }

  predicate StrictlyIncreasing(xs: seq<int>)
  {
    forall i, j :: 0 <= i < j < |xs| ==> xs[i] < xs[j]
  }

  /** The distinct elements of xs in order of first occurrence: the key order of a
      Python dict whose keys were inserted in the order of xs. */
  function Dedup<T(==)>(xs: seq<T>): (r: seq<T>)
    decreases |xs|
  {
    if |xs| == 0 then []
    else
      var p := Dedup(xs[..|xs| - 1]);
      if xs[|xs| - 1] in p then p else p + [xs[|xs| - 1]]
  }

  /** Dedup keeps every element, invents none and lists each once. */
  lemma {:induction false} DedupMembers<T>(xs: seq<T>)
    ensures forall k :: 0 <= k < |Dedup(xs)| ==> Dedup(xs)[k] in xs
    ensures forall k :: 0 <= k < |xs| ==> xs[k] in Dedup(xs)
    ensures Distinct(Dedup(xs))
    decreases |xs|
  {
    if |xs| > 0 {
      var ys := xs[..|xs| - 1];
      DedupMembers(ys);
      assert forall k :: 0 <= k < |ys| ==> ys[k] == xs[k];
    }
  }

  /** Appending an element extends the first-occurrence order only when it is new. */
  lemma DedupSnoc<T>(xs: seq<T>, x: T)
    ensures Dedup(xs + [x]) == if x in xs then Dedup(xs) else Dedup(xs) + [x]
  {
    assert (xs + [x])[..|xs + [x]| - 1] == xs;
    DedupMembers(xs);
    if x in xs {
      var k :| 0 <= k < |xs| && xs[k] == x;
      assert x in Dedup(xs);
    } else {
      assert x !in Dedup(xs);
    }
  }

  /** With no repeated element, the first-occurrence order is the sequence itself. */
  lemma {:induction false} DedupDistinct<T>(xs: seq<T>)
    requires Distinct(xs)
    ensures Dedup(xs) == xs
    decreases |xs|
  {
    if |xs| > 0 {
      var n := |xs| - 1;
      var ys := xs[..n];
      assert Distinct(ys) by {
        forall i, j | 0 <= i < j < |ys| ensures ys[i] != ys[j] {
          assert ys[i] == xs[i] && ys[j] == xs[j];
        }
      }
      DedupDistinct(ys);
      assert xs[n] !in ys by {
        forall i | 0 <= i < n ensures ys[i] != xs[n] {
          assert ys[i] == xs[i];
        }
      }
      assert ys + [xs[n]] == xs;
    }
  }

  /** The position of the first occurrence of x in xs. */
  function FirstIndexOf<T(==)>(xs: seq<T>, x: T): (r: nat)
    requires x in xs
    ensures r < |xs| && xs[r] == x
    ensures forall k :: 0 <= k < r ==> xs[k] != x
  {
    if xs[0] == x then 0 else 1 + FirstIndexOf(xs[1..], x)
  }

  /** The position of the last occurrence of x in xs. */
  function LastIndexOf<T(==)>(xs: seq<T>, x: T): (r: nat)
    requires x in xs
    ensures r < |xs| && xs[r] == x
    ensures forall k :: r < k < |xs| ==> xs[k] != x
    decreases |xs|
  {
    if xs[|xs| - 1] == x then |xs| - 1
    else
      assert x in xs[..|xs| - 1] by {
        var k :| 0 <= k < |xs| && xs[k] == x;
        assert xs[..|xs| - 1][k] == x;
      }
      LastIndexOf(xs[..|xs| - 1], x)
  }

  /** A first occurrence is determined by its two defining properties. */
  lemma FirstIndexOfUnique<T>(xs: seq<T>, x: T, k: nat)
    requires k < |xs| && xs[k] == x
    requires forall j :: 0 <= j < k ==> xs[j] != x
    ensures FirstIndexOf(xs, x) == k
  {
    var r := FirstIndexOf(xs, x);
  }

  /** A last occurrence is determined by its two defining properties. */
  lemma LastIndexOfUnique<T>(xs: seq<T>, x: T, k: nat)
    requires k < |xs| && xs[k] == x
    requires forall j :: k < j < |xs| ==> xs[j] != x
    ensures LastIndexOf(xs, x) == k
  {
    var r := LastIndexOf(xs, x);
  }

  predicate InBounds(idx: seq<nat>, n: nat)
  {
    forall k :: 0 <= k < |idx| ==> idx[k] < n
  }

  /** numpy fancy indexing xs[idx]: the elements of xs at the listed positions, in list order. */
  function Select<T>(xs: seq<T>, idx: seq<nat>): (r: seq<T>)
    requires InBounds(idx, |xs|)
  {
    seq(|idx|, k requires 0 <= k < |idx| => xs[idx[k]])
  }

  /** The positions of xs whose element satisfies keep, ascending: np.nonzero of a mask. */
  function IndicesWhere<T>(xs: seq<T>, keep: T -> bool): (r: seq<nat>)
    ensures InBounds(r, |xs|)
    ensures forall k :: 0 <= k < |r| ==> keep(xs[r[k]])
    ensures forall i :: 0 <= i < |xs| && keep(xs[i]) ==> i in r
    ensures forall j, k :: 0 <= j < k < |r| ==> r[j] < r[k]
    decreases |xs|
  {
    if |xs| == 0 then []
    else
      var p := IndicesWhere(xs[..|xs| - 1], keep);
      if keep(xs[|xs| - 1]) then p + [|xs| - 1] else p
  }

  /** Keeping every element of a mask selects the whole sequence. */
  lemma {:induction false} IndicesWhereAll<T>(xs: seq<T>, keep: T -> bool)
    requires forall i :: 0 <= i < |xs| ==> keep(xs[i])
    ensures IndicesWhere(xs, keep) == seq(|xs|, i => i)
    decreases |xs|
  {
    if |xs| > 0 {
      var ys := xs[..|xs| - 1];
      IndicesWhereAll(ys, keep);
      assert seq(|xs|, i => i) == seq(|ys|, i => i) + [|xs| - 1];
    }
  }

  /** Selecting every position in order gives the sequence back. */
  lemma SelectAll<T>(xs: seq<T>)
    ensures InBounds(seq(|xs|, i => i), |xs|)
    ensures Select(xs, seq(|xs|, i => i)) == xs
  {
  }

  lemma SelectConcat<T>(xs: seq<T>, a: seq<nat>, b: seq<nat>)
    requires InBounds(a, |xs|) && InBounds(b, |xs|)
    ensures InBounds(a + b, |xs|)
    ensures Select(xs, a + b) == Select(xs, a) + Select(xs, b)
  {
  }

  lemma SelectPrefix<T>(xs: seq<T>, n: nat, idx: seq<nat>)
    requires n <= |xs| && InBounds(idx, n)
    ensures Select(xs, idx) == Select(xs[..n], idx)
  {
  }

  /** Removing the entry at position p from a distinct in-bounds index list. */
  lemma RemoveAt(idx: seq<nat>, p: nat, n: nat)
    requires p < |idx| && idx[p] == n && InBounds(idx, n + 1) && Distinct(idx)
    ensures idx == idx[..p] + [n] + idx[p + 1..]
    ensures InBounds(idx[..p] + idx[p + 1..], n)
    ensures Distinct(idx[..p] + idx[p + 1..])
  {
    var rest := idx[..p] + idx[p + 1..];
    forall k | 0 <= k < |rest| ensures rest[k] < n {
      if k < p { assert rest[k] == idx[k]; } else { assert rest[k] == idx[k + 1]; }
    }
    forall i, j | 0 <= i < j < |rest| ensures rest[i] != rest[j] {
      var i' := if i < p then i else i + 1;
      var j' := if j < p then j else j + 1;
      assert rest[i] == idx[i'] && rest[j] == idx[j'];
    }
  }

  lemma MultisetInsert<T>(s: seq<T>, sa: seq<T>, sb: seq<T>, ys: seq<T>, x: T)
    requires s == sa + [x] + sb && multiset(sa + sb) <= multiset(ys)
    ensures multiset(s) <= multiset(ys + [x])
  {
    assert multiset(s) == multiset(sa + sb) + multiset{x};
  }

  /** Selecting through distinct positions never duplicates an element: the result is a
      sub-multiset of the input. */
  lemma {:induction false} SelectDistinctSubMultiset<T>(xs: seq<T>, idx: seq<nat>)
    requires InBounds(idx, |xs|) && Distinct(idx)
    ensures multiset(Select(xs, idx)) <= multiset(xs)
    decreases |xs|, 1
  {
    if |xs| > 0 {
      var n := |xs| - 1;
      var ys := xs[..n];
      assert xs == ys + [xs[n]];
      if p :| 0 <= p < |idx| && idx[p] == n {
        RemovedLastStep(xs, idx, p);
      } else {
        assert InBounds(idx, n);
        SelectDistinctSubMultiset(ys, idx);
        SelectPrefix(xs, n, idx);
      }
    }
  }

  /** The step of SelectDistinctSubMultiset where the last position of xs is selected. */
  lemma {:induction false} RemovedLastStep<T>(xs: seq<T>, idx: seq<nat>, p: nat)
    requires |xs| > 0 && InBounds(idx, |xs|) && Distinct(idx)
    requires p < |idx| && idx[p] == |xs| - 1
    ensures multiset(Select(xs, idx)) <= multiset(xs)
    decreases |xs|, 0
  {
    var n := |xs| - 1;
    var ys := xs[..n];
    assert xs == ys + [xs[n]];
    RemoveAt(idx, p, n);
    var a, b := idx[..p], idx[p + 1..];
    SelectDistinctSubMultiset(ys, a + b);
    SelectConcat(xs, a, [n] + b);
    SelectConcat(xs, [n], b);
    SelectConcat(ys, a, b);
    SelectPrefix(xs, n, a);
    SelectPrefix(xs, n, b);
    assert idx == a + ([n] + b);
    MultisetInsert(Select(xs, idx), Select(ys, a), Select(ys, b), ys, xs[n]);
  }
}
