/**
 * The swap-based permutation generator shared by both search strategies.
 *
 * The generator fixes a shrinking suffix: for a prefix length n it swaps
 * slot i with slot n-1 for every i < n, recurses on n-1, and swaps back.
 * Gen(p, n) is the list it emits, in emission order; Blocks(p, n, i) is
 * what the first i rounds of the loop at level n have emitted.
 */
module Permutation {

  /** s with the elements at i and j exchanged. */
  function Swapped<T>(s: seq<T>, i: nat, j: nat): (r: seq<T>)
    requires i < |s| && j < |s|
    ensures |r| == |s| && r[i] == s[j] && r[j] == s[i]
    ensures forall k :: 0 <= k < |s| && k != i && k != j ==> r[k] == s[k]
  {
    s[i := s[j]][j := s[i]]
  }

  lemma SwappedMultiset<T>(s: seq<T>, i: nat, j: nat)
    requires i < |s| && j < |s|
    ensures multiset(Swapped(s, i, j)) == multiset(s)
  {
  }

  function Fact(n: nat): (r: nat)
    ensures r >= 1
  {
    if n == 0 then 1 else n * Fact(n - 1)
  }

  /** The arrangements emitted by the generator started on p with prefix length n. */
  function Gen<T>(p: seq<T>, n: nat): seq<seq<T>>
    requires n <= |p|
    decreases n, 1, 0
  {
    if n == 0 then [p] else Blocks(p, n, n)
  }

  /** What rounds 0 .. i-1 of the loop at prefix length n emit. */
  function Blocks<T>(p: seq<T>, n: nat, i: nat): seq<seq<T>>
    requires 0 < n <= |p| && i <= n
    decreases n, 0, i
  {
    if i == 0 then [] else Blocks(p, n, i - 1) + Gen(Swapped(p, i - 1, n - 1), n - 1)
  }

  /** Every arrangement of s, in the order the generator emits them. */
  function Orderings<T>(s: seq<T>): seq<seq<T>>
  {
    Gen(s, |s|)
  }

  ghost predicate Distinct<T>(s: seq<T>)
  {
    forall i, j :: 0 <= i < j < |s| ==> s[i] != s[j]
  }

  ghost predicate DistinctBelow<T>(s: seq<T>, n: nat)
    requires n <= |s|
  {
    forall i, j :: 0 <= i < j < n ==> s[i] != s[j]
  }

  // ---------------------------------------------------------------------
  // How many arrangements are emitted

  lemma {:induction false} GenLength<T>(p: seq<T>, n: nat)
    requires n <= |p|
    ensures |Gen(p, n)| == Fact(n)
    decreases n, 1, 0
  {
    if n > 0 {
      BlocksLength(p, n, n);
    }
  }

  lemma {:induction false} BlocksLength<T>(p: seq<T>, n: nat, i: nat)
    requires 0 < n <= |p| && i <= n
    ensures |Blocks(p, n, i)| == i * Fact(n - 1)
    decreases n, 0, i
  {
    if i > 0 {
      BlocksLength(p, n, i - 1);
      GenLength(Swapped(p, i - 1, n - 1), n - 1);
      assert i * Fact(n - 1) == (i - 1) * Fact(n - 1) + Fact(n - 1);
    }
  }

  // ---------------------------------------------------------------------
  // Everything emitted is an arrangement of p that leaves p[n..] in place

  lemma {:induction false} GenSound<T>(p: seq<T>, n: nat, q: seq<T>)
    requires n <= |p| && q in Gen(p, n)
    ensures |q| == |p| && q[n..] == p[n..] && multiset(q) == multiset(p)
    decreases n, 1, 0
  {
    if n > 0 {
      BlocksSound(p, n, n, q);
    }
  }

  lemma {:induction false} BlocksSound<T>(p: seq<T>, n: nat, i: nat, q: seq<T>)
    requires 0 < n <= |p| && i <= n && q in Blocks(p, n, i)
    ensures |q| == |p| && q[n..] == p[n..] && multiset(q) == multiset(p)
    ensures exists j :: 0 <= j < i && q[n - 1] == p[j]
    decreases n, 0, i
  {
    if q in Blocks(p, n, i - 1) {
      BlocksSound(p, n, i - 1, q);
    } else {
      var s := Swapped(p, i - 1, n - 1);
      assert q in Gen(s, n - 1);
      GenSound(s, n - 1, q);
      SwappedMultiset(p, i - 1, n - 1);
      assert q[n - 1] == q[n - 1..][0] == s[n - 1..][0] == p[i - 1];
      assert q[n..] == q[n - 1..][1..] == s[n - 1..][1..];
      assert s[n..] == p[n..];
    }
  }

  // ---------------------------------------------------------------------
  // Every arrangement of p that leaves p[n..] in place is emitted

  lemma {:induction false} GenComplete<T>(p: seq<T>, n: nat, q: seq<T>)
    requires n <= |p| && |q| == |p| && q[n..] == p[n..] && multiset(q) == multiset(p)
    ensures q in Gen(p, n)
    decreases n, 1, 0
  {
    if n == 0 {
      assert q == q[0..] == p[0..] == p;
    } else {
      assert q == q[..n] + q[n..];
      assert p == p[..n] + p[n..];
      assert multiset(q) == multiset(q[..n]) + multiset(q[n..]);
      assert multiset(p) == multiset(p[..n]) + multiset(p[n..]);
      assert multiset(q[..n]) == multiset(q) - multiset(q[n..]);
      assert multiset(p[..n]) == multiset(p) - multiset(p[n..]);
      assert q[n - 1] in multiset(q[..n]);
      assert q[n - 1] in p[..n];
      var j :| 0 <= j < n && p[j] == q[n - 1];
      BlocksComplete(p, n, n, j, q);
    }
  }

  lemma {:induction false} BlocksComplete<T>(p: seq<T>, n: nat, i: nat, j: nat, q: seq<T>)
    requires 0 < n <= |p| && j < i <= n && |q| == |p| && p[j] == q[n - 1]
    requires q[n..] == p[n..] && multiset(q) == multiset(p)
    ensures q in Blocks(p, n, i)
    decreases n, 0, i
  {
    if j == i - 1 {
      var s := Swapped(p, j, n - 1);
      SwappedMultiset(p, j, n - 1);
      forall k | n - 1 <= k < |q|
        ensures q[k] == s[k]
      {
        if k >= n {
          assert q[k] == q[n..][k - n] == p[n..][k - n] == p[k];
        }
      }
      assert q[n - 1..] == s[n - 1..];
      GenComplete(s, n - 1, q);
    } else {
      BlocksComplete(p, n, i - 1, j, q);
    }
  }

  // ---------------------------------------------------------------------
  // Nothing is emitted twice when the first n elements of p are distinct

  lemma DistinctConcat<T>(a: seq<T>, b: seq<T>)
    requires Distinct(a) && Distinct(b)
    requires forall i, j :: 0 <= i < |a| && 0 <= j < |b| ==> a[i] != b[j]
    ensures Distinct(a + b)
  {
  }

  lemma {:induction false} GenDistinct<T>(p: seq<T>, n: nat)
    requires n <= |p| && DistinctBelow(p, n)
    ensures Distinct(Gen(p, n))
    decreases n, 1, 0
  {
    if n > 0 {
      BlocksDistinct(p, n, n);
    }
  }

  lemma {:induction false} BlocksDistinct<T>(p: seq<T>, n: nat, i: nat)
    requires 0 < n <= |p| && i <= n && DistinctBelow(p, n)
    ensures Distinct(Blocks(p, n, i))
    decreases n, 0, i
  {
    if i > 0 {
      var s := Swapped(p, i - 1, n - 1);
      BlocksDistinct(p, n, i - 1);
      assert DistinctBelow(s, n - 1) by {
        forall a, b | 0 <= a < b < n - 1
          ensures s[a] != s[b]
        {
          var a' := if a == i - 1 then n - 1 else a;
          var b' := if b == i - 1 then n - 1 else b;
          assert s[a] == p[a'] && s[b] == p[b'] && a' != b';
        }
      }
      GenDistinct(s, n - 1);
      var earlier, block := Blocks(p, n, i - 1), Gen(s, n - 1);
      forall k, l | 0 <= k < |earlier| && 0 <= l < |block|
        ensures earlier[k] != block[l]
      {
        var x, y := earlier[k], block[l];
        BlocksSound(p, n, i - 1, x);
        GenSound(s, n - 1, y);
        assert y[n - 1] == y[n - 1..][0] == s[n - 1..][0] == p[i - 1];
      }
      DistinctConcat(earlier, block);
    }
  }

  // ---------------------------------------------------------------------
  // What permutations(original) returns, characterised

  /**
   * The orderings of s are exactly the rearrangements of s, there are |s|!
   * of them, and none repeats when the elements of s are distinct.
   */
  lemma OrderingsCharacterised<T>(s: seq<T>)
    ensures |Orderings(s)| == Fact(|s|)
    ensures forall q :: q in Orderings(s) <==> multiset(q) == multiset(s)
    ensures Distinct(s) ==> Distinct(Orderings(s))
  {
    GenLength(s, |s|);
    forall q
      ensures q in Orderings(s) <==> multiset(q) == multiset(s)
    {
      if q in Orderings(s) {
        GenSound(s, |s|, q);
      }
      if multiset(q) == multiset(s) {
        assert |q| == |multiset(q)| == |multiset(s)| == |s|;
        GenComplete(s, |s|, q);
      }
    }
    if Distinct(s) {
      GenDistinct(s, |s|);
    }
  }

  // ---------------------------------------------------------------------
  // Distinctness survives rearrangement

  lemma DistinctCounts<T>(s: seq<T>, x: T)
    requires Distinct(s)
    ensures multiset(s)[x] <= 1
  {
    if |s| > 0 {
      var init := s[..|s| - 1];
      assert s == init + [s[|s| - 1]];
      DistinctCounts(init, x);
      if x == s[|s| - 1] {
        assert x !in init;
      }
    }
  }

  lemma DistinctRearranged<T>(s: seq<T>, q: seq<T>)
    requires Distinct(s) && multiset(q) == multiset(s)
    ensures Distinct(q)
  {
    forall i, j | 0 <= i < j < |q|
      ensures q[i] != q[j]
    {
      if q[i] == q[j] {
        var x := q[i];
        assert q == q[..j] + q[j..];
        assert x in q[..j];
        assert q[j..][0] == x;
        assert multiset(q[..j])[x] >= 1 && multiset(q[j..])[x] >= 1;
        DistinctCounts(s, x);
        assert false;
      }
    }
  }

  // ---------------------------------------------------------------------
  // The mutable pieces: arrays swapped in place and the list of results

  /** The list the generator appends to; each element is a snapshot. */
  class PermutationList<T> {
    var items: seq<seq<T>>

    constructor ()
      ensures items == []
    {
      items := [];
    }

    method Add(p: seq<T>)
      modifies this
      ensures items == old(items) + [p]
    {
      items := items + [p];
    }
  }

  method Swap<T>(a: array<T>, first: nat, second: nat)
    requires first < a.Length && second < a.Length
    modifies a
    ensures a[..] == Swapped(old(a[..]), first, second)
  {
    var temp := a[first];
    a[first] := a[second];
    a[second] := temp;
  }

  /** A fresh array with the same contents, as a same-length copy does. */
  method CopyOf<T>(original: array<T>) returns (copy: array<T>)
    ensures fresh(copy) && copy[..] == original[..]
  {
    copy := new T[original.Length](i requires 0 <= i < original.Length reads original => original[i]);
  }
}
