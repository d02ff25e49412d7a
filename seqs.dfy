/** Sequence facts shared by the grouping and the by-count ordering. */
module Seqs {

  predicate Distinct<T(==)>(s: seq<T>) {
    forall i, j :: 0 <= i < j < |s| ==> s[i] != s[j]
  }

  /** `s.map(f)`. */
  function MapSeq<A, B>(f: A -> B, s: seq<A>): (r: seq<B>)
    ensures |r| == |s|
    decreases |s|
  {
    if s == [] then [] else [f(s[0])] + MapSeq(f, s[1..])
  }

  lemma {:induction false} MapSeqAt<A, B>(f: A -> B, s: seq<A>, i: nat)
    requires i < |s|
    ensures MapSeq(f, s)[i] == f(s[i])
    decreases |s|
  {
    if i > 0 {
      MapSeqAt(f, s[1..], i - 1);
    }
  }

  lemma {:induction false} MapSeqConcat<A, B>(f: A -> B, a: seq<A>, b: seq<A>)
    ensures MapSeq(f, a + b) == MapSeq(f, a) + MapSeq(f, b)
    decreases |a|
  {
    if a != [] {
      assert (a + b)[0] == a[0] && (a + b)[1..] == a[1..] + b;
      MapSeqConcat(f, a[1..], b);
      calc {
        MapSeq(f, a + b);
        [f(a[0])] + MapSeq(f, a[1..] + b);
        [f(a[0])] + (MapSeq(f, a[1..]) + MapSeq(f, b));
        ([f(a[0])] + MapSeq(f, a[1..])) + MapSeq(f, b);
        MapSeq(f, a) + MapSeq(f, b);
      }
    } else {
      assert a + b == b;
    }
  }

  lemma MapSeqThree<A, B>(f: A -> B, p: A, q: A, r: A)
    ensures MapSeq(f, [p, q, r]) == [f(p), f(q), f(r)]
  {
    assert [r][1..] == [];
    assert MapSeq(f, [r]) == [f(r)];
    assert [q, r][1..] == [r];
    assert MapSeq(f, [q, r]) == [f(q), f(r)];
    assert [p, q, r][1..] == [q, r];
  }

  /** Removing the element at `j` removes one copy of it from the multiset. */
  lemma RemoveAt<T>(b: seq<T>, j: nat)
    requires j < |b|
    ensures multiset(b[..j] + b[j + 1..]) == multiset(b) - multiset{b[j]}
  {
    assert b == b[..j] + [b[j]] + b[j + 1..];
  }

  /** Mapping two permutations of each other gives two permutations of each other. */
  lemma {:induction false} MapPreservesPermutation<A, B>(f: A -> B, a: seq<A>, b: seq<A>)
    requires multiset(a) == multiset(b)
    ensures multiset(MapSeq(f, a)) == multiset(MapSeq(f, b))
    decreases |a|
  {
    if a == [] {
      assert |b| == |multiset(b)| == 0;
    } else {
      var x := a[0];
      assert x in multiset(b);
      var j :| 0 <= j < |b| && b[j] == x;
      var bl, br := b[..j], b[j + 1..];
      assert b == bl + [x] + br;
      assert a == [x] + a[1..];
      RemoveAt(b, j);
      RemoveAt(a, 0);
      assert a[..0] + a[1..] == a[1..];
      MapPreservesPermutation(f, a[1..], bl + br);
      var left, right := MapSeq(f, bl), MapSeq(f, br);
      MapSeqConcat(f, [x], a[1..]);
      MapSeqConcat(f, bl, br);
      MapSeqConcat(f, bl + [x], br);
      MapSeqConcat(f, bl, [x]);
      assert MapSeq(f, [x]) == [f(x)] by {
        assert [x][1..] == [];
      }
      assert MapSeq(f, b) == MapSeq(f, bl + [x]) + right;
      assert MapSeq(f, b) == left + [f(x)] + right;
      calc {
        multiset(MapSeq(f, a));
        multiset([f(x)] + MapSeq(f, a[1..]));
        multiset([f(x)]) + multiset(MapSeq(f, a[1..]));
        multiset([f(x)]) + multiset(MapSeq(f, bl + br));
        multiset([f(x)]) + multiset(left + right);
        { MiddleInsertion(left, f(x), right); }
        multiset(left + [f(x)] + right);
      }
    }
  }

  lemma MiddleInsertion<T>(l: seq<T>, x: T, r: seq<T>)
    ensures multiset([x]) + multiset(l + r) == multiset(l + [x] + r)
  {
    assert multiset(l + [x] + r) == multiset(l) + multiset([x]) + multiset(r);
  }

  /** A sequence without repetitions holds each value at most once. */
  lemma {:induction false} DistinctMultiplicity<T>(s: seq<T>, x: T)
    requires Distinct(s)
    ensures multiset(s)[x] <= 1
    decreases |s|
  {
    if s != [] {
      assert s == [s[0]] + s[1..];
      DistinctMultiplicity(s[1..], x);
      if s[0] == x {
        assert x !in s[1..];
      }
    }
  }

  /** A permutation of a sequence without repetitions has none either. */
  lemma PermutationOfDistinct<T>(a: seq<T>, b: seq<T>)
    requires multiset(a) == multiset(b) && Distinct(b)
    ensures Distinct(a)
  {
    forall i, j | 0 <= i < j < |a| ensures a[i] != a[j] {
      var x := a[i];
      DistinctMultiplicity(b, x);
      assert a == a[..i] + [x] + a[i + 1..j] + [a[j]] + a[j + 1..];
      assert multiset(a)[x] >= 1 + multiset([a[j]])[x];
    }
  }

  /** The elements of `s`, each once, in order of first appearance. */
  function Dedup<T(==)>(s: seq<T>): seq<T>
    decreases |s|
  {
    if s == [] then []
    else
      var d := Dedup(s[..|s| - 1]);
      if s[|s| - 1] in d then d else d + [s[|s| - 1]]
  }

  lemma {:induction false} DedupDistinct<T>(s: seq<T>)
    ensures Distinct(Dedup(s))
    decreases |s|
  {
    if s != [] {
      DedupDistinct(s[..|s| - 1]);
    }
  }

  lemma {:induction false} DedupSameElements<T>(s: seq<T>, x: T)
    ensures x in Dedup(s) <==> x in s
    decreases |s|
  {
    if s != [] {
      var init := s[..|s| - 1];
      DedupSameElements(init, x);
      assert s == init + [s[|s| - 1]];
    }
  }

  /** Each element of `Dedup(s)` occurs in `s` before every occurrence of the elements after it. */
  lemma {:induction false} DedupFirstAppearance<T>(s: seq<T>, i: nat, j: nat, n: nat)
    requires i < j < |Dedup(s)|
    requires n < |s| && s[n] == Dedup(s)[j]
    ensures Dedup(s)[i] in s[..n]
    decreases |s|
  {
    var last := |s| - 1;
    var init := s[..last];
    var d := Dedup(init);
    if j < |d| && n < last {
      assert init[n] == s[n];
      DedupFirstAppearance(init, i, j, n);
      assert init[..n] == s[..n];
    } else {
      assert n < last ==> s[n] in init;
      DedupSameElements(init, s[n]);
      assert n == last;
      DedupSameElements(init, d[i]);
    }
  }
}
