/** All orderings of a sequence, in the order Python's `itertools.permutations` yields
    them: lexicographic in the positions taken, so the first element ranges over the
    positions left to right and the rest are the orderings of what remains. */
module Permutations {
  import opened Seqs

  function Factorial(n: nat): (f: nat)
    ensures f >= 1
  {
    if n == 0 then 1 else n * Factorial(n - 1)
  }

  /** `s` without the element at position `i`. */
  function RemoveAt<T>(s: seq<T>, i: nat): (r: seq<T>)
    requires i < |s|
    ensures |r| == |s| - 1
    ensures multiset(r) + multiset{s[i]} == multiset(s)
  {
    assert s == s[..i] + [s[i]] + s[i + 1..];
    s[..i] + s[i + 1..]
  }

  /** `x` put in front of each sequence of `ps`. */
  function Prepend<T>(x: T, ps: seq<seq<T>>): (r: seq<seq<T>>)
    ensures |r| == |ps|
    ensures forall k :: 0 <= k < |ps| ==> r[k] == [x] + ps[k]
  {
    seq(|ps|, k requires 0 <= k < |ps| => [x] + ps[k])
  }

  /** The orderings of `s`. The empty sequence has exactly one, the empty ordering. */
  function Perms<T>(s: seq<T>): seq<seq<T>>
    decreases |s|, 1
  {
    if |s| == 0 then [[]] else PermsFrom(s, 0)
  }

  /** The orderings of `s` whose first element is taken from position `i` or later. */
  function PermsFrom<T>(s: seq<T>, i: nat): seq<seq<T>>
    requires i <= |s|
    decreases |s|, 0, |s| - i
  {
    if i == |s| then [] else Prepend(s[i], Perms(RemoveAt(s, i))) + PermsFrom(s, i + 1)
  }

  /** There are `n!` orderings of `n` elements. */
  lemma {:induction false} PermsCount<T>(s: seq<T>)
    ensures |Perms(s)| == Factorial(|s|)
    decreases |s|, 1
  {
    if |s| > 0 {
      PermsFromCount(s, 0);
    }
  }

  lemma {:induction false} PermsFromCount<T>(s: seq<T>, i: nat)
    requires 0 < |s| && i <= |s|
    ensures |PermsFrom(s, i)| == (|s| - i) * Factorial(|s| - 1)
    decreases |s|, 0, |s| - i
  {
    if i < |s| {
      var f := Factorial(|s| - 1);
      PermsCount(RemoveAt(s, i));
      PermsFromCount(s, i + 1);
      assert |PermsFrom(s, i)| == f + (|s| - (i + 1)) * f;
      assert (|s| - i) * f == f + (|s| - (i + 1)) * f;
    }
  }

  /** The first ordering is `s` itself, as for `itertools.permutations`. */
  lemma {:induction false} PermsStartWithIdentity<T>(s: seq<T>)
    ensures |Perms(s)| >= 1 && Perms(s)[0] == s
    decreases |s|
  {
    if |s| > 0 {
      PermsStartWithIdentity(RemoveAt(s, 0));
      PermsHead(s);
      assert RemoveAt(s, 0) == s[1..];
      assert [s[0]] + s[1..] == s;
    }
  }

  /** The first ordering of a non-empty `s` starts with `s[0]`, followed by the first
      ordering of the rest. */
  lemma PermsHead<T>(s: seq<T>)
    requires |s| > 0 && |Perms(RemoveAt(s, 0))| >= 1
    ensures |Perms(s)| >= 1 && Perms(s)[0] == [s[0]] + Perms(RemoveAt(s, 0))[0]
  {
    var front := Prepend(s[0], Perms(RemoveAt(s, 0)));
    assert Perms(s) == front + PermsFrom(s, 1);
    assert Perms(s)[0] == front[0];
  }

  /** Every ordering holds exactly the elements of `s`, with their multiplicities. */
  lemma {:induction false} PermsArePermutations<T>(s: seq<T>)
    ensures forall p :: p in Perms(s) ==> multiset(p) == multiset(s)
    decreases |s|, 1
  {
    if |s| > 0 {
      PermsFromArePermutations(s, 0);
    }
  }

  lemma {:induction false} PermsFromArePermutations<T>(s: seq<T>, i: nat)
    requires i <= |s|
    ensures forall p :: p in PermsFrom(s, i) ==> multiset(p) == multiset(s)
    decreases |s|, 0, |s| - i
  {
    if i < |s| {
      var rest := RemoveAt(s, i);
      PrependPermutations(s, i);
      PermsFromArePermutations(s, i + 1);
      assert PermsFrom(s, i) == Prepend(s[i], Perms(rest)) + PermsFrom(s, i + 1);
    }
  }

  /** The orderings that start at position `i` hold the elements of `s`. */
  lemma PrependPermutations<T>(s: seq<T>, i: nat)
    requires i < |s|
    ensures forall p :: p in Prepend(s[i], Perms(RemoveAt(s, i))) ==> multiset(p) == multiset(s)
    decreases |s|, 0, 0
  {
    var rest := RemoveAt(s, i);
    var ps := Perms(rest);
    PermsArePermutations(rest);
    var head := Prepend(s[i], ps);
    forall p | p in head ensures multiset(p) == multiset(s) {
      var k :| 0 <= k < |ps| && head[k] == p;
      var q := ps[k];
      assert q in ps;
      assert multiset(p) == multiset{s[i]} + multiset(q);
    }
  }

  /** Every ordering that starts at position `i` or later is non-empty and starts with
      an element taken from position `i` or later. */
  lemma {:induction false} PermsFromHeads<T>(s: seq<T>, i: nat)
    requires i <= |s|
    ensures forall q :: q in PermsFrom(s, i) ==> |q| >= 1 && exists k :: i <= k < |s| && q[0] == s[k]
    decreases |s| - i
  {
    if i < |s| {
      var head := Prepend(s[i], Perms(RemoveAt(s, i)));
      PermsFromHeads(s, i + 1);
      assert PermsFrom(s, i) == head + PermsFrom(s, i + 1);
      forall q | q in head ensures |q| >= 1 && q[0] == s[i] {
        var k :| 0 <= k < |head| && head[k] == q;
      }
    }
  }

  /** The block of orderings that start with `s[i]` is part of `PermsFrom(s, j)` for
      every `j <= i`. */
  lemma {:induction false} PermsFromCovers<T>(s: seq<T>, j: nat, i: nat)
    requires j <= i < |s|
    ensures forall q :: q in Prepend(s[i], Perms(RemoveAt(s, i))) ==> q in PermsFrom(s, j)
    decreases i - j
  {
    assert PermsFrom(s, j) == Prepend(s[j], Perms(RemoveAt(s, j))) + PermsFrom(s, j + 1);
    if j < i {
      PermsFromCovers(s, j + 1, i);
    }
  }

  /** Every rearrangement of `s` is one of its orderings. */
  lemma {:induction false} PermsComplete<T>(s: seq<T>, p: seq<T>)
    requires multiset(p) == multiset(s)
    ensures p in Perms(s)
    decreases |s|
  {
    assert |p| == |multiset(p)| == |multiset(s)| == |s|;
    if |s| == 0 {
      assert p == [];
    } else {
      assert p[0] in multiset(p);
      var i :| 0 <= i < |s| && s[i] == p[0];
      var rest := RemoveAt(s, i);
      assert p == [p[0]] + p[1..];
      assert multiset(p) == multiset{p[0]} + multiset(p[1..]);
      assert multiset(p[1..]) == multiset(p) - multiset{p[0]};
      assert multiset(rest) == multiset(s) - multiset{s[i]};
      PermsComplete(rest, p[1..]);
      var ps := Perms(rest);
      var k :| 0 <= k < |ps| && ps[k] == p[1..];
      assert Prepend(s[i], ps)[k] == p;
      PermsFromCovers(s, 0, i);
    }
  }

  /** Dropping one element keeps a sequence free of repeats. */
  lemma RemoveAtDistinct<T>(s: seq<T>, i: nat)
    requires i < |s| && Distinct(s)
    ensures Distinct(RemoveAt(s, i))
  {
    var r := RemoveAt(s, i);
    forall a, b | 0 <= a < b < |r| ensures r[a] != r[b] {
      var a' := if a < i then a else a + 1;
      var b' := if b < i then b else b + 1;
      assert r[a] == s[a'] && r[b] == s[b'];
    }
  }

  /** Putting the same element in front keeps different sequences different. */
  lemma PrependDistinct<T>(x: T, ps: seq<seq<T>>)
    requires Distinct(ps)
    ensures Distinct(Prepend(x, ps))
  {
    var r := Prepend(x, ps);
    forall a, b | 0 <= a < b < |r| ensures r[a] != r[b] {
      assert r[a][1..] == ps[a] && r[b][1..] == ps[b];
    }
  }

  /** A sequence without repeats has each of its orderings exactly once. */
  lemma {:induction false} PermsDistinct<T>(s: seq<T>)
    requires Distinct(s)
    ensures Distinct(Perms(s))
    decreases |s|, 1
  {
    if |s| > 0 {
      PermsFromDistinct(s, 0);
    }
  }

  lemma {:induction false} PermsFromDistinct<T>(s: seq<T>, i: nat)
    requires Distinct(s) && i <= |s|
    ensures Distinct(PermsFrom(s, i))
    decreases |s|, 0, |s| - i
  {
    if i < |s| {
      var rest := RemoveAt(s, i);
      RemoveAtDistinct(s, i);
      PermsDistinct(rest);
      var head := Prepend(s[i], Perms(rest));
      PrependDistinct(s[i], Perms(rest));
      var tail := PermsFrom(s, i + 1);
      PermsFromDistinct(s, i + 1);
      PermsFromHeads(s, i + 1);
      forall a, b | 0 <= a < |head| && 0 <= b < |tail| ensures head[a] != tail[b] {
        assert tail[b] in tail;
        var k :| i + 1 <= k < |s| && tail[b][0] == s[k];
        assert head[a][0] == s[i];
      }
      DistinctConcat(head, tail);
      assert PermsFrom(s, i) == head + tail;
    }
  }

  lemma PermsOfOne<T>(a: T)
    ensures Perms([a]) == [[a]]
  {
    var s := [a];
    assert RemoveAt(s, 0) == [];
    assert Perms(RemoveAt(s, 0)) == [[]];
    var head := Prepend(a, Perms(RemoveAt(s, 0)));
    assert [a] + [] == [a];
    assert |head| == 1 && head[0] == [a];
    assert head == [[a]];
    assert PermsFrom(s, 1) == [];
    assert PermsFrom(s, 0) == head + PermsFrom(s, 1);
    assert Perms(s) == PermsFrom(s, 0);
  }

  lemma PermsOfTwo<T>(a: T, b: T)
    ensures Perms([a, b]) == [[a, b], [b, a]]
  {
    var s := [a, b];
    assert RemoveAt(s, 0) == [b] && RemoveAt(s, 1) == [a];
    PermsOfOne(a);
    PermsOfOne(b);
    var h0 := Prepend(a, Perms(RemoveAt(s, 0)));
    var h1 := Prepend(b, Perms(RemoveAt(s, 1)));
    assert [a] + [b] == [a, b] && [b] + [a] == [b, a];
    assert |h0| == 1 && h0[0] == [a, b];
    assert |h1| == 1 && h1[0] == [b, a];
    assert PermsFrom(s, 2) == [];
    assert PermsFrom(s, 1) == h1 + PermsFrom(s, 2);
    assert PermsFrom(s, 0) == h0 + PermsFrom(s, 1);
    assert Perms(s) == PermsFrom(s, 0);
  }

}
