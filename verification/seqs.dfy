/** Facts about sequences shared by the generator's modules: sequences without repeats,
    and increasing lists of positions, which describe an order-keeping selection. */
module Seqs {

  /** No element occurs twice. */
  predicate Distinct<T(==)>(s: seq<T>) {
    forall i, j :: 0 <= i < j < |s| ==> s[i] != s[j]
  }

  /** No element of `a` occurs in `b`. */
  predicate Disjoint<T(==)>(a: seq<T>, b: seq<T>) {
    forall i, j :: 0 <= i < |a| && 0 <= j < |b| ==> a[i] != b[j]
  }

  lemma DistinctConcat<T>(a: seq<T>, b: seq<T>)
    requires Distinct(a) && Distinct(b) && Disjoint(a, b)
    ensures Distinct(a + b)
  {
    forall i, j | 0 <= i < j < |a + b| ensures (a + b)[i] != (a + b)[j] {
      if j < |a| {
      } else if i < |a| {
        assert (a + b)[j] == b[j - |a|];
      } else {
        assert (a + b)[i] == b[i - |a|] && (a + b)[j] == b[j - |a|];
      }
    }
  }

  /** The tail of a sequence without repeats has none, and lacks the head. */
  lemma DistinctTail<T>(s: seq<T>)
    requires |s| > 0 && Distinct(s)
    ensures Distinct(s[1..]) && s[0] !in s[1..]
  {
    forall i, j | 0 <= i < j < |s| - 1 ensures s[1..][i] != s[1..][j] {
      assert s[1..][i] == s[i + 1] && s[1..][j] == s[j + 1];
    }
  }

  /** `idx` lists positions below `n`, strictly increasing. */
  predicate Increasing(idx: seq<int>, n: int) {
    && (forall i :: 0 <= i < |idx| ==> 0 <= idx[i] < n)
    && (forall i, j :: 0 <= i < j < |idx| ==> idx[i] < idx[j])
  }

  /** Every position moved one place to the right. */
  function Shift(idx: seq<int>): (r: seq<int>)
    ensures |r| == |idx|
    ensures forall i :: 0 <= i < |idx| ==> r[i] == idx[i] + 1
  {
    seq(|idx|, i requires 0 <= i < |idx| => idx[i] + 1)
  }

  /** The positions of a sequence's tail, seen from the whole sequence, stay increasing,
      with or without position 0 put in front. */
  lemma ShiftIncreasing(idx: seq<int>, n: nat)
    requires Increasing(idx, n)
    ensures Increasing(Shift(idx), n + 1)
    ensures Increasing([0] + Shift(idx), n + 1)
  {
    var sh := Shift(idx);
    var r := [0] + sh;
    forall i, j | 0 <= i < j < |sh| ensures sh[i] < sh[j] {
      assert idx[i] < idx[j];
    }
    forall i | 0 <= i < |r| ensures 0 <= r[i] < n + 1 {
      if i > 0 {
        assert r[i] == sh[i - 1];
      }
    }
    forall i, j | 0 <= i < j < |r| ensures r[i] < r[j] {
      assert r[j] == sh[j - 1];
      if i > 0 {
        assert r[i] == sh[i - 1];
      }
    }
  }

  /** Position `k` of the whole sequence is selected exactly when position `k - 1` of
      its tail is; position 0 never is. */
  lemma ShiftMembers(idx: seq<int>, n: int)
    requires Increasing(idx, n)
    ensures 0 !in Shift(idx)
    ensures forall k :: 1 <= k <= n ==> (k in Shift(idx) <==> k - 1 in idx)
  {
    var sh := Shift(idx);
    forall k | 1 <= k <= n ensures k in sh <==> k - 1 in idx {
      if k - 1 in idx {
        var i :| 0 <= i < |idx| && idx[i] == k - 1;
        assert sh[i] == k;
      }
    }
  }

  /** `x` alone when `keep`, nothing otherwise: one step of a filter. */
  function Pick<T>(keep: bool, x: T): (r: seq<T>)
    ensures |r| <= 1
    ensures keep <==> r == [x]
    ensures !keep <==> r == []
  {
    if keep then [x] else []
  }

  /** `r` is the order-keeping selection of `vals` at the positions where `keep` holds:
      `idx` lists those positions, increasing, and `r[i]` is the value at `idx[i]`. */
  ghost predicate SelectsAt<T>(idx: seq<int>, keep: seq<bool>, vals: seq<T>, r: seq<T>) {
    && |vals| == |keep|
    && Increasing(idx, |keep|)
    && |idx| == |r|
    && (forall i :: 0 <= i < |idx| ==> r[i] == vals[idx[i]])
    && (forall k :: 0 <= k < |keep| ==> (k in idx <==> keep[k]))
  }

  lemma SelectsNothing<T>(keep: seq<bool>, vals: seq<T>)
    requires |keep| == 0 && |vals| == 0
    ensures SelectsAt([], keep, vals, [])
  {
  }

  /** Filtering one more element in front: it is listed exactly when it is kept, and
      the tail's positions move one place to the right. */
  lemma SelectStep<T>(keep: seq<bool>, vals: seq<T>, rest: seq<T>, r: seq<T>)
    requires |keep| > 0 && |vals| == |keep|
    requires exists idx :: SelectsAt(idx, keep[1..], vals[1..], rest)
    requires r == Pick(keep[0], vals[0]) + rest
    ensures exists idx :: SelectsAt(idx, keep, vals, r)
  {
    var idx' :| SelectsAt(idx', keep[1..], vals[1..], rest);
    var sh := Shift(idx');
    ShiftIncreasing(idx', |keep| - 1);
    ShiftMembers(idx', |keep| - 1);
    SelectShifted(keep, vals, idx', rest);
    if keep[0] {
      SelectKeepFirst(keep, vals, sh, rest, r);
    } else {
      assert r == rest;
      assert SelectsAt(sh, keep, vals, r);
    }
  }

  /** The tail's positions, seen from the whole sequence. */
  lemma SelectShifted<T>(keep: seq<bool>, vals: seq<T>, idx': seq<int>, rest: seq<T>)
    requires |keep| > 0 && |vals| == |keep| && SelectsAt(idx', keep[1..], vals[1..], rest)
    requires forall k :: 1 <= k <= |keep| - 1 ==> (k in Shift(idx') <==> k - 1 in idx')
    ensures forall k :: 1 <= k < |keep| ==> (k in Shift(idx') <==> keep[k])
    ensures forall i :: 0 <= i < |rest| ==> rest[i] == vals[Shift(idx')[i]]
  {
    var sh := Shift(idx');
    forall k | 1 <= k < |keep| ensures (k in sh <==> keep[k]) {
      assert keep[k] == keep[1..][k - 1];
    }
    forall i | 0 <= i < |rest| ensures rest[i] == vals[sh[i]] {
      assert vals[sh[i]] == vals[1..][idx'[i]];
    }
  }

  lemma SelectKeepFirst<T>(keep: seq<bool>, vals: seq<T>, sh: seq<int>, rest: seq<T>, r: seq<T>)
    requires |keep| > 0 && keep[0] && |vals| == |keep| && r == [vals[0]] + rest
    requires Increasing(sh, |keep|) && Increasing([0] + sh, |keep|) && 0 !in sh && |sh| == |rest|
    requires forall k :: 1 <= k < |keep| ==> (k in sh <==> keep[k])
    requires forall i :: 0 <= i < |rest| ==> rest[i] == vals[sh[i]]
    ensures SelectsAt([0] + sh, keep, vals, r)
  {
    var idx := [0] + sh;
    forall i | 0 <= i < |idx| ensures r[i] == vals[idx[i]] {
      if i > 0 {
        assert idx[i] == sh[i - 1] && r[i] == rest[i - 1];
      }
    }
    forall k | 0 <= k < |keep| ensures (k in idx <==> keep[k]) {
      if k > 0 {
        assert k in idx <==> k in sh;
      }
    }
  }
}
