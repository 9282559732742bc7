/**
 * The enumeration order of Python's `itertools.product(l0, ..., ln)`: tuples
 * of indices into the lists, in lexicographic order, the last list varying
 * fastest. Position i of the enumeration is i written in the mixed radix
 * whose digits are the list lengths.
 */
module CartesianProduct {

  /** How many tuples the product yields: the product of the list lengths. */
  function Count(radices: seq<nat>): nat
    decreases |radices|
  {
    if radices == [] then 1
    else Count(radices[..|radices| - 1]) * radices[|radices| - 1]
  }

  /** `t` picks one valid index from each list. */
  predicate InRange(t: seq<nat>, radices: seq<nat>) {
    |t| == |radices| && forall k :: 0 <= k < |t| ==> t[k] < radices[k]
  }

  /** `t` comes strictly before `u` in lexicographic order. */
  predicate LexLess(t: seq<nat>, u: seq<nat>) {
    exists k :: 0 <= k < |t| && k < |u| && t[..k] == u[..k] && t[k] < u[k]
  }

  // ---------------------------------------------------------------------------
  // Division facts used below

  lemma {:induction false} MulMonotone(x: nat, y: nat, b: nat)
    requires x <= y
    ensures x * b <= y * b
    decreases y - x
  {
    if x < y {
      MulMonotone(x, y - 1, b);
      assert y * b == (y - 1) * b + b;
    }
  }

  lemma MulLessCancel(x: nat, y: nat, b: nat)
    requires x * b < y * b
    ensures x < y
  {
    if y <= x {
      MulMonotone(y, x, b);
    }
  }

  /** Euclidean division of q * b + d by b, for a digit d < b, gives back q and d. */
  lemma DivModOfDigit(q: nat, d: nat, b: nat)
    requires d < b
    ensures (q * b + d) / b == q && (q * b + d) % b == d
  {
    var n := q * b + d;
    var q' := n / b;
    assert q' * b <= n;
    assert n < (q + 1) * b by { assert (q + 1) * b == q * b + b; }
    MulLessCancel(q', q + 1, b);
    assert n < (q' + 1) * b by { assert (q' + 1) * b == q' * b + b; }
    MulLessCancel(q, q' + 1, b);
  }

  /** Euclidean division of i by b recombines to i. */
  lemma QuotientRemainder(i: nat, b: nat)
    requires b > 0
    ensures (i / b) * b + i % b == i
  {
  }

  /** An index below p * b has a quotient below p. */
  lemma QuotientBelow(i: nat, p: nat, b: nat)
    requires i < p * b
    ensures b > 0 && i / b < p
  {
    assert (i / b) * b <= i;
    MulLessCancel(i / b, p, b);
  }

  /** A quotient below p and a digit below b recombine to an index below p * b. */
  lemma CombineBelow(q: nat, d: nat, p: nat, b: nat)
    requires q < p && d < b
    ensures q * b + d < p * b
  {
    MulMonotone(q + 1, p, b);
    assert (q + 1) * b == q * b + b;
  }

  /** Among i < j, the quotients by b are ordered, and equal quotients leave the remainders ordered. */
  lemma QuotientOrder(i: nat, j: nat, b: nat)
    requires i < j && b > 0
    ensures i / b <= j / b
    ensures i / b == j / b ==> i % b < j % b
  {
    var qi, qj := i / b, j / b;
    assert qi * b <= i;
    assert j < (qj + 1) * b by { assert (qj + 1) * b == qj * b + b; }
    MulLessCancel(qi, qj + 1, b);
  }

  // ---------------------------------------------------------------------------
  // Decoding and encoding positions

  /** The index tuple at position i of the enumeration. */
  function TupleAt(i: nat, radices: seq<nat>): (t: seq<nat>)
    requires i < Count(radices)
    ensures InRange(t, radices)
    decreases |radices|
  {
    if radices == [] then []
    else
      var n := |radices| - 1;
      QuotientBelow(i, Count(radices[..n]), radices[n]);
      TupleAt(i / radices[n], radices[..n]) + [i % radices[n]]
  }

  /** The last index of the tuple at position i is i's remainder by the last radix. */
  lemma TupleAtLast(i: nat, radices: seq<nat>)
    requires radices != [] && i < Count(radices)
    ensures var n := |radices| - 1;
      radices[n] > 0 && i / radices[n] < Count(radices[..n]) &&
      TupleAt(i, radices) == TupleAt(i / radices[n], radices[..n]) + [i % radices[n]]
  {
    QuotientBelow(i, Count(radices[..|radices| - 1]), radices[|radices| - 1]);
  }

  /** The position of an index tuple in the enumeration. */
  function Position(t: seq<nat>, radices: seq<nat>): (i: nat)
    requires InRange(t, radices)
    ensures i < Count(radices)
    decreases |radices|
  {
    if radices == [] then 0
    else
      var n := |radices| - 1;
      var q := Position(t[..n], radices[..n]);
      CombineBelow(q, t[n], Count(radices[..n]), radices[n]);
      q * radices[n] + t[n]
  }

  /** Decoding then encoding a position gives it back. */
  lemma {:induction false} PositionOfTupleAt(i: nat, radices: seq<nat>)
    requires i < Count(radices)
    ensures Position(TupleAt(i, radices), radices) == i
    decreases |radices|
  {
    if radices != [] {
      var n := |radices| - 1;
      var b := radices[n];
      QuotientBelow(i, Count(radices[..n]), b);
      PositionOfTupleAt(i / b, radices[..n]);
      var q, d := i / b, i % b;
      var pre := TupleAt(q, radices[..n]);
      var t := TupleAt(i, radices);
      assert t == pre + [d];
      assert t[..n] == pre && t[n] == d;
      assert Position(t, radices) == q * b + d;
      QuotientRemainder(i, b);
    }
  }

  /** Encoding then decoding a tuple gives it back: every tuple occurs exactly once. */
  lemma {:induction false} TupleAtOfPosition(t: seq<nat>, radices: seq<nat>)
    requires InRange(t, radices)
    ensures TupleAt(Position(t, radices), radices) == t
    decreases |radices|
  {
    if radices != [] {
      var n := |radices| - 1;
      var b := radices[n];
      var q := Position(t[..n], radices[..n]);
      TupleAtOfPosition(t[..n], radices[..n]);
      DivModOfDigit(q, t[n], b);
      assert t == t[..n] + [t[n]];
    }
  }

  lemma LexLessExtend(tp: seq<nat>, up: seq<nat>, x: nat, y: nat)
    requires LexLess(tp, up)
    ensures LexLess(tp + [x], up + [y])
  {
    var k :| 0 <= k < |tp| && k < |up| && tp[..k] == up[..k] && tp[k] < up[k];
    assert (tp + [x])[..k] == tp[..k] && (up + [y])[..k] == up[..k];
    assert (tp + [x])[k] == tp[k] && (up + [y])[k] == up[k];
  }

  lemma LexLessLast(p: seq<nat>, x: nat, y: nat)
    requires x < y
    ensures LexLess(p + [x], p + [y])
  {
    assert (p + [x])[..|p|] == p == (p + [y])[..|p|];
  }

  /** Later positions hold lexicographically later tuples: the last list varies fastest. */
  lemma {:induction false} EnumerationOrder(i: nat, j: nat, radices: seq<nat>)
    requires i < j < Count(radices)
    ensures LexLess(TupleAt(i, radices), TupleAt(j, radices))
    decreases |radices|
  {
    var n := |radices| - 1;
    var b := radices[n];
    QuotientBelow(j, Count(radices[..n]), b);
    QuotientOrder(i, j, b);
    var qi, di, qj, dj := i / b, i % b, j / b, j % b;
    var tp, up := TupleAt(qi, radices[..n]), TupleAt(qj, radices[..n]);
    TupleAtLast(i, radices);
    TupleAtLast(j, radices);
    if qi == qj {
      LexLessLast(tp, di, dj);
    } else {
      EnumerationOrder(qi, qj, radices[..n]);
      LexLessExtend(tp, up, di, dj);
    }
  }

  /** The product is empty exactly when one of the lists is. */
  lemma {:induction false} CountZero(radices: seq<nat>)
    ensures Count(radices) == 0 <==> exists k :: 0 <= k < |radices| && radices[k] == 0
    decreases |radices|
  {
    if radices != [] {
      var n := |radices| - 1;
      CountZero(radices[..n]);
      if Count(radices[..n]) == 0 {
        var k :| 0 <= k < n && radices[..n][k] == 0;
        assert radices[k] == 0;
      }
      if exists k :: 0 <= k < |radices| && radices[k] == 0 {
        var k :| 0 <= k < |radices| && radices[k] == 0;
        if k < n {
          assert radices[..n][k] == 0;
        }
      }
    }
  }
}
