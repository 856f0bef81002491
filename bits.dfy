/** BT's encoding of a column set as a vector of bits read as a number, most significant bit
    first: position 0 is the highest bit. The source holds the number in a `long long`; here it
    is unbounded. */
module Bits {
  import opened Matrices

  function Pow2(n: nat): (r: nat)
    ensures r >= 1
  {
    if n == 0 then 1 else 2 * Pow2(n - 1)
  }

  /** The fold `val = (val << 1) | b[i]` over i = 0 .. |b|-1. */
  function Value(b: Row): nat {
    if b == [] then 0 else 2 * Value(b[..|b| - 1]) + b[|b| - 1]
  }

  /** The unfold that writes `v & 1` into positions n-1 down to 0, shifting v right each time. */
  function FromValue(v: nat, n: nat): (b: Row)
    ensures |b| == n
  {
    if n == 0 then [] else FromValue(v / 2, n - 1) + [v % 2]
  }

  /** A vector of n bits has a value below 2^n. */
  lemma {:induction false} ValueBound(b: Row)
    ensures Value(b) < Pow2(|b|)
  {
    if b != [] {
      ValueBound(b[..|b| - 1]);
    }
  }

  /** Unfolding a value below 2^n into n bits and folding it back gives the value. */
  lemma {:induction false} ValueFromValue(v: nat, n: nat)
    requires v < Pow2(n)
    ensures Value(FromValue(v, n)) == v
  {
    if n > 0 {
      ValueFromValue(v / 2, n - 1);
      var b := FromValue(v, n);
      assert b[..n - 1] == FromValue(v / 2, n - 1);
    }
  }

  /** Folding a vector and unfolding its value into as many bits gives the vector. */
  lemma {:induction false} FromValueValue(b: Row)
    ensures FromValue(Value(b), |b|) == b
  {
    if b != [] {
      var init := b[..|b| - 1];
      FromValueValue(init);
      assert Value(b) / 2 == Value(init) && Value(b) % 2 == b[|b| - 1];
      assert b == init + [b[|b| - 1]];
    }
  }

  /** Two vectors of one length with one value are equal. */
  lemma ValueInjective(a: Row, b: Row)
    requires |a| == |b| && Value(a) == Value(b)
    ensures a == b
  {
    FromValueValue(a);
    FromValueValue(b);
  }

  /** The value of a vector opening with bit x. */
  lemma {:induction false} ValueLeading(x: Bit, q: Row)
    ensures x == 0 ==> Value([x] + q) == Value(q)
    ensures x == 1 ==> Value([x] + q) == Pow2(|q|) + Value(q)
  {
    if q != [] {
      var init := q[..|q| - 1];
      ValueLeading(x, init);
      assert ([x] + q)[..|q|] == [x] + init;
    }
  }

  /** Appending q to p adds Value(q) to the value of p followed by as many zeros. */
  lemma {:induction false} ValueAppend(p: Row, q: Row)
    ensures Value(p + q) == Value(p + Zeros(|q|)) + Value(q)
  {
    if q == [] {
      assert p + q == p + Zeros(0);
    } else {
      var init := q[..|q| - 1];
      ValueAppend(p, init);
      assert (p + q)[..|p + q| - 1] == p + init;
      assert (p + Zeros(|q|))[..|p| + |q| - 1] == p + Zeros(|init|);
    }
  }

  /** Splitting a vector at position k splits its value. */
  lemma ValueSplit(b: Row, k: nat, p: Row)
    requires k <= |b| && b[..k] == p
    ensures Value(b) == Value(p + Zeros(|b| - k)) + Value(b[k..])
  {
    assert p + b[k..] == b;
    ValueAppend(p, b[k..]);
  }

  lemma {:induction false} ZerosValue(n: nat)
    ensures Value(Zeros(n)) == 0
  {
    if n > 0 {
      ZerosValue(n - 1);
      assert Zeros(n)[..n - 1] == Zeros(n - 1);
    }
  }

  /** A vector with every bit zero has value 0. */
  lemma ZeroVectorValue(b: Row)
    requires forall j :: 0 <= j < |b| ==> b[j] == 0
    ensures Value(b) == 0
  {
    assert b == Zeros(|b|);
    ZerosValue(|b|);
  }

  /** A vector ending in m zeros has a value at least 2^m below the bound of its length. */
  lemma {:induction false} ZerosTailBound(p: Row, m: nat)
    ensures Value(p + Zeros(m)) + Pow2(m) <= Pow2(|p| + m)
  {
    if p == [] {
      assert p + Zeros(m) == Zeros(m);
      ZerosValue(m);
    } else {
      var q := p[1..] + Zeros(m);
      ZerosTailBound(p[1..], m);
      assert p + Zeros(m) == [p[0]] + q;
      ValueLeading(p[0], q);
      assert Pow2(|p| + m) == 2 * Pow2(|q|);
    }
  }

  /** A vector whose bits from position k on are all 0 has the value of its first k bits padded
      with zeros. */
  lemma ZeroTailValue(b: Row, k: nat, p: Row)
    requires k <= |b| && p == b[..k]
    requires forall j :: k <= j < |b| ==> b[j] == 0
    ensures |p| == k && Value(p + Zeros(|b| - |p|)) == Value(b)
  {
    ZeroTailShape(b, k, p);
  }

  /** The same fact on the vectors themselves. */
  lemma ZeroTailShape(b: Row, k: nat, p: Row)
    requires k <= |b| && p == b[..k]
    requires forall j :: k <= j < |b| ==> b[j] == 0
    ensures b == p + Zeros(|b| - k)
  {
  }

  /** The arithmetic of PrefixRange's step: two numbers opening with bits x0 and p0 of weight big,
      the first within w of the second, open with the same bit. */
  lemma LeadingBitsAgree(x0: Bit, p0: Bit, a: nat, c: nat, w: nat, big: nat)
    requires a < big && c + w <= big
    requires (if p0 == 1 then big else 0) + c <= (if x0 == 1 then big else 0) + a
    requires (if x0 == 1 then big else 0) + a < (if p0 == 1 then big else 0) + c + w
    ensures x0 == p0 && c <= a < c + w
  {
  }

  /** A vector whose value lies in the range of values of the vectors opening with p opens with p. */
  lemma {:induction false} PrefixRange(x: Row, p: Row)
    requires |p| <= |x|
    requires Value(p + Zeros(|x| - |p|)) <= Value(x) < Value(p + Zeros(|x| - |p|)) + Pow2(|x| - |p|)
    ensures x[..|p|] == p
  {
    if p != [] {
      var m, q, xt := |x| - |p|, p[1..], x[1..];
      var pt := q + Zeros(m);
      PrefixShape(x, p, m, xt, pt);
      assert |xt| - |q| == m;
      var big := Pow2(|xt|);
      assert Value(x) == (if x[0] == 1 then big else 0) + Value(xt) by {
        ValueLeading(x[0], xt);
      }
      assert Value(p + Zeros(m)) == (if p[0] == 1 then big else 0) + Value(pt) by {
        ValueLeading(p[0], pt);
      }
      assert Value(pt) + Pow2(m) <= big by {
        ZerosTailBound(q, m);
      }
      assert Value(xt) < big by {
        ValueBound(xt);
      }
      LeadingBitsAgree(x[0], p[0], Value(xt), Value(pt), Pow2(m), big);
      PrefixRange(xt, q);
    }
  }

  /** The shapes PrefixRange's step works on: x and the padded p split after their first bit, and
      x opens with p once its first bit and its tail do. */
  lemma PrefixShape(x: Row, p: Row, m: nat, xt: Row, pt: Row)
    requires 0 < |p| <= |x| && m == |x| - |p| && xt == x[1..] && pt == p[1..] + Zeros(m)
    ensures x == [x[0]] + xt && p + Zeros(m) == [p[0]] + pt && |pt| == |xt|
    ensures x[0] == p[0] && xt[..|p| - 1] == p[1..] ==> x[..|p|] == p
  {
    assert x == [x[0]] + xt;
    assert p + Zeros(m) == [p[0]] + pt;
    if x[0] == p[0] && xt[..|p| - 1] == p[1..] {
      assert x[..|p|] == [x[0]] + xt[..|p| - 1];
      assert p == [p[0]] + p[1..];
    }
  }

  /** The fold, as BT's loop computes it. */
  method ValueOf(b: Row) returns (val: nat)
    ensures val == Value(b)
  {
    val := 0;
    for i := 0 to |b|
      invariant val == Value(b[..i])
    {
      assert b[..i + 1][..i] == b[..i];
      val := 2 * val + b[i];
    }
    assert b[..|b|] == b;
  }

  /** Writing the low bit of w in front of tail and unfolding the rest of w gives the unfold of w
      in front of tail. */
  lemma UnfoldStep(w: nat, i: nat, tail: Row)
    requires i > 0
    ensures FromValue(w / 2, i - 1) + ([w % 2] + tail) == FromValue(w, i) + tail
  {
    assert FromValue(w, i) == FromValue(w / 2, i - 1) + [w % 2];
  }

  /** The unfold, as BT's loops write it into a fresh vector of n bits. */
  method Unfold(v: nat, n: nat) returns (next: Row)
    ensures next == FromValue(v, n)
  {
    var a := new Bit[n](_ => 0);
    var w := v;
    var i := n;
    while i > 0
      invariant 0 <= i <= n
      invariant FromValue(w, i) + a[i..] == FromValue(v, n)
    {
      ghost var tail := a[i..];
      UnfoldStep(w, i, tail);
      a[i - 1] := w % 2;
      assert a[i - 1..] == [w % 2] + tail;
      w := w / 2;
      i := i - 1;
    }
    assert FromValue(w, 0) == [];
    next := a[..];
    assert a[0..] == a[..];
  }
}
