/** First-occurrence deduplication and order-preserving subsequences, shared by the row
    reduction (duplicate rows) and by YYC (duplicate candidate sets). */
module Sequences {

  predicate NoDuplicates<T(==)>(s: seq<T>) {
    forall i, j :: 0 <= i < j < |s| ==> s[i] != s[j]
  }

  /** Keeps s[i] exactly when it does not occur in s[..i]. */
  function Dedup<T(==)>(s: seq<T>): seq<T>
  {
    if s == [] then []
    else if s[|s| - 1] in s[..|s| - 1] then Dedup(s[..|s| - 1])
    else Dedup(s[..|s| - 1]) + [s[|s| - 1]]
  }

  /** Position of the first occurrence of x in s. */
  function FirstIndex<T(==)>(s: seq<T>, x: T): (i: nat)
    requires x in s
    ensures i < |s| && s[i] == x && x !in s[..i]
  {
    if s[0] == x then 0 else 1 + FirstIndex(s[1..], x)
  }

  /** a can be obtained from b by deleting elements, keeping the order of the rest. */
  predicate IsSubsequence<T(==)>(a: seq<T>, b: seq<T>)
    decreases |b|
  {
    if a == [] then true
    else if b == [] then false
    else if a[|a| - 1] == b[|b| - 1] then IsSubsequence(a[..|a| - 1], b[..|b| - 1])
    else IsSubsequence(a, b[..|b| - 1])
  }

  lemma {:induction false} DedupElements<T>(s: seq<T>)
    ensures forall x :: x in Dedup(s) ==> x in s
    ensures forall x :: x in s ==> x in Dedup(s)
  {
    if s != [] {
      DedupElements(s[..|s| - 1]);
      assert s == s[..|s| - 1] + [s[|s| - 1]];
    }
  }

  lemma {:induction false} DedupNoDuplicates<T>(s: seq<T>)
    ensures NoDuplicates(Dedup(s))
  {
    if s != [] {
      DedupNoDuplicates(s[..|s| - 1]);
      DedupElements(s[..|s| - 1]);
    }
  }

  lemma {:induction false} DedupSubsequence<T>(s: seq<T>)
    ensures IsSubsequence(Dedup(s), s)
  {
    if s != [] {
      var init, x := s[..|s| - 1], s[|s| - 1];
      DedupSubsequence(init);
      if x in init {
        SubsequenceExtend(Dedup(init), init, x);
      } else {
        var d := Dedup(init) + [x];
        assert d[..|d| - 1] == Dedup(init);
        assert s[..|s| - 1] == init;
      }
    }
  }

  lemma {:induction false} SubsequenceExtend<T>(a: seq<T>, b: seq<T>, x: T)
    requires IsSubsequence(a, b)
    ensures IsSubsequence(a, b + [x])
    decreases |b|, 1
  {
    var bx := b + [x];
    assert bx[..|bx| - 1] == b;
    if a != [] && a[|a| - 1] == x {
      SubsequenceDropLast(a, b);
    }
  }

  lemma {:induction false} SubsequenceDropLast<T>(a: seq<T>, b: seq<T>)
    requires a != [] && IsSubsequence(a, b)
    ensures IsSubsequence(a[..|a| - 1], b)
    decreases |b|, 0
  {
    var init := a[..|a| - 1];
    if a[|a| - 1] == b[|b| - 1] {
      if init != [] {
        SubsequenceExtend(init, b[..|b| - 1], b[|b| - 1]);
        assert b[..|b| - 1] + [b[|b| - 1]] == b;
      }
    } else {
      SubsequenceDropLast(a, b[..|b| - 1]);
      if init != [] {
        SubsequenceExtend(init, b[..|b| - 1], b[|b| - 1]);
        assert b[..|b| - 1] + [b[|b| - 1]] == b;
      }
    }
  }

  lemma {:induction false} SubsequenceElements<T>(a: seq<T>, b: seq<T>)
    requires IsSubsequence(a, b)
    ensures forall x :: x in a ==> x in b
    decreases |b|
  {
    if a != [] {
      var binit := b[..|b| - 1];
      assert b == binit + [b[|b| - 1]];
      if a[|a| - 1] == b[|b| - 1] {
        SubsequenceElements(a[..|a| - 1], binit);
        assert a == a[..|a| - 1] + [a[|a| - 1]];
      } else {
        SubsequenceElements(a, binit);
      }
    }
  }

  /** Distinct elements of s come out of Dedup in the order of their first occurrences in s. */
  lemma {:induction false} DedupFirstOccurrenceOrder<T>(s: seq<T>)
    ensures forall a, b :: 0 <= a < b < |Dedup(s)| ==>
      Dedup(s)[a] in s && Dedup(s)[b] in s &&
      FirstIndex(s, Dedup(s)[a]) < FirstIndex(s, Dedup(s)[b])
  {
    if s != [] {
      var init, x := s[..|s| - 1], s[|s| - 1];
      var d, e := Dedup(init), Dedup(s);
      DedupFirstOccurrenceOrder(init);
      DedupElements(init);
      forall y | y in init ensures y in s && FirstIndex(s, y) == FirstIndex(init, y) {
        FirstIndexPrefix(init, s, y);
      }
      assert e == if x in init then d else d + [x];
      if x !in init {
        assert s[..|init|] == init;
        FirstIndexUnique(s, x, |init|);
      }
      forall a, b | 0 <= a < b < |Dedup(s)|
        ensures Dedup(s)[a] in s && Dedup(s)[b] in s &&
          FirstIndex(s, Dedup(s)[a]) < FirstIndex(s, Dedup(s)[b])
      {
        assert a < |d| && e[a] == d[a] && d[a] in d;
        assert d[a] in init;
        if b < |d| {
          assert e[b] == d[b] && d[b] in d;
          assert d[b] in init;
        } else {
          assert e[b] == x && x !in init;
        }
      }
    } else {
      assert Dedup(s) == [];
    }
  }

  /** The first occurrence is the only position holding x with no x before it. */
  lemma {:induction false} FirstIndexUnique<T>(s: seq<T>, x: T, i: nat)
    requires i < |s| && s[i] == x && x !in s[..i]
    ensures FirstIndex(s, x) == i
  {
    if i > 0 {
      assert s[0] in s[..i];
      assert s[1..][..i - 1] == s[1..i];
      FirstIndexUnique(s[1..], x, i - 1);
    }
  }

  lemma {:induction false} FirstIndexPrefix<T>(p: seq<T>, s: seq<T>, y: T)
    requires p <= s && y in p
    ensures y in s && FirstIndex(s, y) == FirstIndex(p, y)
  {
    var i := FirstIndex(p, y);
    assert s[..i] == p[..i];
    FirstIndexUnique(s, y, i);
  }

  /** On a sequence without duplicates, Dedup changes nothing. */
  lemma {:induction false} DedupOfDistinct<T>(s: seq<T>)
    requires NoDuplicates(s)
    ensures Dedup(s) == s
  {
    if s != [] {
      var init := s[..|s| - 1];
      DedupOfDistinct(init);
      assert s == init + [s[|s| - 1]];
    }
  }

  /** The loop of FINALCODE/finalcode.cpp:246-254: a set of already seen values guards the
      push_back onto the output. */
  method DedupWithSeenSet<T(==)>(s: seq<T>) returns (out: seq<T>)
    ensures out == Dedup(s)
  {
    var seen: set<T> := {};
    out := [];
    for i := 0 to |s|
      invariant out == Dedup(s[..i])
      invariant forall x :: x in seen <==> x in s[..i]
    {
      assert s[..i + 1][..i] == s[..i];
      assert s[..i + 1] == s[..i] + [s[i]];
      if s[i] !in seen {
        seen := seen + {s[i]};
        out := out + [s[i]];
      }
    }
    assert s[..|s|] == s;
  }

  /** The loop of ejercicio2.cpp:120-125: a linear `find` over the output built so far. */
  method DedupWithLinearFind<T(==)>(s: seq<T>) returns (out: seq<T>)
    ensures out == Dedup(s)
  {
    out := [];
    for i := 0 to |s|
      invariant out == Dedup(s[..i])
    {
      assert s[..i + 1][..i] == s[..i];
      DedupElements(s[..i]);
      var k := 0;
      while k < |out| && out[k] != s[i]
        invariant 0 <= k <= |out|
        invariant forall m :: 0 <= m < k ==> out[m] != s[i]
      {
        k := k + 1;
      }
      if k == |out| {
        out := out + [s[i]];
      }
    }
    assert s[..|s|] == s;
  }
}
