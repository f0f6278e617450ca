/** The helper of utils/print-introspected-doxygen.cc that is meant to leave only the unique items of a
    container, and the orders it sorts by. */
module Containers {
  import opened Sequences

  ghost predicate IsTotalOrder<T(!new)>(leq: (T, T) -> bool) {
    && (forall a, b :: leq(a, b) || leq(b, a))
    && (forall a, b :: leq(a, b) && leq(b, a) ==> a == b)
    && (forall a, b, c :: leq(a, b) && leq(b, c) ==> leq(a, c))
  }

  ghost predicate IsSorted<T>(leq: (T, T) -> bool, s: seq<T>) {
    forall i, j :: 0 <= i < j < |s| ==> leq(s[i], s[j])
  }

  /** std::sort, here by insertion. */
  method Sort<T(!new)>(t: seq<T>, leq: (T, T) -> bool) returns (sorted: seq<T>)
    requires IsTotalOrder(leq)
    ensures IsSorted(leq, sorted) && multiset(sorted) == multiset(t)
  {
    sorted := [];
    for i := 0 to |t|
      invariant IsSorted(leq, sorted) && multiset(sorted) == multiset(t[..i])
    {
      assert t[..i + 1] == t[..i] + [t[i]];
      sorted := Insert(sorted, t[i], leq);
    }
    assert t[..|t|] == t;
  }

  method Insert<T(!new)>(s: seq<T>, x: T, leq: (T, T) -> bool) returns (r: seq<T>)
    requires IsTotalOrder(leq) && IsSorted(leq, s)
    ensures IsSorted(leq, r) && multiset(r) == multiset(s) + multiset{x}
  {
    var n := 0;
    while n < |s| && leq(s[n], x)
      invariant 0 <= n <= |s|
      invariant forall i :: 0 <= i < n ==> leq(s[i], x)
    {
      n := n + 1;
    }
    assert s == s[..n] + s[n..];
    assert forall i :: n <= i < |s| ==> leq(x, s[i]);
    r := s[..n] + [x] + s[n..];
  }

  /** std::unique followed by erase: each run of equal items shrinks to one. */
  method Unique<T(==)>(s: seq<T>, leq: (T, T) -> bool) returns (r: seq<T>)
    requires IsSorted(leq, s)
    requires forall i, j :: 0 <= i < |s| && 0 <= j < |s| && leq(s[i], s[j]) && leq(s[j], s[i]) ==> s[i] == s[j]
    ensures IsSorted(leq, r) && NoDuplicates(r) && forall x :: x in r <==> x in s
  {
    r := [];
    for i := 0 to |s|
      invariant IsSorted(leq, r) && NoDuplicates(r)
      invariant forall x :: x in r <==> x in s[..i]
      invariant i > 0 ==> r != [] && r[|r| - 1] == s[i - 1]
    {
      assert s[..i + 1] == s[..i] + [s[i]];
      if i == 0 || s[i] != s[i - 1] {
        forall k | 0 <= k < |r| ensures leq(r[k], s[i]) && r[k] != s[i] {
          assert r[k] in s[..i];
          var m :| 0 <= m < i && s[m] == r[k];
          assert leq(s[m], s[i - 1]) || m == i - 1;
        }
        r := r + [s[i]];
      }
    }
    assert s[..|s|] == s;
  }

  /** Sorts its argument and removes repetitions. The argument is a copy of the caller's container; the
      result here is what becomes of that copy, which no caller sees. */
  method Uniquefy<T(==, !new)>(t: seq<T>, leq: (T, T) -> bool) returns (copy: seq<T>)
    requires IsTotalOrder(leq)
    ensures IsSorted(leq, copy) && NoDuplicates(copy) && forall x :: x in copy <==> x in t
  {
    copy := Sort(t, leq);
    ghost var sorted := copy;
    copy := Unique(copy, leq);
    forall x ensures x in sorted <==> x in t {
      assert x in sorted <==> x in multiset(sorted);
      assert x in t <==> x in multiset(t);
    }
  }

  // ---- The orders ----

  /** operator< of std::string, made reflexive. */
  predicate StringLeq(a: string, b: string) {
    a == [] || (b != [] && (a[0] < b[0] || (a[0] == b[0] && StringLeq(a[1..], b[1..]))))
  }

  lemma {:induction false} StringTotal(a: string, b: string)
    ensures StringLeq(a, b) || StringLeq(b, a)
    ensures StringLeq(a, b) && StringLeq(b, a) ==> a == b
    decreases |a|
  {
    if a == [] || b == [] {
    } else {
      StringTotal(a[1..], b[1..]);
      assert a == [a[0]] + a[1..] && b == [b[0]] + b[1..];
    }
  }

  lemma {:induction false} StringTransitive(a: string, b: string, c: string)
    requires StringLeq(a, b) && StringLeq(b, c)
    ensures StringLeq(a, c)
    decreases |a|
  {
    if a == [] {
    } else if a[0] == b[0] == c[0] {
      StringTransitive(a[1..], b[1..], c[1..]);
    }
  }

  lemma StringOrder()
    ensures IsTotalOrder(StringLeq)
  {
    forall a, b
      ensures StringLeq(a, b) || StringLeq(b, a)
      ensures StringLeq(a, b) && StringLeq(b, a) ==> a == b
    {
      StringTotal(a, b);
    }
    forall a, b, c | StringLeq(a, b) && StringLeq(b, c) ensures StringLeq(a, c) {
      StringTransitive(a, b, c);
    }
  }

  /** operator< of a pair of a number and a string, made reflexive. */
  predicate PairLeq(a: (nat, string), b: (nat, string)) {
    a.0 < b.0 || (a.0 == b.0 && StringLeq(a.1, b.1))
  }

  lemma PairOrder()
    ensures IsTotalOrder(PairLeq)
  {
    StringOrder();
    forall a: (nat, string), b: (nat, string)
      ensures PairLeq(a, b) || PairLeq(b, a)
      ensures PairLeq(a, b) && PairLeq(b, a) ==> a == b
    {
      StringTotal(a.1, b.1);
    }
    forall a: (nat, string), b: (nat, string), c: (nat, string) | PairLeq(a, b) && PairLeq(b, c)
      ensures PairLeq(a, c)
    {
      if a.0 == b.0 == c.0 {
        StringTransitive(a.1, b.1, c.1);
      }
    }
  }
}
