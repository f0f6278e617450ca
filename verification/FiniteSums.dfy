/** Sums over finite sets, and counting a list by classes. */
module FiniteSums {

  ghost function SumOver<K(!new)>(s: set<K>, f: K -> nat): nat {
    if s == {} then 0
    else
      var x :| x in s;
      f(x) + SumOver(s - {x}, f)
  }

  lemma {:induction false} SumRemove<K(!new)>(s: set<K>, f: K -> nat, x: K)
    requires x in s
    ensures SumOver(s, f) == f(x) + SumOver(s - {x}, f)
    decreases s
  {
    var y :| y in s && SumOver(s, f) == f(y) + SumOver(s - {y}, f);
    if y == x {
    } else {
      SumRemove(s - {y}, f, x);
      SumRemove(s - {x}, f, y);
      assert s - {y} - {x} == s - {x} - {y};
    }
  }

  lemma {:induction false} SumSame<K(!new)>(s: set<K>, f: K -> nat, g: K -> nat)
    requires forall x :: x in s ==> f(x) == g(x)
    ensures SumOver(s, f) == SumOver(s, g)
    decreases s
  {
    if s == {} {
    } else {
      var x :| x in s;
      SumRemove(s, f, x);
      SumRemove(s, g, x);
      SumSame(s - {x}, f, g);
    }
  }

  lemma Residue(a: nat, modulus: nat)
    requires modulus > 0
    ensures a % modulus <= a && (a % modulus == a <==> a < modulus)
  {
    if a >= modulus {
      assert a % modulus < modulus;
    }
  }

  /** The residues add up to the true sum exactly when nothing was reduced. */
  lemma {:induction false} SumOfResidues<K(!new)>(s: set<K>, f: K -> nat, g: K -> nat, modulus: nat)
    requires modulus > 0 && forall x :: x in s ==> g(x) == f(x) % modulus
    ensures SumOver(s, g) <= SumOver(s, f)
    ensures SumOver(s, g) == SumOver(s, f) <==> forall x :: x in s ==> f(x) < modulus
    decreases s
  {
    if s == {} {
    } else {
      var x :| x in s;
      SumRemove(s, f, x);
      SumRemove(s, g, x);
      SumOfResidues(s - {x}, f, g, modulus);
      Residue(f(x), modulus);
      assert s == (s - {x}) + {x};
    }
  }

  // ---- Sums of reals ----

  ghost function RealSumOver<K(!new)>(s: set<K>, f: K -> real): real {
    if s == {} then 0.0
    else
      var x :| x in s;
      f(x) + RealSumOver(s - {x}, f)
  }

  lemma {:induction false} RealSumRemove<K(!new)>(s: set<K>, f: K -> real, x: K)
    requires x in s
    ensures RealSumOver(s, f) == f(x) + RealSumOver(s - {x}, f)
    decreases s
  {
    var y :| y in s && RealSumOver(s, f) == f(y) + RealSumOver(s - {y}, f);
    if y == x {
    } else {
      RealSumRemove(s - {y}, f, x);
      RealSumRemove(s - {x}, f, y);
      assert s - {y} - {x} == s - {x} - {y};
    }
  }

  lemma {:induction false} RealSumSame<K(!new)>(s: set<K>, f: K -> real, g: K -> real)
    requires forall x :: x in s ==> f(x) == g(x)
    ensures RealSumOver(s, f) == RealSumOver(s, g)
    decreases s
  {
    if s == {} {
    } else {
      var x :| x in s;
      RealSumRemove(s, f, x);
      RealSumRemove(s, g, x);
      RealSumSame(s - {x}, f, g);
    }
  }

  lemma {:induction false} RealSumConstant<K(!new)>(s: set<K>, f: K -> real, x: real)
    requires forall k :: k in s ==> f(k) == x
    ensures RealSumOver(s, f) == |s| as real * x
    decreases s
  {
    if s == {} {
    } else {
      var k :| k in s;
      RealSumRemove(s, f, k);
      RealSumConstant(s - {k}, f, x);
      OneMoreTime(|s - {k}|, x);
    }
  }

  lemma OneMoreTime(n: nat, x: real)
    ensures (n + 1) as real * x == n as real * x + x
  {
  }

  /** A sum of terms that are not positive is zero exactly when all terms are. */
  lemma {:induction false} RealSumSign<K(!new)>(s: set<K>, f: K -> real)
    requires forall x :: x in s ==> f(x) <= 0.0
    ensures RealSumOver(s, f) <= 0.0
    ensures RealSumOver(s, f) == 0.0 <==> forall x :: x in s ==> f(x) == 0.0
    decreases s
  {
    if s == {} {
    } else {
      var x :| x in s;
      var rest := s - {x};
      RealSumRemove(s, f, x);
      RealSumSign(rest, f);
      assert (forall y :: y in s ==> f(y) == 0.0) <==> f(x) == 0.0 && forall y :: y in rest ==> f(y) == 0.0;
    }
  }

  // ---- Counting a list by classes ----

  /** The total weight of the items in class k. */
  ghost function Weigh<R, K>(items: seq<R>, classOf: R -> K, weight: R -> nat, k: K): nat {
    if items == [] then 0
    else
      var last := items[|items| - 1];
      Weigh(items[..|items| - 1], classOf, weight, k) + if classOf(last) == k then weight(last) else 0
  }

  /** The total weight of the items that are to be kept. */
  ghost function SumWhere<R>(items: seq<R>, keep: R -> bool, weight: R -> nat): nat {
    if items == [] then 0
    else
      var last := items[|items| - 1];
      SumWhere(items[..|items| - 1], keep, weight) + if keep(last) then weight(last) else 0
  }

  /** Items that correspond one to one, kept and weighed alike, have the same total. */
  lemma {:induction false} SumWhereSame<R, S>(items: seq<R>, keep: R -> bool, weight: R -> nat,
                                              others: seq<S>, keep': S -> bool, weight': S -> nat)
    requires |items| == |others|
    requires forall i :: 0 <= i < |items| ==>
      (keep(items[i]) <==> keep'(others[i])) && (keep(items[i]) ==> weight(items[i]) == weight'(others[i]))
    ensures SumWhere(items, keep, weight) == SumWhere(others, keep', weight')
  {
    if items == [] {
    } else {
      var n := |items| - 1;
      SumWhereSame(items[..n], keep, weight, others[..n], keep', weight');
    }
  }

  /** A class weighs what its members do. */
  lemma {:induction false} WeighIsSumWhere<R, K>(items: seq<R>, classOf: R -> K, weight: R -> nat, k: K,
                                                 keep: R -> bool, weight': R -> nat)
    requires forall r: R :: classOf(r) == k <==> keep(r)
    requires forall r: R :: weight(r) == weight'(r)
    ensures Weigh(items, classOf, weight, k) == SumWhere(items, keep, weight')
  {
    if items == [] {
    } else {
      WeighIsSumWhere(items[..|items| - 1], classOf, weight, k, keep, weight');
    }
  }

  ghost function Sum<R>(items: seq<R>, weight: R -> nat): nat {
    if items == [] then 0
    else Sum(items[..|items| - 1], weight) + weight(items[|items| - 1])
  }

  lemma {:induction false} SumOfOnes<R>(items: seq<R>, weight: R -> nat)
    requires forall r: R :: weight(r) == 1
    ensures Sum(items, weight) == |items|
  {
    if items == [] {
    } else {
      SumOfOnes(items[..|items| - 1], weight);
    }
  }

  lemma WeighAppend<R, K>(items: seq<R>, item: R, classOf: R -> K, weight: R -> nat, k: K)
    ensures Weigh(items + [item], classOf, weight, k)
      == Weigh(items, classOf, weight, k) + if classOf(item) == k then weight(item) else 0
  {
    assert (items + [item])[..|items|] == items;
  }

  lemma {:induction false} WeighSame<R, K>(items: seq<R>, classOf: R -> K, f: R -> nat, g: R -> nat, k: K)
    requires forall i :: 0 <= i < |items| && classOf(items[i]) == k ==> f(items[i]) == g(items[i])
    ensures Weigh(items, classOf, f, k) == Weigh(items, classOf, g, k)
  {
    if items == [] {
    } else {
      WeighSame(items[..|items| - 1], classOf, f, g, k);
    }
  }

  lemma {:induction false} WeighNone<R, K>(items: seq<R>, classOf: R -> K, weight: R -> nat, k: K)
    requires forall i :: 0 <= i < |items| ==> classOf(items[i]) != k || weight(items[i]) == 0
    ensures Weigh(items, classOf, weight, k) == 0
  {
    if items == [] {
    } else {
      WeighNone(items[..|items| - 1], classOf, weight, k);
    }
  }

  /** A class is met exactly when its count is positive. */
  lemma {:induction false} WeighPositive<R, K>(items: seq<R>, classOf: R -> K, weight: R -> nat, k: K)
    requires forall r: R :: weight(r) == 1
    ensures Weigh(items, classOf, weight, k) > 0 <==> exists i :: 0 <= i < |items| && classOf(items[i]) == k
  {
    if items == [] {
    } else {
      var front := items[..|items| - 1];
      WeighPositive(front, classOf, weight, k);
      if i :| 0 <= i < |front| && classOf(front[i]) == k {
        assert classOf(items[i]) == k;
      }
      if i :| 0 <= i < |items| && classOf(items[i]) == k {
        assert i < |front| ==> classOf(front[i]) == k;
      }
    }
  }

  /** Counting twice: summed over any set of classes that has them all, the class weights give the
      weight of the list. */
  lemma {:induction false} SumOfClasses<R(!new), K(!new)>(items: seq<R>, classOf: R -> K, weight: R -> nat, classes: set<K>)
    requires forall i :: 0 <= i < |items| ==> classOf(items[i]) in classes
    ensures SumOver(classes, k => Weigh(items, classOf, weight, k)) == Sum(items, weight)
  {
    if items == [] {
      SumZero(classes, k => Weigh(items, classOf, weight, k));
    } else {
      var front, last := items[..|items| - 1], items[|items| - 1];
      SumOfClasses(front, classOf, weight, classes);
      var f := (k: K) => Weigh(front, classOf, weight, k);
      var g := (k: K) => Weigh(items, classOf, weight, k);
      var c := classOf(last);
      SumRemove(classes, f, c);
      SumRemove(classes, g, c);
      SumSame(classes - {c}, f, g);
    }
  }

  lemma {:induction false} SumZero<K(!new)>(s: set<K>, f: K -> nat)
    requires forall x :: x in s ==> f(x) == 0
    ensures SumOver(s, f) == 0
    decreases s
  {
    if s == {} {
    } else {
      var x :| x in s;
      SumRemove(s, f, x);
      SumZero(s - {x}, f);
    }
  }
}
