/** The state row of a routing table, as ComputeRoutingStateMetrics of
    helperfiles/routing_telemetry4.cc writes it: the size of the table, the entropy of its next hops,
    and the share of its entries that go through the commonest of them. Arithmetic is exact, and the
    logarithm is a parameter. */
module RoutingState {
  import opened FiniteSums
  import opened RunPrefix

  datatype RtEntry = RtEntry(dst: string, nextHop: string, hops: int)

  /** The columns that say what the row is about. */
  datatype RowHead = RowHead(id: RunId, time: real, nodeId: nat)

  datatype StateRow = StateRow(head: RowHead, size: nat, entropy: real, sameNextHopRatio: real)

  function NextHops(table: seq<RtEntry>): (hops: seq<string>)
    ensures |hops| == |table| && forall i :: 0 <= i < |table| ==> hops[i] == table[i].nextHop
  {
    seq(|table|, i requires 0 <= i < |table| => table[i].nextHop)
  }

  function CountOf(table: seq<RtEntry>, hop: string): nat {
    multiset(NextHops(table))[hop]
  }

  ghost function Distinct(table: seq<RtEntry>): set<string> {
    set e | e in table :: e.nextHop
  }

  ghost predicate IsLargestCount(m: nat, table: seq<RtEntry>) {
    && (forall hop :: CountOf(table, hop) <= m)
    && exists hop :: hop in Distinct(table) && CountOf(table, hop) == m
  }

  /** The part of the entropy, up to its sign, of a next hop met count times in n entries. */
  function Term(log2: real -> real, count: nat, n: nat): real
    requires n > 0
  {
    var p := count as real / n as real;
    p * log2(p)
  }

  ghost function TermOf(log2: real -> real, table: seq<RtEntry>): string -> real
    requires table != []
  {
    (hop: string) => Term(log2, CountOf(table, hop), |table|)
  }

  /** The entropy of the next hops, whatever the order in which they are taken. */
  ghost function EntropyOf(log2: real -> real, table: seq<RtEntry>): real {
    if table == [] then 0.0 else -RealSumOver(Distinct(table), TermOf(log2, table))
  }

  lemma {:induction false} LargestCountExists(table: seq<RtEntry>, n: nat) returns (i: nat)
    requires 0 < n <= |table|
    ensures i < n && forall k :: 0 <= k < n ==> CountOf(table, table[k].nextHop) <= CountOf(table, table[i].nextHop)
  {
    if n == 1 {
      i := 0;
    } else {
      i := LargestCountExists(table, n - 1);
      if CountOf(table, table[n - 1].nextHop) > CountOf(table, table[i].nextHop) {
        i := n - 1;
      }
    }
  }

  lemma LargestAmongEntries(table: seq<RtEntry>)
    requires table != []
    ensures exists m: nat :: IsLargestCount(m, table)
  {
    var i := LargestCountExists(table, |table|);
    assert table[i] in table;
    var m := CountOf(table, table[i].nextHop);
    forall hop ensures CountOf(table, hop) <= m {
      CountedIff(table, hop);
      if hop in Distinct(table) {
        var e :| e in table && e.nextHop == hop;
        var k :| 0 <= k < |table| && table[k] == e;
      }
    }
    assert IsLargestCount(m, table);
  }

  ghost function LargestCount(table: seq<RtEntry>): (m: nat)
    requires table != []
    ensures IsLargestCount(m, table)
  {
    LargestAmongEntries(table);
    var m: nat :| IsLargestCount(m, table);
    m
  }

  ghost function RatioOf(table: seq<RtEntry>): real {
    if table == [] then 0.0 else LargestCount(table) as real / |table| as real
  }

  /** What the row of a table is: zeros for the empty table, and otherwise the size, the entropy and
      the share of the largest count. */
  ghost function RowOf(head: RowHead, log2: real -> real, table: seq<RtEntry>): StateRow {
    StateRow(head, |table|, EntropyOf(log2, table), RatioOf(table))
  }

  ghost predicate Counted(nhCount: map<string, nat>, table: seq<RtEntry>, n: nat)
    requires n <= |table|
  {
    && nhCount.Keys == Distinct(table[..n])
    && forall hop :: hop in nhCount ==> nhCount[hop] == CountOf(table[..n], hop)
  }

  lemma CountMore(table: seq<RtEntry>, n: nat, hop: string)
    requires n < |table|
    ensures CountOf(table[..n + 1], hop) == CountOf(table[..n], hop) + if table[n].nextHop == hop then 1 else 0
    ensures Distinct(table[..n + 1]) == Distinct(table[..n]) + {table[n].nextHop}
  {
    assert NextHops(table[..n + 1]) == NextHops(table[..n]) + [table[n].nextHop];
    assert table[..n + 1] == table[..n] + [table[n]];
  }

  lemma CountedIff(table: seq<RtEntry>, hop: string)
    ensures CountOf(table, hop) > 0 <==> hop in Distinct(table)
  {
    if CountOf(table, hop) > 0 {
      assert hop in NextHops(table);
      var i :| 0 <= i < |table| && NextHops(table)[i] == hop;
      assert table[i] in table;
    }
    if hop in Distinct(table) {
      var e :| e in table && e.nextHop == hop;
      var i :| 0 <= i < |table| && table[i] == e;
      assert NextHops(table)[i] == hop;
    }
  }

  /** The loop that counts the next hops. */
  method CountNextHops(table: seq<RtEntry>) returns (nhCount: map<string, nat>)
    ensures nhCount.Keys == Distinct(table)
    ensures forall hop :: hop in nhCount ==> nhCount[hop] == CountOf(table, hop)
  {
    nhCount := map[];
    for i := 0 to |table|
      invariant Counted(nhCount, table, i)
    {
      var hop := table[i].nextHop;
      forall h ensures CountOf(table[..i + 1], h) == CountOf(table[..i], h) + if hop == h then 1 else 0 {
        CountMore(table, i, h);
      }
      CountMore(table, i, hop);
      CountedIff(table[..i], hop);
      nhCount := nhCount[hop := (if hop in nhCount then nhCount[hop] else 0) + 1];
    }
    assert table[..|table|] == table;
  }

  /** The loop that takes the largest count; the keys come in any order. */
  method MaxCount(nhCount: map<string, nat>) returns (maxCount: nat)
    ensures forall hop :: hop in nhCount ==> nhCount[hop] <= maxCount
    ensures if nhCount == map[] then maxCount == 0 else exists hop :: hop in nhCount && nhCount[hop] == maxCount
  {
    maxCount := 0;
    var todo := nhCount.Keys;
    while todo != {}
      invariant todo <= nhCount.Keys
      invariant forall hop :: hop in nhCount.Keys - todo ==> nhCount[hop] <= maxCount
      invariant if todo == nhCount.Keys then maxCount == 0 else exists hop :: hop in nhCount && nhCount[hop] == maxCount
      decreases todo
    {
      ghost var before := todo;
      var hop :| hop in todo;
      maxCount := if nhCount[hop] > maxCount then nhCount[hop] else maxCount;
      todo := todo - {hop};
      assert hop in before && hop !in todo;
    }
  }

  ghost function TermIn(nhCount: map<string, nat>, n: nat, log2: real -> real): string -> real
    requires n > 0
  {
    hop => if hop in nhCount then Term(log2, nhCount[hop], n) else 0.0
  }

  lemma OneTermMore(nhCount: map<string, nat>, n: nat, log2: real -> real, done: set<string>, hop: string)
    requires n > 0 && hop in nhCount && hop !in done
    ensures RealSumOver(done + {hop}, TermIn(nhCount, n, log2))
      == Term(log2, nhCount[hop], n) + RealSumOver(done, TermIn(nhCount, n, log2))
  {
    RealSumRemove(done + {hop}, TermIn(nhCount, n, log2), hop);
    assert done + {hop} - {hop} == done;
  }

  /** The loop that sums the entropy, over the keys in any order. */
  method Entropy(nhCount: map<string, nat>, n: nat, log2: real -> real) returns (entropy: real)
    requires n > 0
    ensures entropy == -RealSumOver(nhCount.Keys, TermIn(nhCount, n, log2))
  {
    entropy := 0.0;
    var keys := nhCount.Keys;
    var todo := keys;
    assert keys - todo == {};
    while todo != {}
      invariant todo <= keys && entropy == -RealSumOver(keys - todo, TermIn(nhCount, n, log2))
      decreases todo
    {
      var hop :| hop in todo;
      OneTermMore(nhCount, n, log2, keys - todo, hop);
      assert keys - (todo - {hop}) == keys - todo + {hop};
      entropy := SubtractTerm(entropy, nhCount[hop], n, log2);
      todo := todo - {hop};
    }
    assert keys - todo == keys;
  }

  /** The body of the loop. */
  method SubtractTerm(entropy: real, count: nat, n: nat, log2: real -> real) returns (next: real)
    requires n > 0
    ensures next == entropy - Term(log2, count, n)
  {
    var p := count as real / n as real;
    next := entropy - p * log2(p);
  }

  lemma LargestIsUnique(table: seq<RtEntry>, m: nat, n: nat)
    requires IsLargestCount(m, table) && IsLargestCount(n, table)
    ensures m == n
  {
  }

  method ComputeRoutingStateMetrics(head: RowHead, table: seq<RtEntry>, log2: real -> real) returns (row: StateRow)
    ensures row == RowOf(head, log2, table)
  {
    if |table| == 0 {
      return StateRow(head, 0, 0.0, 0.0);
    }
    var nhCount := CountNextHops(table);
    assert table[0] in table && table[0].nextHop in nhCount;
    var maxCount := MaxCount(nhCount);
    assert IsLargestCount(maxCount, table) by {
      forall hop ensures CountOf(table, hop) <= maxCount {
        CountedIff(table, hop);
      }
    }
    LargestIsUnique(table, maxCount, LargestCount(table));
    var sameHopRatio := maxCount as real / |table| as real;
    var entropy := Entropy(nhCount, |table|, log2);
    RealSumSame(nhCount.Keys, TermIn(nhCount, |table|, log2), TermOf(log2, table));
    row := StateRow(head, |table|, entropy, sameHopRatio);
  }

  // ---- What the counts add up to ----

  lemma {:induction false} WeighIsCount(hops: seq<string>, hop: string)
    ensures Weigh(hops, (h: string) => h, (h: string) => 1, hop) == multiset(hops)[hop]
  {
    if hops == [] {
    } else {
      WeighIsCount(hops[..|hops| - 1], hop);
      assert hops == hops[..|hops| - 1] + [hops[|hops| - 1]];
    }
  }

  /** The counts of the distinct next hops add up to the size of the table. */
  lemma CountsSumToSize(table: seq<RtEntry>)
    ensures SumOver(Distinct(table), hop => CountOf(table, hop)) == |table|
  {
    var hops := NextHops(table);
    var hopsMet := Distinct(table);
    forall i | 0 <= i < |hops| ensures hops[i] in hopsMet {
      assert table[i] in table;
    }
    var weights := k => Weigh(hops, (h: string) => h, (h: string) => 1, k);
    SumOfClasses(hops, (h: string) => h, (h: string) => 1, hopsMet);
    forall hop ensures weights(hop) == CountOf(table, hop) {
      WeighIsCount(hops, hop);
    }
    SumSame(hopsMet, weights, hop => CountOf(table, hop));
    SumOfOnes(hops, (h: string) => 1);
  }

  /** A sum of bounded weights is at most the bound times their number, and reaches it only if every
      weight reaches the bound. */
  lemma {:induction false} SumBounded<K(!new)>(s: set<K>, f: K -> nat, bound: nat)
    requires forall x :: x in s ==> f(x) <= bound
    ensures SumOver(s, f) <= bound * |s|
    ensures SumOver(s, f) == bound * |s| <==> forall x :: x in s ==> f(x) == bound
    decreases s
  {
    if s == {} {
    } else {
      var x :| x in s;
      var rest := s - {x};
      SumRemove(s, f, x);
      SumBounded(rest, f, bound);
      OneTimesMore(bound, |rest|);
      assert |s| == |rest| + 1;
      assert (forall y :: y in s ==> f(y) == bound) <==> f(x) == bound && forall y :: y in rest ==> f(y) == bound;
    }
  }

  lemma OneTimesMore(a: nat, n: nat)
    ensures a * (n + 1) == a * n + a
  {
  }

  /** The largest count times the number of next hops is at least the size of the table, with equality
      exactly when all next hops are used equally often. */
  lemma LargestCountCovers(table: seq<RtEntry>, m: nat)
    requires IsLargestCount(m, table)
    ensures |table| <= m * |Distinct(table)|
    ensures |table| == m * |Distinct(table)| <==> forall hop :: hop in Distinct(table) ==> CountOf(table, hop) == m
  {
    CountsSumToSize(table);
    var counts := (hop: string) => CountOf(table, hop);
    SumBounded(Distinct(table), counts, m);
    assert forall hop :: counts(hop) == CountOf(table, hop);
  }

  ghost predicate OneNextHop(table: seq<RtEntry>) {
    forall i, j :: 0 <= i < j < |table| ==> table[i].nextHop == table[j].nextHop
  }

  lemma CountAtMostSize(table: seq<RtEntry>, hop: string)
    ensures CountOf(table, hop) <= |table|
    ensures CountOf(table, hop) == |table| <==> forall i :: 0 <= i < |table| ==> table[i].nextHop == hop
  {
    AllEqual(NextHops(table), hop);
  }

  lemma {:induction false} AllEqual(hops: seq<string>, hop: string)
    ensures multiset(hops)[hop] <= |hops|
    ensures multiset(hops)[hop] == |hops| <==> forall i :: 0 <= i < |hops| ==> hops[i] == hop
  {
    if hops == [] {
    } else {
      var n := |hops| - 1;
      AllEqual(hops[..n], hop);
      assert hops == hops[..n] + [hops[n]];
    }
  }

  lemma Share(m: nat, n: nat)
    requires 0 < m <= n
    ensures 0.0 < m as real / n as real <= 1.0
    ensures m as real / n as real == 1.0 <==> m == n
  {
    var x := m as real / n as real;
    assert x * n as real == m as real;
  }

  lemma ShareBound(x: real, m: nat, n: nat, d: nat)
    requires n > 0 && n <= m * d && x == m as real / n as real
    ensures x * d as real >= 1.0
  {
    assert x * n as real == m as real;
    assert (m * d) as real == m as real * d as real;
    if x * d as real < 1.0 {
      assert x * d as real * n as real < n as real;
    }
  }

  /** Main result on the ratio of a non-empty table: it is at most 1, and it is 1 exactly when all
      entries share one next hop. */
  lemma RatioIsOneIffOneHop(table: seq<RtEntry>)
    requires table != []
    ensures 0.0 < RatioOf(table) <= 1.0
    ensures RatioOf(table) == 1.0 <==> OneNextHop(table)
  {
    LargestIsAllIffOneHop(table, LargestCount(table));
    Share(LargestCount(table), |table|);
  }

  lemma LargestIsAllIffOneHop(table: seq<RtEntry>, m: nat)
    requires table != [] && IsLargestCount(m, table)
    ensures 0 < m <= |table|
    ensures m == |table| <==> OneNextHop(table)
  {
    var hop :| hop in Distinct(table) && CountOf(table, hop) == m;
    CountedIff(table, hop);
    CountAtMostSize(table, hop);
    CountAtMostSize(table, table[0].nextHop);
  }

  /** The ratio is never below one over the number of distinct next hops. */
  lemma RatioTimesHopsIsAtLeastOne(table: seq<RtEntry>)
    requires table != []
    ensures RatioOf(table) * |Distinct(table)| as real >= 1.0
  {
    LargestCountCovers(table, LargestCount(table));
    ShareBound(RatioOf(table), LargestCount(table), |table|, |Distinct(table)|);
  }

  // ---- The entropy ----

  /** All that is used of the logarithm: its signs. */
  ghost predicate IsLogarithm(log2: real -> real) {
    log2(1.0) == 0.0 && forall p :: 0.0 < p < 1.0 ==> log2(p) < 0.0
  }

  lemma TermSign(log2: real -> real, count: nat, n: nat)
    requires IsLogarithm(log2) && 0 < count <= n
    ensures Term(log2, count, n) <= 0.0 && (Term(log2, count, n) == 0.0 <==> count == n)
  {
    var p := count as real / n as real;
    Share(count, n);
    if p < 1.0 {
      NegativeProduct(p, log2(p));
    }
  }

  lemma NegativeProduct(p: real, x: real)
    requires p > 0.0 && x < 0.0
    ensures p * x < 0.0
  {
  }

  /** Main result on the entropy of a non-empty table: it is never negative, and it is 0 exactly when
      all entries share one next hop. */
  lemma EntropyIsZeroIffOneHop(table: seq<RtEntry>, log2: real -> real)
    requires table != [] && IsLogarithm(log2)
    ensures EntropyOf(log2, table) >= 0.0
    ensures EntropyOf(log2, table) == 0.0 <==> OneNextHop(table)
  {
    var hops, f := Distinct(table), TermOf(log2, table);
    forall hop | hop in hops
      ensures f(hop) <= 0.0 && (f(hop) == 0.0 <==> CountOf(table, hop) == |table|)
    {
      CountedIff(table, hop);
      CountAtMostSize(table, hop);
      TermSign(log2, CountOf(table, hop), |table|);
    }
    RealSumSign(hops, f);
    AllCountsFullIffOneHop(table);
  }

  /** The share of each next hop when all are used equally often. */
  lemma EqualShare(m: nat, k: nat, n: nat)
    requires n == m * k && n > 0
    ensures k > 0 && m as real / n as real == 1.0 / k as real
  {
    assert m > 0 && k > 0;
    assert n as real == m as real * k as real;
    var x := 1.0 / k as real;
    assert k as real * x == 1.0;
    Reassociate(m as real, k as real, x);
    assert n as real * x == m as real;
  }

  lemma Reassociate(a: real, b: real, c: real)
    ensures a * b * c == a * (b * c)
  {
  }

  lemma TermOfEqualShare(log2: real -> real, m: nat, k: nat, n: nat)
    requires n == m * k && n > 0
    ensures k > 0 && Term(log2, m, n) == 1.0 / k as real * log2(1.0 / k as real)
  {
    EqualShare(m, k, n);
  }

  lemma TimesShare(k: nat, y: real, x: real)
    requires k > 0 && x == 1.0 / k as real * y
    ensures k as real * x == y
  {
    var z := 1.0 / k as real;
    assert k as real * z == 1.0;
    Reassociate(k as real, z, y);
  }

  lemma EntropyOfEqualTerms(table: seq<RtEntry>, log2: real -> real, x: real)
    requires table != [] && forall hop :: hop in Distinct(table) ==> TermOf(log2, table)(hop) == x
    ensures EntropyOf(log2, table) == -(|Distinct(table)| as real * x)
  {
    RealSumConstant(Distinct(table), TermOf(log2, table), x);
  }

  lemma TermsOfEqualUse(table: seq<RtEntry>, m: nat, log2: real -> real, k: nat, x: real)
    requires table != [] && forall hop :: hop in Distinct(table) ==> CountOf(table, hop) == m
    requires k == |Distinct(table)| && k > 0 && x == 1.0 / k as real * log2(1.0 / k as real)
    ensures forall hop :: hop in Distinct(table) ==> TermOf(log2, table)(hop) == x
  {
    CountsAreEqual(table, m);
    TermOfEqualShare(log2, m, k, |table|);
  }

  /** When k next hops are used equally often, the entropy is -log2(1/k). */
  lemma EntropyOfEqualUse(table: seq<RtEntry>, m: nat, log2: real -> real)
    requires table != [] && forall hop :: hop in Distinct(table) ==> CountOf(table, hop) == m
    ensures |Distinct(table)| > 0 && EntropyOf(log2, table) == -log2(1.0 / |Distinct(table)| as real)
  {
    assert table[0] in table && table[0].nextHop in Distinct(table);
    var k := |Distinct(table)|;
    var y := log2(1.0 / k as real);
    var x := 1.0 / k as real * y;
    TermsOfEqualUse(table, m, log2, k, x);
    EntropyOfEqualTerms(table, log2, x);
    TimesShare(k, y, x);
  }

  lemma CountsAreEqual(table: seq<RtEntry>, m: nat)
    requires forall hop :: hop in Distinct(table) ==> CountOf(table, hop) == m
    ensures |table| == m * |Distinct(table)|
  {
    CountsSumToSize(table);
    var counts := (hop: string) => CountOf(table, hop);
    SumBounded(Distinct(table), counts, m);
    assert forall hop :: counts(hop) == CountOf(table, hop);
  }

  lemma AllCountsFullIffOneHop(table: seq<RtEntry>)
    requires table != []
    ensures (forall hop :: hop in Distinct(table) ==> CountOf(table, hop) == |table|) <==> OneNextHop(table)
  {
    var first := table[0].nextHop;
    assert table[0] in table;
    assert first in Distinct(table);
    CountAtMostSize(table, first);
    if OneNextHop(table) {
      forall hop | hop in Distinct(table) ensures CountOf(table, hop) == |table| {
        var e :| e in table && e.nextHop == hop;
        assert hop == first;
      }
    }
  }

  // ---- The order of the table ----

  lemma SameCounts(table: seq<RtEntry>, table': seq<RtEntry>)
    requires multiset(NextHops(table)) == multiset(NextHops(table'))
    ensures |table| == |table'| && Distinct(table) == Distinct(table')
    ensures forall hop :: CountOf(table, hop) == CountOf(table', hop)
  {
    assert |NextHops(table)| == |multiset(NextHops(table))| == |NextHops(table')|;
    forall hop ensures hop in Distinct(table) <==> hop in Distinct(table') {
      CountedIff(table, hop);
      CountedIff(table', hop);
    }
  }

  /** Main result on order: two tables with the same next hops in any order have the same row, whatever
      else their entries hold. */
  lemma OrderIsIrrelevant(table: seq<RtEntry>, table': seq<RtEntry>, head: RowHead, log2: real -> real)
    requires multiset(NextHops(table)) == multiset(NextHops(table'))
    ensures RowOf(head, log2, table) == RowOf(head, log2, table')
  {
    SameCounts(table, table');
    if table == [] {
    } else {
      RealSumSame(Distinct(table), TermOf(log2, table), TermOf(log2, table'));
      SameLargest(table, table');
    }
  }

  lemma SameLargest(table: seq<RtEntry>, table': seq<RtEntry>)
    requires table != [] && table' != [] && Distinct(table) == Distinct(table')
    requires forall hop :: CountOf(table, hop) == CountOf(table', hop)
    ensures LargestCount(table) == LargestCount(table')
  {
    var m := LargestCount(table);
    assert IsLargestCount(m, table');
    LargestIsUnique(table', m, LargestCount(table'));
  }

  function Without(table: seq<RtEntry>, j: nat): seq<RtEntry>
    requires j < |table|
  {
    table[..j] + table[j + 1..]
  }

  lemma WithoutEntry(table: seq<RtEntry>, j: nat)
    requires j < |table|
    ensures multiset(table) == multiset(Without(table, j)) + multiset{table[j]}
  {
    assert table == table[..j] + [table[j]] + table[j + 1..];
  }

  lemma WithoutHop(table: seq<RtEntry>, j: nat)
    requires j < |table|
    ensures multiset(NextHops(table)) == multiset(NextHops(Without(table, j))) + multiset{table[j].nextHop}
  {
    var hops := NextHops(table);
    assert NextHops(Without(table, j)) == hops[..j] + hops[j + 1..];
    assert hops == hops[..j] + [hops[j]] + hops[j + 1..];
  }

  lemma {:induction false} ShuffledTablesShareHops(table: seq<RtEntry>, table': seq<RtEntry>)
    requires multiset(table) == multiset(table')
    ensures multiset(NextHops(table)) == multiset(NextHops(table'))
    decreases |table|
  {
    if table == [] {
      assert |table'| == |multiset(table')| == 0;
    } else {
      assert table[0] in multiset(table');
      var j :| 0 <= j < |table'| && table'[j] == table[0];
      WithoutEntry(table, 0);
      WithoutEntry(table', j);
      assert multiset(Without(table, 0)) == multiset(table) - multiset{table[0]};
      assert multiset(Without(table', j)) == multiset(table') - multiset{table[0]};
      ShuffledTablesShareHops(Without(table, 0), Without(table', j));
      WithoutHop(table, 0);
      WithoutHop(table', j);
    }
  }

  lemma ShuffledTablesShareRow(table: seq<RtEntry>, table': seq<RtEntry>, head: RowHead, log2: real -> real)
    requires multiset(table) == multiset(table')
    ensures RowOf(head, log2, table) == RowOf(head, log2, table')
  {
    ShuffledTablesShareHops(table, table');
    OrderIsIrrelevant(table, table', head, log2);
  }
}
