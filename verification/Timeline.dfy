/** The timeline look-ups of utils/grid.py: two binary searches, and the selections that use them,
    compared with the plain filter of the whole list. Times are exact reals. */
module Timeline {

  datatype DataRange = DataRange(start: real, end: real, value: string)

  datatype Event = Event(at: real, value: string)

  // ---- Lists ----

  /** The plain filter. */
  function Filter<T>(xs: seq<T>, p: T -> bool): seq<T> {
    if xs == [] then []
    else
      var last := xs[|xs| - 1];
      Filter(xs[..|xs| - 1], p) + if p(last) then [last] else []
  }

  /** xs[a:b] for bounds that are not negative. */
  function Slice<T>(xs: seq<T>, a: nat, b: nat): seq<T> {
    var hi := if b <= |xs| then b else |xs|;
    if a <= hi then xs[a..hi] else []
  }

  lemma SlicePush<T>(front: seq<T>, last: T, a: nat, b: nat)
    ensures Slice(front + [last], a, b) == Slice(front, a, b) + if a <= |front| < b then [last] else []
  {
  }

  /** A filter that takes the elements of an interval of indices, and no others, is a slice. */
  lemma {:induction false} FilterIsSlice<T>(xs: seq<T>, p: T -> bool, a: nat, b: nat)
    requires forall i :: 0 <= i < |xs| ==> (p(xs[i]) <==> a <= i < b)
    ensures Filter(xs, p) == Slice(xs, a, b)
  {
    if xs == [] {
    } else {
      var front, last := xs[..|xs| - 1], xs[|xs| - 1];
      FilterIsSlice(front, p, a, b);
      SlicePush(front, last, a, b);
      assert xs == front + [last];
    }
  }

  lemma {:induction false} FilterOnlyTakes<T>(xs: seq<T>, p: T -> bool)
    ensures forall x :: x in Filter(xs, p) <==> x in xs && p(x)
  {
    if xs == [] {
    } else {
      FilterOnlyTakes(xs[..|xs| - 1], p);
      assert xs == xs[..|xs| - 1] + [xs[|xs| - 1]];
    }
  }

  // ---- Ranges ----

  predicate Contains(r: DataRange, key: real) {
    r.start <= key <= r.end
  }

  predicate Meets(r: DataRange, start: real, end: real) {
    r.start <= end && start <= r.end
  }

  /** In order, and overlapping at most in end points. */
  ghost predicate Ordered(ranges: seq<DataRange>) {
    && (forall i :: 0 <= i < |ranges| ==> ranges[i].start <= ranges[i].end)
    && forall i, j :: 0 <= i < j < |ranges| ==> ranges[i].end <= ranges[j].start
  }

  ghost predicate MayFollow(ranges: seq<DataRange>, next: DataRange) {
    && next.start <= next.end
    && forall i :: 0 <= i < |ranges| ==> ranges[i].end <= next.start
  }

  ghost predicate Disjoint(ranges: seq<DataRange>) {
    && Ordered(ranges)
    && forall i, j :: 0 <= i < j < |ranges| ==> ranges[i].end < ranges[j].start
  }

  ghost predicate Covered(ranges: seq<DataRange>, key: real) {
    exists i :: 0 <= i < |ranges| && Contains(ranges[i], key)
  }

  ghost predicate IsHit(ranges: seq<DataRange>, key: real, r: int) {
    if r == -1 then !Covered(ranges, key)
    else 0 <= r < |ranges| && Contains(ranges[r], key)
  }

  /** The bounds that the four cases of the look-up take from the two searches. */
  function BoundsFrom(s: int, e: int, count: nat): (nat, nat)
    requires -1 <= s && -1 <= e
  {
    if s == -1 && e == -1 then (0, 0)
    else if s == -1 then (0, e + 1)
    else if e == -1 then (s, count)
    else (s, e + 1)
  }

  function Meeting(ranges: seq<DataRange>, start: real, end: real): seq<DataRange> {
    Filter(ranges, r => Meets(r, start, end))
  }

  /** When the look-up agrees with the filter: always if both ends are covered; otherwise only if the
      list does not reach past the end that is not covered, or has nothing strictly between the two. */
  ghost predicate LookupAgrees(ranges: seq<DataRange>, start: real, end: real) {
    if Covered(ranges, start) && Covered(ranges, end) then true
    else if Covered(ranges, end) then ranges[0].end >= start
    else if Covered(ranges, start) then ranges[|ranges| - 1].start <= end
    else NothingBetween(ranges, start, end)
  }

  ghost predicate NothingBetween(ranges: seq<DataRange>, start: real, end: real) {
    forall i :: 0 <= i < |ranges| ==> !(start < ranges[i].start && ranges[i].end < end)
  }

  ghost predicate AreBounds(ranges: seq<DataRange>, start: real, end: real, lo: nat, hi: nat) {
    exists s: int, e: int :: -1 <= s && -1 <= e && IsHit(ranges, start, s) && IsHit(ranges, end, e)
      && (lo, hi) == BoundsFrom(s, e, |ranges|)
  }

  /** With both ends covered the look-up is the filter, even when start is after end. */
  lemma BothEndsCovered(ranges: seq<DataRange>, start: real, end: real, lo: nat, hi: nat)
    requires Disjoint(ranges) && AreBounds(ranges, start, end, lo, hi)
    requires Covered(ranges, start) && Covered(ranges, end)
    ensures Slice(ranges, lo, hi) == Meeting(ranges, start, end)
  {
    FilterIsSlice(ranges, r => Meets(r, start, end), lo, hi);
  }

  lemma OnlyEndCovered(ranges: seq<DataRange>, start: real, end: real, lo: nat, hi: nat)
    requires Disjoint(ranges) && AreBounds(ranges, start, end, lo, hi)
    requires !Covered(ranges, start) && Covered(ranges, end)
    ensures Slice(ranges, lo, hi) == Meeting(ranges, start, end) <==> ranges[0].end >= start
  {
    var p := r => Meets(r, start, end);
    if ranges[0].end >= start {
      forall i | 0 <= i < |ranges| ensures p(ranges[i]) <==> lo <= i < hi {
        assert i > 0 ==> ranges[0].end < ranges[i].start;
      }
      FilterIsSlice(ranges, p, lo, hi);
    } else {
      assert Slice(ranges, lo, hi)[0] == ranges[0];
      FilterOnlyTakes(ranges, p);
      assert ranges[0] !in Filter(ranges, p);
    }
  }

  lemma OnlyStartCovered(ranges: seq<DataRange>, start: real, end: real, lo: nat, hi: nat)
    requires Disjoint(ranges) && AreBounds(ranges, start, end, lo, hi)
    requires Covered(ranges, start) && !Covered(ranges, end)
    ensures Slice(ranges, lo, hi) == Meeting(ranges, start, end) <==> ranges[|ranges| - 1].start <= end
  {
    var p := r => Meets(r, start, end);
    var n := |ranges| - 1;
    if ranges[n].start <= end {
      forall i | 0 <= i < |ranges| ensures p(ranges[i]) <==> lo <= i < hi {
        assert i < n ==> ranges[i].end < ranges[n].start;
      }
      FilterIsSlice(ranges, p, lo, hi);
    } else {
      assert Slice(ranges, lo, hi)[n - lo] == ranges[n];
      FilterOnlyTakes(ranges, p);
      assert ranges[n] !in Filter(ranges, p);
    }
  }

  lemma NeitherCovered(ranges: seq<DataRange>, start: real, end: real)
    requires Disjoint(ranges)
    requires !Covered(ranges, start) && !Covered(ranges, end)
    ensures Meeting(ranges, start, end) == [] <==> NothingBetween(ranges, start, end)
  {
    var p := r => Meets(r, start, end);
    FilterOnlyTakes(ranges, p);
    forall i | 0 <= i < |ranges| ensures p(ranges[i]) <==> start < ranges[i].start && ranges[i].end < end {
      assert !Contains(ranges[i], start) && !Contains(ranges[i], end);
    }
    if Meeting(ranges, start, end) != [] {
      var r := Filter(ranges, p)[0];
      assert r in Filter(ranges, p);
    }
    if i :| 0 <= i < |ranges| && start < ranges[i].start && ranges[i].end < end {
      assert ranges[i] in Filter(ranges, p);
    }
  }

  /** Main result on ranges: the exact condition for the look-up to agree with the filter. */
  lemma LookupAgreesIff(ranges: seq<DataRange>, start: real, end: real, lo: nat, hi: nat)
    requires Disjoint(ranges) && AreBounds(ranges, start, end, lo, hi)
    ensures Slice(ranges, lo, hi) == Meeting(ranges, start, end) <==> LookupAgrees(ranges, start, end)
  {
    if Covered(ranges, start) && Covered(ranges, end) {
      BothEndsCovered(ranges, start, end, lo, hi);
    } else if Covered(ranges, end) {
      OnlyEndCovered(ranges, start, end, lo, hi);
    } else if Covered(ranges, start) {
      OnlyStartCovered(ranges, start, end, lo, hi);
    } else {
      NeitherCovered(ranges, start, end);
    }
  }

  /** The range from 2 to 3 is missed between 1 and 4, for neither time lies in it. */
  lemma RangeBetweenIsMissed(value: string)
    ensures var ranges := [DataRange(2.0, 3.0, value)];
      && Disjoint(ranges) && AreBounds(ranges, 1.0, 4.0, 0, 0)
      && Slice(ranges, 0, 0) == [] && Meeting(ranges, 1.0, 4.0) == ranges
  {
    var ranges := [DataRange(2.0, 3.0, value)];
    assert IsHit(ranges, 1.0, -1) && IsHit(ranges, 4.0, -1);
    FilterIsSlice(ranges, r => Meets(r, 1.0, 4.0), 0, 1);
  }

  // ---- Ranges that abut ----

  /** More than an end point in common with what lies between start and end. */
  predicate Overlaps(r: DataRange, start: real, end: real) {
    r.start < end && start < r.end
  }

  function Overlapping(ranges: seq<DataRange>, start: real, end: real): seq<DataRange> {
    Filter(ranges, r => Overlaps(r, start, end))
  }

  lemma {:induction false} FilterOfPrefix<T>(xs: seq<T>, p: T -> bool, n: nat)
    requires n <= |xs| && forall i :: n <= i < |xs| ==> !p(xs[i])
    ensures Filter(xs, p) == Filter(xs[..n], p)
  {
    if n == |xs| {
      assert xs[..n] == xs;
    } else {
      var front := xs[..|xs| - 1];
      FilterOfPrefix(front, p, n);
      assert front[..n] == xs[..n];
    }
  }

  lemma {:induction false} FilterOfSuffix<T>(xs: seq<T>, p: T -> bool, n: nat)
    requires n <= |xs| && forall i :: 0 <= i < n ==> !p(xs[i])
    ensures Filter(xs, p) == Filter(xs[n..], p)
  {
    if |xs| == n {
      FilterIsSlice(xs, p, 0, 0);
      assert Slice(xs, 0, 0) == [] && xs[n..] == [];
    } else {
      var front := xs[..|xs| - 1];
      FilterOfSuffix(front, p, n);
      assert xs[n..][..|xs[n..]| - 1] == front[n..];
    }
  }

  /** A slice that has all that a filter takes can be filtered in its place. */
  lemma FilterOfSlice<T>(xs: seq<T>, p: T -> bool, a: nat, b: nat)
    requires forall i :: 0 <= i < |xs| && p(xs[i]) ==> a <= i < b
    ensures Filter(Slice(xs, a, b), p) == Filter(xs, p)
  {
    var hi := if b <= |xs| then b else |xs|;
    FilterOfPrefix(xs, p, hi);
    if a <= hi {
      FilterOfSuffix(xs[..hi], p, a);
      assert xs[..hi][a..] == Slice(xs, a, b);
    } else {
      FilterIsSlice(xs, p, 0, 0);
    }
  }

  /** Main result on ranges in order, which may abut: but for ranges that have only an end point in
      common with the interval, the selection is the filter, exactly if an end is covered or nothing
      lies strictly between. */
  lemma OverlapsSelectedIff(ranges: seq<DataRange>, start: real, end: real, lo: nat, hi: nat)
    requires Ordered(ranges) && AreBounds(ranges, start, end, lo, hi)
    ensures Overlapping(Slice(ranges, lo, hi), start, end) == Overlapping(ranges, start, end)
      <==> Covered(ranges, start) || Covered(ranges, end) || NothingBetween(ranges, start, end)
  {
    var p := r => Overlaps(r, start, end);
    if Covered(ranges, start) || Covered(ranges, end) {
      FilterOfSlice(ranges, p, lo, hi);
    } else {
      FilterOnlyTakes(ranges, p);
      forall i | 0 <= i < |ranges| ensures p(ranges[i]) <==> start < ranges[i].start && ranges[i].end < end {
        assert !Contains(ranges[i], start) && !Contains(ranges[i], end);
      }
      if NothingBetween(ranges, start, end) {
        FilterIsSlice(ranges, p, 0, 0);
      } else {
        var i :| 0 <= i < |ranges| && start < ranges[i].start && ranges[i].end < end;
        assert ranges[i] in Filter(ranges, p);
      }
    }
  }

  /** And what is selected with both ends covered meets the interval. */
  lemma SelectedMeet(ranges: seq<DataRange>, start: real, end: real, lo: nat, hi: nat)
    requires Ordered(ranges) && AreBounds(ranges, start, end, lo, hi)
    requires Covered(ranges, start) && Covered(ranges, end)
    ensures Meeting(Slice(ranges, lo, hi), start, end) == Slice(ranges, lo, hi)
  {
    var selected := Slice(ranges, lo, hi);
    FilterIsSlice(selected, r => Meets(r, start, end), 0, |selected|);
  }

  class TimelineDataRange {
    var ranges: seq<DataRange>

    constructor ()
      ensures ranges == []
    {
      ranges := [];
    }

    /** Finds a range that contains the key if and only if there is one. */
    method Search(key: real) returns (r: int)
      requires Ordered(ranges)
      ensures IsHit(ranges, key, r)
    {
      var l, u := 0, |ranges| - 1;
      while l <= u
        invariant 0 <= l <= u + 1 <= |ranges|
        invariant forall j :: 0 <= j < l ==> ranges[j].end < key
        invariant forall j :: u < j < |ranges| ==> key < ranges[j].start
        decreases u - l
      {
        var i := (l + u) / 2;
        if ranges[i].start <= key <= ranges[i].end {
          return i;
        } else if key < ranges[i].start {
          assert forall j :: i < j < |ranges| ==> ranges[i].end <= ranges[j].start;
          u := i - 1;
        } else {
          assert forall j :: 0 <= j < i ==> ranges[j].end <= ranges[i].start;
          l := i + 1;
        }
      }
      return -1;
    }

    method AddRange(range: DataRange)
      modifies this
      ensures ranges == old(ranges) + [range]
      ensures Ordered(ranges) <==> Ordered(old(ranges)) && MayFollow(old(ranges), range)
    {
      ghost var n := |ranges|;
      ranges := ranges + [range];
      assert ranges[n] == range;
      assert forall i :: 0 <= i < n ==> ranges[i] == old(ranges)[i];
    }

    method GetRangesBounds(start: real, end: real) returns (lo: nat, hi: nat)
      requires Ordered(ranges)
      ensures AreBounds(ranges, start, end, lo, hi)
      // With one end covered nothing is left out, but for ranges that touch the interval in one point.
      ensures Covered(ranges, start) || Covered(ranges, end) ==>
        forall i :: 0 <= i < |ranges| && ranges[i].start < end && start < ranges[i].end ==> lo <= i < hi
      ensures Disjoint(ranges) && (Covered(ranges, start) || Covered(ranges, end)) ==>
        forall i :: 0 <= i < |ranges| && Meets(ranges[i], start, end) ==> lo <= i < hi
      ensures Covered(ranges, start) && Covered(ranges, end) ==>
        forall i :: lo <= i < hi ==> i < |ranges| && Meets(ranges[i], start, end)
    {
      var s := Search(start);
      var e := Search(end);
      if s == -1 && e == -1 {
        lo, hi := 0, 0;
      } else if s == -1 {
        lo, hi := 0, e + 1;
      } else if e == -1 {
        lo, hi := s, |ranges|;
      } else {
        lo, hi := s, e + 1;
      }
    }

    method GetRanges(start: real, end: real) returns (selected: seq<DataRange>)
      requires Ordered(ranges)
      ensures exists lo: nat, hi: nat :: AreBounds(ranges, start, end, lo, hi) && selected == Slice(ranges, lo, hi)
      ensures Disjoint(ranges) ==> (selected == Meeting(ranges, start, end) <==> LookupAgrees(ranges, start, end))
      ensures Overlapping(selected, start, end) == Overlapping(ranges, start, end)
        <==> (Covered(ranges, start) || Covered(ranges, end) || NothingBetween(ranges, start, end))
      ensures Covered(ranges, start) && Covered(ranges, end) ==> Meeting(selected, start, end) == selected
    {
      var s := Search(start);
      var e := Search(end);
      if s == -1 && e == -1 {
        selected := [];
      } else if s == -1 {
        selected := ranges[0..e + 1];
      } else if e == -1 {
        selected := ranges[s..|ranges|];
      } else {
        selected := Slice(ranges, s, e + 1);
      }
      ghost var bounds := BoundsFrom(s, e, |ranges|);
      assert AreBounds(ranges, start, end, bounds.0, bounds.1);
      assert selected == Slice(ranges, bounds.0, bounds.1);
      OverlapsSelectedIff(ranges, start, end, bounds.0, bounds.1);
      if Covered(ranges, start) && Covered(ranges, end) {
        SelectedMeet(ranges, start, end, bounds.0, bounds.1);
      }
      if Disjoint(ranges) {
        LookupAgreesIff(ranges, start, end, bounds.0, bounds.1);
      }
    }
  }

  // ---- Events ----

  /** Events in order; several may be at one time. */
  ghost predicate InOrder(events: seq<Event>) {
    forall i, j :: 0 <= i < j < |events| ==> events[i].at <= events[j].at
  }

  ghost predicate Increasing(events: seq<Event>) {
    forall i, j :: 0 <= i < j < |events| ==> events[i].at < events[j].at
  }

  ghost predicate Occurs(events: seq<Event>, key: real) {
    exists i :: 0 <= i < |events| && events[i].at == key
  }

  /** An event at the key, or where one would go. */
  ghost predicate IsSlot(events: seq<Event>, key: real, r: nat) {
    && r <= |events|
    && (forall i :: 0 <= i < r ==> events[i].at <= key)
    && (forall i :: r <= i < |events| ==> events[i].at >= key)
    && (Occurs(events, key) ==> r < |events| && events[r].at == key)
  }

  function Within(events: seq<Event>, start: real, end: real): seq<Event> {
    Filter(events, (e: Event) => start <= e.at <= end)
  }

  /** Whether the selection has an event that is too late: none is at the end, some is after it, and
      none is after it but before the start. */
  ghost predicate OneTooMany(events: seq<Event>, start: real, end: real) {
    && !Occurs(events, end)
    && (exists i :: 0 <= i < |events| && end < events[i].at)
    && forall i :: 0 <= i < |events| ==> !(end < events[i].at < start)
  }

  ghost predicate IsFirstAfter(events: seq<Event>, end: real, k: nat) {
    k < |events| && end < events[k].at && forall i :: 0 <= i < k ==> events[i].at <= end
  }

  lemma SlotIsFirst(events: seq<Event>, key: real, r: nat)
    requires Increasing(events) && IsSlot(events, key, r)
    ensures forall i :: 0 <= i < r ==> events[i].at < key
  {
    if r < |events| {
      assert forall i :: 0 <= i < r ==> events[i].at < events[r].at;
    }
    assert forall i :: 0 <= i < r ==> (events[i].at == key ==> Occurs(events, key));
  }

  /** Main result on events: the selection is the filter, or the filter and the first event after the
      end; which of the two can be told from the times alone. */
  lemma EventsSelected(events: seq<Event>, start: real, end: real, s: nat, e: nat)
    requires Increasing(events) && IsSlot(events, start, s) && IsSlot(events, end, e)
    ensures !OneTooMany(events, start, end) ==> Slice(events, s, e + 1) == Within(events, start, end)
    ensures OneTooMany(events, start, end) ==>
      IsFirstAfter(events, end, e) && Slice(events, s, e + 1) == Within(events, start, end) + [events[e]]
  {
    SlotIsFirst(events, start, s);
    SlotIsFirst(events, end, e);
    var p := (x: Event) => start <= x.at <= end;
    var hi := if OneTooMany(events, start, end) then e else e + 1;
    assert e < |events| && end < events[e].at && s <= e ==> OneTooMany(events, start, end);
    forall i | 0 <= i < |events| ensures p(events[i]) <==> s <= i < hi {
      assert i < s || events[i].at >= start;
      assert i <= e || events[i].at > events[e].at >= end;
    }
    FilterIsSlice(events, p, s, hi);
    if hi == e {
      assert Slice(events, s, e + 1) == Slice(events, s, e) + [events[e]];
    }
  }

  /** The event at 5 is selected between 1 and 4. */
  lemma EventAfterEndIsSelected(value: string)
    ensures var events := [Event(5.0, value)];
      && Increasing(events) && IsSlot(events, 1.0, 0) && IsSlot(events, 4.0, 0)
      && Slice(events, 0, 1) == events && Within(events, 1.0, 4.0) == []
  {
    FilterIsSlice([Event(5.0, value)], (x: Event) => 1.0 <= x.at <= 4.0, 0, 0);
  }

  class TimelineEvent {
    var events: seq<Event>

    constructor ()
      ensures events == []
    {
      events := [];
    }

    method Search(key: real) returns (r: nat)
      requires InOrder(events)
      ensures IsSlot(events, key, r)
    {
      var l, u := 0, |events| - 1;
      while l <= u
        invariant 0 <= l <= u + 1 <= |events|
        invariant forall j :: 0 <= j < l ==> events[j].at < key
        invariant forall j :: u < j < |events| ==> key < events[j].at
        decreases u - l
      {
        var i := (l + u) / 2;
        if key == events[i].at {
          return i;
        } else if key < events[i].at {
          u := i - 1;
        } else {
          l := i + 1;
        }
      }
      return l;
    }

    method AddEvent(event: Event)
      modifies this
      ensures events == old(events) + [event]
    {
      events := events + [event];
    }

    method GetEventsBounds(start: real, end: real) returns (lo: nat, hi: nat)
      requires InOrder(events)
      ensures IsSlot(events, start, lo) && hi > 0 && IsSlot(events, end, hi - 1)
      // Also when several events are at one time: nothing strictly inside is left out, nothing before
      // the start is selected, and only the last selected event may be after the end.
      ensures forall i :: 0 <= i < |events| && start < events[i].at < end ==> lo <= i < hi
      ensures forall i :: lo <= i < |events| ==> start <= events[i].at
      ensures forall i :: lo <= i < hi - 1 ==> events[i].at <= end
    {
      var s := Search(start);
      var e := Search(end);
      return s, e + 1;
    }

    method GetEvents(start: real, end: real) returns (selected: seq<Event>)
      requires InOrder(events)
      ensures exists s: nat, e: nat :: IsSlot(events, start, s) && IsSlot(events, end, e) && selected == Slice(events, s, e + 1)
      ensures Increasing(events) ==>
        (selected == Within(events, start, end) <==> !OneTooMany(events, start, end))
      ensures Increasing(events) && OneTooMany(events, start, end) ==>
        exists k: nat :: IsFirstAfter(events, end, k) && selected == Within(events, start, end) + [events[k]]
    {
      var s := Search(start);
      var e := Search(end);
      selected := Slice(events, s, e + 1);
      if Increasing(events) {
        EventsSelected(events, start, end, s, e);
      }
    }
  }
}
