/**
 The time series of the CPI manager (cpi/time_series.go): a sorted timeline beside a map.
 A timestamp is its UnixNano value.
 */
module TimeSeries {
  import opened Sorting

  type Points = map<int, real>

  /** The points from start to end, both included. */
  function Between(data: Points, start: int, end: int): Points {
    map t | t in data && start <= t <= end :: data[t]
  }

  function NotBefore(data: Points, deadline: int): Points {
    map t | t in data && deadline <= t :: data[t]
  }

  /** sort.Search for the first element that is at least x. */
  method LowerBound(timeline: seq<int>, x: int) returns (i: nat)
    requires Ascending(timeline)
    ensures i <= |timeline|
    ensures forall k :: 0 <= k < i ==> timeline[k] < x
    ensures forall k :: i <= k < |timeline| ==> timeline[k] >= x
  {
    i := 0;
    var j := |timeline|;
    while i < j
      invariant 0 <= i <= j <= |timeline|
      invariant forall k :: 0 <= k < i ==> timeline[k] < x
      invariant forall k :: j <= k < |timeline| ==> timeline[k] >= x
    {
      var h := (i + j) / 2;
      if timeline[h] < x {
        i := h + 1;
      } else {
        j := h;
      }
    }
  }

  ghost predicate Indexes(timeline: seq<int>, data: Points) {
    Ascending(timeline) && forall t :: t in timeline <==> t in data
  }

  lemma AddKeepsIndex(timeline: seq<int>, data: Points, t: int, v: real)
    requires Indexes(timeline, data)
    ensures Indexes(Sorted(timeline + [t]), data[t := v])
  {
    SortedSorts(timeline + [t]);
  }

  ghost predicate CutAt(timeline: seq<int>, i: nat, deadline: int) {
    && i <= |timeline|
    && (forall k :: 0 <= k < i ==> timeline[k] < deadline)
    && (forall k :: i <= k < |timeline| ==> timeline[k] >= deadline)
  }

  lemma SuffixIsKept(timeline: seq<int>, i: nat, deadline: int, t: int)
    requires CutAt(timeline, i, deadline)
    ensures t in timeline[i..] <==> t in timeline && t >= deadline
    ensures t in timeline[..i] <==> t in timeline && t < deadline
  {
    if t in timeline {
      var k :| 0 <= k < |timeline| && timeline[k] == t;
      if k < i {
        assert timeline[..i][k] == t;
      } else {
        assert timeline[i..][k - i] == t;
      }
    }
  }

  /** Cutting the timeline where the deadline falls keeps exactly the points not before it. */
  lemma SuffixKeepsIndex(timeline: seq<int>, data: Points, i: nat, deadline: int)
    requires Indexes(timeline, data) && CutAt(timeline, i, deadline)
    ensures Indexes(timeline[i..], NotBefore(data, deadline))
    ensures data - Elements(timeline[..i]) == NotBefore(data, deadline)
  {
    forall t
      ensures t in timeline[i..] <==> t in NotBefore(data, deadline)
      ensures t in Elements(timeline[..i]) <==> t in data && t < deadline
    {
      SuffixIsKept(timeline, i, deadline, t);
    }
  }

  /** The slice a range search takes holds exactly the timestamps in the range, even when the last one repeats. */
  lemma SliceIsRange(timeline: seq<int>, start: int, end: int, lo: nat, hi: nat, stop: nat)
    requires Ascending(timeline) && start <= end && lo <= |timeline| && hi <= |timeline|
    requires forall k :: 0 <= k < lo ==> timeline[k] < start
    requires forall k :: lo <= k < |timeline| ==> timeline[k] >= start
    requires forall k :: 0 <= k < hi ==> timeline[k] < end
    requires forall k :: hi <= k < |timeline| ==> timeline[k] >= end
    requires stop == if hi < |timeline| && timeline[hi] == end then hi + 1 else hi
    ensures lo <= stop <= |timeline|
    ensures forall t :: t in timeline[lo..stop] <==> t in timeline && start <= t <= end
  {
    assert lo <= hi;
    forall t | t in timeline && start <= t <= end
      ensures t in timeline[lo..stop]
    {
      var k :| 0 <= k < |timeline| && timeline[k] == t;
      if k < stop {
        assert timeline[lo..stop][k - lo] == t;
      } else {
        assert timeline[hi] <= t;
        assert timeline[lo..stop][hi - lo] == t;
      }
    }
  }

  class Series {
    var timeline: seq<int>
    var data: Points

    /** The timeline is sorted and lists exactly the keys of the map. */
    ghost predicate Valid()
      reads this
    {
      Indexes(timeline, data)
    }

    constructor ()
      ensures Valid() && data == map[]
    {
      timeline, data := [], map[];
    }

    method Add(value: real, timestamp: int)
      requires Valid()
      modifies this
      ensures Valid() && data == old(data)[timestamp := value]
      ensures multiset(timeline) == multiset(old(timeline)) + multiset{timestamp}
    {
      AddKeepsIndex(timeline, data, timestamp, value);
      SortedSorts(timeline + [timestamp]);
      data := data[timestamp := value];
      timeline := Sorted(timeline + [timestamp]);
    }

    method RangeSearch(start: int, end: int) returns (r: Series?)
      requires Valid()
      ensures r == null <==> end < start || forall t :: t in data ==> t < start
      ensures r != null ==> fresh(r) && r.Valid() && r.data == Between(data, start, end)
      ensures r != null ==> forall t :: t in r.data <==> t in data && start <= t <= end
      ensures r != null ==> forall t :: t in r.data ==> r.data[t] == data[t]
    {
      if end < start {
        return null;
      }
      var lo := LowerBound(timeline, start);
      if lo == |timeline| {
        return null;
      }
      assert timeline[lo] in data;
      var hi := LowerBound(timeline, end);
      var stop := hi;
      if hi < |timeline| && timeline[hi] == end {
        stop := hi + 1;
      }
      SliceIsRange(timeline, start, end, lo, hi, stop);
      r := Collect(timeline[lo..stop], data);
      assert r.data == Between(data, start, end);
    }

    method Expire(before: int)
      requires Valid()
      modifies this
      ensures Valid() && data == NotBefore(old(data), before)
      ensures forall t :: t in data <==> t in old(data) && t >= before
      ensures forall t :: t in data ==> data[t] == old(data)[t]
    {
      var i := LowerBound(timeline, before);
      SuffixKeepsIndex(timeline, data, i, before);
      var expired := timeline[..i];
      if i == |timeline| {
        timeline := [];
      } else {
        timeline := timeline[i..];
      }
      data := Delete(data, expired);
    }
  }

  method Delete(data: Points, expired: seq<int>) returns (r: Points)
    ensures r == data - Elements(expired)
  {
    r := data;
    for k := 0 to |expired|
      invariant r == data - Elements(expired[..k])
    {
      assert Elements(expired[..k + 1]) == Elements(expired[..k]) + {expired[k]};
      r := r - {expired[k]};
    }
    assert expired[..|expired|] == expired;
  }

  /** A new series of the given timestamps, which may repeat. */
  method Collect(range: seq<int>, data: Points) returns (r: Series)
    ensures fresh(r) && r.Valid()
    ensures r.data == map t | t in range && t in data :: data[t]
  {
    r := new Series();
    for k := 0 to |range|
      invariant fresh(r) && r.Valid()
      invariant r.data == map t | t in range[..k] && t in data :: data[t]
    {
      assert range[..k + 1] == range[..k] + [range[k]];
      if range[k] in data {
        r.Add(data[range[k]], range[k]);
      }
    }
    assert range[..|range|] == range;
  }

  // ---------------------------------------------------------------- whole runs

  datatype Op = Add(value: real, timestamp: int) | Expire(before: int)

  function Replay(ops: seq<Op>): Points {
    if ops == [] then map[]
    else
      var data := Replay(ops[..|ops| - 1]);
      match ops[|ops| - 1]
      case Add(v, t) => data[t := v]
      case Expire(b) => NotBefore(data, b)
  }

  method Run(ops: seq<Op>) returns (s: Series)
    ensures s.Valid() && s.data == Replay(ops)
  {
    s := new Series();
    for i := 0 to |ops|
      invariant fresh(s) && s.Valid() && s.data == Replay(ops[..i])
    {
      assert ops[..i + 1][..i] == ops[..i];
      match ops[i]
      case Add(v, t) => s.Add(v, t);
      case Expire(b) => s.Expire(b);
    }
    assert ops[..|ops|] == ops;
  }

  /** The operation says something about timestamp t: it sets it or expires it. */
  predicate Concerns(op: Op, t: int) {
    match op
    case Add(_, u) => u == t
    case Expire(b) => t < b
  }

  /** The last operation that concerns t, as a position counted from one; zero when there is none. */
  function LastConcern(ops: seq<Op>, t: int): (i: nat)
    ensures i <= |ops| && (i > 0 ==> Concerns(ops[i - 1], t))
    ensures forall j :: i <= j < |ops| ==> !Concerns(ops[j], t)
  {
    if ops == [] then 0
    else if Concerns(ops[|ops| - 1], t) then |ops|
    else LastConcern(ops[..|ops| - 1], t)
  }

  /** A timestamp has a value exactly when the last operation concerning it set it, and then to that value. */
  lemma {:induction false} LastOperationDecides(ops: seq<Op>, t: int)
    ensures var i := LastConcern(ops, t);
            && (t in Replay(ops) <==> i > 0 && ops[i - 1].Add?)
            && (t in Replay(ops) ==> Replay(ops)[t] == ops[i - 1].value)
  {
    if ops != [] {
      LastOperationDecides(ops[..|ops| - 1], t);
    }
  }
}
