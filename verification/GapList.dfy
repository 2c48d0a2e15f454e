/** Which bytes of an incoming message have been received: everything below
    `recvEnd` that is not in one of the gaps. */
module GapList {

  /** A range of bytes not yet received. */
  datatype Gap = Gap(start: int, end: int)

  ghost predicate InGaps(gaps: seq<Gap>, i: int) {
    exists k :: 0 <= k < |gaps| && gaps[k].start <= i < gaps[k].end
  }

  predicate InRange(i: int, a: int, b: int) {
    a <= i < b
  }

  function Range(a: int, b: int): set<int> {
    set i | a <= i < b && InRange(i, a, b)
  }

  ghost function ReceivedSet(gaps: seq<Gap>, recvEnd: int): set<int> {
    set i | 0 <= i < recvEnd && !InGaps(gaps, i)
  }

  /** Gaps are nonempty, in order, do not overlap, and lie below `recvEnd`. */
  ghost predicate GapsValid(gaps: seq<Gap>, recvEnd: int) {
    && 0 <= recvEnd
    && (forall k :: 0 <= k < |gaps| ==> 0 <= gaps[k].start < gaps[k].end <= recvEnd)
    && (forall k, l :: 0 <= k < l < |gaps| ==> gaps[k].end <= gaps[l].start)
  }

  /** Moreover, received bytes follow every gap. */
  ghost predicate GapsApart(gaps: seq<Gap>, recvEnd: int) {
    && (forall k :: 0 <= k < |gaps| ==> gaps[k].end < recvEnd)
    && (forall k, l :: 0 <= k < l < |gaps| ==> gaps[k].end < gaps[l].start)
  }

  lemma {:induction false} RangeSize(a: int, b: int)
    requires a <= b
    ensures |Range(a, b)| == b - a
    decreases b - a
  {
    if a < b {
      RangeSize(a, b - 1);
      assert Range(a, b) == Range(a, b - 1) + {b - 1};
    }
  }

  /** A packet beyond everything received so far leaves a gap before it. */
  lemma GapAppended(gaps: seq<Gap>, recvEnd: int, start: int, end: int)
    requires GapsValid(gaps, recvEnd) && recvEnd < start <= end
    ensures GapsValid(gaps + [Gap(recvEnd, start)], end)
    ensures GapsApart(gaps, recvEnd) && start < end ==> GapsApart(gaps + [Gap(recvEnd, start)], end)
    ensures ReceivedSet(gaps + [Gap(recvEnd, start)], end) == ReceivedSet(gaps, recvEnd) + Range(start, end)
    ensures Range(start, end) !! ReceivedSet(gaps, recvEnd)
  {
    var gaps' := gaps + [Gap(recvEnd, start)];
    forall i ensures InGaps(gaps', i) <==> InGaps(gaps, i) || recvEnd <= i < start {
      if InGaps(gaps, i) {
        var k :| 0 <= k < |gaps| && gaps[k].start <= i < gaps[k].end;
        assert gaps'[k] == gaps[k];
      }
      if recvEnd <= i < start { assert gaps'[|gaps|].start <= i < gaps'[|gaps|].end; }
    }
  }

  /** A packet just behind everything received so far. */
  lemma RecvEndMoved(gaps: seq<Gap>, recvEnd: int, end: int)
    requires GapsValid(gaps, recvEnd) && recvEnd <= end
    ensures GapsValid(gaps, end) && (GapsApart(gaps, recvEnd) ==> GapsApart(gaps, end))
    ensures ReceivedSet(gaps, end) == ReceivedSet(gaps, recvEnd) + Range(recvEnd, end)
    ensures Range(recvEnd, end) !! ReceivedSet(gaps, recvEnd)
  {
  }

  /** Replacing the gap at `k` by what is left of it when a packet inside it
      arrives: nothing, one piece or two. */
  ghost function Filled(gaps: seq<Gap>, k: nat, start: int, end: int): seq<Gap>
    requires k < |gaps|
  {
    var g := gaps[k];
    gaps[..k] + (if g.start < start then [Gap(g.start, start)] else [])
              + (if end < g.end then [Gap(end, g.end)] else []) + gaps[k + 1..]
  }

  /** Which gap the entry at `j` came from, when filling the gap at `k`
      changed the number of entries by `n`. */
  ghost function Origin(k: nat, n: int, j: nat): int {
    if j < k then j else if j > k + n then j - n else k
  }

  /** Each entry after filling is a gap from before, or one of the pieces left
      of the gap at `k`. */
  lemma FilledEntry(gaps: seq<Gap>, k: nat, start: int, end: int, j: nat)
    requires k < |gaps| && gaps[k].start <= start <= end <= gaps[k].end
    requires j < |Filled(gaps, k, start, end)|
    ensures var f := Filled(gaps, k, start, end);
      var o := Origin(k, |f| - |gaps|, j);
      && 0 <= o < |gaps|
      && (o != k ==> f[j] == gaps[o])
      && (o == k ==> || (j == k && f[j] == Gap(gaps[k].start, start) && gaps[k].start < start)
                     || (j == |f| - |gaps| + k && f[j] == Gap(end, gaps[k].end) && end < gaps[k].end))
  {
  }

  /** Bytes of a gap outside of the packet stay in a gap. */
  lemma FilledKeeps(gaps: seq<Gap>, k: nat, start: int, end: int, j: nat, i: int)
    requires k < |gaps| && gaps[k].start <= start <= end <= gaps[k].end
    requires j < |gaps| && gaps[j].start <= i < gaps[j].end && !(start <= i < end)
    ensures InGaps(Filled(gaps, k, start, end), i)
  {
    var f := Filled(gaps, k, start, end);
    var n := |f| - |gaps|;
    var j' := if j < k || (j == k && i < start) then j else j + n;
    assert 0 <= j' < |f| && f[j'].start <= i < f[j'].end;
  }

  lemma FilledMembers(gaps: seq<Gap>, k: nat, start: int, end: int, i: int)
    requires k < |gaps| && gaps[k].start <= start <= end <= gaps[k].end
    requires forall j, l :: 0 <= j < l < |gaps| ==> gaps[j].end <= gaps[l].start
    ensures InGaps(Filled(gaps, k, start, end), i) <==> InGaps(gaps, i) && !(start <= i < end)
  {
    hide Filled;
    var f := Filled(gaps, k, start, end);
    if InGaps(gaps, i) && !(start <= i < end) {
      var j :| 0 <= j < |gaps| && gaps[j].start <= i < gaps[j].end;
      FilledKeeps(gaps, k, start, end, j, i);
    }
    if InGaps(f, i) {
      var j :| 0 <= j < |f| && f[j].start <= i < f[j].end;
      FilledEntry(gaps, k, start, end, j);
      var o := Origin(k, |f| - |gaps|, j);
      assert gaps[o].start <= i < gaps[o].end;
    }
  }

  lemma FilledValid(gaps: seq<Gap>, recvEnd: int, k: nat, start: int, end: int)
    requires GapsValid(gaps, recvEnd) && k < |gaps|
    requires gaps[k].start <= start <= end <= gaps[k].end
    ensures GapsValid(Filled(gaps, k, start, end), recvEnd)
    ensures GapsApart(gaps, recvEnd) && start < end ==> GapsApart(Filled(gaps, k, start, end), recvEnd)
  {
    hide Filled;
    var f := Filled(gaps, k, start, end);
    forall j | 0 <= j < |f|
      ensures 0 <= f[j].start < f[j].end <= recvEnd && (GapsApart(gaps, recvEnd) ==> f[j].end < recvEnd)
    {
      FilledEntry(gaps, k, start, end, j);
    }
    forall j, l | 0 <= j < l < |f|
      ensures f[j].end <= f[l].start && (GapsApart(gaps, recvEnd) && start < end ==> f[j].end < f[l].start)
    {
      FilledEntry(gaps, k, start, end, j);
      FilledEntry(gaps, k, start, end, l);
    }
  }

  lemma FilledReceived(gaps: seq<Gap>, recvEnd: int, k: nat, start: int, end: int)
    requires GapsValid(gaps, recvEnd) && k < |gaps|
    requires gaps[k].start <= start <= end <= gaps[k].end
    ensures ReceivedSet(Filled(gaps, k, start, end), recvEnd) == ReceivedSet(gaps, recvEnd) + Range(start, end)
    ensures Range(start, end) !! ReceivedSet(gaps, recvEnd)
  {
    hide Filled;
    forall i | start <= i < end ensures i !in ReceivedSet(gaps, recvEnd) { assert InGaps(gaps, i); }
    forall i ensures i in ReceivedSet(Filled(gaps, k, start, end), recvEnd) <==>
                     i in ReceivedSet(gaps, recvEnd) + Range(start, end)
    {
      FilledMembers(gaps, k, start, end, i);
    }
  }
}
