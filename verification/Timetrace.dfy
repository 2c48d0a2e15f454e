/** Time traces: each core records events in a ring that overwrites its oldest
    ones; for output the rings are merged by time. */
module Timetrace {

  const TT_BUF_SIZE := 16384
  const MAX_TIME := 0xffff_ffff_ffff_ffff

  /** `present` tells whether there is a format string. */
  datatype Event = Event(timestamp: nat, present: bool, text: nat)

  /** An event of a core, as it is printed. */
  datatype Line = Line(core: nat, event: Event)

  /** What a core has recorded: clocks do not run backwards. */
  ghost predicate LogOk(log: seq<Event>) {
    && (forall k :: 0 <= k < |log| ==> log[k].present && log[k].timestamp < MAX_TIME)
    && (forall j, k :: 0 <= j < k < |log| ==> log[j].timestamp <= log[k].timestamp)
  }

  /** Where an event goes; masking does the same, since the size is a power of
      two. */
  function RingIndex(k: nat): (i: nat)
    ensures i < TT_BUF_SIZE
  {
    k % TT_BUF_SIZE
  }

  lemma NextSlot(n: nat)
    ensures RingIndex(n + 1) == (RingIndex(n) + 1) % TT_BUF_SIZE
    ensures forall k :: 0 <= k < n && k > n - TT_BUF_SIZE ==> RingIndex(k) != RingIndex(n)
    ensures RingIndex(n) == TT_BUF_SIZE - 1 ==> n >= TT_BUF_SIZE - 1
    ensures n == TT_BUF_SIZE - 1 ==> RingIndex(n) == TT_BUF_SIZE - 1
  {
  }

  // ----- What is printed -----

  /** The first event that may be printed. One event of a full ring is left
      out. */
  function FirstKept(log: seq<Event>): (f: nat)
    ensures f <= |log|
  {
    if |log| >= TT_BUF_SIZE then |log| - TT_BUF_SIZE + 1 else 0
  }

  /** Before this time, events of this core may be missing. */
  function CompleteFrom(log: seq<Event>): nat {
    if |log| >= TT_BUF_SIZE then log[FirstKept(log)].timestamp else 0
  }

  /** The largest of these times. */
  ghost function StartTime(logs: seq<seq<Event>>): (t: nat)
    ensures forall c :: 0 <= c < |logs| ==> CompleteFrom(logs[c]) <= t
  {
    if logs == [] then 0
    else
      var n := |logs| - 1;
      var t := StartTime(logs[..n]);
      assert forall c :: 0 <= c < n ==> logs[..n][c] == logs[c];
      if CompleteFrom(logs[n]) > t then CompleteFrom(logs[n]) else t
  }

  /** That is 0, or the time of the oldest event that a full ring still has
      for printing. */
  lemma {:induction false} StartTimeIs(logs: seq<seq<Event>>) returns (c: nat)
    ensures StartTime(logs) == 0 ||
      (c < |logs| && |logs[c]| >= TT_BUF_SIZE && StartTime(logs) == logs[c][|logs[c]| - (TT_BUF_SIZE - 1)].timestamp)
  {
    c := 0;
    if logs != [] {
      var n := |logs| - 1;
      c := StartTimeIs(logs[..n]);
      if CompleteFrom(logs[n]) > StartTime(logs[..n]) { c := n; }
    }
  }

  /** The first event from `k` on that is not before `start`. */
  ghost function NotBefore(log: seq<Event>, k: nat, start: nat): (f: nat)
    requires k <= |log|
    ensures k <= f <= |log| && (f < |log| ==> log[f].timestamp >= start)
    ensures forall j :: k <= j < f ==> log[j].timestamp < start
    decreases |log| - k
  {
    if k == |log| || log[k].timestamp >= start then k else NotBefore(log, k + 1, start)
  }

  /** What is printed of a core's events. */
  ghost function Printed(log: seq<Event>, start: nat): seq<Event> {
    log[NotBefore(log, FirstKept(log), start)..]
  }

  /** The events of one core in the output. */
  ghost function Project(out: seq<Line>, c: nat): seq<Event> {
    if out == [] then []
    else
      var n := |out| - 1;
      Project(out[..n], c) + if out[n].core == c then [out[n].event] else []
  }

  ghost predicate SortedByTime(out: seq<Line>) {
    forall j, k :: 0 <= j < k < |out| ==> out[j].event.timestamp <= out[k].event.timestamp
  }

  /** The merged output. */
  ghost predicate Merged(out: seq<Line>, logs: seq<seq<Event>>) {
    && SortedByTime(out)
    && (forall k :: 0 <= k < |out| ==> out[k].core < |logs|)
    && forall c :: 0 <= c < |logs| ==> Project(out, c) == Printed(logs[c], StartTime(logs))
  }

  lemma ProjectMore(out: seq<Line>, line: Line, c: nat)
    ensures Project(out + [line], c) == Project(out, c) + if line.core == c then [line.event] else []
  {
    assert (out + [line])[..|out|] == out;
  }

  /** What the output of a trace contains: nothing before the start time;
      everything after it that was recorded, although rings have overwritten
      older events; and, being a part of the record, each event once. */
  lemma PrintedIs(logs: seq<seq<Event>>, c: nat)
    requires c < |logs| && LogOk(logs[c])
    ensures var from := |logs[c]| - |Printed(logs[c], StartTime(logs))|;
      && 0 <= from && Printed(logs[c], StartTime(logs)) == logs[c][from..]
      && forall k :: 0 <= k < |logs[c]| ==>
           && (k >= from ==> logs[c][k].timestamp >= StartTime(logs))
           && (logs[c][k].timestamp > StartTime(logs) ==> k >= from)
  {
    var log, start := logs[c], StartTime(logs);
    var first := FirstKept(log);
    var from := NotBefore(log, first, start);
    assert CompleteFrom(log) <= start;
    forall k | 0 <= k < |log| ensures log[k].timestamp > start ==> k >= from {
      if k < first { assert log[k].timestamp <= log[first].timestamp; }
    }
  }

  /** Part of the merge: the events of each core from `from` up to `cur` are
      printed, and all others come later. */
  ghost predicate Partial(logs: seq<seq<Event>>, from: seq<nat>, cur: seq<nat>, out: seq<Line>) {
    && |from| == |cur| == |logs| && SortedByTime(out)
    && (forall k :: 0 <= k < |out| ==> out[k].core < |logs|)
    && (forall c :: 0 <= c < |logs| ==> from[c] <= cur[c] <= |logs[c]| && Project(out, c) == logs[c][from[c]..cur[c]])
    && (forall k, c :: 0 <= k < |out| && 0 <= c < |logs| && cur[c] < |logs[c]| ==>
          out[k].event.timestamp <= logs[c][cur[c]].timestamp)
  }

  /** The core's next event is among the earliest. */
  ghost predicate Earliest(logs: seq<seq<Event>>, cur: seq<nat>, core: nat)
    requires |cur| == |logs|
  {
    && core < |logs| && cur[core] < |logs[core]|
    && forall c :: 0 <= c < |logs| && cur[c] < |logs[c]| ==>
         logs[core][cur[core]].timestamp <= logs[c][cur[c]].timestamp
  }

  lemma PartialMore(logs: seq<seq<Event>>, from: seq<nat>, cur: seq<nat>, out: seq<Line>, core: nat)
    requires Partial(logs, from, cur, out) && Earliest(logs, cur, core) && LogOk(logs[core])
    ensures Partial(logs, from, cur[core := cur[core] + 1], out + [Line(core, logs[core][cur[core]])])
  {
    hide Project;
    var line := Line(core, logs[core][cur[core]]);
    var cur', out' := cur[core := cur[core] + 1], out + [line];
    forall c | 0 <= c < |logs| ensures Project(out', c) == logs[c][from[c]..cur'[c]] {
      ProjectMore(out, line, c);
      if c == core { assert logs[c][from[c]..cur'[c]] == logs[c][from[c]..cur[c]] + [logs[c][cur[c]]]; }
    }
  }

  /** How many events are left to print. */
  ghost function Left(logs: seq<seq<Event>>, cur: seq<nat>): nat
    requires |cur| == |logs| && forall c :: 0 <= c < |logs| ==> cur[c] <= |logs[c]|
  {
    if logs == [] then 0
    else
      var n := |logs| - 1;
      assert forall c :: 0 <= c < n ==> logs[..n][c] == logs[c] && cur[..n][c] == cur[c];
      Left(logs[..n], cur[..n]) + (|logs[n]| - cur[n])
  }

  lemma {:induction false} LeftLess(logs: seq<seq<Event>>, cur: seq<nat>, core: nat)
    requires |cur| == |logs| && (forall c :: 0 <= c < |logs| ==> cur[c] <= |logs[c]|)
    requires core < |logs| && cur[core] < |logs[core]|
    ensures Left(logs, cur[core := cur[core] + 1]) == Left(logs, cur) - 1
  {
    var n := |logs| - 1;
    var cur' := cur[core := cur[core] + 1];
    assert forall c :: 0 <= c < n ==> logs[..n][c] == logs[c] && cur[..n][c] == cur[c] && cur'[..n][c] == cur'[c];
    if core < n {
      LeftLess(logs[..n], cur[..n], core);
      assert cur'[..n] == cur[..n][core := cur[core] + 1];
    } else {
      assert cur'[..n] == cur[..n];
    }
  }

  class Trace {
    const events: array2<Event>        // a ring for each core
    const nextIndex: array<nat>
    var freezeCount: nat               // readers, and one if `frozen`
    var frozen: bool
    ghost var logs: seq<seq<Event>>    // all events since the last reset

    /** The ring of a core holds the last events of its log. */
    ghost predicate RingOk(c: nat)
      requires c < events.Length0 && c < nextIndex.Length && c < |logs| && events.Length1 == TT_BUF_SIZE
      reads this`logs, events, nextIndex
    {
      var log := logs[c];
      && LogOk(log) && nextIndex[c] == RingIndex(|log|)
      && (forall k :: 0 <= k < |log| && k >= |log| - TT_BUF_SIZE ==> events[c, RingIndex(k)] == log[k])
      && (events[c, TT_BUF_SIZE - 1].present <==> |log| >= TT_BUF_SIZE)
    }

    ghost predicate Valid()
      reads this`logs, events, nextIndex
    {
      && events.Length0 == nextIndex.Length == |logs| && events.Length1 == TT_BUF_SIZE
      && forall c :: 0 <= c < |logs| ==> RingOk(c)
    }

    constructor (numCores: nat)
      ensures Valid() && freezeCount == 0 && !frozen && |logs| == numCores && (forall c :: 0 <= c < numCores ==> logs[c] == [])
      ensures fresh(events) && fresh(nextIndex)
    {
      events := new Event[numCores, TT_BUF_SIZE]((_, _) => Event(0, false, 0));
      nextIndex := new nat[numCores](_ => 0);
      freezeCount, frozen := 0, false;
      logs := seq(numCores, _ => []);
    }

    /** Records an event, unless the trace is being read. */
    method Record(c: nat, e: Event)
      requires Valid() && c < |logs| && e.present && e.timestamp < MAX_TIME
      requires logs[c] == [] || logs[c][|logs[c]| - 1].timestamp <= e.timestamp
      modifies this`logs, events, nextIndex
      ensures Valid() && logs == if freezeCount > 0 then old(logs) else old(logs)[c := old(logs)[c] + [e]]
    {
      hide RingIndex;
      if freezeCount > 0 {
        return;
      }
      assert RingOk(c);
      NextSlot(|logs[c]|);
      var index := nextIndex[c];
      nextIndex[c] := (index + 1) % TT_BUF_SIZE;
      events[c, index] := e;
      logs := logs[c := logs[c] + [e]];
      assert RingOk(c);
      forall d | 0 <= d < |logs| ensures RingOk(d) {
        if d != c { assert old(RingOk(d)); }
      }
    }

    /** The position in the ring where printing begins, for each core. */
    method FindOldest(pos: array<nat>) returns (startTime: nat)
      requires Valid() && pos.Length == |logs| && pos != nextIndex
      modifies pos
      ensures startTime == StartTime(logs)
      ensures forall c :: 0 <= c < |logs| ==>
        pos[c] == RingIndex(NotBefore(logs[c], FirstKept(logs[c]), startTime))
    {
      hide RingIndex, NotBefore;
      FirstSlot();
      startTime := 0;
      for c := 0 to nextIndex.Length
        invariant startTime == StartTime(logs[..c])
        invariant forall d :: 0 <= d < c ==> pos[d] == RingIndex(FirstKept(logs[d]))
      {
        assert RingOk(c) && logs[..c + 1][..c] == logs[..c];
        if !events[c, TT_BUF_SIZE - 1].present {
          pos[c] := 0;
        } else {
          var index := (nextIndex[c] + 1) % TT_BUF_SIZE;
          Wrapped(logs[c]);
          pos[c] := index;
          if events[c, index].timestamp > startTime {
            startTime := events[c, index].timestamp;
          }
        }
      }
      assert logs[..nextIndex.Length] == logs;
      for c := 0 to nextIndex.Length
        invariant forall d :: 0 <= d < c ==> pos[d] == RingIndex(NotBefore(logs[d], FirstKept(logs[d]), startTime))
        invariant forall d :: c <= d < |logs| ==> pos[d] == RingIndex(FirstKept(logs[d]))
      {
        SkipOld(pos, c, startTime);
      }
    }

    /** The position of each core, in the ring and in the log. */
    ghost predicate At(pos: array<nat>, cur: seq<nat>)
      requires pos.Length == |logs|
      reads this`logs, pos
    {
      && |cur| == |logs|
      && forall c :: 0 <= c < |logs| ==> FirstKept(logs[c]) <= cur[c] <= |logs[c]| && pos[c] == RingIndex(cur[c])
    }

    /** The core with the earliest event that is left, or a negative number. */
    method FindEarliest(pos: array<nat>, ghost cur: seq<nat>) returns (core: int)
      requires Valid() && pos.Length == |logs| && At(pos, cur)
      ensures core < 0 ==> forall c :: 0 <= c < |logs| ==> cur[c] == |logs[c]|
      ensures core < |logs| && (core >= 0 ==> cur[core] < |logs[core]|)
      ensures forall c :: 0 <= c < core && cur[c] < |logs[c]| ==> logs[core][cur[core]].timestamp < logs[c][cur[c]].timestamp
      ensures core >= 0 ==> Earliest(logs, cur, core) && events[core, pos[core]] == logs[core][cur[core]]
    {
      hide RingIndex;
      var earliest := MAX_TIME;
      core := -1;
      for c := 0 to nextIndex.Length
        invariant core < 0 ==> earliest == MAX_TIME && forall d :: 0 <= d < c ==> cur[d] == |logs[d]|
        invariant core >= 0 ==> core < c && cur[core] < |logs[core]| && earliest == logs[core][cur[core]].timestamp
        invariant core >= 0 ==> events[core, pos[core]] == logs[core][cur[core]]
        invariant forall d :: 0 <= d < c && cur[d] < |logs[d]| ==> earliest <= logs[d][cur[d]].timestamp
        invariant forall d :: 0 <= d < core && cur[d] < |logs[d]| ==> earliest < logs[d][cur[d]].timestamp
      {
        assert RingOk(c);
        InRing(logs[c], cur[c]);
        if pos[c] != nextIndex[c] && events[c, pos[c]].timestamp < earliest {
          core := c;
          earliest := events[c, pos[c]].timestamp;
        }
      }
    }

    /** Prints the trace. */
    method Print() returns (out: seq<Line>)
      requires Valid()
      modifies this`freezeCount
      ensures Valid() && freezeCount == old(freezeCount)
      ensures Merged(out, logs)
    {
      hide RingIndex, NotBefore, Merged;
      freezeCount := freezeCount + 1;
      var pos := new nat[nextIndex.Length];
      var start := FindOldest(pos);
      out := MergeRings(pos, Froms(logs, start));
      freezeCount := freezeCount - 1;
    }

    /** Prints the next event of a core. */
    method PrintNext(pos: array<nat>, core: nat, ghost from: seq<nat>, ghost cur: seq<nat>, out: seq<Line>)
      returns (out': seq<Line>)
      requires Valid() && pos.Length == |logs| && pos != nextIndex && At(pos, cur)
      requires Partial(logs, from, cur, out) && Earliest(logs, cur, core)
      requires events[core, pos[core]] == logs[core][cur[core]]
      modifies pos
      ensures At(pos, cur[core := cur[core] + 1]) && Partial(logs, from, cur[core := cur[core] + 1], out')
      ensures Left(logs, cur[core := cur[core] + 1]) < Left(logs, cur)
    {
      hide RingIndex, Partial, Left;
      assert RingOk(core);
      PartialMore(logs, from, cur, out, core);
      LeftLess(logs, cur, core);
      InRing(logs[core], cur[core]);
      out' := out + [Line(core, events[core, pos[core]])];
      pos[core] := (pos[core] + 1) % TT_BUF_SIZE;
    }

    /** Takes the earliest event again and again. */
    method MergeRings(pos: array<nat>, ghost from: seq<nat>) returns (out: seq<Line>)
      requires Valid() && pos.Length == |logs| && pos != nextIndex && At(pos, from)
      requires from == Froms(logs, StartTime(logs))
      modifies pos
      ensures Merged(out, logs)
    {
      hide RingIndex, NotBefore, Partial, Merged, Left, Earliest, LogOk;
      ghost var cur := from;
      NothingPrinted(logs, from);
      out := [];
      while true
        invariant At(pos, cur) && Partial(logs, from, cur, out)
        decreases Left(logs, cur)
      {
        var core := FindEarliest(pos, cur);
        if core < 0 {
          break;
        }
        out := PrintNext(pos, core, from, cur, out);
        cur := cur[core := cur[core] + 1];
      }
      AllPrinted(logs, from, cur, out);
    }

    /** A reader is done; the last one ends a freeze and resets all rings. */
    method Release()
      requires Valid() && freezeCount > 0
      modifies this`freezeCount, this`frozen, this`logs, events, nextIndex
      ensures Valid() && |logs| == |old(logs)|
      ensures if old(freezeCount == 1 || (frozen && freezeCount == 2))
              then freezeCount == 0 && forall c :: 0 <= c < |logs| ==> logs[c] == []
              else freezeCount == old(freezeCount) - 1 && logs == old(logs)
      ensures frozen == old(frozen && freezeCount != 2)
    {
      if frozen && freezeCount == 2 {
        freezeCount := freezeCount - 1;
        frozen := false;
      }
      if freezeCount == 1 {
        for c := 0 to nextIndex.Length
          invariant Valid() && |logs| == |old(logs)| && freezeCount == 1 && frozen == old(frozen && freezeCount != 2)
          invariant forall d :: 0 <= d < c ==> logs[d] == []
        {
          ResetRing(c);
        }
      }
      freezeCount := freezeCount - 1;
    }

    method ResetRing(c: nat)
      requires Valid() && c < |logs|
      modifies this`logs, events, nextIndex
      ensures Valid() && logs == old(logs)[c := []]
    {
      hide RingIndex;
      FirstSlot();
      events[c, TT_BUF_SIZE - 1] := events[c, TT_BUF_SIZE - 1].(present := false);
      nextIndex[c] := 0;
      logs := logs[c := []];
      forall d | 0 <= d < |logs| ensures RingOk(d) {
        if d != c { assert old(RingOk(d)); }
      }
    }

    /** Skips the events of a core before the start time. */
    method SkipOld(pos: array<nat>, c: nat, startTime: nat)
      requires Valid() && pos.Length == |logs| && pos != nextIndex && c < |logs|
      requires pos[c] == RingIndex(FirstKept(logs[c]))
      modifies pos
      ensures pos[c] == RingIndex(NotBefore(logs[c], FirstKept(logs[c]), startTime))
      ensures forall d :: 0 <= d < |logs| && d != c ==> pos[d] == old(pos[d])
    {
      hide RingIndex;
      assert RingOk(c);
      ghost var from, log := FirstKept(logs[c]), logs[c];
      InRing(log, from);
      while events[c, pos[c]].timestamp < startTime && pos[c] != nextIndex[c]
        invariant FirstKept(log) <= from <= |log| && pos[c] == RingIndex(from)
        invariant NotBefore(log, from, startTime) == NotBefore(log, FirstKept(log), startTime)
        invariant forall d :: 0 <= d < |logs| && d != c ==> pos[d] == old(pos[d])
        decreases |log| - from
      {
        InRing(log, from);
        pos[c] := (pos[c] + 1) % TT_BUF_SIZE;
        from := from + 1;
      }
      InRing(log, from);
    }
  }

  /** Where printing begins for each core. */
  ghost function Froms(logs: seq<seq<Event>>, start: nat): (from: seq<nat>)
    ensures |from| == |logs|
    ensures forall c :: 0 <= c < |logs| ==>
      FirstKept(logs[c]) <= from[c] <= |logs[c]| && from[c] == NotBefore(logs[c], FirstKept(logs[c]), start)
  {
    seq(|logs|, c requires 0 <= c < |logs| => NotBefore(logs[c], FirstKept(logs[c]), start))
  }

  lemma NothingPrinted(logs: seq<seq<Event>>, from: seq<nat>)
    requires |from| == |logs| && forall c :: 0 <= c < |logs| ==> from[c] <= |logs[c]|
    ensures Partial(logs, from, from, [])
  {
  }

  lemma AllPrinted(logs: seq<seq<Event>>, from: seq<nat>, cur: seq<nat>, out: seq<Line>)
    requires Partial(logs, from, cur, out) && forall c :: 0 <= c < |logs| ==> cur[c] == |logs[c]|
    requires forall c :: 0 <= c < |logs| ==> from[c] == NotBefore(logs[c], FirstKept(logs[c]), StartTime(logs))
    ensures Merged(out, logs)
  {
  }

  lemma FirstSlot()
    ensures RingIndex(0) == 0
  {
  }

  /** In a full ring, the first event that is kept comes after the next index. */
  lemma Wrapped(log: seq<Event>)
    requires |log| >= TT_BUF_SIZE
    ensures (RingIndex(|log|) + 1) % TT_BUF_SIZE == RingIndex(FirstKept(log))
    ensures FirstKept(log) < |log|
  {
  }

  /** A kept event is where the next index is only if it is past the end. */
  lemma InRing(log: seq<Event>, k: nat)
    requires FirstKept(log) <= k <= |log|
    ensures RingIndex(k) == RingIndex(|log|) <==> k == |log|
    ensures (RingIndex(k) + 1) % TT_BUF_SIZE == RingIndex(k + 1)
    ensures k >= |log| - TT_BUF_SIZE
  {
  }
}
