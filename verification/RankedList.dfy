/** Lists kept in grant-priority order: the ordering test of the grant
    scheduler, the two ways it positions an element of a list, and the stable
    sort that serves as reference for the choice of active messages. */
module RankedList {
  import opened Sequences

  /** What decides the priority of an incoming message for grants. */
  datatype Rank = Rank(remaining: int, birth: nat)

  /** An identifier of an RPC or of a peer. */
  type Id = nat

  /** True if `a` has strictly higher priority than `b`: fewest bytes
      remaining first, the older message among equals. */
  predicate Outranks(a: Rank, b: Rank) {
    || a.remaining < b.remaining
    || (a.remaining == b.remaining && a.birth < b.birth)
  }

  /** The order is strict, transitive through ties, and ties are exactly the
      pairs of equal ranks. Fewer bytes decide, then age. */
  lemma OutranksIsStrictTotal(a: Rank, b: Rank, c: Rank)
    ensures Outranks(a, b) ==> a.remaining <= b.remaining
    ensures a.remaining == b.remaining ==> (Outranks(a, b) <==> a.birth < b.birth)
    ensures !(Outranks(a, b) && Outranks(b, a))
    ensures Outranks(a, b) && !Outranks(c, b) ==> Outranks(a, c)
    ensures !Outranks(b, a) && !Outranks(c, b) ==> !Outranks(c, a)
    ensures !Outranks(a, b) && !Outranks(b, a) <==> a == b
  {
  }

  /** The rank of `x`; identifiers without an entry get a fixed rank, so that
      the definitions below are total. */
  function RankOf(ranks: map<Id, Rank>, x: Id): Rank {
    if x in ranks then ranks[x] else Rank(0, 0)
  }

  /** No element is outranked by a later one. */
  ghost predicate Sorted(s: seq<Id>, ranks: map<Id, Rank>) {
    forall i, j :: 0 <= i < j < |s| ==> !Outranks(RankOf(ranks, s[j]), RankOf(ranks, s[i]))
  }

  // ----- Positioning one element -----

  /** The place of `x` in `s`. */
  method IndexOf(s: seq<Id>, x: Id) returns (at: nat)
    requires x in s
    ensures at < |s| && s[at] == x
  {
    at := 0;
    while s[at] != x
      invariant at < |s| && x in s[at..]
      decreases |s| - at
    {
      at := at + 1;
    }
  }

  /** Where the scheduler's forward scans put a new element with rank `k`:
      before the first entry that `k` outranks. */
  method FindSlot(s: seq<Id>, k: Rank, ranks: map<Id, Rank>) returns (i: nat)
    ensures i <= |s|
    ensures forall j :: 0 <= j < i ==> !Outranks(k, RankOf(ranks, s[j]))
    ensures i < |s| ==> Outranks(k, RankOf(ranks, s[i]))
  {
    i := 0;
    while i < |s| && !Outranks(k, RankOf(ranks, s[i]))
      invariant i <= |s|
      invariant forall j :: 0 <= j < i ==> !Outranks(k, RankOf(ranks, s[j]))
    {
      i := i + 1;
    }
  }

  /** The scheduler's upward moves: the element at `at`, taken to have rank
      `k`, changes places with its predecessor while it outranks it. */
  method MoveUp(s: seq<Id>, at: nat, k: Rank, ranks: map<Id, Rank>) returns (t: seq<Id>, i: nat)
    requires at < |s|
    ensures i <= at
    ensures t == s[..i] + [s[at]] + s[i..at] + s[at + 1..]
    ensures forall j :: i <= j < at ==> Outranks(k, RankOf(ranks, s[j]))
    ensures i > 0 ==> !Outranks(k, RankOf(ranks, s[i - 1]))
  {
    t, i := s, at;
    while i > 0 && Outranks(k, RankOf(ranks, t[i - 1]))
      invariant i <= at
      invariant t == s[..i] + [s[at]] + s[i..at] + s[at + 1..]
      invariant forall j :: i <= j < at ==> Outranks(k, RankOf(ranks, s[j]))
    {
      assert t[i - 1] == s[i - 1];
      t := t[i := t[i - 1]][i - 1 := t[i]];
      i := i - 1;
    }
    assert i > 0 ==> t[i - 1] == s[i - 1];
  }

  /** The scheduler's downward moves: the element at `at`, taken to have rank
      `k`, changes places with its successor while it outranks it. */
  method MoveDown(s: seq<Id>, at: nat, k: Rank, ranks: map<Id, Rank>) returns (t: seq<Id>, i: nat)
    requires at < |s|
    ensures at <= i < |s|
    ensures t == s[..at] + s[at + 1..i + 1] + [s[at]] + s[i + 1..]
    ensures forall j :: at < j <= i ==> Outranks(k, RankOf(ranks, s[j]))
    ensures i + 1 < |s| ==> !Outranks(k, RankOf(ranks, s[i + 1]))
  {
    t, i := s, at;
    while i + 1 < |s| && Outranks(k, RankOf(ranks, t[i + 1]))
      invariant at <= i < |s|
      invariant t == s[..at] + s[at + 1..i + 1] + [s[at]] + s[i + 1..]
      invariant forall j :: at < j <= i ==> Outranks(k, RankOf(ranks, s[j]))
    {
      assert t[i + 1] == s[i + 1];
      t := t[i := t[i + 1]][i + 1 := t[i]];
      i := i + 1;
    }
    assert i + 1 < |s| ==> t[i + 1] == s[i + 1];
  }

  /** Placing `x` in a sorted list with nothing before it outranked by it and
      nothing after it outranking it keeps the list sorted. */
  lemma SortedAround(a: seq<Id>, x: Id, b: seq<Id>, ranks: map<Id, Rank>)
    requires Sorted(a + b, ranks)
    requires forall j :: 0 <= j < |a| ==> !Outranks(RankOf(ranks, x), RankOf(ranks, a[j]))
    requires forall j :: 0 <= j < |b| ==> !Outranks(RankOf(ranks, b[j]), RankOf(ranks, x))
    ensures Sorted(a + [x] + b, ranks)
  {
    var s, t := a + b, a + [x] + b;
    forall i, j | 0 <= i < j < |t| ensures !Outranks(RankOf(ranks, t[j]), RankOf(ranks, t[i])) {
      var i', j' := if i > |a| then i - 1 else i, if j > |a| then j - 1 else j;
      if i != |a| && j != |a| {
        assert t[i] == s[i'] && t[j] == s[j'];
      } else if j == |a| {
        assert t[i] == a[i];
      } else {
        assert t[j] == b[j - |a| - 1];
      }
    }
  }

  /** Scanning forward in a sorted list finds the slot that keeps it sorted. */
  lemma FoundSlotKeepsSorted(s: seq<Id>, x: Id, i: nat, ranks: map<Id, Rank>)
    requires Sorted(s, ranks) && i <= |s|
    requires forall j :: 0 <= j < i ==> !Outranks(RankOf(ranks, x), RankOf(ranks, s[j]))
    requires i < |s| ==> Outranks(RankOf(ranks, x), RankOf(ranks, s[i]))
    ensures Sorted(s[..i] + [x] + s[i..], ranks)
    ensures forall j :: i <= j < |s| ==> Outranks(RankOf(ranks, x), RankOf(ranks, s[j]))
  {
    assert s[..i] + s[i..] == s;
    SortedAround(s[..i], x, s[i..], ranks);
  }

  /** Moving up restores order when only the moved element sat too low. */
  lemma MovedUpIsSorted(a: seq<Id>, x: Id, b: seq<Id>, i: nat, ranks: map<Id, Rank>)
    requires Sorted(a + b, ranks) && i <= |a|
    requires forall j :: 0 <= j < |b| ==> !Outranks(RankOf(ranks, b[j]), RankOf(ranks, x))
    requires forall j :: i <= j < |a| ==> Outranks(RankOf(ranks, x), RankOf(ranks, a[j]))
    requires i > 0 ==> !Outranks(RankOf(ranks, x), RankOf(ranks, a[i - 1]))
    ensures Sorted(a[..i] + [x] + a[i..] + b, ranks)
  {
    var s := a + b;
    assert a[..i] + (a[i..] + b) == s;
    forall j | 0 <= j < i ensures !Outranks(RankOf(ranks, x), RankOf(ranks, a[j])) {
      assert s[j] == a[j] && s[i - 1] == a[i - 1];
    }
    SortedAround(a[..i], x, a[i..] + b, ranks);
    assert a[..i] + [x] + (a[i..] + b) == a[..i] + [x] + a[i..] + b;
  }

  // ----- The reference: a stable sort -----

  /** The slot of `x` in `s`: before the first entry that `x` outranks. */
  ghost function Slot(s: seq<Id>, x: Id, ranks: map<Id, Rank>): (i: nat)
    ensures i <= |s|
    ensures forall j :: 0 <= j < i ==> !Outranks(RankOf(ranks, x), RankOf(ranks, s[j]))
    ensures i < |s| ==> Outranks(RankOf(ranks, x), RankOf(ranks, s[i]))
  {
    if s == [] || Outranks(RankOf(ranks, x), RankOf(ranks, s[0])) then 0
    else 1 + Slot(s[1..], x, ranks)
  }

  ghost function Insert(s: seq<Id>, x: Id, ranks: map<Id, Rank>): seq<Id> {
    var i := Slot(s, x, ranks); s[..i] + [x] + s[i..]
  }

  ghost function StableSort(c: seq<Id>, ranks: map<Id, Rank>): (s: seq<Id>)
    ensures |s| == |c|
  {
    if c == [] then [] else Insert(StableSort(c[..|c| - 1], ranks), c[|c| - 1], ranks)
  }

  /** The elements of `s` with rank `k`, in order. */
  ghost function WithRank(s: seq<Id>, k: Rank, ranks: map<Id, Rank>): seq<Id> {
    if s == [] then []
    else (if RankOf(ranks, s[0]) == k then [s[0]] else []) + WithRank(s[1..], k, ranks)
  }

  lemma {:induction false} WithRankConcat(a: seq<Id>, b: seq<Id>, k: Rank, ranks: map<Id, Rank>)
    ensures WithRank(a + b, k, ranks) == WithRank(a, k, ranks) + WithRank(b, k, ranks)
  {
    if a == [] {
      assert a + b == b;
    } else {
      assert (a + b)[1..] == a[1..] + b;
      WithRankConcat(a[1..], b, k, ranks);
    }
  }

  lemma {:induction false} WithRankNone(s: seq<Id>, k: Rank, ranks: map<Id, Rank>)
    requires forall j :: 0 <= j < |s| ==> RankOf(ranks, s[j]) != k
    ensures WithRank(s, k, ranks) == []
  {
    if s != [] { WithRankNone(s[1..], k, ranks); }
  }

  lemma {:induction false} WithRankAround(a: seq<Id>, x: Id, b: seq<Id>, k: Rank, ranks: map<Id, Rank>)
    ensures WithRank(a + [x] + b, k, ranks) ==
            WithRank(a, k, ranks) + (if k == RankOf(ranks, x) then [x] else []) + WithRank(b, k, ranks)
  {
    assert WithRank([x], k, ranks) == if k == RankOf(ranks, x) then [x] else [] by { assert [x][1..] == []; }
    WithRankConcat(a, [x], k, ranks);
    WithRankConcat(a + [x], b, k, ranks);
  }

  lemma {:induction false} WithRankSplit(s: seq<Id>, i: nat, k: Rank, ranks: map<Id, Rank>)
    requires i <= |s|
    ensures WithRank(s, k, ranks) == WithRank(s[..i], k, ranks) + WithRank(s[i..], k, ranks)
  {
    assert s == s[..i] + s[i..];
    WithRankConcat(s[..i], s[i..], k, ranks);
  }

  /** No entry of the rank of `x` lies behind the slot of `x`. */
  lemma {:induction false} NoneBehindSlot(s: seq<Id>, x: Id, ranks: map<Id, Rank>)
    requires Sorted(s, ranks)
    ensures WithRank(s[Slot(s, x, ranks)..], RankOf(ranks, x), ranks) == []
  {
    var i := Slot(s, x, ranks);
    FoundSlotKeepsSorted(s, x, i, ranks);
    forall j | 0 <= j < |s[i..]| ensures RankOf(ranks, s[i..][j]) != RankOf(ranks, x) {
      assert s[i..][j] == s[i + j];
    }
    WithRankNone(s[i..], RankOf(ranks, x), ranks);
  }

  /** Inserting adds `x` behind the entries of its own rank. */
  lemma {:induction false} InsertAppendsToRank(s: seq<Id>, x: Id, k: Rank, ranks: map<Id, Rank>)
    requires Sorted(s, ranks)
    ensures WithRank(Insert(s, x, ranks), k, ranks) ==
            WithRank(s, k, ranks) + (if k == RankOf(ranks, x) then [x] else [])
  {
    hide WithRank, Sorted;
    var i := Slot(s, x, ranks);
    WithRankSplit(s, i, k, ranks);
    WithRankAround(s[..i], x, s[i..], k, ranks);
    NoneBehindSlot(s, x, ranks);
    Commute(WithRank(s[..i], k, ranks), if k == RankOf(ranks, x) then [x] else [], WithRank(s[i..], k, ranks));
  }

  lemma Commute(a: seq<Id>, y: seq<Id>, b: seq<Id>)
    requires y == [] || b == []
    ensures a + y + b == a + b + y
  {
  }

  /** The reference is a sort: its result is in order, and the entries of each
      rank are the given ones in the given order (so it is a permutation, and
      it is stable). */
  lemma {:induction false} StableSortSorts(c: seq<Id>, ranks: map<Id, Rank>)
    ensures Sorted(StableSort(c, ranks), ranks)
    ensures forall k :: WithRank(StableSort(c, ranks), k, ranks) == WithRank(c, k, ranks)
  {
    if c != [] {
      var n := |c| - 1;
      var x, s := c[n], StableSort(c[..n], ranks);
      StableSortSorts(c[..n], ranks);
      FoundSlotKeepsSorted(s, x, Slot(s, x, ranks), ranks);
      forall k ensures WithRank(StableSort(c, ranks), k, ranks) == WithRank(c, k, ranks) {
        assert c == c[..n] + [x];
        WithRankConcat(c[..n], [x], k, ranks);
        InsertAppendsToRank(s, x, k, ranks);
      }
    }
  }

  lemma {:induction false} StableSortMembers(c: seq<Id>, ranks: map<Id, Rank>, x: Id)
    ensures x in StableSort(c, ranks) <==> x in c
  {
    if c != [] {
      var n := |c| - 1;
      StableSortMembers(c[..n], ranks, x);
      assert c == c[..n] + [c[n]];
      InsertMembers(StableSort(c[..n], ranks), c[n], ranks, x);
    }
  }

  lemma InsertMembers(s: seq<Id>, y: Id, ranks: map<Id, Rank>, x: Id)
    ensures x in Insert(s, y, ranks) <==> x in s || x == y
  {
    var i := Slot(s, y, ranks);
    assert s == s[..i] + s[i..];
  }

  /** Order and per-rank contents leave only one list: whatever is sorted and
      keeps the entries of each rank in order is the stable sort. */
  lemma {:induction false} SortedIsUnique(s: seq<Id>, t: seq<Id>, ranks: map<Id, Rank>)
    requires Sorted(s, ranks) && Sorted(t, ranks)
    requires forall k :: WithRank(s, k, ranks) == WithRank(t, k, ranks)
    ensures s == t
  {
    if s == [] {
      if t != [] { FromWithRank(s, RankOf(ranks, t[0]), ranks); }
    } else {
      var k := RankOf(ranks, s[0]);
      assert WithRank(s, k, ranks)[0] == s[0];
      if t == [] { assert false; }
      var k' := RankOf(ranks, t[0]);
      assert WithRank(t, k', ranks)[0] == t[0];
      FromWithRank(t, k, ranks);
      FromWithRank(s, k', ranks);
      assert k == k';
      forall q ensures WithRank(s[1..], q, ranks) == WithRank(t[1..], q, ranks) {
        assert WithRank(s, q, ranks) == WithRank(t, q, ranks);
        if q == k {
          assert WithRank(s, q, ranks)[1..] == WithRank(s[1..], q, ranks);
          assert WithRank(t, q, ranks)[1..] == WithRank(t[1..], q, ranks);
        } else {
          assert WithRank(s, q, ranks) == WithRank(s[1..], q, ranks);
          assert WithRank(t, q, ranks) == WithRank(t[1..], q, ranks);
        }
      }
      SortedIsUnique(s[1..], t[1..], ranks);
    }
  }

  /** A rank with entries occurs in the list. */
  lemma {:induction false} FromWithRank(s: seq<Id>, k: Rank, ranks: map<Id, Rank>)
    requires WithRank(s, k, ranks) != []
    ensures exists j :: 0 <= j < |s| && RankOf(ranks, s[j]) == k
  {
    if RankOf(ranks, s[0]) != k {
      FromWithRank(s[1..], k, ranks);
      var j :| 0 <= j < |s[1..]| && RankOf(ranks, s[1..][j]) == k;
      assert RankOf(ranks, s[j + 1]) == k;
    }
  }

  /** In a sorted list the slot can be found from either end. */
  lemma SlotIs(s: seq<Id>, x: Id, pos: nat, ranks: map<Id, Rank>)
    requires Sorted(s, ranks) && pos <= |s|
    requires forall j :: pos <= j < |s| ==> Outranks(RankOf(ranks, x), RankOf(ranks, s[j]))
    requires pos > 0 ==> !Outranks(RankOf(ranks, x), RankOf(ranks, s[pos - 1]))
    ensures Slot(s, x, ranks) == pos
  {
    var i := Slot(s, x, ranks);
    if i < pos {
      OutranksIsStrictTotal(RankOf(ranks, x), RankOf(ranks, s[i]), RankOf(ranks, s[pos - 1]));
    }
  }

  // ----- Keeping only the best m entries -----

  ghost function Take(s: seq<Id>, m: nat): (t: seq<Id>)
    ensures |t| <= m && |t| <= |s|
  {
    if |s| <= m then s else s[..m]
  }

  /** Cutting to `m` entries commutes with inserting into a sorted list. */
  lemma InsertThenTake(s: seq<Id>, x: Id, m: nat, ranks: map<Id, Rank>)
    requires Sorted(s, ranks)
    ensures Take(Insert(s, x, ranks), m) == Take(Insert(Take(s, m), x, ranks), m)
  {
    var i, j := Slot(s, x, ranks), Slot(Take(s, m), x, ranks);
    if |s| > m {
      if i < m {
        assert j <= m && (j < m ==> Outranks(RankOf(ranks, x), RankOf(ranks, s[j])));
        assert j >= i;
        assert i == j;
      } else {
        assert j == m;
      }
    }
  }

  /** Inserting and cutting keep a list of distinct entries in order. */
  lemma InsertKeeps(s: seq<Id>, x: Id, m: nat, ranks: map<Id, Rank>)
    requires Sorted(s, ranks) && Distinct(s) && x !in s
    ensures var t := Take(Insert(s, x, ranks), m);
      Sorted(t, ranks) && Distinct(t) && (forall y :: y in t ==> y in s || y == x)
  {
    var i := Slot(s, x, ranks);
    var t := Insert(s, x, ranks);
    FoundSlotKeepsSorted(s, x, i, ranks);
    forall j, k | 0 <= j < k < |t| ensures t[j] != t[k] {
      assert t[j] == if j < i then s[j] else if j == i then x else s[j - 1];
      assert t[k] == if k < i then s[k] else if k == i then x else s[k - 1];
    }
  }

  /** The best `m` of some candidates and one more depend only on the best
      `m` of the former. */
  lemma BestOfOneMore(c: seq<Id>, x: Id, m: nat, ranks: map<Id, Rank>)
    ensures Take(StableSort(c + [x], ranks), m) == Take(Insert(Take(StableSort(c, ranks), m), x, ranks), m)
  {
    assert (c + [x])[..|c|] == c;
    StableSortSorts(c, ranks);
    InsertThenTake(StableSort(c, ranks), x, m, ranks);
  }

  lemma OneDoesNotFit(c: seq<Id>, x: Id, m: nat, ranks: map<Id, Rank>)
    requires |c| >= m
    requires m > 0 ==> !Outranks(RankOf(ranks, x), RankOf(ranks, Take(StableSort(c, ranks), m)[m - 1]))
    ensures Take(StableSort(c + [x], ranks), m) == Take(StableSort(c, ranks), m)
  {
    var s := StableSort(c, ranks);
    assert (c + [x])[..|c|] == c;
    assert StableSort(c + [x], ranks) == Insert(s, x, ranks);
    StableSortSorts(c, ranks);
    var i := Slot(s, x, ranks);
    if i < m { OutranksIsStrictTotal(RankOf(ranks, x), RankOf(ranks, s[i]), RankOf(ranks, s[m - 1])); }
  }

  /** Once `m` entries are kept and the last of them is not outranked by any
      further candidate, the further candidates change nothing. */
  lemma {:induction false} RestDoesNotFit(c: seq<Id>, rest: seq<Id>, m: nat, ranks: map<Id, Rank>)
    requires |c| >= m
    requires m > 0 ==> forall y :: y in rest ==>
      !Outranks(RankOf(ranks, y), RankOf(ranks, Take(StableSort(c, ranks), m)[m - 1]))
    ensures Take(StableSort(c + rest, ranks), m) == Take(StableSort(c, ranks), m)
  {
    if rest == [] {
      assert c + rest == c;
    } else {
      var n := |rest| - 1;
      RestDoesNotFit(c, rest[..n], m, ranks);
      assert rest[n] in rest;
      OneDoesNotFit(c + rest[..n], rest[n], m, ranks);
      assert c + rest == c + rest[..n] + [rest[n]];
    }
  }
}
