/** What the grant scheduler knows about incoming messages, and how its
    two-level list of grantable messages should look. */
module GrantState {
  import opened RankedList
  import opened Sequences

  /** The part of an incoming message (and its RPC) that grants depend on. */
  datatype MsgIn = MsgIn(
    peer: Id,
    length: int,
    bytesRemaining: int,
    granted: int,
    recIncoming: int,   // this message's contribution to totalIncoming
    rank: int,          // index in the active array, or -1
    priority: int,
    resendAll: bool,
    birth: nat,         // when the message became grantable
    silentTicks: int,
    numBpages: nat)     // 0 while waiting for buffer space

  /** A GRANT packet. */
  datatype GrantPkt = GrantPkt(rpc: Id, offset: int, priority: int, resendAll: bool)

  function Received(m: MsgIn): int {
    m.length - m.bytesRemaining
  }

  /** Bytes granted but not yet received. */
  function Incoming(m: MsgIn): (n: int)
    ensures n >= 0
  {
    if m.granted < Received(m) then 0 else m.granted - Received(m)
  }

  /** The part of a message that the scheduler never changes. */
  function Fixed(m: MsgIn): MsgIn {
    m.(granted := 0, recIncoming := 0, rank := -1, priority := 0, resendAll := false)
  }

  /** The contribution recorded for `m` is what it has outstanding. */
  ghost predicate UpToDate(m: MsgIn) {
    m.recIncoming == Incoming(m)
  }

  /** Only grant bookkeeping differs; grants are never taken back, and what is
      up to date stays so. */
  ghost predicate OnlyGrantsChanged(a: map<Id, MsgIn>, b: map<Id, MsgIn>) {
    && a.Keys == b.Keys
    && forall r :: r in a ==>
         Fixed(a[r]) == Fixed(b[r]) && a[r].granted <= b[r].granted && (UpToDate(a[r]) ==> UpToDate(b[r]))
  }

  // ----- The lists -----

  /** A peer's list of grantable RPCs; peers without an entry have none. */
  function ListOf(lists: map<Id, seq<Id>>, p: Id): seq<Id> {
    if p in lists then lists[p] else []
  }

  function Ranks(msgs: map<Id, MsgIn>): map<Id, Rank> {
    map r | r in msgs :: Rank(msgs[r].bytesRemaining, msgs[r].birth)
  }

  /** The rank of each peer: that of its first RPC. */
  function HeadRanks(msgs: map<Id, MsgIn>, lists: map<Id, seq<Id>>): map<Id, Rank> {
    map p | p in lists && lists[p] != [] :: RankOf(Ranks(msgs), lists[p][0])
  }

  /** The links are consistent: lists hold live RPCs of their own peer, once
      each, and the peers linked at the top level are those with RPCs. */
  ghost predicate Linked(msgs: map<Id, MsgIn>, lists: map<Id, seq<Id>>, peers: seq<Id>) {
    && Distinct(peers)
    && (forall p :: p in lists ==> Distinct(lists[p]))
    && (forall p, r :: p in lists && r in lists[p] ==> r in msgs && msgs[r].peer == p)
    && (forall p :: p in peers <==> p in lists && lists[p] != [])
  }

  predicate InList(msgs: map<Id, MsgIn>, lists: map<Id, seq<Id>>, r: Id) {
    r in msgs && r in ListOf(lists, msgs[r].peer)
  }

  ghost function GrantableSet(msgs: map<Id, MsgIn>, lists: map<Id, seq<Id>>): set<Id> {
    set r | r in msgs && InList(msgs, lists, r)
  }

  /** Grantable RPCs whose contribution to the total is out of date. */
  ghost function StaleSet(msgs: map<Id, MsgIn>, lists: map<Id, seq<Id>>): set<Id> {
    set r | r in msgs && InList(msgs, lists, r) && msgs[r].recIncoming != Incoming(msgs[r])
  }

  /** Each peer's list is in priority order. */
  ghost predicate ListsSorted(msgs: map<Id, MsgIn>, lists: map<Id, seq<Id>>) {
    forall p :: p in lists ==> Sorted(lists[p], Ranks(msgs))
  }

  /** Both levels are in priority order. */
  ghost predicate Ordered(msgs: map<Id, MsgIn>, lists: map<Id, seq<Id>>, peers: seq<Id>) {
    && ListsSorted(msgs, lists)
    && Sorted(peers, HeadRanks(msgs, lists))
  }

  /** Both levels are in priority order, except that `r` may sit too low in
      its peer's list or be absent from it and, if `r` heads that list, its
      peer may sit too low. */
  ghost predicate OrderedExcept(msgs: map<Id, MsgIn>, lists: map<Id, seq<Id>>, peers: seq<Id>, r: Id)
    requires r in msgs
  {
    var p := msgs[r].peer;
    var list, ranks, heads := ListOf(lists, p), Ranks(msgs), HeadRanks(msgs, lists);
    && (forall q :: q in lists && q != p ==> Sorted(lists[q], ranks))
    && Sorted(Without(list, r), ranks)
    && (forall i, j :: 0 <= i < j < |list| && list[i] == r ==>
          !Outranks(RankOf(ranks, list[j]), RankOf(ranks, r)))
    && Sorted(Without(peers, p), heads)
    && (forall i, j :: 0 <= i < j < |peers| && peers[i] == p ==>
          !Outranks(RankOf(heads, peers[j]), RankOf(heads, p)))
    && (list != [] && list[0] != r ==> Sorted(peers, heads))
  }

  /** Shortest remaining first, the older message among equals. */
  predicate NotAfter(a: MsgIn, b: MsgIn) {
    a.bytesRemaining <= b.bytesRemaining && (a.bytesRemaining == b.bytesRemaining ==> a.birth <= b.birth)
  }

  /** Messages that follow each other as grants should go to them. */
  ghost predicate ShortestFirst(msgs: map<Id, MsgIn>, s: seq<Id>) {
    && (forall i :: 0 <= i < |s| ==> s[i] in msgs)
    && (forall i, j :: 0 <= i < j < |s| ==> NotAfter(msgs[s[i]], msgs[s[j]]))
  }

  /** The first message of each peer. */
  ghost function Heads(lists: map<Id, seq<Id>>, peers: seq<Id>): seq<Id>
    requires forall p :: p in peers ==> ListOf(lists, p) != []
  {
    seq(|peers|, i requires 0 <= i < |peers| => assert peers[i] in peers; ListOf(lists, peers[i])[0])
  }

  /** What order means for the messages at both levels. */
  lemma OrderedMeans(msgs: map<Id, MsgIn>, lists: map<Id, seq<Id>>, peers: seq<Id>)
    requires Linked(msgs, lists, peers)
    ensures forall p :: p in peers ==> ListOf(lists, p) != []
    ensures Ordered(msgs, lists, peers) <==>
      (forall p :: p in lists ==> ShortestFirst(msgs, lists[p])) && ShortestFirst(msgs, Heads(lists, peers))
  {
    hide Outranks, NotAfter;
    assert forall p :: p in peers ==> p in lists && lists[p] != [];
    forall p | p in lists ensures Sorted(lists[p], Ranks(msgs)) <==> ShortestFirst(msgs, lists[p]) {
      SortedMeans(msgs, lists[p]);
    }
    var heads := Heads(lists, peers);
    forall i | 0 <= i < |peers|
      ensures heads[i] in msgs && RankOf(HeadRanks(msgs, lists), peers[i]) == RankOf(Ranks(msgs), heads[i])
    {
      assert peers[i] in peers;
      assert lists[peers[i]][0] in lists[peers[i]];
    }
    SortedMeans(msgs, heads);
    assert Sorted(peers, HeadRanks(msgs, lists)) <==> Sorted(heads, Ranks(msgs));
  }

  lemma SortedMeans(msgs: map<Id, MsgIn>, s: seq<Id>)
    requires forall i :: 0 <= i < |s| ==> s[i] in msgs
    ensures Sorted(s, Ranks(msgs)) <==> ShortestFirst(msgs, s)
  {
    forall i, j | 0 <= i < |s| && 0 <= j < |s|
      ensures Outranks(RankOf(Ranks(msgs), s[j]), RankOf(Ranks(msgs), s[i])) <==> !NotAfter(msgs[s[i]], msgs[s[j]])
    {
    }
  }

  // ----- Elementary facts about lists -----

  lemma SortedFrame(s: seq<Id>, ranks: map<Id, Rank>, ranks': map<Id, Rank>)
    requires Sorted(s, ranks)
    requires forall x :: x in s ==> RankOf(ranks', x) == RankOf(ranks, x)
    ensures Sorted(s, ranks')
  {
    forall i, j | 0 <= i < j < |s|
      ensures !Outranks(RankOf(ranks', s[j]), RankOf(ranks', s[i]))
    {
      assert s[i] in s && s[j] in s;
    }
  }

  /** The split of a list around its entry at `k`. */
  lemma SplitAt(s: seq<Id>, k: nat)
    requires k < |s| && Distinct(s)
    ensures s == s[..k] + [s[k]] + s[k + 1..]
    ensures s[k] !in s[..k] && s[k] !in s[k + 1..]
    ensures Without(s, s[k]) == s[..k] + s[k + 1..]
  {
    WithoutAt(s[..k], s[k], s[k + 1..]);
  }

  /** Takes `x` out of the list. */
  method Unlink(s: seq<Id>, x: Id) returns (t: seq<Id>)
    requires Distinct(s) && x in s
    ensures t == Without(s, x)
  {
    var at := IndexOf(s, x);
    SplitAt(s, at);
    t := s[..at] + s[at + 1..];
  }

  lemma {:induction false} WithoutKeepsSorted(s: seq<Id>, x: Id, ranks: map<Id, Rank>)
    requires Sorted(s, ranks)
    ensures Sorted(Without(s, x), ranks)
  {
    if s != [] {
      var t := s[1..];
      assert Sorted(t, ranks) by {
        forall i, j | 0 <= i < j < |t| ensures !Outranks(RankOf(ranks, t[j]), RankOf(ranks, t[i])) {
          assert t[i] == s[i + 1] && t[j] == s[j + 1];
        }
      }
      WithoutKeepsSorted(t, x, ranks);
      WithoutMembers(t, x);
      var w := Without(t, x);
      forall j | 0 <= j < |w| ensures !Outranks(RankOf(ranks, w[j]), RankOf(ranks, s[0])) {
        assert w[j] in t;
        var k :| 0 <= k < |t| && t[k] == w[j];
        assert s[k + 1] == w[j];
      }
    }
  }

  /** What consistent links say about one peer. */
  lemma LinkedPeer(msgs: map<Id, MsgIn>, lists: map<Id, seq<Id>>, peers: seq<Id>, p: Id)
    requires Linked(msgs, lists, peers)
    ensures Distinct(peers) && Distinct(ListOf(lists, p))
    ensures p in peers <==> ListOf(lists, p) != []
    ensures forall r :: r in ListOf(lists, p) ==> r in msgs && msgs[r].peer == p
  {
  }

  // ----- Ranks depend only on what the scheduler never changes -----

  lemma RanksUnchanged(a: map<Id, MsgIn>, b: map<Id, MsgIn>)
    requires OnlyGrantsChanged(a, b)
    ensures Ranks(a) == Ranks(b)
  {
    forall r | r in a
      ensures a[r].bytesRemaining == b[r].bytesRemaining && a[r].birth == b[r].birth
    {
      assert Fixed(a[r]).bytesRemaining == Fixed(b[r]).bytesRemaining;
      assert Fixed(a[r]).birth == Fixed(b[r]).birth;
    }
  }

  lemma PeerUnchanged(a: map<Id, MsgIn>, b: map<Id, MsgIn>, lists: map<Id, seq<Id>>, peers: seq<Id>)
    requires OnlyGrantsChanged(a, b)
    ensures forall r :: r in a ==> a[r].peer == b[r].peer
    ensures Linked(a, lists, peers) ==> Linked(b, lists, peers)
    ensures GrantableSet(a, lists) == GrantableSet(b, lists)
  {
    forall r | r in a ensures a[r].peer == b[r].peer { assert Fixed(a[r]).peer == Fixed(b[r]).peer; }
  }

  // ----- Adding and repositioning -----

  /** The first half of adding: the peer's own list is back in order. */
  lemma ListRepositioned(s: seq<Id>, at: nat, i: nat, t: seq<Id>, ranks: map<Id, Rank>)
    requires at < |s| && i <= at && Distinct(s)
    requires Sorted(Without(s, s[at]), ranks)
    requires forall j :: at < j < |s| ==> !Outranks(RankOf(ranks, s[j]), RankOf(ranks, s[at]))
    requires t == s[..i] + [s[at]] + s[i..at] + s[at + 1..]
    requires forall j :: i <= j < at ==> Outranks(RankOf(ranks, s[at]), RankOf(ranks, s[j]))
    requires i > 0 ==> !Outranks(RankOf(ranks, s[at]), RankOf(ranks, s[i - 1]))
    ensures Sorted(t, ranks)
  {
    SplitAt(s, at);
    MovedUpIsSorted(s[..at], s[at], s[at + 1..], i, ranks);
    assert s[..at][..i] == s[..i] && s[..at][i..] == s[i..at];
  }

  /** `t` is `s` with `x` added or moved, and nothing else changed. */
  ghost predicate SameRest(s: seq<Id>, t: seq<Id>, x: Id) {
    && Distinct(t)
    && (forall y :: y in t <==> y in s || y == x)
    && Without(t, x) == Without(s, x)
  }

  /** The two ways of naming a list by its entries before and after `x`. */
  lemma SameRestAround(s: seq<Id>, a: seq<Id>, x: Id, b: seq<Id>)
    requires Without(s, x) == a + b && x !in a && x !in b
    requires Distinct(a + b)
    ensures SameRest(s, a + [x] + b, x)
  {
    var t := a + [x] + b;
    WithoutAt(a, x, b);
    forall y ensures y in t <==> y in s || y == x {
      WithoutMembers(s, x);
      assert y in t <==> y in a || y == x || y in b;
      assert y in a + b <==> y in a || y in b;
    }
    forall i, j | 0 <= i < j < |t| ensures t[i] != t[j] {
      var u := a + b;
      if i != |a| && j != |a| {
        assert t[i] == u[if i < |a| then i else i - 1] && t[j] == u[if j < |a| then j else j - 1];
      } else if i == |a| {
        assert t[j] == b[j - |a| - 1];
      } else {
        assert t[i] == a[i];
      }
    }
  }

  /** Moving one entry of a list keeps its members and what is left without
      that entry. */
  lemma MovedKeepsRest(s: seq<Id>, at: nat, i: nat, t: seq<Id>)
    requires at < |s| && i <= at && Distinct(s)
    requires t == s[..i] + [s[at]] + s[i..at] + s[at + 1..]
    ensures SameRest(s, t, s[at])
  {
    SplitAt(s, at);
    var a, b := s[..i], s[i..at] + s[at + 1..];
    assert a + b == s[..at] + s[at + 1..] by { assert s[..i] + s[i..at] == s[..at]; }
    assert t == a + [s[at]] + b;
    WithoutMembers(s, s[at]);
    assert s[at] !in a + b;
    SameRestAround(s, a, s[at], b);
  }

  lemma MovedDownKeepsRest(s: seq<Id>, at: nat, i: nat, t: seq<Id>)
    requires at <= i < |s| && Distinct(s)
    requires t == s[..at] + s[at + 1..i + 1] + [s[at]] + s[i + 1..]
    ensures SameRest(s, t, s[at])
  {
    SplitAt(s, at);
    var a, b := s[..at] + s[at + 1..i + 1], s[i + 1..];
    assert a + b == s[..at] + s[at + 1..] by { assert s[at + 1..i + 1] + s[i + 1..] == s[at + 1..]; }
    WithoutMembers(s, s[at]);
    assert s[at] !in a + b;
    SameRestAround(s, a, s[at], b);
  }

  /** Inserting a new entry keeps the rest of the list. */
  lemma InsertedKeepsRest(s: seq<Id>, x: Id, i: nat)
    requires i <= |s| && Distinct(s) && x !in s
    ensures SameRest(s, s[..i] + [x] + s[i..], x)
  {
    WithoutAbsent(s, x);
    assert s[..i] + s[i..] == s;
    SameRestAround(s, s[..i], x, s[i..]);
  }

  /** Repositioning `r` changed no list but its own peer's. */
  ghost predicate OnlyListOf(msgs: map<Id, MsgIn>, msgs': map<Id, MsgIn>,
                             lists: map<Id, seq<Id>>, lists': map<Id, seq<Id>>, r: Id)
  {
    && r in msgs && r in msgs'
    && msgs' == msgs[r := msgs'[r]]
    && msgs'[r].peer == msgs[r].peer
    && lists' == lists[msgs[r].peer := ListOf(lists', msgs[r].peer)]
  }

  /** `r` is in its peer's list, which otherwise has the entries it had; the
      head is `r` or is unchanged. */
  ghost predicate InPlace(msgs: map<Id, MsgIn>, msgs': map<Id, MsgIn>,
                          lists: map<Id, seq<Id>>, lists': map<Id, seq<Id>>, r: Id)
  {
    && OnlyListOf(msgs, msgs', lists, lists', r)
    && (InList(msgs, lists, r) ==> msgs' == msgs)
    && var list, list' := ListOf(lists, msgs[r].peer), ListOf(lists', msgs[r].peer);
    && SameRest(list, list', r)
    && r in list'
    && (list'[0] == r || (list != [] && list'[0] == list[0]))
  }

  /** The first half of adding an RPC that is not yet in its peer's list. */
  lemma RpcInserted(msgs: map<Id, MsgIn>, lists: map<Id, seq<Id>>, peers: seq<Id>, r: Id, now: nat, i: nat)
    requires Linked(msgs, lists, peers) && r in msgs && r !in ListOf(lists, msgs[r].peer)
    requires i <= |ListOf(lists, msgs[r].peer)|
    requires var k, list := Rank(msgs[r].bytesRemaining, now), ListOf(lists, msgs[r].peer);
      && (forall j :: 0 <= j < i ==> !Outranks(k, RankOf(Ranks(msgs), list[j])))
      && (i < |list| ==> Outranks(k, RankOf(Ranks(msgs), list[i])))
    ensures var msgs', list := msgs[r := msgs[r].(birth := now)], ListOf(lists, msgs[r].peer);
      var list' := list[..i] + [r] + list[i..];
      && InPlace(msgs, msgs', lists, lists[msgs[r].peer := list'], r)
      && (OrderedExcept(msgs, lists, peers, r) ==> Sorted(list', Ranks(msgs')))
  {
    hide Linked;
    var msgs', p := msgs[r := msgs[r].(birth := now)], msgs[r].peer;
    var list, ranks := ListOf(lists, p), Ranks(msgs');
    LinkedPeer(msgs, lists, peers, p);
    InsertedKeepsRest(list, r, i);
    assert forall x :: x != r ==> RankOf(ranks, x) == RankOf(Ranks(msgs), x);
    if OrderedExcept(msgs, lists, peers, r) {
      WithoutAbsent(list, r);
      SortedFrame(list, Ranks(msgs), ranks);
      FoundSlotKeepsSorted(list, r, i, ranks);
    }
  }

  /** The first half of repositioning an RPC that is in its peer's list. */
  lemma RpcRepositioned(msgs: map<Id, MsgIn>, lists: map<Id, seq<Id>>, peers: seq<Id>, r: Id,
                        at: nat, i: nat, t: seq<Id>)
    requires Linked(msgs, lists, peers) && InList(msgs, lists, r)
    requires i <= at < |lists[msgs[r].peer]| && lists[msgs[r].peer][at] == r
    requires var list := lists[msgs[r].peer]; t == list[..i] + [list[at]] + list[i..at] + list[at + 1..]
    requires var list, ranks := lists[msgs[r].peer], Ranks(msgs);
      && (forall j :: i <= j < at ==> Outranks(RankOf(ranks, r), RankOf(ranks, list[j])))
      && (i > 0 ==> !Outranks(RankOf(ranks, r), RankOf(ranks, list[i - 1])))
    ensures InPlace(msgs, msgs, lists, lists[msgs[r].peer := t], r)
    ensures OrderedExcept(msgs, lists, peers, r) ==> Sorted(t, Ranks(msgs))
  {
    hide Linked;
    var p := msgs[r].peer;
    LinkedPeer(msgs, lists, peers, p);
    MovedKeepsRest(lists[p], at, i, t);
    assert t[0] == r || t[0] == lists[p][0];
    assert msgs == msgs[r := msgs[r]];
    if OrderedExcept(msgs, lists, peers, r) { ListRepositioned(lists[p], at, i, t, Ranks(msgs)); }
  }

  lemma LinkedAfterAdd(msgs: map<Id, MsgIn>, msgs': map<Id, MsgIn>,
                       lists: map<Id, seq<Id>>, lists': map<Id, seq<Id>>,
                       peers: seq<Id>, peers': seq<Id>, r: Id)
    requires Linked(msgs, lists, peers) && InPlace(msgs, msgs', lists, lists', r)
    requires SameRest(peers, peers', msgs[r].peer)
    ensures Linked(msgs', lists', peers')
  {
    forall p, x | p in lists' && x in lists'[p] ensures x in msgs' && msgs'[x].peer == p {
      if p != msgs[r].peer { assert lists'[p] == lists[p]; }
    }
  }

  lemma GrantableAfterAdd(msgs: map<Id, MsgIn>, msgs': map<Id, MsgIn>,
                          lists: map<Id, seq<Id>>, lists': map<Id, seq<Id>>, r: Id)
    requires InPlace(msgs, msgs', lists, lists', r)
    ensures GrantableSet(msgs', lists') == GrantableSet(msgs, lists) + {r}
    ensures |GrantableSet(msgs', lists')| ==
            |GrantableSet(msgs, lists)| + if InList(msgs, lists, r) then 0 else 1
  {
    forall x ensures x in GrantableSet(msgs', lists') <==> x in GrantableSet(msgs, lists) + {r} {
      if x in msgs' { assert msgs'[x].peer == msgs[x].peer; }
    }
  }

  lemma OtherHeadsUnchanged(msgs: map<Id, MsgIn>, msgs': map<Id, MsgIn>,
                            lists: map<Id, seq<Id>>, lists': map<Id, seq<Id>>, peers: seq<Id>, r: Id)
    requires Linked(msgs, lists, peers) && OnlyListOf(msgs, msgs', lists, lists', r)
    ensures forall q :: q in peers && q != msgs[r].peer ==>
      RankOf(HeadRanks(msgs', lists'), q) == RankOf(HeadRanks(msgs, lists), q)
  {
    forall q | q in peers && q != msgs[r].peer
      ensures RankOf(HeadRanks(msgs', lists'), q) == RankOf(HeadRanks(msgs, lists), q)
    {
      assert lists[q][0] in lists[q];
      assert lists'[q] == lists[q];
    }
  }

  lemma OrderedAfterAdd(msgs: map<Id, MsgIn>, msgs': map<Id, MsgIn>,
                        lists: map<Id, seq<Id>>, lists': map<Id, seq<Id>>,
                        peers: seq<Id>, peers': seq<Id>, r: Id)
    requires Linked(msgs, lists, peers) && InPlace(msgs, msgs', lists, lists', r)
    requires OrderedExcept(msgs, lists, peers, r)
    requires Sorted(ListOf(lists', msgs[r].peer), Ranks(msgs'))
    requires Sorted(peers', HeadRanks(msgs', lists'))
    ensures Ordered(msgs', lists', peers')
  {
    forall q | q in lists' && q != msgs[r].peer ensures Sorted(lists'[q], Ranks(msgs')) {
      assert lists'[q] == lists[q];
      SortedFrame(lists[q], Ranks(msgs), Ranks(msgs'));
    }
  }

  /** The second half of adding, when the peer's head is another RPC: the
      peer is already in place, and comparing `r` with the peers above it
      moves nothing. */
  lemma PeerStays(peers: seq<Id>, at: nat, i: nat, t: seq<Id>, k: Rank, heads: map<Id, Rank>)
    requires Sorted(peers, heads) && i <= at < |peers|
    requires t == peers[..i] + [peers[at]] + peers[i..at] + peers[at + 1..]
    requires !Outranks(k, RankOf(heads, peers[at]))
    requires forall j :: i <= j < at ==> Outranks(k, RankOf(heads, peers[j]))
    ensures t == peers
  {
    if i < at {
      OutranksIsStrictTotal(k, RankOf(heads, peers[at - 1]), RankOf(heads, peers[at]));
    }
  }

  /** The second half of adding, when `r` heads its peer's list: moving the
      peer up restores the order of the peers. */
  lemma PeerMovesUp(peers: seq<Id>, at: nat, i: nat, t: seq<Id>, heads: map<Id, Rank>, heads': map<Id, Rank>)
    requires at < |peers| && i <= at && Distinct(peers)
    requires forall q :: q in peers && q != peers[at] ==> RankOf(heads', q) == RankOf(heads, q)
    requires !Outranks(RankOf(heads, peers[at]), RankOf(heads', peers[at]))
    requires Sorted(Without(peers, peers[at]), heads)
    requires forall j :: at < j < |peers| ==> !Outranks(RankOf(heads, peers[j]), RankOf(heads, peers[at]))
    requires t == peers[..i] + [peers[at]] + peers[i..at] + peers[at + 1..]
    requires forall j :: i <= j < at ==> Outranks(RankOf(heads', peers[at]), RankOf(heads', peers[j]))
    requires i > 0 ==> !Outranks(RankOf(heads', peers[at]), RankOf(heads', peers[i - 1]))
    ensures Sorted(t, heads')
  {
    WithoutMembers(peers, peers[at]);
    SortedFrame(Without(peers, peers[at]), heads, heads');
    forall j | at < j < |peers| ensures !Outranks(RankOf(heads', peers[j]), RankOf(heads', peers[at])) {
      assert peers[j] in peers && peers[j] != peers[at];
    }
    ListRepositioned(peers, at, i, t, heads');
  }

  /** Where the head of `r`'s peer stands once `r` is in place: it is `r`, now
      at least as high as the head was, or it is still the same RPC, which
      `r` does not outrank. */
  lemma HeadAfterReposition(msgs: map<Id, MsgIn>, msgs': map<Id, MsgIn>,
                            lists: map<Id, seq<Id>>, lists': map<Id, seq<Id>>, peers: seq<Id>, r: Id)
    requires Linked(msgs, lists, peers) && InPlace(msgs, msgs', lists, lists', r)
    requires msgs[r].peer in peers
    requires Sorted(ListOf(lists', msgs[r].peer), Ranks(msgs'))
    ensures var p, k := msgs[r].peer, RankOf(Ranks(msgs'), r);
      var heads, heads' := HeadRanks(msgs, lists), HeadRanks(msgs', lists');
      if ListOf(lists', p)[0] == r
      then RankOf(heads', p) == k && !Outranks(RankOf(heads, p), k)
      else RankOf(heads', p) == RankOf(heads, p) && !Outranks(k, RankOf(heads', p))
  {
    var p := msgs[r].peer;
    var list, list' := lists[p], lists'[p];
    assert list[0] in list && list[0] in list';
    assert list[0] != r ==> RankOf(Ranks(msgs'), list[0]) == RankOf(Ranks(msgs), list[0]);
  }

  /** A newly linked peer is put in order. */
  lemma PeerInserted(msgs: map<Id, MsgIn>, msgs': map<Id, MsgIn>,
                     lists: map<Id, seq<Id>>, lists': map<Id, seq<Id>>, peers: seq<Id>, r: Id, i: nat)
    requires Linked(msgs, lists, peers) && InPlace(msgs, msgs', lists, lists', r)
    requires OrderedExcept(msgs, lists, peers, r)
    requires msgs[r].peer !in peers && i <= |peers|
    requires var k, heads := RankOf(Ranks(msgs'), r), HeadRanks(msgs', lists');
      && (forall j :: 0 <= j < i ==> !Outranks(k, RankOf(heads, peers[j])))
      && (i < |peers| ==> Outranks(k, RankOf(heads, peers[i])))
    ensures Sorted(peers[..i] + [msgs[r].peer] + peers[i..], HeadRanks(msgs', lists'))
  {
    var p, heads, heads' := msgs[r].peer, HeadRanks(msgs, lists), HeadRanks(msgs', lists');
    WithoutAbsent(peers, p);
    OtherHeadsUnchanged(msgs, msgs', lists, lists', peers, r);
    SortedFrame(peers, heads, heads');
    assert ListOf(lists, p) == [];
    assert RankOf(heads', p) == RankOf(Ranks(msgs'), r);
    FoundSlotKeepsSorted(peers, p, i, heads');
  }

  /** A peer already linked is put in order. */
  lemma PeerRepositioned(msgs: map<Id, MsgIn>, msgs': map<Id, MsgIn>,
                         lists: map<Id, seq<Id>>, lists': map<Id, seq<Id>>, peers: seq<Id>, r: Id,
                         at: nat, i: nat, t: seq<Id>)
    requires Linked(msgs, lists, peers) && InPlace(msgs, msgs', lists, lists', r)
    requires OrderedExcept(msgs, lists, peers, r)
    requires Sorted(ListOf(lists', msgs[r].peer), Ranks(msgs'))
    requires at < |peers| && peers[at] == msgs[r].peer
    requires i <= at && t == peers[..i] + [peers[at]] + peers[i..at] + peers[at + 1..]
    requires var k, heads := RankOf(Ranks(msgs'), r), HeadRanks(msgs', lists');
      && (forall j :: i <= j < at ==> Outranks(k, RankOf(heads, peers[j])))
      && (i > 0 ==> !Outranks(k, RankOf(heads, peers[i - 1])))
    ensures Sorted(t, HeadRanks(msgs', lists'))
  {
    var p, heads, heads' := msgs[r].peer, HeadRanks(msgs, lists), HeadRanks(msgs', lists');
    OtherHeadsUnchanged(msgs, msgs', lists, lists', peers, r);
    HeadAfterReposition(msgs, msgs', lists, lists', peers, r);
    if ListOf(lists', p)[0] == r {
      PeerMovesUp(peers, at, i, t, heads, heads');
    } else {
      SortedFrame(peers, heads, heads');
      PeerStays(peers, at, i, t, RankOf(Ranks(msgs'), r), heads');
    }
  }

  /** A message whose priority has risen leaves the lists ordered except for
      itself, which is the state that repositioning starts from. */
  lemma RisingPriorityNeedsReposition(msgs: map<Id, MsgIn>, lists: map<Id, seq<Id>>, peers: seq<Id>,
                                      r: Id, remaining: int)
    requires Linked(msgs, lists, peers) && Ordered(msgs, lists, peers)
    requires r in msgs && remaining <= msgs[r].bytesRemaining
    ensures OrderedExcept(msgs[r := msgs[r].(bytesRemaining := remaining)], lists, peers, r)
  {
    var msgs' := msgs[r := msgs[r].(bytesRemaining := remaining)];
    var p := msgs[r].peer;
    var list, ranks, ranks' := ListOf(lists, p), Ranks(msgs), Ranks(msgs');
    var heads, heads' := HeadRanks(msgs, lists), HeadRanks(msgs', lists);
    assert forall x :: x != r ==> RankOf(ranks', x) == RankOf(ranks, x);
    forall q | q in lists && q != p ensures Sorted(lists[q], ranks') {
      SortedFrame(lists[q], ranks, ranks');
    }
    LinkedPeer(msgs, lists, peers, p);
    RaisedEntry(list, r, ranks, ranks');
    HeadsAfterRise(msgs, msgs', lists, peers, r);
    RaisedEntry(peers, p, heads, heads');
    if list != [] && list[0] != r { SortedFrame(peers, heads, heads'); }
  }

  /** A list in which only the rank of `x` has risen. */
  lemma RaisedEntry(s: seq<Id>, x: Id, ranks: map<Id, Rank>, ranks': map<Id, Rank>)
    requires Sorted(s, ranks) && Distinct(s)
    requires forall y :: y in s && y != x ==> RankOf(ranks', y) == RankOf(ranks, y)
    requires x in s ==> !Outranks(RankOf(ranks, x), RankOf(ranks', x))
    ensures Sorted(Without(s, x), ranks')
    ensures forall i, j :: 0 <= i < j < |s| && s[i] == x ==> !Outranks(RankOf(ranks', s[j]), RankOf(ranks', x))
  {
    assert Sorted(Without(s, x), ranks') by {
      WithoutKeepsSorted(s, x, ranks);
      WithoutMembers(s, x);
      SortedFrame(Without(s, x), ranks, ranks');
    }
    forall i, j | 0 <= i < j < |s| && s[i] == x ensures !Outranks(RankOf(ranks', s[j]), RankOf(ranks', x)) {
      assert s[i] != s[j] && x in s && s[j] in s;
    }
  }

  lemma HeadsAfterRise(msgs: map<Id, MsgIn>, msgs': map<Id, MsgIn>, lists: map<Id, seq<Id>>, peers: seq<Id>, r: Id)
    requires Linked(msgs, lists, peers) && r in msgs && r in msgs'
    requires msgs' == msgs[r := msgs[r].(bytesRemaining := msgs'[r].bytesRemaining)]
    requires msgs'[r].bytesRemaining <= msgs[r].bytesRemaining
    ensures forall q :: q in peers && q != msgs[r].peer ==>
      RankOf(HeadRanks(msgs', lists), q) == RankOf(HeadRanks(msgs, lists), q)
    ensures msgs[r].peer in peers ==>
      !Outranks(RankOf(HeadRanks(msgs, lists), msgs[r].peer), RankOf(HeadRanks(msgs', lists), msgs[r].peer))
    ensures msgs[r].peer in peers && lists[msgs[r].peer][0] != r ==>
      RankOf(HeadRanks(msgs', lists), msgs[r].peer) == RankOf(HeadRanks(msgs, lists), msgs[r].peer)
  {
    forall q | q in peers && q != msgs[r].peer
      ensures RankOf(HeadRanks(msgs', lists), q) == RankOf(HeadRanks(msgs, lists), q)
    {
      assert lists[q][0] in lists[q];
    }
  }

  // ----- Choosing -----

  /** The candidates for active messages: the first `cap` RPCs of each peer. */
  ghost function Candidates(lists: map<Id, seq<Id>>, peers: seq<Id>, cap: nat): seq<Id> {
    if peers == [] then []
    else Candidates(lists, peers[..|peers| - 1], cap) + Take(ListOf(lists, peers[|peers| - 1]), cap)
  }

  /** The choice that the scheduler should make. */
  ghost function Best(msgs: map<Id, MsgIn>, lists: map<Id, seq<Id>>, peers: seq<Id>, cap: nat, max: nat): seq<Id> {
    Take(StableSort(Candidates(lists, peers, cap), Ranks(msgs)), max)
  }

  /** `s` names grantable RPCs, once each, in priority order, and only such as
      are among the first `cap` of their peer. */
  ghost predicate Eligible(msgs: map<Id, MsgIn>, lists: map<Id, seq<Id>>, cap: nat, s: seq<Id>) {
    && Distinct(s) && Sorted(s, Ranks(msgs))
    && forall r :: r in s ==> InList(msgs, lists, r) && r in Take(ListOf(lists, msgs[r].peer), cap)
  }

  lemma {:induction false} CandidatesSplit(lists: map<Id, seq<Id>>, a: seq<Id>, b: seq<Id>, cap: nat)
    ensures Candidates(lists, a + b, cap) == Candidates(lists, a, cap) + Candidates(lists, b, cap)
  {
    if b == [] {
      assert a + b == a;
    } else {
      var n := |b| - 1;
      assert (a + b)[..|a + b| - 1] == a + b[..n];
      CandidatesSplit(lists, a, b[..n], cap);
    }
  }

  lemma {:induction false} CandidateFrom(lists: map<Id, seq<Id>>, peers: seq<Id>, cap: nat, y: Id)
    requires y in Candidates(lists, peers, cap)
    ensures exists j :: 0 <= j < |peers| && y in ListOf(lists, peers[j])
  {
    var n := |peers| - 1;
    if y in Take(ListOf(lists, peers[n]), cap) {
      assert y in ListOf(lists, peers[n]);
    } else {
      CandidateFrom(lists, peers[..n], cap, y);
      var j :| 0 <= j < n && y in ListOf(lists, peers[..n][j]);
      assert y in ListOf(lists, peers[j]);
    }
  }

  /** No candidate of a peer or of the peers after it outranks its head. */
  lemma NoneAboveHead(msgs: map<Id, MsgIn>, lists: map<Id, seq<Id>>, peers: seq<Id>, cap: nat, pi: nat, y: Id)
    requires Linked(msgs, lists, peers) && Ordered(msgs, lists, peers)
    requires pi < |peers| && y in Candidates(lists, peers[pi..], cap)
    ensures ListOf(lists, peers[pi]) != []
    ensures !Outranks(RankOf(Ranks(msgs), y), RankOf(Ranks(msgs), lists[peers[pi]][0]))
  {
    hide Linked, Candidates;
    LinkedPeer(msgs, lists, peers, peers[pi]);
    assert peers[pi] in peers;
    CandidateFrom(lists, peers[pi..], cap, y);
    var j :| 0 <= j < |peers[pi..]| && y in ListOf(lists, peers[pi..][j]);
    var q, p, ranks, heads := peers[pi + j], peers[pi], Ranks(msgs), HeadRanks(msgs, lists);
    var k :| 0 <= k < |lists[q]| && lists[q][k] == y;
    ListInOrder(msgs, lists, peers, q);
    assert !Outranks(RankOf(ranks, y), RankOf(ranks, lists[q][0]));
    assert !Outranks(RankOf(heads, q), RankOf(heads, p));
    OutranksIsStrictTotal(RankOf(heads, p), RankOf(heads, q), RankOf(ranks, y));
  }

  /** All `max` places are taken, and `x` outranks none of the entries. */
  ghost predicate NoRoomFor(s: seq<Id>, max: nat, x: Id, ranks: map<Id, Rank>) {
    |s| == max && (max > 0 ==> !Outranks(RankOf(ranks, x), RankOf(ranks, s[max - 1])))
  }

  /** The peers from `pi` on cannot contribute if the head of that peer does
      not fit: leaving the scan early loses nothing. */
  lemma RestOfPeersDoesNotFit(msgs: map<Id, MsgIn>, lists: map<Id, seq<Id>>, peers: seq<Id>, cap: nat, pi: nat, max: nat)
    requires Linked(msgs, lists, peers) && Ordered(msgs, lists, peers)
    requires pi < |peers| && ListOf(lists, peers[pi]) != []
    requires NoRoomFor(Best(msgs, lists, peers[..pi], cap, max), max, ListOf(lists, peers[pi])[0], Ranks(msgs))
    ensures Best(msgs, lists, peers, cap, max) == Best(msgs, lists, peers[..pi], cap, max)
  {
    hide Linked, Ordered, StableSort, Candidates;
    var c, rest, ranks := Candidates(lists, peers[..pi], cap), Candidates(lists, peers[pi..], cap), Ranks(msgs);
    assert peers == peers[..pi] + peers[pi..];
    CandidatesSplit(lists, peers[..pi], peers[pi..], cap);
    var t := Take(StableSort(c, ranks), max);
    forall y | max > 0 && y in rest ensures !Outranks(RankOf(ranks, y), RankOf(ranks, t[max - 1])) {
      NoneAboveHead(msgs, lists, peers, cap, pi, y);
      OutranksIsStrictTotal(RankOf(ranks, t[max - 1]), RankOf(ranks, lists[peers[pi]][0]), RankOf(ranks, y));
    }
    RestDoesNotFit(c, rest, max, ranks);
  }

  /** What has been picked after considering `pi` peers and `k` RPCs of the
      next one. */
  ghost predicate PickedFrom(msgs: map<Id, MsgIn>, lists: map<Id, seq<Id>>, peers: seq<Id>, cap: nat,
                             pi: nat, k: nat, s: seq<Id>)
    requires pi < |peers| || (pi == |peers| && k == 0)
  {
    && Eligible(msgs, lists, cap, s)
    && forall r :: r in s ==>
         || msgs[r].peer in peers[..pi]
         || (pi < |peers| && k <= |ListOf(lists, peers[pi])| && r in ListOf(lists, peers[pi])[..k])
  }

  lemma PickedOneMore(msgs: map<Id, MsgIn>, lists: map<Id, seq<Id>>, peers: seq<Id>, cap: nat,
                      pi: nat, k: nat, s: seq<Id>, max: nat)
    requires Linked(msgs, lists, peers) && pi < |peers| && k < |ListOf(lists, peers[pi])| && k < cap
    requires PickedFrom(msgs, lists, peers, cap, pi, k, s)
    ensures PickedFrom(msgs, lists, peers, cap, pi, k + 1,
                       Take(Insert(s, ListOf(lists, peers[pi])[k], Ranks(msgs)), max))
  {
    hide Linked;
    var p := peers[pi];
    var list := ListOf(lists, p);
    var x := list[k];
    LinkedPeer(msgs, lists, peers, p);
    assert x in list && Take(list, cap)[k] == x && p !in peers[..pi];
    assert x !in s;
    InsertKeeps(s, x, max, Ranks(msgs));
    assert x in list[..k + 1] && forall r :: r in list[..k] ==> r in list[..k + 1];
  }

  /** `r` is among the first `cap` messages of its peer. */
  ghost predicate Candidate(msgs: map<Id, MsgIn>, lists: map<Id, seq<Id>>, cap: nat, r: Id) {
    r in msgs && exists k :: 0 <= k < |ListOf(lists, msgs[r].peer)| && k < cap && ListOf(lists, msgs[r].peer)[k] == r
  }

  lemma {:induction false} CandidateIsListed(lists: map<Id, seq<Id>>, peers: seq<Id>, cap: nat, j: nat, r: Id)
    requires j < |peers| && r in Take(ListOf(lists, peers[j]), cap)
    ensures r in Candidates(lists, peers, cap)
  {
    var n := |peers| - 1;
    if j < n { CandidateIsListed(lists, peers[..n], cap, j, r); }
  }

  /** The sort puts the candidates into the order of the grants. */
  lemma SortedCandidates(msgs: map<Id, MsgIn>, lists: map<Id, seq<Id>>, peers: seq<Id>, cap: nat)
    requires Linked(msgs, lists, peers)
    ensures ShortestFirst(msgs, StableSort(Candidates(lists, peers, cap), Ranks(msgs)))
  {
    hide NotAfter, StableSort, Candidates;
    var c, ranks := Candidates(lists, peers, cap), Ranks(msgs);
    var sorted := StableSort(c, ranks);
    StableSortSorts(c, ranks);
    forall i | 0 <= i < |sorted| ensures sorted[i] in msgs {
      assert sorted[i] in sorted;
      StableSortMembers(c, ranks, sorted[i]);
      CandidateFrom(lists, peers, cap, sorted[i]);
    }
    SortedMeans(msgs, sorted);
  }

  lemma CandidateIsSorted(msgs: map<Id, MsgIn>, lists: map<Id, seq<Id>>, peers: seq<Id>, cap: nat, r: Id)
    requires Linked(msgs, lists, peers) && Candidate(msgs, lists, cap, r)
    ensures r in StableSort(Candidates(lists, peers, cap), Ranks(msgs))
  {
    hide StableSort, Candidates;
    var p := msgs[r].peer;
    var j :| 0 <= j < |peers| && peers[j] == p;
    assert r in Take(ListOf(lists, p), cap);
    CandidateIsListed(lists, peers, cap, j, r);
    StableSortMembers(Candidates(lists, peers, cap), Ranks(msgs), r);
  }

  /** Grants should go to all the chosen messages no later than to `r`. */
  ghost predicate AllBefore(msgs: map<Id, MsgIn>, chosen: seq<Id>, r: Id) {
    r in msgs && forall k :: 0 <= k < |chosen| ==> chosen[k] in msgs && NotAfter(msgs[chosen[k]], msgs[r])
  }

  /** A candidate is left out only if all places are taken by messages to which
      grants should go no later. */
  ghost predicate NoneLeftOut(msgs: map<Id, MsgIn>, lists: map<Id, seq<Id>>, cap: nat, max: nat, chosen: seq<Id>) {
    forall r :: Candidate(msgs, lists, cap, r) && r !in chosen ==> |chosen| == max && AllBefore(msgs, chosen, r)
  }

  lemma BestIsRight(msgs: map<Id, MsgIn>, lists: map<Id, seq<Id>>, peers: seq<Id>, cap: nat, max: nat)
    requires Linked(msgs, lists, peers)
    ensures NoneLeftOut(msgs, lists, cap, max, Best(msgs, lists, peers, cap, max))
    ensures ShortestFirst(msgs, Best(msgs, lists, peers, cap, max))
  {
    hide Linked, NotAfter, Candidate, StableSort, Candidates;
    var sorted, best := StableSort(Candidates(lists, peers, cap), Ranks(msgs)), Best(msgs, lists, peers, cap, max);
    SortedCandidates(msgs, lists, peers, cap);
    assert forall i :: 0 <= i < |best| ==> best[i] == sorted[i] && best[i] in best;
    forall r | Candidate(msgs, lists, cap, r) && r !in best ensures |best| == max && AllBefore(msgs, best, r) {
      CandidateIsSorted(msgs, lists, peers, cap, r);
      var k :| 0 <= k < |sorted| && sorted[k] == r;
    }
  }

  lemma SortedPick(msgs: map<Id, MsgIn>, lists: map<Id, seq<Id>>, peers: seq<Id>, cap: nat,
                   pi: nat, k: nat, s: seq<Id>)
    requires pi < |peers| && PickedFrom(msgs, lists, peers, cap, pi, k, s)
    ensures Sorted(s, Ranks(msgs))
  {
  }

  lemma NothingPicked(msgs: map<Id, MsgIn>, lists: map<Id, seq<Id>>, peers: seq<Id>, cap: nat, max: nat)
    ensures PickedFrom(msgs, lists, peers, cap, 0, 0, [])
    ensures [] == Take(StableSort([], Ranks(msgs)), max) && [] == Candidates(lists, [], cap)
  {
  }

  lemma ListInOrder(msgs: map<Id, MsgIn>, lists: map<Id, seq<Id>>, peers: seq<Id>, p: Id)
    requires Ordered(msgs, lists, peers)
    ensures Sorted(ListOf(lists, p), Ranks(msgs))
  {
  }

  lemma NoSlot(s: seq<Id>, x: Id, max: nat, ranks: map<Id, Rank>)
    requires |s| <= max <= Slot(s, x, ranks)
    ensures NoRoomFor(s, max, x, ranks)
  {
  }

  lemma PickedFromPeer(msgs: map<Id, MsgIn>, lists: map<Id, seq<Id>>, peers: seq<Id>, cap: nat,
                       pi: nat, k: nat, s: seq<Id>)
    requires Linked(msgs, lists, peers) && pi < |peers|
    requires PickedFrom(msgs, lists, peers, cap, pi, k, s)
    ensures PickedFrom(msgs, lists, peers, cap, pi + 1, 0, s)
  {
    LinkedPeer(msgs, lists, peers, peers[pi]);
    assert peers[..pi + 1] == peers[..pi] + [peers[pi]];
  }

  /** Likewise for the rest of one peer's list. */
  lemma RestOfListDoesNotFit(c: seq<Id>, list: seq<Id>, ri: nat, cap: nat, max: nat, ranks: map<Id, Rank>)
    requires Sorted(list, ranks) && ri < |list| && ri < cap
    requires NoRoomFor(Take(StableSort(c + list[..ri], ranks), max), max, list[ri], ranks)
    ensures Take(StableSort(c + Take(list, cap), ranks), max) == Take(StableSort(c + list[..ri], ranks), max)
  {
    hide StableSort;
    var rest := Take(list, cap)[ri..];
    assert c + Take(list, cap) == c + list[..ri] + rest by {
      assert Take(list, cap) == list[..ri] + rest;
    }
    var t := Take(StableSort(c + list[..ri], ranks), max);
    forall y | max > 0 && y in rest ensures !Outranks(RankOf(ranks, y), RankOf(ranks, t[max - 1])) {
      var j :| 0 <= j < |rest| && rest[j] == y;
      assert y == list[ri + j];
      OutranksIsStrictTotal(RankOf(ranks, t[max - 1]), RankOf(ranks, list[ri]), RankOf(ranks, y));
    }
    RestDoesNotFit(c + list[..ri], rest, max, ranks);
  }

  // ----- Removing -----

  /** Whether the peer at `at` may get the lower rank `k` and be moved down
      past the peers that its old rank outranks: it passes none if the next
      peer ties with the old rank, and all of them otherwise. */
  ghost predicate FallKeepsOrder(peers: seq<Id>, at: nat, heads: map<Id, Rank>, k: Rank)
    requires at < |peers|
  {
    at + 1 < |peers| ==>
      if RankOf(heads, peers[at + 1]) == RankOf(heads, peers[at]) then k == RankOf(heads, peers[at])
      else !Outranks(k, RankOf(heads, peers[|peers| - 1]))
  }

  /** Exactly when removing `r` leaves both levels in order. The code compares
      the removed RPC, not the new head, with the following peers. */
  ghost predicate RemovalKeepsOrder(msgs: map<Id, MsgIn>, lists: map<Id, seq<Id>>, peers: seq<Id>, r: Id)
    requires r in msgs
  {
    var p := msgs[r].peer;
    var list := ListOf(lists, p);
    list != [] && list[0] == r && |list| > 1 ==>
      forall at :: 0 <= at < |peers| && peers[at] == p ==>
        FallKeepsOrder(peers, at, HeadRanks(msgs, lists), RankOf(Ranks(msgs), list[1]))
  }

  lemma LinkedAfterRemove(msgs: map<Id, MsgIn>, lists: map<Id, seq<Id>>, lists': map<Id, seq<Id>>,
                          peers: seq<Id>, peers': seq<Id>, r: Id)
    requires Linked(msgs, lists, peers) && InList(msgs, lists, r)
    requires lists' == lists[msgs[r].peer := Without(lists[msgs[r].peer], r)]
    requires Distinct(peers')
    requires forall q :: q in peers' <==> q in peers && (q == msgs[r].peer ==> lists'[q] != [])
    ensures Linked(msgs, lists', peers')
  {
    hide Without, Distinct;
    var p := msgs[r].peer;
    WithoutMembers(lists[p], r);
    forall q | q in lists' ensures Distinct(lists'[q]) && forall x :: x in lists'[q] ==> x in lists[q] {
      if q != p { assert lists'[q] == lists[q]; }
    }
  }

  lemma GrantableAfterRemove(msgs: map<Id, MsgIn>, lists: map<Id, seq<Id>>, lists': map<Id, seq<Id>>, r: Id)
    requires InList(msgs, lists, r)
    requires lists' == lists[msgs[r].peer := Without(lists[msgs[r].peer], r)]
    ensures GrantableSet(msgs, lists') == GrantableSet(msgs, lists) - {r}
    ensures |GrantableSet(msgs, lists')| == |GrantableSet(msgs, lists)| - 1
  {
    WithoutMembers(lists[msgs[r].peer], r);
    forall x ensures x in GrantableSet(msgs, lists') <==> x in GrantableSet(msgs, lists) - {r} {
      if x in msgs && msgs[x].peer != msgs[r].peer {
        assert ListOf(lists', msgs[x].peer) == ListOf(lists, msgs[x].peer);
      }
    }
    assert r in GrantableSet(msgs, lists);
  }

  lemma ListsSortedAfterRemove(msgs: map<Id, MsgIn>, lists: map<Id, seq<Id>>, lists': map<Id, seq<Id>>, r: Id)
    requires r in msgs && lists' == lists[msgs[r].peer := Without(ListOf(lists, msgs[r].peer), r)]
    ensures ListsSorted(msgs, lists) ==> ListsSorted(msgs, lists')
  {
    if ListsSorted(msgs, lists) { WithoutKeepsSorted(ListOf(lists, msgs[r].peer), r, Ranks(msgs)); }
  }

  /** The peer of the removed head does not move if the next peer ties. */
  lemma PeerTied(peers: seq<Id>, at: nat, i: nat, t: seq<Id>, heads: map<Id, Rank>, heads': map<Id, Rank>)
    requires Distinct(peers) && at <= i < |peers| && at + 1 < |peers|
    requires Sorted(peers, heads)
    requires forall q :: q in peers && q != peers[at] ==> RankOf(heads', q) == RankOf(heads, q)
    requires RankOf(heads, peers[at + 1]) == RankOf(heads, peers[at])
    requires !Outranks(RankOf(heads', peers[at]), RankOf(heads, peers[at]))
    requires t == peers[..at] + peers[at + 1..i + 1] + [peers[at]] + peers[i + 1..]
    requires forall j :: at < j <= i ==> Outranks(RankOf(heads, peers[at]), RankOf(heads', peers[j]))
    ensures Sorted(t, heads') <==> RankOf(heads', peers[at]) == RankOf(heads, peers[at])
  {
    assert peers[at + 1] in peers && peers[at] != peers[at + 1];
    assert i == at;
    assert t == peers;
    if RankOf(heads', peers[at]) == RankOf(heads, peers[at]) { SortedFrame(peers, heads, heads'); }
  }

  /** Otherwise it passes every peer below it. */
  lemma PeerToEnd(peers: seq<Id>, at: nat, i: nat, t: seq<Id>, heads: map<Id, Rank>, heads': map<Id, Rank>)
    requires Distinct(peers) && at <= i < |peers| && at + 1 < |peers|
    requires Sorted(peers, heads)
    requires forall q :: q in peers && q != peers[at] ==> RankOf(heads', q) == RankOf(heads, q)
    requires RankOf(heads, peers[at + 1]) != RankOf(heads, peers[at])
    requires t == peers[..at] + peers[at + 1..i + 1] + [peers[at]] + peers[i + 1..]
    requires i + 1 < |peers| ==> !Outranks(RankOf(heads, peers[at]), RankOf(heads', peers[i + 1]))
    ensures Sorted(t, heads') <==> !Outranks(RankOf(heads', peers[at]), RankOf(heads, peers[|peers| - 1]))
  {
    hide Sorted, Without;
    var p, n := peers[at], |peers|;
    PassesAll(peers, at, i, heads, heads');
    var rest := Without(peers, p);
    SplitAt(peers, at);
    assert t == rest + [p] by { assert peers[at + 1..n] == peers[at + 1..] && peers[n..] == []; }
    assert Sorted(rest, heads') by {
      WithoutKeepsSorted(peers, p, heads);
      WithoutMembers(peers, p);
      SortedFrame(rest, heads, heads');
    }
    assert rest[n - 2] == peers[n - 1] && peers[n - 1] in peers && peers[n - 1] != p;
    AppendedIsSorted(rest, p, heads');
  }

  lemma PassesAll(peers: seq<Id>, at: nat, i: nat, heads: map<Id, Rank>, heads': map<Id, Rank>)
    requires Distinct(peers) && at <= i < |peers| && at + 1 < |peers|
    requires Sorted(peers, heads)
    requires forall q :: q in peers && q != peers[at] ==> RankOf(heads', q) == RankOf(heads, q)
    requires RankOf(heads, peers[at + 1]) != RankOf(heads, peers[at])
    requires i + 1 < |peers| ==> !Outranks(RankOf(heads, peers[at]), RankOf(heads', peers[i + 1]))
    ensures i == |peers| - 1
  {
    if i + 1 < |peers| {
      assert peers[i + 1] in peers && peers[i + 1] != peers[at];
      OutranksIsStrictTotal(RankOf(heads, peers[at]), RankOf(heads, peers[at + 1]), RankOf(heads, peers[i + 1]));
    }
  }

  lemma LastMayFall(s: seq<Id>, ranks: map<Id, Rank>, ranks': map<Id, Rank>)
    requires |s| > 0 && Sorted(s, ranks)
    requires forall j :: 0 <= j < |s| - 1 ==> RankOf(ranks', s[j]) == RankOf(ranks, s[j])
    requires !Outranks(RankOf(ranks', s[|s| - 1]), RankOf(ranks, s[|s| - 1]))
    ensures Sorted(s, ranks')
  {
  }

  lemma AppendedIsSorted(s: seq<Id>, x: Id, ranks: map<Id, Rank>)
    requires |s| > 0 && Sorted(s, ranks)
    ensures Sorted(s + [x], ranks) <==> !Outranks(RankOf(ranks, x), RankOf(ranks, s[|s| - 1]))
  {
    var t, n := s + [x], |s|;
    assert t[n - 1] == s[n - 1] && t[n] == x;
    if !Outranks(RankOf(ranks, x), RankOf(ranks, s[n - 1])) {
      assert s + [] == s;
      forall j | 0 <= j < n ensures !Outranks(RankOf(ranks, x), RankOf(ranks, s[j])) {
        assert j < n - 1 ==> !Outranks(RankOf(ranks, s[n - 1]), RankOf(ranks, s[j]));
      }
      SortedAround(s, x, [], ranks);
      assert s + [x] + [] == t;
    }
  }

  /** Moving the peer of the removed head down leaves the peers in order just
      in these cases. */
  lemma PeersAfterMoveDown(peers: seq<Id>, at: nat, i: nat, t: seq<Id>, heads: map<Id, Rank>, heads': map<Id, Rank>)
    requires Distinct(peers) && at <= i < |peers|
    requires Sorted(peers, heads)
    requires forall q :: q in peers && q != peers[at] ==> RankOf(heads', q) == RankOf(heads, q)
    requires !Outranks(RankOf(heads', peers[at]), RankOf(heads, peers[at]))
    requires t == peers[..at] + peers[at + 1..i + 1] + [peers[at]] + peers[i + 1..]
    requires forall j :: at < j <= i ==> Outranks(RankOf(heads, peers[at]), RankOf(heads', peers[j]))
    requires i + 1 < |peers| ==> !Outranks(RankOf(heads, peers[at]), RankOf(heads', peers[i + 1]))
    ensures Sorted(t, heads') <==> FallKeepsOrder(peers, at, heads, RankOf(heads', peers[at]))
  {
    if at == |peers| - 1 {
      assert t == peers;
      forall j | 0 <= j < at ensures RankOf(heads', peers[j]) == RankOf(heads, peers[j]) {
        assert peers[j] in peers;
      }
      LastMayFall(peers, heads, heads');
    } else if RankOf(heads, peers[at + 1]) == RankOf(heads, peers[at]) {
      PeerTied(peers, at, i, t, heads, heads');
    } else {
      PeerToEnd(peers, at, i, t, heads, heads');
    }
  }

  /** Removing the head of a list that has more entries. */
  lemma OrderAfterHeadRemoved(msgs: map<Id, MsgIn>, lists: map<Id, seq<Id>>, lists': map<Id, seq<Id>>,
                              peers: seq<Id>, r: Id, at: nat, i: nat, t: seq<Id>)
    requires Linked(msgs, lists, peers) && Ordered(msgs, lists, peers) && InList(msgs, lists, r)
    requires lists[msgs[r].peer][0] == r && |lists[msgs[r].peer]| > 1
    requires lists' == lists[msgs[r].peer := Without(lists[msgs[r].peer], r)]
    requires at <= i < |peers| && peers[at] == msgs[r].peer
    requires t == peers[..at] + peers[at + 1..i + 1] + [peers[at]] + peers[i + 1..]
    requires var k, heads := RankOf(Ranks(msgs), r), HeadRanks(msgs, lists');
      && (forall j :: at < j <= i ==> Outranks(k, RankOf(heads, peers[j])))
      && (i + 1 < |peers| ==> !Outranks(k, RankOf(heads, peers[i + 1])))
    ensures Ordered(msgs, lists', t) <==> RemovalKeepsOrder(msgs, lists, peers, r)
  {
    hide Linked, HeadRanks;
    LinkedPeer(msgs, lists, peers, msgs[r].peer);
    var p := msgs[r].peer;
    var heads, heads' := HeadRanks(msgs, lists), HeadRanks(msgs, lists');
    HeadsAfterHeadRemoved(msgs, lists, lists', peers, r);
    ListsSortedAfterRemove(msgs, lists, lists', r);
    PeersAfterMoveDown(peers, at, i, t, heads, heads');
  }

  lemma HeadsAfterHeadRemoved(msgs: map<Id, MsgIn>, lists: map<Id, seq<Id>>, lists': map<Id, seq<Id>>,
                              peers: seq<Id>, r: Id)
    requires Linked(msgs, lists, peers) && Ordered(msgs, lists, peers) && InList(msgs, lists, r)
    requires lists[msgs[r].peer][0] == r && |lists[msgs[r].peer]| > 1
    requires lists' == lists[msgs[r].peer := Without(lists[msgs[r].peer], r)]
    ensures RankOf(HeadRanks(msgs, lists), msgs[r].peer) == RankOf(Ranks(msgs), r)
    ensures RankOf(HeadRanks(msgs, lists'), msgs[r].peer) == RankOf(Ranks(msgs), lists[msgs[r].peer][1])
    ensures !Outranks(RankOf(Ranks(msgs), lists[msgs[r].peer][1]), RankOf(Ranks(msgs), r))
    ensures forall q :: q in peers && q != msgs[r].peer ==>
      RankOf(HeadRanks(msgs, lists'), q) == RankOf(HeadRanks(msgs, lists), q)
  {
    var p := msgs[r].peer;
    var list := lists[p];
    assert lists'[p] == list[1..] by { SplitAt(list, 0); }
    assert !Outranks(RankOf(Ranks(msgs), list[1]), RankOf(Ranks(msgs), list[0]));
    forall q | q in peers && q != p
      ensures RankOf(HeadRanks(msgs, lists'), q) == RankOf(HeadRanks(msgs, lists), q)
    {
      assert lists'[q] == lists[q];
    }
  }

  /** Removing an RPC that is not the head, or the last RPC of its peer. */
  lemma OrderAfterOtherRemoved(msgs: map<Id, MsgIn>, lists: map<Id, seq<Id>>, lists': map<Id, seq<Id>>,
                               peers: seq<Id>, peers': seq<Id>, r: Id)
    requires Linked(msgs, lists, peers) && Ordered(msgs, lists, peers) && InList(msgs, lists, r)
    requires lists' == lists[msgs[r].peer := Without(lists[msgs[r].peer], r)]
    requires if lists[msgs[r].peer][0] != r then peers' == peers
             else lists[msgs[r].peer] == [r] && peers' == Without(peers, msgs[r].peer)
    ensures Ordered(msgs, lists', peers') && RemovalKeepsOrder(msgs, lists, peers, r)
  {
    var p := msgs[r].peer;
    var heads, heads' := HeadRanks(msgs, lists), HeadRanks(msgs, lists');
    ListsSortedAfterRemove(msgs, lists, lists', r);
    if lists[p][0] == r {
      WithoutKeepsSorted(peers, p, heads);
      WithoutMembers(peers, p);
    }
    forall q | q in peers' ensures RankOf(heads', q) == RankOf(heads, q) {
      assert q in lists && lists'[q] != [] && lists'[q][0] == lists[q][0];
    }
    SortedFrame(peers', heads, heads');
  }

  /** What removing `r` does to the top-level list. */
  ghost predicate PeersAfterRemoval(msgs: map<Id, MsgIn>, lists: map<Id, seq<Id>>, lists': map<Id, seq<Id>>,
                                    peers: seq<Id>, peers': seq<Id>, r: Id)
    requires r in msgs
  {
    && Linked(msgs, lists', peers')
    && Without(peers', msgs[r].peer) == Without(peers, msgs[r].peer)
    && (ListsSorted(msgs, lists) ==> ListsSorted(msgs, lists'))
    && (Ordered(msgs, lists, peers) ==>
          (Ordered(msgs, lists', peers') <==> RemovalKeepsOrder(msgs, lists, peers, r)))
  }

  lemma RemovedOther(msgs: map<Id, MsgIn>, lists: map<Id, seq<Id>>, lists': map<Id, seq<Id>>,
                     peers: seq<Id>, r: Id)
    requires Linked(msgs, lists, peers) && InList(msgs, lists, r)
    requires lists' == lists[msgs[r].peer := Without(lists[msgs[r].peer], r)]
    requires lists[msgs[r].peer][0] != r
    ensures PeersAfterRemoval(msgs, lists, lists', peers, peers, r)
  {
    assert lists'[msgs[r].peer] != [] by { WithoutMembers(lists[msgs[r].peer], r); }
    ListsSortedAfterRemove(msgs, lists, lists', r);
    LinkedAfterRemove(msgs, lists, lists', peers, peers, r);
    if Ordered(msgs, lists, peers) { OrderAfterOtherRemoved(msgs, lists, lists', peers, peers, r); }
  }

  lemma RemovedOnly(msgs: map<Id, MsgIn>, lists: map<Id, seq<Id>>, lists': map<Id, seq<Id>>,
                    peers: seq<Id>, r: Id)
    requires Linked(msgs, lists, peers) && InList(msgs, lists, r)
    requires lists' == lists[msgs[r].peer := Without(lists[msgs[r].peer], r)]
    requires lists[msgs[r].peer] == [r]
    ensures PeersAfterRemoval(msgs, lists, lists', peers, Without(peers, msgs[r].peer), r)
  {
    var p := msgs[r].peer;
    WithoutMembers(peers, p);
    WithoutAbsent(Without(peers, p), p);
    assert lists'[p] == [];
    ListsSortedAfterRemove(msgs, lists, lists', r);
    LinkedAfterRemove(msgs, lists, lists', peers, Without(peers, p), r);
    if Ordered(msgs, lists, peers) { OrderAfterOtherRemoved(msgs, lists, lists', peers, Without(peers, p), r); }
  }

  lemma RemovedHead(msgs: map<Id, MsgIn>, lists: map<Id, seq<Id>>, lists': map<Id, seq<Id>>,
                    peers: seq<Id>, r: Id, at: nat, i: nat, t: seq<Id>)
    requires Linked(msgs, lists, peers) && InList(msgs, lists, r)
    requires lists[msgs[r].peer][0] == r && |lists[msgs[r].peer]| > 1
    requires lists' == lists[msgs[r].peer := Without(lists[msgs[r].peer], r)]
    requires at <= i < |peers| && peers[at] == msgs[r].peer
    requires t == peers[..at] + peers[at + 1..i + 1] + [peers[at]] + peers[i + 1..]
    requires forall j :: at < j <= i ==> Outranks(RankOf(Ranks(msgs), r), RankOf(HeadRanks(msgs, lists'), peers[j]))
    requires i + 1 < |peers| ==>
      !Outranks(RankOf(Ranks(msgs), r), RankOf(HeadRanks(msgs, lists'), peers[i + 1]))
    ensures PeersAfterRemoval(msgs, lists, lists', peers, t, r)
  {
    MovedDownKeepsRest(peers, at, i, t);
    assert lists'[msgs[r].peer] != [] by { WithoutMembers(lists[msgs[r].peer], r); assert lists[msgs[r].peer][1] != r; }
    ListsSortedAfterRemove(msgs, lists, lists', r);
    LinkedAfterRemove(msgs, lists, lists', peers, t, r);
    if Ordered(msgs, lists, peers) { OrderAfterHeadRemoved(msgs, lists, lists', peers, r, at, i, t); }
  }

  /** Concretely: the first of two peers has RPCs with 10 and 20 bytes
      remaining, the second one with 30. Removing the best RPC sends the first
      peer to the end, below a peer that it still outranks. */
  lemma RemovalCanBreakOrder() returns (msgs: map<Id, MsgIn>, lists: map<Id, seq<Id>>, peers: seq<Id>)
    ensures Linked(msgs, lists, peers) && Ordered(msgs, lists, peers)
    ensures 1 in msgs && !RemovalKeepsOrder(msgs, lists, peers, 1)
  {
    msgs := map[
      1 := MsgIn(1, 100, 10, 0, 0, -1, 0, false, 0, 0, 1),
      2 := MsgIn(1, 100, 20, 0, 0, -1, 0, false, 0, 0, 1),
      3 := MsgIn(2, 100, 30, 0, 0, -1, 0, false, 0, 0, 1)];
    lists := map[1 := [1, 2], 2 := [3]];
    peers := [1, 2];
    var ranks, heads := Ranks(msgs), HeadRanks(msgs, lists);
    assert RankOf(ranks, 1) == Rank(10, 0) && RankOf(ranks, 2) == Rank(20, 0) && RankOf(ranks, 3) == Rank(30, 0);
    assert RankOf(heads, 1) == Rank(10, 0) && RankOf(heads, 2) == Rank(30, 0);
    assert Sorted([1, 2], ranks) && Sorted([3], ranks) && Sorted(peers, heads) by { hide Ranks, HeadRanks; }
    assert !FallKeepsOrder(peers, 0, HeadRanks(msgs, lists), RankOf(Ranks(msgs), 2));
  }

  // ----- The sum of the recorded contributions -----

  ghost function SumRec(msgs: map<Id, MsgIn>): int {
    if msgs == map[] then 0
    else var r :| r in msgs; msgs[r].recIncoming + SumRec(msgs - {r})
  }

  /** The sum may be taken starting with any message. */
  lemma {:induction false} SumRecFrom(msgs: map<Id, MsgIn>, r: Id)
    requires r in msgs
    ensures SumRec(msgs) == msgs[r].recIncoming + SumRec(msgs - {r})
    decreases |msgs|
  {
    var c :| c in msgs && SumRec(msgs) == msgs[c].recIncoming + SumRec(msgs - {c});
    if c != r {
      assert (msgs - {c}).Keys == msgs.Keys - {c};
      SumRecFrom(msgs - {c}, r);
      assert (msgs - {r}).Keys == msgs.Keys - {r};
      SumRecFrom(msgs - {r}, c);
      assert msgs - {c} - {r} == msgs - {r} - {c};
    }
  }

  lemma SumRecUpdate(msgs: map<Id, MsgIn>, r: Id, m: MsgIn)
    requires r in msgs
    ensures SumRec(msgs[r := m]) == SumRec(msgs) - msgs[r].recIncoming + m.recIncoming
  {
    SumRecFrom(msgs, r);
    SumRecFrom(msgs[r := m], r);
    assert msgs[r := m] - {r} == msgs - {r};
  }

  lemma SumRecAdd(msgs: map<Id, MsgIn>, r: Id, m: MsgIn)
    requires r !in msgs
    ensures SumRec(msgs[r := m]) == SumRec(msgs) + m.recIncoming
  {
    SumRecFrom(msgs[r := m], r);
    assert msgs[r := m] - {r} == msgs;
  }

  // ----- Grants -----

  /** How far `m` may be granted now: a window beyond what has been received,
      the end of the message, and the bytes left of the overall limit when
      `total` counts what was recorded for `m`. */
  function GrantLimit(m: MsgIn, window: int, maxIncoming: int, total: int): int {
    var limit := Received(m) + window;
    var limit := if m.length < limit then m.length else limit;
    var budget := Received(m) + maxIncoming - (total - m.recIncoming);
    if budget < limit then budget else limit
  }

  /** A message that the scheduler should leave alone: its sender is silent,
      it has a window outstanding, or the overall limit is used up. */
  ghost predicate Settled(m: MsgIn, window: int, maxIncoming: int, total: int) {
    m.silentTicks > 1 || Incoming(m) >= window || total >= maxIncoming
  }

  /** The priorities of active messages fall one by one. The lowest ones are
      used if there are enough of them, otherwise the highest ones come first
      and the rest share the lowest. */
  ghost predicate PrioritiesFall(msgs: map<Id, MsgIn>, names: seq<Id>, maxPrio: int) {
    var n := |names|;
    && (forall i :: 0 <= i < n ==> names[i] in msgs && 0 <= msgs[names[i]].priority <= maxPrio)
    && (0 < n <= maxPrio + 1 ==> msgs[names[n - 1]].priority == 0)
    && (0 < n && maxPrio + 1 < n ==> msgs[names[0]].priority == maxPrio)
    && (forall i, j :: 0 <= i < n && j == i + 1 < n ==>
          || msgs[names[i]].priority == msgs[names[j]].priority + 1
          || (msgs[names[i]].priority == msgs[names[j]].priority == 0 && maxPrio + 1 < n))
  }

  ghost predicate SamePriorities(a: map<Id, MsgIn>, b: map<Id, MsgIn>) {
    a.Keys == b.Keys && forall r :: r in a ==> a[r].priority == b[r].priority
  }

  lemma PrioritiesKept(a: map<Id, MsgIn>, b: map<Id, MsgIn>, names: seq<Id>, maxPrio: int)
    requires SamePriorities(a, b) && PrioritiesFall(a, names, maxPrio)
    ensures PrioritiesFall(b, names, maxPrio)
  {
  }

  lemma ShareGrows(a: int, b: int, n: nat)
    requires a <= b
    ensures a * n <= b * n
  {
  }

  lemma Quotient(a: nat, b: nat)
    requires b > 0
    ensures a / b * b <= a < (a / b + 1) * b
  {
    assert a == a / b * b + a % b;
  }

  /** Every message's contribution covers what it has outstanding. */
  ghost predicate Covered(msgs: map<Id, MsgIn>) {
    forall r :: r in msgs ==> msgs[r].recIncoming >= Incoming(msgs[r])
  }

  /** No contribution is negative. */
  ghost predicate Contributing(msgs: map<Id, MsgIn>) {
    forall r :: r in msgs ==> msgs[r].recIncoming >= 0
  }

  // ----- What is outstanding but not recorded yet -----

  /** What `m` has outstanding beyond its contribution. */
  function Owed(m: MsgIn): nat {
    if Incoming(m) > m.recIncoming then Incoming(m) - m.recIncoming else 0
  }

  /** The messages with what they owe in place of their contributions. */
  ghost function Owing(msgs: map<Id, MsgIn>): map<Id, MsgIn> {
    map r | r in msgs :: msgs[r].(recIncoming := Owed(msgs[r]))
  }

  /** The bytes outstanding that the total does not count yet. */
  ghost function Debt(msgs: map<Id, MsgIn>): int {
    SumRec(Owing(msgs))
  }

  lemma DebtUpdate(msgs: map<Id, MsgIn>, r: Id, m: MsgIn)
    requires r in msgs
    ensures Debt(msgs[r := m]) == Debt(msgs) - Owed(msgs[r]) + Owed(m)
  {
    SumRecUpdate(Owing(msgs), r, m.(recIncoming := Owed(m)));
    assert Owing(msgs[r := m]) == Owing(msgs)[r := m.(recIncoming := Owed(m))];
  }

  lemma DebtAdd(msgs: map<Id, MsgIn>, r: Id, m: MsgIn)
    requires r !in msgs
    ensures Debt(msgs[r := m]) == Debt(msgs) + Owed(m)
  {
    SumRecAdd(Owing(msgs), r, m.(recIncoming := Owed(m)));
    assert Owing(msgs[r := m]) == Owing(msgs)[r := m.(recIncoming := Owed(m))];
  }

  lemma DebtFrom(msgs: map<Id, MsgIn>, r: Id)
    requires r in msgs
    ensures Debt(msgs) == Owed(msgs[r]) + Debt(msgs - {r})
  {
    SumRecFrom(Owing(msgs), r);
    assert Owing(msgs - {r}) == Owing(msgs) - {r};
  }

  lemma CoveredFrom(msgs: map<Id, MsgIn>, r: Id)
    requires r in msgs
    ensures Covered(msgs) <==> Covered(msgs - {r}) && Owed(msgs[r]) == 0
  {
    assert forall x :: x in msgs - {r} ==> x in msgs && msgs[x] == (msgs - {r})[x];
    assert forall x :: x in msgs && x != r ==> x in msgs - {r};
  }

  /** There is no debt exactly if every contribution covers its message. */
  lemma {:induction false} CoveredIfNoDebt(msgs: map<Id, MsgIn>)
    ensures Debt(msgs) >= 0
    ensures Covered(msgs) <==> Debt(msgs) == 0
    decreases |msgs|
  {
    if msgs == map[] {
      assert Owing(msgs) == map[];
    } else {
      var r :| r in msgs;
      DebtFrom(msgs, r);
      assert (msgs - {r}).Keys == msgs.Keys - {r};
      CoveredIfNoDebt(msgs - {r});
      CoveredFrom(msgs, r);
    }
  }

  lemma OnlyRankChangedDebt(a: map<Id, MsgIn>, b: map<Id, MsgIn>)
    requires OnlyRankChanged(a, b)
    ensures Debt(b) == Debt(a) && (Contributing(a) ==> Contributing(b))
  {
    OnlyRankChangedSum(Owing(a), Owing(b));
  }

  /** The total, but not below the limit. */
  function AtLeast(total: int, maxIncoming: int): int {
    if total < maxIncoming then maxIncoming else total
  }

  /** Recording pays what a message owes into the total. A grant may raise the
      total on top of that, but not above the limit. */
  lemma DebtPaid(msgs: map<Id, MsgIn>, r: Id, m': MsgIn, granted: bool, total: int, total': int, maxIncoming: int)
    requires r in msgs && GrantStep(msgs[r], m', granted)
    requires total' == total - msgs[r].recIncoming + m'.recIncoming && (granted ==> total' <= maxIncoming)
    ensures Debt(msgs[r := m']) == Debt(msgs) - Owed(msgs[r])
    ensures AtLeast(total', maxIncoming) + Debt(msgs[r := m']) <= AtLeast(total, maxIncoming) + Debt(msgs)
  {
    DebtUpdate(msgs, r, m');
  }

  /** Only what the choice of active messages decides is different. */
  ghost predicate OnlyRankChanged(a: map<Id, MsgIn>, b: map<Id, MsgIn>) {
    && a.Keys == b.Keys
    && forall r :: r in a ==> b[r] == a[r].(rank := b[r].rank, priority := b[r].priority)
  }

  /** `names` lists, in order, the messages with a rank. */
  ghost predicate RanksNamed(msgs: map<Id, MsgIn>, names: seq<Id>) {
    && (forall i :: 0 <= i < |names| ==> names[i] in msgs && msgs[names[i]].rank == i)
    && (forall r :: r in msgs ==> msgs[r].rank == -1 || (0 <= msgs[r].rank < |names| && names[msgs[r].rank] == r))
  }

  /** The messages with a rank from `i` on are those in `names`; the others
      have none. */
  ghost predicate RanksFrom(msgs: map<Id, MsgIn>, names: seq<Id>, i: nat) {
    && (forall r :: r in msgs ==> msgs[r].rank == -1 || (i <= msgs[r].rank < |names| && names[msgs[r].rank] == r))
    && (forall j :: i <= j < |names| ==> names[j] in msgs && msgs[names[j]].rank == j)
  }

  lemma NamesAreRanks(msgs: map<Id, MsgIn>, names: seq<Id>)
    requires RanksNamed(msgs, names)
    ensures RanksFrom(msgs, names, 0)
  {
  }

  lemma NoneRanked(msgs: map<Id, MsgIn>, names: seq<Id>)
    requires RanksFrom(msgs, names, |names|)
    ensures RanksNamed(msgs, [])
  {
  }

  lemma ClearOne(msgs: map<Id, MsgIn>, names: seq<Id>, i: nat)
    requires RanksFrom(msgs, names, i) && i < |names| && Distinct(names)
    ensures names[i] in msgs
    ensures var msgs' := msgs[names[i] := msgs[names[i]].(rank := -1)];
      RanksFrom(msgs', names, i + 1) && OnlyRankChanged(msgs, msgs')
  {
  }

  lemma EligibleFacts(msgs: map<Id, MsgIn>, lists: map<Id, seq<Id>>, cap: nat, s: seq<Id>)
    requires Eligible(msgs, lists, cap, s)
    ensures Distinct(s) && forall i :: 0 <= i < |s| ==> s[i] in msgs && InList(msgs, lists, s[i])
  {
    assert forall i :: 0 <= i < |s| ==> s[i] in s;
  }

  lemma NamesOneMore(msgs: map<Id, MsgIn>, names: seq<Id>, i: nat, priority: int)
    requires i < |names| && Distinct(names) && names[i] in msgs && RanksNamed(msgs, names[..i])
    ensures RanksNamed(msgs[names[i] := msgs[names[i]].(rank := i, priority := priority)], names[..i + 1])
  {
    assert names[..i + 1] == names[..i] + [names[i]];
    assert names[i] !in names[..i];
  }

  /** Measures how often the scheduler may still have to start over. */
  ghost function Work(msgs: map<Id, MsgIn>, lists: map<Id, seq<Id>>): nat {
    |GrantableSet(msgs, lists)| + |StaleSet(msgs, lists)|
  }

  /** Successive grants to a message reach ever further, but never beyond its
      end; none reaches further than what is recorded as granted. */
  ghost predicate GrantsAdvance(sent: seq<GrantPkt>, msgs: map<Id, MsgIn>) {
    && (forall i, j :: 0 <= i < j < |sent| && sent[i].rpc == sent[j].rpc ==> sent[i].offset < sent[j].offset)
    && (forall i :: 0 <= i < |sent| && sent[i].rpc in msgs ==>
          sent[i].offset <= msgs[sent[i].rpc].granted && sent[i].offset <= msgs[sent[i].rpc].length)
  }

  lemma OnlyRankChangedTwice(a: map<Id, MsgIn>, b: map<Id, MsgIn>, c: map<Id, MsgIn>)
    requires OnlyRankChanged(a, b) && OnlyRankChanged(b, c)
    ensures OnlyRankChanged(a, c)
  {
    forall r | r in a ensures c[r] == a[r].(rank := c[r].rank, priority := c[r].priority) {
      assert b[r] == a[r].(rank := b[r].rank, priority := b[r].priority);
      assert c[r] == b[r].(rank := c[r].rank, priority := c[r].priority);
    }
  }

  lemma OnlyRankChangedSum(a: map<Id, MsgIn>, b: map<Id, MsgIn>)
    requires OnlyRankChanged(a, b)
    ensures SumRec(b) == SumRec(a)
    decreases |a|
  {
    if a != map[] {
      var r :| r in a;
      SumRecFrom(a, r);
      SumRecFrom(b, r);
      assert (a - {r}).Keys == a.Keys - {r};
      OnlyRankChangedSum(a - {r}, b - {r});
    }
  }

  /** What the scheduler reads of a message does not include its rank. */
  lemma OnlyRankChangedFacts(a: map<Id, MsgIn>, b: map<Id, MsgIn>, lists: map<Id, seq<Id>>, peers: seq<Id>)
    requires OnlyRankChanged(a, b)
    ensures Ranks(a) == Ranks(b) && HeadRanks(a, lists) == HeadRanks(b, lists)
    ensures Linked(a, lists, peers) ==> Linked(b, lists, peers)
    ensures GrantableSet(a, lists) == GrantableSet(b, lists) && Work(a, lists) == Work(b, lists)
    ensures forall sent :: GrantsAdvance(sent, a) ==> GrantsAdvance(sent, b)
    ensures forall cap, s :: Eligible(a, lists, cap, s) ==> Eligible(b, lists, cap, s)
    ensures forall cap, max :: Best(a, lists, peers, cap, max) == Best(b, lists, peers, cap, max)
    ensures Ordered(a, lists, peers) <==> Ordered(b, lists, peers)
  {
    forall r | r in a ensures Rank(a[r].bytesRemaining, a[r].birth) == Rank(b[r].bytesRemaining, b[r].birth)
                           && a[r].peer == b[r].peer && Incoming(a[r]) == Incoming(b[r])
                           && a[r].recIncoming == b[r].recIncoming
    {
      assert b[r] == a[r].(rank := b[r].rank, priority := b[r].priority);
    }
    assert StaleSet(a, lists) == StaleSet(b, lists);
    forall sent | GrantsAdvance(sent, a) ensures GrantsAdvance(sent, b) { GrantsAdvanceKept(sent, a, b); }
  }

  /** Recording one message takes it off the stale ones; if that lets the
      total drop below the limit, it was one of them. */
  lemma WorkAfterRecord(msgs: map<Id, MsgIn>, lists: map<Id, seq<Id>>, r: Id, m: MsgIn)
    requires InList(msgs, lists, r)
    requires m.peer == msgs[r].peer && m.recIncoming == Incoming(m)
    ensures GrantableSet(msgs[r := m], lists) == GrantableSet(msgs, lists)
    ensures StaleSet(msgs[r := m], lists) == StaleSet(msgs, lists) - {r}
    ensures Work(msgs[r := m], lists) == Work(msgs, lists) - if msgs[r].recIncoming != Incoming(msgs[r]) then 1 else 0
  {
    assert GrantableSet(msgs[r := m], lists) == GrantableSet(msgs, lists);
    assert StaleSet(msgs[r := m], lists) == StaleSet(msgs, lists) - {r};
  }

  lemma WorkAfterRemove(msgs: map<Id, MsgIn>, lists: map<Id, seq<Id>>, lists': map<Id, seq<Id>>, r: Id)
    requires GrantableSet(msgs, lists') == GrantableSet(msgs, lists) - {r} && InList(msgs, lists, r)
    ensures Work(msgs, lists') < Work(msgs, lists)
  {
    assert r in GrantableSet(msgs, lists);
    assert StaleSet(msgs, lists') <= StaleSet(msgs, lists) by {
      forall x | x in StaleSet(msgs, lists') ensures x in StaleSet(msgs, lists) {
        assert x in GrantableSet(msgs, lists');
      }
    }
    SubsetSize(StaleSet(msgs, lists'), StaleSet(msgs, lists));
  }

  lemma {:induction false} SubsetSize(a: set<Id>, b: set<Id>)
    requires a <= b
    ensures |a| <= |b|
  {
    if a != {} {
      var x :| x in a;
      SubsetSize(a - {x}, b - {x});
    }
  }

  lemma GrantsAdvanceKept(sent: seq<GrantPkt>, msgs: map<Id, MsgIn>, msgs': map<Id, MsgIn>)
    requires GrantsAdvance(sent, msgs) && msgs'.Keys <= msgs.Keys
    requires forall r :: r in msgs' ==> msgs[r].granted <= msgs'[r].granted && msgs[r].length == msgs'[r].length
    ensures GrantsAdvance(sent, msgs')
  {
  }

  /** The effect of sending and recording on one message. */
  ghost predicate GrantStep(m: MsgIn, m': MsgIn, granted: bool) {
    && Fixed(m') == Fixed(m) && m'.rank == m.rank && m'.priority == m.priority
    && m'.recIncoming == Incoming(m')
    && (if granted then m.granted < m'.granted <= m.length else m.granted <= m'.granted && Incoming(m') == Incoming(m))
  }

  lemma GrantStepFrame(msgs: map<Id, MsgIn>, r: Id, m': MsgIn, granted: bool)
    requires r in msgs && GrantStep(msgs[r], m', granted)
    ensures OnlyGrantsChanged(msgs, msgs[r := m'])
    ensures m'.peer == msgs[r].peer && Received(m') == Received(msgs[r]) && Incoming(m') >= Incoming(msgs[r])
  {
    assert Fixed(m').peer == Fixed(msgs[r]).peer;
    assert Fixed(m').length == Fixed(msgs[r]).length && Fixed(m').bytesRemaining == Fixed(msgs[r]).bytesRemaining;
  }

  lemma AfterGrantStep(msgs: map<Id, MsgIn>, lists: map<Id, seq<Id>>, peers: seq<Id>, names: seq<Id>, r: Id, m': MsgIn, granted: bool)
    requires Linked(msgs, lists, peers) && RanksNamed(msgs, names) && InList(msgs, lists, r)
    requires GrantStep(msgs[r], m', granted)
    ensures Linked(msgs[r := m'], lists, peers) && RanksNamed(msgs[r := m'], names)
    ensures OnlyGrantsChanged(msgs, msgs[r := m'])
    ensures GrantableSet(msgs[r := m'], lists) == GrantableSet(msgs, lists)
    ensures Work(msgs[r := m'], lists) <= Work(msgs, lists)
    ensures m'.recIncoming < msgs[r].recIncoming ==> Work(msgs[r := m'], lists) < Work(msgs, lists)
    ensures Contributing(msgs) ==> Contributing(msgs[r := m'])
  {
    hide Linked, OnlyGrantsChanged, GrantableSet, Work, Fixed;
    GrantStepFrame(msgs, r, m', granted);
    PeerUnchanged(msgs, msgs[r := m'], lists, peers);
    WorkAfterRecord(msgs, lists, r, m');
  }

  lemma GrantsAdvanceStep(sent: seq<GrantPkt>, msgs: map<Id, MsgIn>, r: Id, m': MsgIn, granted: bool, pkt: GrantPkt)
    requires GrantsAdvance(sent, msgs) && r in msgs && GrantStep(msgs[r], m', granted)
    requires pkt.rpc == r && pkt.offset == m'.granted
    ensures GrantsAdvance(if granted then sent + [pkt] else sent, msgs[r := m'])
  {
    assert Fixed(m').length == Fixed(msgs[r]).length;
    GrantsAdvanceKept(sent, msgs, msgs[r := m']);
  }

  lemma GrantableIsInList(msgs: map<Id, MsgIn>, lists: map<Id, seq<Id>>)
    ensures forall r :: r in GrantableSet(msgs, lists) <==> InList(msgs, lists, r)
    ensures forall r :: r in GrantableSet(msgs, lists) ==> r in msgs
  {
  }

  lemma NoGrantChange(a: map<Id, MsgIn>)
    ensures OnlyGrantsChanged(a, a)
  {
  }

  lemma OnlyGrantsChangedTwice(a: map<Id, MsgIn>, b: map<Id, MsgIn>, c: map<Id, MsgIn>)
    requires OnlyGrantsChanged(a, b) && OnlyGrantsChanged(b, c)
    ensures OnlyGrantsChanged(a, c)
  {
  }

  lemma RankChangeIsGrantChange(a: map<Id, MsgIn>, b: map<Id, MsgIn>)
    requires OnlyRankChanged(a, b)
    ensures OnlyGrantsChanged(a, b)
  {
    forall r | r in a
      ensures Fixed(a[r]) == Fixed(b[r]) && a[r].granted <= b[r].granted && (UpToDate(a[r]) ==> UpToDate(b[r]))
    {
      assert b[r] == a[r].(rank := b[r].rank, priority := b[r].priority);
    }
  }

  /** The choice of active messages does not depend on grant bookkeeping. */
  lemma ChoiceUnchanged(a: map<Id, MsgIn>, b: map<Id, MsgIn>, lists: map<Id, seq<Id>>, peers: seq<Id>)
    requires OnlyGrantsChanged(a, b)
    ensures Ordered(a, lists, peers) <==> Ordered(b, lists, peers)
    ensures forall cap, max :: Best(a, lists, peers, cap, max) == Best(b, lists, peers, cap, max)
  {
    RanksUnchanged(a, b);
  }

  lemma StillSettled(window: int, maxIncoming: int, total: int, total': int)
    ensures (total >= maxIncoming ==> total' >= maxIncoming) ==>
      forall m :: Settled(m, window, maxIncoming, total) ==> Settled(m, window, maxIncoming, total')
  {
  }

  lemma AfterNewMessage(msgs: map<Id, MsgIn>, lists: map<Id, seq<Id>>, peers: seq<Id>, names: seq<Id>,
                        sent: seq<GrantPkt>, r: Id, m: MsgIn)
    requires Linked(msgs, lists, peers) && RanksNamed(msgs, names) && GrantsAdvance(sent, msgs)
    requires r !in msgs && m.rank == -1 && m.recIncoming == 0
    requires forall g :: g in sent ==> g.rpc != r
    ensures Linked(msgs[r := m], lists, peers) && RanksNamed(msgs[r := m], names)
    ensures GrantsAdvance(sent, msgs[r := m]) && SumRec(msgs[r := m]) == SumRec(msgs)
    ensures Contributing(msgs) ==> Contributing(msgs[r := m])
    ensures Debt(msgs[r := m]) == Debt(msgs) + Incoming(m)
    ensures GrantableSet(msgs[r := m], lists) == GrantableSet(msgs, lists)
    ensures forall x :: InList(msgs, lists, x) ==> InList(msgs[r := m], lists, x)
  {
    hide Debt, SumRec;
    SumRecAdd(msgs, r, m);
    DebtAdd(msgs, r, m);
    assert r !in ListOf(lists, m.peer);
    assert GrantableSet(msgs[r := m], lists) == GrantableSet(msgs, lists);
    forall i | 0 <= i < |sent| ensures sent[i].rpc != r { assert sent[i] in sent; }
  }

  /** Nothing has left the lists except what was fully granted. */
  ghost predicate NoneStranded(msgs: map<Id, MsgIn>, lists: map<Id, seq<Id>>, msgs': map<Id, MsgIn>, lists': map<Id, seq<Id>>) {
    forall r :: r in GrantableSet(msgs, lists) && r in msgs' && r !in GrantableSet(msgs', lists') ==>
      msgs'[r].granted >= msgs'[r].length
  }

  lemma NoneStrandedTwice(a: map<Id, MsgIn>, la: map<Id, seq<Id>>, b: map<Id, MsgIn>, lb: map<Id, seq<Id>>,
                          c: map<Id, MsgIn>, lc: map<Id, seq<Id>>)
    requires NoneStranded(a, la, b, lb) && NoneStranded(b, lb, c, lc) && OnlyGrantsChanged(b, c)
    ensures NoneStranded(a, la, c, lc)
  {
    forall r | r in GrantableSet(a, la) && r in c && r !in GrantableSet(c, lc) ensures c[r].granted >= c[r].length {
      assert Fixed(b[r]).length == Fixed(c[r]).length;
    }
  }

  /** An event that concerns only the data, the buffers or the timer of `r`. */
  ghost predicate LocalChange(m: MsgIn, m': MsgIn) {
    && m'.peer == m.peer && m'.rank == m.rank && m'.length == m.length
    && m'.granted == m.granted && m'.recIncoming == m.recIncoming
    && m'.bytesRemaining <= m.bytesRemaining
  }

  lemma OwesNoMore(m: MsgIn, m': MsgIn)
    requires LocalChange(m, m')
    ensures Owed(m') <= Owed(m)
  {
  }

  lemma AfterLocalChange(msgs: map<Id, MsgIn>, lists: map<Id, seq<Id>>, peers: seq<Id>, names: seq<Id>,
                         sent: seq<GrantPkt>, r: Id, m': MsgIn)
    requires Linked(msgs, lists, peers) && RanksNamed(msgs, names) && GrantsAdvance(sent, msgs)
    requires r in msgs && LocalChange(msgs[r], m')
    ensures Linked(msgs[r := m'], lists, peers) && RanksNamed(msgs[r := m'], names)
    ensures GrantsAdvance(sent, msgs[r := m']) && SumRec(msgs[r := m']) == SumRec(msgs)
    ensures GrantableSet(msgs[r := m'], lists) == GrantableSet(msgs, lists)
    ensures (Contributing(msgs) ==> Contributing(msgs[r := m'])) && Debt(msgs[r := m']) <= Debt(msgs)
  {
    hide Debt, SumRec, Owed;
    SumRecUpdate(msgs, r, m');
    DebtUpdate(msgs, r, m');
    OwesNoMore(msgs[r], m');
    GrantsAdvanceKept(sent, msgs, msgs[r := m']);
    assert GrantableSet(msgs[r := m'], lists) == GrantableSet(msgs, lists);
  }

  lemma AfterFree(msgs: map<Id, MsgIn>, lists: map<Id, seq<Id>>, peers: seq<Id>, names: seq<Id>,
                  sent: seq<GrantPkt>, r: Id)
    requires Linked(msgs, lists, peers) && RanksNamed(msgs, names) && GrantsAdvance(sent, msgs)
    requires r in msgs && !InList(msgs, lists, r) && msgs[r].rank == -1
    ensures Linked(msgs - {r}, lists, peers) && RanksNamed(msgs - {r}, names)
    ensures GrantsAdvance(sent, msgs - {r}) && SumRec(msgs - {r}) == SumRec(msgs) - msgs[r].recIncoming
    ensures GrantableSet(msgs - {r}, lists) == GrantableSet(msgs, lists)
    ensures (Contributing(msgs) ==> Contributing(msgs - {r})) && Debt(msgs - {r}) == Debt(msgs) - Owed(msgs[r])
  {
    hide Debt, SumRec;
    SumRecFrom(msgs, r);
    DebtFrom(msgs, r);
    assert GrantableSet(msgs - {r}, lists) == GrantableSet(msgs, lists);
  }

  /** A message without a place in the lists is not active. */
  lemma UnlistedHasNoRank(msgs: map<Id, MsgIn>, lists: map<Id, seq<Id>>, names: seq<Id>, r: Id)
    requires RanksNamed(msgs, names) && r in msgs
    requires forall i :: 0 <= i < |names| ==> InList(msgs, lists, names[i])
    ensures !InList(msgs, lists, r) ==> msgs[r].rank == -1
  {
  }

  /** An entry without a rank is not among the named ones. */
  lemma UnrankedNotNamed(msgs: map<Id, MsgIn>, names: seq<Id>, r: Id)
    requires RanksNamed(msgs, names) && r in msgs
    ensures msgs[r].rank < 0 ==> r !in names
  {
  }

  lemma OnlyGrantsChangedWithout(a: map<Id, MsgIn>, b: map<Id, MsgIn>, r: Id)
    requires OnlyGrantsChanged(a, b)
    ensures OnlyGrantsChanged(a - {r}, b - {r}) && a.Keys == b.Keys
  {
  }

  lemma ContributionOf(msgs: map<Id, MsgIn>, r: Id)
    requires Contributing(msgs) && r in msgs
    ensures msgs[r].recIncoming >= 0
  {
  }

  /** Recording a message outside of a grant. */
  lemma AfterRecord(msgs: map<Id, MsgIn>, lists: map<Id, seq<Id>>, peers: seq<Id>, names: seq<Id>, sent: seq<GrantPkt>, r: Id)
    requires Linked(msgs, lists, peers) && RanksNamed(msgs, names) && GrantsAdvance(sent, msgs) && r in msgs
    ensures var msgs' := msgs[r := msgs[r].(recIncoming := Incoming(msgs[r]))];
      && Linked(msgs', lists, peers) && RanksNamed(msgs', names) && GrantsAdvance(sent, msgs')
      && GrantableSet(msgs', lists) == GrantableSet(msgs, lists)
      && OnlyGrantsChanged(msgs, msgs')
      && (Contributing(msgs) ==> Contributing(msgs'))
  {
    var msgs' := msgs[r := msgs[r].(recIncoming := Incoming(msgs[r]))];
    PeerUnchanged(msgs, msgs', lists, peers);
    GrantsAdvanceKept(sent, msgs, msgs');
  }

  lemma RecordAndBirth(msgs: map<Id, MsgIn>, msgs1: map<Id, MsgIn>, r: Id, rec: int, now: nat)
    requires r in msgs && msgs1 == msgs[r := msgs[r].(recIncoming := rec)] && rec == Incoming(msgs[r])
    ensures UpToDate(msgs1[r].(birth := now))
    ensures OnlyGrantsChanged(msgs[r := msgs[r].(birth := now)], msgs1[r := msgs1[r].(birth := now)])
  {
  }

  lemma NamedAtRank(msgs: map<Id, MsgIn>, names: seq<Id>, r: Id)
    requires RanksNamed(msgs, names) && r in msgs && msgs[r].rank != -1
    ensures 0 <= msgs[r].rank < |names| && names[msgs[r].rank] == r
  {
  }

  lemma StaysUpToDate(a: map<Id, MsgIn>, b: map<Id, MsgIn>, r: Id)
    requires OnlyGrantsChanged(a, b) && r in a && UpToDate(a[r])
    ensures r in b && UpToDate(b[r])
  {
  }

  /** What remains of the named messages is known. */
  ghost predicate RemainingAre(msgs: map<Id, MsgIn>, names: seq<Id>, rem: seq<int>) {
    |names| <= |rem| && forall i :: 0 <= i < |names| ==> names[i] in msgs && rem[i] == msgs[names[i]].bytesRemaining
  }

  lemma RemainingKept(a: map<Id, MsgIn>, b: map<Id, MsgIn>, names: seq<Id>, rem: seq<int>)
    requires OnlyGrantsChanged(a, b) && RemainingAre(a, names, rem)
    ensures RemainingAre(b, names, rem)
  {
    forall i | 0 <= i < |names| ensures names[i] in b && rem[i] == b[names[i]].bytesRemaining {
      SameRemaining(a, b, names[i]);
    }
  }

  lemma SameRemaining(a: map<Id, MsgIn>, b: map<Id, MsgIn>, r: Id)
    requires OnlyGrantsChanged(a, b) && r in a
    ensures r in b && b[r].bytesRemaining == a[r].bytesRemaining && b[r].length == a[r].length && a[r].granted <= b[r].granted
  {
    assert Fixed(a[r]).bytesRemaining == Fixed(b[r]).bytesRemaining && Fixed(a[r]).length == Fixed(b[r]).length;
  }

  lemma StrandedIsGranted(a: map<Id, MsgIn>, la: map<Id, seq<Id>>, b: map<Id, MsgIn>, lb: map<Id, seq<Id>>, r: Id)
    requires NoneStranded(a, la, b, lb) && InList(a, la, r) && r in b
    ensures b[r].granted < b[r].length ==> InList(b, lb, r)
  {
    assert r in GrantableSet(a, la);
  }

  lemma BirthUnchanged(a: map<Id, MsgIn>, b: map<Id, MsgIn>, r: Id)
    requires OnlyGrantsChanged(a, b) && r in a
    ensures r in b && a == a[r := a[r].(birth := b[r].birth)]
  {
    assert Fixed(a[r]).birth == Fixed(b[r]).birth;
  }

  lemma BirthOf(a: map<Id, MsgIn>, b: map<Id, MsgIn>, r: Id, now: nat)
    requires r in a && OnlyGrantsChanged(a[r := a[r].(birth := now)], b)
    ensures r in b && b[r].birth == now
  {
    assert Fixed(b[r]).birth == now;
  }
}
