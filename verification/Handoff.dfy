/** How RPCs with incoming packets get to the threads that wait for them. Each
    step is one section of code under the lock of the socket or of an RPC. */
module Handoff {
  import opened Sequences

  type Id = nat        // of RPCs
  type Tid = nat       // of threads

  /** `pktsReady` and `handingOff` are flags of the RPC, and `error` tells that
      it has an error to return. `aborted` is not in the program: it records
      that the RPC was aborted while no thread was about to overwrite its
      error. */
  datatype Rpc = Rpc(isClient: bool, pktsReady: bool, handingOff: bool, error: bool, dead: bool, aborted: bool)

  /** Where a thread is: outside; having taken an RPC from a ready queue;
      having registered an interest, which is `ready` once an RPC has been
      handed to it; having withdrawn it; or working on an RPC, which `failed`
      if it had an error when the thread locked it. */
  datatype Phase =
    | Outside
    | Claimed(rpc: Id)
    | Waiting(ready: Option<Id>)
    | Withdrawn(ready: Option<Id>)
    | Copying(rpc: Id, failed: bool)

  /** `received` counts the RPCs that the current interest has got. */
  datatype Thread = Thread(phase: Phase, received: nat)

  /** An RPC is on its way to the thread. */
  ghost predicate PendingOn(th: Thread, r: Id) {
    match th.phase
    case Outside => false
    case Claimed(rpc) => rpc == r
    case Waiting(ready) => ready == Some(r)
    case Withdrawn(ready) => ready == Some(r)
    case Copying(_, _) => false
  }

  ghost predicate Copies(th: Thread, r: Id) {
    th.phase.Copying? && th.phase.rpc == r
  }

  /** A thread copies packets of the RPC, with the lock dropped; its result
      will replace the RPC's error. */
  predicate CopiedOver(threads: map<Tid, Thread>, r: Id) {
    exists t :: t in threads && threads[t].phase == Copying(r, false)
  }

  /** Everything that the locks protect. */
  datatype State = State(
    rpcs: map<Id, Rpc>,
    threads: map<Tid, Thread>,
    readyRequests: seq<Id>, readyResponses: seq<Id>,
    requestInterests: seq<Tid>, responseInterests: seq<Tid>)
  {
    ghost predicate Queued(r: Id) {
      r in readyRequests || r in readyResponses
    }

    ghost predicate Listed(t: Tid) {
      t in requestInterests || t in responseInterests
    }

    ghost predicate Pending(t: Tid, r: Id) {
      t in threads && PendingOn(threads[t], r)
    }

    /** Some thread has the RPC, or will get it. */
    ghost predicate SeenTo(r: Id)
      requires r in rpcs
    {
      Queued(r) || rpcs[r].handingOff || Held(r)
    }

    ghost predicate Held(r: Id) {
      exists t :: t in threads && Copies(threads[t], r)
    }

    /** Ready queues hold RPCs of their kind that exist and are not being
        handed off. */
    ghost predicate QueuesOk() {
      && Distinct(readyRequests) && Distinct(readyResponses)
      && (forall r :: r in readyRequests ==> r in rpcs && !rpcs[r].isClient)
      && (forall r :: r in readyResponses ==> r in rpcs && rpcs[r].isClient)
      && (forall r :: Queued(r) ==> !rpcs[r].handingOff && !rpcs[r].dead)
    }

    /** Interests in a list have not got an RPC, and none gets two. */
    ghost predicate InterestsOk() {
      && Distinct(requestInterests) && Distinct(responseInterests)
      && (forall t :: Listed(t) ==> t in threads && threads[t] == Thread(Waiting(None), 0))
      && (forall t :: t in threads ==> threads[t].received <= 1)
    }

    /** An RPC is marked as being handed off while it is on its way to a
        thread, and to one thread only. */
    ghost predicate HandoffsOk() {
      && (forall t, r :: Pending(t, r) ==> r in rpcs && rpcs[r].handingOff)
      && (forall r :: r in rpcs && rpcs[r].handingOff ==> exists t :: Pending(t, r))
      && (forall t, t', r :: Pending(t, r) && Pending(t', r) ==> t == t')
      && (forall t :: t in threads && threads[t].phase.Copying? ==> threads[t].phase.rpc in rpcs)
    }

    /** No RPC with packets is forgotten, and none that was aborted. */
    ghost predicate NoneForgotten() {
      forall r :: r in rpcs && Wanted(rpcs[r]) ==> SeenTo(r)
    }

    /** The error of an aborted RPC is still there, and stays. */
    ghost predicate ErrorsKept() {
      forall r :: r in rpcs && rpcs[r].aborted && !rpcs[r].dead ==> rpcs[r].error && !CopiedOver(threads, r)
    }

    ghost predicate Inv() {
      QueuesOk() && InterestsOk() && HandoffsOk() && ErrorsKept() && NoneForgotten()
    }
  }

  /** A thread has to see to the RPC. */
  ghost predicate Wanted(rpc: Rpc) {
    !rpc.dead && (rpc.pktsReady || rpc.aborted)
  }

  // ----- Steps -----

  /** The interest gets the RPC, and leaves the lists. */
  function Give(s: State, r: Id, t: Tid): State
    requires r in s.rpcs && t in s.threads
  {
    s.(rpcs := s.rpcs[r := s.rpcs[r].(handingOff := true)],
       threads := s.threads[t := Thread(Waiting(Some(r)), s.threads[t].received + 1)],
       requestInterests := Without(s.requestInterests, t),
       responseInterests := Without(s.responseInterests, t))
  }

  function Enqueue(s: State, r: Id): State
    requires r in s.rpcs
  {
    if s.rpcs[r].isClient then s.(readyResponses := s.readyResponses + [r])
    else s.(readyRequests := s.readyRequests + [r])
  }

  /** `choice` is the interest that was chosen for the RPC, if any. */
  function HandOff(s: State, r: Id, choice: Option<Tid>): State
    requires r in s.rpcs && (choice.Some? ==> choice.value in s.threads)
  {
    if s.rpcs[r].handingOff || r in s.readyRequests || r in s.readyResponses then s
    else if choice.Some? then Give(s, r, choice.value)
    else Enqueue(s, r)
  }

  /** A thread takes an RPC from a ready queue. */
  function Claim(s: State, t: Tid, r: Id): State
    requires r in s.rpcs
  {
    s.(rpcs := s.rpcs[r := s.rpcs[r].(handingOff := true)],
       threads := s.threads[t := Thread(Claimed(r), 1)],
       readyRequests := Without(s.readyRequests, r),
       readyResponses := Without(s.readyResponses, r))
  }

  /** A thread announces its interest, unless there is an RPC for it. */
  function Register(s: State, t: Tid, responses: bool, requests: bool): State
    requires forall r :: s.Queued(r) ==> r in s.rpcs
  {
    if responses && s.readyResponses != [] then assert s.Queued(s.readyResponses[0]); Claim(s, t, s.readyResponses[0])
    else if requests && s.readyRequests != [] then assert s.Queued(s.readyRequests[0]); Claim(s, t, s.readyRequests[0])
    else Enlist(s, t, responses, requests)
  }

  /** A thread no longer wants to get an RPC. */
  function Withdraw(s: State, t: Tid): State
    requires t in s.threads && s.threads[t].phase.Waiting?
  {
    s.(threads := s.threads[t := s.threads[t].(phase := Withdrawn(s.threads[t].phase.ready))],
       requestInterests := Without(s.requestInterests, t),
       responseInterests := Without(s.responseInterests, t))
  }

  /** The thread locks the RPC that it has got. */
  function Lock(s: State, t: Tid, r: Id): State
    requires t in s.threads && r in s.rpcs
  {
    s.(rpcs := s.rpcs[r := s.rpcs[r].(handingOff := false)],
       threads := s.threads[t := s.threads[t].(phase := Copying(r, s.rpcs[r].error))])
  }

  function Leave(s: State, t: Tid): State
    requires t in s.threads
  {
    s.(threads := s.threads[t := s.threads[t].(phase := Outside)])
  }

  function Kill(s: State, r: Id): State
    requires r in s.rpcs
  {
    s.(rpcs := s.rpcs[r := s.rpcs[r].(dead := true)],
       readyRequests := Without(s.readyRequests, r),
       readyResponses := Without(s.readyResponses, r))
  }

  /** The thread is done with the RPC for now: it found it dead; or it returns
      it to the application with an error, or as complete; or more packets are
      to come. The result of copying replaces whatever error the RPC has got
      in the meantime. Client RPCs and those with errors end when they are
      returned. */
  function Finish(s: State, t: Tid, copyError: bool, complete: bool): State
    requires t in s.threads && s.threads[t].phase.Copying? && s.threads[t].phase.rpc in s.rpcs
  {
    var r := s.threads[t].phase.rpc;
    var rpc := s.rpcs[r];
    if rpc.dead then Leave(s, t)
    else if s.threads[t].phase.failed || copyError then Leave(Kill(s, r), t)
    else
      var s' := s.(rpcs := s.rpcs[r := rpc.(pktsReady := false, error := false)]);
      Leave(if complete && rpc.isClient then Kill(s', r) else s', t)
  }

  /** Packets have come in. */
  function Data(s: State, r: Id, choice: Option<Tid>): State
    requires r in s.rpcs && (choice.Some? ==> choice.value in s.threads)
  {
    if s.rpcs[r].pktsReady then s
    else HandOff(s.(rpcs := s.rpcs[r := s.rpcs[r].(pktsReady := true)]), r, choice)
  }

  function Abort(s: State, r: Id, choice: Option<Tid>): State
    requires r in s.rpcs && (choice.Some? ==> choice.value in s.threads)
  {
    if !s.rpcs[r].isClient then Kill(s, r)
    else HandOff(s.(rpcs := s.rpcs[r := s.rpcs[r].(error := true, aborted := !CopiedOver(s.threads, r))]), r, choice)
  }

  function NewRpc(s: State, r: Id, isClient: bool): State {
    s.(rpcs := s.rpcs[r := Rpc(isClient, false, false, false, false, false)])
  }

  // ----- What the steps keep -----

  /** All but `NoneForgotten`. */
  ghost predicate Sound(s: State) {
    s.QueuesOk() && s.InterestsOk() && s.HandoffsOk() && s.ErrorsKept()
  }

  /** The threads other than `t` are the same. */
  ghost predicate OthersSame(s: State, s': State, t: Tid) {
    && (forall u :: u in s.threads && u != t ==> u in s'.threads && s'.threads[u] == s.threads[u])
    && (forall u :: u in s'.threads && u != t ==> u in s.threads)
  }

  lemma PendingSame(s: State, s': State, t: Tid)
    requires OthersSame(s, s', t)
    ensures forall u, q :: u != t ==> (s'.Pending(u, q) <==> s.Pending(u, q))
    ensures (t in s.threads ==> !s.threads[t].phase.Copying?) && (t in s'.threads ==> !s'.threads[t].phase.Copying?) ==>
      forall q :: s.Held(q) <==> s'.Held(q)
    ensures forall q :: s.Held(q) && !(t in s.threads && Copies(s.threads[t], q)) ==> s'.Held(q)
  {
    forall q, u | u != t && u in s.threads && Copies(s.threads[u], q) ensures s'.Held(q) {
      assert u in s'.threads;
    }
    forall q, u | u != t && u in s'.threads && Copies(s'.threads[u], q) ensures s.Held(q) {
      assert u in s.threads;
    }
  }

  /** Flags and threads on which `ErrorsKept` depends. */
  lemma ErrorsChange(s: State, s': State, t: Tid)
    requires s.ErrorsKept() && OthersSame(s, s', t)
    requires forall q :: q in s'.rpcs && s'.rpcs[q].aborted && !s'.rpcs[q].dead ==>
      && q in s.rpcs && s.rpcs[q].aborted && !s.rpcs[q].dead && s'.rpcs[q].error == s.rpcs[q].error
    requires t in s'.threads && s'.threads[t].phase.Copying? && !s'.threads[t].phase.failed ==>
      s'.threads[t].phase.rpc in s.rpcs && !s.rpcs[s'.threads[t].phase.rpc].error
    ensures s'.ErrorsKept()
  {
    forall q, u | q in s'.rpcs && s'.rpcs[q].aborted && !s'.rpcs[q].dead && u in s'.threads
      ensures s'.threads[u].phase != Copying(q, false)
    {
      assert !CopiedOver(s.threads, q);
      assert u in s.threads ==> s.threads[u].phase != Copying(q, false);
    }
  }

  /** Flags on which `HandoffsOk` depends. */
  lemma HandoffsChange(s: State, s': State, t: Tid, r: Id)
    requires s.HandoffsOk() && OthersSame(s, s', t) && r in s'.rpcs
    requires forall q :: q in s.rpcs ==> q in s'.rpcs && (q != r ==> s'.rpcs[q].handingOff == s.rpcs[q].handingOff)
    requires forall q :: q in s'.rpcs && q != r ==> q in s.rpcs
    requires forall q :: s.Pending(t, q) ==> q == r
    requires forall q :: s'.Pending(t, q) ==> q == r
    requires s'.rpcs[r].handingOff <==> s'.Pending(t, r)
    requires forall u :: s.Pending(u, r) ==> u == t
    requires t in s'.threads && s'.threads[t].phase.Copying? ==> s'.threads[t].phase.rpc in s'.rpcs
    ensures s'.HandoffsOk()
  {
    PendingSame(s, s', t);
    forall q | q in s'.rpcs && s'.rpcs[q].handingOff ensures exists u :: s'.Pending(u, q) {
      if q == r {
        assert s'.Pending(t, r);
      } else {
        var u :| s.Pending(u, q);
        assert s'.Pending(u, q);
      }
    }
  }

  lemma ListsWithout(s: State, x: nat)
    requires s.QueuesOk() && s.InterestsOk()
    ensures Distinct(Without(s.readyRequests, x)) && Distinct(Without(s.readyResponses, x))
    ensures Distinct(Without(s.requestInterests, x)) && Distinct(Without(s.responseInterests, x))
    ensures forall y :: y in Without(s.readyRequests, x) <==> y in s.readyRequests && y != x
    ensures forall y :: y in Without(s.readyResponses, x) <==> y in s.readyResponses && y != x
    ensures forall y :: y in Without(s.requestInterests, x) <==> y in s.requestInterests && y != x
    ensures forall y :: y in Without(s.responseInterests, x) <==> y in s.responseInterests && y != x
  {
    WithoutMembers(s.readyRequests, x);
    WithoutMembers(s.readyResponses, x);
    WithoutMembers(s.requestInterests, x);
    WithoutMembers(s.responseInterests, x);
  }

  /** Apart from `r`, RPCs stay as they are and where they are. */
  ghost predicate SameElse(s: State, s': State, r: Id) {
    && s.rpcs.Keys == s'.rpcs.Keys
    && (forall q :: q in s.rpcs && q != r ==> s'.rpcs[q] == s.rpcs[q])
    && (forall q :: q != r && s.Queued(q) ==> s'.Queued(q))
  }

  /** The threads that wait for the RPC's kind. */
  function Interests(s: State, isClient: bool): seq<Tid> {
    if isClient then s.responseInterests else s.requestInterests
  }

  /** A thread that waited for the RPC's kind got it, and no other did; if none
      waited, it is the last in the queue of its kind. */
  ghost predicate Delivered(s: State, s': State, r: Id)
    requires r in s.rpcs && r in s'.rpcs
  {
    var isClient := s.rpcs[r].isClient;
    if Interests(s, isClient) == [] then
      if isClient then s'.readyResponses == s.readyResponses + [r] else s'.readyRequests == s.readyRequests + [r]
    else
      && (exists t :: t in Interests(s, isClient) && t in s'.threads && s'.threads[t].phase == Waiting(Some(r)))
      && (forall t, t' :: s'.Pending(t, r) && s'.Pending(t', r) ==> t == t')
  }

  lemma HandOffDelivers(s: State, s': State, r: Id, choice: Option<Tid>)
    requires r in s.rpcs && r in s'.rpcs && s'.HandoffsOk()
    requires !s.rpcs[r].handingOff && !s.Queued(r) && SuitableChoice(s, r, choice) && s.InterestsOk()
    requires choice.None? <==> Interests(s, s.rpcs[r].isClient) == []
    requires forall t :: t in Interests(s, s.rpcs[r].isClient) ==> t in s.threads
    requires s' == HandOff(s.(rpcs := s.rpcs[r := s.rpcs[r].(pktsReady := true)]), r, choice)
    ensures Delivered(s, s', r)
  {
    hide Without;
    if choice.Some? { assert s'.threads[choice.value].phase == Waiting(Some(r)); }
  }

  ghost predicate SuitableChoice(s: State, r: Id, choice: Option<Tid>)
    requires r in s.rpcs
  {
    choice.Some? ==> choice.value in if s.rpcs[r].isClient then s.responseInterests else s.requestInterests
  }

  lemma GiveKeeps(s: State, r: Id, t: Tid)
    requires Sound(s) && r in s.rpcs && !s.rpcs[r].handingOff && !s.Queued(r) && s.Listed(t)
    ensures t in s.threads
    ensures var s' := Give(s, r, t);
      Sound(s') && SameElse(s, s', r) && s'.rpcs[r] == s.rpcs[r].(handingOff := true)
      && forall q :: s.Held(q) ==> s'.Held(q)
  {
    hide CopiedOver, State.ErrorsKept, Copies, Without, PendingOn;
    var s' := Give(s, r, t);
    ErrorsChange(s, s', t);
    GiveInterests(s, r, t);
    assert s'.QueuesOk();
    NotPending(s, r, t);
    assert s'.Pending(t, r) && forall q :: s'.Pending(t, q) ==> q == r by { GivenOne(s, r, t); }
    HandoffsChange(s, s', t, r);
    PendingSame(s, s', t);
  }

  lemma GiveInterests(s: State, r: Id, t: Tid)
    requires s.QueuesOk() && s.InterestsOk() && r in s.rpcs && s.Listed(t)
    ensures Give(s, r, t).InterestsOk()
  {
    hide Without;
    ListsWithout(s, t);
  }

  lemma NotPending(s: State, r: Id, t: Tid)
    requires s.InterestsOk() && s.HandoffsOk() && s.Listed(t) && r in s.rpcs && !s.rpcs[r].handingOff
    ensures forall q :: !s.Pending(t, q)
    ensures forall u :: !s.Pending(u, r)
  {
  }

  lemma GivenOne(s: State, r: Id, t: Tid)
    requires r in s.rpcs && t in s.threads
    ensures forall q :: Give(s, r, t).Pending(t, q) <==> q == r
  {
  }

  lemma HandOffKeeps(s: State, r: Id, choice: Option<Tid>)
    requires Sound(s) && r in s.rpcs && !s.rpcs[r].dead && SuitableChoice(s, r, choice)
    ensures choice.Some? ==> choice.value in s.threads
    ensures var s' := HandOff(s, r, choice);
      && Sound(s') && SameElse(s, s', r)
      && (s'.Queued(r) || s'.rpcs[r].handingOff)
      && (s'.rpcs[r] == s.rpcs[r] || s'.rpcs[r] == s.rpcs[r].(handingOff := true))
      && forall q :: s.Held(q) ==> s'.Held(q)
  {
    assert choice.Some? ==> s.Listed(choice.value);
    if !(s.rpcs[r].handingOff || s.Queued(r)) {
      if choice.Some? {
        GiveKeeps(s, r, choice.value);
      } else {
        EnqueueKeeps(s, r);
      }
    }
  }

  lemma EnqueueKeeps(s: State, r: Id)
    requires Sound(s) && r in s.rpcs && !s.rpcs[r].handingOff && !s.rpcs[r].dead && !s.Queued(r)
    ensures var s' := Enqueue(s, r);
      Sound(s') && SameElse(s, s', r) && s'.Queued(r) && s'.rpcs == s.rpcs && forall q :: s.Held(q) ==> s'.Held(q)
  {
    var s' := Enqueue(s, r);
    assert s'.QueuesOk();
    HandoffsSame(s, s');
  }

  lemma HandoffsSame(s: State, s': State)
    requires s.HandoffsOk() && s'.threads == s.threads && s.rpcs.Keys <= s'.rpcs.Keys
    requires forall q :: q in s'.rpcs ==> s'.rpcs[q].handingOff == (q in s.rpcs && s.rpcs[q].handingOff)
    ensures s'.HandoffsOk() && forall q :: s.Held(q) <==> s'.Held(q)
  {
    assert forall u, q :: s'.Pending(u, q) <==> s.Pending(u, q);
  }

  /** Changing flags other than `handingOff`. */
  lemma FlagsKeep(s: State, r: Id, rpc: Rpc)
    requires Sound(s) && r in s.rpcs
    requires rpc.isClient == s.rpcs[r].isClient && rpc.handingOff == s.rpcs[r].handingOff && rpc.dead == s.rpcs[r].dead
    requires rpc.aborted && !rpc.dead ==> rpc.error && !CopiedOver(s.threads, r)
    ensures Sound(s.(rpcs := s.rpcs[r := rpc])) && forall q :: s.Held(q) <==> s.(rpcs := s.rpcs[r := rpc]).Held(q)
  {
    var s' := s.(rpcs := s.rpcs[r := rpc]);
    assert s'.QueuesOk();
    HandoffsSame(s, s');
  }

  /** Changing flags of an RPC and then handing it off. */
  lemma HandOffInv(s: State, r: Id, rpc: Rpc, choice: Option<Tid>)
    requires s.Inv() && r in s.rpcs && !rpc.dead && !s.rpcs[r].dead && SuitableChoice(s, r, choice)
    requires rpc.isClient == s.rpcs[r].isClient && rpc.handingOff == s.rpcs[r].handingOff
    requires rpc.aborted ==> rpc.error && !CopiedOver(s.threads, r)
    requires s.rpcs[r].aborted ==> rpc.aborted
    ensures choice.Some? ==> choice.value in s.threads
    ensures var s' := HandOff(s.(rpcs := s.rpcs[r := rpc]), r, choice);
      && s'.Inv() && AbortsKept(s, s') && r in s'.rpcs && s'.SeenTo(r)
      && s'.rpcs[r] == rpc.(handingOff := s'.rpcs[r].handingOff)
  {
    hide HandOff, CopiedOver, State.QueuesOk, State.InterestsOk, State.HandoffsOk, State.ErrorsKept, State.NoneForgotten;
    var s1 := s.(rpcs := s.rpcs[r := rpc]);
    FlagsKeep(s, r, rpc);
    ListedIsThread(s, r, choice);
    HandOffKeeps(s1, r, choice);
    StillSeenTo(s, s1, HandOff(s1, r, choice), r);
  }

  lemma ListedIsThread(s: State, r: Id, choice: Option<Tid>)
    requires s.InterestsOk() && r in s.rpcs && SuitableChoice(s, r, choice)
    ensures choice.Some? ==> choice.value in s.threads
  {
    assert choice.Some? ==> s.Listed(choice.value);
  }

  lemma StillSeenTo(s: State, s1: State, s': State, r: Id)
    requires s.NoneForgotten() && r in s.rpcs && r in s1.rpcs && s1 == s.(rpcs := s.rpcs[r := s1.rpcs[r]]) && SameElse(s1, s', r)
    requires forall q :: s1.Held(q) ==> s'.Held(q)
    requires r in s'.rpcs && (s'.Queued(r) || s'.rpcs[r].handingOff)
    ensures s'.NoneForgotten()
  {
    forall q | q in s'.rpcs && q != r && Wanted(s'.rpcs[q]) ensures s'.Queued(q) || s'.rpcs[q].handingOff || s'.Held(q) {
      assert s.Queued(q) || s.rpcs[q].handingOff || s.Held(q);
      assert s.Held(q) ==> s1.Held(q);
      assert s.Queued(q) ==> s1.Queued(q);
    }
  }

  lemma DataKeeps(s: State, r: Id, choice: Option<Tid>)
    requires s.Inv() && r in s.rpcs && !s.rpcs[r].dead && SuitableChoice(s, r, choice)
    ensures choice.Some? ==> choice.value in s.threads
    ensures var s' := Data(s, r, choice);
      && s'.Inv() && AbortsKept(s, s') && r in s'.rpcs && s'.SeenTo(r)
      && s'.rpcs[r] == s.rpcs[r].(pktsReady := true, handingOff := s'.rpcs[r].handingOff)
  {
    hide HandOff, CopiedOver;
    assert choice.Some? ==> s.Listed(choice.value);
    if !s.rpcs[r].pktsReady {
      HandOffInv(s, r, s.rpcs[r].(pktsReady := true), choice);
    }
  }

  /** A client RPC that is aborted while no thread copies its packets counts
      as aborted. */
  lemma AbortKeeps(s: State, r: Id, choice: Option<Tid>)
    requires s.Inv() && r in s.rpcs && !s.rpcs[r].dead && SuitableChoice(s, r, choice)
    ensures choice.Some? ==> choice.value in s.threads
    ensures Abort(s, r, choice).Inv() && AbortsKept(s, Abort(s, r, choice))
    ensures var s' := Abort(s, r, choice);
      && r in s'.rpcs
      && (s.rpcs[r].isClient ==>
            && s'.rpcs[r].error && !s'.rpcs[r].dead && s'.SeenTo(r)
            && (s'.rpcs[r].aborted <==> !CopiedOver(s.threads, r)))
      && (!s.rpcs[r].isClient ==> s'.rpcs[r].dead)
  {
    hide HandOff, CopiedOver;
    assert choice.Some? ==> s.Listed(choice.value);
    if s.rpcs[r].isClient {
      HandOffInv(s, r, s.rpcs[r].(error := true, aborted := !CopiedOver(s.threads, r)), choice);
    } else {
      KillKeeps(s, r);
    }
  }

  /** What counts as aborted goes on to do so. */
  ghost predicate AbortsKept(s: State, s': State) {
    forall r :: r in s.rpcs && s.rpcs[r].aborted ==> r in s'.rpcs && s'.rpcs[r].aborted
  }

  /** A thread that holds an aborted RPC returns its error. */
  lemma AbortIsReturned(s: State, t: Tid, copyError: bool, complete: bool)
    requires s.Inv() && t in s.threads && s.threads[t].phase.Copying?
    ensures var r := s.threads[t].phase.rpc;
      r in s.rpcs && (s.rpcs[r].aborted && !s.rpcs[r].dead ==>
        s.threads[t].phase.failed && Finish(s, t, copyError, complete) == Leave(Kill(s, r), t))
  {
    var r := s.threads[t].phase.rpc;
    if !s.threads[t].phase.failed {
      assert s.threads[t].phase == Copying(r, false);
      assert CopiedOver(s.threads, r);
    }
  }

  /** An abort is lost if a thread copies the RPC's packets at that time: the
      thread may be done next, and then the RPC goes on without an error. */
  lemma AbortIsLost(s: State, r: Id, choice: Option<Tid>, t: Tid)
    requires s.Inv() && r in s.rpcs && s.rpcs[r].isClient && !s.rpcs[r].dead && SuitableChoice(s, r, choice)
    requires t in s.threads && s.threads[t].phase == Copying(r, false)
    ensures choice.Some? ==> choice.value in s.threads
    ensures var s1 := Abort(s, r, choice);
      && s1.Inv() && s1.rpcs[r].error && t in s1.threads && s1.threads[t].phase == Copying(r, false)
      && var s2 := Finish(s1, t, false, false);
         s2.Inv() && !s2.rpcs[r].dead && !s2.rpcs[r].error
  {
    hide Without;
    assert choice.Some? ==> s.Listed(choice.value);
    AbortKeeps(s, r, choice);
    FinishKeeps(Abort(s, r, choice), t, false, false);
  }

  lemma KillKeeps(s: State, r: Id)
    requires s.Inv() && r in s.rpcs
    ensures Kill(s, r).Inv() && AbortsKept(s, Kill(s, r))
  {
    hide Without, CopiedOver, State.Held, State.HandoffsOk;
    var s' := Kill(s, r);
    ListsWithout(s, r);
    HandoffsSame(s, s');
  }

  lemma NewKeeps(s: State, r: Id, isClient: bool)
    requires s.Inv() && r !in s.rpcs
    ensures NewRpc(s, r, isClient).Inv() && AbortsKept(s, NewRpc(s, r, isClient))
  {
    HandoffsSame(s, NewRpc(s, r, isClient));
  }

  lemma ClaimKeeps(s: State, t: Tid, r: Id)
    requires s.Inv() && s.Queued(r) && (t in s.threads ==> s.threads[t].phase.Outside?)
    ensures r in s.rpcs && Claim(s, t, r).Inv() && AbortsKept(s, Claim(s, t, r))
  {
    hide CopiedOver, State.ErrorsKept, Copies, Without;
    var s' := Claim(s, t, r);
    ListsWithout(s, r);
    ErrorsChange(s, s', t);
    assert forall u :: !s.Pending(u, r);
    HandoffsChange(s, s', t, r);
    PendingSame(s, s', t);
  }

  lemma RegisterKeeps(s: State, t: Tid, responses: bool, requests: bool)
    requires s.Inv() && (t in s.threads ==> s.threads[t].phase.Outside?)
    ensures Register(s, t, responses, requests).Inv() && AbortsKept(s, Register(s, t, responses, requests))
  {
    hide Claim, Enlist;
    if responses && s.readyResponses != [] {
      ClaimKeeps(s, t, s.readyResponses[0]);
    } else if requests && s.readyRequests != [] {
      ClaimKeeps(s, t, s.readyRequests[0]);
    } else {
      EnlistKeeps(s, t, responses, requests);
    }
  }

  function Enlist(s: State, t: Tid, responses: bool, requests: bool): State {
    s.(threads := s.threads[t := Thread(Waiting(None), 0)],
       responseInterests := if responses then [t] + s.responseInterests else s.responseInterests,
       requestInterests := if requests then [t] + s.requestInterests else s.requestInterests)
  }

  lemma EnlistKeeps(s: State, t: Tid, responses: bool, requests: bool)
    requires s.Inv() && (t in s.threads ==> s.threads[t].phase.Outside?)
    ensures Enlist(s, t, responses, requests).Inv() && AbortsKept(s, Enlist(s, t, responses, requests))
  {
    var s' := Enlist(s, t, responses, requests);
    assert !s.Listed(t);
    assert s'.InterestsOk();
    ThreadMoves(s, s', t);
  }

  /** A thread without an RPC changes its place. */
  lemma ThreadMoves(s: State, s': State, t: Tid)
    requires s.HandoffsOk() && s.ErrorsKept() && s.NoneForgotten() && OthersSame(s, s', t)
    requires s'.rpcs == s.rpcs && s'.readyRequests == s.readyRequests && s'.readyResponses == s.readyResponses
    requires forall q :: s.Pending(t, q) <==> s'.Pending(t, q)
    requires t in s.threads ==> !s.threads[t].phase.Copying?
    requires t in s'.threads ==> !s'.threads[t].phase.Copying?
    ensures s'.HandoffsOk() && s'.ErrorsKept() && s'.NoneForgotten()
  {
    ErrorsChange(s, s', t);
    PendingSame(s, s', t);
    forall q | q in s'.rpcs && s'.rpcs[q].handingOff ensures exists u :: s'.Pending(u, q) {
      var u :| s.Pending(u, q);
      assert s'.Pending(u, q);
    }
  }

  lemma WithdrawKeeps(s: State, t: Tid)
    requires s.Inv() && t in s.threads && s.threads[t].phase.Waiting?
    ensures Withdraw(s, t).Inv()
  {
    hide Without;
    var s' := Withdraw(s, t);
    ListsWithout(s, t);
    ThreadMoves(s, s', t);
  }

  lemma LockKeeps(s: State, t: Tid, r: Id)
    requires s.Inv() && s.Pending(t, r) && !s.Listed(t)
    ensures r in s.rpcs && Lock(s, t, r).Inv() && AbortsKept(s, Lock(s, t, r))
  {
    hide CopiedOver, PendingOn, State.ErrorsKept, State.NoneForgotten;
    var s' := Lock(s, t, r);
    ErrorsChange(s, s', t);
    OnlyPending(s, t, r);
    HandoffsChange(s, s', t, r);
    LockSeesTo(s, t, r);
  }

  lemma OnlyPending(s: State, t: Tid, r: Id)
    requires s.HandoffsOk() && s.Pending(t, r)
    ensures forall q :: s.Pending(t, q) ==> q == r
    ensures forall u :: s.Pending(u, r) ==> u == t
    ensures r in s.rpcs && forall q :: !Lock(s, t, r).Pending(t, q)
  {
  }

  lemma LockSeesTo(s: State, t: Tid, r: Id)
    requires s.NoneForgotten() && s.Pending(t, r) && r in s.rpcs
    ensures Lock(s, t, r).NoneForgotten()
  {
    var s' := Lock(s, t, r);
    PendingSame(s, s', t);
    assert Copies(s'.threads[t], r);
    assert s'.Held(r);
    forall q | q in s'.rpcs && q != r && Wanted(s'.rpcs[q]) ensures s'.Queued(q) || s'.rpcs[q].handingOff || s'.Held(q) {
      assert Wanted(s.rpcs[q]);
    }
  }

  lemma LeaveKeeps(s: State, t: Tid)
    requires Sound(s) && t in s.threads && !s.Listed(t)
    requires forall q :: !s.Pending(t, q)
    requires forall q :: q in s.rpcs && Wanted(s.rpcs[q]) ==>
      s.Queued(q) || s.rpcs[q].handingOff || (s.Held(q) && !Copies(s.threads[t], q))
    ensures Leave(s, t).Inv() && Leave(s, t).rpcs == s.rpcs
  {
    var s' := Leave(s, t);
    ErrorsChange(s, s', t);
    PendingSame(s, s', t);
    forall q | q in s'.rpcs && s'.rpcs[q].handingOff ensures exists u :: s'.Pending(u, q) {
      var u :| s.Pending(u, q);
      assert s'.Pending(u, q);
    }
  }

  /** The RPC that the thread leaves is not wanted any more. */
  lemma StillWanted(s: State, s': State, r: Id)
    requires s.NoneForgotten() && r in s.rpcs && !s.rpcs[r].aborted
    requires s' == s.(rpcs := s.rpcs[r := s.rpcs[r].(pktsReady := false, error := false)])
    ensures s'.NoneForgotten() && AbortsKept(s, s') && !Wanted(s'.rpcs[r])
  {
    assert forall q :: s.Held(q) <==> s'.Held(q);
    assert forall q :: s.Queued(q) <==> s'.Queued(q);
  }

  lemma FinishKeeps(s: State, t: Tid, copyError: bool, complete: bool)
    requires s.Inv() && t in s.threads && s.threads[t].phase.Copying?
    ensures s.threads[t].phase.rpc in s.rpcs
    ensures Finish(s, t, copyError, complete).Inv() && AbortsKept(s, Finish(s, t, copyError, complete))
  {
    hide Leave, Without, CopiedOver;
    var r := s.threads[t].phase.rpc;
    var rpc := s.rpcs[r];
    if rpc.dead {
      LeaveKeeps(s, t);
    } else if s.threads[t].phase.failed || copyError {
      KillKeeps(s, r);
      LeaveKeeps(Kill(s, r), t);
    } else {
      AbortIsReturned(s, t, copyError, complete);
      var s' := s.(rpcs := s.rpcs[r := rpc.(pktsReady := false, error := false)]);
      FlagsKeep(s, r, rpc.(pktsReady := false, error := false));
      StillWanted(s, s', r);
      if complete && rpc.isClient {
        KillKeeps(s', r);
        LeaveKeeps(Kill(s', r), t);
      } else {
        LeaveKeeps(s', t);
      }
    }
  }

  lemma InvFacts(s: State, r: Id)
    requires s.Inv()
    ensures Sound(s) && s.InterestsOk() && s.HandoffsOk()
    ensures r in s.rpcs ==> forall t :: t in Interests(s, s.rpcs[r].isClient) ==> t in s.threads
    ensures r in s.rpcs && s.rpcs[r].aborted && !s.rpcs[r].dead ==> s.rpcs[r].error && !CopiedOver(s.threads, r)
  {
    assert forall t :: t in s.requestInterests || t in s.responseInterests ==> s.Listed(t);
  }

  lemma NothingAborted(s: State)
    ensures AbortsKept(s, s)
  {
  }

  lemma AbortsKeptTwice(a: State, b: State, c: State)
    ensures AbortsKept(a, b) && (b == c || AbortsKept(b, c)) ==> AbortsKept(a, c)
  {
  }

  // ----- The socket -----

  datatype Event =
    | Wait(t: Tid, responses: bool, requests: bool)
    | GiveUpWaiting(t: Tid)
    | LockRpc(t: Tid)
    | Done(t: Tid, copyError: bool, complete: bool)
    | NewClient(r: Id)
    | NewServer(r: Id, ready: bool, busy: Tid -> bool)
    | DataPkt(r: Id, busy: Tid -> bool)
    | Aborted(r: Id, busy: Tid -> bool)
    | FreeRpc(r: Id)

  /** What an event does; events that concern nothing that exists do nothing. */
  ghost predicate Does(s: State, e: Event, s': State) {
    match e
    case Wait(t, responses, requests) =>
      (t in s.threads ==> s.threads[t].phase.Outside?) ==>
        && t in s'.threads
        && if responses && s.readyResponses != [] then s'.threads[t].phase == Claimed(s.readyResponses[0])
           else if requests && s.readyRequests != [] then s'.threads[t].phase == Claimed(s.readyRequests[0])
           else && s'.threads[t].phase == Waiting(None)
                && (t in s'.responseInterests <==> responses) && (t in s'.requestInterests <==> requests)
    case GiveUpWaiting(t) =>
      t in s.threads && s.threads[t].phase.Waiting? ==>
        t in s'.threads && s'.threads[t].phase == Withdrawn(s.threads[t].phase.ready) && !s'.Listed(t)
    case LockRpc(t) =>
      t in s.threads && (s.threads[t].phase.Claimed? || s.threads[t].phase.Withdrawn?) ==>
        && (s.threads[t].phase == Withdrawn(None) ==> s' == Leave(s, t))
        && forall r :: s.Pending(t, r) ==>
             r in s'.rpcs && t in s'.threads && s'.threads[t].phase == Copying(r, s'.rpcs[r].error) && !s'.rpcs[r].handingOff
    case Done(t, copyError, complete) =>
      t in s.threads && s.threads[t].phase.Copying? ==>
        && t in s'.threads && s'.threads[t].phase.Outside?
        && var r := s.threads[t].phase.rpc;
           r in s.rpcs && (!s.rpcs[r].dead ==>
             && r in s'.rpcs
             && if s.threads[t].phase.failed || copyError then s'.rpcs[r].dead
                else !s'.rpcs[r].pktsReady && !s'.rpcs[r].error && (s'.rpcs[r].dead <==> complete && s'.rpcs[r].isClient))
    case NewClient(r) =>
      r !in s.rpcs ==> s'.rpcs == s.rpcs[r := Rpc(true, false, false, false, false, false)]
    case NewServer(r, ready, _) =>
      r !in s.rpcs ==>
        if ready then r in s'.rpcs && !s'.rpcs[r].isClient && s'.rpcs[r].pktsReady && s'.SeenTo(r)
        else s'.rpcs == s.rpcs[r := Rpc(false, false, false, false, false, false)]
    case DataPkt(r, _) =>
      r in s.rpcs && !s.rpcs[r].dead ==>
        && r in s'.rpcs && s'.rpcs[r].pktsReady && s'.SeenTo(r)
        && (!s.rpcs[r].pktsReady && !s.rpcs[r].handingOff && !s.Queued(r) ==> Delivered(s, s', r))
    case Aborted(r, _) =>
      r in s.rpcs && !s.rpcs[r].dead ==>
        r in s'.rpcs && if s.rpcs[r].isClient then s'.rpcs[r].error && s'.SeenTo(r) else s'.rpcs[r].dead
    case FreeRpc(r) =>
      r in s.rpcs ==> r in s'.rpcs && s'.rpcs[r].dead
  }

  class Socket {
    var rpcs: map<Id, Rpc>
    var threads: map<Tid, Thread>
    var readyRequests: seq<Id>
    var readyResponses: seq<Id>
    var requestInterests: seq<Tid>
    var responseInterests: seq<Tid>

    ghost function View(): State
      reads this
    {
      State(rpcs, threads, readyRequests, readyResponses, requestInterests, responseInterests)
    }

    constructor ()
      ensures View().Inv() && View() == State(map[], map[], [], [], [], [])
    {
      rpcs, threads := map[], map[];
      readyRequests, readyResponses, requestInterests, responseInterests := [], [], [], [];
    }

    /** The first interest of a thread whose core is not busy, otherwise the
        first of all. */
    method ChooseInterest(interests: seq<Tid>, busy: Tid -> bool) returns (t: Option<Tid>)
      ensures t.None? <==> interests == []
      ensures t.Some? ==> t.value in interests
      ensures t.Some? && busy(t.value) ==> t.value == interests[0] && forall u :: u in interests ==> busy(u)
    {
      var backup := None;
      for k := 0 to |interests|
        invariant backup == if k == 0 then None else Some(interests[0])
        invariant forall j :: 0 <= j < k ==> busy(interests[j])
      {
        if !busy(interests[k]) {
          return Some(interests[k]);
        }
        if backup.None? {
          backup := Some(interests[k]);
        }
      }
      return backup;
    }

    /** Hands an RPC to a waiting thread, or queues it. */
    method RpcHandoff(r: Id, busy: Tid -> bool) returns (ghost choice: Option<Tid>)
      requires r in rpcs && View().InterestsOk()
      modifies this
      ensures SuitableChoice(old(View()), r, choice) && (choice.Some? ==> choice.value in old(threads))
      ensures View() == HandOff(old(View()), r, choice)
      // It is only queued if no thread waits for its kind.
      ensures !old(rpcs)[r].handingOff && !old(View()).Queued(r) ==>
        (choice.None? <==> Interests(old(View()), old(rpcs)[r].isClient) == [])
    {
      choice := None;
      if rpcs[r].handingOff || r in readyRequests || r in readyResponses {
        return;
      }
      var t := ChooseInterest(if rpcs[r].isClient then responseInterests else requestInterests, busy);
      choice := t;
      if t.Some? {
        assert View().Listed(t.value);
        rpcs := rpcs[r := rpcs[r].(handingOff := true)];
        threads := threads[t.value := Thread(Waiting(Some(r)), threads[t.value].received + 1)];
        requestInterests := Without(requestInterests, t.value);
        responseInterests := Without(responseInterests, t.value);
      } else if rpcs[r].isClient {
        readyResponses := readyResponses + [r];
      } else {
        readyRequests := readyRequests + [r];
      }
    }

    /** Registers the interest of a thread, or finds an RPC for it. */
    method RegisterInterests(t: Tid, responses: bool, requests: bool)
      requires View().Inv() && (t in threads ==> threads[t].phase.Outside?)
      modifies this
      ensures View() == Register(old(View()), t, responses, requests)
      // The first ready response, or else request, is claimed; or else the
      // thread waits for what it wants, and nothing else.
      ensures t in threads
      ensures responses && old(readyResponses) != [] ==> threads[t].phase == Claimed(old(readyResponses)[0])
      ensures !(responses && old(readyResponses) != []) && requests && old(readyRequests) != [] ==>
        threads[t].phase == Claimed(old(readyRequests)[0])
      ensures !(responses && old(readyResponses) != []) && !(requests && old(readyRequests) != []) ==>
        && threads[t].phase == Waiting(None)
        && (t in responseInterests <==> responses) && (t in requestInterests <==> requests)
    {
      assert !View().Listed(t);
      if responses {
        if readyResponses != [] {
          ClaimRpc(t, readyResponses[0]);
          return;
        }
        responseInterests := [t] + responseInterests;
      }
      if requests {
        if readyRequests != [] {
          if responses {
            assert t !in old(responseInterests) by { assert !old(View()).Listed(t); }
            assert responseInterests[1..] == old(responseInterests);
            WithoutAbsent(old(responseInterests), t);
            responseInterests := Without(responseInterests, t);
          }
          ClaimRpc(t, readyRequests[0]);
          return;
        }
        requestInterests := [t] + requestInterests;
      }
      threads := threads[t := Thread(Waiting(None), 0)];
    }

    method ClaimRpc(t: Tid, r: Id)
      requires r in rpcs
      modifies this`rpcs, this`threads, this`readyRequests, this`readyResponses
      ensures View() == Claim(old(View()), t, r)
    {
      readyRequests := Without(readyRequests, r);
      readyResponses := Without(readyResponses, r);
      rpcs := rpcs[r := rpcs[r].(handingOff := true)];
      threads := threads[t := Thread(Claimed(r), 1)];
    }

    /** Withdraws the interest of a thread from the lists. */
    method CleanUp(t: Tid)
      requires View().Inv() && t in threads && threads[t].phase.Waiting?
      modifies this`threads, this`requestInterests, this`responseInterests
      ensures View() == Withdraw(old(View()), t) && View().Inv() && AbortsKept(old(View()), View())
      ensures t in threads && threads[t].phase == Withdrawn(old(threads)[t].phase.ready) && !View().Listed(t)
    {
      WithdrawKeeps(View(), t);
      ListsWithout(View(), t);
      threads := threads[t := threads[t].(phase := Withdrawn(threads[t].phase.ready))];
      requestInterests := Without(requestInterests, t);
      responseInterests := Without(responseInterests, t);
    }

    /** The thread locks its RPC and starts to copy, or has none. */
    method LockReady(t: Tid)
      requires View().Inv() && t in threads && (threads[t].phase.Claimed? || threads[t].phase.Withdrawn?)
      modifies this`rpcs, this`threads
      ensures View().Inv() && AbortsKept(old(View()), View())
      ensures old(threads)[t].phase == Withdrawn(None) ==> View() == Leave(old(View()), t)
      ensures forall r :: old(View()).Pending(t, r) ==>
        && r in old(rpcs) && View() == Lock(old(View()), t, r)
        && r in rpcs && t in threads && threads[t].phase == Copying(r, rpcs[r].error) && !rpcs[r].handingOff
    {
      var phase := threads[t].phase;
      if phase.Withdrawn? && phase.ready.None? {
        LeaveKeeps(View(), t);
        threads := threads[t := threads[t].(phase := Outside)];
      } else {
        var r := if phase.Claimed? then phase.rpc else phase.ready.value;
        LockKeeps(View(), t, r);
        rpcs := rpcs[r := rpcs[r].(handingOff := false)];
        threads := threads[t := threads[t].(phase := Copying(r, rpcs[r].error))];
      }
    }

    /** Packets have come in for an RPC. */
    method DataArrived(r: Id, busy: Tid -> bool) returns (ghost choice: Option<Tid>)
      requires View().Inv() && r in rpcs && !rpcs[r].dead
      modifies this
      ensures View().Inv() && AbortsKept(old(View()), View())
      ensures SuitableChoice(old(View()), r, choice) && (choice.Some? ==> choice.value in old(threads))
      ensures View() == Data(old(View()), r, choice)
      // The RPC is ready, and not forgotten; a thread that waits gets it.
      ensures r in rpcs && View().SeenTo(r)
      ensures rpcs[r] == old(rpcs)[r].(pktsReady := true, handingOff := rpcs[r].handingOff)
      ensures !old(rpcs)[r].pktsReady && !old(rpcs)[r].handingOff && !old(View()).Queued(r) ==> Delivered(old(View()), View(), r)
    {
      hide HandOff, State.Inv, State.SeenTo, Delivered, AbortsKept;
      choice := None;
      ghost var s := View();
      InvFacts(s, r);
      if !rpcs[r].pktsReady {
        rpcs := rpcs[r := rpcs[r].(pktsReady := true)];
        FlagsKeep(s, r, rpcs[r]);
        choice := RpcHandoff(r, busy);
        DataKeeps(s, r, choice);
        InvFacts(View(), r);
        if !s.rpcs[r].handingOff && !s.Queued(r) { HandOffDelivers(s, View(), r, choice); }
      } else {
        DataKeeps(s, r, choice);
      }
    }

    method AbortRpc(r: Id, busy: Tid -> bool) returns (ghost choice: Option<Tid>)
      requires View().Inv() && r in rpcs && !rpcs[r].dead
      modifies this
      ensures View().Inv() && AbortsKept(old(View()), View())
      ensures SuitableChoice(old(View()), r, choice) && (choice.Some? ==> choice.value in old(threads))
      ensures View() == Abort(old(View()), r, choice)
      // A client's RPC has its error, and is not forgotten; a server's ends.
      ensures r in rpcs
      ensures old(rpcs)[r].isClient ==> rpcs[r].error && !rpcs[r].dead && View().SeenTo(r)
      ensures !old(rpcs)[r].isClient ==> rpcs[r].dead
    {
      choice := None;
      if !rpcs[r].isClient {
        Free(r);
      } else {
        ghost var s := View();
        rpcs := rpcs[r := rpcs[r].(error := true, aborted := !CopiedOver(threads, r))];
        FlagsKeep(s, r, rpcs[r]);
        choice := RpcHandoff(r, busy);
        AbortKeeps(s, r, choice);
      }
    }

    /** The RPC ends, and leaves the ready queues. */
    method Free(r: Id)
      requires View().Inv() && r in rpcs
      modifies this`rpcs, this`readyRequests, this`readyResponses
      ensures View().Inv() && AbortsKept(old(View()), View()) && View() == Kill(old(View()), r)
      ensures r in rpcs && rpcs[r].dead
    {
      KillKeeps(View(), r);
      rpcs := rpcs[r := rpcs[r].(dead := true)];
      readyRequests := Without(readyRequests, r);
      readyResponses := Without(readyResponses, r);
    }

    /** The thread has copied what there was. */
    method EndCopy(t: Tid, copyError: bool, complete: bool)
      requires View().Inv() && t in threads && threads[t].phase.Copying?
      modifies this
      ensures View().Inv() && AbortsKept(old(View()), View())
      ensures old(threads)[t].phase.rpc in old(rpcs)
      ensures View() == Finish(old(View()), t, copyError, complete)
      // An error ends the RPC, and so does a complete response; a server's RPC
      // lives on, and an incomplete one waits for more packets.
      ensures t in threads && threads[t].phase.Outside?
      ensures var r := old(threads)[t].phase.rpc;
        !old(rpcs)[r].dead ==>
          && r in rpcs
          && (old(threads)[t].phase.failed || copyError ==> rpcs[r].dead)
          && (!(old(threads)[t].phase.failed || copyError) ==>
                !rpcs[r].pktsReady && !rpcs[r].error && (rpcs[r].dead <==> complete && rpcs[r].isClient))
    {
      FinishKeeps(View(), t, copyError, complete);
      var r, error := threads[t].phase.rpc, threads[t].phase.failed || copyError;
      threads := threads[t := threads[t].(phase := Outside)];
      if rpcs[r].dead {
        return;
      }
      if !error {
        rpcs := rpcs[r := rpcs[r].(pktsReady := false, error := false)];
      }
      if error || (complete && rpcs[r].isClient) {
        rpcs := rpcs[r := rpcs[r].(dead := true)];
        readyRequests := Without(readyRequests, r);
        readyResponses := Without(readyResponses, r);
      }
    }

    method Create(r: Id, isClient: bool)
      requires View().Inv() && r !in rpcs
      modifies this`rpcs
      ensures View().Inv() && AbortsKept(old(View()), View()) && View() == NewRpc(old(View()), r, isClient)
    {
      NewKeeps(View(), r, isClient);
      rpcs := rpcs[r := Rpc(isClient, false, false, false, false, false)];
    }

    /** A new server RPC is `ready` if its packet is the first of the message
        and there are buffers for it. */
    method Handle(e: Event)
      requires View().Inv()
      modifies this
      ensures View().Inv() && AbortsKept(old(View()), View())
      ensures Does(old(View()), e, View())
    {
      hide State.Inv, AbortsKept, Register, Withdraw, Lock, Finish, Data, Abort, Kill, State.SeenTo, Delivered, PendingOn;
      NothingAborted(View());
      match e {
        case Wait(t, responses, requests) =>
          if t !in threads || threads[t].phase.Outside? {
            RegisterKeeps(View(), t, responses, requests);
            RegisterInterests(t, responses, requests);
          }
        case GiveUpWaiting(t) =>
          if t in threads && threads[t].phase.Waiting? { CleanUp(t); }
        case LockRpc(t) =>
          if t in threads && (threads[t].phase.Claimed? || threads[t].phase.Withdrawn?) { LockReady(t); }
        case Done(t, copyError, complete) =>
          if t in threads && threads[t].phase.Copying? { EndCopy(t, copyError, complete); }
        case NewClient(r) =>
          if r !in rpcs { Create(r, true); }
        case NewServer(r, ready, busy) =>
          if r !in rpcs {
            Create(r, false);
            ghost var s := View();
            if ready { var _ := DataArrived(r, busy); }
            AbortsKeptTwice(old(View()), s, View());
          }
        case DataPkt(r, busy) =>
          if r in rpcs && !rpcs[r].dead { var _ := DataArrived(r, busy); }
        case Aborted(r, busy) =>
          if r in rpcs && !rpcs[r].dead { var _ := AbortRpc(r, busy); }
        case FreeRpc(r) =>
          if r in rpcs { Free(r); }
      }
    }

    /** Every interleaving. At the end, as at any point: no interest has got
        more than one RPC; no RPC is queued while it is being handed off; and
        each live RPC with packets is queued, being handed off to exactly one
        thread, or held by a thread that copies. So is each client RPC that was
        aborted while no thread was copying its packets, with its error, until
        that is returned. */
    method Run(events: seq<Event>) returns (ghost trace: seq<State>)
      requires View().Inv()
      modifies this
      ensures |trace| == |events| + 1 && trace[0] == old(View()) && trace[|events|] == View()
      ensures forall k :: 0 <= k <= |events| ==> trace[k].Inv()
      ensures forall k :: 0 <= k < |events| ==> Does(trace[k], events[k], trace[k + 1])
      ensures View().Inv()
      ensures forall t :: t in threads ==> threads[t].received <= 1
      ensures forall r :: r in rpcs && View().Queued(r) ==> !rpcs[r].handingOff
      ensures forall r :: r in rpcs && rpcs[r].pktsReady && !rpcs[r].dead ==>
        View().Queued(r) || (exists t :: View().Pending(t, r)) || View().Held(r)
      ensures forall t, t', r :: View().Pending(t, r) && View().Pending(t', r) ==> t == t'
      ensures forall r :: r in old(rpcs) && old(rpcs)[r].aborted ==> r in rpcs && rpcs[r].aborted
      ensures forall r :: r in rpcs && rpcs[r].aborted && !rpcs[r].dead ==>
        rpcs[r].error && (View().Queued(r) || (exists t :: View().Pending(t, r)) || View().Held(r))
    {
      hide Does;
      trace := [View()];
      for n := 0 to |events|
        invariant View().Inv() && AbortsKept(old(View()), View())
        invariant |trace| == n + 1 && trace[0] == old(View()) && trace[n] == View()
        invariant forall k :: 0 <= k <= n ==> trace[k].Inv()
        invariant forall k :: 0 <= k < n ==> Does(trace[k], events[k], trace[k + 1])
      {
        Handle(events[n]);
        trace := trace + [View()];
      }
    }
  }

  /** The thread takes the only ready RPC and locks it. */
  method TakeOnly(hsk: Socket, t: Tid, r: Id)
    requires hsk.View().Inv() && hsk.readyResponses == [r] && (t in hsk.threads ==> hsk.threads[t].phase.Outside?)
    modifies hsk
    ensures hsk.View().Inv() && r in old(hsk.rpcs)
    ensures hsk.rpcs == old(hsk.rpcs)[r := old(hsk.rpcs)[r].(handingOff := false)]
    ensures hsk.threads == old(hsk.threads)[t := Thread(Copying(r, hsk.rpcs[r].error), 1)]
    ensures hsk.readyResponses == [] && hsk.readyRequests == Without(old(hsk.readyRequests), r)
    ensures hsk.requestInterests == old(hsk.requestInterests) && hsk.responseInterests == old(hsk.responseInterests)
  {
    hide State.Inv, Without, Register;
    OnlyReady(hsk.View(), t, r);
    hsk.RegisterInterests(t, true, false);
    assert hsk.View().Pending(t, r);
    hsk.LockReady(t);
  }

  lemma OnlyReady(s: State, t: Tid, r: Id)
    requires s.Inv() && s.readyResponses == [r] && (t in s.threads ==> s.threads[t].phase.Outside?)
    ensures Register(s, t, true, false).Inv()
    ensures r in s.rpcs && Register(s, t, true, false) == Claim(s, t, r) && Without([r], r) == []
  {
    RegisterKeeps(s, t, true, false);
    assert s.Queued(r);
  }

  /** A thread copies the first packets of a client's RPC. */
  method FirstCopy() returns (hsk: Socket)
    ensures hsk.View().Inv() && fresh(hsk)
    ensures hsk.View() == State(map[0 := Rpc(true, true, false, false, false, false)],
                                map[1 := Thread(Copying(0, false), 1)], [], [], [], [])
  {
    hide State.Inv;
    hsk := new Socket();
    hsk.Create(0, true);
    var _ := hsk.DataArrived(0, _ => false);
    assert hsk.readyResponses == [0] && hsk.readyRequests == [];
    TakeOnly(hsk, 1, 0);
  }

  /** Such a run: an RPC is aborted while a thread copies its first packets. At
      the end the RPC lives, without an error, and nobody has it in hand. */
  method LoseAbort() returns (hsk: Socket)
    ensures hsk.View().Inv() && 0 in hsk.rpcs && !hsk.rpcs[0].dead && !hsk.rpcs[0].error
    ensures !hsk.View().Queued(0) && !hsk.rpcs[0].handingOff && !hsk.View().Held(0)
  {
    hide State.Inv, CopiedOver, Without;
    hsk := FirstCopy();
    var _ := hsk.AbortRpc(0, _ => false);
    assert hsk.readyResponses == [0] && hsk.readyRequests == [] && hsk.rpcs[0].error;
    hsk.EndCopy(1, false, false);
    assert hsk.readyResponses == [0] && hsk.threads == map[1 := Thread(Outside, 1)] && !hsk.rpcs[0].error;
    WithoutAbsent([], 0);
    TakeOnly(hsk, 1, 0);
    assert hsk.threads == map[1 := Thread(Copying(0, false), 1)];
    hsk.EndCopy(1, false, false);
    assert hsk.threads == map[1 := Thread(Outside, 1)];
  }
}
