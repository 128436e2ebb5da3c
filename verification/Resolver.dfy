// curl's threaded name resolver, asyn-thread.c: the interleaved steps of the thread that resolves
// and of its owner, which polls, waits or cancels. Every access to shared memory is a step of its own.
module Resolver {
  import opened Options

  datatype Holder = Free | ByOwner | ByThread

  /** Where the thread is: about to do what the name says. */
  datatype Thread =
    | NotCreated
    | Nulling                     // getaddrinfo_ex sets the result to NULL first
    | Looking                     // the blocking system call; reads the host name and the hints in the block
    | Storing(list: Option<nat>)  // writes the result
    | Failing                     // writes the error
    | Locking
    | Flagging                    // sets `done`
    | Unlocking
    | Exited

  datatype Life = Live | Destroyed | Freed

  /** A thread_data, with the thread that was given its address. Result lists are numbered in the
      order in which threads make them. */
  datatype Block = Block(handle: bool, lock: Holder, done: bool, res: Option<nat>, error: bool,
                         thread: Thread, life: Life)

  datatype Owner =
    | Idle                     // outside the resolver
    | Creating
    | Acquiring                // Curl_resolver_is_resolved
    | Reading
    | Releasing(seen: bool)
    | Joining(complete: bool)  // Curl_resolver_wait_resolv completes; Curl_resolver_cancel does not
    | Completing               // getaddrinfo_complete reads the result and hands it over
    | Clearing                 // and sets the shared copy to NULL
    | Destroying               // destroy_thread_sync_data
    | Freeing

  datatype State = State(owner: Owner, td: Option<nat>, blocks: seq<Block>, made: nat,
                         handed: multiset<nat>, freed: multiset<nat>)

  const INITIAL := State(Idle, None, [], 0, multiset{}, multiset{})

  /** Steps that could go either way carry the outcome. */
  datatype Step =
    | Allocate(ok: bool)
    | Create(ok: bool, nulls: bool)
    | Poll | OwnerLock | ReadDone | OwnerUnlock
    | Wait | Cancel | Join
    | Complete(stored: bool)
    | Clear | Destroy | Release
    | ThreadNull(b: nat)
    | ThreadLook(b: nat, found: bool)
    | ThreadStore(b: nat) | ThreadFail(b: nat)
    | ThreadLock(b: nat) | ThreadFlag(b: nat) | ThreadUnlock(b: nat)

  predicate IsThreadStep(t: Step) {
    || t.ThreadNull? || t.ThreadLook? || t.ThreadStore? || t.ThreadFail?
    || t.ThreadLock? || t.ThreadFlag? || t.ThreadUnlock?
  }

  predicate HasBlock(s: State) {
    s.td.Some? && s.td.value < |s.blocks|
  }

  function Mine(s: State): Block
    requires HasBlock(s)
  {
    s.blocks[s.td.value]
  }

  predicate Enabled(s: State, t: Step) {
    if t.Allocate? then s.owner.Idle? && s.td.None?
    else if IsThreadStep(t) then t.b < |s.blocks| && ThreadEnabled(s.blocks[t.b], t)
    else HasBlock(s) && OwnerEnabled(s.owner, Mine(s), t)
  }

  predicate ThreadEnabled(b: Block, t: Step)
    requires IsThreadStep(t)
  {
    match t
    case ThreadNull(_) => b.thread.Nulling?
    case ThreadLook(_, _) => b.thread.Looking?
    case ThreadStore(_) => b.thread.Storing?
    case ThreadFail(_) => b.thread.Failing?
    case ThreadLock(_) => b.thread.Locking? && b.lock == Free
    case ThreadFlag(_) => b.thread.Flagging?
    case ThreadUnlock(_) => b.thread.Unlocking?
  }

  predicate OwnerEnabled(o: Owner, b: Block, t: Step)
    requires !t.Allocate? && !IsThreadStep(t)
  {
    match t
    case Create(_, _) => o.Creating?
    case Poll => o.Idle?
    case OwnerLock => o.Acquiring? && b.lock == Free
    case ReadDone => o.Reading?
    case OwnerUnlock => o.Releasing?
    case Wait => o.Idle?
    case Cancel => o.Idle?
    case Join => o.Joining? && b.thread.Exited?
    case Complete(_) => o.Completing?
    case Clear => o.Clearing?
    case Destroy => o.Destroying?
    case Release => o.Freeing?
  }

  function ThreadMoves(b: Block, made: nat, t: Step): Block
    requires IsThreadStep(t) && ThreadEnabled(b, t)
  {
    match t
    case ThreadNull(_) => b.(res := None, thread := Looking)
    case ThreadLook(_, found) => b.(thread := if found then Storing(Some(made)) else Storing(None))
    case ThreadStore(_) => b.(res := b.thread.list, thread := if b.thread.list.Some? then Locking else Failing)
    case ThreadFail(_) => b.(error := true, thread := Locking)
    case ThreadLock(_) => b.(lock := ByThread, thread := Flagging)
    case ThreadFlag(_) => b.(done := true, thread := Unlocking)
    case ThreadUnlock(_) => b.(lock := Free, thread := Exited)
  }

  const FRESH := Block(false, Free, false, None, false, NotCreated, Live)

  function WithMine(s: State, owner: Owner, b: Block): State
    requires HasBlock(s)
  {
    s.(owner := owner, blocks := s.blocks[s.td.value := b])
  }

  function AsMultiset(list: Option<nat>): multiset<nat> {
    if list.Some? then multiset{list.value} else multiset{}
  }

  /** Curl_addrinfo_callback: on success the list goes to the DNS cache entry of the connection, or
      is freed when that cannot be stored; on failure nothing is done with it. */
  function HandOver(s: State, stored: bool): State
    requires HasBlock(s)
  {
    if Mine(s).error then s
    else if stored then s.(handed := s.handed + AsMultiset(Mine(s).res))
    else s.(freed := s.freed + AsMultiset(Mine(s).res))
  }

  function Do(s: State, t: Step): State
    requires Enabled(s, t)
  {
    if IsThreadStep(t) then
      s.(blocks := s.blocks[t.b := ThreadMoves(s.blocks[t.b], s.made, t)],
         made := if t.ThreadLook? && t.found then s.made + 1 else s.made)
    else
      match t
      case Allocate(ok) => if ok then s.(owner := Creating, td := Some(|s.blocks|), blocks := s.blocks + [FRESH]) else s
      case Create(ok, nulls) =>
        if ok then WithMine(s, Idle, Mine(s).(handle := true, thread := if nulls then Nulling else Looking))
        else s.(owner := Destroying)
      case Poll => s.(owner := Acquiring)
      case OwnerLock => WithMine(s, Reading, Mine(s).(lock := ByOwner))
      case ReadDone => s.(owner := Releasing(Mine(s).done))
      case OwnerUnlock => WithMine(s, if s.owner.seen then Completing else Idle, Mine(s).(lock := Free))
      case Wait => s.(owner := Joining(true))
      case Cancel => s.(owner := Joining(false))
      case Join => WithMine(s, if s.owner.complete then Completing else Destroying, Mine(s).(handle := false))
      case Complete(stored) => HandOver(s, stored).(owner := Clearing)
      case Clear => WithMine(s, if Mine(s).handle then Joining(false) else Destroying, Mine(s).(res := None))
      case Destroy =>
        WithMine(s, Freeing, Mine(s).(res := None, life := Destroyed)).(freed := s.freed + AsMultiset(Mine(s).res))
      case Release => WithMine(s, Idle, Mine(s).(life := Freed)).(td := None)
  }

  /** The states that some run reaches, from a connection that has never resolved a name. */
  ghost predicate Run(states: seq<State>, steps: seq<Step>) {
    && |states| == |steps| + 1
    && states[0] == INITIAL
    && forall i :: 0 <= i < |steps| ==> Enabled(states[i], steps[i]) && states[i + 1] == Do(states[i], steps[i])
  }

  // What every run keeps.

  /** The thread has made its last write to the result and the error. */
  predicate Written(t: Thread) {
    t.Locking? || t.Flagging? || t.Unlocking? || t.Exited?
  }

  /** The thread may still touch the shared data. */
  predicate Running(t: Thread) {
    !t.NotCreated? && !t.Exited?
  }

  predicate BlockOk(o: Owner, b: Block) {
    && (b.life.Live? <==> !o.Freeing?) && !b.life.Freed?
    && (b.lock == ByOwner <==> o.Reading? || o.Releasing?)
    && (b.lock == ByThread <==> b.thread.Flagging? || b.thread.Unlocking?)
    && (b.done <==> b.thread.Unlocking? || b.thread.Exited?)
    && (Running(b.thread) ==> b.handle)
    && (b.thread.NotCreated? ==> !b.handle)
    && (o.Creating? ==> b.thread.NotCreated?)
    && (o.Idle? || o.Acquiring? || o.Reading? || o.Releasing? || o.Joining? ==> b.handle)
    && (o.Destroying? || o.Freeing? ==> !b.handle)
    && (o.Freeing? ==> b.res.None?)
    && (o.Releasing? && o.seen ==> b.done)
    && (o.Completing? || o.Clearing? ==> b.done)
    && (!Written(b.thread) ==> b.res.None? && !b.error)
    && (Written(b.thread) && !(o.Joining? && !o.complete) && !o.Destroying? && !o.Freeing? ==>
          (b.error <==> b.res.None?))
  }

  predicate Gone(b: Block) {
    b.life.Freed? && b.res.None? && !Running(b.thread)
  }

  /** How often list `id` is still to be disposed of. While the owner clears the shared copy, that
      copy no longer counts. */
  function Held(s: State, id: nat): nat {
    if HasBlock(s) && (Mine(s).thread == Storing(Some(id)) || (Mine(s).res == Some(id) && !s.owner.Clearing?))
    then 1 else 0
  }

  ghost predicate Balanced(s: State, id: nat) {
    s.handed[id] + s.freed[id] + Held(s, id) == if id < s.made then 1 else 0
  }

  ghost predicate Inv(s: State) {
    && (s.td.Some? ==> HasBlock(s) && BlockOk(s.owner, Mine(s)))
    && (s.td.None? ==> s.owner.Idle?)
    && (forall i :: 0 <= i < |s.blocks| && s.td != Some(i) ==> Gone(s.blocks[i]))
    && (forall id: nat :: Balanced(s, id))
  }

  lemma ThreadStepKeeps(s: State, t: Step)
    requires Inv(s) && IsThreadStep(t) && Enabled(s, t)
    ensures Inv(Do(s, t))
  {
    var s' := Do(s, t);
    forall id: nat
      ensures Balanced(s', id)
    {
      assert Balanced(s, id);
    }
  }

  lemma OwnerStepBalances(s: State, t: Step, id: nat)
    requires Inv(s) && !IsThreadStep(t) && !t.Allocate? && Enabled(s, t)
    ensures Balanced(Do(s, t), id)
  {
    assert Balanced(s, id);
  }

  lemma OwnerStepKeeps(s: State, t: Step)
    requires Inv(s) && !IsThreadStep(t) && !t.Allocate? && Enabled(s, t)
    ensures Inv(Do(s, t))
  {
    forall id: nat
      ensures Balanced(Do(s, t), id)
    {
      OwnerStepBalances(s, t, id);
    }
  }

  lemma StepKeeps(s: State, t: Step)
    requires Inv(s) && Enabled(s, t)
    ensures Inv(Do(s, t))
  {
    if IsThreadStep(t) {
      ThreadStepKeeps(s, t);
    } else if t.Allocate? {
      forall id: nat
        ensures Balanced(Do(s, t), id)
      {
        assert Balanced(s, id);
      }
    } else {
      OwnerStepKeeps(s, t);
    }
  }

  lemma {:induction false} RunKeeps(states: seq<State>, steps: seq<Step>, n: nat)
    requires Run(states, steps) && n <= |steps|
    ensures Inv(states[n])
  {
    if n > 0 {
      RunKeeps(states, steps, n - 1);
      StepKeeps(states[n - 1], steps[n - 1]);
    }
  }

  // Safety over whole runs.

  /** What the owner's step touches of the shared data while it is inside the resolver. */
  predicate OwnerTouches(o: Owner) {
    !o.Idle? && !o.Creating?
  }

  /** In every state of every run: a thread that may still touch the shared data finds it live, the
      owner finds it not yet freed, and nobody reads `done` while the other writes it. */
  lemma NeverFreedInUse(states: seq<State>, steps: seq<Step>, n: nat, i: nat)
    requires Run(states, steps) && n <= |steps| && i < |states[n].blocks|
    ensures var s := states[n];
      && (Running(s.blocks[i].thread) ==> s.blocks[i].life.Live?)
      && (OwnerTouches(s.owner) ==> HasBlock(s) && !Mine(s).life.Freed?)
      && !(s.owner.Reading? && s.blocks[i].thread.Flagging?)
  {
    RunKeeps(states, steps, n);
  }

  /** The owner reads the result only after the thread's last write to it: the thread is past those
      writes, no later step of any thread changes the result or the error, and what is read is a
      list exactly when there is no error. */
  lemma ResultIsFinal(states: seq<State>, steps: seq<Step>, n: nat, t: Step)
    requires Run(states, steps) && n <= |steps| && states[n].owner.Completing?
    ensures HasBlock(states[n]) && Written(Mine(states[n]).thread)
    ensures Mine(states[n]).error <==> Mine(states[n]).res.None?
    ensures IsThreadStep(t) && Enabled(states[n], t) ==>
      var s' := Do(states[n], t);
      s'.owner.Completing? && Mine(s').res == Mine(states[n]).res && Mine(s').error == Mine(states[n]).error
  {
    RunKeeps(states, steps, n);
  }

  /** No list is ever disposed of twice, and once the owner has no resolve under way every list that
      any thread made has been handed to the connection or freed exactly once, every thread has
      ended and every block is freed. */
  lemma ExactlyOnce(states: seq<State>, steps: seq<Step>, n: nat, id: nat)
    requires Run(states, steps) && n <= |steps|
    ensures var s := states[n];
      && s.handed[id] + s.freed[id] <= (if id < s.made then 1 else 0)
      && (s.td.None? ==> s.handed[id] + s.freed[id] == (if id < s.made then 1 else 0))
      && (s.td.None? ==> forall i :: 0 <= i < |s.blocks| ==> Gone(s.blocks[i]))
  {
    RunKeeps(states, steps, n);
    assert Balanced(states[n], id);
  }

  // Who gets the lists.

  /** A list goes to the connection when the owner completes and can store it, and to nobody else; it
      is freed when it cannot be stored, or with the block that still holds it. */
  lemma GoesTo(s: State, t: Step)
    requires Inv(s) && Enabled(s, t)
    ensures Do(s, t).handed == s.handed + if t == Complete(true) then AsMultiset(Mine(s).res) else multiset{}
    ensures Do(s, t).freed
         == s.freed + if t == Complete(false) || t.Destroy? then AsMultiset(Mine(s).res) else multiset{}
  {
    if !IsThreadStep(t) && !t.Allocate? {
      OwnerGives(s, t);
    }
  }

  lemma OwnerGives(s: State, t: Step)
    requires Inv(s) && Enabled(s, t) && !IsThreadStep(t) && !t.Allocate?
    ensures Do(s, t).handed == s.handed + if t == Complete(true) then AsMultiset(Mine(s).res) else multiset{}
    ensures Do(s, t).freed
         == s.freed + if t == Complete(false) || t.Destroy? then AsMultiset(Mine(s).res) else multiset{}
  {
    if t.Complete? {
      assert Mine(s).error <==> Mine(s).res.None?;
    }
  }

  /** How many look-ups found something. */
  function Found(steps: seq<Step>): nat {
    if steps == [] then 0
    else
      var last := steps[|steps| - 1];
      Found(steps[..|steps| - 1]) + if last.ThreadLook? && last.found then 1 else 0
  }

  /** Every look-up that finds something makes one list. */
  lemma {:induction false} MadeCounts(states: seq<State>, steps: seq<Step>, n: nat)
    requires Run(states, steps) && n <= |steps|
    ensures states[n].made == Found(steps[..n])
  {
    if n > 0 {
      MadeCounts(states, steps, n - 1);
      assert steps[..n][..n - 1] == steps[..n - 1];
    }
  }

  /** Nothing is cancelled and every list can be stored. */
  predicate Smooth(t: Step) {
    !t.Cancel? && t != Complete(false)
  }

  /** Without trouble the owner only joins and destroys what it has read before. */
  ghost predicate NothingLost(s: State) {
    && s.freed == multiset{}
    && (HasBlock(s) && (s.owner == Joining(false) || s.owner.Destroying?) ==>
          Mine(s).res.None? && (Mine(s).done || Mine(s).thread.NotCreated?))
  }

  lemma SmoothStep(s: State, t: Step)
    requires Inv(s) && Enabled(s, t) && NothingLost(s) && Smooth(t)
    ensures NothingLost(Do(s, t))
  {
    GoesTo(s, t);
  }

  lemma {:induction false} SmoothRun(states: seq<State>, steps: seq<Step>, n: nat)
    requires Run(states, steps) && n <= |steps| && forall i :: 0 <= i < n ==> Smooth(steps[i])
    ensures NothingLost(states[n])
  {
    if n > 0 {
      SmoothRun(states, steps, n - 1);
      RunKeeps(states, steps, n - 1);
      SmoothStep(states[n - 1], steps[n - 1]);
    }
  }

  /** In every run without a cancel in which all lists can be stored, none is freed, and once no
      resolve is under way the connection has been given every list that was found, once. */
  lemma AllHandedOver(states: seq<State>, steps: seq<Step>, n: nat, id: nat)
    requires Run(states, steps) && n <= |steps| && forall i :: 0 <= i < n ==> Smooth(steps[i])
    ensures states[n].freed == multiset{}
    ensures states[n].td.None? ==> states[n].handed[id] == if id < Found(steps[..n]) then 1 else 0
  {
    SmoothRun(states, steps, n);
    ExactlyOnce(states, steps, n, id);
    MadeCounts(states, steps, n);
  }

  // Every call comes back.

  predicate IsCall(t: Step) {
    t.Allocate? || t.Poll? || t.Wait? || t.Cancel?
  }

  function ThreadWork(t: Thread): nat {
    match t
    case NotCreated => 0
    case Nulling => 7
    case Looking => 6
    case Storing(_) => 5
    case Failing => 4
    case Locking => 3
    case Flagging => 2
    case Unlocking => 1
    case Exited => 0
  }

  function OwnerWork(o: Owner): nat {
    match o
    case Idle => 0
    case Freeing => 1
    case Destroying => 2
    case Joining(complete) => if complete then 6 else 3
    case Clearing => 4
    case Completing => 5
    case Releasing(_) => 6
    case Reading => 7
    case Acquiring => 8
    case Creating => 8
  }

  function Work(s: State): nat {
    OwnerWork(s.owner) + if HasBlock(s) then ThreadWork(Mine(s).thread) else 0
  }

  lemma WorkFalls(s: State, t: Step)
    requires Inv(s) && Enabled(s, t) && !IsCall(t)
    ensures Work(Do(s, t)) < Work(s)
  {
    if IsThreadStep(t) {
      ThreadWorkFalls(s, t);
    }
  }

  lemma ThreadWorkFalls(s: State, t: Step)
    requires Inv(s) && Enabled(s, t) && IsThreadStep(t)
    ensures Work(Do(s, t)) < Work(s)
  {
    assert s.td == Some(t.b);
  }

  /** A step that the thread can take next, if it is not waiting for the mutex. */
  function ThreadNext(t: Thread, b: nat): Step
    requires Running(t)
  {
    match t
    case Nulling => ThreadNull(b)
    case Looking => ThreadLook(b, false)
    case Storing(_) => ThreadStore(b)
    case Failing => ThreadFail(b)
    case Locking => ThreadLock(b)
    case Flagging => ThreadFlag(b)
    case Unlocking => ThreadUnlock(b)
  }

  function OwnerNext(o: Owner): Step
    requires !o.Idle?
  {
    match o
    case Creating => Create(false, false)
    case Acquiring => OwnerLock
    case Reading => ReadDone
    case Releasing(_) => OwnerUnlock
    case Joining(_) => Join
    case Completing => Complete(false)
    case Clearing => Clear
    case Destroying => Destroy
    case Freeing => Release
  }

  /** No deadlock: while a call is in progress the owner or its thread can move. */
  lemma SomeoneMoves(s: State)
    requires Inv(s) && !s.owner.Idle?
    ensures exists t :: Enabled(s, t) && !IsCall(t)
  {
    var mine := OwnerNext(s.owner);
    if !Enabled(s, mine) {
      var t := ThreadNext(Mine(s).thread, s.td.value);
      assert Enabled(s, t);
    } else {
      assert !IsCall(mine);
    }
  }

  /** A stretch of a run in which the owner starts no new call. */
  ghost predicate Continues(states: seq<State>, steps: seq<Step>) {
    && |states| == |steps| + 1 && Inv(states[0])
    && forall i :: 0 <= i < |steps| ==>
         Enabled(states[i], steps[i]) && states[i + 1] == Do(states[i], steps[i]) && !IsCall(steps[i])
  }

  predicate Ending(o: Owner) {
    o.Joining? || o.Completing? || o.Clearing? || o.Destroying? || o.Freeing?
  }

  predicate Ended(s: State) {
    Ending(s.owner) || (s.owner.Idle? && s.td.None?)
  }

  lemma EndingStep(s: State, t: Step)
    requires Inv(s) && Enabled(s, t) && !IsCall(t) && Ended(s)
    ensures Ended(Do(s, t))
  {
  }

  lemma {:induction false} WorkIsLeft(states: seq<State>, steps: seq<Step>, n: nat)
    requires Continues(states, steps) && n <= |steps|
    ensures Inv(states[n]) && n + Work(states[n]) <= Work(states[0])
    ensures Ending(states[0].owner) ==> Ended(states[n])
  {
    if n > 0 {
      WorkIsLeft(states, steps, n - 1);
      StepKeeps(states[n - 1], steps[n - 1]);
      WorkFalls(states[n - 1], steps[n - 1]);
      if Ending(states[0].owner) {
        EndingStep(states[n - 1], steps[n - 1]);
      }
    }
  }

  /** However the two are scheduled, a call ends within a fixed number of steps; when nobody can move
      the owner is back. A wait or a cancel ends with nothing under way. */
  lemma CallReturns(states: seq<State>, steps: seq<Step>)
    requires Continues(states, steps)
    ensures |steps| <= Work(states[0]) <= 15
    ensures (forall t :: Enabled(states[|steps|], t) ==> IsCall(t)) ==> states[|steps|].owner.Idle?
    ensures Ending(states[0].owner) && states[|steps|].owner.Idle? ==> states[|steps|].td.None?
  {
    WorkIsLeft(states, steps, |steps|);
    if !states[|steps|].owner.Idle? {
      SomeoneMoves(states[|steps|]);
    }
  }

  /** A cancelled resolve gives the connection nothing, even if its thread finds something. */
  lemma {:induction false} CancelGivesNothing(s: State, states: seq<State>, steps: seq<Step>, n: nat)
    requires Inv(s) && Enabled(s, Cancel) && Continues(states, steps) && states[0] == Do(s, Cancel) && n <= |steps|
    ensures states[n].handed == s.handed
    ensures Cancelled(states[n].owner)
  {
    if n > 0 {
      CancelGivesNothing(s, states, steps, n - 1);
      WorkIsLeft(states, steps, n - 1);
      CancelledStep(states[n - 1], steps[n - 1]);
    }
  }

  predicate Cancelled(o: Owner) {
    o == Joining(false) || o.Destroying? || o.Freeing? || o.Idle?
  }

  lemma CancelledStep(s: State, t: Step)
    requires Inv(s) && Enabled(s, t) && !IsCall(t) && Cancelled(s.owner)
    ensures Do(s, t).handed == s.handed && Cancelled(Do(s, t).owner)
  {
    GoesTo(s, t);
  }

  /** A poll that has not yet looked, or has seen that the thread is done, or is past that. */
  predicate WillFinish(s: State) {
    || Ended(s)
    || (HasBlock(s) && Mine(s).done
        && (s.owner.Acquiring? || s.owner.Reading? || s.owner == Releasing(true) || s.owner.Completing?))
  }

  lemma FinishingStep(s: State, t: Step)
    requires Inv(s) && Enabled(s, t) && !IsCall(t) && WillFinish(s)
    ensures WillFinish(Do(s, t))
  {
    if Ended(s) {
      EndingStep(s, t);
    } else if IsThreadStep(t) {
      assert s.td == Some(t.b);
    }
  }

  lemma {:induction false} FinishingSteps(states: seq<State>, steps: seq<Step>, n: nat)
    requires Continues(states, steps) && n <= |steps| && WillFinish(states[0])
    ensures Inv(states[n]) && WillFinish(states[n])
  {
    if n > 0 {
      FinishingSteps(states, steps, n - 1);
      StepKeeps(states[n - 1], steps[n - 1]);
      FinishingStep(states[n - 1], steps[n - 1]);
    }
  }

  /** A poll that starts when the thread is done ends with the resolve completed and nothing left of
      it, and a poll ends a resolve only if the thread is done. */
  lemma PollSees(states: seq<State>, steps: seq<Step>)
    requires Continues(states, steps) && states[0].owner.Acquiring? && states[|steps|].owner.Idle?
    ensures Mine(states[0]).done ==> states[|steps|].td.None?
    ensures var b := states[0].td.value;
      states[|steps|].td.None? ==> b < |states[|steps|].blocks| && states[|steps|].blocks[b].done
  {
    if Mine(states[0]).done {
      FinishingSteps(states, steps, |steps|);
    }
    PollOfLive(states, steps, |steps|);
  }

  lemma {:induction false} PollOfLive(states: seq<State>, steps: seq<Step>, n: nat)
    requires Continues(states, steps) && n <= |steps| && states[0].owner.Acquiring?
    ensures var s, b := states[n], states[0].td.value;
      && Inv(s) && b < |s.blocks| && (s.td.Some? ==> s.td == Some(b))
      && (!s.blocks[b].done ==>
            s.td.Some? && (s.owner.Acquiring? || s.owner.Reading? || s.owner == Releasing(false) || s.owner.Idle?))
  {
    if n > 0 {
      PollOfLive(states, steps, n - 1);
      StepKeeps(states[n - 1], steps[n - 1]);
    }
  }

  // The polling interval.

  /** Times are in milliseconds since the transfer started. */
  class PollTimer {
    var interval: nat
    var end: int
    ghost var rounds: nat  // how often an interval has been seen to end

    ghost predicate Valid()
      reads this
    {
      interval == Interval(rounds) && (interval == 0 <==> rounds == 0)
    }

    constructor ()
      ensures Valid() && rounds == 0
    {
      interval, end := 0, 0;
      rounds := 0;
    }

    /** The branch of Curl_resolver_is_resolved for a name that is not resolved yet. `now` may lie
        before the start when the clock was set back. */
    method NextPoll(now: int) returns (expire: nat)
      requires Valid()
      modifies this
      ensures Valid()
      ensures rounds == old(rounds) + if old(rounds) == 0 || (if now < 0 then 0 else now) >= old(end) then 1 else 0
      ensures expire == Interval(rounds) && end == (if now < 0 then 0 else now) + expire
    {
      var elapsed := if now < 0 then 0 else now;
      if interval == 0 {
        interval := 1;
        rounds := 1;
      } else if elapsed >= end {
        interval := interval * 2;
        rounds := rounds + 1;
      }
      if interval > 250 {
        interval := 250;
      }
      end := elapsed + interval;
      expire := interval;
    }
  }

  /** The interval after that many rounds: it doubles from 1, up to 250. */
  function Interval(rounds: nat): (ms: nat) {
    if rounds == 0 then 0
    else if rounds == 1 then 1
    else
      var twice := 2 * Interval(rounds - 1);
      if twice > 250 then 250 else twice
  }

  function PowerOfTwo(n: nat): (p: nat) {
    if n == 0 then 1 else 2 * PowerOfTwo(n - 1)
  }

  lemma {:induction false} IntervalDoubles(rounds: nat)
    requires rounds > 0
    ensures Interval(rounds) == if PowerOfTwo(rounds - 1) > 250 then 250 else PowerOfTwo(rounds - 1)
    ensures 1 <= Interval(rounds) <= Interval(rounds + 1) <= 250
  {
    if rounds > 1 {
      IntervalDoubles(rounds - 1);
    }
  }
}
