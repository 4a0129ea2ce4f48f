/** The completion port of `io/iocp.rs` as the interleaved steps of the threads that call it. */
module Iocp {
  import opened Wrappers

  const MAX_COMPLETION_ENTRIES: nat := 4096
  const WORD32: nat := 0x1_0000_0000
  const WORD64: nat := 0x1_0000_0000_0000_0000

  datatype Packet = Packet(bytesTransferred: nat, completionKey: nat, overlapped: nat, status: nat)

  type Tid = nat

  /** Where a thread is. `timed` tells whether a wait has a deadline; `k` numbers the packet it took. */
  datatype Pc =
    | Idle
    | PostWants(packet: Packet)
    | PostLocked(packet: Packet)
    | PostPushed
    | PostCounted
    | Claiming(timed: bool)
    | Loaded(timed: bool, seen: nat)
    | Entering(timed: bool)
    | Holding(timed: bool)
    | EmptyHanded(timed: bool)
    | Leaving(k: Option<nat>)
    | Released(k: Option<nat>)
  {
    predicate OwnsLock() {
      PostLocked? || PostPushed? || PostCounted?
    }

    predicate HoldsSlot() {
      Holding? || EmptyHanded? || Leaving?
    }

    predicate Carries(i: nat) {
      (Leaving? || Released?) && k == Some(i)
    }

    predicate InFlight() {
      (Leaving? || Released?) && k.Some?
    }
  }

  /**
   * The port, the program counters of its callers and, for the theorems, the packets ever pushed and
   * popped in order and the numbers of the popped packets already handed to a caller.
   */
  datatype State = State(
    limit: nat, queue: seq<Packet>, lock: Option<Tid>, active: nat, posted: nat, retrieved: nat, threads: map<Tid, Pc>,
    pushed: seq<Packet>, popped: seq<Packet>, returned: set<nat>)
  {
    function At(t: Tid): Pc {
      if t in threads then threads[t] else Idle
    }

    function Goes(t: Tid, pc: Pc): State {
      this.(threads := threads[t := pc])
    }
  }

  datatype Action =
    | CallPost(packet: Packet)
    | Lock
    | Push
    | CountPosted
    | Unlock
    | CallGet(timed: bool)
    | Load
    | CompareExchange(spurious: bool)
    | FetchAdd
    | Pop
    | Retry
    | GiveUp
    | Release
    | Return

  function Start(limit: nat): State {
    State(limit, [], None, 0, 0, 0, map[], [], [], {})
  }

  /** What one step of thread `t` does, if it can be taken. */
  function Next(s: State, t: Tid, action: Action): Option<State> {
    match (s.At(t), action)
    case (Idle, CallPost(packet)) => Some(s.Goes(t, PostWants(packet)))
    case (PostWants(packet), Lock) => if s.lock.Some? then None
        else Some(s.Goes(t, PostLocked(packet)).(lock := Some(t)))
    case (PostLocked(packet), Push) =>
      if |s.queue| >= MAX_COMPLETION_ENTRIES then Some(s.Goes(t, PostCounted))
      else Some(s.Goes(t, PostPushed).(queue := s.queue + [packet], pushed := s.pushed + [packet]))
    case (PostPushed, CountPosted) => Some(s.Goes(t, PostCounted).(posted := (s.posted + 1) % WORD64))
    case (PostCounted, Unlock) => Some(s.Goes(t, Idle).(lock := None))
    case (Idle, CallGet(timed)) => Some(s.Goes(t, if s.limit > 0 then Claiming(timed) else Entering(timed)))
    case (Claiming(timed), Load) => if s.active < s.limit then Some(s.Goes(t, Loaded(timed, s.active))) else Some(s)
    case (Loaded(timed, seen), CompareExchange(spurious)) =>
      if s.active == seen && !spurious then Some(s.Goes(t, Holding(timed)).(active := seen + 1))
      else Some(s.Goes(t, Claiming(timed)))
    case (Entering(timed), FetchAdd) => Some(s.Goes(t, Holding(timed)).(active := (s.active + 1) % WORD32))
    case (Holding(timed), Pop) =>
      if s.lock.Some? then None
      else if s.queue == [] then Some(s.Goes(t, EmptyHanded(timed)))
      else Some(s.Goes(t, Leaving(Some(|s.popped|))).(queue := s.queue[1..], popped := s.popped + [s.queue[0]]))
    case (EmptyHanded(timed), Retry) => if timed then Some(s.Goes(t, Holding(timed))) else None
    case (EmptyHanded(timed), GiveUp) => Some(s.Goes(t, Leaving(None)))
    case (Leaving(k), Release) => Some(s.Goes(t, Released(k)).(active := (s.active + WORD32 - 1) % WORD32))
    case (Released(k), Return) =>
      if k.Some? then Some(s.Goes(t, Idle).(retrieved := (s.retrieved + 1) % WORD64,
                                            returned := s.returned + {k.value}))
      else Some(s.Goes(t, Idle))
    case _ => None
  }

  // ---- The invariant ----

  ghost function Holders(threads: map<Tid, Pc>): set<Tid> {
    set t | t in threads && threads[t].HoldsSlot()
  }

  ghost function Uncounted(threads: map<Tid, Pc>): set<Tid> {
    set t | t in threads && threads[t].PostPushed?
  }

  ghost function Carriers(threads: map<Tid, Pc>): set<Tid> {
    set t | t in threads && threads[t].InFlight()
  }

  /** The slot counter is exact up to its width, and below the limit if there is one. */
  ghost predicate SlotsCounted(s: State) {
    && s.limit < WORD32
    && s.active == |Holders(s.threads)| % WORD32
    && (s.limit > 0 ==> |Holders(s.threads)| <= s.limit)
    && (forall t :: t in s.threads && s.threads[t].Loaded? ==> s.threads[t].seen < s.limit)
    && (forall t :: t in s.threads && s.threads[t].Entering? ==> s.limit == 0)
  }

  /** The lock belongs to the one thread that is inside the posting section. */
  ghost predicate LockOwned(s: State) {
    forall t: Tid :: s.At(t).OwnsLock() <==> s.lock == Some(t)
  }

  /** First in, first out. */
  ghost predicate Fifo(s: State) {
    s.pushed == s.popped + s.queue && |s.queue| <= MAX_COMPLETION_ENTRIES
  }

  ghost predicate PostsCounted(s: State) {
    |Uncounted(s.threads)| <= |s.pushed| && s.posted == (|s.pushed| - |Uncounted(s.threads)|) % WORD64
  }

  /** Each popped packet was handed to a caller once or is being carried by exactly one thread. */
  ghost predicate Delivered(s: State) {
    && (forall i :: i in s.returned ==> i < |s.popped|)
    && (forall t: Tid, i: nat :: Carrying(s, t, i) ==> i < |s.popped| && i !in s.returned)
    && (forall t: Tid, u: Tid, i: nat :: Carrying(s, t, i) && Carrying(s, u, i) ==> t == u)
    && (forall i: nat :: i < |s.popped| && i !in s.returned ==> Carried(s, i))
  }

  ghost predicate Carrying(s: State, t: Tid, i: nat) {
    s.At(t).Carries(i)
  }

  ghost predicate Carried(s: State, i: nat) {
    exists t: Tid :: Carrying(s, t, i)
  }

  ghost predicate RetrievalsCounted(s: State) {
    && s.retrieved == |s.returned| % WORD64
    && |s.popped| == |s.returned| + |Carriers(s.threads)|
  }

  ghost predicate Inv(s: State) {
    && SlotsCounted(s) && LockOwned(s) && Fifo(s) && PostsCounted(s) && Delivered(s) && RetrievalsCounted(s)
  }

  // ---- Counting threads ----

  lemma CountMove(before: set<Tid>, after: set<Tid>, t: Tid)
    requires before - {t} == after - {t}
    ensures |after| - (if t in after then 1 else 0) == |before| - (if t in before then 1 else 0)
  {
    var others := before - {t};
    assert before == if t in before then others + {t} else others;
    assert after == if t in after then others + {t} else others;
  }

  lemma HoldersMove(s: State, t: Tid, pc: Pc)
    ensures |Holders(s.threads[t := pc])|
         == |Holders(s.threads)| - (if s.At(t).HoldsSlot() then 1 else 0) + (if pc.HoldsSlot() then 1 else 0)
  {
    var before, after := Holders(s.threads), Holders(s.threads[t := pc]);
    assert before - {t} == after - {t};
    CountMove(before, after, t);
  }

  lemma UncountedMove(s: State, t: Tid, pc: Pc)
    ensures |Uncounted(s.threads[t := pc])|
         == |Uncounted(s.threads)| - (if s.At(t).PostPushed? then 1 else 0) + (if pc.PostPushed? then 1 else 0)
  {
    var before, after := Uncounted(s.threads), Uncounted(s.threads[t := pc]);
    assert before - {t} == after - {t};
    CountMove(before, after, t);
  }

  lemma CarriersMove(s: State, t: Tid, pc: Pc)
    ensures |Carriers(s.threads[t := pc])|
         == |Carriers(s.threads)| - (if s.At(t).InFlight() then 1 else 0) + (if pc.InFlight() then 1 else 0)
  {
    var before, after := Carriers(s.threads), Carriers(s.threads[t := pc]);
    assert before - {t} == after - {t};
    CountMove(before, after, t);
  }

  // ---- Every step keeps every part ----

  lemma OneMoves(s: State, t: Tid, action: Action)
    requires Next(s, t, action).Some?
    ensures var s' := Next(s, t, action).value;
            s'.threads == s.threads[t := s'.At(t)] && forall u: Tid :: u != t ==> s'.At(u) == s.At(u)
  {
  }

  /** What a step does to the slot counter: nothing, take a slot below the limit or without one, or give one back. */
  ghost predicate Takes(s: State, t: Tid, s': State) {
    && s'.limit == s.limit
    && (s'.At(t).Loaded? ==> s'.At(t).seen < s.limit) && (s'.At(t).Entering? ==> s.limit == 0)
    && (|| (s'.active == s.active && s'.At(t).HoldsSlot() == s.At(t).HoldsSlot())
        || (&& !s.At(t).HoldsSlot() && s'.At(t).HoldsSlot()
            && if s.limit > 0 then s'.active == s.active + 1 <= s.limit else s'.active == (s.active + 1) % WORD32)
        || (s.At(t).HoldsSlot() && !s'.At(t).HoldsSlot() && s'.active == (s.active + WORD32 - 1) % WORD32))
  }

  lemma StepTakes(s: State, t: Tid, action: Action)
    requires SlotsCounted(s) && Next(s, t, action).Some?
    ensures Takes(s, t, Next(s, t, action).value)
  {
    hide Holders;
  }

  lemma SlotsKept(s: State, t: Tid, s': State)
    requires SlotsCounted(s) && Takes(s, t, s') && s'.threads == s.threads[t := s'.At(t)]
    ensures SlotsCounted(s')
  {
    hide Holders;
    HoldersMove(s, t, s'.At(t));
  }

  lemma LockKept(s: State, t: Tid, action: Action)
    requires LockOwned(s) && Next(s, t, action).Some?
    ensures LockOwned(Next(s, t, action).value)
  {
    OneMoves(s, t, action);
    assert s.At(t).OwnsLock() <==> s.lock == Some(t);
  }

  lemma FifoKept(s: State, t: Tid, action: Action)
    requires Fifo(s) && Next(s, t, action).Some?
    ensures Fifo(Next(s, t, action).value)
  {
  }

  lemma PostsKept(s: State, t: Tid, action: Action)
    requires PostsCounted(s) && Next(s, t, action).Some?
    ensures PostsCounted(Next(s, t, action).value)
  {
    hide Uncounted;
    UncountedMove(s, t, Next(s, t, action).value.At(t));
    OneMoves(s, t, action);
  }

  /** What a step does to the packets on their way to callers. */
  ghost predicate Hands(s: State, t: Tid, s': State) {
    || (&& s'.popped == s.popped && s'.returned == s.returned && s'.retrieved == s.retrieved
        && s'.At(t).InFlight() == s.At(t).InFlight() && forall i: nat :: Carrying(s', t, i) <==> Carrying(s, t, i))
    || (&& |s'.popped| == |s.popped| + 1 && s'.returned == s.returned && s'.retrieved == s.retrieved
        && !s.At(t).InFlight() && s'.At(t).InFlight() && forall i: nat :: Carrying(s', t, i) <==> i == |s.popped|)
    || (&& s'.popped == s.popped && s.At(t).InFlight() && !s'.At(t).InFlight()
        && s'.returned == s.returned + {s.At(t).k.value} && s'.retrieved == (s.retrieved + 1) % WORD64)
  }

  lemma StepHands(s: State, t: Tid, action: Action)
    requires Next(s, t, action).Some?
    ensures Hands(s, t, Next(s, t, action).value)
  {
  }

  lemma DeliveryKept(s: State, t: Tid, s': State)
    requires Delivered(s) && Hands(s, t, s') && forall u: Tid :: u != t ==> s'.At(u) == s.At(u)
    ensures Delivered(s')
  {
    if s.At(t).InFlight() {
      assert Carrying(s, t, s.At(t).k.value);
    }
    forall u: Tid, i: nat | Carrying(s', u, i)
      ensures i < |s'.popped| && i !in s'.returned
    {
      assert u != t ==> Carrying(s, u, i);
      assert u == t ==> Carrying(s, t, i) || i == |s.popped|;
    }
    forall u: Tid, v: Tid, i: nat | Carrying(s', u, i) && Carrying(s', v, i)
      ensures u == v
    {
      if !Carrying(s, u, i) || !Carrying(s, v, i) {
        assert u != t ==> Carrying(s, u, i);
        assert v != t ==> Carrying(s, v, i);
      }
    }
    forall i: nat | i < |s'.popped| && i !in s'.returned
      ensures Carried(s', i)
    {
      if i == |s.popped| {
        assert Carrying(s', t, i);
      } else {
        assert Carried(s, i);
        var u: Tid :| Carrying(s, u, i);
        assert Carrying(s', u, i);
      }
    }
  }

  lemma RetrievalsKept(s: State, t: Tid, s': State)
    requires Delivered(s) && RetrievalsCounted(s) && Hands(s, t, s') && s'.threads == s.threads[t := s'.At(t)]
    ensures RetrievalsCounted(s')
  {
    hide Carriers;
    CarriersMove(s, t, s'.At(t));
    if s.At(t).InFlight() {
      CarriedNotReturned(s, t);
    }
    hide Delivered;
    CountNext(|s.returned|);
  }

  lemma CarriedNotReturned(s: State, t: Tid)
    requires Delivered(s) && s.At(t).InFlight()
    ensures s.At(t).k.value !in s.returned
  {
    assert Carrying(s, t, s.At(t).k.value);
  }

  lemma CountNext(n: nat)
    ensures (n % WORD64 + 1) % WORD64 == (n + 1) % WORD64
  {
  }

  lemma StepKeeps(s: State, t: Tid, action: Action)
    requires Inv(s) && Next(s, t, action).Some?
    ensures Inv(Next(s, t, action).value)
  {
    hide SlotsCounted, LockOwned, Fifo, PostsCounted, Delivered, RetrievalsCounted, Next, Hands, Takes;
    StepTakes(s, t, action);
    OneMoves(s, t, action);
    SlotsKept(s, t, Next(s, t, action).value);
    LockKept(s, t, action);
    FifoKept(s, t, action);
    PostsKept(s, t, action);
    StepHands(s, t, action);
    DeliveryKept(s, t, Next(s, t, action).value);
    RetrievalsKept(s, t, Next(s, t, action).value);
  }

  // ---- Whole runs ----

  datatype Event = Event(thread: Tid, action: Action)

  /** Where a run of the port ends, if every step of it can be taken. */
  function Run(s: State, events: seq<Event>): Option<State> {
    if events == [] then Some(s)
    else
      match Run(s, events[..|events| - 1])
      case None => None
      case Some(mid) => Next(mid, events[|events| - 1].thread, events[|events| - 1].action)
  }

  ghost predicate Reachable(limit: nat, s: State) {
    exists events :: Run(Start(limit), events) == Some(s)
  }

  lemma {:induction false} RunKeeps(limit: nat, events: seq<Event>)
    requires limit < WORD32 && Run(Start(limit), events).Some?
    ensures Inv(Run(Start(limit), events).value) && Run(Start(limit), events).value.limit == limit
  {
    if events == [] {
      var s := Start(limit);
      assert Holders(s.threads) == {} && Uncounted(s.threads) == {} && Carriers(s.threads) == {};
    } else {
      var last := events[|events| - 1];
      RunKeeps(limit, events[..|events| - 1]);
      var mid := Run(Start(limit), events[..|events| - 1]).value;
      StepKeeps(mid, last.thread, last.action);
    }
  }

  lemma ReachableInv(limit: nat, s: State)
    requires limit < WORD32 && Reachable(limit, s)
    ensures Inv(s) && s.limit == limit
  {
    hide Inv, Run;
    var events :| Run(Start(limit), events) == Some(s);
    RunKeeps(limit, events);
  }

  /** No interleaving lets more workers hold a slot than the limit, and the counter counts them. */
  lemma ConcurrencyBounded(limit: nat, s: State)
    requires 0 < limit < WORD32 && Reachable(limit, s)
    ensures s.active == |Holders(s.threads)| <= limit
  {
    hide Reachable, Run, Next;
    ReachableInv(limit, s);
  }

  /** Without a limit the counter still counts the slot holders, up to its width. */
  lemma UnlimitedCounted(s: State)
    requires Reachable(0, s)
    ensures s.active == |Holders(s.threads)| % WORD32
  {
    hide Reachable, Run, Next;
    ReachableInv(0, s);
  }

  /** The queue is bounded, and packets leave it in the order they entered. */
  lemma PopsInOrder(limit: nat, s: State)
    requires limit < WORD32 && Reachable(limit, s)
    ensures |s.queue| <= MAX_COMPLETION_ENTRIES && s.popped <= s.pushed && s.pushed == s.popped + s.queue
  {
    hide Reachable, Run, Next;
    ReachableInv(limit, s);
  }

  /**
   * The counters account for every packet, as long as they have not wrapped around: those counted as posted
   * and the one pushed but not yet counted are those counted as retrieved, queued or on their way to a caller.
   */
  lemma PacketsConserved(limit: nat, s: State)
    requires limit < WORD32 && Reachable(limit, s) && |s.pushed| < WORD64
    ensures s.posted + |Uncounted(s.threads)| == s.retrieved + |s.queue| + |Carriers(s.threads)|
    ensures |Uncounted(s.threads)| <= 1
    ensures s.lock.None? ==> s.posted == s.retrieved + |s.queue| + |Carriers(s.threads)|
  {
    hide Reachable, Run, Next;
    ReachableInv(limit, s);
    OneUncounted(s);
  }

  lemma OneUncounted(s: State)
    requires LockOwned(s) && PostsCounted(s)
    ensures |Uncounted(s.threads)| <= 1 && (s.lock.None? ==> |Uncounted(s.threads)| == 0)
  {
    var some := Uncounted(s.threads);
    assert forall t :: t in some ==> s.At(t).OwnsLock();
    if s.lock.None? {
      assert some == {};
    } else {
      assert some <= {s.lock.value};
      assert some == {} || some == {s.lock.value};
    }
  }

  /** Every packet taken from the queue reaches exactly one caller, once. */
  lemma DeliveredOnce(limit: nat, s: State, i: nat)
    requires limit < WORD32 && Reachable(limit, s) && i < |s.popped|
    ensures i in s.returned <==> !Carried(s, i)
    ensures forall t: Tid, u: Tid :: Carrying(s, t, i) && Carrying(s, u, i) ==> t == u
  {
    hide Reachable, Run, Next;
    ReachableInv(limit, s);
  }

  /** When no caller is inside the port, everything posted was handed out or is still queued. */
  lemma QuietPort(limit: nat, s: State)
    requires limit < WORD32 && Reachable(limit, s) && |s.pushed| < WORD64 && forall t: Tid :: s.At(t).Idle?
    ensures s.active == 0 && s.posted == s.retrieved + |s.queue|
    ensures forall i: nat :: i in s.returned <==> i < |s.popped|
  {
    hide Reachable, Run, Next;
    ReachableInv(limit, s);
    assert forall t :: t in s.threads ==> s.At(t).Idle?;
    assert Holders(s.threads) == {} && Uncounted(s.threads) == {} && Carriers(s.threads) == {};
    forall i: nat | i < |s.popped|
      ensures i in s.returned
    {
      assert !Carried(s, i);
    }
  }

  // ---- What a call achieves while no other thread moves ----

  /** The steps of one thread, in order. */
  function Steps(t: Tid, actions: seq<Action>): (events: seq<Event>)
    ensures |events| == |actions|
  {
    seq(|actions|, i requires 0 <= i < |actions| => Event(t, actions[i]))
  }

  /** The steps of a call after the one that makes it. */
  predicate InsideCall(actions: seq<Action>) {
    forall action :: action in actions ==> !action.CallPost? && !action.CallGet?
  }

  lemma RunStep(s: State, t: Tid, actions: seq<Action>, action: Action)
    ensures Run(s, Steps(t, actions + [action])) ==
              match Run(s, Steps(t, actions))
              case None => None
              case Some(mid) => Next(mid, t, action)
  {
    hide Next;
    var events := Steps(t, actions + [action]);
    assert events[..|events| - 1] == Steps(t, actions);
  }

  lemma GoesAgain(s: State, t: Tid, one: Pc, two: Pc)
    ensures s.Goes(t, one).Goes(t, two) == s.Goes(t, two)
  {
  }

  /** A worker slot can be had. */
  ghost predicate SlotFree(s: State) {
    s.limit == 0 || s.active < s.limit
  }

  /** The slot counter while the caller holds a slot, the oldest packet it takes, and the port without that packet. */
  ghost function Taken(s: State): nat {
    (s.active + 1) % WORD32
  }

  ghost function Oldest(s: State): Option<nat> {
    if s.queue == [] then None else Some(|s.popped|)
  }

  ghost function Served(s: State, t: Tid, pc: Pc): State {
    if s.queue == [] then s.Goes(t, pc)
    else s.Goes(t, pc).(queue := s.queue[1..], popped := s.popped + [s.queue[0]])
  }

  /** Where a get can have taken the port from `s` when only `t` moved. */
  ghost predicate Getting(s: State, t: Tid, now: State) {
    match now.At(t)
    case Claiming(_) => now == s.Goes(t, now.At(t)) && s.limit > 0
    case Loaded(_, seen) => now == s.Goes(t, now.At(t)) && seen == s.active && s.limit > 0
    case Entering(_) => now == s.Goes(t, now.At(t)) && s.limit == 0
    case Holding(_) => now == s.Goes(t, now.At(t)).(active := Taken(s))
    case EmptyHanded(_) => now == s.Goes(t, now.At(t)).(active := Taken(s)) && s.queue == []
    case Leaving(k) => now == Served(s, t, now.At(t)).(active := Taken(s)) && k == Oldest(s)
    case Released(k) => now == Served(s, t, now.At(t)) && k == Oldest(s)
    case Idle => Got(s, t, now)
    case _ => false
  }

  /** The oldest packet was taken and handed to the caller, if there was one; nothing else has changed. */
  ghost predicate Got(s: State, t: Tid, now: State) {
    if s.queue == [] then now == s.Goes(t, Idle)
    else
      && now.queue == s.queue[1..] && now.popped == s.popped + [s.queue[0]]
      && now.retrieved == (s.retrieved + 1) % WORD64 && now.returned == s.returned + {|s.popped|}
      && now.active == s.active && now.lock == s.lock && now.limit == s.limit
      && now.posted == s.posted && now.pushed == s.pushed && now.threads == s.threads[t := Idle]
  }

  lemma GetSteps(s: State, t: Tid, now: State, action: Action)
    requires s.active < WORD32 && s.limit < WORD32 && SlotFree(s) && s.lock.None? && Getting(s, t, now)
    requires !action.CallPost? && !action.CallGet? && Next(now, t, action).Some?
    ensures Getting(s, t, Next(now, t, action).value)
  {
    var next := Next(now, t, action).value;
    GoesAgain(s, t, now.At(t), next.At(t));
  }

  /** However a get runs while no other thread moves, it does nothing but take the oldest packet. */
  lemma {:induction false} GetRuns(s: State, t: Tid, timed: bool, actions: seq<Action>)
    requires s.active < WORD32 && s.limit < WORD32 && SlotFree(s) && s.lock.None? && s.At(t).Idle?
    requires InsideCall(actions) && Run(s, Steps(t, [CallGet(timed)] + actions)).Some?
    ensures Getting(s, t, Run(s, Steps(t, [CallGet(timed)] + actions)).value)
  {
    if actions == [] {
      assert [CallGet(timed)] + actions == [] + [CallGet(timed)];
      RunStep(s, t, [], CallGet(timed));
    } else {
      hide Next, Getting;
      var before, last := actions[..|actions| - 1], actions[|actions| - 1];
      assert [CallGet(timed)] + actions == [CallGet(timed)] + before + [last];
      RunStep(s, t, [CallGet(timed)] + before, last);
      GetRuns(s, t, timed, before);
      GetSteps(s, t, Run(s, Steps(t, [CallGet(timed)] + before)).value, last);
    }
  }

  /** The step that takes a get further. */
  function GetStep(pc: Pc): Action {
    match pc
    case Claiming(_) => Load
    case Loaded(_, _) => CompareExchange(false)
    case Entering(_) => FetchAdd
    case Holding(_) => Pop
    case EmptyHanded(_) => GiveUp
    case Leaving(_) => Release
    case _ => Return
  }

  function StepsLeft(pc: Pc): nat {
    match pc
    case Claiming(_) => 6
    case Loaded(_, _) | Entering(_) => 5
    case Holding(_) => 4
    case EmptyHanded(_) => 3
    case Leaving(_) => 2
    case Released(_) => 1
    case _ => 0
  }

  lemma GetAdvances(s: State, t: Tid, now: State)
    requires SlotFree(s) && s.lock.None? && Getting(s, t, now) && !now.At(t).Idle?
    ensures var next := Next(now, t, GetStep(now.At(t)));
            next.Some? && StepsLeft(next.value.At(t)) < StepsLeft(now.At(t))
  {
  }

  lemma GetEnds(s: State, t: Tid, timed: bool, actions: seq<Action>) returns (rest: seq<Action>)
    requires s.active < WORD32 && s.limit < WORD32 && SlotFree(s) && s.lock.None? && s.At(t).Idle?
    requires InsideCall(actions) && Run(s, Steps(t, [CallGet(timed)] + actions)).Some?
    ensures InsideCall(rest) && actions <= rest
    ensures var end := Run(s, Steps(t, [CallGet(timed)] + rest)); end.Some? && end.value.At(t).Idle?
    decreases StepsLeft(Run(s, Steps(t, [CallGet(timed)] + actions)).value.At(t))
  {
    hide Next, Getting, StepsLeft;
    var now := Run(s, Steps(t, [CallGet(timed)] + actions)).value;
    if now.At(t).Idle? {
      return actions;
    }
    GetRuns(s, t, timed, actions);
    GetAdvances(s, t, now);
    var action := GetStep(now.At(t));
    RunStep(s, t, [CallGet(timed)] + actions, action);
    assert [CallGet(timed)] + actions + [action] == [CallGet(timed)] + (actions + [action]);
    rest := GetEnds(s, t, timed, actions + [action]);
  }

  /**
   * While no other thread moves, a get that finds a free slot can always be completed, and whenever it has returned it
   * has taken the oldest packet and handed it to its caller, or the queue was empty and nothing has changed.
   */
  lemma GetDelivers(limit: nat, s: State, t: Tid, timed: bool, actions: seq<Action>)
    requires limit < WORD32 && Reachable(limit, s) && s.lock.None? && s.At(t).Idle?
    requires limit == 0 || s.active < limit
    requires InsideCall(actions) && Run(s, Steps(t, [CallGet(timed)] + actions)).Some?
    ensures var now := Run(s, Steps(t, [CallGet(timed)] + actions)).value;
            now.At(t).Idle? ==> Got(s, t, now)
    ensures exists rest ::
              && actions <= rest && InsideCall(rest) && Run(s, Steps(t, [CallGet(timed)] + rest)).Some?
              && Run(s, Steps(t, [CallGet(timed)] + rest)).value.At(t).Idle?
  {
    ActiveFits(limit, s);
    hide Reachable, Run, Next, Got;
    GetRuns(s, t, timed, actions);
    var rest := GetEnds(s, t, timed, actions);
  }

  lemma ActiveFits(limit: nat, s: State)
    requires limit < WORD32 && Reachable(limit, s)
    ensures s.active < WORD32 && s.limit == limit
  {
    hide Reachable, Run, Next;
    ReachableInv(limit, s);
  }

  /** With every slot taken, a get waits and changes nothing. */
  lemma {:induction false} GetWaits(s: State, t: Tid, timed: bool, actions: seq<Action>)
    requires 0 < s.limit <= s.active && s.At(t).Idle?
    requires InsideCall(actions) && Run(s, Steps(t, [CallGet(timed)] + actions)).Some?
    ensures Run(s, Steps(t, [CallGet(timed)] + actions)).value == s.Goes(t, Claiming(timed))
  {
    if actions == [] {
      assert [CallGet(timed)] + actions == [] + [CallGet(timed)];
      RunStep(s, t, [], CallGet(timed));
    } else {
      var before, last := actions[..|actions| - 1], actions[|actions| - 1];
      assert [CallGet(timed)] + actions == [CallGet(timed)] + before + [last];
      RunStep(s, t, [CallGet(timed)] + before, last);
      GetWaits(s, t, timed, before);
    }
  }

  /** Where a post can have taken the port from `s` when only `t` moved. */
  ghost predicate Posting(s: State, t: Tid, packet: Packet, now: State) {
    var fits := |s.queue| < MAX_COMPLETION_ENTRIES;
    match now.At(t)
    case PostWants(p) => now == s.Goes(t, now.At(t)) && p == packet
    case PostLocked(p) => now == s.Goes(t, now.At(t)).(lock := Some(t)) && p == packet
    case PostPushed => fits && now == Queued(s, t, packet, now.At(t)).(lock := Some(t))
    case PostCounted =>
      now == if fits then Queued(s, t, packet, now.At(t)).(lock := Some(t), posted := (s.posted + 1) % WORD64)
             else s.Goes(t, now.At(t)).(lock := Some(t))
    case Idle => Posted(s, t, packet, now)
    case _ => false
  }

  ghost function Queued(s: State, t: Tid, packet: Packet, pc: Pc): State {
    s.Goes(t, pc).(queue := s.queue + [packet], pushed := s.pushed + [packet])
  }

  /** The packet was appended and counted if there was room for it; nothing else has changed. */
  ghost predicate Posted(s: State, t: Tid, packet: Packet, now: State) {
    if |s.queue| >= 4096 then now == s.Goes(t, Idle)
    else
      && now.queue == s.queue + [packet] && now.pushed == s.pushed + [packet]
      && now.posted == (s.posted + 1) % WORD64 && now.popped == s.popped && now.returned == s.returned
      && now.retrieved == s.retrieved && now.active == s.active && now.lock == s.lock && now.limit == s.limit
      && now.threads == s.threads[t := Idle]
  }

  lemma PostSteps(s: State, t: Tid, packet: Packet, now: State, action: Action)
    requires s.lock.None? && Posting(s, t, packet, now)
    requires !action.CallPost? && !action.CallGet? && Next(now, t, action).Some?
    ensures Posting(s, t, packet, Next(now, t, action).value)
  {
    var next := Next(now, t, action).value;
    GoesAgain(s, t, now.At(t), next.At(t));
  }

  lemma {:induction false} PostRuns(s: State, t: Tid, packet: Packet, actions: seq<Action>)
    requires s.lock.None? && s.At(t).Idle?
    requires InsideCall(actions) && Run(s, Steps(t, [CallPost(packet)] + actions)).Some?
    ensures Posting(s, t, packet, Run(s, Steps(t, [CallPost(packet)] + actions)).value)
  {
    if actions == [] {
      assert [CallPost(packet)] + actions == [] + [CallPost(packet)];
      RunStep(s, t, [], CallPost(packet));
    } else {
      hide Next, Posting;
      var before, last := actions[..|actions| - 1], actions[|actions| - 1];
      assert [CallPost(packet)] + actions == [CallPost(packet)] + before + [last];
      RunStep(s, t, [CallPost(packet)] + before, last);
      PostRuns(s, t, packet, before);
      PostSteps(s, t, packet, Run(s, Steps(t, [CallPost(packet)] + before)).value, last);
    }
  }

  function PostStep(pc: Pc): Action {
    match pc
    case PostWants(_) => Lock
    case PostLocked(_) => Push
    case PostPushed => CountPosted
    case _ => Unlock
  }

  function PostStepsLeft(pc: Pc): nat {
    match pc
    case PostWants(_) => 4
    case PostLocked(_) => 3
    case PostPushed => 2
    case PostCounted => 1
    case _ => 0
  }

  lemma PostAdvances(s: State, t: Tid, packet: Packet, now: State)
    requires s.lock.None? && Posting(s, t, packet, now) && !now.At(t).Idle?
    ensures var next := Next(now, t, PostStep(now.At(t)));
            next.Some? && PostStepsLeft(next.value.At(t)) < PostStepsLeft(now.At(t))
  {
  }

  lemma PostEnds(s: State, t: Tid, packet: Packet, actions: seq<Action>) returns (rest: seq<Action>)
    requires s.lock.None? && s.At(t).Idle?
    requires InsideCall(actions) && Run(s, Steps(t, [CallPost(packet)] + actions)).Some?
    ensures InsideCall(rest) && actions <= rest
    ensures var end := Run(s, Steps(t, [CallPost(packet)] + rest)); end.Some? && end.value.At(t).Idle?
    decreases PostStepsLeft(Run(s, Steps(t, [CallPost(packet)] + actions)).value.At(t))
  {
    hide Next, Posting, PostStepsLeft;
    var now := Run(s, Steps(t, [CallPost(packet)] + actions)).value;
    if now.At(t).Idle? {
      return actions;
    }
    PostRuns(s, t, packet, actions);
    PostAdvances(s, t, packet, now);
    var action := PostStep(now.At(t));
    RunStep(s, t, [CallPost(packet)] + actions, action);
    assert [CallPost(packet)] + actions + [action] == [CallPost(packet)] + (actions + [action]);
    rest := PostEnds(s, t, packet, actions + [action]);
  }

  /**
   * While no other thread moves, a post can always be completed, and whenever it has returned the packet is queued and
   * counted exactly if fewer than 4096 were queued, and nothing else has changed.
   */
  lemma PostAppends(s: State, t: Tid, packet: Packet, actions: seq<Action>)
    requires s.lock.None? && s.At(t).Idle?
    requires InsideCall(actions) && Run(s, Steps(t, [CallPost(packet)] + actions)).Some?
    ensures var now := Run(s, Steps(t, [CallPost(packet)] + actions)).value;
            now.At(t).Idle? ==> Posted(s, t, packet, now)
    ensures exists rest ::
              && actions <= rest && InsideCall(rest) && Run(s, Steps(t, [CallPost(packet)] + rest)).Some?
              && Run(s, Steps(t, [CallPost(packet)] + rest)).value.At(t).Idle?
  {
    hide Run, Next, Posted;
    PostRuns(s, t, packet, actions);
    var rest := PostEnds(s, t, packet, actions);
  }

  /** In every reachable state, a thread inside a call can move, or the holder of the lock it waits for can. */
  lemma NeverStuck(limit: nat, s: State, t: Tid)
    requires limit < WORD32 && Reachable(limit, s) && !s.At(t).Idle?
    ensures exists u: Tid, action :: (u == t || s.lock == Some(u)) && Next(s, u, action).Some?
  {
    ReachableInv(limit, s);
    hide Reachable, Run, Inv, SlotsCounted, Fifo, PostsCounted, Delivered, RetrievalsCounted;
    HolderMoves(s);
    if s.lock.None? || s.At(t).OwnsLock() || !(s.At(t).PostWants? || s.At(t).Holding?) {
      assert Next(s, t, if s.At(t).PostWants? || s.At(t).OwnsLock() then PostStep(s.At(t)) else GetStep(s.At(t))).Some?;
    }
  }

  lemma HolderMoves(s: State)
    requires LockOwned(s)
    ensures s.lock.Some? ==> Next(s, s.lock.value, PostStep(s.At(s.lock.value))).Some?
  {
    if s.lock.Some? {
      assert s.At(s.lock.value).OwnsLock();
    }
  }
}
