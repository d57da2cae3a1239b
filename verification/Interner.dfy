/** The concurrent interner: any number of threads over one forward map and one append-only vector. */
module Interner {
  import opened Wrappers

  /** Ids are 32-bit words. */
  const MAX_ID: nat := 0xFFFF_FFFF

  /** Where a thread stands inside one call of `get_or_intern`. */
  datatype Pc =
    | Idle
    | Fast(str: string)                // about to look up without the lock
    | Acquire(str: string)             // missed; waits for the lock of its shard
    | Recheck(str: string)             // holds the lock, looks up again
    | Push(str: string)                // missed again, about to reserve a slot
    | Publish(str: string, idx: nat)   // reserved slot `idx`, about to fill it
    | Convert(str: string, idx: nat)   // about to narrow the index to an id
    | Insert(str: string, idx: nat)    // about to publish the id in the forward map
    | Release(str: string, id: nat)    // has its answer, still holds the lock
    | Dead                             // ran out of ids

  datatype State = State(
    forward: map<string, nat>,         // from string to id
    slots: map<nat, string>,           // the filled slots of the reverse vector
    reserved: nat,                     // how many slots have been handed out
    locks: map<nat, nat>,              // from shard to the thread that holds it
    pcs: map<nat, Pc>,
    returned: set<(string, nat)>,      // every call completed so far, with its answer
    lost: nat)                         // how many calls ran out of ids

  /** The shard of a string: fixed for the life of the process. */
  type Sharding = string -> nat

  predicate Init(st: State) {
    && st.forward == map[] && st.slots == map[] && st.reserved == 0 && st.locks == map[] && st.returned == {} && st.lost == 0
    && forall t :: t in st.pcs ==> st.pcs[t] == Idle
  }

  /** The reverse lookup; `None` stands for the panic on an unknown key. */
  function Resolve(st: State, id: nat): Option<string> {
    if id in st.slots then Some(st.slots[id]) else None
  }

  // ---------- steps ----------

  function Goto(st: State, t: nat, pc: Pc): State {
    st.(pcs := st.pcs[t := pc])
  }

  function Answer(st: State, t: nat, s: string, id: nat): State {
    Goto(st, t, Idle).(returned := st.returned + {(s, id)})
  }

  /** Thread `t` is not waiting for a lock. */
  predicate CanStep(shard: Sharding, st: State, t: nat) {
    t in st.pcs && !st.pcs[t].Dead? && (st.pcs[t].Acquire? ==> shard(st.pcs[t].str) !in st.locks)
  }

  /** The state after the next step of thread `t`; `arg` is the string of a new call. */
  function Next(shard: Sharding, st: State, t: nat, arg: string): State
    requires CanStep(shard, st, t)
  {
    match st.pcs[t]
    case Idle => Goto(st, t, Fast(arg))
    case Fast(s) => if s in st.forward then Answer(st, t, s, st.forward[s]) else Goto(st, t, Acquire(s))
    case Acquire(s) => Goto(st, t, Recheck(s)).(locks := st.locks[shard(s) := t])
    case Recheck(s) => if s in st.forward then Goto(st, t, Release(s, st.forward[s])) else Goto(st, t, Push(s))
    case Push(s) => Goto(st, t, Publish(s, st.reserved)).(reserved := st.reserved + 1)
    case Publish(s, i) => Goto(st, t, Convert(s, i)).(slots := st.slots[i := s])
    case Convert(s, i) =>
      if i <= MAX_ID then Goto(st, t, Insert(s, i))
      else Goto(st, t, Dead).(locks := st.locks - {shard(s)}, lost := st.lost + 1)
    case Insert(s, i) => Goto(st, t, Release(s, i)).(forward := st.forward[s := i])
    case Release(s, id) => Answer(st, t, s, id).(locks := st.locks - {shard(s)})
  }

  // ---------- the invariant ----------

  predicate Locked(pc: Pc) {
    pc.Recheck? || pc.Push? || pc.Publish? || pc.Convert? || pc.Insert? || pc.Release?
  }

  /** Between reserving a slot and publishing its id. */
  predicate InFlight(pc: Pc) {
    pc.Publish? || pc.Convert? || pc.Insert?
  }

  function Flying(pcs: map<nat, Pc>): set<nat> {
    set t | t in pcs && InFlight(pcs[t])
  }

  /** The threads past the lock are exactly the holders of their shards. */
  ghost predicate LocksOK(shard: Sharding, locks: map<nat, nat>, pcs: map<nat, Pc>) {
    && (forall t :: t in pcs && Locked(pcs[t]) ==> shard(pcs[t].str) in locks && locks[shard(pcs[t].str)] == t)
    && (forall h :: h in locks ==> locks[h] in pcs && Locked(pcs[locks[h]]) && shard(pcs[locks[h]].str) == h)
  }

  /** The forward map leads to filled slots that hold the same string. */
  ghost predicate ForwardOK(st: State) {
    forall s :: s in st.forward ==>
      st.forward[s] <= MAX_ID && st.forward[s] in st.slots && st.slots[st.forward[s]] == s
  }

  ghost predicate ThreadOK(st: State, pc: Pc) {
    match pc
    case Push(s) => s !in st.forward
    case Publish(s, i) => s !in st.forward && i < st.reserved && i !in st.slots
    case Convert(s, i) => s !in st.forward && i in st.slots && st.slots[i] == s
    case Insert(s, i) => s !in st.forward && i in st.slots && st.slots[i] == s && i <= MAX_ID
    case Release(s, id) => s in st.forward && st.forward[s] == id
    case _ => true
  }

  /** A filled slot is in the forward map, in flight, or beyond the id space. */
  ghost predicate SlotOwned(st: State, i: nat)
    requires i in st.slots
  {
    || i > MAX_ID
    || (st.slots[i] in st.forward && st.forward[st.slots[i]] == i)
    || exists t :: t in st.pcs && (st.pcs[t] == Convert(st.slots[i], i) || st.pcs[t] == Insert(st.slots[i], i))
  }

  ghost predicate SlotsOK(st: State) {
    && (forall i :: i in st.slots ==> i < st.reserved)
    && (forall i {:trigger SlotOwned(st, i)} :: i in st.slots ==> SlotOwned(st, i))
    && (forall t, u :: t in st.pcs && u in st.pcs && st.pcs[t].Publish? && st.pcs[u].Publish? && st.pcs[t].idx == st.pcs[u].idx ==> t == u)
  }

  ghost predicate AnswersOK(st: State) {
    forall r :: r in st.returned ==> r.0 in st.forward && st.forward[r.0] == r.1
  }

  ghost predicate CountOK(st: State) {
    st.reserved == |st.forward| + |Flying(st.pcs)| + st.lost && (st.lost > 0 ==> st.reserved > MAX_ID + 1)
  }

  ghost predicate ThreadsOK(st: State) {
    forall t {:trigger ThreadOK(st, st.pcs[t])} :: t in st.pcs ==> ThreadOK(st, st.pcs[t])
  }

  ghost predicate Inv(shard: Sharding, st: State) {
    LocksOK(shard, st.locks, st.pcs) && ForwardOK(st) && SlotsOK(st) && ThreadsOK(st) && AnswersOK(st) && CountOK(st)
  }

  // ---------- every step keeps the invariant ----------

  lemma LockSame(shard: Sharding, locks: map<nat, nat>, pcs: map<nat, Pc>, t: nat, pc: Pc)
    requires LocksOK(shard, locks, pcs) && t in pcs && Locked(pcs[t]) == Locked(pc)
    requires Locked(pc) ==> pcs[t].str == pc.str
    ensures LocksOK(shard, locks, pcs[t := pc])
  {
  }

  lemma LockTaken(shard: Sharding, locks: map<nat, nat>, pcs: map<nat, Pc>, t: nat, pc: Pc)
    requires LocksOK(shard, locks, pcs) && t in pcs && !Locked(pcs[t]) && Locked(pc) && shard(pc.str) !in locks
    ensures LocksOK(shard, locks[shard(pc.str) := t], pcs[t := pc])
  {
  }

  lemma LockFreed(shard: Sharding, locks: map<nat, nat>, pcs: map<nat, Pc>, t: nat, pc: Pc)
    requires LocksOK(shard, locks, pcs) && t in pcs && Locked(pcs[t]) && !Locked(pc)
    ensures LocksOK(shard, locks - {shard(pcs[t].str)}, pcs[t := pc])
  {
  }

  lemma LocksKept(shard: Sharding, st: State, t: nat, arg: string)
    requires LocksOK(shard, st.locks, st.pcs) && CanStep(shard, st, t)
    ensures var st' := Next(shard, st, t, arg); LocksOK(shard, st'.locks, st'.pcs)
  {
    hide LocksOK;
    var pc := Next(shard, st, t, arg).pcs[t];
    if Locked(st.pcs[t]) == Locked(pc) {
      LockSame(shard, st.locks, st.pcs, t, pc);
    } else if Locked(pc) {
      LockTaken(shard, st.locks, st.pcs, t, pc);
    } else {
      LockFreed(shard, st.locks, st.pcs, t, pc);
    }
  }

  /** No other thread holds the shard of a string that `t` works on. */
  lemma Exclusive(shard: Sharding, st: State, t: nat, u: nat)
    requires LocksOK(shard, st.locks, st.pcs) && t in st.pcs && u in st.pcs && Locked(st.pcs[t]) && Locked(st.pcs[u])
    requires st.pcs[t].str == st.pcs[u].str
    ensures t == u
  {
  }

  lemma ForwardKept(shard: Sharding, st: State, t: nat, arg: string)
    requires CanStep(shard, st, t) && ForwardOK(st) && ThreadOK(st, st.pcs[t])
    ensures ForwardOK(Next(shard, st, t, arg))
  {
  }

  /** What another thread knows survives a step, unless the step publishes its string. */
  lemma OtherKept(shard: Sharding, st: State, t: nat, arg: string, pc: Pc)
    requires CanStep(shard, st, t) && ThreadOK(st, st.pcs[t]) && ThreadOK(st, pc)
    requires st.pcs[t].Insert? && Locked(pc) ==> pc.str != st.pcs[t].str
    requires st.pcs[t].Publish? && pc.Publish? ==> pc.idx != st.pcs[t].idx
    ensures ThreadOK(Next(shard, st, t, arg), pc)
  {
  }

  lemma OwnKept(shard: Sharding, st: State, t: nat, arg: string)
    requires CanStep(shard, st, t) && ThreadOK(st, st.pcs[t]) && forall i :: i in st.slots ==> i < st.reserved
    ensures var st' := Next(shard, st, t, arg); ThreadOK(st', st'.pcs[t])
  {
    var st' := Next(shard, st, t, arg);
    match st.pcs[t] {
      case Push(s) => assert st'.pcs[t] == Publish(s, st.reserved);
      case Publish(s, i) => assert st'.pcs[t] == Convert(s, i);
      case Insert(s, i) => assert st'.pcs[t] == Release(s, i);
      case _ =>
    }
  }

  lemma ThreadsKept(shard: Sharding, st: State, t: nat, arg: string)
    requires LocksOK(shard, st.locks, st.pcs) && SlotsOK(st) && ThreadsOK(st) && CanStep(shard, st, t)
    ensures ThreadsOK(Next(shard, st, t, arg))
  {
    hide LocksOK, ThreadOK, SlotOwned;
    var st' := Next(shard, st, t, arg);
    assert ThreadOK(st, st.pcs[t]);
    forall u | u in st'.pcs
      ensures ThreadOK(st', st'.pcs[u])
    {
      if u == t {
        OwnKept(shard, st, t, arg);
      } else {
        assert st'.pcs[u] == st.pcs[u] && ThreadOK(st, st.pcs[u]);
        if Locked(st.pcs[t]) && Locked(st.pcs[u]) && st.pcs[u].str == st.pcs[t].str {
          Exclusive(shard, st, t, u);
        }
        OtherKept(shard, st, t, arg, st.pcs[u]);
      }
    }
  }

  lemma FilledOnce(shard: Sharding, st: State, t: nat, arg: string, i: nat)
    requires CanStep(shard, st, t) && ThreadOK(st, st.pcs[t]) && i in st.slots
    ensures var st' := Next(shard, st, t, arg); i in st'.slots && st'.slots[i] == st.slots[i]
  {
  }

  /** An owned slot stays owned. */
  lemma OwnedKept(shard: Sharding, st: State, t: nat, arg: string, i: nat)
    requires Inv(shard, st) && CanStep(shard, st, t) && i in st.slots && i <= MAX_ID
    ensures var st' := Next(shard, st, t, arg); i in st'.slots && SlotOwned(st', i)
  {
    hide LocksOK, CountOK, AnswersOK;
    var st' := Next(shard, st, t, arg);
    assert ThreadOK(st, st.pcs[t]) && SlotOwned(st, i);
    FilledOnce(shard, st, t, arg, i);
    var s := st.slots[i];
    if s in st.forward && st.forward[s] == i {
      assert !(st.pcs[t].Insert? && st.pcs[t].str == s);
    } else {
      var u :| u in st.pcs && (st.pcs[u] == Convert(s, i) || st.pcs[u] == Insert(s, i));
      if u != t {
        assert st'.pcs[u] == st.pcs[u];
      } else if st.pcs[t].Convert? {
        assert st'.pcs[t] == Insert(s, i);
      } else {
        assert st'.forward[s] == i;
      }
    }
  }

  lemma SlotsKept(shard: Sharding, st: State, t: nat, arg: string)
    requires Inv(shard, st) && CanStep(shard, st, t)
    ensures SlotsOK(Next(shard, st, t, arg))
  {
    hide LocksOK, ForwardOK, AnswersOK, CountOK, SlotOwned;
    var st' := Next(shard, st, t, arg);
    assert ThreadOK(st, st.pcs[t]);
    forall i | i in st'.slots
      ensures SlotOwned(st', i)
    {
      if i > MAX_ID {
        FarSlot(st', i);
      } else if i in st.slots {
        OwnedKept(shard, st, t, arg, i);
      } else {
        FreshSlot(st', t, i);
      }
    }
    forall u | u in st.pcs && st.pcs[u].Publish?
      ensures st.pcs[u].idx < st.reserved
    {
      assert ThreadOK(st, st.pcs[u]);
    }
  }

  lemma FarSlot(st: State, i: nat)
    requires i in st.slots && i > MAX_ID
    ensures SlotOwned(st, i)
  {
  }

  lemma FreshSlot(st: State, t: nat, i: nat)
    requires i in st.slots && t in st.pcs && st.pcs[t] == Convert(st.slots[i], i)
    ensures SlotOwned(st, i)
  {
  }

  lemma AddOne<T>(s: set<T>, x: T)
    requires x !in s
    ensures |s + {x}| == |s| + 1
  {
  }

  lemma FlyingSize(pcs: map<nat, Pc>, t: nat, pc: Pc)
    requires t in pcs
    ensures |Flying(pcs[t := pc])| == |Flying(pcs)| + (if InFlight(pc) then 1 else 0) - (if InFlight(pcs[t]) then 1 else 0)
  {
    var rest := Flying(pcs) - {t};
    AddOne(rest, t);
    assert Flying(pcs) == if InFlight(pcs[t]) then rest + {t} else rest;
    assert Flying(pcs[t := pc]) == if InFlight(pc) then rest + {t} else rest;
  }

  /** How a step changes the numbers that are counted. */
  lemma NextCounts(shard: Sharding, st: State, t: nat, arg: string)
    requires CanStep(shard, st, t)
    ensures var st' := Next(shard, st, t, arg);
            && t in st'.pcs && st'.pcs == st.pcs[t := st'.pcs[t]]
            && st'.forward == (if st.pcs[t].Insert? then st.forward[st.pcs[t].str := st.pcs[t].idx] else st.forward)
            && st'.reserved == st.reserved + (if st.pcs[t].Push? then 1 else 0)
            && st'.lost == st.lost + (if st.pcs[t].Convert? && st.pcs[t].idx > MAX_ID then 1 else 0)
            && InFlight(st'.pcs[t]) == (st.pcs[t].Push? || st.pcs[t].Publish? || (st.pcs[t].Convert? && st.pcs[t].idx <= MAX_ID))
  {
    match st.pcs[t] {
      case Idle =>
      case Fast(s) =>
      case Acquire(s) =>
      case Recheck(s) =>
      case Push(s) =>
      case Publish(s, i) =>
      case Convert(s, i) =>
      case Insert(s, i) =>
      case Release(s, id) =>
    }
  }

  lemma CountKept(shard: Sharding, st: State, t: nat, arg: string)
    requires CountOK(st) && CanStep(shard, st, t)
    requires st.pcs[t].Convert? ==> st.pcs[t].idx < st.reserved
    requires st.pcs[t].Insert? ==> st.pcs[t].str !in st.forward
    ensures CountOK(Next(shard, st, t, arg))
  {
    hide Flying, Next;
    var st' := Next(shard, st, t, arg);
    NextCounts(shard, st, t, arg);
    FlyingSize(st.pcs, t, st'.pcs[t]);
    if st.pcs[t].Insert? {
      AddOne(st.forward.Keys, st.pcs[t].str);
      assert st'.forward.Keys == st.forward.Keys + {st.pcs[t].str};
    }
  }

  lemma AnswersKept(shard: Sharding, st: State, t: nat, arg: string)
    requires AnswersOK(st) && CanStep(shard, st, t) && ThreadOK(st, st.pcs[t])
    ensures AnswersOK(Next(shard, st, t, arg))
  {
  }

  lemma CountReady(st: State, t: nat)
    requires t in st.pcs && SlotsOK(st) && ThreadOK(st, st.pcs[t])
    ensures st.pcs[t].Convert? ==> st.pcs[t].idx < st.reserved
    ensures st.pcs[t].Insert? ==> st.pcs[t].str !in st.forward
  {
  }

  /** The invariant is inductive. */
  lemma StepInv(shard: Sharding, st: State, t: nat, arg: string)
    requires Inv(shard, st) && CanStep(shard, st, t)
    ensures Inv(shard, Next(shard, st, t, arg))
  {
    hide LocksOK, ForwardOK, SlotsOK, ThreadOK, AnswersOK, CountOK, Next;
    assert ThreadOK(st, st.pcs[t]);
    LocksKept(shard, st, t, arg);
    ForwardKept(shard, st, t, arg);
    SlotsKept(shard, st, t, arg);
    assert (st.pcs[t].Convert? ==> st.pcs[t].idx < st.reserved) && (st.pcs[t].Insert? ==> st.pcs[t].str !in st.forward) by {
      CountReady(st, t);
    }
    CountKept(shard, st, t, arg);
    AnswersKept(shard, st, t, arg);
    ThreadsKept(shard, st, t, arg);
  }

  // ---------- runs ----------

  ghost predicate MovesBy(shard: Sharding, st: State, st': State, t: nat, arg: string) {
    CanStep(shard, st, t) && st' == Next(shard, st, t, arg)
  }

  ghost predicate Moves(shard: Sharding, st: State, st': State) {
    exists t, arg :: MovesBy(shard, st, st', t, arg)
  }

  /** A run of any number of threads, interleaved in any way. */
  ghost predicate Run(shard: Sharding, states: seq<State>) {
    states != [] && Init(states[0]) && forall k: nat :: 0 < k < |states| ==> Moves(shard, states[k-1], states[k])
  }

  lemma InitInv(shard: Sharding, st: State)
    requires Init(st)
    ensures Inv(shard, st)
  {
  }

  lemma {:induction false} RunInv(shard: Sharding, states: seq<State>, k: nat)
    requires Run(shard, states) && k < |states|
    ensures Inv(shard, states[k])
  {
    hide Inv, Next, CanStep;
    if k == 0 {
      InitInv(shard, states[0]);
    } else {
      RunInv(shard, states, k - 1);
      assert Moves(shard, states[k-1], states[k]);
      var t, arg :| MovesBy(shard, states[k-1], states[k], t, arg);
      StepInv(shard, states[k-1], t, arg);
    }
  }

  /** Nothing already published ever changes. */
  ghost predicate Grows(st: State, st': State) {
    && (forall s :: s in st.forward ==> s in st'.forward && st'.forward[s] == st.forward[s])
    && (forall i :: i in st.slots ==> i in st'.slots && st'.slots[i] == st.slots[i])
    && st.returned <= st'.returned
  }

  lemma StepGrows(shard: Sharding, st: State, t: nat, arg: string)
    requires Inv(shard, st) && CanStep(shard, st, t)
    ensures Grows(st, Next(shard, st, t, arg))
  {
    hide LocksOK, ForwardOK, SlotsOK, AnswersOK, CountOK;
    assert ThreadOK(st, st.pcs[t]);
  }

  lemma {:induction false} RunGrows(shard: Sharding, states: seq<State>, i: nat, j: nat)
    requires Run(shard, states) && i <= j < |states|
    ensures Grows(states[i], states[j])
    decreases j
  {
    hide Inv, Next, CanStep;
    if i < j {
      RunGrows(shard, states, i, j - 1);
      RunInv(shard, states, j - 1);
      assert Moves(shard, states[j-1], states[j]);
      var t, arg :| MovesBy(shard, states[j-1], states[j], t, arg);
      StepGrows(shard, states[j-1], t, arg);
    }
  }

  // ---------- what callers rely on ----------

  /** An id seen in the forward map or returned by any call resolves to its string from then on. */
  lemma IdsResolve(shard: Sharding, states: seq<State>, i: nat, j: nat, s: string, id: nat)
    requires Run(shard, states) && i <= j < |states|
    requires (s in states[i].forward && states[i].forward[s] == id) || (s, id) in states[i].returned
    ensures Resolve(states[j], id) == Some(s)
  {
    RunInv(shard, states, i);
    RunGrows(shard, states, i, j);
  }

  /** All completed interns of a string agree, and different strings get different ids. */
  lemma AnswersAgree(shard: Sharding, states: seq<State>, i: nat, j: nat, s: string, id: nat, s': string, id': nat)
    requires Run(shard, states) && i < |states| && j < |states|
    requires (s, id) in states[i].returned && (s', id') in states[j].returned
    ensures s == s' <==> id == id'
  {
    var k := |states| - 1;
    RunInv(shard, states, k);
    RunGrows(shard, states, i, k);
    RunGrows(shard, states, j, k);
  }

  /** No string occupies two slots of the id space: nothing is allocated for a lost race. */
  lemma OneSlotPerString(shard: Sharding, states: seq<State>, k: nat, a: nat, b: nat)
    requires Run(shard, states) && k < |states| && a <= MAX_ID && b <= MAX_ID
    requires var st := states[k]; a in st.slots && b in st.slots && st.slots[a] == st.slots[b]
    ensures a == b
  {
    var st := states[k];
    RunInv(shard, states, k);
    SameSlot(shard, st, a, b);
  }

  lemma SameSlot(shard: Sharding, st: State, a: nat, b: nat)
    requires Inv(shard, st) && a in st.slots && b in st.slots && st.slots[a] == st.slots[b] && a <= MAX_ID && b <= MAX_ID
    ensures a == b
  {
    hide CountOK, AnswersOK, LocksOK;
    var s := st.slots[a];
    assert SlotOwned(st, a) && SlotOwned(st, b);
    if s in st.forward {
      forall t | t in st.pcs
        ensures st.pcs[t] != Convert(s, a) && st.pcs[t] != Insert(s, a) && st.pcs[t] != Convert(s, b) && st.pcs[t] != Insert(s, b)
      {
        assert ThreadOK(st, st.pcs[t]);
      }
    } else {
      var t :| t in st.pcs && (st.pcs[t] == Convert(s, a) || st.pcs[t] == Insert(s, a));
      var u :| u in st.pcs && (st.pcs[u] == Convert(s, b) || st.pcs[u] == Insert(s, b));
      Exclusive(shard, st, t, u);
    }
  }

  /**
   * The vector is as long as the map, plus the threads between push and insert, plus the calls that ran
   * out of ids; and none has while every slot handed out is within the id space.
   */
  lemma LengthsMatch(shard: Sharding, states: seq<State>, k: nat)
    requires Run(shard, states) && k < |states|
    ensures states[k].reserved == |states[k].forward| + |Flying(states[k].pcs)| + states[k].lost
    ensures states[k].reserved <= MAX_ID + 1 ==> states[k].lost == 0
  {
    RunInv(shard, states, k);
  }

  /** Each step either leaves the map alone or binds a new string to a new id: interning is atomic. */
  lemma AtomicBinding(shard: Sharding, st: State, t: nat, arg: string)
    requires Inv(shard, st) && CanStep(shard, st, t)
    ensures var forward' := Next(shard, st, t, arg).forward;
            if st.pcs[t].Insert? then
              var s, id := st.pcs[t].str, st.pcs[t].idx;
              s !in st.forward && id !in st.forward.Values && forward' == st.forward[s := id]
            else forward' == st.forward
  {
    hide LocksOK, SlotsOK, AnswersOK, CountOK;
    assert ThreadOK(st, st.pcs[t]);
  }

  /** While some thread is in the middle of a call, some such thread can move: the locks never deadlock. */
  lemma NoDeadlock(shard: Sharding, st: State, t: nat) returns (u: nat)
    requires Inv(shard, st) && t in st.pcs && !st.pcs[t].Idle? && !st.pcs[t].Dead?
    ensures CanStep(shard, st, u) && !st.pcs[u].Idle?
  {
    u := t;
    if st.pcs[t].Acquire? && shard(st.pcs[t].str) in st.locks {
      u := st.locks[shard(st.pcs[t].str)];
    }
  }

  // ---------- every call ends, and with an answer ----------

  /** How many steps a call is at most away from its end. */
  function Rank(pc: Pc): nat {
    match pc
    case Idle => 0
    case Fast(_) => 8
    case Acquire(_) => 7
    case Recheck(_) => 6
    case Push(_) => 5
    case Publish(_, _) => 4
    case Convert(_, _) => 3
    case Insert(_, _) => 2
    case Release(_, _) => 1
    case Dead => 0
  }

  predicate InCall(pc: Pc) {
    !pc.Idle? && !pc.Dead?
  }

  /**
   * A step inside a call brings it nearer to its end and stays with its string; it ends the call only with an
   * answer for that string, or where the id space is used up. A new call is one for its argument.
   */
  lemma StepAdvances(shard: Sharding, st: State, t: nat, arg: string)
    requires CanStep(shard, st, t)
    ensures var st', pc := Next(shard, st, t, arg), st.pcs[t];
            && (forall u :: u in st.pcs && u != t ==> u in st'.pcs && st'.pcs[u] == st.pcs[u])
            && t in st'.pcs
            && (pc.Idle? ==> st'.pcs[t] == Fast(arg))
            && (!pc.Idle? ==>
                  && Rank(st'.pcs[t]) < Rank(pc)
                  && (InCall(st'.pcs[t]) ==> st'.pcs[t].str == pc.str)
                  && (st'.pcs[t].Idle? ==> exists id :: (pc.str, id) in st'.returned)
                  && (st'.pcs[t].Dead? ==> pc.Convert? && pc.idx >= 0x1_0000_0000))
  {
    match st.pcs[t] {
      case Idle =>
      case Fast(s) =>
        if s in st.forward {
          assert (s, st.forward[s]) in Next(shard, st, t, arg).returned;
        }
      case Acquire(s) =>
      case Recheck(s) =>
      case Push(s) =>
      case Publish(s, i) =>
      case Convert(s, i) =>
      case Insert(s, i) =>
      case Release(s, id) =>
        assert (s, id) in Next(shard, st, t, arg).returned;
    }
  }

  /** The call of thread `t` does not wait for another thread. */
  predicate Unhindered(shard: Sharding, st: State, t: nat) {
    t in st.pcs && InCall(st.pcs[t]) && (st.pcs[t].Fast? || st.pcs[t].Acquire? ==> shard(st.pcs[t].str) !in st.locks)
  }

  /** The state once thread `t`, running alone, is through with its call. */
  ghost function Finish(shard: Sharding, st: State, t: nat): State
    requires t in st.pcs && (InCall(st.pcs[t]) ==> Unhindered(shard, st, t))
    decreases if t in st.pcs then Rank(st.pcs[t]) else 0
  {
    if !InCall(st.pcs[t]) then st
    else
      StepAdvances(shard, st, t, "");
      Finish(shard, Next(shard, st, t, ""), t)
  }

  /** The slot the call has reserved, or the next one to be, is within the id space. */
  predicate Room(st: State, pc: Pc) {
    match pc
    case Publish(_, i) => i <= MAX_ID
    case Convert(_, i) => i <= MAX_ID
    case Insert(_, _) => true
    case Release(_, _) => true
    case _ => st.reserved <= MAX_ID
  }

  lemma RoomKept(shard: Sharding, st: State, t: nat)
    requires Unhindered(shard, st, t) && CanStep(shard, st, t) && Room(st, st.pcs[t])
    ensures var st' := Next(shard, st, t, "");
            t in st'.pcs && st'.pcs == st.pcs[t := st'.pcs[t]] && !st'.pcs[t].Dead?
            && (InCall(st'.pcs[t]) ==> Unhindered(shard, st', t) && Room(st', st'.pcs[t]))
            && (st'.pcs[t].Idle? ==> exists id :: (st.pcs[t].str, id) in st'.returned)
  {
    StepAdvances(shard, st, t, "");
  }

  /** A call that is not kept waiting, below the id bound, completes and returns the id its string is bound to. */
  lemma {:induction false} CallCompletes(shard: Sharding, st: State, t: nat)
    requires Inv(shard, st) && Unhindered(shard, st, t) && Room(st, st.pcs[t])
    ensures var r, s := Finish(shard, st, t), st.pcs[t].str;
            && Inv(shard, r) && Grows(st, r) && r.pcs == st.pcs[t := Idle]
            && s in r.forward && (s, r.forward[s]) in r.returned && r.forward[s] < 0x1_0000_0000
    decreases Rank(st.pcs[t])
  {
    hide Inv, Next, Grows, Room;
    var st' := Next(shard, st, t, "");
    StepAdvances(shard, st, t, "");
    RoomKept(shard, st, t);
    StepInv(shard, st, t, "");
    StepGrows(shard, st, t, "");
    if InCall(st'.pcs[t]) {
      CallCompletes(shard, st', t);
      GrowsTwice(st, st', Finish(shard, st', t));
    } else {
      assert Finish(shard, st', t) == st';
      var id :| (st.pcs[t].str, id) in st'.returned;
      AnswerBound(shard, st', st.pcs[t].str, id);
    }
  }

  lemma GrowsTwice(a: State, b: State, c: State)
    requires Grows(a, b) && Grows(b, c)
    ensures Grows(a, c)
  {
  }

  lemma AnswerBound(shard: Sharding, st: State, s: string, id: nat)
    requires Inv(shard, st) && (s, id) in st.returned
    ensures s in st.forward && st.forward[s] == id < 0x1_0000_0000
  {
  }

  // ---------- no schedule goes on for ever ----------

  /** The steps that all calls in progress are at most away from their ends. */
  ghost function TotalRank(pcs: map<nat, Pc>): nat
    decreases |pcs|
  {
    if pcs == map[] then 0
    else
      var t :| t in pcs;
      Fewer(pcs, t);
      Rank(pcs[t]) + TotalRank(pcs - {t})
  }

  lemma Fewer(pcs: map<nat, Pc>, t: nat)
    requires t in pcs
    ensures |pcs - {t}| == |pcs| - 1
  {
    assert (pcs - {t}).Keys == pcs.Keys - {t};
    assert |(pcs - {t}).Keys| == |pcs.Keys| - 1;
  }

  lemma {:induction false} TotalOf(pcs: map<nat, Pc>, t: nat)
    requires t in pcs
    ensures TotalRank(pcs) == Rank(pcs[t]) + TotalRank(pcs - {t})
    decreases |pcs|
  {
    var u :| u in pcs && TotalRank(pcs) == Rank(pcs[u]) + TotalRank(pcs - {u});
    if u != t {
      Fewer(pcs, u);
      Fewer(pcs, t);
      TotalOf(pcs - {u}, t);
      TotalOf(pcs - {t}, u);
      assert pcs - {u} - {t} == pcs - {t} - {u};
    }
  }

  /** A step that starts no new call leaves less to do. */
  lemma TotalDrops(shard: Sharding, st: State, t: nat, arg: string)
    requires CanStep(shard, st, t) && !st.pcs[t].Idle?
    ensures TotalRank(Next(shard, st, t, arg).pcs) < TotalRank(st.pcs)
  {
    hide Next;
    var st' := Next(shard, st, t, arg);
    StepAdvances(shard, st, t, arg);
    NextCounts(shard, st, t, arg);
    TotalOf(st.pcs, t);
    TotalOf(st'.pcs, t);
    assert st'.pcs - {t} == st.pcs - {t};
  }

  /** One thread takes a step of the call it is in. */
  ghost predicate Continues(shard: Sharding, st: State, st': State) {
    exists t, arg :: MovesBy(shard, st, st', t, arg) && !st.pcs[t].Idle?
  }

  /** Steps of calls in progress, interleaved in any way; no new call starts. */
  ghost predicate Drains(shard: Sharding, states: seq<State>) {
    forall k: nat :: 0 < k < |states| ==> Continues(shard, states[k-1], states[k])
  }

  lemma ContinueStep(shard: Sharding, st: State, st': State)
    requires Inv(shard, st) && Continues(shard, st, st')
    ensures Inv(shard, st') && TotalRank(st'.pcs) < TotalRank(st.pcs)
  {
    hide Inv, Next;
    var t, arg :| MovesBy(shard, st, st', t, arg) && !st.pcs[t].Idle?;
    StepInv(shard, st, t, arg);
    TotalDrops(shard, st, t, arg);
  }

  /** However the threads are interleaved, calls in progress end within so many steps while no new ones start. */
  lemma {:induction false} DrainsEnd(shard: Sharding, states: seq<State>)
    requires states != [] && Inv(shard, states[0]) && Drains(shard, states)
    ensures Inv(shard, states[|states|-1])
    ensures |states| - 1 + TotalRank(states[|states|-1].pcs) <= TotalRank(states[0].pcs)
  {
    hide Inv, Continues;
    var n := |states| - 1;
    if n > 0 {
      forall k: nat | 0 < k < n
        ensures Continues(shard, states[..n][k-1], states[..n][k])
      {
        assert Continues(shard, states[k-1], states[k]);
      }
      DrainsEnd(shard, states[..n]);
      assert states[..n][n-1] == states[n-1] && Continues(shard, states[n-1], states[n]);
      ContinueStep(shard, states[n-1], states[n]);
    }
  }

  /** And not before: while some call is in progress, one can go on. */
  lemma SomeContinues(shard: Sharding, st: State, t: nat) returns (st': State)
    requires Inv(shard, st) && t in st.pcs && InCall(st.pcs[t])
    ensures Continues(shard, st, st')
  {
    var u := NoDeadlock(shard, st, t);
    st' := Next(shard, st, u, "");
    assert MovesBy(shard, st, st', u, "");
  }
}
