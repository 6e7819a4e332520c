/**
 The server's table of worker threads. The listener checks the limit without the lock and inserts under it;
 every worker removes itself under it. Each thread is a sequence of atomic steps, in any interleaving.
 */
module WorkerTable {
  import opened S7Types

  const MAX_WORKERS := 1024

  type Slots = seq<Option<nat>>

  // ---------------------------------------------------------------- the table on values

  function Occupied(slots: Slots): (n: nat)
    ensures n <= |slots|
  {
    if slots == [] then 0 else Occupied(slots[..|slots| - 1]) + (if slots[|slots| - 1].Some? then 1 else 0)
  }

  lemma {:induction false} OccupiedUpdate(slots: Slots, i: nat, x: Option<nat>)
    requires i < |slots|
    ensures Occupied(slots[i := x]) + (if slots[i].Some? then 1 else 0) == Occupied(slots) + (if x.Some? then 1 else 0)
  {
    var n := |slots| - 1;
    if i < n {
      assert slots[i := x][..n] == slots[..n][i := x];
      OccupiedUpdate(slots[..n], i, x);
    } else {
      assert slots[i := x][..n] == slots[..n];
    }
  }

  lemma {:induction false} FullIff(slots: Slots)
    ensures Occupied(slots) == |slots| <==> forall i :: 0 <= i < |slots| ==> slots[i].Some?
  {
    if slots != [] {
      var before := slots[..|slots| - 1];
      FullIff(before);
      assert forall i :: 0 <= i < |before| ==> before[i] == slots[i];
    }
  }

  /** The first free slot, or none. */
  ghost predicate IsFirstFree(slots: Slots, idx: int) {
    if idx < 0 then idx == -1 && forall i :: 0 <= i < |slots| ==> slots[i].Some?
    else idx < |slots| && slots[idx].None? && forall i :: 0 <= i < idx ==> slots[i].Some?
  }

  predicate CanAcceptWith(count: int, maxClients: int) {
    maxClients == 0 || count < maxClients
  }

  class TCustomMsgServer {
    const Workers: array<Option<nat>>
    var ClientsCount: int
    var MaxClients: int

    ghost predicate Valid()
      reads this, Workers
    {
      Workers.Length == MAX_WORKERS && ClientsCount == Occupied(Workers[..])
    }

    constructor ()
      ensures Valid() && ClientsCount == 0 && MaxClients == MAX_WORKERS && fresh(Workers)
      ensures forall i :: 0 <= i < Workers.Length ==> Workers[i].None?
    {
      Workers := new Option<nat>[MAX_WORKERS](_ => None);
      ClientsCount := 0;
      MaxClients := MAX_WORKERS;
      new;
      EmptyTable(Workers[..]);
    }

    method FirstFree() returns (idx: int)
      ensures IsFirstFree(Workers[..], idx)
    {
      var i := 0;
      while i < Workers.Length
        invariant 0 <= i <= Workers.Length
        invariant forall j :: 0 <= j < i ==> Workers[j].Some?
      {
        if Workers[i].None? { return i; }
        i := i + 1;
      }
      return -1;
    }

    /** The locked part of an incoming connection: the new worker takes the first free slot and learns its index. */
    method Insert(id: nat) returns (idx: int)
      requires Valid()
      modifies this`ClientsCount, Workers
      ensures Valid() && IsFirstFree(old(Workers[..]), idx)
      ensures if idx < 0 then Workers[..] == old(Workers[..]) && ClientsCount == old(ClientsCount) == MAX_WORKERS
              else Workers[..] == old(Workers[..])[idx := Some(id)] && ClientsCount == old(ClientsCount) + 1
      ensures forall i :: 0 <= i < (if idx < 0 then 1024 else idx) ==> old(Workers[..])[i].Some?
      ensures idx >= 0 ==> old(Workers[..])[idx] == None
    {
      idx := FirstFree();
      if idx >= 0 {
        OccupiedUpdate(Workers[..], idx, Some(id));
        Workers[idx] := Some(id);
        ClientsCount := ClientsCount + 1;
      } else {
        FullIff(Workers[..]);
      }
    }

    /** What a worker does under the lock as its last act. */
    method Delete(Index: nat)
      requires Valid() && Index < MAX_WORKERS && Workers[Index].Some?
      modifies this`ClientsCount, Workers
      ensures Valid() && Workers[..] == old(Workers[..])[Index := None] && ClientsCount == old(ClientsCount) - 1
    {
      OccupiedUpdate(Workers[..], Index, None);
      Workers[Index] := None;
      ClientsCount := ClientsCount - 1;
    }
  }

  lemma {:induction false} EmptyTable(slots: Slots)
    requires forall i :: 0 <= i < |slots| ==> slots[i].None?
    ensures Occupied(slots) == 0
  {
    if slots != [] { EmptyTable(slots[..|slots| - 1]); }
  }

  // ---------------------------------------------------------------- the threads

  datatype Owner = Free | Listener | Worker(id: nat)

  /** The listener between two connections, before the check, before the lock, before and after filling the slot. */
  datatype Accepting = Idle | Arrived | Allowed | Holding | Filled(id: nat, idx: nat)

  /** A worker serves, then holds the lock to delete itself, and is gone. */
  datatype Phase = Serving | Deleting | Cleared

  datatype Thread = Thread(index: nat, phase: Phase)

  datatype State = State(
    slots: Slots, count: int, maxClients: int, lock: Owner, accepting: Accepting, workers: map<nat, Thread>,
    issued: nat, arrived: nat, rejected: nat, noRoom: nat, gone: nat)

  function Init(maxClients: int): State {
    State(seq(MAX_WORKERS, _ => None), 0, maxClients, Free, Idle, map[], 0, 0, 0, 0, 0)
  }

  ghost predicate ListenerStep(s: State, t: State) {
    match s.accepting
    case Idle => t == s.(accepting := Arrived, arrived := s.arrived + 1)
    case Arrived =>
      if CanAcceptWith(s.count, s.maxClients) then t == s.(accepting := Allowed)
      else t == s.(accepting := Idle, rejected := s.rejected + 1)
    case Allowed => s.lock == Free && t == s.(accepting := Holding, lock := Listener)
    case Holding =>
      (exists idx :: 0 <= idx && IsFirstFree(s.slots, idx) && idx < |s.slots|
         && t == s.(slots := s.slots[idx := Some(s.issued)], workers := s.workers[s.issued := Thread(idx, Serving)],
                    issued := s.issued + 1, accepting := Filled(s.issued, idx)))
      || (IsFirstFree(s.slots, -1) && t == s.(accepting := Idle, noRoom := s.noRoom + 1, lock := Free))
    case Filled(_, _) => t == s.(accepting := Idle, count := s.count + 1, lock := Free)
  }

  ghost predicate WorkerStep(s: State, t: State, id: nat) {
    id in s.workers &&
    var w := s.workers[id];
    match w.phase
    case Serving => s.lock == Free && t == s.(lock := Worker(id), workers := s.workers[id := w.(phase := Deleting)])
    case Deleting => w.index < |s.slots| &&
      t == s.(slots := s.slots[w.index := None], workers := s.workers[id := w.(phase := Cleared)])
    case Cleared => t == s.(count := s.count - 1, lock := Free, workers := s.workers - {id}, gone := s.gone + 1)
  }

  ghost predicate Next(s: State, t: State) {
    ListenerStep(s, t) || exists id :: WorkerStep(s, t, id)
  }

  ghost predicate IsRun(run: seq<State>) {
    forall i :: 0 <= i < |run| - 1 ==> Next(run[i], run[i + 1])
  }

  // ---------------------------------------------------------------- what every run keeps

  /** Slots and live workers name each other, but for the slot a worker has just cleared. */
  ghost predicate Linked(s: State) {
    && |s.slots| == MAX_WORKERS
    && (forall id :: id in s.workers ==>
          id < s.issued && s.workers[id].index < MAX_WORKERS
          && (s.workers[id].phase.Cleared? || s.slots[s.workers[id].index] == Some(id)))
    && (forall i :: 0 <= i < MAX_WORKERS && s.slots[i].Some? ==>
          s.slots[i].value in s.workers && s.workers[s.slots[i].value].index == i
          && !s.workers[s.slots[i].value].phase.Cleared?)
  }

  /** The lock is held by the thread inside its locked section and by nobody else. */
  ghost predicate Locked(s: State) {
    && (s.lock == Listener <==> s.accepting.Holding? || s.accepting.Filled?)
    && (forall id :: id in s.workers ==> (s.lock == Worker(id) <==> !s.workers[id].phase.Serving?))
    && (s.lock.Worker? ==> s.lock.id in s.workers)
  }

  /** The count is the number of occupied slots, but for the half-done insertion or removal under the lock. */
  ghost predicate Counted(s: State) {
    && 0 <= s.count
    && s.count == Occupied(s.slots) + (if ClearedUnderLock(s) then 1 else 0) - (if s.accepting.Filled? then 1 else 0)
  }

  ghost predicate ClearedUnderLock(s: State) {
    s.lock.Worker? && s.lock.id in s.workers && s.workers[s.lock.id].phase.Cleared?
  }

  ghost predicate Limited(s: State) {
    && (s.maxClients > 0 ==> s.count <= s.maxClients)
    && (s.maxClients != 0 && (s.accepting.Allowed? || s.accepting.Holding? || s.accepting.Filled?) ==> s.count < s.maxClients)
  }

  /** Every connection is rejected, turned away for lack of room, served, gone, or being accepted. */
  ghost predicate Accounted(s: State) {
    && s.issued == |s.workers| + s.gone
    && |s.workers| == s.count + (if s.accepting.Filled? then 1 else 0)
    && s.arrived == s.rejected + s.noRoom + s.issued
                    + (if s.accepting.Arrived? || s.accepting.Allowed? || s.accepting.Holding? then 1 else 0)
  }

  ghost predicate Inv(s: State) {
    Linked(s) && Locked(s) && Counted(s) && Limited(s) && Accounted(s)
  }

  lemma InitInv(maxClients: int)
    ensures Inv(Init(maxClients))
  {
    EmptyTable(Init(maxClients).slots);
  }

  lemma ListenerKeepsLinks(s: State, t: State)
    requires Linked(s) && Locked(s) && ListenerStep(s, t)
    ensures Linked(t)
  {
    if s.accepting.Holding? {
      hide Locked;
    }
  }

  lemma ListenerKeepsLock(s: State, t: State)
    requires Linked(s) && Locked(s) && ListenerStep(s, t)
    ensures Locked(t)
  {
    hide IsFirstFree;
  }

  lemma ListenerKeepsCount(s: State, t: State)
    requires Linked(s) && Locked(s) && Counted(s) && ListenerStep(s, t)
    ensures Counted(t)
  {
    hide Occupied, Linked;
    if s.accepting.Holding? && t.accepting.Filled? {
      OccupiedUpdate(s.slots, t.accepting.idx, Some(s.issued));
    }
  }

  lemma ListenerKeepsRest(s: State, t: State)
    requires Linked(s) && Limited(s) && Accounted(s) && ListenerStep(s, t)
    ensures Limited(t) && Accounted(t) && t.maxClients == s.maxClients
  {
    hide IsFirstFree;
    assert s.issued !in s.workers;
  }

  lemma ListenerKeepsInv(s: State, t: State)
    requires Inv(s) && ListenerStep(s, t)
    ensures Inv(t) && t.maxClients == s.maxClients
  {
    ListenerKeepsLinks(s, t);
    ListenerKeepsLock(s, t);
    ListenerKeepsCount(s, t);
    ListenerKeepsRest(s, t);
    hide Linked, Locked, Counted, Limited, Accounted, ListenerStep;
  }

  lemma WorkerKeepsLinks(s: State, t: State, id: nat)
    requires Linked(s) && Locked(s) && WorkerStep(s, t, id)
    ensures Linked(t) && Locked(t)
  {
    assert s.workers[id].index < MAX_WORKERS;
  }

  lemma WorkerKeepsCount(s: State, t: State, id: nat)
    requires Linked(s) && Locked(s) && Counted(s) && WorkerStep(s, t, id)
    ensures Counted(t)
  {
    hide Occupied;
    assert s.workers[id].index < MAX_WORKERS;
    if s.workers[id].phase.Deleting? {
      OccupiedUpdate(s.slots, s.workers[id].index, None);
    }
  }

  lemma WorkerKeepsRest(s: State, t: State, id: nat)
    requires Linked(s) && Locked(s) && Limited(s) && Accounted(s) && WorkerStep(s, t, id)
    ensures Limited(t) && Accounted(t) && t.maxClients == s.maxClients
  {
    hide Linked;
    if s.workers[id].phase.Cleared? {
      assert s.workers.Keys == t.workers.Keys + {id};
      assert |s.workers.Keys| == |s.workers| && |t.workers.Keys| == |t.workers|;
    } else {
      assert t.workers.Keys == s.workers.Keys;
      assert |s.workers.Keys| == |s.workers| && |t.workers.Keys| == |t.workers|;
    }
  }

  lemma WorkerKeepsInv(s: State, t: State, id: nat)
    requires Inv(s) && WorkerStep(s, t, id)
    ensures Inv(t) && t.maxClients == s.maxClients
  {
    WorkerKeepsLinks(s, t, id);
    WorkerKeepsCount(s, t, id);
    WorkerKeepsRest(s, t, id);
    hide Linked, Locked, Counted, Limited, Accounted, WorkerStep;
  }

  lemma {:induction false} RunKeepsInv(run: seq<State>, i: nat)
    requires IsRun(run) && i < |run| && Inv(run[0])
    ensures Inv(run[i]) && run[i].maxClients == run[0].maxClients
  {
    hide Inv, ListenerStep, WorkerStep;
    if i > 0 {
      RunKeepsInv(run, i - 1);
      assert Next(run[i - 1], run[i - 1 + 1]);
      if ListenerStep(run[i - 1], run[i]) {
        ListenerKeepsInv(run[i - 1], run[i]);
      } else {
        var id :| WorkerStep(run[i - 1], run[i], id);
        WorkerKeepsInv(run[i - 1], run[i], id);
      }
    }
  }

  /** Each live worker's index names its own slot, and no slot names anything else. */
  ghost predicate OwnSlots(s: State) {
    && (forall id :: id in s.workers ==> s.workers[id].index < |s.slots| && s.slots[s.workers[id].index] == Some(id))
    && (forall i :: 0 <= i < |s.slots| && s.slots[i].Some? ==>
          s.slots[i].value in s.workers && s.workers[s.slots[i].value].index == i)
  }

  /**
   In every state of every run: with the lock free the count is the number of occupied slots and of live
   workers, and workers and slots name each other; with or without it the limit holds and every connection
   that arrived is accounted for.
   */
  lemma TableIsRight(maxClients: int, run: seq<State>, i: nat)
    requires IsRun(run) && i < |run| && run[0] == Init(maxClients)
    ensures var s := run[i];
            && (s.lock == Free ==> s.count == Occupied(s.slots) == |s.workers| <= 1024 && OwnSlots(s))
            && (maxClients > 0 ==> s.count <= maxClients)
            && Accounted(s)
  {
    hide IsRun, Init;
    InitInv(maxClients);
    InitLimit(maxClients);
    RunKeepsInv(run, i);
    StateIsRight(run[i]);
  }

  lemma InitLimit(maxClients: int)
    ensures Init(maxClients).maxClients == maxClients
  {
  }

  lemma StateIsRight(s: State)
    requires Inv(s)
    ensures s.lock == Free ==> s.count == Occupied(s.slots) == |s.workers| <= MAX_WORKERS && OwnSlots(s)
    ensures s.maxClients > 0 ==> s.count <= s.maxClients
  {
    hide Occupied;
  }

  /** A connection is turned away for lack of room only where the limit, if any, exceeds the table, and then the table is full. */
  lemma NoRoomOnlyIf(maxClients: int, run: seq<State>, i: nat)
    requires IsRun(run) && i + 1 < |run| && run[0] == Init(maxClients)
    requires run[i + 1].noRoom == run[i].noRoom + 1
    ensures (maxClients == 0 || maxClients > 1024) && run[i].count == 1024
  {
    hide Init;
    InitInv(maxClients);
    InitLimit(maxClients);
    RunKeepsInv(run, i);
    assert Next(run[i], run[i + 1]);
    NoRoomStep(run[i], run[i + 1]);
  }

  lemma NoRoomStep(s: State, t: State)
    requires Inv(s) && Next(s, t) && t.noRoom == s.noRoom + 1
    ensures (s.maxClients == 0 || s.maxClients > MAX_WORKERS) && s.count == MAX_WORKERS
  {
    hide Occupied;
    FullIff(s.slots);
  }

  /**
   A connection is rejected only where there is a limit and that many are served already; one that finds no limit, or
   fewer served than it allows, passes the check.
   */
  lemma RejectedIff(maxClients: int, run: seq<State>, i: nat)
    requires IsRun(run) && i + 1 < |run| && run[0] == Init(maxClients)
    requires run[i].accepting.Arrived? && !run[i + 1].accepting.Arrived?
    ensures run[i + 1].rejected == run[i].rejected + 1 <==> maxClients != 0 && run[i].count >= maxClients
    ensures run[i + 1].accepting.Allowed? <==> maxClients == 0 || run[i].count < maxClients
  {
    hide Init;
    InitInv(maxClients);
    InitLimit(maxClients);
    RunKeepsInv(run, i);
    assert Next(run[i], run[i + 1]);
    CheckStep(run[i], run[i + 1]);
  }

  lemma CheckStep(s: State, t: State)
    requires Next(s, t) && s.accepting.Arrived?
    ensures t.accepting.Arrived? ==> t.rejected == s.rejected
    ensures !t.accepting.Arrived? ==>
              && (t.rejected == s.rejected + 1 <==> s.maxClients != 0 && s.count >= s.maxClients)
              && (t.accepting.Allowed? <==> s.maxClients == 0 || s.count < s.maxClients)
  {
  }

  /** At no other moment is a connection rejected. */
  lemma RejectedOnArrival(maxClients: int, run: seq<State>, i: nat)
    requires IsRun(run) && i + 1 < |run| && run[0] == Init(maxClients)
    requires run[i + 1].rejected != run[i].rejected
    ensures run[i].accepting.Arrived? && run[i + 1].accepting.Idle? && run[i + 1].rejected == run[i].rejected + 1
    ensures maxClients != 0 && run[i].count >= maxClients
  {
    hide Init;
    InitInv(maxClients);
    InitLimit(maxClients);
    RunKeepsInv(run, i);
    assert Next(run[i], run[i + 1]);
    RejectingStep(run[i], run[i + 1]);
  }

  lemma RejectingStep(s: State, t: State)
    requires Next(s, t) && t.rejected != s.rejected
    ensures s.accepting.Arrived? && t.accepting.Idle? && t.rejected == s.rejected + 1
    ensures s.maxClients != 0 && s.count >= s.maxClients
  {
  }

  /** A worker that gets a slot gets the first one that is free. */
  lemma FillsFirstFree(run: seq<State>, i: nat)
    requires IsRun(run) && i + 1 < |run| && run[i].accepting.Holding? && run[i + 1].accepting.Filled?
    ensures var idx := run[i + 1].accepting.idx;
            && idx < |run[i].slots| && run[i].slots[idx] == None
            && (forall j :: 0 <= j < idx ==> run[i].slots[j].Some?)
            && run[i + 1].slots == run[i].slots[idx := Some(run[i].issued)]
            && run[i + 1].workers == run[i].workers[run[i].issued := Thread(idx, Serving)]
  {
    assert Next(run[i], run[i + 1]);
  }
}
