/**
 The hand-off of a job from the caller to the client's worker thread, as interleaved atomic steps:
 one thread making calls, synchronous or not, and the worker; Job.Pending and two auto-reset events
 are all that keeps them apart. No lock protects any of it.
 */
module AsyncJob {
  import opened S7Types

  datatype Field = Op | Area | Number | Start | Amount | WordLen | IParam | PData | OpData | Other(n: nat)

  datatype Fields = Fields(values: map<Field, int>) {
    function Put(w: Assignment): Fields { Fields(values[w.field := w.value]) }
  }

  datatype Assignment = Assignment(field: Field, value: int)

  const OP_READ_AREA := 1
  const OP_WRITE_AREA := 2
  const OP_DB_GET := 5
  const OP_DOWNLOAD := 7
  const OP_COPY_RAM_TO_ROM := 22
  const OP_COMPRESS := 23
  const OP_DATA_SIZE := 65536

  /**
   What the program calls. `Async` and `Sync` stand for the calls that set their fields and check nothing, or have
   passed the checks they make first. Pointers and buffer contents are numbers that only travel.
   */
  datatype Request =
    | Async(want: seq<Assignment>)
    | Sync(want: seq<Assignment>)
    | AsReadArea(area: int, dbNumber: int, start: int, amount: int, wordLen: int, usrData: int)
    | AsWriteArea(area: int, dbNumber: int, start: int, amount: int, wordLen: int, data: int)
    | AsCopyRamToRom(timeout: int)
    | AsCompress(timeout: int)
    | AsDownload(blockNum: int, size: int, data: int)
    | AsDBGet(dbNumber: int, size: int, usrData: int)

  /** What is left of `x` in a signed 32-bit integer. */
  function Int32(x: int): int {
    if x % LONG < LONG / 2 then x % LONG else x % LONG - LONG
  }

  /** Arguments refused before Pending is set. */
  predicate RefusedEarly(q: Request) {
    (q.AsDownload? && q.size < 1) || (q.AsDBGet? && q.size <= 0)
  }

  /** Arguments refused after Pending has been set: a wrong word length or total size, or a timeout that is not positive. */
  predicate RefusedLate(q: Request) {
    match q
    case AsWriteArea(_, _, _, amount, wordLen, _) =>
      DataSizeByte(wordLen) == 0 || !(1 <= Int32(DataSizeByte(wordLen) * amount) <= OP_DATA_SIZE)
    case AsCopyRamToRom(timeout) => timeout <= 0
    case AsCompress(timeout) => timeout <= 0
    case _ => false
  }

  /**
   The body of a call: the job fields it sets, in order, and whether it runs the operation itself. `stop` is the
   number of fields set when an argument check fails.
   */
  datatype Call = Call(want: seq<Assignment>, sync: bool, stop: Option<nat>)

  function CheckedAfter(q: Request, count: nat, want: seq<Assignment>): Call {
    Call(want, false, if RefusedLate(q) then Some(count) else None)
  }

  function CallOf(q: Request): Call {
    match q
    case Async(want) => Call(want, false, None)
    case Sync(want) => Call(want, true, None)
    case AsReadArea(area, dbNumber, start, amount, wordLen, usrData) =>
      Call([Assignment(Op, OP_READ_AREA), Assignment(Area, area), Assignment(Number, dbNumber), Assignment(Start, start),
            Assignment(Amount, amount), Assignment(WordLen, wordLen), Assignment(PData, usrData)], false, None)
    case AsWriteArea(area, dbNumber, start, amount, wordLen, data) =>
      CheckedAfter(q, 4, [Assignment(Op, OP_WRITE_AREA), Assignment(Area, area), Assignment(Number, dbNumber), Assignment(Start, start),
                          Assignment(Amount, amount), Assignment(WordLen, wordLen), Assignment(OpData, data), Assignment(PData, 0)])
    case AsCopyRamToRom(timeout) => CheckedAfter(q, 1, [Assignment(Op, OP_COPY_RAM_TO_ROM), Assignment(IParam, timeout)])
    case AsCompress(timeout) => CheckedAfter(q, 1, [Assignment(Op, OP_COMPRESS), Assignment(IParam, timeout)])
    case AsDownload(blockNum, size, data) =>
      Call([Assignment(Op, OP_DOWNLOAD), Assignment(OpData, data), Assignment(Number, blockNum), Assignment(Amount, size)], false, None)
    case AsDBGet(dbNumber, size, usrData) =>
      Call([Assignment(Op, OP_DB_GET), Assignment(Number, dbNumber), Assignment(PData, usrData), Assignment(Amount, size)], false, None)
  }

  datatype Caller = Idle | Checked | Filling | Resetting | Setting | InOp | Ending

  datatype Worker = Waiting | Working | Storing | Signalling | Calling

  /** The call under way: what it wants, how many fields it has set, and what the fields were before. */
  datatype Progress = Progress(c: Call, n: nat, base: Fields)

  /** Jobs submitted, as their calls want them, jobs begun, as the operation finds them, and results of jobs ended. */
  datatype History = History(accepted: seq<Fields>, started: seq<Fields>, results: seq<int>)

  /** Shared fields, both program counters, the call under way, and the history. */
  datatype State = State(
    pending: bool, fields: Fields, result: int, created: bool, evtJob: bool, evtComplete: bool,
    caller: Caller, worker: Worker, call: Progress, log: History, stuck: bool)

  /** `r` is what the operation returns, when it ends; an operation may use the job fields as its own variables. */
  datatype Action =
    | Begin(q: Request)
    | CallerMoves(r: int)
    | WorkerMoves(r: int)
    | OpWrites(w: Assignment)
    | Wait

  const NO_CALL := Progress(Call([], true, None), 0, Fields(map[]))
  const INIT := State(false, Fields(map[]), 0, false, false, false, Idle, Waiting, NO_CALL, History([], [], []), false)

  function Assign(base: Fields, ws: seq<Assignment>): Fields {
    if ws == [] then base else Assign(base, ws[..|ws| - 1]).Put(ws[|ws| - 1])
  }

  function Submitted(h: History, job: Fields): History {
    h.(accepted := h.accepted + [job])
  }

  function Begun(h: History, job: Fields): History {
    h.(started := h.started + [job])
  }

  function Ended(h: History, r: int): History {
    h.(results := h.results + [r])
  }

  /** The job as the call under way wants it. */
  function Wanted(p: Progress): Fields {
    Assign(p.base, p.c.want)
  }

  function CallerFills(s: State): State {
    var p := s.call;
    if p.c.stop == Some(p.n) then s.(caller := Idle, stuck := true)
    else if p.n < |p.c.want| then
      s.(fields := s.fields.Put(p.c.want[p.n]), call := p.(n := p.n + 1))
    else if p.c.sync then s.(caller := InOp, log := Begun(Submitted(s.log, Wanted(p)), s.fields))
    else s.(caller := Resetting)
  }

  function CallerStep(s: State, r: int): State {
    match s.caller
    case Idle => s
    case Checked => s.(pending := true, caller := Filling, call := s.call.(n := 0, base := s.fields))
    case Filling => CallerFills(s)
    case Resetting => s.(created := true, evtComplete := false, caller := Setting)
    case Setting => s.(evtJob := true, log := Submitted(s.log, Wanted(s.call)), caller := Idle)
    case InOp => s.(result := r, caller := Ending)
    case Ending => s.(pending := false, log := Ended(s.log, s.result), caller := Idle)
  }

  function WorkerStep(s: State, r: int): State {
    match s.worker
    case Waiting =>
      if s.evtJob then s.(evtJob := false, log := Begun(s.log, s.fields), worker := Working) else s
    case Working => s.(result := r, worker := Storing)
    case Storing => s.(pending := false, log := Ended(s.log, s.result), worker := Signalling)
    case Signalling => s.(evtComplete := true, worker := Calling)
    case Calling => s.(worker := Waiting)
  }

  predicate Running(s: State) {
    s.caller.InOp? || s.worker.Working?
  }

  predicate Accepts(s: State, q: Request) {
    s.caller.Idle? && !s.pending && !RefusedEarly(q)
  }

  function Step(s: State, a: Action): State {
    match a
    case Begin(q) => if Accepts(s, q) then s.(caller := Checked, call := Progress(CallOf(q), 0, s.fields)) else s
    case CallerMoves(r) => CallerStep(s, r)
    case WorkerMoves(r) => WorkerStep(s, r)
    case OpWrites(w) => if Running(s) then s.(fields := s.fields.Put(w)) else s
    case Wait => if s.caller.Idle? && s.pending && s.created && s.evtComplete then s.(evtComplete := false) else s
  }

  /** What a caller that polls or waits is told: the result once the job is done, nothing while it is not. */
  function CheckAsCompletion(s: State): Option<int> {
    if s.pending then None else Some(s.result)
  }

  function WaitAsCompletion(s: State): Option<int> {
    if !s.pending || (s.created && s.evtComplete) then Some(s.result) else None
  }

  function Run(s: State, acts: seq<Action>): State {
    if acts == [] then s else Step(Run(s, acts[..|acts| - 1]), acts[|acts| - 1])
  }

  // ---------------------------------------------------------------- the invariant

  function One(b: bool): nat {
    if b then 1 else 0
  }

  predicate CallerOwns(s: State) {
    s.caller.Filling? || s.caller.Resetting? || s.caller.Setting? || s.caller.InOp? || s.caller.Ending?
  }

  predicate WorkerOwns(s: State) {
    s.worker.Working? || s.worker.Storing?
  }

  predicate Busy(s: State) {
    WorkerOwns(s) || s.caller.InOp? || s.caller.Ending?
  }

  /** Exactly one of caller, event, worker or a broken-off call holds the job while it is pending, and none otherwise. */
  ghost predicate OneOwner(s: State) {
    && One(CallerOwns(s)) + One(s.evtJob) + One(WorkerOwns(s)) + One(s.stuck) == One(s.pending)
    && (s.caller.Checked? ==> !s.pending)
    && (!s.worker.Waiting? || s.evtJob || s.caller.Setting? ==> s.created)
  }

  /** The fields hold what the call under way has set so far, and the whole job once it is filled in. */
  ghost predicate FieldsFollow(s: State) {
    && (s.caller.Filling? ==> s.call.n <= |s.call.c.want| && s.fields == Assign(s.call.base, s.call.c.want[..s.call.n]))
    && (s.caller.Resetting? || s.caller.Setting? ==> s.fields == Wanted(s.call))
  }

  /** Every submitted job is begun once and in order, as submitted; every job begun ends once. */
  ghost predicate HistoryFits(s: State) {
    && s.log.accepted == (if s.evtJob then Begun(s.log, s.fields) else s.log).started
    && |s.log.results| + One(Busy(s)) == |s.log.started|
    && (s.log.results != [] && !s.caller.Ending? && !s.worker.Storing? ==> s.result == s.log.results[|s.log.results| - 1])
  }

  ghost predicate Inv(s: State) {
    OneOwner(s) && FieldsFollow(s) && HistoryFits(s)
  }

  lemma AssignOneMore(base: Fields, ws: seq<Assignment>, n: nat)
    requires n < |ws|
    ensures Assign(base, ws[..n + 1]) == Assign(base, ws[..n]).Put(ws[n])
  {
    assert ws[..n + 1][..n] == ws[..n];
  }

  lemma CallerKeepsOwner(s: State, r: int)
    requires OneOwner(s)
    ensures OneOwner(CallerStep(s, r))
  {
    hide Assign;
  }

  lemma FillKeepsFields(s: State)
    requires s.caller.Filling? && FieldsFollow(s)
    ensures FieldsFollow(CallerFills(s))
  {
    var p := s.call;
    hide Assign, Fields.Put;
    if p.n < |p.c.want| { AssignOneMore(p.base, p.c.want, p.n); } else { assert p.c.want[..p.n] == p.c.want; }
  }

  lemma CallerKeepsFields(s: State, r: int)
    requires FieldsFollow(s)
    ensures FieldsFollow(CallerStep(s, r))
  {
    hide CallerFills, Assign;
    if s.caller.Filling? {
      FillKeepsFields(s);
      hide FieldsFollow;
    } else {
      assert s.call.c.want[..0] == [];
      NothingAssigned(s.fields);
    }
  }

  lemma NothingAssigned(base: Fields)
    ensures Assign(base, []) == base
  {
  }

  lemma CallerKeepsHistory(s: State, r: int)
    requires OneOwner(s) && FieldsFollow(s) && HistoryFits(s)
    ensures HistoryFits(CallerStep(s, r))
  {
    hide CallerFills, Assign, FieldsFollow;
    if s.caller.Filling? {
      FillKeepsHistory(s);
      hide HistoryFits;
    } else if s.caller.Setting? {
      SubmittedIsWanted(s);
    }
  }

  lemma SubmittedIsWanted(s: State)
    requires FieldsFollow(s) && (s.caller.Setting? || (s.caller.Filling? && s.call.n == |s.call.c.want|))
    ensures s.fields == Wanted(s.call)
  {
    assert s.call.c.want[..|s.call.c.want|] == s.call.c.want;
    hide Assign;
  }

  lemma BegunAtOnce(h: History, job: Fields)
    ensures var g := Begun(Submitted(h, job), job);
            && g.results == h.results && |g.started| == |h.started| + 1
            && (h.accepted == h.started ==> g.accepted == g.started)
  {
  }

  lemma CallerAlone(s: State)
    requires OneOwner(s) && CallerOwns(s)
    ensures !s.evtJob && !WorkerOwns(s) && !s.stuck
  {
  }

  lemma FillKeepsHistory(s: State)
    requires s.caller.Filling? && OneOwner(s) && FieldsFollow(s) && HistoryFits(s)
    ensures HistoryFits(CallerFills(s))
  {
    hide Assign, Wanted, Fields.Put, OneOwner;
    CallerAlone(s);
    if s.call.n == |s.call.c.want| { SubmittedIsWanted(s); }
    hide FieldsFollow;
    hide Submitted, Begun, Ended;
    BegunAtOnce(s.log, s.fields);
  }

  lemma CallerKeepsInv(s: State, r: int)
    requires Inv(s)
    ensures Inv(CallerStep(s, r))
  {
    CallerKeepsOwner(s, r);
    CallerKeepsFields(s, r);
    CallerKeepsHistory(s, r);
    hide OneOwner, FieldsFollow, HistoryFits, Assign;
  }

  lemma WorkerKeepsOwner(s: State, r: int)
    requires OneOwner(s) && FieldsFollow(s)
    ensures var t := WorkerStep(s, r); OneOwner(t) && FieldsFollow(t)
  {
    hide Assign, Wanted;
  }

  lemma WorkerAlone(s: State)
    requires OneOwner(s)
    ensures s.evtJob || WorkerOwns(s) ==> !CallerOwns(s) && !s.caller.InOp? && !s.caller.Ending?
    ensures !(s.evtJob && WorkerOwns(s))
  {
  }

  lemma LogFacts(h: History, job: Fields, r: int)
    ensures var g := Begun(h, job); g.accepted == h.accepted && g.results == h.results && |g.started| == |h.started| + 1
    ensures var g := Ended(h, r); g.accepted == h.accepted && g.started == h.started
                                  && |g.results| == |h.results| + 1 && g.results[|h.results|] == r
  {
  }

  lemma WorkerKeepsHistory(s: State, r: int)
    requires OneOwner(s) && HistoryFits(s)
    ensures HistoryFits(WorkerStep(s, r))
  {
    hide OneOwner, Begun, Ended, Submitted;
    WorkerAlone(s);
    LogFacts(s.log, s.fields, s.result);
    match s.worker { case Waiting => case Working => case Storing => case Signalling => case Calling => }
  }

  lemma WorkerKeepsInv(s: State, r: int)
    requires Inv(s)
    ensures Inv(WorkerStep(s, r))
  {
    hide OneOwner, FieldsFollow, HistoryFits, WorkerStep;
    WorkerKeepsOwner(s, r);
    WorkerKeepsHistory(s, r);
  }

  lemma StepKeepsInv(s: State, a: Action)
    requires Inv(s)
    ensures Inv(Step(s, a))
  {
    hide CallerStep, WorkerStep;
    match a
    case CallerMoves(r) => CallerKeepsInv(s, r);
    case WorkerMoves(r) => WorkerKeepsInv(s, r);
    case _ =>
  }

  lemma {:induction false} RunKeepsInv(s: State, acts: seq<Action>)
    requires Inv(s)
    ensures Inv(Run(s, acts))
  {
    hide Step, Inv;
    if acts != [] {
      RunKeepsInv(s, acts[..|acts| - 1]);
      StepKeepsInv(Run(s, acts[..|acts| - 1]), acts[|acts| - 1]);
    }
  }

  ghost predicate Reachable(s: State) {
    exists acts :: s == Run(INIT, acts)
  }

  lemma ReachableInv(s: State)
    requires Reachable(s)
    ensures Inv(s)
  {
    var acts :| s == Run(INIT, acts);
    RunKeepsInv(INIT, acts);
  }

  // ---------------------------------------------------------------- what every run keeps

  /** At most one thread is inside an operation, in every reachable interleaving. */
  lemma MutualExclusion(s: State)
    requires Reachable(s)
    ensures !(s.caller.InOp? && s.worker.Working?) && (Busy(s) ==> s.pending && !s.evtJob)
  {
    ReachableInv(s);
  }

  /** Job fields change only while no other thread runs a job and no job waits: in a submission, or in the one running operation. */
  lemma FieldsChangeSafely(s: State, a: Action)
    requires Reachable(s) && Step(s, a).fields != s.fields
    ensures s.pending && !s.evtJob
    ensures if a.OpWrites? then s.caller.InOp? != s.worker.Working? else a.CallerMoves? && s.caller.Filling? && !Busy(s)
  {
    ReachableInv(s);
  }

  /** Submitted jobs are begun in order, each once and with the fields as submitted; at most one is waiting. */
  lemma BegunOnceInOrder(s: State)
    requires Reachable(s)
    ensures s.log.started <= s.log.accepted && |s.log.accepted| <= |s.log.started| + 1
    ensures |s.log.started| < |s.log.accepted| <==> s.evtJob
    ensures !s.pending ==> s.log.started == s.log.accepted && |s.log.results| == |s.log.accepted|
  {
    ReachableInv(s);
  }

  /** Polling answers only when all submitted jobs have ended, with the result of the last. */
  lemma PollIsRight(s: State)
    requires Reachable(s) && CheckAsCompletion(s).Some? && s.log.accepted != []
    ensures |s.log.results| == |s.log.accepted| && CheckAsCompletion(s) == Some(s.log.results[|s.log.results| - 1])
  {
    ReachableInv(s);
  }

  lemma RunMore(s: State, acts: seq<Action>, a: Action)
    ensures Run(s, acts + [a]) == Step(Run(s, acts), a)
  {
    hide Step;
    assert (acts + [a])[..|acts|] == acts;
  }

  /** A call without fields is submitted in four moves, whatever the worker is doing. */
  function Submission(s: State): State {
    Step(Step(Step(Step(s, Begin(Async([]))), CallerMoves(0)), CallerMoves(0)), CallerMoves(0))
  }

  lemma {:induction false} SubmissionIsRun(s: State, acts: seq<Action>) returns (more: seq<Action>)
    ensures Run(s, more) == Submission(Run(s, acts))
  {
    hide Step;
    more := acts + [Begin(Async([]))];
    RunMore(s, acts, Begin(Async([])));
    RunMore(s, more, CallerMoves(0));
    RunMore(s, more + [CallerMoves(0)], CallerMoves(0));
    RunMore(s, more + [CallerMoves(0)] + [CallerMoves(0)], CallerMoves(0));
    more := more + [CallerMoves(0)] + [CallerMoves(0)] + [CallerMoves(0)];
  }

  lemma SubmissionSets(s: State)
    requires s.caller.Idle? && !s.pending
    ensures var t := Submission(s);
            && t.caller.Setting? && t.pending && t.created && !t.evtComplete && t.call.c == Call([], false, None)
            && t.worker == s.worker && t.evtJob == s.evtJob && t.result == s.result && t.log == s.log && t.stuck == s.stuck
  {
    hide Assign, Submitted, Begun;
  }

  /**
   A wait can return too early: the worker, done with the first job, sets the completion event after the
   second submission has reset it. The caller then gets the first job's result while the second has not begun.
   */
  lemma LateSignal() returns (acts: seq<Action>)
    ensures var s := Run(INIT, acts);
            && s.caller.Idle? && !s.stuck && |s.log.accepted| == 2
            && s.log.results == [7] && s.evtJob && WaitAsCompletion(s) == Some(7)
  {
    hide Submission;
    var hand, move := CallerMoves(0), WorkerMoves(7);
    assert Run(INIT, []) == INIT;
    acts := SubmissionIsRun(INIT, []);
    SubmissionSets(INIT);
    RunMore(INIT, acts, hand);
    acts := acts + [hand];
    assert Run(INIT, acts).evtJob && |Run(INIT, acts).log.accepted| == 1;
    RunMore(INIT, acts, move);
    RunMore(INIT, acts + [move], move);
    RunMore(INIT, acts + [move] + [move], move);
    acts := acts + [move] + [move] + [move];
    var s := Run(INIT, acts);
    assert s.worker.Signalling? && !s.pending && s.log.results == [7];
    acts := SubmissionIsRun(INIT, acts);
    SubmissionSets(s);
    RunMore(INIT, acts, move);
    RunMore(INIT, acts + [move], hand);
    acts := acts + [move] + [hand];
  }

  ghost predicate NoCalls(acts: seq<Action>) {
    forall i :: 0 <= i < |acts| ==> !acts[i].Begin?
  }

  lemma RunUnfolds(s: State, acts: seq<Action>)
    ensures Run(s, acts) == if acts == [] then s else Step(Run(s, acts[..|acts| - 1]), acts[|acts| - 1])
  {
    hide Step;
  }

  /** A submission under way, with the worker out of the way, and what becomes of it while no other call is made. */
  ghost predicate InTime(s: State) {
    match s.caller
    case Resetting => !s.evtJob && (s.worker.Waiting? || s.worker.Calling?)
    case Setting => !s.evtJob && !s.evtComplete && (s.worker.Waiting? || s.worker.Calling?)
    case Idle => s.log.accepted != [] && (s.pending ==> !s.evtComplete && !s.worker.Signalling?)
    case _ => false
  }

  lemma {:induction false} InTimeStays(s: State, acts: seq<Action>)
    requires InTime(s) && NoCalls(acts)
    ensures InTime(Run(s, acts))
  {
    hide Run, Step, InTime;
    RunUnfolds(s, acts);
    if acts != [] {
      InTimeStays(s, acts[..|acts| - 1]);
      var a := acts[|acts| - 1];
      assert !a.Begin?;
      InTimeStep(Run(s, acts[..|acts| - 1]), a);
    }
  }

  lemma InTimeStep(s: State, a: Action)
    requires InTime(s) && !a.Begin?
    ensures InTime(Step(s, a))
  {
    hide Assign, Wanted, Fields.Put;
    match a { case CallerMoves(_) => case WorkerMoves(_) => case _ => }
  }

  lemma ResettingAlone(s: State)
    requires Inv(s) && s.caller.Resetting? && !s.worker.Signalling?
    ensures InTime(s)
  {
    hide FieldsFollow, HistoryFits;
  }

  /**
   A wait for a job can answer while the job has not ended if and only if its submission comes to reset the
   completion event while the worker has ended the job before and not yet signalled that.
   */
  lemma WaitEarlyIff(s: State)
    requires Reachable(s) && s.caller.Resetting?
    ensures (exists acts :: NoCalls(acts) && var t := Run(s, acts); t.caller.Idle? && t.pending && WaitAsCompletion(t).Some?)
            <==> s.worker.Signalling?
  {
    ReachableInv(s);
    hide Inv;
    if s.worker.Signalling? {
      var hand, move := CallerMoves(0), WorkerMoves(0);
      var acts := [hand] + [move] + [hand];
      assert Run(s, []) == s;
      RunMore(s, [], hand);
      assert [] + [hand] == [hand];
      RunMore(s, [hand], move);
      RunMore(s, [hand] + [move], hand);
      SignalSlipsIn(s);
      assert NoCalls(acts);
    } else {
      ResettingAlone(s);
      forall acts | NoCalls(acts) ensures InTime(Run(s, acts)) {
        InTimeStays(s, acts);
      }
    }
  }

  lemma SignalSlipsIn(s: State)
    requires Inv(s) && s.caller.Resetting? && s.worker.Signalling?
    ensures var t := Step(Step(Step(s, CallerMoves(0)), WorkerMoves(0)), CallerMoves(0));
            t.caller.Idle? && t.pending && WaitAsCompletion(t).Some?
  {
    hide Assign, Wanted, FieldsFollow, HistoryFits;
  }

  /** Otherwise a wait answers as polling does: only when all submitted jobs have ended, with the result of the last. */
  lemma WaitIsRight(s: State, acts: seq<Action>)
    requires Reachable(s) && s.caller.Resetting? && !s.worker.Signalling? && NoCalls(acts)
    ensures var t := Run(s, acts);
            t.caller.Idle? && WaitAsCompletion(t).Some? ==>
              && WaitAsCompletion(t) == CheckAsCompletion(t)
              && |t.log.results| == |t.log.accepted| > 0 && WaitAsCompletion(t) == Some(t.log.results[|t.log.results| - 1])
  {
    ReachableInv(s);
    ResettingAlone(s);
    InTimeStays(s, acts);
    RunKeepsInv(s, acts);
    hide Run, Step;
  }

  // ---------------------------------------------------------------- calls broken off by a late check

  /** A call was accepted whose bad argument is noticed only after Pending has been set. */
  ghost predicate BrokenOff(acts: seq<Action>) {
    exists i :: 0 <= i < |acts| && BreaksAt(acts, i)
  }

  ghost predicate BreaksAt(acts: seq<Action>, i: nat)
    requires i < |acts|
  {
    acts[i].Begin? && RefusedLate(acts[i].q) && Accepts(Run(INIT, acts[..i]), acts[i].q)
  }

  /** The call under way has such an argument, or one before it had. */
  predicate Doomed(s: State) {
    s.stuck || (!s.caller.Idle? && s.call.c.stop.Some?)
  }

  /** A call stops at its check, which comes before its last field, and no call passes a failing check. */
  ghost predicate StopsInTime(s: State) {
    match s.caller
    case Idle => true
    case Checked => s.call.c.stop.Some? ==> s.call.c.stop.value <= |s.call.c.want|
    case Filling => s.call.c.stop.Some? ==> s.call.n <= s.call.c.stop.value <= |s.call.c.want|
    case _ => s.call.c.stop.None?
  }

  lemma CallsStop(q: Request)
    ensures var c := CallOf(q);
            (c.stop.Some? <==> RefusedLate(q)) && (c.stop.Some? ==> c.stop.value <= |c.want|)
  {
    hide Int32;
  }

  lemma StepDooms(s: State, a: Action)
    requires StopsInTime(s) && (s.stuck ==> s.caller.Idle? && s.pending)
    ensures var t := Step(s, a);
            && StopsInTime(t) && (t.stuck ==> t.caller.Idle? && (s.stuck || s.caller.Filling?))
            && (Doomed(t) <==> Doomed(s) || (a.Begin? && RefusedLate(a.q) && Accepts(s, a.q)))
  {
    hide Assign, Wanted, Fields.Put, CallOf, RefusedLate, RefusedEarly, Begun, Ended, Submitted;
    match a { case Begin(q) => CallsStop(q); case CallerMoves(_) => case WorkerMoves(_) => case _ => }
  }

  lemma BrokenOffUnfolds(acts: seq<Action>, a: Action)
    ensures BrokenOff(acts + [a]) <==> BrokenOff(acts) || (a.Begin? && RefusedLate(a.q) && Accepts(Run(INIT, acts), a.q))
  {
    hide Run, Step, RefusedLate, Accepts;
    var all := acts + [a];
    assert all[..|acts|] == acts;
    forall i | 0 <= i < |acts| ensures BreaksAt(all, i) <==> BreaksAt(acts, i) {
      assert all[..i] == acts[..i] && all[i] == acts[i];
    }
    assert all[|acts|] == a;
    if BrokenOff(acts) {
      var i :| 0 <= i < |acts| && BreaksAt(acts, i);
      assert BreaksAt(all, i);
    }
    if a.Begin? && RefusedLate(a.q) && Accepts(Run(INIT, acts), a.q) { assert BreaksAt(all, |acts|); }
  }

  lemma StuckIsPending(s: State)
    requires OneOwner(s) && s.stuck
    ensures s.pending && s.caller.Idle?
  {
  }

  /** The state remembers whether a call was broken off or is about to be. */
  lemma {:induction false} DoomedIff(acts: seq<Action>)
    ensures var s := Run(INIT, acts);
            Inv(s) && StopsInTime(s) && (Doomed(s) <==> BrokenOff(acts))
  {
    ReachableInv(Run(INIT, acts));
    assert StopsInTime(INIT) && !Doomed(INIT);
    hide Run, Step, Inv, StopsInTime, Doomed;
    RunUnfolds(INIT, acts);
    if acts == [] {
    } else {
      var before, a := acts[..|acts| - 1], acts[|acts| - 1];
      DoomedIff(before);
      var s := Run(INIT, before);
      if s.stuck { StuckIsPending(s); }
      StepDooms(s, a);
      BrokenOffUnfolds(before, a);
      assert before + [a] == acts;
    }
  }

  /** Steps left until the pending job has ended, when the threads just go on. */
  function Remaining(s: State): nat {
    match s.caller
    case Filling => if s.call.n <= |s.call.c.want| then |s.call.c.want| - s.call.n + 11 else 11
    case Resetting => 10
    case Setting => 9
    case InOp => 2
    case Ending => 1
    case _ => match s.worker { case Signalling => 8 case Calling => 7 case Waiting => 6 case Working => 2 case Storing => 1 }
  }

  lemma {:induction false} RunFirst(s: State, a: Action, acts: seq<Action>)
    ensures Run(s, [a] + acts) == Run(Step(s, a), acts)
  {
    hide Step;
    var all := [a] + acts;
    if acts == [] {
      assert all == [a] && all[..0] == [];
    } else {
      assert all[..|all| - 1] == [a] + acts[..|acts| - 1];
      RunFirst(s, a, acts[..|acts| - 1]);
    }
  }

  /** The thread that holds the pending job, or the worker when the job waits for it. */
  function NextMove(s: State): Action {
    if CallerOwns(s) then CallerMoves(0) else WorkerMoves(0)
  }

  lemma NextMoveAdvances(s: State)
    requires OneOwner(s) && FieldsFollow(s) && s.pending && !s.stuck
    ensures var t := Step(s, NextMove(s)); !t.pending || t.stuck || Remaining(t) < Remaining(s)
  {
    hide Assign, FieldsFollow;
    if CallerOwns(s) { CallerAdvances(s); } else { WorkerAdvances(s); }
  }

  lemma CallerAdvances(s: State)
    requires CallerOwns(s) && FieldsFollow(s) && s.pending
    ensures var t := CallerStep(s, 0); !t.pending || t.stuck || Remaining(t) < Remaining(s)
  {
    hide Assign, Wanted, CallerFills;
    if s.caller.Filling? { FillAdvances(s); }
  }

  lemma FillAdvances(s: State)
    requires s.caller.Filling? && s.call.n <= |s.call.c.want|
    ensures var t := CallerFills(s); t.stuck || Remaining(t) < Remaining(s)
  {
    hide Assign, Wanted;
  }

  lemma WorkerAdvances(s: State)
    requires OneOwner(s) && !CallerOwns(s) && s.pending && !s.stuck
    ensures var t := WorkerStep(s, 0); !t.pending || Remaining(t) < Remaining(s)
  {
  }

  /** Left alone, the threads end the pending job, or the call under way breaks off. */
  lemma {:induction false} Finishes(s: State) returns (acts: seq<Action>)
    requires Inv(s)
    ensures NoCalls(acts) && (!Run(s, acts).pending || Run(s, acts).stuck)
    decreases if s.pending && !s.stuck then Remaining(s) + 1 else 0
  {
    acts := [];
    if s.pending && !s.stuck {
      var a := NextMove(s);
      NextMoveAdvances(s);
      StepKeepsInv(s, a);
      hide Step, Inv, Remaining;
      var rest := Finishes(Step(s, a));
      RunFirst(s, a, rest);
      acts := [a] + rest;
    }
  }

  lemma {:induction false} DoomStays(s: State, acts: seq<Action>)
    requires Inv(s) && StopsInTime(s) && NoCalls(acts)
    ensures var t := Run(s, acts);
            Inv(t) && StopsInTime(t) && (Doomed(t) <==> Doomed(s)) && (!s.caller.Checked? ==> !t.caller.Checked?)
  {
    hide Run, OneOwner, FieldsFollow, HistoryFits, Doomed, StopsInTime;
    RunUnfolds(s, acts);
    if acts != [] {
      var before, a := acts[..|acts| - 1], acts[|acts| - 1];
      assert !a.Begin?;
      DoomStays(s, before);
      var t := Run(s, before);
      if t.stuck { StuckIsPending(t); }
      StepDooms(t, a);
      StepKeepsInv(t, a);
      if !t.caller.Checked? { NeverChecked(t, a); }
      hide Step;
    }
  }

  lemma NeverChecked(s: State, a: Action)
    requires !a.Begin? && !s.caller.Checked?
    ensures !Step(s, a).caller.Checked?
  {
    hide Assign, Wanted, Fields.Put, Begun, Ended, Submitted;
    match a { case CallerMoves(_) => case WorkerMoves(_) => case _ => }
  }

  lemma IdleWhenDone(s: State)
    requires OneOwner(s) && !s.caller.Checked?
    ensures !s.pending ==> s.caller.Idle?
  {
  }

  /** Without another call, the threads can bring the client back to where it takes one. */
  ghost predicate CanFinish(s: State) {
    exists acts :: NoCalls(acts) && var t := Run(s, acts); t.caller.Idle? && !t.pending
  }

  lemma CanFinishIff(s: State)
    requires Inv(s) && StopsInTime(s)
    ensures CanFinish(s) <==> !Doomed(s)
  {
    hide Run, OneOwner, FieldsFollow, HistoryFits, StopsInTime, Step;
    if Doomed(s) {
      forall acts | NoCalls(acts) ensures !(Run(s, acts).caller.Idle? && !Run(s, acts).pending) {
        DoomStays(s, acts);
        if Run(s, acts).stuck { StuckIsPending(Run(s, acts)); }
      }
    } else {
      var acts := FinishesIdle(s);
    }
  }

  lemma FinishesIdle(s: State) returns (acts: seq<Action>)
    requires Inv(s) && StopsInTime(s) && !Doomed(s)
    ensures NoCalls(acts) && Run(s, acts).caller.Idle? && !Run(s, acts).pending
  {
    var first := if s.caller.Checked? then [CallerMoves(0)] else [];
    var s1 := if s.caller.Checked? then Step(s, CallerMoves(0)) else s;
    assert !s1.caller.Checked?;
    if s.caller.Checked? { RunMore(s, [], CallerMoves(0)); assert [] + first == first; }
    assert Run(s, first) == s1;
    DoomStays(s, first);
    hide Run, OneOwner, FieldsFollow, HistoryFits, StopsInTime, Step;
    var rest := Finishes(s1);
    DoomStays(s1, rest);
    if first == [] {
      acts := rest;
    } else {
      RunFirst(s, CallerMoves(0), rest);
      acts := first + rest;
    }
    assert Run(s, acts) == Run(s1, rest);
    IdleWhenDone(Run(s, acts));
  }

  /**
   After any run the client can get back to where it takes another job if and only if no call was accepted whose
   late check fails: a word length without a size, a total size outside 1 to 65536, a timeout that is not positive.
   */
  lemma UsableIff(acts: seq<Action>)
    ensures CanFinish(Run(INIT, acts)) <==> !BrokenOff(acts)
  {
    hide Run, Inv, StopsInTime, Doomed, CanFinish, BrokenOff;
    DoomedIff(acts);
    CanFinishIff(Run(INIT, acts));
  }

  /** An accepted call leaves the client unusable if and only if its late check fails, told in the call's own arguments. */
  lemma AcceptedCallUsableIff(acts: seq<Action>, q: Request)
    requires Accepts(Run(INIT, acts), q)
    ensures CanFinish(Step(Run(INIT, acts), Begin(q))) <==>
            match q
            case AsWriteArea(_, _, _, amount, wordLen, _) =>
              var w := if wordLen in {1, 2, 3} then 1 else if wordLen in {4, 5, 0x1C, 0x1D} then 2 else if wordLen in {6, 7, 8} then 4 else 0;
              1 <= w * amount % 0x1_0000_0000 <= 65536
            case AsCopyRamToRom(timeout) => timeout > 0
            case AsCompress(timeout) => timeout > 0
            case _ => true
  {
    LateChecks(q);
    AcceptedUnlessLate(acts, q);
  }

  lemma LateChecks(q: Request)
    ensures !RefusedLate(q) <==>
            match q
            case AsWriteArea(_, _, _, amount, wordLen, _) =>
              var w := if wordLen in {1, 2, 3} then 1 else if wordLen in {4, 5, 0x1C, 0x1D} then 2 else if wordLen in {6, 7, 8} then 4 else 0;
              1 <= w * amount % 0x1_0000_0000 <= 65536
            case AsCopyRamToRom(timeout) => timeout > 0
            case AsCompress(timeout) => timeout > 0
            case _ => true
  {
    if q.AsWriteArea? && DataSizeByte(q.wordLen) == 0 { assert 0 * q.amount == 0; }
  }

  lemma AcceptedUnlessLate(acts: seq<Action>, q: Request)
    requires Accepts(Run(INIT, acts), q)
    ensures CanFinish(Step(Run(INIT, acts), Begin(q))) <==> !RefusedLate(q)
  {
    var s := Run(INIT, acts);
    DoomedIff(acts);
    if s.stuck { StuckIsPending(s); }
    assert !Doomed(s);
    hide Run, Step, Inv, StopsInTime, CanFinish, BrokenOff, RefusedLate;
    RunMore(INIT, acts, Begin(q));
    BrokenOffUnfolds(acts, Begin(q));
    UsableIff(acts + [Begin(q)]);
  }

  /**
   A call is refused, and leaves everything as it is, if and only if its first check fails, a call was broken off
   before, or a submitted job has not ended.
   */
  lemma RefusedIff(acts: seq<Action>, q: Request)
    requires Run(INIT, acts).caller.Idle?
    ensures var s := Run(INIT, acts);
            Step(s, Begin(q)) == s <==>
            || (q.AsDownload? && q.size < 1) || (q.AsDBGet? && q.size <= 0)
            || BrokenOff(acts) || |s.log.results| < |s.log.accepted|
  {
    DoomedIff(acts);
    hide Run, CallOf, BrokenOff, FieldsFollow;
  }

  /** Once a broken-off call has returned, no job is ever accepted, begun or ended again. */
  lemma {:induction false} StuckForever(acts: seq<Action>, more: seq<Action>)
    requires BrokenOff(acts) && Run(INIT, acts).caller.Idle?
    ensures var t := Run(Run(INIT, acts), more);
            t.caller.Idle? && t.pending && t.log == Run(INIT, acts).log
  {
    DoomedIff(acts);
    StuckStays(Run(INIT, acts), more);
  }

  lemma {:induction false} StuckStays(s: State, acts: seq<Action>)
    requires Inv(s) && s.stuck
    ensures var t := Run(s, acts);
            Inv(t) && t.stuck && t.caller.Idle? && t.pending && t.log == s.log
  {
    hide Run, Step, FieldsFollow, HistoryFits, OneOwner;
    RunUnfolds(s, acts);
    if acts == [] {
      StuckIsPending(s);
    } else {
      StuckStays(s, acts[..|acts| - 1]);
      var t := Run(s, acts[..|acts| - 1]);
      StuckStep(t, acts[|acts| - 1]);
      StepKeepsInv(t, acts[|acts| - 1]);
      StuckIsPending(Step(t, acts[|acts| - 1]));
    }
  }

  lemma StuckStep(s: State, a: Action)
    requires Inv(s) && s.stuck
    ensures Step(s, a).stuck && Step(s, a).log == s.log
  {
    hide FieldsFollow, HistoryFits;
  }

  // ---------------------------------------------------------------- what a job carries

  /** The requests accepted in a run that no late check refuses, in order. */
  ghost function Requests(acts: seq<Action>): seq<Request> {
    if acts == [] then []
    else
      var before, a := acts[..|acts| - 1], acts[|acts| - 1];
      Requests(before) + (if a.Begin? && Accepts(Run(INIT, before), a.q) && !RefusedLate(a.q) then [a.q] else [])
  }

  /** The job has the fields the request's arguments call for. */
  ghost predicate Carries(job: Fields, q: Request) {
    match q
    case AsReadArea(area, dbNumber, start, amount, wordLen, usrData) =>
      && Has(job, Op, 1) && Has(job, Area, area) && Has(job, Number, dbNumber) && Has(job, Start, start)
      && Has(job, Amount, amount) && Has(job, WordLen, wordLen) && Has(job, PData, usrData)
    case AsWriteArea(area, dbNumber, start, amount, wordLen, data) =>
      && Has(job, Op, 2) && Has(job, Area, area) && Has(job, Number, dbNumber) && Has(job, Start, start)
      && Has(job, Amount, amount) && Has(job, WordLen, wordLen) && Has(job, OpData, data)
    case AsCopyRamToRom(timeout) => Has(job, Op, 22) && Has(job, IParam, timeout)
    case AsCompress(timeout) => Has(job, Op, 23) && Has(job, IParam, timeout)
    case AsDownload(blockNum, size, data) =>
      Has(job, Op, 7) && Has(job, OpData, data) && Has(job, Number, blockNum) && Has(job, Amount, size)
    case AsDBGet(dbNumber, size, usrData) =>
      Has(job, Op, 5) && Has(job, Number, dbNumber) && Has(job, PData, usrData) && Has(job, Amount, size)
    case _ => true
  }

  ghost predicate Has(job: Fields, name: Field, value: int) {
    name in job.values && job.values[name] == value
  }

  predicate Distinct(ws: seq<Assignment>) {
    forall i, j :: 0 <= i < j < |ws| ==> ws[i].field != ws[j].field
  }

  /** Assignments to different fields all last. */
  lemma {:induction false} AssignmentsLast(base: Fields, ws: seq<Assignment>, i: nat)
    requires i < |ws| && Distinct(ws)
    ensures ws[i].field in Assign(base, ws).values && Assign(base, ws).values[ws[i].field] == ws[i].value
  {
    if i < |ws| - 1 { AssignmentsLast(base, ws[..|ws| - 1], i); }
  }

  lemma WantedCarries(base: Fields, q: Request)
    ensures Carries(Assign(base, CallOf(q).want), q)
  {
    var ws := CallOf(q).want;
    if !q.Async? && !q.Sync? {
      FieldsDiffer(q);
      forall i | 0 <= i < |ws| ensures Has(Assign(base, ws), ws[i].field, ws[i].value) {
        AssignmentsLast(base, ws, i);
      }
      hide Assign, RefusedLate, Has;
      WantedFields(Assign(base, ws), q);
    }
  }

  lemma FieldsDiffer(q: Request)
    requires !q.Async? && !q.Sync?
    ensures Distinct(CallOf(q).want)
  {
    hide RefusedLate;
  }

  lemma WantedFields(job: Fields, q: Request)
    requires !q.Async? && !q.Sync?
    requires var ws := CallOf(q).want; forall i :: 0 <= i < |ws| ==> Has(job, ws[i].field, ws[i].value)
    ensures Carries(job, q)
  {
    hide RefusedLate, Has;
    var ws := CallOf(q).want;
    assert Has(job, ws[0].field, ws[0].value) && Has(job, ws[1].field, ws[1].value);
    if |ws| > 2 { assert Has(job, ws[2].field, ws[2].value) && Has(job, ws[3].field, ws[3].value); }
    if |ws| > 4 {
      assert Has(job, ws[4].field, ws[4].value) && Has(job, ws[5].field, ws[5].value) && Has(job, ws[6].field, ws[6].value);
    }
  }

  /** A call that no late check refuses is on its way to its submission. */
  predicate OnItsWay(s: State) {
    (s.caller.Checked? || s.caller.Filling? || s.caller.Resetting? || s.caller.Setting?) && s.call.c.stop.None?
  }

  /** The jobs submitted carry the requests made, and the call on its way carries the last. */
  ghost predicate Carried(s: State, qs: seq<Request>) {
    && |qs| == |s.log.accepted| + One(OnItsWay(s))
    && (forall k :: 0 <= k < |s.log.accepted| ==> Carries(s.log.accepted[k], qs[k]))
    && (OnItsWay(s) ==> s.call.c == CallOf(qs[|qs| - 1]))
  }

  lemma OthersKeepCarried(s: State, a: Action, qs: seq<Request>)
    requires Carried(s, qs) && StopsInTime(s) && !a.Begin? && Step(s, a).log.accepted == s.log.accepted
    requires a.CallerMoves? ==> s.caller.Idle? || OnItsWay(Step(s, a)) == OnItsWay(s)
    ensures Carried(Step(s, a), qs)
  {
    hide Carries, Assign, Wanted, CallOf, Begun, Ended, Submitted, Fields.Put;
  }

  lemma SubmissionCarries(s: State, a: Action, qs: seq<Request>)
    requires Carried(s, qs) && OnItsWay(s) && a.CallerMoves?
    requires Step(s, a).log.accepted == s.log.accepted + [Wanted(s.call)] && !OnItsWay(Step(s, a))
    ensures Carried(Step(s, a), qs)
  {
    WantedCarries(s.call.base, qs[|qs| - 1]);
    var t := Step(s, a);
    hide Carries, Assign, CallOf, Step;
    forall k | 0 <= k < |t.log.accepted| ensures Carries(t.log.accepted[k], qs[k]) {
      if k < |s.log.accepted| { assert t.log.accepted[k] == s.log.accepted[k]; }
    }
  }

  lemma CallerKeepsCarried(s: State, r: int, qs: seq<Request>)
    requires Carried(s, qs) && StopsInTime(s)
    ensures Carried(Step(s, CallerMoves(r)), qs)
  {
    hide Carries, Assign, Wanted, CallOf, Carried, Fields.Put;
    if s.caller.Setting? || (s.caller.Filling? && s.call.n >= |s.call.c.want| && s.call.c.sync && s.call.c.stop.None?) {
      SubmissionCarries(s, CallerMoves(r), qs);
    } else {
      OthersKeepCarried(s, CallerMoves(r), qs);
    }
  }

  lemma StepKeepsCarried(s: State, a: Action, qs: seq<Request>)
    requires Carried(s, qs) && StopsInTime(s)
    ensures Carried(Step(s, a), qs + (if a.Begin? && Accepts(s, a.q) && !RefusedLate(a.q) then [a.q] else []))
  {
    hide Carries, Assign, Wanted, CallOf, RefusedLate, Carried, Begun, Ended, Submitted, CallerStep, Fields.Put, StopsInTime;
    assert qs + [] == qs;
    match a
    case Begin(q) =>
      CallsStop(q);
      BeginCarries(s, q, qs);
    case CallerMoves(r) => CallerKeepsCarried(s, r, qs);
    case _ =>
      OthersAccept(s, a);
      OthersKeepCarried(s, a, qs);
  }

  lemma OthersAccept(s: State, a: Action)
    requires !a.Begin? && !a.CallerMoves?
    ensures Step(s, a).log.accepted == s.log.accepted
  {
  }

  lemma BeginCarries(s: State, q: Request, qs: seq<Request>)
    requires Carried(s, qs) && (CallOf(q).stop.Some? <==> RefusedLate(q))
    ensures Carried(Step(s, Begin(q)), qs + (if Accepts(s, q) && !RefusedLate(q) then [q] else []))
  {
    hide Carries, Assign, Wanted, CallOf, RefusedLate;
    var more := if Accepts(s, q) && !RefusedLate(q) then [q] else [];
    forall k | 0 <= k < |s.log.accepted| ensures Carries(s.log.accepted[k], (qs + more)[k]) {
      assert (qs + more)[k] == qs[k];
    }
  }

  lemma {:induction false} RunKeepsCarried(acts: seq<Action>)
    ensures Carried(Run(INIT, acts), Requests(acts))
  {
    hide Run, Step, Carried, StopsInTime, Inv, Doomed, BrokenOff;
    RunUnfolds(INIT, acts);
    if acts == [] {
      NothingCarried();
    } else {
      var before := acts[..|acts| - 1];
      RunKeepsCarried(before);
      DoomedIff(before);
      StepKeepsCarried(Run(INIT, before), acts[|acts| - 1], Requests(before));
    }
  }

  lemma NothingCarried()
    ensures Carried(INIT, [])
  {
  }

  /**
   The job found when it is begun is the one asked for: after any run, the jobs begun are those of the first requests
   accepted, in order, and each has the operation and the fields that the arguments of its request say.
   */
  lemma BegunAsAsked(acts: seq<Action>, k: nat)
    requires k < |Run(INIT, acts).log.started|
    ensures k < |Requests(acts)|
    ensures var q, job := Requests(acts)[k], Run(INIT, acts).log.started[k].values;
            match q
            case AsReadArea(area, dbNumber, start, amount, wordLen, usrData) =>
              && Op in job && job[Op] == 1 && Area in job && job[Area] == area && Number in job && job[Number] == dbNumber
              && Start in job && job[Start] == start && Amount in job && job[Amount] == amount
              && WordLen in job && job[WordLen] == wordLen && PData in job && job[PData] == usrData
            case AsWriteArea(area, dbNumber, start, amount, wordLen, data) =>
              && Op in job && job[Op] == 2 && Area in job && job[Area] == area && Number in job && job[Number] == dbNumber
              && Start in job && job[Start] == start && Amount in job && job[Amount] == amount
              && WordLen in job && job[WordLen] == wordLen && OpData in job && job[OpData] == data
            case AsCopyRamToRom(timeout) => Op in job && job[Op] == 22 && IParam in job && job[IParam] == timeout
            case AsCompress(timeout) => Op in job && job[Op] == 23 && IParam in job && job[IParam] == timeout
            case AsDownload(blockNum, size, data) =>
              && Op in job && job[Op] == 7 && Number in job && job[Number] == blockNum
              && Amount in job && job[Amount] == size && OpData in job && job[OpData] == data
            case AsDBGet(dbNumber, size, usrData) =>
              && Op in job && job[Op] == 5 && Number in job && job[Number] == dbNumber
              && Amount in job && job[Amount] == size && PData in job && job[PData] == usrData
            case _ => true
  {
    var s := Run(INIT, acts);
    BegunOnceInOrder(s);
    RunKeepsCarried(acts);
    hide Run, CallOf, Requests;
    assert Carries(s.log.accepted[k], Requests(acts)[k]) && s.log.accepted[k] == s.log.started[k];
  }
}
