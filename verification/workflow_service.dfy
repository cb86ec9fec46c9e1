/**
 * The workflow service as a step system: one event per await-free section of service.ts. Events interleave freely; a
 * store call may fail without effect, or take effect and lose its reply; a listener may throw; the process may stop.
 * An event that is not enabled leaves the state as it is.
 */
module WorkflowService {
  import opened Wrappers
  import opened WorkflowStore

  datatype Role = Viewer | Operator | Admin

  datatype Principal = Principal(sub: string, role: Role)

  predicate MayStart(who: Principal) {
    who.role == Operator || who.role == Admin
  }

  predicate MayRead(who: Principal, record: Record) {
    who.role == Admin || who.sub == record.operatorId
  }

  predicate Terminal(status: Status) {
    status == Succeeded || status == Failed
  }

  // ---------- one workflow and its background executor ----------

  /** The Acked states are about to emit what the store acknowledged; Recovering is the catch block. */
  datatype Executor =
    | Start | RunningAcked | Probing | Succeeding(result: SnapshotResult) | SucceededAcked
    | Recovering | FailureDue | FailedAcked | Done

  /**
   * The stored record, and what the proofs watch: its past statuses, the call that inserted it, the probes made for
   * it.
   */
  datatype Workflow = Workflow(record: Record, history: seq<Status>, creator: nat, executor: Option<Executor>,
                               probes: nat)

  datatype Outcome = Applied | ReplyLost | NotApplied

  datatype Act =
    | MarkRunning(outcome: Outcome)
    | AnnounceRunning(threw: bool)
    | ProbeAnswers(answer: Option<SnapshotResult>)
    | MarkSucceeded(outcome: Outcome)
    | AnnounceSucceeded(threw: bool)
    | ReadForRecovery(answered: bool)
    | MarkFailed(probeError: bool, outcome: Outcome)
    | AnnounceFailed(threw: bool)
    | Stop

  /** Compare-and-swap in the store; the executor goes on to `acked` only if it hears that the swap took place. */
  function Swap(w: Workflow, expected: Status, next: Status, p: Patch, outcome: Outcome, acked: Executor,
                otherwise: Executor): Workflow {
    if w.record.status != expected || outcome == NotApplied then w.(executor := Some(otherwise))
    else w.(record := Merged(w.record, next, p), history := w.history + [next],
         executor := Some(if outcome == Applied then acked else otherwise))
  }

  function FailureCode(probeError: bool): string {
    if probeError then "readiness_probe_failed" else "workflow_failed"
  }

  /** One await-free section of executeReadinessSnapshot. */
  function Advance(w: Workflow, a: Act): Workflow {
    if w.executor.None? then w
    else match (w.executor.value, a)
         case (Start, MarkRunning(o)) => Swap(w, Queued, Running, Patch(None, None), o, RunningAcked, Recovering)
         case (RunningAcked, AnnounceRunning(threw)) =>
           if threw then w.(executor := Some(Recovering)) else w.(executor := Some(Probing), probes := w.probes + 1)
         case (Probing, ProbeAnswers(answer)) =>
           w.(executor := Some(if answer.Some? then Succeeding(answer.value) else Recovering))
         case (Succeeding(r), MarkSucceeded(o)) =>
           Swap(w, Running, Succeeded, Patch(Some(r), None), o, SucceededAcked, Recovering)
         case (SucceededAcked, AnnounceSucceeded(threw)) => w.(executor := Some(if threw then Recovering else Done))
         case (Recovering, ReadForRecovery(answered)) =>
           w.(executor := Some(if answered && w.record.status == Running then FailureDue else Done))
         case (FailureDue, MarkFailed(probeError, o)) =>
           Swap(w, Running, Failed, Patch(None, Some(FailureCode(probeError))), o, FailedAcked, Done)
         case (FailedAcked, AnnounceFailed(_)) => w.(executor := Some(Done))
         case (_, Stop) => w.(executor := Some(Done))
         case _ => w
  }

  /** The status this section emits to listeners, if any. */
  function Emitted(w: Workflow, a: Act): Option<Status> {
    match (w.executor, a)
    case (Some(RunningAcked), AnnounceRunning(_)) => Some(Running)
    case (Some(SucceededAcked), AnnounceSucceeded(_)) => Some(Succeeded)
    case (Some(FailedAcked), AnnounceFailed(_)) => Some(Failed)
    case _ => None
  }

  predicate ListenerThrew(a: Act) {
    (a.AnnounceRunning? || a.AnnounceSucceeded? || a.AnnounceFailed?) && a.threw
  }

  // ---------- start calls, subscribers and the whole state ----------

  /** A start call: inserted its record, found the key taken, or answered (Lost: it never learns it inserted). */
  datatype StartCall =
    | Inserted(id: string)
    | Conflicted(operatorId: string, key: string)
    | Returned(id: string, created: bool)
    | Lost(id: string)

  datatype Phase = Reading(snapshot: Status) | Listening | Closed

  datatype Subscriber = Subscriber(who: Principal, workflowId: string, phase: Phase, log: seq<Status>)

  datatype State = State(
    workflows: map<string, Workflow>, calls: map<nat, StartCall>, subscribers: map<nat, Subscriber>)

  datatype Event =
    | InsertWorkflow(call: nat, who: Principal, key: string, freshId: string)
    | LoseInsertReply(call: nat)
    | FinishStart(call: nat)
    | ReadExisting(call: nat)
    | Execute(id: string, act: Act, reached: set<nat>)
    | Subscribe(subscription: nat, who: Principal, id: string)
    | DeliverSnapshot(subscription: nat, threw: bool)
    | Unsubscribe(subscription: nat)
    | Crash

  const INITIAL := State(map[], map[], map[])

  predicate Holds(w: Workflow, operatorId: string, key: string) {
    w.record.operatorId == operatorId && w.record.idempotencyKey == key
  }

  ghost predicate KeyTaken(workflows: map<string, Workflow>, operatorId: string, key: string) {
    exists id :: id in workflows && Holds(workflows[id], operatorId, key)
  }

  ghost function InsertStep(s: State, call: nat, who: Principal, key: string, freshId: string): State {
    if call in s.calls || !MayStart(who) || !Admissible(key) || freshId == "" || freshId in s.workflows then s
    else if KeyTaken(s.workflows, who.sub, key) then s.(calls := s.calls[call := Conflicted(who.sub, key)])
    else
      var w := Workflow(NewRecord(freshId, who.sub, ReadinessSnapshot, key), [Queued], call, None, 0);
      s.(workflows := s.workflows[freshId := w], calls := s.calls[call := Inserted(freshId)])
  }

  /** Only the caller that created the record queues an executor for it. */
  function FinishStartStep(s: State, call: nat): State {
    if call in s.calls && s.calls[call].Inserted? && s.calls[call].id in s.workflows then
      var id := s.calls[call].id;
      s.(calls := s.calls[call := Returned(id, true)],
      workflows := s.workflows[id := s.workflows[id].(executor := Some(Start))])
    else s
  }

  ghost function ReadExistingStep(s: State, call: nat): State {
    if call in s.calls && s.calls[call].Conflicted?
       && KeyTaken(s.workflows, s.calls[call].operatorId, s.calls[call].key) then
      var id :| id in s.workflows && Holds(s.workflows[id], s.calls[call].operatorId, s.calls[call].key);
      s.(calls := s.calls[call := Returned(id, false)])
    else s
  }

  /** EventEmitter delivery: every listener of the workflow, or only those reached before one of them threw. */
  function Hear(sub: Subscriber, k: nat, w: Workflow, a: Act, reached: set<nat>): Subscriber {
    if sub.phase == Listening && Emitted(w, a).Some? && (!ListenerThrew(a) || k in reached)
    then sub.(log := sub.log + [Emitted(w, a).value]) else sub
  }

  function ExecuteStep(s: State, id: string, a: Act, reached: set<nat>): State {
    if id !in s.workflows then s
    else
      var w := s.workflows[id];
      s.(workflows := s.workflows[id := Advance(w, a)],
      subscribers := map k | k in s.subscribers ::
        if s.subscribers[k].workflowId == id then Hear(s.subscribers[k], k, w, a, reached) else s.subscribers[k])
  }

  function SubscribeStep(s: State, k: nat, who: Principal, id: string): State {
    if k in s.subscribers then s
    else
      var readable := id in s.workflows && MayRead(who, s.workflows[id].record);
      var phase := if readable then Reading(s.workflows[id].record.status) else Closed;
      s.(subscribers := s.subscribers[k := Subscriber(who, id, phase, [])])
  }

  /** The snapshot read earlier goes out first; a listener is registered only when it was not terminal. */
  function DeliverSnapshotStep(s: State, k: nat, threw: bool): State {
    if k in s.subscribers && s.subscribers[k].phase.Reading? then
      var snapshot := s.subscribers[k].phase.snapshot;
      var phase := if threw || Terminal(snapshot) then Closed else Listening;
      s.(subscribers := s.subscribers[k := s.subscribers[k].(phase := phase, log := [snapshot])])
    else s
  }

  function UnsubscribeStep(s: State, k: nat): State {
    if k in s.subscribers then s.(subscribers := s.subscribers[k := s.subscribers[k].(phase := Closed)]) else s
  }

  function LoseReplyStep(s: State, call: nat): State {
    if call in s.calls && s.calls[call].Inserted? then s.(calls := s.calls[call := Lost(s.calls[call].id)]) else s
  }

  /** The process stops: the table stays, everything in flight is gone. */
  function CrashStep(s: State): State {
    State(map id | id in s.workflows :: Advance(s.workflows[id], Stop),
          map c | c in s.calls :: if s.calls[c].Inserted? then Lost(s.calls[c].id) else s.calls[c],
          map k | k in s.subscribers :: s.subscribers[k].(phase := Closed))
  }

  ghost function Next(s: State, e: Event): State {
    match e
    case InsertWorkflow(call, who, key, freshId) => InsertStep(s, call, who, key, freshId)
    case LoseInsertReply(call) => LoseReplyStep(s, call)
    case FinishStart(call) => FinishStartStep(s, call)
    case ReadExisting(call) => ReadExistingStep(s, call)
    case Execute(id, act, reached) => ExecuteStep(s, id, act, reached)
    case Subscribe(k, who, id) => SubscribeStep(s, k, who, id)
    case DeliverSnapshot(k, threw) => DeliverSnapshotStep(s, k, threw)
    case Unsubscribe(k) => UnsubscribeStep(s, k)
    case Crash => CrashStep(s)
  }

  ghost function Run(s: State, events: seq<Event>): State {
    if events == [] then s else Next(Run(s, events[..|events| - 1]), events[|events| - 1])
  }

  // ---------- what one workflow keeps ----------

  function PathTo(status: Status): seq<Status> {
    match status
    case Queued => [Queued]
    case Running => [Queued, Running]
    case Succeeded => [Queued, Running, Succeeded]
    case Failed => [Queued, Running, Failed]
  }

  function Rank(status: Status): nat {
    match status
    case Queued => 0
    case Running => 1
    case Succeeded => 2
    case Failed => 2
  }

  /** A result exactly when succeeded, an error code exactly when failed. */
  predicate RecordKept(r: Record) {
    (r.result.Some? <==> r.status == Succeeded) && (r.errorCode.Some? <==> r.status == Failed)
  }

  predicate ExecutorKept(e: Option<Executor>, status: Status, probes: nat) {
    match e
    case None => status == Queued && probes == 0
    case Some(Start) => status == Queued && probes == 0
    case Some(RunningAcked) => status == Running && probes == 0
    case Some(Probing) => status == Running && probes == 1
    case Some(Succeeding(_)) => status == Running && probes == 1
    case Some(SucceededAcked) => status == Succeeded && probes == 1
    case Some(FailureDue) => status == Running && probes <= 1
    case Some(FailedAcked) => status == Failed && probes <= 1
    case Some(_) => probes <= 1 && (status == Succeeded ==> probes == 1)
  }

  predicate WorkflowKept(w: Workflow) {
    RecordKept(w.record) && w.history == PathTo(w.record.status) && ExecutorKept(w.executor, w.record.status, w.probes)
  }

  /** Same record identity; the history grows by at most one status. */
  predicate Continues(w: Workflow, v: Workflow) {
    && v.record.id == w.record.id && v.record.operatorId == w.record.operatorId
    && v.record.idempotencyKey == w.record.idempotencyKey && v.creator == w.creator
    && w.history <= v.history && w.probes <= v.probes && (w.executor.Some? ==> v.executor.Some?)
  }

  lemma SwapKeeps(w: Workflow, expected: Status, next: Status, p: Patch, outcome: Outcome, acked: Executor,
                  otherwise: Executor)
    requires WorkflowKept(w) && ServiceTransition(expected, next, p) && w.record.status == expected && w.executor.Some?
    requires ExecutorKept(Some(acked), next, w.probes) && otherwise in {Recovering, Done}
    requires w.probes <= 1 && (next == Succeeded ==> w.probes == 1)
    ensures var v := Swap(w, expected, next, p, outcome, acked, otherwise);
            WorkflowKept(v) && Continues(w, v) && v.executor.Some? && Rank(w.record.status) <= Rank(v.record.status)
  {
  }

  /** The sections that only announce. */
  lemma AnnouncementKeeps(w: Workflow, a: Act)
    requires WorkflowKept(w) && (a.AnnounceRunning? || a.AnnounceSucceeded? || a.AnnounceFailed?)
    ensures WorkflowKept(Advance(w, a)) && Continues(w, Advance(w, a)) && Advance(w, a).record == w.record
    ensures Advance(w, a).executor.None? <==> w.executor.None?
  {
  }

  /** The sections that only move the executor on. */
  lemma MoveKeeps(w: Workflow, a: Act)
    requires WorkflowKept(w) && (a.ProbeAnswers? || a.ReadForRecovery? || a.Stop?)
    ensures WorkflowKept(Advance(w, a)) && Continues(w, Advance(w, a)) && Advance(w, a).record == w.record
    ensures Advance(w, a).executor.None? <==> w.executor.None?
  {
  }

  lemma MarkRunningKeeps(w: Workflow, o: Outcome)
    requires WorkflowKept(w)
    ensures var v := Advance(w, MarkRunning(o));
            WorkflowKept(v) && Continues(w, v) && (v.executor.None? <==> w.executor.None?)
            && Rank(w.record.status) <= Rank(v.record.status)
  {
    if w.executor == Some(Start) {
      SwapKeeps(w, Queued, Running, Patch(None, None), o, RunningAcked, Recovering);
    }
  }

  lemma MarkSucceededKeeps(w: Workflow, o: Outcome)
    requires WorkflowKept(w)
    ensures var v := Advance(w, MarkSucceeded(o));
            WorkflowKept(v) && Continues(w, v) && (v.executor.None? <==> w.executor.None?)
            && Rank(w.record.status) <= Rank(v.record.status)
  {
    if w.executor.Some? && w.executor.value.Succeeding? {
      SwapKeeps(w, Running, Succeeded, Patch(Some(w.executor.value.result), None), o, SucceededAcked, Recovering);
    }
  }

  lemma MarkFailedKeeps(w: Workflow, probeError: bool, o: Outcome)
    requires WorkflowKept(w)
    ensures var v := Advance(w, MarkFailed(probeError, o));
            WorkflowKept(v) && Continues(w, v) && (v.executor.None? <==> w.executor.None?)
            && Rank(w.record.status) <= Rank(v.record.status)
  {
    if w.executor == Some(FailureDue) {
      SwapKeeps(w, Running, Failed, Patch(None, Some(FailureCode(probeError))), o, FailedAcked, Done);
    }
  }

  lemma AdvanceKeeps(w: Workflow, a: Act)
    requires WorkflowKept(w)
    ensures WorkflowKept(Advance(w, a)) && Continues(w, Advance(w, a))
    ensures Advance(w, a).executor.None? <==> w.executor.None?
    ensures Rank(w.record.status) <= Rank(Advance(w, a).record.status)
  {
    match a
    case MarkRunning(o) => MarkRunningKeeps(w, o);
    case MarkSucceeded(o) => MarkSucceededKeeps(w, o);
    case MarkFailed(probeError, o) => MarkFailedKeeps(w, probeError, o);
    case AnnounceRunning(_) => AnnouncementKeeps(w, a);
    case AnnounceSucceeded(_) => AnnouncementKeeps(w, a);
    case AnnounceFailed(_) => AnnouncementKeeps(w, a);
    case _ => MoveKeeps(w, a);
  }

  // ---------- what one listener keeps ----------

  /** Never backwards, and nothing after a terminal status. */
  ghost predicate OrderedLog(log: seq<Status>) {
    forall i, j :: 0 <= i < j < |log| ==> Rank(log[i]) <= Rank(log[j]) && !Terminal(log[i])
  }

  /**
   * What a subscriber has heard or is about to hear is no newer than the record, and a terminal event is never
   * repeated.
   */
  predicate InStep(w: Workflow, sub: Subscriber) {
    match sub.phase
    case Closed => true
    case Reading(snapshot) => sub.log == [] && Rank(snapshot) <= Rank(w.record.status)
    case Listening =>
      && sub.log != []
      && Rank(sub.log[|sub.log| - 1]) <= Rank(w.record.status)
      && (Terminal(sub.log[|sub.log| - 1]) ==> Terminal(w.record.status)
                                               && w.executor in {Some(Recovering), Some(Done)})
  }

  predicate AccessKept(w: Workflow, sub: Subscriber) {
    sub.log != [] || sub.phase.Reading? ==> MayRead(sub.who, w.record)
  }

  ghost predicate ListenerKept(w: Workflow, sub: Subscriber) {
    OrderedLog(sub.log) && InStep(w, sub) && AccessKept(w, sub)
  }

  lemma AppendOrdered(log: seq<Status>, status: Status)
    requires OrderedLog(log) && log != [] && !Terminal(log[|log| - 1]) && Rank(log[|log| - 1]) <= Rank(status)
    ensures OrderedLog(log + [status])
  {
  }

  lemma HearKeeps(w: Workflow, a: Act, sub: Subscriber, k: nat, reached: set<nat>)
    requires WorkflowKept(w) && ListenerKept(w, sub)
    ensures ListenerKept(Advance(w, a), Hear(sub, k, w, a, reached))
  {
    AdvanceKeeps(w, a);
    if Hear(sub, k, w, a, reached) != sub {
      AppendOrdered(sub.log, Emitted(w, a).value);
    }
  }

  // ---------- what every step keeps ----------

  predicate CallKept(workflows: map<string, Workflow>, c: nat, call: StartCall) {
    match call
    case Conflicted(_, _) => true
    case Inserted(id) => id in workflows && workflows[id].creator == c && workflows[id].executor.None?
    case Lost(id) => id in workflows && workflows[id].creator == c
    case Returned(id, created) => id in workflows
                                  && (created ==> workflows[id].creator == c && workflows[id].executor.Some?)
  }

  ghost predicate WorkflowsKept(workflows: map<string, Workflow>) {
    forall id :: id in workflows ==> WorkflowKept(workflows[id]) && workflows[id].record.id == id
  }

  /** One workflow per operator and key. */
  ghost predicate KeysUnique(workflows: map<string, Workflow>) {
    forall id, other ::
      (id in workflows && other in workflows
       && Holds(workflows[other], workflows[id].record.operatorId, workflows[id].record.idempotencyKey))
      ==> id == other
  }

  ghost predicate CallsKept(s: State) {
    forall c :: c in s.calls ==> CallKept(s.workflows, c, s.calls[c])
  }

  ghost predicate SubscriberKept(workflows: map<string, Workflow>, sub: Subscriber) {
    if sub.workflowId in workflows then ListenerKept(workflows[sub.workflowId], sub)
    else sub.phase == Closed && sub.log == []
  }

  ghost predicate SubscribersKept(s: State) {
    forall k :: k in s.subscribers ==> SubscriberKept(s.workflows, s.subscribers[k])
  }

  ghost predicate Inv(s: State) {
    WorkflowsKept(s.workflows) && KeysUnique(s.workflows) && CallsKept(s) && SubscribersKept(s)
  }

  lemma UpdateKeepsKeys(workflows: map<string, Workflow>, id: string, v: Workflow)
    requires KeysUnique(workflows) && id in workflows && Continues(workflows[id], v)
    ensures KeysUnique(workflows[id := v])
  {
    var t := workflows[id := v];
    forall i, j | i in t && j in t && Holds(t[j], t[i].record.operatorId, t[i].record.idempotencyKey) ensures i == j {
      assert Holds(workflows[j], workflows[i].record.operatorId, workflows[i].record.idempotencyKey);
    }
  }

  lemma ExecuteKeeps(s: State, id: string, a: Act, reached: set<nat>)
    requires Inv(s)
    ensures Inv(ExecuteStep(s, id, a, reached))
  {
    if id in s.workflows {
      var t := ExecuteStep(s, id, a, reached);
      var w := s.workflows[id];
      AdvanceKeeps(w, a);
      UpdateKeepsKeys(s.workflows, id, Advance(w, a));
      forall c | c in t.calls ensures CallKept(t.workflows, c, t.calls[c]) {
        ExecuteKeepsCall(s, id, a, reached, c);
      }
      forall k | k in t.subscribers ensures SubscriberKept(t.workflows, t.subscribers[k]) {
        ExecuteKeepsSubscriber(s, id, a, reached, k);
      }
    }
  }

  lemma ExecuteKeepsCall(s: State, id: string, a: Act, reached: set<nat>, c: nat)
    requires Inv(s) && id in s.workflows && c in s.calls
    ensures CallKept(ExecuteStep(s, id, a, reached).workflows, c, s.calls[c])
  {
    assert CallKept(s.workflows, c, s.calls[c]);
    AdvanceKeeps(s.workflows[id], a);
  }

  lemma ExecuteKeepsSubscriber(s: State, id: string, a: Act, reached: set<nat>, k: nat)
    requires Inv(s) && id in s.workflows && k in s.subscribers
    ensures var t := ExecuteStep(s, id, a, reached); SubscriberKept(t.workflows, t.subscribers[k])
  {
    assert SubscriberKept(s.workflows, s.subscribers[k]);
    if s.subscribers[k].workflowId == id {
      HearKeeps(s.workflows[id], a, s.subscribers[k], k, reached);
    }
  }

  lemma NewKeyKeepsKeys(workflows: map<string, Workflow>, freshId: string, w: Workflow)
    requires KeysUnique(workflows) && freshId !in workflows
    requires !KeyTaken(workflows, w.record.operatorId, w.record.idempotencyKey)
    ensures KeysUnique(workflows[freshId := w])
  {
    var t := workflows[freshId := w];
    forall i, j | i in t && j in t && Holds(t[j], t[i].record.operatorId, t[i].record.idempotencyKey) ensures i == j {
      assert i in workflows ==> !Holds(workflows[i], w.record.operatorId, w.record.idempotencyKey);
      assert j in workflows ==> !Holds(workflows[j], w.record.operatorId, w.record.idempotencyKey);
    }
  }

  lemma NewWorkflowKeeps(s: State, call: nat, w: Workflow)
    requires Inv(s) && call !in s.calls && w.record.id !in s.workflows && WorkflowKept(w) && w.creator == call
             && w.executor.None?
    requires !KeyTaken(s.workflows, w.record.operatorId, w.record.idempotencyKey)
    ensures Inv(s.(workflows := s.workflows[w.record.id := w], calls := s.calls[call := Inserted(w.record.id)]))
  {
    var t := s.(workflows := s.workflows[w.record.id := w], calls := s.calls[call := Inserted(w.record.id)]);
    NewKeyKeepsKeys(s.workflows, w.record.id, w);
    NewWorkflowKeepsCalls(s, call, w);
    forall k | k in t.subscribers ensures SubscriberKept(t.workflows, t.subscribers[k]) {
      assert SubscriberKept(s.workflows, s.subscribers[k]);
    }
  }

  lemma NewWorkflowKeepsCalls(s: State, call: nat, w: Workflow)
    requires Inv(s) && w.record.id !in s.workflows && w.creator == call && w.executor.None?
    ensures var workflows, calls := s.workflows[w.record.id := w], s.calls[call := Inserted(w.record.id)];
            forall c :: c in calls ==> CallKept(workflows, c, calls[c])
  {
    var workflows, calls := s.workflows[w.record.id := w], s.calls[call := Inserted(w.record.id)];
    forall c | c in calls ensures CallKept(workflows, c, calls[c]) {
      assert c != call ==> CallKept(s.workflows, c, s.calls[c]);
    }
  }

  lemma InsertKeeps(s: State, call: nat, who: Principal, key: string, freshId: string)
    requires Inv(s)
    ensures Inv(InsertStep(s, call, who, key, freshId))
  {
    if call !in s.calls && MayStart(who) && Admissible(key) && freshId !in s.workflows {
      if KeyTaken(s.workflows, who.sub, key) {
        SameWorkflowsKeep(s, InsertStep(s, call, who, key, freshId));
      } else {
        NewWorkflowKeeps(s, call,
                         Workflow(NewRecord(freshId, who.sub, ReadinessSnapshot, key), [Queued], call, None, 0));
      }
    }
  }

  lemma FinishStartKeeps(s: State, call: nat)
    requires Inv(s)
    ensures Inv(FinishStartStep(s, call))
  {
    var t := FinishStartStep(s, call);
    if t != s {
      var id := s.calls[call].id;
      assert CallKept(s.workflows, call, s.calls[call]);
      UpdateKeepsKeys(s.workflows, id, t.workflows[id]);
      forall c | c in t.calls ensures CallKept(t.workflows, c, t.calls[c]) {
        assert CallKept(s.workflows, c, s.calls[c]);
      }
      forall k | k in t.subscribers ensures SubscriberKept(t.workflows, t.subscribers[k]) {
        assert SubscriberKept(s.workflows, s.subscribers[k]);
      }
    }
  }

  lemma SameRecordsKeepKeys(workflows: map<string, Workflow>, t: map<string, Workflow>)
    requires KeysUnique(workflows) && t.Keys == workflows.Keys
    requires forall id :: id in workflows ==> t[id].record == workflows[id].record
    ensures KeysUnique(t)
  {
    forall i, j | i in t && j in t && Holds(t[j], t[i].record.operatorId, t[i].record.idempotencyKey) ensures i == j {
      assert Holds(workflows[j], workflows[i].record.operatorId, workflows[i].record.idempotencyKey);
    }
  }

  lemma StoppedWorkflow(s: State, id: string)
    requires Inv(s) && id in s.workflows
    ensures id in CrashStep(s).workflows && WorkflowKept(CrashStep(s).workflows[id])
    ensures var v := CrashStep(s).workflows[id];
            && v.record == s.workflows[id].record && v.creator == s.workflows[id].creator
            && (v.executor.None? <==> s.workflows[id].executor.None?)
  {
    AdvanceKeeps(s.workflows[id], Stop);
  }

  lemma StoppedCall(s: State, c: nat)
    requires Inv(s) && c in s.calls
    ensures c in CrashStep(s).calls && CallKept(CrashStep(s).workflows, c, CrashStep(s).calls[c])
  {
    assert CallKept(s.workflows, c, s.calls[c]);
    if !s.calls[c].Conflicted? {
      StoppedWorkflow(s, s.calls[c].id);
    }
  }

  lemma StoppedSubscriber(s: State, k: nat)
    requires Inv(s) && k in s.subscribers
    ensures k in CrashStep(s).subscribers && SubscriberKept(CrashStep(s).workflows, CrashStep(s).subscribers[k])
  {
    assert SubscriberKept(s.workflows, s.subscribers[k]);
    if s.subscribers[k].workflowId in s.workflows {
      StoppedWorkflow(s, s.subscribers[k].workflowId);
    }
  }

  lemma CrashKeeps(s: State)
    requires Inv(s)
    ensures Inv(CrashStep(s))
  {
    var t := CrashStep(s);
    forall id | id in s.workflows ensures WorkflowKept(t.workflows[id])
                                          && t.workflows[id].record == s.workflows[id].record {
      StoppedWorkflow(s, id);
    }
    SameRecordsKeepKeys(s.workflows, t.workflows);
    forall c | c in t.calls ensures CallKept(t.workflows, c, t.calls[c]) {
      StoppedCall(s, c);
    }
    forall k | k in t.subscribers ensures SubscriberKept(t.workflows, t.subscribers[k]) {
      StoppedSubscriber(s, k);
    }
  }

  /** Steps that leave the workflows alone and keep calls and subscribers in order. */
  lemma SameWorkflowsKeep(s: State, t: State)
    requires Inv(s) && t.workflows == s.workflows
    requires forall c :: c in t.calls ==> (c in s.calls && t.calls[c] == s.calls[c])
                                          || CallKept(s.workflows, c, t.calls[c])
    requires forall k :: k in t.subscribers ==>
                           (k in s.subscribers && t.subscribers[k] == s.subscribers[k])
                           || SubscriberKept(s.workflows, t.subscribers[k])
    ensures Inv(t)
  {
  }

  lemma CallStepsKeep(s: State, call: nat)
    requires Inv(s)
    ensures Inv(LoseReplyStep(s, call)) && Inv(ReadExistingStep(s, call))
  {
    assert call in s.calls ==> CallKept(s.workflows, call, s.calls[call]);
    SameWorkflowsKeep(s, LoseReplyStep(s, call));
    SameWorkflowsKeep(s, ReadExistingStep(s, call));
  }

  lemma SubscribeKeeps(s: State, k: nat, who: Principal, id: string)
    requires Inv(s)
    ensures Inv(SubscribeStep(s, k, who, id))
  {
    SameWorkflowsKeep(s, SubscribeStep(s, k, who, id));
  }

  lemma DeliverSnapshotKeeps(s: State, k: nat, threw: bool)
    requires Inv(s)
    ensures Inv(DeliverSnapshotStep(s, k, threw))
  {
    assert k in s.subscribers ==> SubscriberKept(s.workflows, s.subscribers[k]);
    SameWorkflowsKeep(s, DeliverSnapshotStep(s, k, threw));
  }

  lemma UnsubscribeKeeps(s: State, k: nat)
    requires Inv(s)
    ensures Inv(UnsubscribeStep(s, k))
  {
    assert k in s.subscribers ==> SubscriberKept(s.workflows, s.subscribers[k]);
    SameWorkflowsKeep(s, UnsubscribeStep(s, k));
  }

  lemma StepKeeps(s: State, e: Event)
    requires Inv(s)
    ensures Inv(Next(s, e))
  {
    match e
    case InsertWorkflow(call, who, key, freshId) => InsertKeeps(s, call, who, key, freshId);
    case FinishStart(call) => FinishStartKeeps(s, call);
    case Execute(id, act, reached) => ExecuteKeeps(s, id, act, reached);
    case Crash => CrashKeeps(s);
    case LoseInsertReply(call) => CallStepsKeep(s, call);
    case ReadExisting(call) => CallStepsKeep(s, call);
    case Subscribe(k, who, id) => SubscribeKeeps(s, k, who, id);
    case DeliverSnapshot(k, threw) => DeliverSnapshotKeeps(s, k, threw);
    case Unsubscribe(k) => UnsubscribeKeeps(s, k);
  }

  /** Every reachable state is in order, whatever the interleaving. */
  lemma {:induction false} RunKeeps(events: seq<Event>)
    ensures Inv(Run(INITIAL, events))
  {
    if events != [] {
      RunKeeps(events[..|events| - 1]);
      StepKeeps(Run(INITIAL, events[..|events| - 1]), events[|events| - 1]);
    }
  }

  ghost predicate Reachable(s: State) {
    exists events :: s == Run(INITIAL, events)
  }

  lemma ReachableInv(s: State)
    requires Reachable(s)
    ensures Inv(s)
  {
    var events :| s == Run(INITIAL, events);
    RunKeeps(events);
  }

  lemma ReachableNext(s: State, e: Event)
    requires Reachable(s)
    ensures Reachable(Next(s, e))
  {
    var events :| s == Run(INITIAL, events);
    var more := events + [e];
    assert more[..|more| - 1] == events;
    assert Run(INITIAL, more) == Next(s, e);
  }

  // ---------- what a caller can rely on ----------

  /**
   * A record's statuses are queued, running, then one of succeeded and failed, or a prefix of that; its probe ran at
   * most once.
   */
  lemma WorkflowLife(s: State, id: string)
    requires Reachable(s) && id in s.workflows
    ensures var w := s.workflows[id];
            && (w.history <= [Queued, Running, Succeeded] || w.history <= [Queued, Running, Failed])
            && w.history != [] && w.history[|w.history| - 1] == w.record.status
            && (w.record.result.Some? <==> w.record.status == Succeeded)
            && (w.record.errorCode.Some? <==> w.record.status == Failed)
            && w.probes <= 1 && (w.record.status == Succeeded ==> w.probes == 1)
  {
    ReachableInv(s);
    assert WorkflowKept(s.workflows[id]);
  }

  /** At most one start call is ever told that it created a given record. */
  lemma CreatedOnce(s: State, c: nat, d: nat, id: string)
    requires Reachable(s) && c in s.calls && d in s.calls && s.calls[c] == Returned(id, true) == s.calls[d]
    ensures c == d
  {
    ReachableInv(s);
    assert CallKept(s.workflows, c, s.calls[c]) && CallKept(s.workflows, d, s.calls[d]);
  }

  /** Equal keys of one operator name one record. */
  lemma KeySharesRecord(s: State, id: string, other: string)
    requires Reachable(s) && id in s.workflows && other in s.workflows
    requires Holds(s.workflows[other], s.workflows[id].record.operatorId, s.workflows[id].record.idempotencyKey)
    ensures id == other
  {
    ReachableInv(s);
  }

  /**
   * What a subscriber hears never goes backwards, ends with its only terminal status, and is about a record it may
   * read.
   */
  lemma SubscriberHears(s: State, k: nat)
    requires Reachable(s) && k in s.subscribers
    ensures OrderedLog(s.subscribers[k].log)
    ensures s.subscribers[k].log != [] ==>
              var id := s.subscribers[k].workflowId; id in s.workflows
                                                     && MayRead(s.subscribers[k].who, s.workflows[id].record)
  {
    ReachableInv(s);
    assert SubscriberKept(s.workflows, s.subscribers[k]);
  }

  /** No step forgets a record, rewrites its past or takes back a probe. */
  lemma HistoryOnlyGrows(s: State, e: Event, id: string)
    requires Inv(s) && id in s.workflows
    ensures id in Next(s, e).workflows && Continues(s.workflows[id], Next(s, e).workflows[id])
  {
    match e
    case InsertWorkflow(call, who, key, freshId) => InsertGrows(s, call, who, key, freshId, id);
    case Execute(other, act, reached) => ExecuteGrows(s, other, act, reached, id);
    case Crash => CrashGrows(s, id);
    case FinishStart(call) => FinishStartGrows(s, call, id);
    case _ =>
  }

  lemma InsertGrows(s: State, call: nat, who: Principal, key: string, freshId: string, id: string)
    requires id in s.workflows
    ensures id in InsertStep(s, call, who, key, freshId).workflows
    ensures Continues(s.workflows[id], InsertStep(s, call, who, key, freshId).workflows[id])
  {
  }

  lemma ExecuteGrows(s: State, other: string, act: Act, reached: set<nat>, id: string)
    requires Inv(s) && id in s.workflows
    ensures id in ExecuteStep(s, other, act, reached).workflows
    ensures Continues(s.workflows[id], ExecuteStep(s, other, act, reached).workflows[id])
  {
    if other in s.workflows {
      AdvanceKeeps(s.workflows[other], act);
    }
  }

  lemma CrashGrows(s: State, id: string)
    requires Inv(s) && id in s.workflows
    ensures id in CrashStep(s).workflows && Continues(s.workflows[id], CrashStep(s).workflows[id])
  {
    AdvanceKeeps(s.workflows[id], Stop);
  }

  lemma FinishStartGrows(s: State, call: nat, id: string)
    requires Inv(s) && id in s.workflows
    ensures id in FinishStartStep(s, call).workflows
            && Continues(s.workflows[id], FinishStartStep(s, call).workflows[id])
  {
    if call in s.calls {
      assert CallKept(s.workflows, call, s.calls[call]);
    }
  }

  // ---------- what an emit delivers ----------

  /** An emit of the workflow reaches listener k. */
  predicate Reaches(s: State, id: string, a: Act, reached: set<nat>, k: nat) {
    && id in s.workflows && Emitted(s.workflows[id], a).Some?
    && k in s.subscribers && s.subscribers[k].workflowId == id && s.subscribers[k].phase == Listening
    && (!ListenerThrew(a) || k in reached)
  }

  /**
   * An executor section appends its status to the log of every listener it reaches, and leaves every other log alone.
   */
  lemma EmitAppends(s: State, id: string, a: Act, reached: set<nat>, k: nat)
    requires k in s.subscribers
    ensures k in ExecuteStep(s, id, a, reached).subscribers
    ensures ExecuteStep(s, id, a, reached).subscribers[k].log
         == s.subscribers[k].log + if Reaches(s, id, a, reached, k) then [Emitted(s.workflows[id], a).value] else []
    ensures ExecuteStep(s, id, a, reached).subscribers[k].phase == s.subscribers[k].phase
    ensures ExecuteStep(s, id, a, reached).subscribers[k].workflowId == s.subscribers[k].workflowId
  {
  }

  // ---------- exactly when a listener can still hear the end ----------

  /**
   * The workflow can still announce a terminal status: its executor is under way, or recovering with the record still
   * running, or not yet queued with its creating call still pending.
   */
  predicate MayAnnounce(s: State, id: string)
    requires id in s.workflows
  {
    var w := s.workflows[id];
    match w.executor
    case None => w.creator in s.calls && s.calls[w.creator] == Inserted(id)
    case Some(Done) => false
    case Some(Recovering) => w.record.status == Running
    case Some(_) => true
  }

  /** k listens, or has stopped listening, to a workflow with nothing left to announce. */
  predicate Muted(s: State, k: nat, log: seq<Status>) {
    && k in s.subscribers && s.subscribers[k].log == log && s.subscribers[k].phase in {Listening, Closed}
    && s.subscribers[k].workflowId in s.workflows && !MayAnnounce(s, s.subscribers[k].workflowId)
  }

  lemma MutedStays(s: State, e: Event, k: nat, log: seq<Status>)
    requires Inv(s) && Muted(s, k, log)
    ensures Muted(Next(s, e), k, log)
  {
    match e
    case InsertWorkflow(call, who, key, freshId) => InsertLeavesMuted(s, call, who, key, freshId, k, log);
    case Execute(id, act, reached) => ExecuteLeavesMuted(s, id, act, reached, k, log);
    case FinishStart(call) => StartLeavesMuted(s, call, k, log);
    case Crash => CrashLeavesMuted(s, k, log);
    case LoseInsertReply(call) => LostReplyLeavesMuted(s, call, k, log);
    case ReadExisting(call) => ReadLeavesMuted(s, call, k, log);
    case Subscribe(other, who, id) => SubscribeLeavesMuted(s, other, who, id, k, log);
    case DeliverSnapshot(other, threw) => DeliverLeavesMuted(s, other, threw, k, log);
    case Unsubscribe(other) => UnsubscribeLeavesMuted(s, other, k, log);
  }

  lemma InsertLeavesMuted(s: State, call: nat, who: Principal, key: string, freshId: string, k: nat, log: seq<Status>)
    requires Muted(s, k, log)
    ensures Muted(InsertStep(s, call, who, key, freshId), k, log)
  {
  }

  lemma ExecuteLeavesMuted(s: State, id: string, a: Act, reached: set<nat>, k: nat, log: seq<Status>)
    requires Muted(s, k, log)
    ensures Muted(ExecuteStep(s, id, a, reached), k, log)
  {
    EmitAppends(s, id, a, reached, k);
  }

  lemma StartLeavesMuted(s: State, call: nat, k: nat, log: seq<Status>)
    requires Inv(s) && Muted(s, k, log)
    ensures Muted(FinishStartStep(s, call), k, log)
  {
    assert call in s.calls ==> CallKept(s.workflows, call, s.calls[call]);
  }

  lemma CrashLeavesMuted(s: State, k: nat, log: seq<Status>)
    requires Muted(s, k, log)
    ensures Muted(CrashStep(s), k, log)
  {
  }

  lemma LostReplyLeavesMuted(s: State, call: nat, k: nat, log: seq<Status>)
    requires Muted(s, k, log)
    ensures Muted(LoseReplyStep(s, call), k, log)
  {
  }

  lemma ReadLeavesMuted(s: State, call: nat, k: nat, log: seq<Status>)
    requires Muted(s, k, log)
    ensures Muted(ReadExistingStep(s, call), k, log)
  {
  }

  lemma SubscribeLeavesMuted(s: State, other: nat, who: Principal, id: string, k: nat, log: seq<Status>)
    requires Muted(s, k, log)
    ensures Muted(SubscribeStep(s, other, who, id), k, log)
  {
  }

  lemma DeliverLeavesMuted(s: State, other: nat, threw: bool, k: nat, log: seq<Status>)
    requires Muted(s, k, log)
    ensures Muted(DeliverSnapshotStep(s, other, threw), k, log)
  {
  }

  lemma UnsubscribeLeavesMuted(s: State, other: nat, k: nat, log: seq<Status>)
    requires Muted(s, k, log)
    ensures Muted(UnsubscribeStep(s, other), k, log)
  {
  }

  /** Once a workflow has nothing left to announce, no continuation brings its listeners anything more. */
  lemma {:induction false} SilentForever(s: State, events: seq<Event>, k: nat, log: seq<Status>)
    requires Inv(s) && Muted(s, k, log)
    ensures Inv(Run(s, events)) && Muted(Run(s, events), k, log)
  {
    if events != [] {
      SilentForever(s, events[..|events| - 1], k, log);
      StepKeeps(Run(s, events[..|events| - 1]), events[|events| - 1]);
      MutedStays(Run(s, events[..|events| - 1]), events[|events| - 1], k, log);
    }
  }

  /** k listens to a workflow that may still announce its end. */
  predicate Waiting(s: State, k: nat) {
    && k in s.subscribers && s.subscribers[k].phase == Listening
    && s.subscribers[k].workflowId in s.workflows && MayAnnounce(s, s.subscribers[k].workflowId)
  }

  predicate HeardEnd(s: State, k: nat) {
    k in s.subscribers && exists i :: 0 <= i < |s.subscribers[k].log| && Terminal(s.subscribers[k].log[i])
  }

  /** How many sections the shortest way to an announcement still takes. */
  function StepsLeft(w: Workflow): nat {
    match w.executor
    case None => 8
    case Some(Start) => 7
    case Some(RunningAcked) => 6
    case Some(Probing) => 5
    case Some(Recovering) => 4
    case Some(FailureDue) => 3
    case Some(Succeeding(_)) => 2
    case Some(_) => 1
  }

  /** The next section on that way: every store call is applied and acknowledged, and no listener throws. */
  function NextSection(w: Workflow): Act
    requires w.executor.Some?
  {
    match w.executor.value
    case Start => MarkRunning(Applied)
    case RunningAcked => AnnounceRunning(false)
    case Probing => ProbeAnswers(None)
    case Recovering => ReadForRecovery(true)
    case FailureDue => MarkFailed(false, Applied)
    case Succeeding(_) => MarkSucceeded(Applied)
    case SucceededAcked => AnnounceSucceeded(false)
    case FailedAcked => AnnounceFailed(false)
    case Done => Stop
  }

  lemma SectionProgress(w: Workflow)
    requires WorkflowKept(w) && w.executor.Some? && w.executor != Some(Done)
    requires w.executor == Some(Recovering) ==> w.record.status == Running
    ensures var v := Advance(w, NextSection(w));
            if StepsLeft(w) == 1 then Emitted(w, NextSection(w)).Some? && Terminal(Emitted(w, NextSection(w)).value)
            else v.executor.Some? && v.executor != Some(Done) && StepsLeft(v) < StepsLeft(w)
                 && (v.executor == Some(Recovering) ==> v.record.status == Running)
    ensures !ListenerThrew(NextSection(w))
  {
  }

  /** The next event on the way to the announcement k is waiting for. */
  function NextEvent(s: State, k: nat): Event
    requires Waiting(s, k)
  {
    var id := s.subscribers[k].workflowId;
    if s.workflows[id].executor.None? then FinishStart(s.workflows[id].creator)
    else Execute(id, NextSection(s.workflows[id]), {})
  }

  /** k has heard the end, or waits for the same workflow with fewer sections to go. */
  ghost predicate Closer(s: State, t: State, k: nat)
    requires Waiting(s, k)
  {
    var id := s.subscribers[k].workflowId;
    HeardEnd(t, k)
    || (Waiting(t, k) && t.subscribers[k].workflowId == id && StepsLeft(t.workflows[id]) < StepsLeft(s.workflows[id]))
  }

  lemma WaitingProgress(s: State, k: nat)
    requires Inv(s) && Waiting(s, k)
    ensures Closer(s, Next(s, NextEvent(s, k)), k)
  {
    if s.workflows[s.subscribers[k].workflowId].executor.None? {
      PendingStartProgress(s, k);
    } else {
      ExecutorNext(s, k);
      ExecutorProgress(s, k);
    }
  }

  lemma ExecutorNext(s: State, k: nat)
    requires Waiting(s, k) && s.workflows[s.subscribers[k].workflowId].executor.Some?
    ensures var id := s.subscribers[k].workflowId;
            Next(s, NextEvent(s, k)) == ExecuteStep(s, id, NextSection(s.workflows[id]), {})
  {
  }

  lemma PendingStartProgress(s: State, k: nat)
    requires Inv(s) && Waiting(s, k) && s.workflows[s.subscribers[k].workflowId].executor.None?
    ensures Closer(s, Next(s, NextEvent(s, k)), k)
  {
  }

  lemma ExecutorProgress(s: State, k: nat)
    requires Inv(s) && Waiting(s, k) && s.workflows[s.subscribers[k].workflowId].executor.Some?
    ensures var id := s.subscribers[k].workflowId; Closer(s, ExecuteStep(s, id, NextSection(s.workflows[id]), {}), k)
  {
    var id := s.subscribers[k].workflowId;
    var w := s.workflows[id];
    var t := ExecuteStep(s, id, NextSection(w), {});
    assert WorkflowKept(w);
    SectionProgress(w);
    EmitAppends(s, id, NextSection(w), {}, k);
    if StepsLeft(w) == 1 {
      LastHeard(t, k);
    } else {
      StillWaiting(s, t, k, Advance(w, NextSection(w)));
    }
  }

  lemma StillWaiting(s: State, t: State, k: nat, v: Workflow)
    requires Waiting(s, k) && k in t.subscribers && t.subscribers[k].phase == Listening
    requires t.subscribers[k].workflowId == s.subscribers[k].workflowId
             && t.workflows == s.workflows[s.subscribers[k].workflowId := v]
    requires v.executor.Some? && v.executor != Some(Done)
             && (v.executor == Some(Recovering) ==> v.record.status == Running)
    requires StepsLeft(v) < StepsLeft(s.workflows[s.subscribers[k].workflowId])
    ensures Closer(s, t, k)
  {
  }

  lemma LastHeard(s: State, k: nat)
    requires k in s.subscribers && s.subscribers[k].log != []
             && Terminal(s.subscribers[k].log[|s.subscribers[k].log| - 1])
    ensures HeardEnd(s, k)
  {
  }

  lemma {:induction false} RunFrom(s: State, e: Event, events: seq<Event>)
    ensures Run(s, [e] + events) == Run(Next(s, e), events)
  {
    if events == [] {
      assert [e] + events == [e] && [e][..0] == [] && Run(s, []) == s;
    } else {
      var init := events[..|events| - 1];
      RunFrom(s, e, init);
      assert ([e] + events)[..|[e] + events| - 1] == [e] + init;
    }
  }

  /** Without further failures, an announcement that may still come does come. */
  lemma {:induction false} AnnouncementReaches(s: State, k: nat) returns (events: seq<Event>)
    requires Inv(s) && Waiting(s, k)
    ensures HearsEndAfter(s, events, k)
    decreases StepsLeft(s.workflows[s.subscribers[k].workflowId])
  {
    var e := NextEvent(s, k);
    WaitingProgress(s, k);
    StepKeeps(s, e);
    var rest := [];
    if !HeardEnd(Next(s, e), k) {
      rest := AnnouncementReaches(Next(s, e), k);
    } else {
      assert Run(Next(s, e), []) == Next(s, e);
    }
    RunFrom(s, e, rest);
    events := [e] + rest;
  }

  /** This continuation brings k a terminal status. */
  ghost predicate HearsEndAfter(s: State, events: seq<Event>, k: nat) {
    HeardEnd(Run(s, events), k)
  }

  /**
   * A listener that has heard no terminal status can still hear one exactly when its workflow may still announce one.
   */
  lemma EndStillHeardIff(s: State, k: nat)
    requires Reachable(s) && k in s.subscribers && s.subscribers[k].phase == Listening && !HeardEnd(s, k)
    ensures s.subscribers[k].workflowId in s.workflows
    ensures MayAnnounce(s, s.subscribers[k].workflowId) <==> exists events :: HearsEndAfter(s, events, k)
  {
    ReachableInv(s);
    assert SubscriberKept(s.workflows, s.subscribers[k]);
    if MayAnnounce(s, s.subscribers[k].workflowId) {
      var events := AnnouncementReaches(s, k);
    } else {
      forall events ensures !HearsEndAfter(s, events, k) {
        SilentForever(s, events, k, s.subscribers[k].log);
        SameLogSameEnd(s, Run(s, events), k);
      }
    }
  }

  lemma SameLogSameEnd(s: State, t: State, k: nat)
    requires k in s.subscribers && k in t.subscribers && t.subscribers[k].log == s.subscribers[k].log
    ensures HeardEnd(s, k) <==> HeardEnd(t, k)
  {
  }

  // ---------- a missed terminal event ----------

  /**
   * The gap between reading the snapshot and registering the listener loses events: a subscriber can be left
   * listening with a queued snapshot after its workflow has succeeded.
   */
  lemma TerminalEventMissed(who: Principal, key: string, r: SnapshotResult) returns (s: State)
    requires MayStart(who) && Admissible(key)
    ensures Reachable(s) && Muted(s, 0, [Queued]) && s.subscribers[0].phase == Listening
    ensures s.workflows[s.subscribers[0].workflowId].record.status == Succeeded
  {
    var reading := Subscriber(who, "1", Reading(Queued), []);
    s := SnapshotRead(who, key, reading);
    s := RunToSuccess(s, r);
    s := Then(s, DeliverSnapshot(0, false), s.(subscribers := map[0 := reading.(phase := Listening, log := [Queued])]));
  }

  lemma SnapshotRead(who: Principal, key: string, reading: Subscriber) returns (s: State)
    requires MayStart(who) && Admissible(key) && reading == Subscriber(who, "1", Reading(Queued), [])
    ensures Reachable(s) && s.subscribers == map[0 := reading] && "1" in s.workflows
    ensures s.workflows["1"].record.status == Queued && s.workflows["1"].executor == Some(Start)
  {
    assert Run(INITIAL, []) == INITIAL;
    var w0 := Workflow(NewRecord("1", who.sub, ReadinessSnapshot, key), [Queued], 0, None, 0);
    s := Then(INITIAL, InsertWorkflow(0, who, key, "1"), State(map["1" := w0], map[0 := Inserted("1")], map[]));
    var w1 := w0.(executor := Some(Start));
    s := Then(s, FinishStart(0), State(map["1" := w1], map[0 := Returned("1", true)], map[]));
    s := Then(s, Subscribe(0, who, "1"), s.(subscribers := map[0 := reading]));
  }

  lemma RunToSuccess(s: State, r: SnapshotResult) returns (t: State)
    requires Reachable(s) && "1" in s.workflows && s.subscribers.Keys == {0} && s.subscribers[0].phase.Reading?
    requires s.workflows["1"].record.status == Queued && s.workflows["1"].executor == Some(Start)
    ensures Reachable(t) && "1" in t.workflows && t.subscribers == s.subscribers
    ensures t.workflows["1"].record.status == Succeeded && t.workflows["1"].executor == Some(Done)
  {
    t := Act1(s, MarkRunning(Applied));
    t := Act1(t, AnnounceRunning(false));
    t := Act1(t, ProbeAnswers(Some(r)));
    t := Act1(t, MarkSucceeded(Applied));
    t := Act1(t, AnnounceSucceeded(false));
  }

  lemma Then(s: State, e: Event, expected: State) returns (t: State)
    requires Reachable(s) && Next(s, e) == expected
    ensures t == expected && Reachable(t)
  {
    t := expected;
    ReachableNext(s, e);
  }

  /** One executor act on the only workflow, while the only subscriber has not registered yet. */
  lemma Act1(s: State, a: Act) returns (t: State)
    requires Reachable(s) && "1" in s.workflows && s.subscribers.Keys == {0} && s.subscribers[0].phase.Reading?
    ensures Reachable(t) && t == s.(workflows := s.workflows["1" := Advance(s.workflows["1"], a)])
  {
    t := s.(workflows := s.workflows["1" := Advance(s.workflows["1"], a)]);
    assert ExecuteStep(s, "1", a, {}).subscribers == s.subscribers;
    t := Then(s, Execute("1", a, {}), t);
  }

  // ---------- every store step is the store's ----------

  /** The table holds exactly the records of these workflows. */
  ghost predicate Tabled(workflows: map<string, Workflow>, rows: seq<Row>) {
    && (forall i :: 0 <= i < |rows| ==>
                      rows[i].workflowId in workflows && ToRecord(rows[i]) == workflows[rows[i].workflowId].record)
    && DistinctIds(rows) && forall id :: id in workflows ==> HasId(rows, id)
  }

  lemma GetReads(workflows: map<string, Workflow>, rows: seq<Row>, id: string)
    requires Tabled(workflows, rows)
    ensures SqlGet(rows, id) == if id in workflows then Some(workflows[id].record) else None
    ensures id in workflows <==> FindId(rows, id) < |rows|
  {
    IdFound(rows, id);
  }

  lemma KeyTakenIffFound(workflows: map<string, Workflow>, rows: seq<Row>, operatorId: string, key: string)
    requires Tabled(workflows, rows)
    ensures KeyTaken(workflows, operatorId, key) <==> FindKey(rows, operatorId, ReadinessSnapshot, key) < |rows|
  {
    if KeyTaken(workflows, operatorId, key) {
      var id :| id in workflows && Holds(workflows[id], operatorId, key);
      assert HasId(rows, id);
      var i :| 0 <= i < |rows| && rows[i].workflowId == id;
      assert HoldsKey(rows[i], operatorId, ReadinessSnapshot, key);
    }
    var i := FindKey(rows, operatorId, ReadinessSnapshot, key);
    if i < |rows| {
      assert Holds(workflows[rows[i].workflowId], operatorId, key);
    }
  }

  /** The insert of a start call is the store's createOrGet: same table, and the call learns what the store answers. */
  lemma InsertIsCreateOrGet(s: State, call: nat, who: Principal, key: string, freshId: string, rows: seq<Row>)
    requires Tabled(s.workflows, rows) && call !in s.calls && MayStart(who) && Admissible(key)
             && freshId != "" && freshId !in s.workflows
    ensures var (t, r) := SqlCreateOrGet(rows, who.sub, ReadinessSnapshot, key, freshId);
            var u := InsertStep(s, call, who, key, freshId);
            && Tabled(u.workflows, t) && r.Success?
            && u.calls[call] == (if r.value.created then Inserted(freshId) else Conflicted(who.sub, key))
            && (r.value.created ==> freshId in u.workflows && u.workflows[freshId].record == r.value.record)
  {
    KeyTakenIffFound(s.workflows, rows, who.sub, key);
    if !KeyTaken(s.workflows, who.sub, key) {
      var w := Workflow(NewRecord(freshId, who.sub, ReadinessSnapshot, key), [Queued], call, None, 0);
      TabledGrows(s.workflows, rows, w, Row(freshId, who.sub, key, ReadinessSnapshot, Queued, None, None));
    }
  }

  lemma TabledGrows(workflows: map<string, Workflow>, rows: seq<Row>, w: Workflow, row: Row)
    requires Tabled(workflows, rows) && row.workflowId !in workflows && ToRecord(row) == w.record
    ensures Tabled(workflows[row.workflowId := w], rows + [row])
  {
    var t := rows + [row];
    assert t[|rows|] == row;
    forall id | id in workflows[row.workflowId := w] ensures HasId(t, id) {
      if id != row.workflowId {
        HasIdInLonger(rows, t, id);
      }
    }
  }

  /** Finishing a conflicted start call answers the record the store answers. */
  lemma ReadIsCreateOrGet(s: State, call: nat, freshId: string, rows: seq<Row>)
    requires Inv(s) && Tabled(s.workflows, rows) && call in s.calls && s.calls[call].Conflicted?
    requires KeyTaken(s.workflows, s.calls[call].operatorId, s.calls[call].key)
    ensures var (t, r) := SqlCreateOrGet(rows, s.calls[call].operatorId, ReadinessSnapshot, s.calls[call].key, freshId);
            t == rows && r.Success?
            && ReadExistingStep(s, call).calls[call] == Returned(r.value.record.id, r.value.created)
  {
    KeyTakenIffFound(s.workflows, rows, s.calls[call].operatorId, s.calls[call].key);
  }

  /** A swap that takes effect is the store's transition; the executor goes on only if it hears that it took place. */
  lemma SwapIsTransition(workflows: map<string, Workflow>, rows: seq<Row>, id: string, expected: Status, next: Status,
                         p: Patch,
                         outcome: Outcome, acked: Executor, otherwise: Executor)
    requires Tabled(workflows, rows) && id in workflows && WorkflowKept(workflows[id])
             && ServiceTransition(expected, next, p)
    ensures var (t, r) := SqlTransition(rows, id, expected, next, p);
            var v := Swap(workflows[id], expected, next, p, outcome, acked, otherwise);
            && (outcome != NotApplied ==> Tabled(workflows[id := v], t))
            && (outcome == NotApplied ==> v.record == workflows[id].record)
            && (outcome != NotApplied && r.Success? ==> v.record == r.value)
            && v.executor == Some(if outcome == Applied && r.Success? then acked else otherwise)
  {
    GetReads(workflows, rows, id);
    var i := FindId(rows, id);
    var v := Swap(workflows[id], expected, next, p, outcome, acked, otherwise);
    var row := rows[i].(status := next, result := p.result, errorCode := p.errorCode);
    if workflows[id].record.status == expected {
      assert ToRecord(row) == Merged(workflows[id].record, next, p);
      if outcome != NotApplied {
        TabledUpdates(workflows, rows, i, v, row);
      }
    } else {
      TabledUpdates(workflows, rows, i, v, rows[i]);
      assert rows[i := rows[i]] == rows;
    }
  }

  lemma TabledUpdates(workflows: map<string, Workflow>, rows: seq<Row>, i: nat, v: Workflow, row: Row)
    requires Tabled(workflows, rows) && i < |rows| && row.workflowId == rows[i].workflowId && ToRecord(row) == v.record
    ensures Tabled(workflows[row.workflowId := v], rows[i := row])
  {
    var t := rows[i := row];
    forall id | id in workflows[row.workflowId := v] ensures HasId(t, id) {
      HasIdInLonger(rows, t, id);
    }
  }

  // ---------- every run is a sequence of store calls ----------

  predicate SameRecords(workflows: map<string, Workflow>, others: map<string, Workflow>) {
    workflows.Keys == others.Keys && forall id :: id in workflows ==> workflows[id].record == others[id].record
  }

  lemma TabledByRecords(workflows: map<string, Workflow>, others: map<string, Workflow>, rows: seq<Row>)
    requires Tabled(workflows, rows) && SameRecords(workflows, others)
    ensures Tabled(others, rows)
  {
  }

  /** These calls of the service take the table of the workflows to the table of the others. */
  ghost predicate Serves(calls: seq<Call>, workflows: map<string, Workflow>, others: map<string, Workflow>,
                         rows: seq<Row>, operators: set<string>) {
    && ServiceCalls(calls, operators, Admissible, workflows.Keys)
    && others.Keys == workflows.Keys + Ids(calls) && Tabled(others, SqlAfter(rows, calls))
  }

  lemma NoCalls(workflows: map<string, Workflow>, others: map<string, Workflow>, rows: seq<Row>, operators: set<string>)
    requires Tabled(workflows, rows) && SameRecords(workflows, others)
    ensures Serves([], workflows, others, rows, operators)
  {
    TabledByRecords(workflows, others, rows);
    assert Ids([]) == {};
  }

  lemma OneCall(workflows: map<string, Workflow>, others: map<string, Workflow>, rows: seq<Row>,
                operators: set<string>, call: Call)
    requires StoreCalls([call], operators, Admissible, workflows.Keys) && ServiceTransitions([call])
    requires others.Keys == workflows.Keys + (if call.CreateOrGet? then {call.freshId} else {})
    requires Tabled(others, SqlCall(rows, call).0)
    ensures Serves([call], workflows, others, rows, operators)
  {
    IdsSplit([call]);
    assert SqlAfter(rows, [call]) == SqlCall(rows, call).0 by {
      assert [call][1..] == [];
    }
  }

  lemma SwapServes(workflows: map<string, Workflow>, rows: seq<Row>, operators: set<string>, id: string,
                   expected: Status, next: Status, p: Patch, outcome: Outcome, acked: Executor, otherwise: Executor)
    returns (calls: seq<Call>)
    requires Tabled(workflows, rows) && id in workflows && WorkflowKept(workflows[id])
             && ServiceTransition(expected, next, p)
    ensures |calls| <= 1
    ensures Serves(calls, workflows,
                   workflows[id := Swap(workflows[id], expected, next, p, outcome, acked, otherwise)], rows, operators)
  {
    var others := workflows[id := Swap(workflows[id], expected, next, p, outcome, acked, otherwise)];
    SwapIsTransition(workflows, rows, id, expected, next, p, outcome, acked, otherwise);
    if outcome == NotApplied {
      calls := [];
      NoCalls(workflows, others, rows, operators);
    } else {
      calls := [Transition(id, expected, next, p)];
      OneCall(workflows, others, rows, operators, calls[0]);
    }
  }

  /** A section either swaps, by a transition of the service, or leaves the record alone. */
  lemma AdvanceSwapsOrNot(w: Workflow, a: Act)
    returns (swaps: bool, expected: Status, next: Status, p: Patch, outcome: Outcome, acked: Executor,
             otherwise: Executor)
    ensures swaps ==> ServiceTransition(expected, next, p)
                      && Advance(w, a) == Swap(w, expected, next, p, outcome, acked, otherwise)
    ensures !swaps ==> Advance(w, a).record == w.record
  {
    swaps := true;
    if a.MarkRunning? && w.executor == Some(Start) {
      expected, next, p, outcome, acked, otherwise :=
        Queued, Running, Patch(None, None), a.outcome, RunningAcked, Recovering;
    } else if a.MarkSucceeded? && w.executor.Some? && w.executor.value.Succeeding? {
      expected, next, p, outcome, acked, otherwise :=
        Running, Succeeded, Patch(Some(w.executor.value.result), None), a.outcome, SucceededAcked, Recovering;
    } else if a.MarkFailed? && w.executor == Some(FailureDue) {
      expected, next, p, outcome, acked, otherwise :=
        Running, Failed, Patch(None, Some(FailureCode(a.probeError))), a.outcome, FailedAcked, Done;
    } else {
      swaps, expected, next, p, outcome, acked, otherwise :=
        false, Queued, Queued, Patch(None, None), NotApplied, Done, Done;
    }
  }

  lemma AdvanceServes(workflows: map<string, Workflow>, rows: seq<Row>, operators: set<string>, id: string, a: Act)
    returns (calls: seq<Call>)
    requires Tabled(workflows, rows) && id in workflows && WorkflowKept(workflows[id])
    ensures |calls| <= 1
    ensures Serves(calls, workflows, workflows[id := Advance(workflows[id], a)], rows, operators)
  {
    var swaps, expected, next, p, outcome, acked, otherwise := AdvanceSwapsOrNot(workflows[id], a);
    if swaps {
      calls := SwapServes(workflows, rows, operators, id, expected, next, p, outcome, acked, otherwise);
    } else {
      calls := [];
      NoCalls(workflows, workflows[id := Advance(workflows[id], a)], rows, operators);
    }
  }

  lemma InsertServes(s: State, rows: seq<Row>, operators: set<string>, call: nat, who: Principal, key: string,
                     freshId: string)
    returns (calls: seq<Call>)
    requires Tabled(s.workflows, rows) && who.sub in operators
    ensures |calls| <= 1
    ensures Serves(calls, s.workflows, InsertStep(s, call, who, key, freshId).workflows, rows, operators)
  {
    var others := InsertStep(s, call, who, key, freshId).workflows;
    if freshId in others && freshId !in s.workflows {
      InsertIsCreateOrGet(s, call, who, key, freshId, rows);
      calls := [CreateOrGet(who.sub, ReadinessSnapshot, key, freshId)];
      OneCall(s.workflows, others, rows, operators, calls[0]);
    } else {
      calls := [];
      NoCalls(s.workflows, others, rows, operators);
    }
  }

  lemma EventServes(s: State, e: Event, rows: seq<Row>, operators: set<string>) returns (calls: seq<Call>)
    requires Inv(s) && Tabled(s.workflows, rows) && (e.InsertWorkflow? ==> e.who.sub in operators)
    ensures |calls| <= 1
    ensures Serves(calls, s.workflows, Next(s, e).workflows, rows, operators)
  {
    match e
    case InsertWorkflow(call, who, key, freshId) =>
      calls := InsertServes(s, rows, operators, call, who, key, freshId);
    case Execute(id, act, reached) =>
      if id in s.workflows {
        calls := AdvanceServes(s.workflows, rows, operators, id, act);
      } else {
        calls := [];
        NoCalls(s.workflows, s.workflows, rows, operators);
      }
    case _ =>
      calls := [];
      QuietKeepsRecords(s, e);
      NoCalls(s.workflows, Next(s, e).workflows, rows, operators);
  }

  lemma QuietKeepsRecords(s: State, e: Event)
    requires !e.InsertWorkflow? && !e.Execute?
    ensures SameRecords(s.workflows, Next(s, e).workflows)
  {
  }

  /** The operators whose start calls reach the store. */
  function Operators(events: seq<Event>): set<string> {
    set e | e in events && e.InsertWorkflow? :: e.who.sub
  }

  lemma {:induction false} RunServes(events: seq<Event>, operators: set<string>) returns (calls: seq<Call>)
    requires Operators(events) <= operators
    ensures Serves(calls, map[], Run(INITIAL, events).workflows, [], operators)
    decreases |events|
  {
    if events == [] {
      calls := [];
      NoCalls(map[], map[], [], operators);
    } else {
      var before, e := events[..|events| - 1], events[|events| - 1];
      var s := Run(INITIAL, before);
      assert e.InsertWorkflow? ==> e.who.sub in Operators(events);
      assert Operators(before) <= Operators(events);
      var first := RunServes(before, operators);
      RunKeeps(before);
      var more := EventServes(s, e, SqlAfter([], first), operators);
      calls := first + more;
      ServesAppend(first, more, s.workflows, Next(s, e).workflows, operators);
    }
  }

  lemma ServesAppend(first: seq<Call>, more: seq<Call>, between: map<string, Workflow>, others: map<string, Workflow>,
                     operators: set<string>)
    requires Serves(first, map[], between, [], operators)
    requires Serves(more, between, others, SqlAfter([], first), operators)
    ensures Serves(first + more, map[], others, [], operators)
  {
    var none: map<string, Workflow> := map[];
    assert none.Keys == {} && {} + Ids(first) == between.Keys;
    ServiceCallsAppend(first, more, operators, Admissible, {});
    SqlAfterAppend([], first, more);
  }

  /** Every run of the service leaves a table that a sequence of its store calls leaves. */
  lemma RunIsStoreCalls(events: seq<Event>) returns (calls: seq<Call>)
    ensures ServiceCalls(calls, Operators(events), Admissible, {})
    ensures Tabled(Run(INITIAL, events).workflows, SqlAfter([], calls))
  {
    calls := RunServes(events, Operators(events));
    var none: map<string, Workflow> := map[];
    assert none.Keys == {};
  }

  /**
   * When no two operators of a run are confusable, the service runs over the in-memory store as well: its calls get the
   * answers of the table, and every lookup finds the record of the workflow.
   */
  lemma RunsOverMemory(events: seq<Event>) returns (calls: seq<Call>)
    requires Separable(Operators(events))
    ensures ServiceCalls(calls, Operators(events), Admissible, {})
    ensures MemRun(Memory(map[], map[]), calls) == SqlRun([], calls)
    ensures var workflows, m := Run(INITIAL, events).workflows, MemAfter(Memory(map[], map[]), calls);
            forall id :: MemGet(m, id) == if id in workflows then Some(workflows[id].record) else None
  {
    var operators := Operators(events);
    calls := RunIsStoreCalls(events);
    SeparableIffCollisionFree(operators);
    RunsAgree(Memory(map[], map[]), [], calls, operators, Admissible, {});
    var workflows, m := Run(INITIAL, events).workflows, MemAfter(Memory(map[], map[]), calls);
    forall id ensures MemGet(m, id) == if id in workflows then Some(workflows[id].record) else None {
      GetAgrees(m, SqlAfter([], calls), operators, Admissible, {} + Ids(calls), id);
      GetReads(workflows, SqlAfter([], calls), id);
    }
  }

  // ---------- where everything stored, answered and heard comes from ----------

  /** Some probe made for the workflow answered r. */
  ghost predicate ProbeAnswered(events: seq<Event>, id: string, r: SnapshotResult) {
    exists reached :: Execute(id, ProbeAnswers(Some(r)), reached) in events
  }

  /** Some failure of the workflow was marked for this reason. */
  ghost predicate FailureMarked(events: seq<Event>, id: string, probeError: bool) {
    exists outcome, reached :: Execute(id, MarkFailed(probeError, outcome), reached) in events
  }

  /** An operator or an administrator asked for the record in this call, under an admissible key. */
  ghost predicate AskedFor(events: seq<Event>, call: nat, operatorId: string, key: string, freshId: string) {
    exists role :: InsertWorkflow(call, Principal(operatorId, role), key, freshId) in events
                   && role in {Operator, Admin} && 8 <= Units(key) <= 128
  }

  ghost predicate FailureSourced(events: seq<Event>, id: string, code: string) {
    || (code == "readiness_probe_failed" && FailureMarked(events, id, true))
    || (code == "workflow_failed" && FailureMarked(events, id, false))
  }

  /** The executor's pending result, and the record's owner, key, result and error code. */
  ghost predicate RecordSourced(events: seq<Event>, id: string, w: Workflow) {
    && w.record.id == id && w.record.kind == ReadinessSnapshot
    && AskedFor(events, w.creator, w.record.operatorId, w.record.idempotencyKey, id)
    && (w.executor.Some? && w.executor.value.Succeeding? ==> ProbeAnswered(events, id, w.executor.value.result))
    && (w.record.result.Some? ==> ProbeAnswered(events, id, w.record.result.value))
    && (w.record.errorCode.Some? ==> FailureSourced(events, id, w.record.errorCode.value))
  }

  ghost predicate RecordsSourced(events: seq<Event>, workflows: map<string, Workflow>) {
    forall id :: id in workflows ==> RecordSourced(events, id, workflows[id])
  }

  lemma SourcedLonger(events: seq<Event>, e: Event, id: string, w: Workflow)
    requires RecordSourced(events, id, w)
    ensures RecordSourced(events + [e], id, w)
  {
    var more := events + [e];
    forall r | ProbeAnswered(events, id, r) ensures ProbeAnswered(more, id, r) {
      var reached :| Execute(id, ProbeAnswers(Some(r)), reached) in events;
      assert Execute(id, ProbeAnswers(Some(r)), reached) in more;
    }
    forall probeError | FailureMarked(events, id, probeError) ensures FailureMarked(more, id, probeError) {
      var outcome, reached :| Execute(id, MarkFailed(probeError, outcome), reached) in events;
      assert Execute(id, MarkFailed(probeError, outcome), reached) in more;
    }
    AskedLonger(events, e, w.creator, w.record.operatorId, w.record.idempotencyKey, id);
  }

  lemma AskedLonger(events: seq<Event>, e: Event, call: nat, operatorId: string, key: string, freshId: string)
    requires AskedFor(events, call, operatorId, key, freshId)
    ensures AskedFor(events + [e], call, operatorId, key, freshId)
  {
    var role :| InsertWorkflow(call, Principal(operatorId, role), key, freshId) in events
                && role in {Operator, Admin} && 8 <= Units(key) <= 128;
    assert InsertWorkflow(call, Principal(operatorId, role), key, freshId) in events + [e];
  }

  lemma AdvanceSourced(events: seq<Event>, id: string, w: Workflow, a: Act, reached: set<nat>)
    requires RecordSourced(events, id, w) && Execute(id, a, reached) in events
    ensures RecordSourced(events, id, Advance(w, a))
  {
    if a.ProbeAnswers? && a.answer.Some? {
      assert Execute(id, ProbeAnswers(Some(a.answer.value)), reached) in events;
    }
    if a.MarkFailed? {
      assert Execute(id, MarkFailed(a.probeError, a.outcome), reached) in events;
    }
  }

  /** A step that changes at most where the executors stand, and leaves none with a new result. */
  ghost predicate OnlyMoves(workflows: map<string, Workflow>, others: map<string, Workflow>) {
    && others.Keys == workflows.Keys
    && forall id :: id in workflows ==>
                      && others[id].record == workflows[id].record && others[id].creator == workflows[id].creator
                      && (others[id].executor == workflows[id].executor
                          || others[id].executor in {Some(Start), Some(Done)})
  }

  lemma QuietOnlyMoves(s: State, e: Event)
    requires !e.InsertWorkflow? && !e.Execute?
    ensures OnlyMoves(s.workflows, Next(s, e).workflows)
  {
  }

  lemma InsertSourced(events: seq<Event>, s: State, call: nat, who: Principal, key: string, freshId: string)
    requires RecordsSourced(events, s.workflows) && InsertWorkflow(call, who, key, freshId) in events
    ensures RecordsSourced(events, InsertStep(s, call, who, key, freshId).workflows)
  {
    assert who == Principal(who.sub, who.role);
  }

  lemma StepSourced(events: seq<Event>, s: State, e: Event)
    requires RecordsSourced(events, s.workflows)
    ensures RecordsSourced(events + [e], Next(s, e).workflows)
  {
    var more := events + [e];
    forall id | id in s.workflows ensures RecordSourced(more, id, s.workflows[id]) {
      SourcedLonger(events, e, id, s.workflows[id]);
    }
    match e
    case InsertWorkflow(call, who, key, freshId) => InsertSourced(more, s, call, who, key, freshId);
    case Execute(id, a, reached) =>
      if id in s.workflows {
        AdvanceSourced(more, id, s.workflows[id], a, reached);
      }
    case _ => QuietOnlyMoves(s, e);
  }

  /**
   * In every run, a record belongs to the operator who asked for it and carries that call's key; its result is one that
   * a probe of it answered, unaltered; its error code says which kind of failure was marked.
   */
  lemma {:induction false} RecordComesFrom(events: seq<Event>)
    ensures RecordsSourced(events, Run(INITIAL, events).workflows)
    decreases |events|
  {
    if events != [] {
      var before, e := events[..|events| - 1], events[|events| - 1];
      RecordComesFrom(before);
      StepSourced(before, Run(INITIAL, before), e);
      assert events == before + [e];
    }
  }

  /** So a stored result is the runner's own. */
  lemma ResultIsProbed(events: seq<Event>, id: string, r: SnapshotResult)
    requires id in Run(INITIAL, events).workflows && Run(INITIAL, events).workflows[id].record.result == Some(r)
    ensures exists reached :: Execute(id, ProbeAnswers(Some(r)), reached) in events
  {
    RecordComesFrom(events);
    assert ProbeAnswered(events, id, r);
  }

  /** And an error code is one of two words, after the failure that wrote it. */
  lemma ErrorCodeIsMarked(events: seq<Event>, id: string, code: string)
    requires id in Run(INITIAL, events).workflows && Run(INITIAL, events).workflows[id].record.errorCode == Some(code)
    ensures exists probeError, outcome, reached ::
              && Execute(id, MarkFailed(probeError, outcome), reached) in events
              && code == if probeError then "readiness_probe_failed" else "workflow_failed"
  {
    RecordComesFrom(events);
    assert FailureSourced(events, id, code);
  }

  /** What a start call holds or answers is about the operator and key it was made with. */
  ghost predicate CallSourced(events: seq<Event>, workflows: map<string, Workflow>, c: nat, call: StartCall) {
    exists who, key, freshId ::
      && InsertWorkflow(c, who, key, freshId) in events
      && match call
         case Conflicted(operatorId, k) => operatorId == who.sub && k == key
         case Inserted(id) => id == freshId && id in workflows && Owned(workflows[id].record, who.sub, key)
         case Lost(id) => id == freshId && id in workflows && Owned(workflows[id].record, who.sub, key)
         case Returned(id, created) => && id in workflows && Owned(workflows[id].record, who.sub, key)
                                       && (created ==> id == freshId)
  }

  predicate Owned(r: Record, operatorId: string, key: string) {
    r.operatorId == operatorId && r.idempotencyKey == key
  }

  /** A subscriber hears of the workflow it asked for, statuses the record has had, and only if it may read it. */
  ghost predicate SubscriberSourced(events: seq<Event>, workflows: map<string, Workflow>, k: nat, sub: Subscriber) {
    && Subscribe(k, sub.who, sub.workflowId) in events
    && (sub.log != [] || sub.phase.Reading? ==>
          && sub.workflowId in workflows
          && (sub.who.role == Admin || sub.who.sub == workflows[sub.workflowId].record.operatorId)
          && (forall status :: status in sub.log ==> status in workflows[sub.workflowId].history)
          && (sub.phase.Reading? ==> sub.phase.snapshot in workflows[sub.workflowId].history))
  }

  ghost predicate AllSourced(events: seq<Event>, s: State) {
    && (forall c :: c in s.calls ==> CallSourced(events, s.workflows, c, s.calls[c]))
    && (forall k :: k in s.subscribers ==> SubscriberSourced(events, s.workflows, k, s.subscribers[k]))
  }

  /** Every record of the first is one of the second, with the same owner and key and a history that goes on. */
  ghost predicate GoesOn(workflows: map<string, Workflow>, others: map<string, Workflow>) {
    forall id :: id in workflows ==> id in others && Continues(workflows[id], others[id])
  }

  lemma CallLonger(events: seq<Event>, e: Event, workflows: map<string, Workflow>, others: map<string, Workflow>,
                   c: nat, call: StartCall)
    requires CallSourced(events, workflows, c, call) && GoesOn(workflows, others)
    ensures CallSourced(events + [e], others, c, call)
  {
    var who, key, freshId :|
      && InsertWorkflow(c, who, key, freshId) in events
      && match call
         case Conflicted(operatorId, k) => operatorId == who.sub && k == key
         case Inserted(id) => id == freshId && id in workflows && Owned(workflows[id].record, who.sub, key)
         case Lost(id) => id == freshId && id in workflows && Owned(workflows[id].record, who.sub, key)
         case Returned(id, created) => && id in workflows && Owned(workflows[id].record, who.sub, key)
                                       && (created ==> id == freshId);
    assert InsertWorkflow(c, who, key, freshId) in events + [e];
  }

  lemma SubscriberLonger(events: seq<Event>, e: Event, workflows: map<string, Workflow>,
                         others: map<string, Workflow>, k: nat, sub: Subscriber)
    requires SubscriberSourced(events, workflows, k, sub) && GoesOn(workflows, others)
    ensures SubscriberSourced(events + [e], others, k, sub)
  {
    if sub.workflowId in workflows {
      assert Continues(workflows[sub.workflowId], others[sub.workflowId]);
      assert forall status :: status in workflows[sub.workflowId].history ==> status in others[sub.workflowId].history;
    }
  }

  lemma CallsStepSourced(events: seq<Event>, s: State, e: Event)
    requires AllSourced(events, s) && GoesOn(s.workflows, Next(s, e).workflows)
    ensures forall c :: c in Next(s, e).calls ==>
                          CallSourced(events + [e], Next(s, e).workflows, c, Next(s, e).calls[c])
  {
    var t := Next(s, e);
    forall c | c in s.calls ensures CallSourced(events + [e], t.workflows, c, s.calls[c]) {
      CallLonger(events, e, s.workflows, t.workflows, c, s.calls[c]);
    }
    assert e in events + [e];
  }

  lemma HearSourced(events: seq<Event>, s: State, id: string, a: Act, reached: set<nat>, k: nat)
    requires Inv(s) && k in s.subscribers && SubscriberSourced(events, s.workflows, k, s.subscribers[k])
    requires GoesOn(s.workflows, ExecuteStep(s, id, a, reached).workflows)
    ensures var t := ExecuteStep(s, id, a, reached);
            SubscriberSourced(events + [Execute(id, a, reached)], t.workflows, k, t.subscribers[k])
  {
    var t, sub := ExecuteStep(s, id, a, reached), s.subscribers[k];
    SubscriberLonger(events, Execute(id, a, reached), s.workflows, t.workflows, k, sub);
    HeardIsStatus(s, id, a, reached, k);
    if t.subscribers[k] != sub {
      ListenerHasHeard(s, k);
      CurrentIsPast(s.workflows[id], t.workflows[id]);
      OneMoreSourced(events + [Execute(id, a, reached)], t.workflows, k, sub, s.workflows[id].record.status);
    }
  }

  lemma ListenerHasHeard(s: State, k: nat)
    requires Inv(s) && k in s.subscribers && s.subscribers[k].phase == Listening
    ensures s.subscribers[k].log != []
  {
    assert SubscriberKept(s.workflows, s.subscribers[k]);
  }

  lemma CurrentIsPast(w: Workflow, v: Workflow)
    requires WorkflowKept(w) && Continues(w, v)
    ensures w.record.status in v.history
  {
    assert w.record.status in w.history;
  }

  lemma OneMoreSourced(events: seq<Event>, workflows: map<string, Workflow>, k: nat, sub: Subscriber, status: Status)
    requires SubscriberSourced(events, workflows, k, sub) && sub.log != []
    requires status in workflows[sub.workflowId].history
    ensures SubscriberSourced(events, workflows, k, sub.(log := sub.log + [status]))
  {
  }

  /**
   * An executor section that announces what the store acknowledged appends the record's status to the log of every
   * listener to it, or, where a listener threw, of those reached before; no other section reaches anyone.
   */
  lemma HeardIsStatus(s: State, id: string, a: Act, reached: set<nat>, k: nat)
    requires Inv(s) && k in s.subscribers
    ensures k in ExecuteStep(s, id, a, reached).subscribers
    ensures ExecuteStep(s, id, a, reached).subscribers[k]
         == s.subscribers[k].(log := s.subscribers[k].log
                                     + if && id in s.workflows && s.subscribers[k].workflowId == id
                                          && s.subscribers[k].phase == Listening
                                          && Announces(s.workflows[id].executor, a)
                                          && (a.threw ==> k in reached)
                                       then [s.workflows[id].record.status] else [])
  {
    if id in s.workflows {
      EmitsStatus(s.workflows[id], a);
    }
    assert s.subscribers[k].log + [] == s.subscribers[k].log;
  }

  predicate Announces(e: Option<Executor>, a: Act) {
    || (e == Some(RunningAcked) && a.AnnounceRunning?)
    || (e == Some(SucceededAcked) && a.AnnounceSucceeded?)
    || (e == Some(FailedAcked) && a.AnnounceFailed?)
  }

  lemma EmitsStatus(w: Workflow, a: Act)
    requires WorkflowKept(w)
    ensures Emitted(w, a) == if Announces(w.executor, a) then Some(w.record.status) else None
    ensures Announces(w.executor, a) ==> ListenerThrew(a) == a.threw
  {
  }

  lemma QuietSubscriberSourced(events: seq<Event>, s: State, e: Event, k: nat)
    requires !e.Execute? && Inv(s) && AllSourced(events, s) && GoesOn(s.workflows, Next(s, e).workflows)
    requires k in Next(s, e).subscribers
    ensures SubscriberSourced(events + [e], Next(s, e).workflows, k, Next(s, e).subscribers[k])
  {
    if k in s.subscribers {
      SubscriberLonger(events, e, s.workflows, Next(s, e).workflows, k, s.subscribers[k]);
    } else {
      assert e in events + [e];
    }
  }

  lemma SubscribersStepSourced(events: seq<Event>, s: State, e: Event)
    requires Inv(s) && AllSourced(events, s) && GoesOn(s.workflows, Next(s, e).workflows)
    ensures forall k :: k in Next(s, e).subscribers ==>
                          SubscriberSourced(events + [e], Next(s, e).workflows, k, Next(s, e).subscribers[k])
  {
    forall k | k in Next(s, e).subscribers
      ensures SubscriberSourced(events + [e], Next(s, e).workflows, k, Next(s, e).subscribers[k])
    {
      if e.Execute? {
        HearSourced(events, s, e.id, e.act, e.reached, k);
      } else {
        QuietSubscriberSourced(events, s, e, k);
      }
    }
  }

  lemma {:induction false} AllComesFrom(events: seq<Event>)
    ensures AllSourced(events, Run(INITIAL, events))
    decreases |events|
  {
    if events != [] {
      var before, e := events[..|events| - 1], events[|events| - 1];
      var s := Run(INITIAL, before);
      AllComesFrom(before);
      RunKeeps(before);
      forall id | id in s.workflows ensures id in Next(s, e).workflows
                                            && Continues(s.workflows[id], Next(s, e).workflows[id]) {
        HistoryOnlyGrows(s, e, id);
      }
      CallsStepSourced(before, s, e);
      SubscribersStepSourced(before, s, e);
      assert events == before + [e];
    }
  }

  /** A start call is answered with a record of its own operator and key; the one it created has the id it generated. */
  lemma StartAnswersItsOwn(events: seq<Event>, c: nat, id: string, created: bool)
    requires c in Run(INITIAL, events).calls && Run(INITIAL, events).calls[c] == Returned(id, created)
    ensures exists who, key, freshId ::
              && InsertWorkflow(c, who, key, freshId) in events && id in Run(INITIAL, events).workflows
              && Run(INITIAL, events).workflows[id].record.operatorId == who.sub
              && Run(INITIAL, events).workflows[id].record.idempotencyKey == key && (created ==> id == freshId)
  {
    AllComesFrom(events);
    var workflows := Run(INITIAL, events).workflows;
    assert CallSourced(events, workflows, c, Returned(id, created));
    var who, key, freshId :| InsertWorkflow(c, who, key, freshId) in events && id in workflows
                             && Owned(workflows[id].record, who.sub, key) && (created ==> id == freshId);
  }

  /** What a subscriber has heard are statuses that the record it asked for has had, and it may read that record. */
  lemma HeardWasStatus(events: seq<Event>, k: nat, status: Status)
    requires k in Run(INITIAL, events).subscribers && status in Run(INITIAL, events).subscribers[k].log
    ensures var sub := Run(INITIAL, events).subscribers[k];
            && Subscribe(k, sub.who, sub.workflowId) in events && sub.workflowId in Run(INITIAL, events).workflows
            && var w := Run(INITIAL, events).workflows[sub.workflowId];
               status in w.history && (sub.who.role == Admin || sub.who.sub == w.record.operatorId)
  {
    AllComesFrom(events);
    assert SubscriberSourced(events, Run(INITIAL, events).workflows, k, Run(INITIAL, events).subscribers[k]);
  }
}
