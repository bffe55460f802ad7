/** Governed changes (core/platform/approval/service.py): requesting, rejecting and approving
    with an apply handler, and the audit trail that the service writes. */
module Approvals {
  import opened Text

  type Id = string

  datatype Status = Pending | Approved | Rejected

  datatype Request = Request(
    requestType: string,
    entityType: string,
    entityId: string,
    status: Status,
    requestedBy: Option<Id>,
    decidedBy: Option<Id>,
    decidedAt: Option<int>,
    note: Option<string>)

  datatype Action = Requested | RejectedBy | ApprovedBy

  datatype Entry = Entry(action: Action, requestId: Id)

  /** `applied` lists the requests whose apply handler ran to completion, in order. */
  datatype State = State(
    requests: map<Id, Request>,
    audit: seq<Entry>,
    applied: seq<Id>,
    applyHandlers: set<string>,
    rejectHandlers: set<string>)

  /** `permitted` is the answer of the permission check, `actor` the current principal's
      user if there is one, `handlerOk` whether a called handler returns normally. */
  datatype Event =
    | RequestChange(permitted: bool, actor: Option<Id>, requestType: string, entityType: string, entityId: string, newId: Id)
    | Reject(permitted: bool, actor: Option<Id>, id: Id, note: string, handlerOk: bool, at: int)
    | Approve(permitted: bool, actor: Option<Id>, id: Id, note: string, handlerOk: bool, at: int)
    | RegisterApply(requestType: string)
    | RegisterReject(requestType: string)

  datatype Reply = Denied | DuplicateEntity | NotFound | AlreadyDecided | SelfDecision | HandlerMissing | HandlerFailed | Done

  predicate PendingFor(r: Request, entityType: string, entityId: string) {
    r.status == Pending && r.entityType == entityType && r.entityId == entityId
  }

  ghost predicate HasPending(s: State, entityType: string, entityId: string) {
    exists i :: i in s.requests && PendingFor(s.requests[i], entityType, entityId)
  }

  /** `_ensure_not_self_decision` lets the decision through. */
  predicate MayDecide(actor: Option<Id>, r: Request) {
    actor.None? || r.requestedBy.None? || r.requestedBy.value == "" || actor != r.requestedBy
  }

  ghost function ReplyTo(s: State, e: Event): Reply {
    match e
    case RequestChange(permitted, _, _, entityType, entityId, _) =>
      if !permitted then Denied
      else if HasPending(s, entityType, entityId) then DuplicateEntity
      else Done
    case Reject(permitted, actor, id, _, handlerOk, _) =>
      if !permitted then Denied
      else if id !in s.requests then NotFound
      else if s.requests[id].status != Pending then AlreadyDecided
      else if !MayDecide(actor, s.requests[id]) then SelfDecision
      else if s.requests[id].requestType in s.rejectHandlers && !handlerOk then HandlerFailed
      else Done
    case Approve(permitted, actor, id, _, handlerOk, _) =>
      if !permitted then Denied
      else if id !in s.requests then NotFound
      else if s.requests[id].status != Pending then AlreadyDecided
      else if !MayDecide(actor, s.requests[id]) then SelfDecision
      else if s.requests[id].requestType !in s.applyHandlers then HandlerMissing
      else if !handlerOk then HandlerFailed
      else Done
    case RegisterApply(_) => Done
    case RegisterReject(_) => Done
  }

  function NoteOf(note: string): Option<string> {
    if Strip(note) == "" then None else Some(Strip(note))
  }

  function Logged(audited: bool, log: seq<Entry>, e: Entry): seq<Entry> {
    if audited then log + [e] else log
  }

  /** The effect of an accepted operation; refused ones change nothing. */
  function Effect(audited: bool, s: State, e: Event): State
    requires (e.Reject? || e.Approve?) ==> e.id in s.requests
  {
    match e
    case RequestChange(_, actor, requestType, entityType, entityId, newId) =>
      s.(requests := s.requests[newId := Request(Key(requestType), entityType, entityId, Pending, actor, None, None, None)],
         audit := Logged(audited, s.audit, Entry(Requested, newId)))
    case Reject(_, actor, id, note, _, at) =>
      s.(requests := s.requests[id := s.requests[id].(status := Rejected, decidedBy := actor, decidedAt := Some(at),
                                                       note := NoteOf(note))],
         audit := Logged(audited, s.audit, Entry(RejectedBy, id)))
    case Approve(_, actor, id, note, _, at) =>
      s.(requests := s.requests[id := s.requests[id].(status := Approved, decidedBy := actor, decidedAt := Some(at),
                                                       note := NoteOf(note))],
         audit := Logged(audited, s.audit, Entry(ApprovedBy, id)),
         applied := s.applied + [id])
    case RegisterApply(t) => s.(applyHandlers := s.applyHandlers + {Key(t)})
    case RegisterReject(t) => s.(rejectHandlers := s.rejectHandlers + {Key(t)})
  }

  ghost predicate Takes(audited: bool, s: State, e: Event, t: State) {
    && (e.RequestChange? ==> e.newId !in s.requests)
    && (if ReplyTo(s, e) == Done then t == Effect(audited, s, e) else t == s)
  }

  // ----- the service ------------------------------------------------------------------------

  class ApprovalService {
    const audited: bool
    var requests: map<Id, Request>
    var audit: seq<Entry>
    var applied: seq<Id>
    var applyHandlers: set<string>
    var rejectHandlers: set<string>

    function Now(): State
      reads this
    {
      State(requests, audit, applied, applyHandlers, rejectHandlers)
    }

    constructor (audited: bool)
      ensures this.audited == audited && Now() == State(map[], [], [], {}, {})
    {
      this.audited := audited;
      requests, audit, applied := map[], [], [];
      applyHandlers, rejectHandlers := {}, {};
    }

    method RegisterApplyHandler(requestType: string)
      modifies this`applyHandlers
      ensures Takes(audited, old(Now()), RegisterApply(requestType), Now())
    {
      applyHandlers := applyHandlers + {Key(requestType)};
    }

    method RegisterRejectHandler(requestType: string)
      modifies this`rejectHandlers
      ensures Takes(audited, old(Now()), RegisterReject(requestType), Now())
    {
      rejectHandlers := rejectHandlers + {Key(requestType)};
    }

    /** `_record_governance_audit` */
    method RecordGovernanceAudit(action: Action, id: Id)
      modifies this`audit
      ensures audit == Logged(audited, old(audit), Entry(action, id))
    {
      if audited {
        audit := audit + [Entry(action, id)];
      }
    }

    /** `list_by_status` for pending requests of one entity with limit 1. */
    method FindPending(entityType: string, entityId: string) returns (found: Option<Id>)
      ensures found.Some? ==> found.value in requests && PendingFor(requests[found.value], entityType, entityId)
      ensures found.Some? <==> HasPending(Now(), entityType, entityId)
    {
      var ids := requests.Keys;
      while ids != {}
        invariant ids <= requests.Keys
        invariant forall i :: i in requests && i !in ids ==> !PendingFor(requests[i], entityType, entityId)
        decreases ids
      {
        var i :| i in ids;
        if PendingFor(requests[i], entityType, entityId) {
          return Some(i);
        }
        ids := ids - {i};
      }
      return None;
    }

    method RequestGovernedChange(permitted: bool, actor: Option<Id>, requestType: string,
                                 entityType: string, entityId: string, newId: Id) returns (reply: Reply)
      requires newId !in requests
      modifies this
      ensures var e := RequestChange(permitted, actor, requestType, entityType, entityId, newId);
              reply == ReplyTo(old(Now()), e) && Takes(audited, old(Now()), e, Now())
    {
      if !permitted {
        return Denied;
      }
      var existing := FindPending(entityType, entityId);
      if existing.Some? {
        return DuplicateEntity;
      }
      var request := Request(Key(requestType), entityType, entityId, Pending, actor, None, None, None);
      requests := requests[newId := request];
      RecordGovernanceAudit(Requested, newId);
      return Done;
    }

    /** `_require_pending` followed by `_ensure_not_self_decision`. */
    method RequireDecidable(actor: Option<Id>, id: Id) returns (reply: Reply)
      ensures reply == if id !in requests then NotFound
                       else if requests[id].status != Pending then AlreadyDecided
                       else if !MayDecide(actor, requests[id]) then SelfDecision
                       else Done
    {
      if id !in requests {
        return NotFound;
      }
      if requests[id].status != Pending {
        return AlreadyDecided;
      }
      var requester := requests[id].requestedBy;
      if actor.Some? && requester.Some? && requester.value != "" {
        if actor.value == requester.value {
          return SelfDecision;
        }
      }
      return Done;
    }

    method RejectRequest(permitted: bool, actor: Option<Id>, id: Id, note: string, handlerOk: bool, at: int) returns (reply: Reply)
      modifies this
      ensures var e := Reject(permitted, actor, id, note, handlerOk, at);
              reply == ReplyTo(old(Now()), e) && Takes(audited, old(Now()), e, Now())
    {
      if !permitted {
        return Denied;
      }
      reply := RequireDecidable(actor, id);
      if reply != Done {
        return;
      }
      var request := requests[id].(status := Rejected);
      request := request.(decidedAt := Some(at));
      request := request.(decidedBy := actor);
      request := request.(note := NoteOf(note));
      if request.requestType in rejectHandlers && !handlerOk {
        return HandlerFailed;
      }
      requests := requests[id := request];
      RecordGovernanceAudit(RejectedBy, id);
      return Done;
    }

    method ApproveAndApply(permitted: bool, actor: Option<Id>, id: Id, note: string, handlerOk: bool, at: int) returns (reply: Reply)
      modifies this
      ensures var e := Approve(permitted, actor, id, note, handlerOk, at);
              reply == ReplyTo(old(Now()), e) && Takes(audited, old(Now()), e, Now())
    {
      if !permitted {
        return Denied;
      }
      reply := RequireDecidable(actor, id);
      if reply != Done {
        return;
      }
      var request := requests[id];
      if request.requestType !in applyHandlers {
        return HandlerMissing;
      }
      if !handlerOk {
        return HandlerFailed;
      }
      applied := applied + [id];
      request := request.(status := Approved);
      request := request.(decidedAt := Some(at));
      request := request.(decidedBy := actor);
      request := request.(note := NoteOf(note));
      requests := requests[id := request];
      RecordGovernanceAudit(ApprovedBy, id);
      return Done;
    }
  }

  // ----- runs -----------------------------------------------------------------------------------

  ghost predicate Run(audited: bool, states: seq<State>, events: seq<Event>) {
    && |states| == |events| + 1
    && states[0] == State(map[], [], [], {}, {})
    && (forall k {:trigger events[k]} :: 0 <= k < |events| ==> Takes(audited, states[k], events[k], states[k + 1]))
  }

  ghost predicate OnePending(s: State) {
    forall i, j ::
      i in s.requests && j in s.requests && s.requests[i].status == Pending
      && PendingFor(s.requests[j], s.requests[i].entityType, s.requests[i].entityId) ==>
        i == j
  }

  predicate NotSelfDecided(r: Request) {
    && (r.status == Pending ==> r.decidedBy.None?)
    && (r.decidedBy.Some? && r.requestedBy.Some? && r.requestedBy.value != "" ==> r.decidedBy != r.requestedBy)
  }

  ghost predicate AppliedOnce(s: State) {
    forall i :: multiset(s.applied)[i] == if i in s.requests && s.requests[i].status == Approved then 1 else 0
  }

  ghost predicate Inv(s: State) {
    && OnePending(s)
    && (forall i :: i in s.requests ==> NotSelfDecided(s.requests[i]))
    && AppliedOnce(s)
  }

  lemma AddKeeps(s: State, id: Id, r: Request, log: seq<Entry>)
    requires Inv(s) && id !in s.requests && r.status == Pending && NotSelfDecided(r)
    requires !HasPending(s, r.entityType, r.entityId)
    ensures Inv(s.(requests := s.requests[id := r], audit := log))
  {
  }

  lemma DecideKeeps(s: State, id: Id, r: Request, log: seq<Entry>)
    requires Inv(s) && id in s.requests && s.requests[id].status == Pending && r.status != Pending && NotSelfDecided(r)
    ensures Inv(s.(requests := s.requests[id := r], audit := log,
                   applied := if r.status == Approved then s.applied + [id] else s.applied))
  {
  }

  lemma StepKeeps(audited: bool, s: State, e: Event, t: State)
    requires Inv(s) && Takes(audited, s, e, t)
    ensures Inv(t)
  {
    if ReplyTo(s, e) == Done {
      match e
      case RequestChange(_, _, _, _, _, newId) => AddKeeps(s, newId, t.requests[newId], t.audit);
      case Reject(_, _, id, _, _, _) => DecideKeeps(s, id, t.requests[id], t.audit);
      case Approve(_, _, id, _, _, _) => DecideKeeps(s, id, t.requests[id], t.audit);
      case RegisterApply(_) =>
      case RegisterReject(_) =>
    }
  }

  /** At every moment at most one request is pending per entity, no request was decided by
      its recorded requester, and the apply handler has completed exactly once for each
      approved request and never for any other. */
  lemma {:induction false} ReachableInv(audited: bool, states: seq<State>, events: seq<Event>, k: nat)
    requires Run(audited, states, events) && k <= |events|
    ensures OnePending(states[k]) && AppliedOnce(states[k])
    ensures forall i :: i in states[k].requests ==> NotSelfDecided(states[k].requests[i])
  {
    if k > 0 {
      ReachableInv(audited, states, events, k - 1);
      StepKeeps(audited, states[k - 1], events[k - 1], states[k]);
    }
  }

  // ----- decided once and for all -----------------------------------------------------------------

  predicate Develops(r: Request, q: Request) {
    if r.status == Pending
    then q.requestType == r.requestType && q.entityType == r.entityType && q.entityId == r.entityId
         && q.requestedBy == r.requestedBy && (q.status == Pending ==> q == r)
    else q == r
  }

  lemma StepDevelops(audited: bool, s: State, e: Event, t: State, id: Id)
    requires Takes(audited, s, e, t) && id in s.requests
    ensures id in t.requests && Develops(s.requests[id], t.requests[id])
  {
  }

  /** A request keeps its identity while pending, and once decided never changes again. */
  lemma {:induction false} DecisionsAreFinal(audited: bool, states: seq<State>, events: seq<Event>, i: nat, j: nat, id: Id)
    requires Run(audited, states, events) && i <= j <= |events| && id in states[i].requests
    ensures id in states[j].requests && Develops(states[i].requests[id], states[j].requests[id])
  {
    if i < j {
      DecisionsAreFinal(audited, states, events, i, j - 1, id);
      StepDevelops(audited, states[j - 1], events[j - 1], states[j], id);
    }
  }

  // ----- the audit trail ----------------------------------------------------------------------------

  /** Statuses as a reader of the log alone would reconstruct them. */
  function Replay(log: seq<Entry>): map<Id, Status> {
    if log == [] then map[]
    else
      var last := log[|log| - 1];
      Replay(log[..|log| - 1])[last.requestId := Shown(last.action)]
  }

  function Statuses(s: State): map<Id, Status> {
    map i | i in s.requests :: s.requests[i].status
  }

  function Shown(a: Action): Status {
    match a
    case Requested => Pending
    case RejectedBy => Rejected
    case ApprovedBy => Approved
  }

  lemma ReplayOneMore(log: seq<Entry>, e: Entry)
    ensures Replay(log + [e]) == Replay(log)[e.requestId := Shown(e.action)]
  {
  }

  /** An accepted operation that concerns a request writes one record and logs its status. */
  lemma LoggedWrite(s: State, e: Event, t: State) returns (entry: Entry)
    requires Takes(true, s, e, t) && ReplyTo(s, e) == Done && !e.RegisterApply? && !e.RegisterReject?
    ensures t.audit == s.audit + [entry] && entry.requestId in t.requests
    ensures t.requests == s.requests[entry.requestId := t.requests[entry.requestId]]
    ensures t.requests[entry.requestId].status == Shown(entry.action)
    ensures entry.requestId in s.requests ==> s.requests[entry.requestId].status == Pending && entry.action != Requested
    ensures entry.requestId !in s.requests ==> entry.action == Requested
  {
    match e
    case RequestChange(_, _, _, _, _, newId) => entry := Entry(Requested, newId);
    case Reject(_, _, id, _, _, _) => entry := Entry(RejectedBy, id);
    case Approve(_, _, id, _, _, _) => entry := Entry(ApprovedBy, id);
  }

  lemma StepReplays(s: State, e: Event, t: State)
    requires Takes(true, s, e, t) && Replay(s.audit) == Statuses(s)
    ensures Replay(t.audit) == Statuses(t)
  {
    if ReplyTo(s, e) == Done && !e.RegisterApply? && !e.RegisterReject? {
      var entry := LoggedWrite(s, e, t);
      ReplayOneMore(s.audit, entry);
      StatusWritten(s, t, entry.requestId);
    }
  }

  lemma StatusWritten(s: State, t: State, id: Id)
    requires id in t.requests && t.requests == s.requests[id := t.requests[id]]
    ensures Statuses(t) == Statuses(s)[id := t.requests[id].status]
  {
  }

  /** With the audit service configured, replaying the log gives every request's status. */
  lemma {:induction false} AuditReplaysStatuses(states: seq<State>, events: seq<Event>, k: nat)
    requires Run(true, states, events) && k <= |events|
    ensures Replay(states[k].audit) == Statuses(states[k])
  {
    if k > 0 {
      AuditReplaysStatuses(states, events, k - 1);
      StepReplays(states[k - 1], events[k - 1], states[k]);
    }
  }

  function Decisions(log: seq<Entry>, id: Id): nat {
    if log == [] then 0
    else Decisions(log[..|log| - 1], id)
         + if log[|log| - 1].requestId == id && log[|log| - 1].action != Requested then 1 else 0
  }

  lemma StepLogsDecision(s: State, e: Event, t: State, id: Id)
    requires Takes(true, s, e, t)
    requires Decisions(s.audit, id) == if id in s.requests && s.requests[id].status != Pending then 1 else 0
    ensures Decisions(t.audit, id) == if id in t.requests && t.requests[id].status != Pending then 1 else 0
  {
  }

  /** The log holds exactly one decision for each decided request and none for others. */
  lemma {:induction false} EachRequestDecidedAtMostOnce(states: seq<State>, events: seq<Event>, k: nat, id: Id)
    requires Run(true, states, events) && k <= |events|
    ensures Decisions(states[k].audit, id)
         == if id in states[k].requests && states[k].requests[id].status != Pending then 1 else 0
  {
    if k > 0 {
      EachRequestDecidedAtMostOnce(states, events, k - 1, id);
      StepLogsDecision(states[k - 1], events[k - 1], states[k], id);
    }
  }

  // ----- what is accepted -------------------------------------------------------------------------

  /** One of the first `k` operations registered a handler for this type of request. */
  ghost predicate CanApply(events: seq<Event>, k: nat, requestType: string)
    requires k <= |events|
  {
    exists j :: 0 <= j < k && events[j].RegisterApply? && Key(events[j].requestType) == requestType
  }

  ghost predicate CanReject(events: seq<Event>, k: nat, requestType: string)
    requires k <= |events|
  {
    exists j :: 0 <= j < k && events[j].RegisterReject? && Key(events[j].requestType) == requestType
  }

  lemma {:induction false} HandlersAreRegistered(audited: bool, states: seq<State>, events: seq<Event>, k: nat, requestType: string)
    requires Run(audited, states, events) && k <= |events|
    ensures requestType in states[k].applyHandlers <==> CanApply(events, k, requestType)
    ensures requestType in states[k].rejectHandlers <==> CanReject(events, k, requestType)
  {
    if k > 0 {
      HandlersAreRegistered(audited, states, events, k - 1, requestType);
      assert Takes(audited, states[k - 1], events[k - 1], states[k]);
    }
  }

  /** The request is the actor's own. */
  predicate Own(actor: Option<Id>, r: Request) {
    actor.Some? && actor.value != "" && r.requestedBy == actor
  }

  /** The request awaits a decision, and this actor, permitted to decide, did not make it. */
  predicate Decidable(s: State, permitted: bool, actor: Option<Id>, id: Id) {
    permitted && id in s.requests && s.requests[id].status == Pending && !Own(actor, s.requests[id])
  }

  /** What was stored of a decision: status, decider, time and note, and nothing else. */
  predicate DecidedBy(r: Request, q: Request, status: Status, actor: Option<Id>, note: string, at: int) {
    && q == r.(status := status, decidedBy := actor, decidedAt := Some(at), note := q.note)
    && q.note == if Strip(note) == "" then None else Some(Strip(note))
  }

  /** In every run a governed change is requested exactly when that is permitted and no
      request for the same entity is pending; otherwise nothing changes. */
  lemma RequestsAreJudged(audited: bool, states: seq<State>, events: seq<Event>, k: nat)
    requires Run(audited, states, events) && k < |events| && events[k].RequestChange?
    ensures var s, t, e := states[k], states[k + 1], events[k];
            if e.permitted && forall i :: i in s.requests && s.requests[i].status == Pending ==>
                                s.requests[i].entityType != e.entityType || s.requests[i].entityId != e.entityId
            then && e.newId !in s.requests
                 && t.requests == s.requests[e.newId := Request(Key(e.requestType), e.entityType, e.entityId, Pending, e.actor, None, None, None)]
                 && t.applied == s.applied
            else t == s
  {
    assert Takes(audited, states[k], events[k], states[k + 1]);
  }

  /** In every run a request is approved, and its change applied, exactly when it is
      decidable, an apply handler was registered for its type, and that handler succeeds;
      otherwise nothing changes. */
  lemma ApprovalsAreJudged(audited: bool, states: seq<State>, events: seq<Event>, k: nat)
    requires Run(audited, states, events) && k < |events| && events[k].Approve?
    ensures var s, t, e := states[k], states[k + 1], events[k];
            if Decidable(s, e.permitted, e.actor, e.id) && CanApply(events, k, s.requests[e.id].requestType) && e.handlerOk
            then && e.id in t.requests && DecidedBy(s.requests[e.id], t.requests[e.id], Approved, e.actor, e.note, e.at)
                 && t.requests == s.requests[e.id := t.requests[e.id]] && t.applied == s.applied + [e.id]
            else t == s
  {
    assert Takes(audited, states[k], events[k], states[k + 1]);
    if events[k].id in states[k].requests {
      HandlersAreRegistered(audited, states, events, k, states[k].requests[events[k].id].requestType);
    }
  }

  /** In every run a request is rejected exactly when it is decidable and its type has no
      reject handler or that handler succeeds; otherwise nothing changes. */
  lemma RejectionsAreJudged(audited: bool, states: seq<State>, events: seq<Event>, k: nat)
    requires Run(audited, states, events) && k < |events| && events[k].Reject?
    ensures var s, t, e := states[k], states[k + 1], events[k];
            if Decidable(s, e.permitted, e.actor, e.id) && (CanReject(events, k, s.requests[e.id].requestType) ==> e.handlerOk)
            then && e.id in t.requests && DecidedBy(s.requests[e.id], t.requests[e.id], Rejected, e.actor, e.note, e.at)
                 && t.requests == s.requests[e.id := t.requests[e.id]] && t.applied == s.applied
            else t == s
  {
    assert Takes(audited, states[k], events[k], states[k + 1]);
    if events[k].id in states[k].requests {
      HandlersAreRegistered(audited, states, events, k, states[k].requests[events[k].id].requestType);
    }
  }
}
