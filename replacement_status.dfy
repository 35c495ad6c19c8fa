/**
 * The NodeReplacement status merge: how UpdateStatus folds a status.Result
 * into the status a NodeReplacement already carries.
 *
 * The rules are the ones status_test.go asserts field by field. On any
 * error the stored status is left as it was.
 */
module ReplacementStatus {
  import opened Common
  import opened ApiTypes

  /**
   * status.Result for a NodeReplacement: what one reconcile step wants to
   * record. None stands for a nil pointer or nil slice (the field is not
   * set); an empty nodeCordonReason is an unset reason.
   */
  datatype ReplacementResult = ReplacementResult(
    phase: Option<ReplacementPhase>,
    nodePods: Option<seq<string>>,
    evictedPods: Option<seq<string>>,
    ignoredPods: Option<seq<PodReason>>,
    failedPods: Option<seq<PodReason>>,
    completionTimestamp: Option<Time>,
    nodeCordonReason: string,
    nodeCordonError: Option<Error>)

  /** A Result that sets nothing. */
  const EmptyResult: ReplacementResult :=
    ReplacementResult(None, None, None, None, None, None, "", None)

  datatype ImmutableField = NodePodsField | IgnoredPodsField | CompletionTimestampField

  datatype StatusError =
    | FieldImmutable(field: ImmutableField)
    | CordonErrorWithoutReason

  /** The text of the error UpdateStatus returns. */
  function ErrorText(e: StatusError): string {
    match e
    case FieldImmutable(NodePodsField) => "cannot update NodePods, field is immutable once set"
    case FieldImmutable(IgnoredPodsField) => "cannot update IgnoredPods, field is immutable once set"
    case FieldImmutable(CompletionTimestampField) => "cannot update CompletionTimestamp, field is immutable once set"
    case CordonErrorWithoutReason => "NodeCordonError is set but NodeCordonReason is not"
  }

  // ---------------------------------------------------------------------
  // EvictedPods: union without duplicates
  // ---------------------------------------------------------------------

  /** s with every repeated name dropped after its first occurrence. */
  function Dedup(s: seq<string>): (r: seq<string>)
    ensures forall x :: x in r <==> x in s
    ensures Distinct(r)
    ensures |r| <= |s|
    ensures Distinct(s) ==> r == s
    decreases |s|
  {
    if s == [] then []
    else
      var p := Dedup(s[..|s| - 1]);
      var x := s[|s| - 1];
      assert s == s[..|s| - 1] + [x];
      if x in p then p else p + [x]
  }

  /** The joined EvictedPods list. */
  function Union(existing: seq<string>, incoming: seq<string>): seq<string> {
    Dedup(existing + incoming)
  }

  /** Deduplicating a list extended only by names it already holds gives the list back. */
  lemma {:induction false} DedupAbsorbsKnown(p: seq<string>, t: seq<string>)
    requires Distinct(p)
    requires forall x :: x in t ==> x in p
    ensures Dedup(p + t) == p
    decreases |t|
  {
    if t == [] {
      assert p + t == p;
    } else {
      var t' := t[..|t| - 1];
      assert (p + t)[..|p + t| - 1] == p + t';
      assert (p + t)[|p + t| - 1] == t[|t| - 1];
      DedupAbsorbsKnown(p, t');
    }
  }

  /**
   * The joined list holds exactly the names of both lists, once each; from
   * an empty list a duplicate-free incoming list is adopted as it is; and
   * joining the same incoming names again changes nothing.
   */
  lemma UnionProperties(existing: seq<string>, incoming: seq<string>)
    ensures forall x :: x in Union(existing, incoming) <==> x in existing || x in incoming
    ensures Distinct(Union(existing, incoming))
    ensures existing == [] && Distinct(incoming) ==> Union(existing, incoming) == incoming
    ensures Union(Union(existing, incoming), incoming) == Union(existing, incoming)
  {
    if existing == [] {
      assert existing + incoming == incoming;
    }
    DedupAbsorbsKnown(Union(existing, incoming), incoming);
  }

  // ---------------------------------------------------------------------
  // Conditions
  // ---------------------------------------------------------------------

  /** The index of the first condition of type t, if there is one. */
  function FindCondition(conds: seq<NodeReplacementCondition>, t: ConditionType): (r: Option<nat>)
    ensures r.None? <==> forall j :: 0 <= j < |conds| ==> conds[j].conditionType != t
    ensures r.Some? ==> r.value < |conds| && conds[r.value].conditionType == t
    ensures r.Some? ==> forall j :: 0 <= j < r.value ==> conds[j].conditionType != t
    decreases |conds|
  {
    if conds == [] then None
    else if conds[0].conditionType == t then Some(0)
    else match FindCondition(conds[1..], t)
      case None => None
      case Some(i) => Some(i + 1)
  }

  /**
   * Upsert c by type: a condition of that type is replaced (keeping its
   * transition time when the status did not change), otherwise c is added
   * at the end.
   */
  function SetCondition(conds: seq<NodeReplacementCondition>, c: NodeReplacementCondition): seq<NodeReplacementCondition> {
    match FindCondition(conds, c.conditionType)
    case None => conds + [c]
    case Some(i) =>
      conds[i := if conds[i].status == c.status then c.(lastTransitionTime := conds[i].lastTransitionTime) else c]
  }

  /**
   * After the upsert there is a condition of c's type carrying c's status,
   * reason, message and update time; every condition of another type is
   * kept in place; a new condition is added only when none of that type
   * existed; the transition time moves only when the status changed.
   */
  lemma SetConditionUpserts(conds: seq<NodeReplacementCondition>, c: NodeReplacementCondition)
    ensures var r := SetCondition(conds, c);
      && FindCondition(r, c.conditionType).Some?
      && var e := r[FindCondition(r, c.conditionType).value];
      && e.status == c.status && e.reason == c.reason && e.message == c.message
      && e.lastUpdateTime == c.lastUpdateTime
      && (match FindCondition(conds, c.conditionType)
          case None => e.lastTransitionTime == c.lastTransitionTime
          case Some(i) =>
            e.lastTransitionTime == if conds[i].status == c.status then conds[i].lastTransitionTime else c.lastTransitionTime)
      && |r| == |conds| + (if FindCondition(conds, c.conditionType).None? then 1 else 0)
      && forall j :: 0 <= j < |conds| && conds[j].conditionType != c.conditionType ==> r[j] == conds[j]
  {
    var r := SetCondition(conds, c);
    match FindCondition(conds, c.conditionType)
    case None =>
      assert r[|conds|].conditionType == c.conditionType;
      assert FindCondition(r, c.conditionType) == Some(|conds|);
    case Some(i) =>
      assert r[i].conditionType == c.conditionType;
      assert forall j :: 0 <= j < i ==> r[j] == conds[j];
      assert FindCondition(r, c.conditionType) == Some(i);
  }

  /** Setting the same condition twice gives what setting it once gave. */
  lemma SetConditionIdempotent(conds: seq<NodeReplacementCondition>, c: NodeReplacementCondition)
    ensures SetCondition(SetCondition(conds, c), c) == SetCondition(conds, c)
  {
    var r := SetCondition(conds, c);
    SetConditionUpserts(conds, c);
    var i := FindCondition(r, c.conditionType).value;
    assert r[i].status == c.status;
    assert r[i := r[i]] == r;
  }

  /** The NodeCordoned condition a Result asks for, stamped with now. */
  function CordonCondition(result: ReplacementResult, now: Time): NodeReplacementCondition {
    NodeReplacementCondition(
      NodeCordonedType,
      if result.nodeCordonError.None? then ConditionTrue else ConditionFalse,
      now, now,
      result.nodeCordonReason,
      if result.nodeCordonError.None? then "" else result.nodeCordonError.value.message)
  }

  // ---------------------------------------------------------------------
  // The merge
  // ---------------------------------------------------------------------

  /** The first rule the Result breaks, checked in this order, if any. */
  function Violation(prev: NodeReplacementStatus, result: ReplacementResult): Option<StatusError> {
    if result.nodeCordonError.Some? && result.nodeCordonReason == "" then Some(CordonErrorWithoutReason)
    else if result.nodePods.Some? && prev.nodePods != [] then Some(FieldImmutable(NodePodsField))
    else if result.ignoredPods.Some? && prev.ignoredPods != [] then Some(FieldImmutable(IgnoredPodsField))
    else if result.completionTimestamp.Some? && prev.completionTimestamp.Some? then Some(FieldImmutable(CompletionTimestampField))
    else None
  }

  /** Every field the Result sets, written into prev. */
  function Apply(prev: NodeReplacementStatus, result: ReplacementResult, now: Time): NodeReplacementStatus {
    var nodePods := if result.nodePods.Some? then result.nodePods.value else prev.nodePods;
    var evicted := if result.evictedPods.Some? then Union(prev.evictedPods, result.evictedPods.value) else prev.evictedPods;
    var ignored := if result.ignoredPods.Some? then result.ignoredPods.value else prev.ignoredPods;
    var failed := if result.failedPods.Some? then result.failedPods.value else prev.failedPods;
    NodeReplacementStatus(
      if result.phase.Some? then result.phase.value else prev.phase,
      nodePods,
      if result.nodePods.Some? then |nodePods| else prev.nodePodsCount,
      evicted,
      if result.evictedPods.Some? then |evicted| else prev.evictedPodsCount,
      ignored,
      if result.ignoredPods.Some? then |ignored| else prev.ignoredPodsCount,
      failed,
      if result.failedPods.Some? then |failed| else prev.failedPodsCount,
      if result.completionTimestamp.Some? then result.completionTimestamp else prev.completionTimestamp,
      if result.nodeCordonReason != "" then SetCondition(prev.conditions, CordonCondition(result, now)) else prev.conditions)
  }

  /** UpdateStatus as a value transform: the next status, or the error it returns. */
  function Merge(prev: NodeReplacementStatus, result: ReplacementResult, now: Time): Result<NodeReplacementStatus, StatusError> {
    match Violation(prev, result)
    case Some(e) => Failure(e)
    case None => Success(Apply(prev, result, now))
  }

  /**
   * UpdateStatus fails exactly when a NodeCordonError comes without a
   * reason, or when NodePods, IgnoredPods or CompletionTimestamp is set on
   * both sides.
   */
  lemma MergeFailsOnlyOnConflict(prev: NodeReplacementStatus, result: ReplacementResult, now: Time)
    ensures Merge(prev, result, now).Failure? <==>
      || (result.nodeCordonError.Some? && result.nodeCordonReason == "")
      || (result.nodePods.Some? && prev.nodePods != [])
      || (result.ignoredPods.Some? && prev.ignoredPods != [])
      || (result.completionTimestamp.Some? && prev.completionTimestamp.Some?)
  {
  }

  /** A Result that sets nothing leaves the status as it is. */
  lemma EmptyResultChangesNothing(prev: NodeReplacementStatus, now: Time)
    ensures Merge(prev, EmptyResult, now) == Success(prev)
  {
  }

  /** A Phase in the Result becomes the status phase; without one the phase is kept. */
  lemma PhaseRule(prev: NodeReplacementStatus, result: ReplacementResult, now: Time)
    requires Merge(prev, result, now).Success?
    ensures Merge(prev, result, now).value.phase == if result.phase.Some? then result.phase.value else prev.phase
  {
  }

  /**
   * NodePods is written once: from empty the Result's list is adopted with
   * its length as count; once set, a Result that sets it again fails with
   * the immutable-field error (unless the cordon rule already failed).
   */
  lemma NodePodsRule(prev: NodeReplacementStatus, result: ReplacementResult, now: Time)
    ensures var r := Merge(prev, result, now);
      && (r.Success? && result.nodePods.Some? ==>
            prev.nodePods == [] && r.value.nodePods == result.nodePods.value
            && r.value.nodePodsCount == |result.nodePods.value|)
      && (r.Success? && result.nodePods.None? ==>
            r.value.nodePods == prev.nodePods && r.value.nodePodsCount == prev.nodePodsCount)
      && (result.nodePods.Some? && prev.nodePods != [] ==>
            r.Failure? && (r.error == CordonErrorWithoutReason ||
              ErrorText(r.error) == "cannot update NodePods, field is immutable once set"))
  {
  }

  /** IgnoredPods follows the same write-once rule as NodePods. */
  lemma IgnoredPodsRule(prev: NodeReplacementStatus, result: ReplacementResult, now: Time)
    ensures var r := Merge(prev, result, now);
      && (r.Success? && result.ignoredPods.Some? ==>
            prev.ignoredPods == [] && r.value.ignoredPods == result.ignoredPods.value
            && r.value.ignoredPodsCount == |result.ignoredPods.value|)
      && (r.Success? && result.ignoredPods.None? ==>
            r.value.ignoredPods == prev.ignoredPods && r.value.ignoredPodsCount == prev.ignoredPodsCount)
      && (result.ignoredPods.Some? && prev.ignoredPods != [] && result.nodePods.None? &&
          !(result.nodeCordonError.Some? && result.nodeCordonReason == "") ==>
            r.Failure? && ErrorText(r.error) == "cannot update IgnoredPods, field is immutable once set")
  {
  }

  /**
   * EvictedPods accumulates: the new list holds exactly the names evicted
   * before and the Result's names, once each, and its count is its length.
   */
  lemma EvictedPodsRule(prev: NodeReplacementStatus, result: ReplacementResult, now: Time)
    requires Merge(prev, result, now).Success?
    ensures var s := Merge(prev, result, now).value;
      && (result.evictedPods.Some? ==>
            && (forall x :: x in s.evictedPods <==> x in prev.evictedPods || x in result.evictedPods.value)
            && Distinct(s.evictedPods)
            && s.evictedPodsCount == |s.evictedPods|
            && (prev.evictedPods == [] && Distinct(result.evictedPods.value) ==> s.evictedPods == result.evictedPods.value))
      && (result.evictedPods.None? ==>
            s.evictedPods == prev.evictedPods && s.evictedPodsCount == prev.evictedPodsCount)
  {
    if result.evictedPods.Some? {
      UnionProperties(prev.evictedPods, result.evictedPods.value);
    }
  }

  /**
   * FailedPods never causes a failure; it is replaced by the Result's list,
   * whatever it held before, and kept with its count when the Result leaves
   * it unset.
   */
  lemma FailedPodsRule(prev: NodeReplacementStatus, result: ReplacementResult, now: Time)
    requires Violation(prev, result).None?
    ensures Merge(prev, result, now).Success?
    ensures result.failedPods.Some? ==>
      && Merge(prev, result, now).value.failedPods == result.failedPods.value
      && Merge(prev, result, now).value.failedPodsCount == |result.failedPods.value|
    ensures result.failedPods.None? ==>
      && Merge(prev, result, now).value.failedPods == prev.failedPods
      && Merge(prev, result, now).value.failedPodsCount == prev.failedPodsCount
  {
  }

  /**
   * CompletionTimestamp is set when it was nil and the Result has one,
   * stays as it was when the Result has none, and cannot be overwritten.
   */
  lemma CompletionTimestampRule(prev: NodeReplacementStatus, result: ReplacementResult, now: Time)
    ensures var r := Merge(prev, result, now);
      && (r.Success? && result.completionTimestamp.Some? ==>
            prev.completionTimestamp.None? && r.value.completionTimestamp == result.completionTimestamp)
      && (r.Success? && result.completionTimestamp.None? ==> r.value.completionTimestamp == prev.completionTimestamp)
      && (result.completionTimestamp.Some? && prev.completionTimestamp.Some? ==> r.Failure?)
      && (result.completionTimestamp.Some? && prev.completionTimestamp.Some? &&
          result.nodePods.None? && result.ignoredPods.None? && result.nodeCordonError.None? ==>
            ErrorText(r.error) == "cannot update CompletionTimestamp, field is immutable once set")
  {
  }

  /**
   * A reason yields a NodeCordoned condition with that reason: Status True
   * and an empty message without an error, Status False and the error's
   * text with one. Without a reason no condition is touched.
   */
  lemma CordonConditionRule(prev: NodeReplacementStatus, result: ReplacementResult, now: Time)
    requires Merge(prev, result, now).Success?
    ensures var s := Merge(prev, result, now).value;
      && (result.nodeCordonReason == "" ==> s.conditions == prev.conditions)
      && (result.nodeCordonReason != "" ==>
            && FindCondition(s.conditions, NodeCordonedType).Some?
            && var c := s.conditions[FindCondition(s.conditions, NodeCordonedType).value];
            && c.reason == result.nodeCordonReason
            && (result.nodeCordonError.None? ==> c.status == ConditionTrue && c.message == "")
            && (result.nodeCordonError.Some? ==> c.status == ConditionFalse && c.message == result.nodeCordonError.value.message))
  {
    if result.nodeCordonReason != "" {
      SetConditionUpserts(prev.conditions, CordonCondition(result, now));
    }
  }

  /** A NodeCordonError needs a NodeCordonReason; a reason alone, both, or neither are accepted. */
  lemma CordonValidation(prev: NodeReplacementStatus, result: ReplacementResult, now: Time)
    ensures result.nodeCordonError.Some? && result.nodeCordonReason == "" ==>
      Merge(prev, result, now) == Failure(CordonErrorWithoutReason)
    ensures result.nodeCordonError.None? || result.nodeCordonReason != "" ==>
      Merge(prev, result, now).Success? == Merge(prev, result.(nodeCordonReason := "", nodeCordonError := None), now).Success?
  {
  }

  /** A NodeReplacement whose Status UpdateStatus rewrites. */
  class NodeReplacementObject {
    var status: NodeReplacementStatus

    constructor(status0: NodeReplacementStatus)
      ensures status == status0
    {
      status := status0;
    }

    /** UpdateStatus: merge the Result in, or leave the status and return the error. */
    method UpdateStatus(result: ReplacementResult, now: Time) returns (err: Option<StatusError>)
      modifies this
      ensures Merge(old(status), result, now).Success? ==>
        status == Merge(old(status), result, now).value && err == None
      ensures Merge(old(status), result, now).Failure? ==>
        status == old(status) && err == Some(Merge(old(status), result, now).error)
    {
      var next := Merge(status, result, now);
      if next.Failure? {
        return Some(next.error);
      }
      status := next.value;
      err := None;
    }
  }
}
