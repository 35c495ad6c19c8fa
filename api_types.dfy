/**
 * The Kubernetes and navarchos API objects the core reads and writes
 * (pkg/apis/navarchos/v1alpha1 and the parts of corev1/metav1 it touches),
 * as immutable values.
 */
module ApiTypes {
  import opened Common

  /** Timestamps (metav1.Time) as an abstract clock reading. */
  type Time = int

  /** metav1.TypeMeta: the group/version and kind an object declares. */
  datatype TypeMeta = TypeMeta(apiVersion: string, kind: string)

  /**
   * metav1.OwnerReference. The two flags are pointers in Go, so a reference
   * that leaves them nil differs from one that sets them to false.
   */
  datatype OwnerReference = OwnerReference(
    apiVersion: string,
    kind: string,
    name: string,
    uid: string,
    blockOwnerDeletion: Option<bool>,
    controller: Option<bool>)

  /** The part of metav1.ObjectMeta the core uses. */
  datatype ObjectMeta = ObjectMeta(
    name: string,
    generateName: string,
    uid: string,
    labels: map<string, string>,
    ownerReferences: seq<OwnerReference>)

  const EmptyMeta: ObjectMeta := ObjectMeta("", "", "", map[], [])

  /** corev1.Node: only its identity and labels matter here. */
  datatype Node = Node(typeMeta: TypeMeta, meta: ObjectMeta)

  /** The replacement parameters a selector or name entry carries; passed through unchanged. */
  datatype ReplacementSpec = ReplacementSpec(parameters: map<string, string>)

  /** A label selector as written in a rollout (metav1.LabelSelector). */
  datatype LabelSelector = LabelSelector(
    matchLabels: map<string, string>,
    matchExpressions: seq<LabelSelectorRequirement>)

  datatype LabelSelectorRequirement = LabelSelectorRequirement(
    key: string,
    operator: SelectorOperator,
    values: seq<string>)

  /** The operators of a selector requirement; any other text is kept as Unrecognised. */
  datatype SelectorOperator = In | NotIn | Exists | DoesNotExist | Unrecognised(text: string)

  /** One entry of NodeRolloutSpec.NodeSelectors. */
  datatype NodeLabelSelector = NodeLabelSelector(labelSelector: LabelSelector, replacementSpec: ReplacementSpec)

  /** One entry of NodeRolloutSpec.NodeNames. */
  datatype NodeName = NodeName(name: string, replacementSpec: ReplacementSpec)

  datatype NodeRolloutSpec = NodeRolloutSpec(nodeSelectors: seq<NodeLabelSelector>, nodeNames: seq<NodeName>)

  /**
   * A rollout phase. Other holds every string except "New", "InProgress" and
   * "Completed", which are always the named constructors; the empty string
   * (unset) is Other("").
   */
  datatype RolloutPhase =
    | RolloutPhaseNew
    | RolloutPhaseInProgress
    | RolloutPhaseCompleted
    | RolloutPhaseOther(text: string)

  datatype NodeRolloutStatus = NodeRolloutStatus(phase: RolloutPhase)

  datatype NodeRollout = NodeRollout(
    typeMeta: TypeMeta,
    meta: ObjectMeta,
    spec: NodeRolloutSpec,
    status: NodeRolloutStatus)

  /** NodeReplacementSpec: what to replace (name and UID of the node) and how. */
  datatype NodeReplacementSpec = NodeReplacementSpec(
    replacementSpec: ReplacementSpec,
    nodeName: string,
    nodeUID: string)

  /**
   * A replacement phase. Other holds every string except "New",
   * "InProgress" and "Completed", which are always the named constructors.
   */
  datatype ReplacementPhase =
    | ReplacementPhaseNew
    | ReplacementPhaseInProgress
    | ReplacementPhaseCompleted
    | ReplacementPhaseOther(text: string)

  /** A pod together with the reason it was ignored or failed. */
  datatype PodReason = PodReason(name: string, reason: string)

  datatype ConditionType = NodeCordonedType | OtherConditionType(text: string)

  datatype ConditionStatus = ConditionTrue | ConditionFalse | ConditionUnknown

  datatype NodeReplacementCondition = NodeReplacementCondition(
    conditionType: ConditionType,
    status: ConditionStatus,
    lastUpdateTime: Time,
    lastTransitionTime: Time,
    reason: string,
    message: string)

  datatype NodeReplacementStatus = NodeReplacementStatus(
    phase: ReplacementPhase,
    nodePods: seq<string>,
    nodePodsCount: int,
    evictedPods: seq<string>,
    evictedPodsCount: int,
    ignoredPods: seq<PodReason>,
    ignoredPodsCount: int,
    failedPods: seq<PodReason>,
    failedPodsCount: int,
    completionTimestamp: Option<Time>,
    conditions: seq<NodeReplacementCondition>)

  /** The zero value of NodeReplacementStatus, as a freshly built replacement carries it. */
  const EmptyReplacementStatus: NodeReplacementStatus :=
    NodeReplacementStatus(ReplacementPhaseOther(""), [], 0, [], 0, [], 0, [], 0, None, [])

  datatype NodeReplacement = NodeReplacement(
    typeMeta: TypeMeta,
    meta: ObjectMeta,
    spec: NodeReplacementSpec,
    status: NodeReplacementStatus)
}
