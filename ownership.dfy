/**
 * Owner references, the NodeReplacement built for a target, the filter that
 * keeps the replacements a rollout owns, and the (NodeUID, NodeName) check
 * that makes creation safe to repeat (newOwnerRef,
 * createNodeReplacementFromSpec, filterReplacementsByOwner,
 * containsOwnerReference and replacementAlreadyExists in
 * pkg/controller/noderollout/handler/handler.go).
 */
module Ownership {
  import opened Common
  import opened ApiTypes

  /** SchemeGroupVersion of the navarchos API group; register.go is not part of this model. */
  const SchemeGroupVersion: string := "navarchos.pusher.com/v1alpha1"

  /** newOwnerRef: a reference to owner, with both flags set explicitly (never nil). */
  function NewOwnerRef(owner: ObjectMeta, gvk: TypeMeta, isController: bool, blockOwnerDeletion: bool): OwnerReference {
    OwnerReference(gvk.apiVersion, gvk.kind, owner.name, owner.uid, Some(blockOwnerDeletion), Some(isController))
  }

  /** The controlling reference a rollout puts on the replacements it creates. */
  function RolloutOwnerRef(rollout: NodeRollout): OwnerReference {
    NewOwnerRef(rollout.meta, rollout.typeMeta, true, true)
  }

  /** The informational back-reference to the node being replaced. */
  function NodeOwnerRef(node: Node): OwnerReference {
    NewOwnerRef(node.meta, node.typeMeta, false, false)
  }

  /** createNodeReplacementFromSpec */
  function CreateNodeReplacementFromSpec(spec: NodeReplacementSpec, rolloutOwner: NodeRollout, nodeOwner: Node): NodeReplacement {
    NodeReplacement(
      TypeMeta(SchemeGroupVersion, "NodeReplacement"),
      EmptyMeta.(generateName := spec.nodeName + "-",
                 ownerReferences := [RolloutOwnerRef(rolloutOwner), NodeOwnerRef(nodeOwner)]),
      spec,
      EmptyReplacementStatus)
  }

  /** containsOwnerReference: some reference is structurally equal to ownerRef. */
  predicate ContainsOwnerReference(ownerRefs: seq<OwnerReference>, ownerRef: OwnerReference) {
    exists i :: 0 <= i < |ownerRefs| && ownerRefs[i] == ownerRef
  }

  predicate OwnedBy(nr: NodeReplacement, rollout: NodeRollout) {
    ContainsOwnerReference(nr.meta.ownerReferences, RolloutOwnerRef(rollout))
  }

  /** The replacements rollout owns, in list order. */
  function FilterByOwner(items: seq<NodeReplacement>, rollout: NodeRollout): (r: seq<NodeReplacement>)
    ensures forall x :: x in r <==> x in items && OwnedBy(x, rollout)
    ensures |r| <= |items|
    decreases |items|
  {
    if items == [] then []
    else
      var last := items[|items| - 1];
      FilterByOwner(items[..|items| - 1], rollout) + (if OwnedBy(last, rollout) then [last] else [])
  }

  /** filterReplacementsByOwner */
  method FilterReplacementsByOwner(nodeReplacementList: seq<NodeReplacement>, instance: NodeRollout)
    returns (nodeReplacements: seq<NodeReplacement>)
    ensures nodeReplacements == FilterByOwner(nodeReplacementList, instance)
  {
    var rolloutOwnerRef := NewOwnerRef(instance.meta, instance.typeMeta, true, true);
    nodeReplacements := [];
    for i := 0 to |nodeReplacementList|
      invariant nodeReplacements == FilterByOwner(nodeReplacementList[..i], instance)
    {
      assert nodeReplacementList[..i + 1][..i] == nodeReplacementList[..i];
      var nr := nodeReplacementList[i];
      if ContainsOwnerReference(nr.meta.ownerReferences, rolloutOwnerRef) {
        nodeReplacements := nodeReplacements + [nr];
      }
    }
    assert nodeReplacementList[..|nodeReplacementList|] == nodeReplacementList;
  }

  /** The filter keeps list order: filtering a concatenation concatenates the filtered parts. */
  lemma {:induction false} FilterByOwnerAppend(a: seq<NodeReplacement>, b: seq<NodeReplacement>, rollout: NodeRollout)
    ensures FilterByOwner(a + b, rollout) == FilterByOwner(a, rollout) + FilterByOwner(b, rollout)
    decreases |b|
  {
    if b != [] {
      var b' := b[..|b| - 1];
      assert (a + b)[..|a + b| - 1] == a + b';
      assert (a + b)[|a + b| - 1] == b[|b| - 1];
      FilterByOwnerAppend(a, b', rollout);
    } else {
      assert a + b == a;
    }
  }

  /**
   * A built replacement carries exactly two references: the rollout's,
   * controlling and blocking deletion, then the node's, with both flags false.
   * It is owned by a rollout exactly when that rollout's reference equals its builder's.
   */
  lemma BuiltReplacementOwners(spec: NodeReplacementSpec, rollout: NodeRollout, node: Node, other: NodeRollout)
    ensures var nr := CreateNodeReplacementFromSpec(spec, rollout, node);
      && nr.meta.generateName == spec.nodeName + "-"
      && nr.spec == spec
      && |nr.meta.ownerReferences| == 2
      && nr.meta.ownerReferences[0] ==
         OwnerReference(rollout.typeMeta.apiVersion, rollout.typeMeta.kind, rollout.meta.name, rollout.meta.uid, Some(true), Some(true))
      && nr.meta.ownerReferences[1] ==
         OwnerReference(node.typeMeta.apiVersion, node.typeMeta.kind, node.meta.name, node.meta.uid, Some(false), Some(false))
      && (OwnedBy(nr, other) <==> RolloutOwnerRef(other) == RolloutOwnerRef(rollout))
  {
    var nr := CreateNodeReplacementFromSpec(spec, rollout, node);
    if OwnedBy(nr, other) {
      var i :| 0 <= i < 2 && nr.meta.ownerReferences[i] == RolloutOwnerRef(other);
    }
  }

  /** replacementAlreadyExists: some listed replacement targets the same node name and UID. */
  predicate ReplacementAlreadyExists(nodeReplacements: seq<NodeReplacement>, nodeReplacement: NodeReplacement) {
    exists i :: 0 <= i < |nodeReplacements| &&
      nodeReplacements[i].spec.nodeUID == nodeReplacement.spec.nodeUID &&
      nodeReplacements[i].spec.nodeName == nodeReplacement.spec.nodeName
  }

  /**
   * Deduplication is by (NodeUID, NodeName): a node recreated under the same
   * name with a new UID is not covered by the replacements of its predecessor.
   */
  lemma RecreatedNodeNotDeduplicated(nodeReplacements: seq<NodeReplacement>, nodeReplacement: NodeReplacement)
    requires forall i :: 0 <= i < |nodeReplacements| && nodeReplacements[i].spec.nodeName == nodeReplacement.spec.nodeName ==>
      nodeReplacements[i].spec.nodeUID != nodeReplacement.spec.nodeUID
    ensures !ReplacementAlreadyExists(nodeReplacements, nodeReplacement)
  {
  }

  /** The check sees a list as a set: more elements can only turn it from false to true. */
  lemma AlreadyExistsMonotone(small: seq<NodeReplacement>, large: seq<NodeReplacement>, nr: NodeReplacement)
    requires forall x :: x in small ==> x in large
    requires ReplacementAlreadyExists(small, nr)
    ensures ReplacementAlreadyExists(large, nr)
  {
    var i :| 0 <= i < |small| && small[i].spec.nodeUID == nr.spec.nodeUID && small[i].spec.nodeName == nr.spec.nodeName;
    assert small[i] in large;
    var j :| 0 <= j < |large| && large[j] == small[i];
  }
}
