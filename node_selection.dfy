/**
 * Target-node selection of the NodeRollout "New" phase
 * (filterNodeSelectors, filterNodeNames and newNodeReplacementSpec in
 * pkg/controller/noderollout/handler/handler.go).
 *
 * Selector entries are applied first, in order, each over the whole node
 * list; name entries second, in order, each to the first node of that name.
 * Every write is a map update, so later writes win. The fold functions
 * below process their list from the back (the last element is the last
 * write), which is the shape the loops of the two methods follow.
 */
module NodeSelection {
  import opened Common
  import opened ApiTypes
  import opened LabelSelectors

  /** nodeReplacementSpec: a selected node and the spec of the replacement to build for it. */
  datatype Target = Target(node: Node, replacementSpec: NodeReplacementSpec)

  /** Selected targets keyed by node name. */
  type TargetMap = map<string, Target>

  function NewNodeReplacementSpec(node: Node, rs: ReplacementSpec): Target {
    Target(node, NodeReplacementSpec(rs, node.meta.name, node.meta.uid))
  }

  /** Node names are unique in a node list read from the cluster. */
  predicate UniqueNames(nodes: seq<Node>) {
    Distinct(NodeNames(nodes))
  }

  function NodeNames(nodes: seq<Node>): (r: seq<string>)
    ensures |r| == |nodes| && forall i :: 0 <= i < |nodes| ==> r[i] == nodes[i].meta.name
  {
    seq(|nodes|, i requires 0 <= i < |nodes| => nodes[i].meta.name)
  }

  /** Every entry is keyed by the name of a listed node and describes that node. */
  ghost predicate WellFormedTargets(nodes: seq<Node>, m: TargetMap) {
    forall k :: k in m ==>
      && m[k].node in nodes
      && m[k].node.meta.name == k
      && m[k].replacementSpec.nodeName == k
      && m[k].replacementSpec.nodeUID == m[k].node.meta.uid
  }

  // ---------------------------------------------------------------------
  // Selector entries
  // ---------------------------------------------------------------------

  /** One selector over the node list: every matching node is (re)written. */
  function MatchNodes(nodes: seq<Node>, ls: LabelSelector, rs: ReplacementSpec, m: TargetMap): TargetMap
    decreases |nodes|
  {
    if nodes == [] then m
    else
      var n := nodes[|nodes| - 1];
      var m' := MatchNodes(nodes[..|nodes| - 1], ls, rs, m);
      if Matches(ls, n.meta.labels) then m'[n.meta.name := NewNodeReplacementSpec(n, rs)] else m'
  }

  /** All selector entries, in order, starting from m. */
  function ApplySelectors(nodes: seq<Node>, sels: seq<NodeLabelSelector>, m: TargetMap): TargetMap
    decreases |sels|
  {
    if sels == [] then m
    else
      var s := sels[|sels| - 1];
      MatchNodes(nodes, s.labelSelector, s.replacementSpec, ApplySelectors(nodes, sels[..|sels| - 1], m))
  }

  predicate AllSelectorsWellFormed(sels: seq<NodeLabelSelector>) {
    forall i :: 0 <= i < |sels| ==> WellFormed(sels[i].labelSelector)
  }

  /** What filterNodeSelectors returns: a malformed selector discards everything. */
  function SelectByLabels(nodes: seq<Node>, sels: seq<NodeLabelSelector>, m: TargetMap): Result<TargetMap, Error> {
    if AllSelectorsWellFormed(sels) then Success(ApplySelectors(nodes, sels, m))
    else Failure(InvalidSelectorError)
  }

  /** filterNodeSelectors */
  method FilterNodeSelectors(nodes: seq<Node>, selectors: seq<NodeLabelSelector>, nodeMap: TargetMap)
    returns (r: Result<TargetMap, Error>)
    ensures r == SelectByLabels(nodes, selectors, nodeMap)
  {
    var m := nodeMap;
    for i := 0 to |selectors|
      invariant AllSelectorsWellFormed(selectors[..i])
      invariant m == ApplySelectors(nodes, selectors[..i], nodeMap)
    {
      var selector := AsSelector(selectors[i].labelSelector);
      if selector.Failure? {
        assert !WellFormed(selectors[i].labelSelector);
        return Failure(selector.error);
      }
      ghost var before := m;
      for j := 0 to |nodes|
        invariant m == MatchNodes(nodes[..j], selector.value, selectors[i].replacementSpec, before)
      {
        assert nodes[..j + 1][..j] == nodes[..j];
        if Matches(selector.value, nodes[j].meta.labels) {
          m := m[nodes[j].meta.name := NewNodeReplacementSpec(nodes[j], selectors[i].replacementSpec)];
        }
      }
      assert nodes[..|nodes|] == nodes;
      assert selectors[..i + 1][..i] == selectors[..i];
    }
    assert selectors[..|selectors|] == selectors;
    return Success(m);
  }

  lemma {:induction false} MatchNodesKeys(nodes: seq<Node>, ls: LabelSelector, rs: ReplacementSpec, m: TargetMap)
    ensures forall k :: k in MatchNodes(nodes, ls, rs, m) <==>
      k in m || exists j :: 0 <= j < |nodes| && nodes[j].meta.name == k && Matches(ls, nodes[j].meta.labels)
    decreases |nodes|
  {
    if nodes != [] {
      var p := nodes[..|nodes| - 1];
      MatchNodesKeys(p, ls, rs, m);
      assert forall j :: 0 <= j < |p| ==> p[j] == nodes[j];
    }
  }

  /** A key that no node of that name matches keeps its previous entry (or absence). */
  lemma {:induction false} MatchNodesUntouched(nodes: seq<Node>, ls: LabelSelector, rs: ReplacementSpec, m: TargetMap, k: string)
    requires forall j :: 0 <= j < |nodes| && nodes[j].meta.name == k ==> !Matches(ls, nodes[j].meta.labels)
    ensures k in MatchNodes(nodes, ls, rs, m) <==> k in m
    ensures k in m ==> MatchNodes(nodes, ls, rs, m)[k] == m[k]
    decreases |nodes|
  {
    if nodes != [] {
      var p := nodes[..|nodes| - 1];
      assert forall j :: 0 <= j < |p| ==> p[j] == nodes[j];
      MatchNodesUntouched(p, ls, rs, m, k);
    }
  }

  /** A matching node is written with the selector's replacement spec. */
  lemma {:induction false} MatchNodesHit(nodes: seq<Node>, ls: LabelSelector, rs: ReplacementSpec, m: TargetMap, j: nat)
    requires UniqueNames(nodes)
    requires j < |nodes| && Matches(ls, nodes[j].meta.labels)
    ensures nodes[j].meta.name in MatchNodes(nodes, ls, rs, m)
    ensures MatchNodes(nodes, ls, rs, m)[nodes[j].meta.name] == NewNodeReplacementSpec(nodes[j], rs)
    decreases |nodes|
  {
    if j < |nodes| - 1 {
      var p := nodes[..|nodes| - 1];
      assert p[j] == nodes[j];
      MatchNodesHit(p, ls, rs, m, j);
    }
  }

  /**
   * Later selectors overwrite earlier ones: a node's entry comes from the
   * last selector that matches it.
   */
  lemma {:induction false} LastMatchingSelectorWins(nodes: seq<Node>, sels: seq<NodeLabelSelector>, m: TargetMap, i: nat, j: nat)
    requires UniqueNames(nodes)
    requires i < |sels| && j < |nodes|
    requires Matches(sels[i].labelSelector, nodes[j].meta.labels)
    requires forall i' :: i < i' < |sels| ==> !Matches(sels[i'].labelSelector, nodes[j].meta.labels)
    ensures nodes[j].meta.name in ApplySelectors(nodes, sels, m)
    ensures ApplySelectors(nodes, sels, m)[nodes[j].meta.name] == NewNodeReplacementSpec(nodes[j], sels[i].replacementSpec)
    decreases |sels|
  {
    var s := sels[|sels| - 1];
    var p := sels[..|sels| - 1];
    if i == |sels| - 1 {
      MatchNodesHit(nodes, s.labelSelector, s.replacementSpec, ApplySelectors(nodes, p, m), j);
    } else {
      assert forall i' :: i < i' < |p| ==> p[i'] == sels[i'];
      LastMatchingSelectorWins(nodes, p, m, i, j);
      MatchNodesUntouched(nodes, s.labelSelector, s.replacementSpec, ApplySelectors(nodes, p, m), nodes[j].meta.name);
    }
  }

  /** The keys after the selectors: the starting keys plus every node some selector matches. */
  lemma {:induction false} SelectorKeys(nodes: seq<Node>, sels: seq<NodeLabelSelector>, m: TargetMap)
    ensures forall k :: k in ApplySelectors(nodes, sels, m) <==>
      k in m || exists i, j :: 0 <= i < |sels| && 0 <= j < |nodes| && nodes[j].meta.name == k && Matches(sels[i].labelSelector, nodes[j].meta.labels)
    decreases |sels|
  {
    if sels != [] {
      var s := sels[|sels| - 1];
      var p := sels[..|sels| - 1];
      SelectorKeys(nodes, p, m);
      MatchNodesKeys(nodes, s.labelSelector, s.replacementSpec, ApplySelectors(nodes, p, m));
      assert forall i :: 0 <= i < |p| ==> p[i] == sels[i];
    }
  }

  /** A key that no selector writes keeps its previous entry. */
  lemma {:induction false} SelectorsUntouched(nodes: seq<Node>, sels: seq<NodeLabelSelector>, m: TargetMap, k: string)
    requires k in m
    requires forall i, j :: 0 <= i < |sels| && 0 <= j < |nodes| && nodes[j].meta.name == k ==> !Matches(sels[i].labelSelector, nodes[j].meta.labels)
    ensures k in ApplySelectors(nodes, sels, m) && ApplySelectors(nodes, sels, m)[k] == m[k]
    decreases |sels|
  {
    if sels != [] {
      var s := sels[|sels| - 1];
      var p := sels[..|sels| - 1];
      assert forall i :: 0 <= i < |p| ==> p[i] == sels[i];
      SelectorsUntouched(nodes, p, m, k);
      MatchNodesUntouched(nodes, s.labelSelector, s.replacementSpec, ApplySelectors(nodes, p, m), k);
    }
  }

  lemma {:induction false} MatchNodesWellFormed(all: seq<Node>, nodes: seq<Node>, ls: LabelSelector, rs: ReplacementSpec, m: TargetMap)
    requires forall n :: n in nodes ==> n in all
    requires WellFormedTargets(all, m)
    ensures WellFormedTargets(all, MatchNodes(nodes, ls, rs, m))
    decreases |nodes|
  {
    if nodes != [] {
      var p := nodes[..|nodes| - 1];
      assert forall n :: n in p ==> n in nodes;
      MatchNodesWellFormed(all, p, ls, rs, m);
      assert nodes[|nodes| - 1] in nodes;
    }
  }

  lemma {:induction false} SelectorsWellFormed(nodes: seq<Node>, sels: seq<NodeLabelSelector>, m: TargetMap)
    requires WellFormedTargets(nodes, m)
    ensures WellFormedTargets(nodes, ApplySelectors(nodes, sels, m))
    decreases |sels|
  {
    if sels != [] {
      var s := sels[|sels| - 1];
      var p := sels[..|sels| - 1];
      SelectorsWellFormed(nodes, p, m);
      MatchNodesWellFormed(nodes, nodes, s.labelSelector, s.replacementSpec, ApplySelectors(nodes, p, m));
    }
  }

  // ---------------------------------------------------------------------
  // Name entries
  // ---------------------------------------------------------------------

  /** No node before position j carries the name. */
  predicate FirstNamed(nodes: seq<Node>, name: string, j: nat) {
    forall j' :: 0 <= j' < j && j' < |nodes| ==> nodes[j'].meta.name != name
  }

  /** The first listed node with the given name (the inner loop of filterNodeNames, which breaks there). */
  function FindNode(nodes: seq<Node>, name: string): (r: Option<Node>)
    ensures r.Some? ==> r.value in nodes && r.value.meta.name == name
    ensures r.Some? ==> exists j :: 0 <= j < |nodes| && nodes[j] == r.value && FirstNamed(nodes, name, j)
    ensures r.None? <==> forall j :: 0 <= j < |nodes| ==> nodes[j].meta.name != name
    decreases |nodes|
  {
    if nodes == [] then None
    else if nodes[0].meta.name == name then Some(nodes[0])
    else
      var r := FindNode(nodes[1..], name);
      assert forall j :: 0 < j < |nodes| ==> nodes[j] == nodes[1..][j - 1];
      r
  }

  /** All name entries, in order, starting from m; a name no node carries is skipped. */
  function ApplyNames(nodes: seq<Node>, names: seq<NodeName>, m: TargetMap): TargetMap
    decreases |names|
  {
    if names == [] then m
    else
      var e := names[|names| - 1];
      var m' := ApplyNames(nodes, names[..|names| - 1], m);
      match FindNode(nodes, e.name)
      case None => m'
      case Some(n) => m'[n.meta.name := NewNodeReplacementSpec(n, e.replacementSpec)]
  }

  /** filterNodeNames */
  method FilterNodeNames(nodes: seq<Node>, nodeNames: seq<NodeName>, nodeMap: TargetMap) returns (r: TargetMap)
    ensures r == ApplyNames(nodes, nodeNames, nodeMap)
  {
    r := nodeMap;
    for i := 0 to |nodeNames|
      invariant r == ApplyNames(nodes, nodeNames[..i], nodeMap)
    {
      assert nodeNames[..i + 1][..i] == nodeNames[..i];
      var selectedName := nodeNames[i];
      var j := 0;
      while j < |nodes|
        invariant 0 <= j <= |nodes|
        invariant FindNode(nodes[j..], selectedName.name) == FindNode(nodes, selectedName.name)
        invariant r == ApplyNames(nodes, nodeNames[..i], nodeMap)
      {
        if nodes[j].meta.name == selectedName.name {
          r := r[nodes[j].meta.name := NewNodeReplacementSpec(nodes[j], selectedName.replacementSpec)];
          assert r == ApplyNames(nodes, nodeNames[..i + 1], nodeMap);
          break;
        }
        assert nodes[j..][1..] == nodes[j + 1..];
        j := j + 1;
      }
      assert j == |nodes| ==> FindNode(nodes, selectedName.name).None?;
    }
    assert nodeNames[..|nodeNames|] == nodeNames;
  }

  /**
   * Name entries override whatever was there before: a named node that is
   * listed ends up with the spec of the last entry naming it.
   */
  lemma {:induction false} LastNameEntryWins(nodes: seq<Node>, names: seq<NodeName>, m: TargetMap, i: nat)
    requires i < |names|
    requires FindNode(nodes, names[i].name).Some?
    requires forall i' :: i < i' < |names| ==> names[i'].name != names[i].name
    ensures names[i].name in ApplyNames(nodes, names, m)
    ensures ApplyNames(nodes, names, m)[names[i].name] ==
      NewNodeReplacementSpec(FindNode(nodes, names[i].name).value, names[i].replacementSpec)
    decreases |names|
  {
    var p := names[..|names| - 1];
    if i < |names| - 1 {
      assert forall i' :: i < i' < |p| ==> p[i'] == names[i'];
      LastNameEntryWins(nodes, p, m, i);
      var last := names[|names| - 1];
      match FindNode(nodes, last.name)
      case None =>
      case Some(n) =>
    }
  }

  /** The keys after the names: the starting keys plus every named node that is listed. */
  lemma {:induction false} NameKeys(nodes: seq<Node>, names: seq<NodeName>, m: TargetMap)
    ensures forall k :: k in ApplyNames(nodes, names, m) <==>
      k in m || exists i :: 0 <= i < |names| && names[i].name == k && FindNode(nodes, k).Some?
    decreases |names|
  {
    if names != [] {
      var p := names[..|names| - 1];
      NameKeys(nodes, p, m);
      assert forall i :: 0 <= i < |p| ==> p[i] == names[i];
    }
  }

  /** A key no name entry mentions keeps its entry from the selectors. */
  lemma {:induction false} UnnamedEntriesKept(nodes: seq<Node>, names: seq<NodeName>, m: TargetMap, k: string)
    requires k in m
    requires forall i :: 0 <= i < |names| ==> names[i].name != k
    ensures k in ApplyNames(nodes, names, m) && ApplyNames(nodes, names, m)[k] == m[k]
    decreases |names|
  {
    if names != [] {
      var p := names[..|names| - 1];
      assert forall i :: 0 <= i < |p| ==> p[i] == names[i];
      UnnamedEntriesKept(nodes, p, m, k);
    }
  }

  lemma {:induction false} NamesWellFormed(nodes: seq<Node>, names: seq<NodeName>, m: TargetMap)
    requires WellFormedTargets(nodes, m)
    ensures WellFormedTargets(nodes, ApplyNames(nodes, names, m))
    decreases |names|
  {
    if names != [] {
      NamesWellFormed(nodes, names[..|names| - 1], m);
    }
  }

  // ---------------------------------------------------------------------
  // The whole selection of handleNew (lines 91-97)
  // ---------------------------------------------------------------------

  /** Selectors from an empty map, then names over the result. */
  function SelectTargets(nodes: seq<Node>, spec: NodeRolloutSpec): Result<TargetMap, Error> {
    match SelectByLabels(nodes, spec.nodeSelectors, map[])
    case Failure(e) => Failure(e)
    case Success(m) => Success(ApplyNames(nodes, spec.nodeNames, m))
  }

  /** Selection fails exactly when some selector is malformed. */
  lemma SelectionFailsOnMalformedSelector(nodes: seq<Node>, spec: NodeRolloutSpec)
    ensures SelectTargets(nodes, spec).Failure? <==>
      exists i :: 0 <= i < |spec.nodeSelectors| && !WellFormed(spec.nodeSelectors[i].labelSelector)
  {
  }

  /** Every selected key is a listed node's name, and its entry describes that node. */
  lemma SelectedTargetsWellFormed(nodes: seq<Node>, spec: NodeRolloutSpec)
    ensures SelectTargets(nodes, spec).Success? ==> WellFormedTargets(nodes, SelectTargets(nodes, spec).value)
  {
    if SelectTargets(nodes, spec).Success? {
      SelectorsWellFormed(nodes, spec.nodeSelectors, map[]);
      NamesWellFormed(nodes, spec.nodeNames, ApplySelectors(nodes, spec.nodeSelectors, map[]));
    }
  }

  /** The selected keys: nodes some selector matches plus listed nodes some entry names. */
  lemma SelectedKeys(nodes: seq<Node>, spec: NodeRolloutSpec)
    ensures SelectTargets(nodes, spec).Success? ==> forall k :: k in SelectTargets(nodes, spec).value <==>
      || (exists i, j :: 0 <= i < |spec.nodeSelectors| && 0 <= j < |nodes| && nodes[j].meta.name == k &&
            Matches(spec.nodeSelectors[i].labelSelector, nodes[j].meta.labels))
      || (exists i :: 0 <= i < |spec.nodeNames| && spec.nodeNames[i].name == k && FindNode(nodes, k).Some?)
  {
    if SelectTargets(nodes, spec).Success? {
      SelectorKeys(nodes, spec.nodeSelectors, map[]);
      NameKeys(nodes, spec.nodeNames, ApplySelectors(nodes, spec.nodeSelectors, map[]));
    }
  }

  /** Name entries beat selector entries, whatever the selectors matched. */
  lemma NamesOverrideSelectors(nodes: seq<Node>, spec: NodeRolloutSpec, i: nat)
    requires i < |spec.nodeNames|
    requires FindNode(nodes, spec.nodeNames[i].name).Some?
    requires forall i' :: i < i' < |spec.nodeNames| ==> spec.nodeNames[i'].name != spec.nodeNames[i].name
    ensures SelectTargets(nodes, spec).Success? ==>
      && spec.nodeNames[i].name in SelectTargets(nodes, spec).value
      && SelectTargets(nodes, spec).value[spec.nodeNames[i].name].replacementSpec.replacementSpec ==
         spec.nodeNames[i].replacementSpec
  {
    if SelectTargets(nodes, spec).Success? {
      LastNameEntryWins(nodes, spec.nodeNames, ApplySelectors(nodes, spec.nodeSelectors, map[]), i);
    }
  }

  /** A node only selectors reach gets the spec of the last selector matching it. */
  lemma SelectorOnlyTarget(nodes: seq<Node>, spec: NodeRolloutSpec, i: nat, j: nat)
    requires UniqueNames(nodes)
    requires i < |spec.nodeSelectors| && j < |nodes|
    requires Matches(spec.nodeSelectors[i].labelSelector, nodes[j].meta.labels)
    requires forall i' :: i < i' < |spec.nodeSelectors| ==> !Matches(spec.nodeSelectors[i'].labelSelector, nodes[j].meta.labels)
    requires forall e :: 0 <= e < |spec.nodeNames| ==> spec.nodeNames[e].name != nodes[j].meta.name
    ensures SelectTargets(nodes, spec).Success? ==>
      && nodes[j].meta.name in SelectTargets(nodes, spec).value
      && SelectTargets(nodes, spec).value[nodes[j].meta.name] ==
         NewNodeReplacementSpec(nodes[j], spec.nodeSelectors[i].replacementSpec)
  {
    if SelectTargets(nodes, spec).Success? {
      var m := ApplySelectors(nodes, spec.nodeSelectors, map[]);
      LastMatchingSelectorWins(nodes, spec.nodeSelectors, map[], i, j);
      UnnamedEntriesKept(nodes, spec.nodeNames, m, nodes[j].meta.name);
    }
  }
}
