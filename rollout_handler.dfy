/**
 * The NodeRollout handler (pkg/controller/noderollout/handler/handler.go):
 * Options, phase dispatch, the "New" phase, the creation pass over the
 * selected targets and the folding of its outcomes into a Result.
 *
 * The creation pass runs one goroutine per target in the source; here it is
 * a sequential loop. The order in which targets are visited (Go map order)
 * and which Create calls the cluster rejects are not fixed by the source, so
 * the methods return both as ghost outputs (order, failures) and their
 * contracts describe the outcome for every such choice.
 */
module RolloutHandler {
  import opened Common
  import opened ApiTypes
  import opened NodeSelection
  import opened Ownership

  // ---------------------------------------------------------------------
  // Options
  // ---------------------------------------------------------------------

  /** time.Hour, in nanoseconds (time.Duration's unit). */
  const Hour: int := 3_600_000_000_000

  const DefaultMaxAge: int := 48 * Hour

  /** The MaxAge that Options.Complete leaves behind. */
  function CompletedMaxAge(maxAge: Option<int>): Option<int> {
    if maxAge.None? then Some(DefaultMaxAge) else maxAge
  }

  /** Complete fills in 48h only when MaxAge is nil, keeps an explicit value, and is idempotent. */
  lemma CompleteDefaultsOnlyNil(maxAge: Option<int>)
    ensures CompletedMaxAge(maxAge).Some?
    ensures maxAge.None? ==> CompletedMaxAge(maxAge).value == 48 * 3_600_000_000_000
    ensures maxAge.Some? ==> CompletedMaxAge(maxAge) == maxAge
    ensures CompletedMaxAge(CompletedMaxAge(maxAge)) == CompletedMaxAge(maxAge)
  {
  }

  /** Options configure the handler. */
  class Options {
    /** The age after which a rollout is garbage collected; nil until defaulted. */
    var maxAge: Option<int>

    constructor (maxAge: Option<int>)
      ensures this.maxAge == maxAge
    {
      this.maxAge := maxAge;
    }

    /** Options.Complete */
    method Complete()
      modifies this
      ensures maxAge == CompletedMaxAge(old(maxAge))
    {
      if maxAge.None? {
        maxAge := Some(DefaultMaxAge);
      }
    }
  }

  // ---------------------------------------------------------------------
  // The cluster the handler talks to
  // ---------------------------------------------------------------------

  /**
   * An in-memory stand-in for the API client: the node list, the
   * NodeReplacement list, and the error each List call returns, if any.
   * Create appends the object or is rejected; which one happens is not
   * determined.
   */
  class Cluster {
    var nodes: seq<Node>
    var replacements: seq<NodeReplacement>
    var nodeListError: Option<Error>
    var replacementListError: Option<Error>

    constructor (nodes: seq<Node>, replacements: seq<NodeReplacement>,
                 nodeListError: Option<Error>, replacementListError: Option<Error>)
      ensures this.nodes == nodes && this.replacements == replacements
      ensures this.nodeListError == nodeListError && this.replacementListError == replacementListError
    {
      this.nodes := nodes;
      this.replacements := replacements;
      this.nodeListError := nodeListError;
      this.replacementListError := replacementListError;
    }

    method ListNodes() returns (r: Result<seq<Node>, Error>)
      ensures nodeListError.Some? ==> r == Failure(nodeListError.value)
      ensures nodeListError.None? ==> r == Success(nodes)
    {
      if nodeListError.Some? {
        return Failure(nodeListError.value);
      }
      return Success(nodes);
    }

    method ListNodeReplacements() returns (r: Result<seq<NodeReplacement>, Error>)
      ensures replacementListError.Some? ==> r == Failure(replacementListError.value)
      ensures replacementListError.None? ==> r == Success(replacements)
    {
      if replacementListError.Some? {
        return Failure(replacementListError.value);
      }
      return Success(replacements);
    }

    method Create(nr: NodeReplacement) returns (err: Option<Error>)
      modifies this`replacements
      ensures err.None? ==> replacements == old(replacements) + [nr]
      ensures err.Some? ==> replacements == old(replacements)
    {
      var accepted: bool :| true;
      if accepted {
        replacements := replacements + [nr];
        err := None;
      } else {
        err := Some(Error("the API server rejected the NodeReplacement"));
      }
    }
  }

  // ---------------------------------------------------------------------
  // Results
  // ---------------------------------------------------------------------

  /** The errors a rollout Result can carry; message texts are kept abstract. */
  datatype RolloutError =
    | ListNodesFailed(cause: Error)
    | FilterNodesFailed(cause: Error)
    | CreateReplacementsFailed(cause: Error)
      /** The joined "has occurred N time(s)" message: each error with its count. */
    | ReplacementErrors(counts: multiset<Error>)

  /** status.Result of the rollout controller, the fields this handler sets. */
  datatype RolloutResult = RolloutResult(
    phase: Option<RolloutPhase>,
    replacementsCreated: seq<string>,
    replacementsCreatedError: Option<RolloutError>)

  const EmptyResult: RolloutResult := RolloutResult(None, [], None)

  function ErrorOnly(e: RolloutError): RolloutResult {
    RolloutResult(None, [], Some(e))
  }

  /** replacementCreationResult: one message of the output channel. */
  datatype CreationOutcome = CreationOutcome(err: Option<Error>, replacementCreated: string)

  /** The node names of the error-free messages, in channel order. */
  function Names(outs: seq<CreationOutcome>): seq<string>
    decreases |outs|
  {
    if outs == [] then []
    else
      var o := outs[|outs| - 1];
      Names(outs[..|outs| - 1]) + (if o.err.None? then [o.replacementCreated] else [])
  }

  /** The errors of the messages, with multiplicity: the errMap of handleNew. */
  function Errors(outs: seq<CreationOutcome>): multiset<Error>
    decreases |outs|
  {
    if outs == [] then multiset{}
    else
      var o := outs[|outs| - 1];
      Errors(outs[..|outs| - 1]) + (if o.err.Some? then multiset{o.err.value} else multiset{})
  }

  /** The Result handleNew folds from the channel (lines 105-129). */
  function Aggregate(outs: seq<CreationOutcome>): RolloutResult {
    if |Errors(outs)| > 0 then RolloutResult(None, Names(outs), Some(ReplacementErrors(Errors(outs))))
    else RolloutResult(Some(RolloutPhaseInProgress), Names(outs), None)
  }

  /** The loop of handleNew that drains the channel into errMap and ReplacementsCreated. */
  method AggregateOutcomes(outputChannel: seq<CreationOutcome>) returns (result: RolloutResult)
    ensures result == Aggregate(outputChannel)
  {
    var created: seq<string> := [];
    var errMap: multiset<Error> := multiset{};
    for i := 0 to |outputChannel|
      invariant created == Names(outputChannel[..i])
      invariant errMap == Errors(outputChannel[..i])
    {
      assert outputChannel[..i + 1][..i] == outputChannel[..i];
      var output := outputChannel[i];
      if output.err.Some? {
        errMap := errMap[output.err.value := errMap[output.err.value] + 1];
      } else {
        created := created + [output.replacementCreated];
      }
    }
    assert outputChannel[..|outputChannel|] == outputChannel;
    if |errMap| > 0 {
      return RolloutResult(None, created, Some(ReplacementErrors(errMap)));
    }
    return RolloutResult(Some(RolloutPhaseInProgress), created, None);
  }

  // ---------------------------------------------------------------------
  // Specification of one creation pass
  // ---------------------------------------------------------------------

  function Build(targets: TargetMap, k: string, instance: NodeRollout): NodeReplacement
    requires k in targets
  {
    CreateNodeReplacementFromSpec(targets[k].replacementSpec, instance, targets[k].node)
  }

  /** The targets no owned replacement covers yet: exactly those a Create is issued for. */
  function Pending(targets: TargetMap, instance: NodeRollout, owned: seq<NodeReplacement>): set<string> {
    set k | k in targets && !ReplacementAlreadyExists(owned, Build(targets, k, instance))
  }

  function Elems(s: seq<string>): set<string> {
    set x | x in s
  }

  /** Every entry carries its own key as node name, as selection guarantees. */
  predicate Keyed(targets: TargetMap) {
    forall k :: k in targets ==> targets[k].replacementSpec.nodeName == k
  }

  /** order visits every target exactly once. */
  predicate IsOrderOf(order: seq<string>, targets: TargetMap) {
    Distinct(order) && Covers(targets, order) && forall k :: k in targets ==> k in order
  }

  predicate Covers(targets: TargetMap, order: seq<string>) {
    forall i :: 0 <= i < |order| ==> order[i] in targets
  }

  /** The replacements a pass adds to the cluster, in visiting order. */
  function Created(targets: TargetMap, instance: NodeRollout, order: seq<string>, pending: set<string>, failures: map<string, Error>): seq<NodeReplacement>
    requires Covers(targets, order)
    decreases |order|
  {
    if order == [] then []
    else
      var k := order[|order| - 1];
      Created(targets, instance, order[..|order| - 1], pending, failures) +
        (if k in pending && k !in failures then [Build(targets, k, instance)] else [])
  }

  /**
   * The messages a pass sends, in visiting order. A rejected Create sends its
   * error and then, like every other target, the node's name (lines 236, 240).
   */
  function Messages(targets: TargetMap, order: seq<string>, failures: map<string, Error>): seq<CreationOutcome>
    requires Covers(targets, order)
    decreases |order|
  {
    if order == [] then []
    else
      var k := order[|order| - 1];
      Messages(targets, order[..|order| - 1], failures) +
        Outcomes(targets, k, if k in failures then Some(failures[k]) else None)
  }

  /** What one target sends: its error if its Create failed, then its node name. */
  function Outcomes(targets: TargetMap, k: string, failed: Option<Error>): seq<CreationOutcome>
    requires k in targets
  {
    (if failed.Some? then [CreationOutcome(Some(failed.value), "")] else []) +
      [CreationOutcome(None, targets[k].replacementSpec.nodeName)]
  }

  /** A completed pass: every target visited once, failures only among issued creates, successes appended. */
  ghost predicate CreatePass(targets: TargetMap, instance: NodeRollout, before: seq<NodeReplacement>,
                             order: seq<string>, failures: map<string, Error>, after: seq<NodeReplacement>)
  {
    && IsOrderOf(order, targets)
    && failures.Keys <= Pending(targets, instance, FilterByOwner(before, instance))
    && after == before + Created(targets, instance, order, Pending(targets, instance, FilterByOwner(before, instance)), failures)
  }

  lemma {:induction false} MessagesIgnoreUnvisited(targets: TargetMap, order: seq<string>, failures: map<string, Error>, k: string, e: Error)
    requires Covers(targets, order) && k !in order
    ensures Messages(targets, order, failures[k := e]) == Messages(targets, order, failures)
    decreases |order|
  {
    if order != [] {
      MessagesIgnoreUnvisited(targets, order[..|order| - 1], failures, k, e);
    }
  }

  lemma {:induction false} CreatedIgnoresUnvisited(targets: TargetMap, instance: NodeRollout, order: seq<string>, pending: set<string>, failures: map<string, Error>, k: string, e: Error)
    requires Covers(targets, order) && k !in order
    ensures Created(targets, instance, order, pending, failures[k := e]) == Created(targets, instance, order, pending, failures)
    decreases |order|
  {
    if order != [] {
      CreatedIgnoresUnvisited(targets, instance, order[..|order| - 1], pending, failures, k, e);
    }
  }

  /** Visiting one more target extends the messages and the created replacements by its share. */
  lemma PassStep(targets: TargetMap, instance: NodeRollout, order: seq<string>, pending: set<string>,
                 failures: map<string, Error>, k: string, failed: Option<Error>)
    requires Covers(targets, order) && k in targets && k !in order && k !in failures
    ensures var f' := if failed.Some? then failures[k := failed.value] else failures;
      && Covers(targets, order + [k])
      && Messages(targets, order + [k], f') == Messages(targets, order, failures) + Outcomes(targets, k, failed)
      && Created(targets, instance, order + [k], pending, f') ==
         Created(targets, instance, order, pending, failures) +
           (if k in pending && failed.None? then [Build(targets, k, instance)] else [])
  {
    var order' := order + [k];
    assert order'[..|order'| - 1] == order;
    if failed.Some? {
      MessagesIgnoreUnvisited(targets, order, failures, k, failed.value);
      CreatedIgnoresUnvisited(targets, instance, order, pending, failures, k, failed.value);
    }
  }

  lemma {:induction false} CreatedElements(targets: TargetMap, instance: NodeRollout, order: seq<string>, pending: set<string>, failures: map<string, Error>)
    requires Covers(targets, order)
    ensures forall x :: x in Created(targets, instance, order, pending, failures) <==>
      exists k :: k in order && k in pending && k !in failures && x == Build(targets, k, instance)
    decreases |order|
  {
    if order != [] {
      var p := order[..|order| - 1];
      CreatedElements(targets, instance, p, pending, failures);
      assert forall k :: k in order <==> k in p || k == order[|order| - 1];
    }
  }

  // ---------------------------------------------------------------------
  // The handler
  // ---------------------------------------------------------------------

  /** NodeRolloutHandler */
  class NodeRolloutHandler {
    const client: Cluster
    const maxAge: int

    /** NewNodeRolloutHandler: completes the options and keeps the resulting MaxAge. */
    constructor (c: Cluster, opts: Options)
      modifies opts
      ensures client == c
      ensures opts.maxAge == CompletedMaxAge(old(opts.maxAge)) && maxAge == opts.maxAge.value
    {
      opts.Complete();
      client := c;
      maxAge := opts.maxAge.value;
    }

    /** The body of one goroutine of createNodeReplacements (lines 229-241). */
    method CreateOne(targets: TargetMap, key: string, instance: NodeRollout, filteredNr: seq<NodeReplacement>)
      returns (outputs: seq<CreationOutcome>, ghost failed: Option<Error>)
      requires key in targets
      modifies client`replacements
      ensures failed.Some? ==> key in Pending(targets, instance, filteredNr)
      ensures outputs == Outcomes(targets, key, failed)
      ensures client.replacements == old(client.replacements) +
        (if key in Pending(targets, instance, filteredNr) && failed.None? then [Build(targets, key, instance)] else [])
    {
      var spec := targets[key];
      var nodeReplacement := CreateNodeReplacementFromSpec(spec.replacementSpec, instance, spec.node);
      outputs, failed := [], None;
      if !ReplacementAlreadyExists(filteredNr, nodeReplacement) {
        var err := client.Create(nodeReplacement);
        if err.Some? {
          var e := Error("failed to create NodeReplacement: " + err.value.message);
          outputs := outputs + [CreationOutcome(Some(e), "")];
          failed := Some(e);
        }
      }
      outputs := outputs + [CreationOutcome(None, spec.replacementSpec.nodeName)];
    }

    /** createNodeReplacements, run sequentially. */
    method CreateNodeReplacements(nodeReplacementMap: TargetMap, instance: NodeRollout)
      returns (r: Result<seq<CreationOutcome>, Error>, ghost order: seq<string>, ghost failures: map<string, Error>)
      modifies client`replacements
      ensures old(client.replacementListError).Some? ==>
        && r == Failure(Error("error listing NodeReplacements: " + old(client.replacementListError).value.message))
        && client.replacements == old(client.replacements)
      ensures old(client.replacementListError).None? ==>
        && CreatePass(nodeReplacementMap, instance, old(client.replacements), order, failures, client.replacements)
        && r == Success(Messages(nodeReplacementMap, order, failures))
    {
      order, failures := [], map[];
      var existingNodeReplacements := client.ListNodeReplacements();
      if existingNodeReplacements.Failure? {
        return Failure(Error("error listing NodeReplacements: " + existingNodeReplacements.error.message)), order, failures;
      }
      var filteredNodeReplacements := FilterReplacementsByOwner(existingNodeReplacements.value, instance);
      ghost var pending := Pending(nodeReplacementMap, instance, filteredNodeReplacements);
      var outputChannel: seq<CreationOutcome> := [];
      var remaining := nodeReplacementMap.Keys;
      while remaining != {}
        invariant remaining <= nodeReplacementMap.Keys
        invariant Distinct(order)
        invariant forall k :: k in order <==> k in nodeReplacementMap && k !in remaining
        invariant failures.Keys <= pending
        invariant forall k :: k in failures ==> k in order
        invariant outputChannel == Messages(nodeReplacementMap, order, failures)
        invariant client.replacements == old(client.replacements) + Created(nodeReplacementMap, instance, order, pending, failures)
        decreases remaining
      {
        var key :| key in remaining;
        ghost var createdSoFar := Created(nodeReplacementMap, instance, order, pending, failures);
        var outputs, failed := CreateOne(nodeReplacementMap, key, instance, filteredNodeReplacements);
        ghost var share := if key in pending && failed.None? then [Build(nodeReplacementMap, key, instance)] else [];
        PassStep(nodeReplacementMap, instance, order, pending, failures, key, failed);
        assert client.replacements == old(client.replacements) + (createdSoFar + share);
        outputChannel := outputChannel + outputs;
        if failed.Some? {
          failures := failures[key := failed.value];
        }
        order := order + [key];
        remaining := remaining - {key};
      }
      return Success(outputChannel), order, failures;
    }

    /** handleNew */
    method HandleNew(instance: NodeRollout)
      returns (result: RolloutResult, ghost order: seq<string>, ghost failures: map<string, Error>)
      modifies client`replacements
      ensures HandledNew(old(client.nodes), old(client.nodeListError), old(client.replacementListError),
                         old(client.replacements), instance, result, order, failures, client.replacements)
    {
      order, failures := [], map[];
      var nodes := client.ListNodes();
      if nodes.Failure? {
        return ErrorOnly(ListNodesFailed(nodes.error)), order, failures;
      }
      var nodeReplacementMap := FilterNodeSelectors(nodes.value, instance.spec.nodeSelectors, map[]);
      if nodeReplacementMap.Failure? {
        return ErrorOnly(FilterNodesFailed(nodeReplacementMap.error)), order, failures;
      }
      var targets := FilterNodeNames(nodes.value, instance.spec.nodeNames, nodeReplacementMap.value);
      var outputChannel;
      outputChannel, order, failures := CreateNodeReplacements(targets, instance);
      if outputChannel.Failure? {
        return ErrorOnly(CreateReplacementsFailed(outputChannel.error)), order, failures;
      }
      result := AggregateOutcomes(outputChannel.value);
    }

    /**
     * Handle: New and any unrecognised or unset phase run handleNew;
     * InProgress and Completed return an empty Result and touch nothing.
     */
    method Handle(instance: NodeRollout)
      returns (result: RolloutResult, ghost order: seq<string>, ghost failures: map<string, Error>)
      modifies client`replacements
      ensures instance.status.phase == RolloutPhaseInProgress || instance.status.phase == RolloutPhaseCompleted ==>
        result == EmptyResult && client.replacements == old(client.replacements)
      ensures instance.status.phase.RolloutPhaseNew? || instance.status.phase.RolloutPhaseOther? ==>
        HandledNew(old(client.nodes), old(client.nodeListError), old(client.replacementListError),
                   old(client.replacements), instance, result, order, failures, client.replacements)
    {
      match instance.status.phase
      case RolloutPhaseNew =>
        result, order, failures := HandleNew(instance);
      case RolloutPhaseInProgress =>
        result, order, failures := EmptyResult, [], map[];
      case RolloutPhaseCompleted =>
        result, order, failures := EmptyResult, [], map[];
      case RolloutPhaseOther(_) =>
        result, order, failures := HandleNew(instance);
    }
  }
  // ---------------------------------------------------------------------
  // What a pass reports
  // ---------------------------------------------------------------------

  lemma {:induction false} NamesAppend(a: seq<CreationOutcome>, b: seq<CreationOutcome>)
    ensures Names(a + b) == Names(a) + Names(b)
    decreases |b|
  {
    if b == [] {
      assert a + b == a;
    } else {
      var b' := b[..|b| - 1];
      assert (a + b)[..|a + b| - 1] == a + b';
      assert (a + b)[|a + b| - 1] == b[|b| - 1];
      NamesAppend(a, b');
    }
  }

  lemma {:induction false} ErrorsAppend(a: seq<CreationOutcome>, b: seq<CreationOutcome>)
    ensures Errors(a + b) == Errors(a) + Errors(b)
    decreases |b|
  {
    if b == [] {
      assert a + b == a;
    } else {
      var b' := b[..|b| - 1];
      assert (a + b)[..|a + b| - 1] == a + b';
      assert (a + b)[|a + b| - 1] == b[|b| - 1];
      ErrorsAppend(a, b');
    }
  }

  /** One target's messages carry its node name once, and its error if its Create failed. */
  lemma OutcomesReport(targets: TargetMap, k: string, failed: Option<Error>)
    requires k in targets
    ensures Names(Outcomes(targets, k, failed)) == [targets[k].replacementSpec.nodeName]
    ensures Errors(Outcomes(targets, k, failed)) == if failed.Some? then multiset{failed.value} else multiset{}
  {
    var last := [CreationOutcome(None, targets[k].replacementSpec.nodeName)];
    assert Names(last) == [targets[k].replacementSpec.nodeName] by {
      assert last[..0] == [];
    }
    assert Errors(last) == multiset{} by {
      assert last[..0] == [];
    }
    if failed.Some? {
      var first := [CreationOutcome(Some(failed.value), "")];
      assert first[..0] == [];
      NamesAppend(first, last);
      ErrorsAppend(first, last);
    } else {
      assert Outcomes(targets, k, failed) == last;
    }
  }

  /** Every visited target reports its node name once, in visiting order, whether or not its Create failed. */
  lemma {:induction false} MessagesNames(targets: TargetMap, order: seq<string>, failures: map<string, Error>)
    requires Covers(targets, order) && Keyed(targets)
    ensures Names(Messages(targets, order, failures)) == order
    decreases |order|
  {
    if order != [] {
      var k := order[|order| - 1];
      var p := order[..|order| - 1];
      var failed := if k in failures then Some(failures[k]) else None;
      MessagesNames(targets, p, failures);
      NamesAppend(Messages(targets, p, failures), Outcomes(targets, k, failed));
      OutcomesReport(targets, k, failed);
      assert order == p + [k];
    }
  }

  /** Visiting one more, new, target adds it to the visited failures exactly when it failed. */
  lemma VisitedFailuresStep(order: seq<string>, failures: map<string, Error>)
    requires Distinct(order) && order != []
    ensures var k := order[|order| - 1];
      |Elems(order) * failures.Keys| == |Elems(order[..|order| - 1]) * failures.Keys| + (if k in failures then 1 else 0)
  {
    var k := order[|order| - 1];
    var p := order[..|order| - 1];
    assert k !in Elems(p);
    assert Elems(order) == Elems(p) + {k} by {
      assert order == p + [k];
    }
    if k in failures {
      assert Elems(order) * failures.Keys == (Elems(p) * failures.Keys) + {k};
    } else {
      assert Elems(order) * failures.Keys == Elems(p) * failures.Keys;
    }
  }

  /** One error is reported per visited target whose Create failed. */
  lemma {:induction false} MessagesErrorCount(targets: TargetMap, order: seq<string>, failures: map<string, Error>)
    requires Covers(targets, order) && Distinct(order)
    ensures |Errors(Messages(targets, order, failures))| == |Elems(order) * failures.Keys|
    decreases |order|
  {
    if order == [] {
      assert Elems(order) == {};
    } else {
      var k := order[|order| - 1];
      var p := order[..|order| - 1];
      var failed := if k in failures then Some(failures[k]) else None;
      var prefix := Messages(targets, p, failures);
      var tail := Outcomes(targets, k, failed);
      assert Messages(targets, order, failures) == prefix + tail;
      MessagesErrorCount(targets, p, failures);
      ErrorsAppend(prefix, tail);
      OutcomesReport(targets, k, failed);
      assert |Errors(tail)| == if k in failures then 1 else 0;
      VisitedFailuresStep(order, failures);
    }
  }

  /** A duplicate-free visiting order has as many distinct names as entries. */
  lemma {:induction false} DistinctElems(order: seq<string>)
    requires Distinct(order)
    ensures |Elems(order)| == |order|
    decreases |order|
  {
    if order != [] {
      var p := order[..|order| - 1];
      var k := order[|order| - 1];
      DistinctElems(p);
      assert k !in Elems(p);
      assert Elems(order) == Elems(p) + {k} by {
        assert order == p + [k];
      }
    }
  }

  /** Each visited target sends one message, plus one more when its Create failed. */
  lemma {:induction false} MessagesLength(targets: TargetMap, order: seq<string>, failures: map<string, Error>)
    requires Covers(targets, order) && Distinct(order)
    ensures |Messages(targets, order, failures)| == |order| + |Elems(order) * failures.Keys|
    decreases |order|
  {
    if order == [] {
      assert Elems(order) == {};
    } else {
      var k := order[|order| - 1];
      var p := order[..|order| - 1];
      var failed := if k in failures then Some(failures[k]) else None;
      assert Messages(targets, order, failures) == Messages(targets, p, failures) + Outcomes(targets, k, failed);
      MessagesLength(targets, p, failures);
      VisitedFailuresStep(order, failures);
    }
  }

  /**
   * A pass sends |targets| + |failures| messages into a channel of
   * len(nodeReplacementMap) = |targets| slots that nobody reads before all
   * senders finish: with any failed Create there are more sends than slots.
   */
  lemma MessagesExceedChannelCapacity(targets: TargetMap, order: seq<string>, failures: map<string, Error>)
    requires IsOrderOf(order, targets) && failures.Keys <= targets.Keys
    ensures |Messages(targets, order, failures)| == |targets| + |failures|
    ensures failures != map[] ==> |Messages(targets, order, failures)| > |targets|
  {
    MessagesLength(targets, order, failures);
    DistinctElems(order);
    assert Elems(order) == targets.Keys;
    assert Elems(order) * failures.Keys == failures.Keys;
    if failures != map[] {
      var k :| k in failures;
      assert |failures.Keys| > 0;
    }
  }

  /**
   * The Result of a pass: every target's name, once each, in visiting order;
   * the phase advances to InProgress exactly when no Create failed, and
   * otherwise the error counts add up to the number of failed creates.
   */
  lemma PassOutcome(targets: TargetMap, order: seq<string>, failures: map<string, Error>)
    requires IsOrderOf(order, targets) && Keyed(targets) && failures.Keys <= targets.Keys
    ensures var r := Aggregate(Messages(targets, order, failures));
      && r.replacementsCreated == order
      && (forall k :: k in r.replacementsCreated <==> k in targets)
      && Distinct(r.replacementsCreated)
      && (failures == map[] ==> r == RolloutResult(Some(RolloutPhaseInProgress), order, None))
      && (failures != map[] ==>
            && r.phase.None? && r.replacementsCreatedError.Some?
            && r.replacementsCreatedError.value.ReplacementErrors?
            && |r.replacementsCreatedError.value.counts| == |failures|)
  {
    MessagesNames(targets, order, failures);
    MessagesErrorCount(targets, order, failures);
    assert Elems(order) * failures.Keys == failures.Keys;
    if failures != map[] {
      var k :| k in failures;
      assert |failures.Keys| > 0;
    }
  }

  lemma {:induction false} CreatedNothingPending(targets: TargetMap, instance: NodeRollout, order: seq<string>, failures: map<string, Error>)
    requires Covers(targets, order)
    ensures Created(targets, instance, order, {}, failures) == []
    decreases |order|
  {
    if order != [] {
      CreatedNothingPending(targets, instance, order[..|order| - 1], failures);
    }
  }

  /**
   * After a pass in which no Create failed, every target is covered by an
   * owned replacement with its (NodeUID, NodeName), so nothing is pending.
   */
  lemma RetryFindsNothingPending(targets: TargetMap, instance: NodeRollout, before: seq<NodeReplacement>, order: seq<string>)
    requires IsOrderOf(order, targets)
    ensures var pending := Pending(targets, instance, FilterByOwner(before, instance));
      Pending(targets, instance, FilterByOwner(before + Created(targets, instance, order, pending, map[]), instance)) == {}
  {
    var pending := Pending(targets, instance, FilterByOwner(before, instance));
    var added := Created(targets, instance, order, pending, map[]);
    var after := before + added;
    CreatedElements(targets, instance, order, pending, map[]);
    forall k | k in targets
      ensures ReplacementAlreadyExists(FilterByOwner(after, instance), Build(targets, k, instance))
    {
      var nr := Build(targets, k, instance);
      if k in pending {
        assert nr in added;
        BuiltReplacementOwners(targets[k].replacementSpec, instance, targets[k].node, instance);
        assert nr in FilterByOwner(after, instance);
        var owned := FilterByOwner(after, instance);
        var i :| 0 <= i < |owned| && owned[i] == nr;
      } else {
        AlreadyExistsMonotone(FilterByOwner(before, instance), FilterByOwner(after, instance), nr);
      }
    }
  }

  // ---------------------------------------------------------------------
  // handleNew as a whole
  // ---------------------------------------------------------------------

  /**
   * What handleNew does, given what the cluster held before (its node list,
   * the errors its two List calls return and its replacements) and what it
   * holds after.
   */
  ghost predicate HandledNew(nodes: seq<Node>, nodeListError: Option<Error>, replacementListError: Option<Error>,
                             before: seq<NodeReplacement>, instance: NodeRollout,
                             result: RolloutResult, order: seq<string>, failures: map<string, Error>,
                             after: seq<NodeReplacement>)
  {
    if nodeListError.Some? then
      result == ErrorOnly(ListNodesFailed(nodeListError.value)) && after == before
    else match SelectTargets(nodes, instance.spec)
      case Failure(e) =>
        result == ErrorOnly(FilterNodesFailed(e)) && after == before
      case Success(targets) =>
        if replacementListError.Some? then
          && result == ErrorOnly(CreateReplacementsFailed(Error("error listing NodeReplacements: " + replacementListError.value.message)))
          && after == before
        else
          && CreatePass(targets, instance, before, order, failures, after)
          && result == Aggregate(Messages(targets, order, failures))
  }

  /**
   * The phase is set, to InProgress and without an error, exactly when both
   * lists succeeded, every selector was well formed and no Create failed;
   * otherwise an error is set and the phase stays nil.
   */
  lemma PhaseAdvancesOnlyOnFullSuccess(nodes: seq<Node>, nodeListError: Option<Error>, replacementListError: Option<Error>,
                                       before: seq<NodeReplacement>, instance: NodeRollout,
                                       result: RolloutResult, order: seq<string>, failures: map<string, Error>,
                                       after: seq<NodeReplacement>)
    requires HandledNew(nodes, nodeListError, replacementListError, before, instance, result, order, failures, after)
    ensures result.phase.Some? <==>
      nodeListError.None? && SelectTargets(nodes, instance.spec).Success? && replacementListError.None? && failures == map[]
    ensures result.phase.Some? ==> result.phase == Some(RolloutPhaseInProgress) && result.replacementsCreatedError.None?
    ensures result.phase.None? <==> result.replacementsCreatedError.Some?
  {
    if nodeListError.None? && SelectTargets(nodes, instance.spec).Success? && replacementListError.None? {
      var targets := SelectTargets(nodes, instance.spec).value;
      SelectedTargetsWellFormed(nodes, instance.spec);
      PassOutcome(targets, order, failures);
    }
  }

  /** A failed List (nodes or NodeReplacements) reports only the error: no names, no phase, no Create. */
  lemma ListFailureShortCircuits(nodes: seq<Node>, nodeListError: Option<Error>, replacementListError: Option<Error>,
                                 before: seq<NodeReplacement>, instance: NodeRollout,
                                 result: RolloutResult, order: seq<string>, failures: map<string, Error>,
                                 after: seq<NodeReplacement>)
    requires HandledNew(nodes, nodeListError, replacementListError, before, instance, result, order, failures, after)
    requires nodeListError.Some? || replacementListError.Some?
    ensures result.phase.None? && result.replacementsCreated == [] && result.replacementsCreatedError.Some?
    ensures after == before
  {
  }

  /**
   * On the full path every target is reported by name, once, even those
   * whose Create failed; the cluster only gains replacements for targets no
   * owned replacement covered, one per such target whose Create succeeded.
   */
  lemma EveryTargetReported(nodes: seq<Node>, instance: NodeRollout, before: seq<NodeReplacement>,
                            result: RolloutResult, order: seq<string>, failures: map<string, Error>,
                            after: seq<NodeReplacement>)
    requires HandledNew(nodes, None, None, before, instance, result, order, failures, after)
    requires SelectTargets(nodes, instance.spec).Success?
    ensures var targets := SelectTargets(nodes, instance.spec).value;
      && Distinct(result.replacementsCreated)
      && (forall k :: k in result.replacementsCreated <==> k in targets)
      && |before| <= |after| && after[..|before|] == before
      && (forall x :: x in after[|before|..] <==>
            exists k :: k in Pending(targets, instance, FilterByOwner(before, instance)) && k !in failures &&
              x == Build(targets, k, instance))
  {
    var targets := SelectTargets(nodes, instance.spec).value;
    var pending := Pending(targets, instance, FilterByOwner(before, instance));
    SelectedTargetsWellFormed(nodes, instance.spec);
    PassOutcome(targets, order, failures);
    CreatedElements(targets, instance, order, pending, failures);
    assert after[|before|..] == Created(targets, instance, order, pending, failures);
  }

  /**
   * Creation is safe to repeat: after a pass with no failed Create, a second
   * pass over the unchanged cluster issues no Create and advances the phase.
   */
  lemma SecondPassCreatesNothing(nodes: seq<Node>, instance: NodeRollout,
                                 s0: seq<NodeReplacement>, r1: RolloutResult, o1: seq<string>, f1: map<string, Error>,
                                 s1: seq<NodeReplacement>, r2: RolloutResult, o2: seq<string>, f2: map<string, Error>,
                                 s2: seq<NodeReplacement>)
    requires HandledNew(nodes, None, None, s0, instance, r1, o1, f1, s1)
    requires r1.phase.Some?
    requires HandledNew(nodes, None, None, s1, instance, r2, o2, f2, s2)
    ensures s2 == s1
    ensures f2 == map[] && r2.phase == Some(RolloutPhaseInProgress)
  {
    PhaseAdvancesOnlyOnFullSuccess(nodes, None, None, s0, instance, r1, o1, f1, s1);
    var targets := SelectTargets(nodes, instance.spec).value;
    RetryFindsNothingPending(targets, instance, s0, o1);
    assert Pending(targets, instance, FilterByOwner(s1, instance)) == {};
    CreatedNothingPending(targets, instance, o2, f2);
    assert f2.Keys == {};
    PhaseAdvancesOnlyOnFullSuccess(nodes, None, None, s1, instance, r2, o2, f2, s2);
  }
}

