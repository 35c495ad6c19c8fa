# navarchos NodeRollout "New" phase and NodeReplacement status merge, in Dafny

navarchos is a Kubernetes operator that replaces nodes. A **NodeRollout** names
the nodes to replace, either through label selectors or by node name, each with a
ReplacementSpec. The NodeRollout handler (`pkg/controller/noderollout/handler/handler.go`)
turns a rollout in the `New` phase into one **NodeReplacement** per selected node
and folds the per-node outcomes into a `status.Result`. A NodeReplacement's status
is later updated by `UpdateStatus`, which merges a `status.Result` into the stored
status field by field (`pkg/controller/nodereplacement/status/status_test.go`).

The model has these modules:

- `Common` (common.dfy): `Option` for Go's nil and `Result` for Go's `(value, error)`.
  `Error` keeps only the text of a Go error.
- `ApiTypes` (api_types.dfy): the API objects the core reads and writes.
  These are Node, OwnerReference, NodeRollout, NodeReplacement and NodeReplacementStatus with its conditions.
- `LabelSelectors` (label_selectors.dfy): a stand-in for the Kubernetes label-selector library.
  Conversion fails on a malformed requirement. Matching is the conjunction of all terms.
- `NodeSelection` (node_selection.dfy): `filterNodeSelectors`, `filterNodeNames` and `newNodeReplacementSpec`.
  The two filters are methods with loops. Each is proved equal to a fold, and the fold's lemmas state which entry wins for each node.
- `Ownership` (ownership.dfy): owner references, `createNodeReplacementFromSpec`, `filterReplacementsByOwner`, `containsOwnerReference` and `replacementAlreadyExists`.
- `RolloutHandler` (rollout_handler.dfy) covers the handler itself:
  - `Options.Complete`.
  - An in-memory `Cluster` standing in for the API client.
  - The `NodeRolloutHandler` class with `Handle`, `handleNew` and `createNodeReplacements`.
  - The channel-draining loop of `handleNew`.
  - The `HandledNew` predicate, which relates the cluster before and after one call and the Result it returns. Lemmas about one pass and about two passes in a row are stated over it.
- `ReplacementStatus` (replacement_status.dfy): the status merge.
  - `Merge` is a function from the stored status, a Result and the current time to the next status or an error.
  - A `NodeReplacementObject` class holds a status that `UpdateStatus` rewrites, but only when `Merge` succeeds.

`createNodeReplacements` starts one goroutine per map entry. The model runs them one
after another, in an order the verifier does not fix. Two ghost outputs describe what
happened in a run:

- `order`: the order in which the map was visited.
- `failures`: the Create calls that the cluster rejected, and the error each one returned.

Every property of a pass is proved for every visiting order and every failure pattern.

In `createNodeReplacements` the goroutine sends the node's name at handler.go:240.
That send follows the error send at handler.go:236 with no `return` between them.
So a goroutine whose Create failed sends two messages: its error and its name.
The channel has `len(nodeReplacementMap)` slots (handler.go:224), and nothing reads it
before `wg.Wait()` (handler.go:244). `RolloutHandler.MessagesExceedChannelCapacity`
proves that a pass sends one message per target plus one per failed Create. So in the
program, any failed Create leaves some sends blocked forever, `wg.Wait()` never returns,
and `handleNew` produces no Result.
The model instead delivers every message to the drain loop at handler.go:105-124.
The following describe that loop under this assumption, not a Result the program returns:

- `RolloutHandler.MessagesNames`, under which failed nodes are listed in `ReplacementsCreated`;
- `RolloutHandler.MessagesErrorCount`;
- the failing branch of `RolloutHandler.PassOutcome`;
- the error side of `RolloutHandler.PhaseAdvancesOnlyOnFullSuccess`.

When no Create fails, the number of messages equals the number of slots, and every property describes the program as written.

`status_test.go` shows only the assertions of `UpdateStatus`, not its implementation. For what the tests leave open, the model makes these choices:

- On any error the stored status stays as it was.
- The error conditions are checked in this order:
  1. cordon error without a reason;
  2. NodePods;
  3. IgnoredPods;
  4. CompletionTimestamp.
- The joined EvictedPods list keeps existing names before new ones, each at its first occurrence.
- A condition upsert keeps `lastTransitionTime` when its status is unchanged.

## Model

| member | source | states |
|---|---|---|
| NodeSelection.FilterNodeSelectors | pkg/controller/noderollout/handler/handler.go:134-150 | The loop returns the fold of all selector entries over all nodes, or the conversion error as soon as one selector is malformed |
| NodeSelection.MatchNodesKeys | pkg/controller/noderollout/handler/handler.go:141-146 | After one selector, the keys are the previous keys plus the names of the nodes it matches |
| NodeSelection.MatchNodesUntouched | pkg/controller/noderollout/handler/handler.go:141-146 | A key whose nodes the selector does not match keeps its previous entry, or stays absent |
| NodeSelection.MatchNodesHit | pkg/controller/noderollout/handler/handler.go:143-163 | A node the selector matches is written under its own name, with its name, UID and the selector's ReplacementSpec |
| NodeSelection.LastMatchingSelectorWins | pkg/controller/noderollout/handler/handler.go:135-148 | A node's entry comes from the last selector that matches it |
| NodeSelection.SelectorKeys | pkg/controller/noderollout/handler/handler.go:135-148 | After all selectors, the keys are the starting keys plus every node some selector matches |
| NodeSelection.SelectorsUntouched | pkg/controller/noderollout/handler/handler.go:135-148 | An entry that no selector rewrites is kept unchanged |
| NodeSelection.MatchNodesWellFormed | pkg/controller/noderollout/handler/handler.go:141-163 | One selector keeps every entry keyed by a listed node's name and describing that node |
| NodeSelection.SelectorsWellFormed | pkg/controller/noderollout/handler/handler.go:135-163 | All selectors together keep every entry keyed by a listed node's name and describing that node |
| NodeSelection.FindNode | pkg/controller/noderollout/handler/handler.go:169-174 | The inner loop finds the first listed node with the name, or none exactly when no node has it |
| NodeSelection.FilterNodeNames | pkg/controller/noderollout/handler/handler.go:167-177 | The loop, with its break at the first match, returns the fold of all name entries |
| NodeSelection.LastNameEntryWins | pkg/controller/noderollout/handler/handler.go:168-175 | A named node gets the ReplacementSpec of the last entry that names it |
| NodeSelection.NameKeys | pkg/controller/noderollout/handler/handler.go:168-175 | Name entries add exactly the listed nodes they name; a name that no node carries adds nothing |
| NodeSelection.UnnamedEntriesKept | pkg/controller/noderollout/handler/handler.go:168-175 | An entry that no name entry mentions keeps what the selectors wrote |
| NodeSelection.NamesWellFormed | pkg/controller/noderollout/handler/handler.go:154-175 | Name entries keep every entry keyed by a listed node's name and describing that node |
| NodeSelection.SelectionFailsOnMalformedSelector | pkg/controller/noderollout/handler/handler.go:91-97 | Target selection fails exactly when some selector entry is malformed |
| NodeSelection.SelectedTargetsWellFormed | pkg/controller/noderollout/handler/handler.go:91-97 | Every selected target is a listed node, keyed by its name, with that name and UID in its NodeReplacementSpec |
| NodeSelection.SelectedKeys | pkg/controller/noderollout/handler/handler.go:91-97 | The selected nodes are those some selector matches plus the listed nodes some entry names |
| NodeSelection.NamesOverrideSelectors | pkg/controller/noderollout/handler/handler.go:92-97 | A name entry's ReplacementSpec wins over any selector's for that node |
| NodeSelection.SelectorOnlyTarget | pkg/controller/noderollout/handler/handler.go:92-97 | A node that only selectors reach gets the ReplacementSpec of the last selector that matches it |
| Ownership.FilterByOwner | pkg/controller/noderollout/handler/handler.go:251-271 | The filtered list holds exactly the listed replacements that carry the rollout's controller reference |
| Ownership.FilterReplacementsByOwner | pkg/controller/noderollout/handler/handler.go:251-261 | The loop returns the filtered list |
| Ownership.FilterByOwnerAppend | pkg/controller/noderollout/handler/handler.go:255-259 | The filter keeps list order: filtering a concatenation concatenates the filtered parts |
| Ownership.BuiltReplacementOwners | pkg/controller/noderollout/handler/handler.go:181-210 | A built replacement has generateName "<node>-", the given spec and exactly two owner references: the rollout's (controller, blocking) and then the node's (neither). Another rollout owns it exactly when that rollout's reference is equal to the creating rollout's |
| Ownership.RecreatedNodeNotDeduplicated | pkg/controller/noderollout/handler/handler.go:274-281 | A node re-created under the same name but a new UID is not counted as already replaced |
| Ownership.AlreadyExistsMonotone | pkg/controller/noderollout/handler/handler.go:274-281 | Adding replacements to the list can only turn "already exists" from false to true |
| RolloutHandler.CompleteDefaultsOnlyNil | pkg/controller/noderollout/handler/handler.go:28-33 | Complete sets MaxAge to 48h only when it is nil, keeps an explicit value, and is idempotent |
| RolloutHandler.Options.Complete | pkg/controller/noderollout/handler/handler.go:28-33 | The new MaxAge is the completed value of the old one |
| RolloutHandler.NodeRolloutHandler.constructor | pkg/controller/noderollout/handler/handler.go:56-62 | Creating the handler completes the options and keeps the client and the completed MaxAge |
| RolloutHandler.AggregateOutcomes | pkg/controller/noderollout/handler/handler.go:105-129 | The draining loop returns the names, the per-error counts and the phase decision of the message sequence |
| RolloutHandler.PassStep | pkg/controller/noderollout/handler/handler.go:228-242 | Visiting one more target extends the messages by its own outcomes and the store by its own Create, if any |
| RolloutHandler.CreatedElements | pkg/controller/noderollout/handler/handler.go:231-238 | A pass adds exactly the built replacements of the visited targets that were pending and whose Create succeeded |
| RolloutHandler.NodeRolloutHandler.CreateOne | pkg/controller/noderollout/handler/handler.go:229-241 | One target sends its error only if its Create was issued and failed, then always sends its name. It appends its replacement exactly when no owned replacement covered it and the Create succeeded |
| RolloutHandler.NodeRolloutHandler.CreateNodeReplacements | pkg/controller/noderollout/handler/handler.go:215-247 | A failed List returns the wrapped error and creates nothing. Otherwise every target is visited once, failures happen only among issued Creates, and the store gains exactly the successful Creates |
| RolloutHandler.NodeRolloutHandler.HandleNew | pkg/controller/noderollout/handler/handler.go:82-130 | A failed node List, a malformed selector or a failed NodeReplacement List each returns only its error and leaves the store unchanged; otherwise it returns a full pass and its aggregated Result |
| RolloutHandler.NodeRolloutHandler.Handle | pkg/controller/noderollout/handler/handler.go:66-77 | InProgress and Completed return an empty Result and touch nothing; New and every other phase run handleNew |
| RolloutHandler.NamesAppend | pkg/controller/noderollout/handler/handler.go:107-113 | The names collected from two message runs are the names of the first followed by those of the second |
| RolloutHandler.ErrorsAppend | pkg/controller/noderollout/handler/handler.go:107-113 | The error counts of two message runs add up |
| RolloutHandler.OutcomesReport | pkg/controller/noderollout/handler/handler.go:235-240 | One target's messages carry its node name once and its error exactly when its Create failed |
| RolloutHandler.MessagesNames | pkg/controller/noderollout/handler/handler.go:107-113 | The names in ReplacementsCreated are the visited targets, in visiting order, including targets whose Create failed |
| RolloutHandler.MessagesErrorCount | pkg/controller/noderollout/handler/handler.go:106-113 | The error counts add up to the number of visited targets whose Create failed |
| RolloutHandler.MessagesLength | pkg/controller/noderollout/handler/handler.go:228-242 | Each visited target sends one message, plus a second one when its Create failed |
| RolloutHandler.MessagesExceedChannelCapacity | pkg/controller/noderollout/handler/handler.go:224-244 | A pass sends exactly one message per target plus one per failed Create, so with any failure more than the channel's len(nodeReplacementMap) slots |
| RolloutHandler.PassOutcome | pkg/controller/noderollout/handler/handler.go:105-129 | Every target is named exactly once. The phase is InProgress with no error exactly when no Create failed; otherwise the phase stays nil and the counts add up to the number of failures |
| RolloutHandler.CreatedNothingPending | pkg/controller/noderollout/handler/handler.go:233 | A pass with nothing pending creates nothing |
| RolloutHandler.RetryFindsNothingPending | pkg/controller/noderollout/handler/handler.go:222-281 | After a pass with no failed Create, every target is covered by an owned replacement |
| RolloutHandler.PhaseAdvancesOnlyOnFullSuccess | pkg/controller/noderollout/handler/handler.go:85-129 | handleNew sets the phase (to InProgress, with no error) exactly when both Lists succeed, the selectors are well formed and no Create fails; otherwise it sets an error and no phase |
| RolloutHandler.ListFailureShortCircuits | pkg/controller/noderollout/handler/handler.go:85-103 | A failed node or NodeReplacement List gives no names, no phase, an error and no Create |
| RolloutHandler.EveryTargetReported | pkg/controller/noderollout/handler/handler.go:99-113 | On the full path every selected node is reported once, and the store only gains the built replacements of pending targets whose Create succeeded |
| RolloutHandler.SecondPassCreatesNothing | pkg/controller/noderollout/handler/handler.go:212-238 | After a fully successful pass, a second pass over the same cluster issues no Create, leaves the store unchanged and again advances the phase |
| ReplacementStatus.Dedup | pkg/controller/nodereplacement/status/status_test.go:159-162 | Deduplication keeps exactly the input's names, once each, and leaves a duplicate-free list as it is |
| ReplacementStatus.DedupAbsorbsKnown | pkg/controller/nodereplacement/status/status_test.go:159-172 | Appending names a duplicate-free list already holds and deduplicating gives the list back |
| ReplacementStatus.UnionProperties | pkg/controller/nodereplacement/status/status_test.go:122-172 | The joined EvictedPods list holds exactly the old and new names, once each. From empty, a duplicate-free list is adopted as is, and joining the same names again changes nothing |
| ReplacementStatus.FindCondition | pkg/controller/nodereplacement/status/status_test.go:374-384 | Returns the index of the first condition of the type, or none exactly when no condition has that type |
| ReplacementStatus.SetConditionUpserts | pkg/controller/nodereplacement/status/status_test.go:374-426 | After the upsert a condition of the type carries the new status, reason, message and update time. Other conditions stay in place, a condition is added only when none existed, and the transition time moves only on a status change |
| ReplacementStatus.SetConditionIdempotent | pkg/controller/nodereplacement/status/status_test.go:368-431 | Setting the same condition twice equals setting it once. No test asserts a repeated call; this is what a controller that reconciles the same Result again relies on |
| ReplacementStatus.MergeFailsOnlyOnConflict | pkg/controller/nodereplacement/status/status_test.go:91-469 | UpdateStatus fails exactly on a cordon error without a reason, or on a second write of NodePods, IgnoredPods or CompletionTimestamp |
| ReplacementStatus.EmptyResultChangesNothing | pkg/controller/nodereplacement/status/status_test.go:392-406 | A Result that sets nothing leaves the status unchanged and succeeds |
| ReplacementStatus.PhaseRule | pkg/controller/nodereplacement/status/status_test.go:51-66 | A Phase in the Result becomes the status phase; otherwise the phase is kept |
| ReplacementStatus.NodePodsRule | pkg/controller/nodereplacement/status/status_test.go:69-120 | NodePods is adopted with its length as count only when empty before. A second write fails with "cannot update NodePods, field is immutable once set" unless the cordon check failed first |
| ReplacementStatus.IgnoredPodsRule | pkg/controller/nodereplacement/status/status_test.go:180-244 | IgnoredPods is adopted with its count only when empty before. A second write fails with "cannot update IgnoredPods, field is immutable once set" |
| ReplacementStatus.EvictedPodsRule | pkg/controller/nodereplacement/status/status_test.go:122-178 | EvictedPods becomes the duplicate-free union of old and new names, with its length as count; from empty, a duplicate-free list is adopted as is; when the Result leaves it unset, the list and its count are kept |
| ReplacementStatus.FailedPodsRule | pkg/controller/nodereplacement/status/status_test.go:246-308 | FailedPods never causes a failure. It is replaced by the Result's list, whatever it held, with its length as count; when the Result leaves it unset, the list and its count are kept |
| ReplacementStatus.CompletionTimestampRule | pkg/controller/nodereplacement/status/status_test.go:310-366 | The timestamp is set only when nil before, kept when the Result has none, and a second write fails with "cannot update CompletionTimestamp, field is immutable once set" |
| ReplacementStatus.CordonConditionRule | pkg/controller/nodereplacement/status/status_test.go:368-431 | A reason yields a NodeCordoned condition with that reason: True with an empty message, or False with the error's text. Without a reason the conditions are untouched |
| ReplacementStatus.CordonValidation | pkg/controller/nodereplacement/status/status_test.go:433-470 | A NodeCordonError without a reason fails; a reason alone, both, or neither never cause a failure themselves |
| ReplacementStatus.NodeReplacementObject.UpdateStatus | pkg/controller/nodereplacement/status/status_test.go:44-49 | On success the status becomes the merged status and no error is returned; on failure the status is unchanged and the error is returned |

## Left out

- Goroutines, the `sync.WaitGroup` and the channel in `createNodeReplacements` are replaced by a sequential loop over the map. The visiting order is left open.
- The deadlock on a failed Create is not modelled. In the program, any failed Create makes `createNodeReplacements` send more messages than its channel holds before anything reads it, so `handleNew` never returns. The model delivers every message, so `HandleNew` returns a Result, with an error, even when a Create fails. `RolloutHandler.MessagesExceedChannelCapacity` states the message count that causes the hang.
- The API client is modelled by the in-memory `Cluster`. `List` returns a fixed error or the stored list. Whether `Create` succeeds is left open, and the API server's error texts are not modelled.
- Stale reads are not modelled. `Cluster.ListNodeReplacements` always returns the store as it is now, so every List sees all earlier Creates. A client reading from a cache can return a list without the replacements just created, and a second pass would then issue those Creates again. `RolloutHandler.RetryFindsNothingPending` and `RolloutHandler.SecondPassCreatesNothing` hold only for reads that see every earlier Create.
- Label-selector parsing is reduced to operator/value-count checks, so key and value syntax validation is not modelled. `LabelSelectorAsSelector` and `Selector.Matches` belong to a library that is not part of this model.
- The outer wrapping of errors by `handleNew` ("failed to list nodes", "failed to filter nodes", "failed to create node replacements") is kept as the constructors of `RolloutError`, not as text. The aggregated error message (handler.go:117-123) is kept as a multiset of errors, not a formatted string.
- RolloutHandler.MessagesErrorCount: errMap in Go keys errors by identity, so equal texts from different failures are separate keys. The multiset groups them by value; its total count, which is what the lemma states, is the same.
- The API server's random suffix for `generateName` is not modelled; only the prefix is.
- `SchemeGroupVersion` is written out as a constant. `pkg/apis/navarchos/v1alpha1/register.go` is not part of this model.
- `maxAge` is kept by the handler, but the garbage collection it configures is outside handler.go and not modelled.
- `DeepCopy` is not modelled: datatypes are values, so a copy is the identity.
- Timestamps are integers supplied by the caller (`now`). There is no clock.
- The write-back of `UpdateStatus` to the API server, its conflict retries, and the Ginkgo harness are not modelled. The tests' `Eventually` and `Consistently` become plain equality after the call.
- ReplacementStatus.CordonValidation: the text of the error for a cordon error without a reason is not asserted by the tests. The model's text is a placeholder.
