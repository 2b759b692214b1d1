# CloudKnit model

Dafny models of the decisions CloudKnit takes between an environment spec and its deployment: which
task runs after which, which names and URLs are understood and how, and how the databases, caches and event
streams around the cluster follow the spec. Each model is proved to give the guarantee a caller relies on,
or, where the code gives less, the exact condition under which it does.
`dafny verify dfyconfig.toml` checks everything.

## What is modelled

- **Workflow compiler and executor** (`Types`, `Graphs`, `DagRun`, `Workflow`). The compiler's loops are
  methods proved equal to a task list; an executor runs a task once all its dependencies have succeeded,
  and a run is any log of starts, successes and failures, with and without fail-fast. Safety, progress and the relation of teardown to
  provision are about every run and every legal order.
- **Validator** (`Regex`, `Labels`, `ValueFrom`, `Validator`, `ValidatorReports`, `Deployment`,
  `InterpolatedDeployment`). The checks as loops, their error list, the reason for each error, and the declarative spec it decides; what a validated spec is good for downstream, after
  interpolation, and the four kinds of spec that are accepted although they cannot deploy.
- **Server-sent-event broker** (`BrokerProtocol`). A transition system with a state in the middle of a
  broadcast, blocking sends and bounded channels; the broker object beside it.
- **Interpolation** (`Strings`, `Interpolation`, `Substitution`, `StrayDollars`, `PairAgreement`,
  `EnvironmentInterpolation`). Token scanning against the regular expressions, sequential replacement against
  simultaneous substitution, and the in-place pass over a whole environment with its shared lists.
- **Git reconciler and retry** (`Retry`, `GitReconciler`, `HeadTracking`). The subscription table as
  mutable objects refining a map of sets; ticks with every mix of answers from the cluster.
- **Stores** (`CostRollup`, `CostOverlaps`, `CostTotals`, `ZlState`, `ErrorHistory`, `SpecPosts`, `Events`, `EventStatus`,
  `StatusCalculation`, `StatusAgreement`, `StatusService`, `ArgoSessions`). Each against the simpler thing it must agree with.
- **Parsers and key codecs** (`GitUrls`, `GitRewrite`, `SecretKeys`).

Clocks, ids, answers of the cluster, of the secret store and of ArgoCD, and the outcome of repository
file checks are parameters. Costs are integers in thousandths. Strings are sequences of characters.

## Where code and expectation part

The model follows the code. These are proved, not just noted:

- The name check says that names are lower-case; its expression also accepts upper case
  (`Labels.NameRegexIff`). Interpolation names may use 1 to 9 but not 0 (`Interpolation.SubstituteRegexIff`).
- The validator checks neither unique names, nor cycles, nor audit names, nor that a dependency has a task
  (`Deployment.CyclicSpecAccepted` and its three neighbours).
- A reference such as `a.x]y[0]` makes the splitter slice backwards and panic (`ValueFrom.SplitValueFromPanicsIff`).
- Without a terraform component the closing audit does not wait for the opening one (`Workflow.AuditsBracketIff`).
- A client that stops reading blocks the broker, its own removal included, exactly when it is owed an event with its
  channel full (`BrokerProtocol.FinishesWithoutIff`); two events are enough (`BrokerProtocol.BlockedIsReachable`).
- Sequential replacement is not simultaneous when a value can capture a token (`Substitution.SequentialIsSimultaneousIff`),
  or a dollar that opens no token can be completed to one (`StrayDollars.TemplateAgreesIff`, and
  `PairAgreement.PairAgreesIff` for one template with one map).
- Interpolating an environment changes component names but not `dependsOn`. Validated names hold no token, so this
  does not matter to specs the webhook has admitted (`InterpolatedDeployment.ValidNamesUntouched`); for others
  `InterpolatedDeployment.DependenciesSurviveIff` says when dependencies still name a component and
  `InterpolatedDeployment.DependencyLost` gives specs where they do not. A failure leaves the
  caller's lists partly changed (`EnvironmentInterpolation.InterpolateEnvironment`).
- A subscriber that cannot be read in a tick that succeeds is not retried at that head (`HeadTracking.StoredHeadMoves`).
- Listeners that overlap, those of an environment or those of a team, can store a stale cost for good wherever
  there is a component (`CostOverlaps.RolledUpIff`).
- Deleting a component skips the entry after a removed one, and can panic, when names repeat (`ZlState.DeleteInPlace`).
- A clean post restores the newest finished good reconcile, which need not be the one that was current
  (`ErrorHistory.AlwaysRestoredIff`).
- A refused spec post has already stored the new dag (`SpecPosts.RefusedDisagrees`). The code compares names exactly
  while the unique index need not: a component renamed only by case is refused where the index ignores case
  (`SpecPosts.RenameRefused`).
- Posting a valid team or company event whose meta names no environment records it and then dereferences a
  nil status (`StatusAgreement.PostEvent`); a negative history makes the calculation panic when there is something
  to report (`StatusService.Calculate`).
- When no password can be had, a failing secret store included, an expired ArgoCD token is handed out
  (`ArgoSessions.ExpiredTokenServedIff`), and a failed login is handed out as a null token for three hours (`ArgoSessions.LoginServesUntilExpiry`).
- The environment list is keyed by environment name alone (`SecretKeys.EnvironmentListCompleteIff`).
- An HTTPS URL without a path panics the operator's parser (`GitUrls.ParsePanicsIff`).

## Model

| member | source | states |
|---|---|---|
| Workflow.SkipComponent | il-operator/controller/codegen/workflow/generator.go:274-310 | the nested tag search answers as the declarative skip rule does: protection first, then whether some tag is selected, turned around by skip mode |
| Workflow.BuildInverseDependencies | il-operator/controller/codegen/workflow/generator.go:385-396 | the loop collects, in component order, every other component that depends on the given one |
| Workflow.GenerateWorkflowOfWorkflows | il-operator/controller/codegen/workflow/generator.go:20-63 | the compiled list read off the spec: opening audit, one task per terraform component in order, closing audit, each with its dependencies, destroy flag, approval and skip answer |
| Workflow.TasksAreDeclared | il-operator/controller/codegen/workflow/generator.go:34-62 | the same of the task list used below: a task destroys exactly on deletion, teardown or the component's own flag; its own approval goes before the environment's; a protected component that would be destroyed is skipped as such, otherwise tags and skip mode decide; on teardown it waits for its dependants in order |
| Workflow.UniqueTasksIff | il-operator/controller/codegen/workflow/generator.go:20-63 | task names are unique exactly when terraform names are unique and none is an audit name |
| Workflow.ComponentStartsAfter | il-operator/controller/codegen/workflow/generator.go:34-58 | in every run a component starts only after the opening audit and everything it must wait for succeeded (on teardown: every component depending on it) |
| Workflow.EndAuditStartsLast | il-operator/controller/codegen/workflow/generator.go:60-60 | in every run the closing audit starts only after each component succeeded, so never in a run where one failed |
| Workflow.AuditsBracketIff | il-operator/controller/codegen/workflow/generator.go:28-60 | the closing audit always follows the opening one exactly when there is a terraform component; an environment without one may start with its closing audit |
| Workflow.ProvisionEdges | il-operator/controller/codegen/workflow/generator.go:47-57 | the component edges of a provision DAG are the declared dependencies between terraform components |
| Workflow.TeardownEdges | il-operator/controller/codegen/workflow/generator.go:49-52 | the teardown edges are the declared dependencies turned around, self-loops dropped |
| Workflow.TeardownTransposesIff | il-operator/controller/codegen/workflow/generator.go:47-57 | the teardown component graph is the transpose of the provision graph exactly when no terraform component depends on itself |
| Workflow.TeardownOrderReverses | il-operator/controller/codegen/workflow/generator.go:47-57 | an order is legal for provisioning exactly when its reverse is legal for teardown; one graph is acyclic exactly when the other is |
| Workflow.CycleAmongComponents | il-operator/controller/codegen/workflow/generator.go:20-63 | where components wait only for terraform components and the opening audit, every cycle of the whole DAG runs among components |
| Workflow.WaitingForEndAudit | il-operator/controller/codegen/workflow/generator.go:47-60 | a component that waits for the closing audit puts that audit on a cycle |
| Workflow.WorkflowCompletableIff | il-operator/controller/codegen/workflow/generator.go:20-63 | some run completes every task exactly when everything waited for is a terraform component and the component graph is acyclic |
| Workflow.EveryRunCompletes | il-operator/controller/codegen/workflow/generator.go:20-63 | no deadlock: under that condition every failure-free run extends to a completed one, can step while incomplete, and has at most 2n events |
| Workflow.AllTerraformWaitsOnTasks | il-operator/controller/codegen/workflow/generator.go:34-37 | all-terraform specs with known dependencies meet the condition |
| DagRun.StartedAfterDependencies | il-operator/controller/codegen/workflow/generator.go:100-112 | in every run a started task has all its dependencies succeeded before it |
| DagRun.EventsDistinct | il-operator/controller/codegen/workflow/generator.go:100-112 | no task starts twice or ends twice |
| DagRun.Progress | il-operator/controller/codegen/workflow/generator.go:20-63 | a failure-free incomplete run of a closed acyclic DAG can always take a step that is no failure |
| DagRun.CompletableIff | il-operator/controller/codegen/workflow/generator.go:20-63 | a DAG with unique task names can be completed exactly when it is closed and acyclic |
| DagRun.MaximalRunIff | il-operator/controller/codegen/workflow/generator.go:100-112 | of an executor that goes on after failures (fail-fast off): whatever fails, when nothing can happen any more exactly the tasks succeeded that neither failed nor wait, however indirectly, for one that did |
| DagRun.FailFastIff | il-operator/controller/codegen/workflow/generator.go:83-86 | with fail-fast on, as the generated DAG leaves it: a run that cannot go on has completed exactly when nothing failed; otherwise nothing started after the first failure, and exactly the started tasks succeeded that neither failed nor wait for one that did |
| DagRun.FailFastIsRun | il-operator/controller/codegen/workflow/generator.go:83-86 | fail-fast runs are runs, so the orderings above hold for them |
| Graphs.LegalOrderReverses | il-operator/controller/codegen/workflow/generator.go:47-57 | an order is legal for a graph exactly when its reverse is legal for the transpose |
| Graphs.AcyclicIffOrdered | il-operator/controller/codegen/workflow/generator.go:20-63 | a finite graph is acyclic exactly when its nodes can be put in a legal order |
| Labels.NameRegexIff | il-operator/controller/validator/common.go:18-26 | the name expression accepts exactly the letter-first labels of letters, digits and single inner hyphens |
| Labels.LabelHasNoSeparator | il-operator/controller/validator/common.go:22-34 | an accepted name has no slash, dot, colon or dollar |
| Validator.CheckReferencesItself | il-operator/controller/validator/environment_validator.go:438-446 | reports exactly a dependency on the component itself |
| Validator.CheckDependenciesExist | il-operator/controller/validator/environment_validator.go:448-463 | reports exactly the first dependency that names no component |
| Validator.CheckDuplicateDependencies | il-operator/controller/validator/environment_validator.go:465-483 | reports exactly the entries that repeat an earlier one, in order |
| Validator.CollectValueFroms | il-operator/controller/validator/environment_validator.go:488-497 | collects the non-empty references in variable order |
| Validator.CheckReference | il-operator/controller/validator/environment_validator.go:499-525 | one reference against the first component of the referenced name: its errors, or the crash of splitting it |
| Validator.CheckValueFroms | il-operator/controller/validator/environment_validator.go:485-529 | the errors of all references of a component, or the crash of the first one that cannot be sliced |
| Validator.CheckComponent | il-operator/controller/validator/environment_validator.go:307-341 | all checks of one component in their order |
| Validator.ValidateEnvironmentComponents | il-operator/controller/validator/environment_validator.go:297-344 | the whole error list, or a crash exactly when some reference crashes |
| Validator.AcceptsIff | il-operator/controller/validator/environment_validator.go:297-344 | no crash and no error exactly when the declarative spec holds: non-empty, legal names and types, no self-dependency, known and distinct dependencies, every reference naming a declared output of the first component so named, nothing destroyed on create, files present |
| ValidatorReports.ReportedIff | il-operator/controller/validator/environment_validator.go:297-344 | which errors are reported: each one exactly for its reason in the spec (the first undeclared dependency, the list of repeated ones, the component that a reference names, and so on), or because a file check reports it |
| ValidatorReports.ReportedInOrder | il-operator/controller/validator/environment_validator.go:297-344 | errors come by component and, for one component, in the order of the checks, each at most once |
| ValidatorReports.WellFormedIff | il-operator/controller/validator/environment_validator.go:297-344 | the declarative spec holds exactly when there is no reason to report anything |
| ValidatorReports.UnknownIsFirst | il-operator/controller/validator/environment_validator.go:448-463 | the dependency reported is the first that names no component |
| ValidatorReports.DuplicatesAreRepeats | il-operator/controller/validator/environment_validator.go:465-483 | the duplicates reported are the entries that repeat an earlier one, in order |
| ValidatorReports.ReferenceReports | il-operator/controller/validator/environment_validator.go:485-523 | a reference is reported as malformed, as naming no component or as naming an undeclared output of the first component of that name |
| ValueFrom.SplitValueFromIff | il-operator/controller/validator/environment_component.go:21-47 | the splitter finds component and output exactly in texts of the documented shape, with or without an integer index |
| ValueFrom.SignedBound | il-operator/controller/validator/environment_component.go:38-38 | a signed index is accepted exactly within 64 bits |
| ValueFrom.OnlyDigits | il-operator/controller/validator/environment_component.go:38-38 | and has digits only after its sign |
| ValueFrom.SplitValueFromPanicsIff | il-operator/controller/validator/environment_component.go:31-40 | it panics exactly on one-dot texts whose first closing bracket precedes the first opening one |
| ValueFrom.ReversedBracketsPanic | il-operator/controller/validator/environment_component.go:38-38 | `a.x]y[0]` is such a text |
| ValueFrom.StandardizeVariables | il-operator/controller/codegen/terraform/output.go:12-29 | fails exactly when a reference does not have one dot; otherwise each variable carries its value or its remote-state reference |
| Deployment.ValidatedDeploys | il-operator/controller/validator/environment_validator.go:297-344 | a validated spec that is also uniquely named, acyclic, all-terraform and free of audit names deploys and tears down as written: every failure-free run extends to a completed one |
| InterpolatedDeployment.InPlaceIsInterpolated | il-operator/controller/codegen/interpolator/interpolator.go:41-84 | the in-place pass leaves the interpolated component |
| InterpolatedDeployment.ValidNamesUntouched | il-operator/controller/environment_controller.go:262-275 | interpolation neither changes nor refuses a component name or dependency of a validated spec |
| InterpolatedDeployment.InterpolatedDag | il-operator/controller/environment_controller.go:262-275 | the workflow compiled after interpolation has the tasks of the spec that was validated, with their dependencies, destroy flags and approvals; only skip answers may differ, as tags are interpolated |
| InterpolatedDeployment.InterpolatedDeploys | il-operator/controller/environment_controller.go:262-275 | so the deployment guarantee holds for the workflow that is really compiled |
| InterpolatedDeployment.InterpolatedReferencesSplit | il-operator/controller/codegen/terraform/output.go:16-21 | a validated reference is unchanged where interpolation succeeds, so the Terraform generator can split what it is given |
| InterpolatedDeployment.DependenciesSurviveIff | il-operator/controller/codegen/interpolator/interpolator.go:52-84 | for specs that were not validated: dependencies that named components still do after interpolation exactly when none holds the token of a variable with a value (names well-delimited, values dollar-free) |
| InterpolatedDeployment.DependencyLost | il-operator/controller/codegen/interpolator/interpolator.go:52-84 | a component named by the token of a local variable and another that depends on it: the dependency names a component before interpolation and none after it |
| Deployment.DependenciesNameTasks | il-operator/controller/validator/environment_validator.go:448-483 | in a validated, uniquely named, all-terraform spec without audit names, cyclic or not, every generated dependency names a task and is listed once |
| Deployment.ValidatedReferencesSplit | il-operator/controller/codegen/terraform/output.go:16-21 | a validated reference has the one dot the Terraform generator splits at |
| Deployment.CyclicSpecAccepted | il-operator/controller/validator/environment_validator.go:297-344 | a spec with a dependency cycle is accepted, and its workflow can never complete |
| Deployment.TasklessDependencyAccepted | il-operator/controller/validator/environment_validator.go:448-463 | so is one that depends on a component without a task |
| Deployment.ClashingSpecAccepted | il-operator/controller/validator/environment_validator.go:307-314 | so is a component named like an audit task |
| Deployment.RepeatedNamesAccepted | il-operator/controller/validator/environment_validator.go:307-314 | so are two components of one name |
| BrokerProtocol.DeliveryIsContiguous | event-service/internal/stream/sse.go:45-95 | in every interleaving a client has got the unbroken run of broadcast events since its registration, without the one still owed to it |
| BrokerProtocol.AcceptedIsNeverLost | event-service/internal/stream/sse.go:45-83 | what Notify accepted was broadcast or still waits; when idle and drained every client has all of it since its registration |
| BrokerProtocol.NotifyDropsIff | event-service/internal/stream/sse.go:76-83 | an event is dropped exactly when another one is waiting |
| BrokerProtocol.NothingAfterRemoval | event-service/internal/stream/sse.go:54-58 | nothing reaches a removed client until it registers again |
| BrokerProtocol.RegistryIff | event-service/internal/stream/sse.go:45-70 | after any run the registry holds exactly the clients whose last request was to be registered |
| BrokerProtocol.IdleTakesRequests | event-service/internal/stream/sse.go:45-70 | the idle loop takes every registration and removal, and an event when there is one |
| BrokerProtocol.EventReachesEveryone | event-service/internal/stream/sse.go:61-66 | an event posted to the idle loop with empty channels can reach every registered client, and nobody else, before anyone reads |
| BrokerProtocol.SecondCloseChangesNothing | event-service/internal/stream/sse.go:93-95 | closing a connection twice is closing it once |
| BrokerProtocol.StalledUntilReceive | event-service/internal/stream/sse.go:65-67 | while the client being sent to has a full channel and does not read, nothing reaches anybody and nobody is registered or removed, that client included |
| BrokerProtocol.BlockedUntilReceive | event-service/internal/stream/sse.go:59-68 | while a client that is owed the event, its turn come or not, has a full channel and does not read, no other event is taken and nobody is registered or removed |
| BrokerProtocol.FinishesWithoutIff | event-service/internal/stream/sse.go:59-68 | in every reachable state the loop can get back to its select without a given client reading exactly when that client is not owed the event with its channel full |
| BrokerProtocol.BlockedIsReachable | event-service/internal/stream/sse.go:45-95 | two events for a client that never reads lead there from the start |
| BrokerProtocol.BroadcastCanFinish | event-service/internal/stream/sse.go:59-68 | a schedule back to the select in which any client but a given one may read |
| BrokerProtocol.Broker.Notify | event-service/internal/stream/sse.go:76-83 | the non-blocking send is the protocol step |
| BrokerProtocol.Broker.Register | event-service/internal/stream/sse.go:49-53 | registering is the protocol step |
| BrokerProtocol.Broker.Unregister | event-service/internal/stream/sse.go:54-58 | removing is the protocol step |
| BrokerProtocol.Broker.TakeEvent | event-service/internal/stream/sse.go:59-61 | taking an event is the protocol step |
| BrokerProtocol.Broker.Broadcast | event-service/internal/stream/sse.go:65-67 | a whole broadcast, waiting at full channels until their clients have read, sends the event once to each registered client, in any order, and to nobody else |
| Interpolation.SubstituteRegexIff | il-operator/controller/util/interpolation.go:11-12 | the token expression matches exactly `${` body `}` with a body of letters, 1 to 9 and dots |
| Interpolation.TokenLengthIff | il-operator/controller/util/interpolation.go:48-51 | the scanner finds a token of a length exactly when the prefix of that length matches the expression |
| Interpolation.ParamsAreTokens | il-operator/controller/util/interpolation.go:48-51 | the extracted parameters are the well-formed tokens of the template in order |
| Interpolation.TokenParameter | il-operator/controller/util/interpolation.go:35-46 | a token yields one parameter name exactly when its body has one dot, and then the name is the body |
| Interpolation.FoundIff | il-operator/controller/util/interpolation.go:11-18 | the tokens found are exactly those that occur in the text, of letters, 1 to 9 and dots |
| Interpolation.RefusedIff | il-operator/controller/util/interpolation.go:21-24 | a template is refused exactly when a token occurs in it that does not have exactly one dot |
| Interpolation.Interpolate | il-operator/controller/util/interpolation.go:18-33 | fails exactly when some token does not have one dot; otherwise returns the sequential replacement of the tokens |
| Substitution.OrderIndependent | il-operator/controller/util/interpolation.go:21-30 | without capture the tokens may be replaced in any order: the result is the simultaneous substitution |
| Substitution.SequentialIsSimultaneousIff | il-operator/controller/util/interpolation.go:18-33 | sequential replacement is simultaneous substitution on every template whose dollars open tokens exactly when no value contains, or ends in the beginning of, a replaced token |
| Substitution.DollarFreeNoCapture | il-operator/controller/util/interpolation.go:25-29 | dollar-free values capture nothing |
| Substitution.Idempotent | il-operator/controller/util/interpolation.go:18-33 | with dollar-free values a second interpolation changes nothing and cannot fail |
| StrayDollars.TemplateAgreesIff | il-operator/controller/util/interpolation.go:18-33 | for every template whose tokens all have one dot: sequential replacement is simultaneous substitution under all dollar-free values exactly when no dollar that opens no token, with the text up to the next token, begins a token that is replaced after that one |
| StrayDollars.CompletableBreaks | il-operator/controller/util/interpolation.go:21-30 | otherwise the value that completes that token makes the two differ |
| StrayDollars.WellDelimitedNotStray | il-operator/controller/util/interpolation.go:11-11 | a template whose dollars all open tokens has no such place |
| StrayDollars.AgreesUnlessCompletable | il-operator/controller/util/interpolation.go:21-30 | one direction, for given values |
| StrayDollars.RoundReplaces | il-operator/controller/util/interpolation.go:29-29 | replacing a token everywhere, seen on the dollars of the text and what follows each |
| PairAgreement.PairAgreesIff | il-operator/controller/util/interpolation.go:18-33 | for a given template and given dollar-free values: the two agree exactly when, at every round that replaces something, no dollar that opens no token heads the token being replaced once the values of the earlier tokens are in |
| PairAgreement.UncalmDiffers | il-operator/controller/util/interpolation.go:21-30 | the first round that meets such an occurrence makes them differ for good |
| Substitution.StrayDollarBreaks | il-operator/controller/util/interpolation.go:11-30 | a family of examples: `$` before two tokens, the first with the braces of the second as value |
| Substitution.CaptureBreaks | il-operator/controller/util/interpolation.go:25-29 | every capturing value has a template on which the two differ |
| EnvironmentInterpolation.BuildZLocalsVariableMap | il-operator/controller/codegen/interpolator/interpolator.go:146-155 | the loop fills the map of scoped local names |
| EnvironmentInterpolation.LocalsLastWins | il-operator/controller/codegen/interpolator/interpolator.go:149-152 | of several locals with one name the last one is the value |
| EnvironmentInterpolation.LocalsAreScoped | il-operator/controller/codegen/interpolator/interpolator.go:149-152 | there are no variables but the scoped locals |
| EnvironmentInterpolation.LocalUsableIff | il-operator/controller/util/interpolation.go:12-27 | a local can be used by a template exactly when its name has only letters and 1 to 9 and its value is not empty |
| EnvironmentInterpolation.LocalReplaced | il-operator/controller/codegen/interpolator/interpolator.go:146-155 | `${zlocals.n}` becomes the value of the last local n |
| EnvironmentInterpolation.LocalTokenText | il-operator/controller/util/interpolation.go:18-33 | a text that is this token is accepted and becomes that value |
| EnvironmentInterpolation.UnknownLocalKept | il-operator/controller/util/interpolation.go:26-28 | the token of an unknown or empty local stays |
| EnvironmentInterpolation.InterpolateVariable | il-operator/controller/codegen/interpolator/interpolator.go:108-127 | fails exactly when one of the three texts is malformed, else interpolates all three |
| EnvironmentInterpolation.InterpolateTag | il-operator/controller/codegen/interpolator/interpolator.go:130-144 | the same for the two texts of a tag |
| EnvironmentInterpolation.InterpolateVariablesFile | il-operator/controller/codegen/interpolator/interpolator.go:86-106 | the same for the three texts of a variables file |
| EnvironmentInterpolation.InterpolateVariables | il-operator/controller/codegen/interpolator/interpolator.go:67-73 | entries are replaced in the shared array up to the first malformed one |
| EnvironmentInterpolation.InterpolateTags | il-operator/controller/codegen/interpolator/interpolator.go:75-81 | the same for tags |
| EnvironmentInterpolation.InterpolateComponent | il-operator/controller/codegen/interpolator/interpolator.go:52-84 | fails exactly when a text of the component is malformed; a failure leaves the entries before the first malformed one replaced, tags only when no variable is malformed |
| EnvironmentInterpolation.InterpolateEntry | il-operator/controller/codegen/interpolator/interpolator.go:41-47 | one turn of the loop changes one entry of the list and no other component |
| EnvironmentInterpolation.InterpolateEnvironment | il-operator/controller/codegen/interpolator/interpolator.go:26-50 | success exactly when nothing is malformed, and then all components are interpolated in the lists the caller holds, dependencies untouched; on failure those before the first malformed one are, that one up to its first malformed text, the rest not; with dollar-free locals and delimited texts, every name, value, reference, tag and file text in the caller's lists is the simultaneous substitution of the old one |
| EnvironmentInterpolation.SecondPassIsIdle | il-operator/controller/codegen/interpolator/interpolator.go:41-47 | with dollar-free locals an object interpolated in place is accepted again and not changed |
| Retry.Retry | il-operator/controller/util/retry.go:18-34 | at most ten calls, nil exactly when the last call returned nil, the limit error exactly when the tenth call wanted another |
| Retry.UpdateStatus | il-operator/controller/services/gitreconciler/reconciler.go:303-322 | at most three update attempts, never the limit error, success exactly when one of the first three succeeds after lock conflicts only; error and number of calls for all answers |
| Retry.UpdateSucceedsIff | il-operator/controller/services/gitreconciler/reconciler.go:303-322 | success at the first attempt, or after one or two lock conflicts, and in no other case |
| GitReconciler.SwapRemoveDistinct | il-operator/controller/services/gitreconciler/reconciler.go:194-197 | swap-remove drops exactly one key and keeps the rest distinct |
| GitReconciler.WatchedRepository.Drop | il-operator/controller/services/gitreconciler/reconciler.go:171-176 | the search-and-remove loop removes exactly that subscriber |
| GitReconciler.Reconciler.Subscribe | il-operator/controller/services/gitreconciler/reconciler.go:135-164 | on the map from repository to set of keys: adds the key, answers whether it was there, keeps lists distinct and keys equal to sources |
| GitReconciler.Reconciler.SubscribeWatched | il-operator/controller/services/gitreconciler/reconciler.go:138-155 | a watched repository gets the subscriber appended unless it is there |
| GitReconciler.Reconciler.Watch | il-operator/controller/services/gitreconciler/reconciler.go:157-163 | an absent or nil entry is registered with its first subscriber |
| GitReconciler.Reconciler.Unsubscribe | il-operator/controller/services/gitreconciler/reconciler.go:166-179 | on that map: removes the key from one set |
| GitReconciler.Reconciler.UnsubscribeAll | il-operator/controller/services/gitreconciler/reconciler.go:181-192 | on that map: removes the key from every set; panics exactly when an entry is nil, with some sets done |
| GitReconciler.Reconciler.Remove | il-operator/controller/services/gitreconciler/reconciler.go:199-201 | leaves a nil entry, which drops the repository from that map |
| GitReconciler.Reconciler.Reconcile | il-operator/controller/services/gitreconciler/reconciler.go:203-301 | one tick: fails without effect when no clone could be had, nothing at an unchanged head; otherwise statuses, writes, stored head and failure are those of the subscriber-by-subscriber specification |
| GitReconciler.Reconciler.VisitSubscribers | il-operator/controller/services/gitreconciler/reconciler.go:253-296 | the loop does what the specification folds over the subscribers, and stops at the first failing update |
| GitReconciler.Reconciler.VisitOne | il-operator/controller/services/gitreconciler/reconciler.go:268-295 | one subscriber that was read |
| GitReconciler.TickFailsForGood | il-operator/controller/services/gitreconciler/reconciler.go:293-295 | nothing happens in a tick after its failure |
| HeadTracking.AtMostOneWrite | il-operator/controller/services/gitreconciler/reconciler.go:253-298 | over any number of ticks at one head, with every mix of answers and the repository removed and watched again at will, no environment is written twice or when it already records the head; later ticks only append to the writes of earlier ones |
| HeadTracking.SuccessfulTick | il-operator/controller/services/gitreconciler/reconciler.go:253-298 | after a tick that did not fail exactly those read, or recorded before, record the head |
| HeadTracking.StoredHeadMoves | il-operator/controller/services/gitreconciler/reconciler.go:298-300 | when the stored head moves, every subscriber that was read records it; one that could not be read is skipped for good at this head as long as the entry is kept |
| HeadTracking.QuietAtHead | il-operator/controller/services/gitreconciler/reconciler.go:245-249 | ticks at the stored head do nothing |
| HeadTracking.TickFailsIff | il-operator/controller/services/gitreconciler/reconciler.go:293-295 | a tick fails exactly when some subscriber that is read and not up to date cannot be updated |
| HeadTracking.OthersUntouched | il-operator/controller/services/gitreconciler/reconciler.go:259-295 | statuses of other environments and other repositories do not change |
| HeadTracking.LastSubscriber | il-operator/controller/services/gitreconciler/reconciler.go:259-295 | what a tick makes of each subscriber, for every answer: removal of the entry, no change, the head recorded and nothing else, or failure |
| HeadTracking.ThirdAttemptCounts | il-operator/controller/services/gitreconciler/reconciler.go:303-322 | after two lock conflicts the third attempt decides: recorded, or the tick fails |
| HeadTracking.RemovedIff | il-operator/controller/services/gitreconciler/reconciler.go:262-270 | the entry is dropped exactly when a subscriber is reported missing before the tick fails |
| HeadTracking.HeadStoredIff | il-operator/controller/services/gitreconciler/reconciler.go:251-298 | the head is stored exactly when it was or no subscriber held the tick up |
| CostRollup.SumPositive | api/src/reconciliation/reconciliation.service.ts:454-460 | the loop adds the positive costs |
| CostRollup.QuietIsRolledUp | api/src/reconciliation/reconciliation.service.ts:454-469 | from a rolled-up start, in every interleaving in which listeners overlap only where there are no components, an empty queue means both sums are right |
| CostOverlaps.RolledUpIff | api/src/environment/environment.controller.ts:283-298 | exactly which overlaps can be allowed: every run that ends idle ends with the right sums if and only if no environment with a component may have overlapping listeners, its own or its team's |
| CostOverlaps.EnvOverlapBreaks | api/src/reconciliation/reconciliation.service.ts:454-469 | from every rolled-up idle state with a component two overlapping environment listeners can leave a wrong environment cost |
| CostOverlaps.TeamOverlapBreaks | api/src/team/team.service.ts:105-117 | with environment listeners one after the other, two overlapping team listeners can leave a wrong team cost |
| CostRollup.CostStore.EnvCostListener | api/src/reconciliation/reconciliation.service.ts:454-469 | an uninterrupted environment listener is its read step and write step, emitting only on a change |
| CostRollup.CostStore.TeamCostListener | api/src/team/team.service.ts:105-117 | the same for the team listener |
| CostTotals.SumAppend | api/src/reconciliation/reconciliation.service.ts:454-460 | the sum of two lists together is the sum of their sums |
| CostTotals.OneCost | api/src/reconciliation/reconciliation.service.ts:456-458 | one cost counts as itself if it is positive, else not at all |
| CostTotals.TeamCostIsSum | api/src/team/team.service.ts:105-117 | a rolled-up team cost is the sum of the positive component costs of all its environments |
| CostTotals.CostMovesByDifference | api/src/environment/environment.controller.ts:283-298 | one component cost going from a to b, both positive, moves its environment's cost and its team's by b - a, and no other cost |
| ZlState.DeleteInPlace | state-manager/app/zlstate/s3.go:195-199 | the range loop over the shifted backing array leaves the skimmed list, or panics exactly when the last entry and an earlier one have the name |
| ZlState.SkimIsWithoutIff | state-manager/app/zlstate/s3.go:195-199 | the loop removes all matches exactly when no two adjacent entries match |
| ZlState.UniqueDeletes | state-manager/app/zlstate/s3.go:195-199 | on unique lists it neither panics nor skips a match |
| ZlState.DeleteRefines | state-manager/app/zlstate/s3.go:189-206 | deleting is removing a key of the map |
| ZlState.UpsertRefines | state-manager/app/zlstate/s3.go:170-180 | upserting is setting a key; places are kept and a new name goes last |
| ZlState.PatchRefines | state-manager/app/zlstate/s3.go:95-107 | patching is updating one entry of the map in place |
| ZlState.S3Backend.AddDefaults | state-manager/app/zlstate/s3.go:225-241 | the loop stamps exactly the zero times; names, statuses, order and owner stay |
| ZlState.S3Backend.Put | state-manager/app/zlstate/s3.go:127-162 | without force an existing state is never replaced; otherwise the given state is stored with its zero times stamped, and no other key changes |
| ZlState.S3Backend.PatchComponent | state-manager/app/zlstate/s3.go:89-125 | patches the first component of the name and stores the result, or fails and stores nothing; for unique names the stored list holds the old map with that one entry patched, in the old order |
| ZlState.S3Backend.UpsertComponent | state-manager/app/zlstate/s3.go:164-187 | stores the upserted list; for unique names it holds the old map with that one entry set, a new name last |
| ZlState.S3Backend.ReplaceNamed | state-manager/app/zlstate/s3.go:170-176 | the loop replaces every component of the name |
| ZlState.S3Backend.DeleteComponent | state-manager/app/zlstate/s3.go:189-206 | stores the skimmed list, which for unique names holds the old map without that entry; on a panic nothing is stored |
| ErrorHistory.ErrorsService.CreateErrorEnvRecon | api/src/reconciliation/reconciliation.service.ts:59-77 | a row is appended and becomes the latest |
| ErrorHistory.ErrorsService.ProcessValidRecon | api/src/errors/errors.service.ts:14-43 | nothing unless the latest row is a failure with a good row behind it; else the newest good row is copied on top |
| ErrorHistory.ErrorsService.ProcessInvalidRecon | api/src/errors/errors.service.ts:45-76 | nothing on repeated messages, else a failed row |
| ErrorHistory.ErrorsService.SaveOrUpdate | api/src/errors/errors.controller.ts:29-52 | dispatches on whether the post has messages |
| ErrorHistory.HistoryShowsOutcome | api/src/errors/errors.service.ts:14-76 | after any posts at increasing times the latest row is failed exactly when the last post had messages, otherwise it shows the starting status and cost; one row per change of outcome |
| ErrorHistory.AlwaysRestoredIff | api/src/reconciliation/reconciliation.service.ts:357-372 | the start is always restored exactly when the newest finished good row agrees with it |
| ErrorHistory.FailureSticks | api/src/errors/errors.service.ts:20-26 | where nothing ever succeeded a failure stays on top whatever is posted |
| ErrorHistory.PostCases | api/src/errors/errors.service.ts:18-82 | what one post leaves: nothing new for a repeated failure, for a clean post on a good history or where nothing good is left to copy; else one row, failed with the messages, or a newest good row copied |
| SpecPosts.EnvironmentController.SaveOrUpdate | api/src/environment/environment.controller.ts:50-100 | the stored rows, dag and id generator after a post, also after a refused one |
| SpecPosts.EnvironmentController.BatchCreateComponents | api/src/environment/environment.controller.ts:155-184 | creates all rows with increasing ids, or none when the unique index takes two of the names, or a name and a stored one, for the same |
| SpecPosts.EnvironmentController.FilterNew | api/src/environment/environment.controller.ts:66-68 | the posted components without a row, in posted order |
| SpecPosts.EnvironmentController.SplitCurrent | api/src/environment/environment.controller.ts:69-81 | the loop sorts current rows into missing and still posted |
| SpecPosts.PostKeepsRowsSound | api/src/environment/environment.controller.ts:50-100 | every post keeps names distinct to the index and ids increasing |
| SpecPosts.RowsMatchDagIff | api/src/environment/environment.controller.ts:83-97 | after any run of posts rows and dag name the same components in the same order exactly when the last post was accepted |
| SpecPosts.RefusedDisagrees | api/src/environment/environment.controller.ts:87-94 | a refused post leaves the rows alone while the dag already lists the new components |
| SpecPosts.AcceptedIff | api/src/typeorm/component.entity.ts:17-28 | for any collation of the unique index: a post is accepted exactly when no new name is posted twice and the index identifies no two different names among the stored and the posted ones |
| SpecPosts.DistinctAcceptedIff | api/src/environment/environment.controller.ts:155-184 | posts of distinct names are refused only on account of the index |
| SpecPosts.RenameRefused | api/src/environment/environment.controller.ts:93-97 | a component renamed to what the index takes for its old name is refused, as rows are created before old ones are deleted |
| SpecPosts.RowsAfterPost | api/src/environment/environment.controller.ts:69-97 | exactly the posted components have rows; rows that stay keep their id, new ids are new |
| SpecPosts.DagPermutesPost | api/src/environment/environment.controller.ts:83-91 | the stored dag is a permutation of the posted list of distinct names, whether or not the post is accepted |
| SpecPosts.RepeatedPostIsIdle | api/src/environment/environment.controller.ts:50-100 | posting the same list of distinct names again changes nothing at all, whether it was accepted or refused |
| SpecPosts.PostListed | api/src/environment/environment.controller.ts:50-100 | everything a post stores, entry by entry: the dag lists the rows still posted, each by the first posted component of its name, then the new ones as posted; the rows keep those and number the new ones |
| EventStatus.GroupEventsByFamily | event-service/internal/status/service.go:217-225 | the groups are the events of each family in order |
| EventStatus.SortEventsByDescTimestamp | event-service/internal/status/service.go:245-249 | a permutation, newest first, ties in any order |
| EventStatus.NewGroupedStatusByFamily | event-service/internal/status/service.go:201-215 | each family present gets the status of a newest event of it; fails only where such an event is unreadable |
| EventStatus.NewObjectStatus | event-service/internal/status/service.go:187-199 | head of the group, truncated events and family statuses; a panic exactly on a negative limit when no family fails |
| EventStatus.NewTeamStatus | event-service/internal/status/service.go:88-109 | the newest event names company and team, or the status fails |
| EventStatus.NewEnvironmentStatus | event-service/internal/status/service.go:152-179 | the newest event names company, team and environment, or the status fails |
| StatusCalculation.GroupTeamEvents | event-service/internal/status/service.go:62-72 | one sorted group per object of the team events |
| StatusCalculation.GroupEnvironmentEvents | event-service/internal/status/service.go:111-131 | one sorted group per team and object; fails exactly when an environment event names no team |
| StatusCalculation.BuildTeamStatusMap | event-service/internal/status/service.go:74-86 | a status for every team group, made from its events |
| StatusCalculation.BuildEnvironmentStatusMap | event-service/internal/status/service.go:133-150 | a status for every environment group, made from its events |
| StatusService.Calculate | event-service/internal/status/service.go:30-60 | a result reports every object with an event from exactly its events; an error means an event without the meta of its scope or a newest unreadable error; without one it panics exactly on a negative history with something to report; for recorded events without ties a result is returned exactly when there is none |
| StatusService.ReportedLimit | event-service/internal/status/service.go:193-198 | a response with an object in it was asked for a non-negative history |
| StatusService.BlockedIff | event-service/internal/status/service.go:205-243 | for recorded events: a response is ruled out exactly by an error without readable messages that is newest of its group and family |
| StatusAgreement.TeamGroupsConserve | event-service/internal/status/service.go:62-72 | every team event is in the group of its object as often as in the input, and in no other |
| StatusAgreement.EnvironmentGroupsConserve | event-service/internal/status/service.go:111-131 | the same for environment events |
| StatusAgreement.ShownAreNewest | event-service/internal/status/service.go:193-198 | the events shown are the newest of the group, as many as asked for |
| StatusAgreement.NewestDecides | event-service/internal/status/service.go:205-212 | a strictly newest event of a family fixes its status whatever the sort does with ties |
| StatusAgreement.StateIsErrorIff | event-service/internal/status/service.go:227-243 | the state is error exactly when the newest event of the family is of an error type; messages and time are its own |
| StatusAgreement.UnreadableNewestFails | event-service/internal/status/service.go:231-236 | one unreadable error event that is newest of its team or environment and family leaves the company without any status |
| StatusAgreement.ReportedUnblocked | event-service/internal/event/validator.go:31-59 | the converse for recorded events, which never lack meta: without ties a reported company has no newest unreadable error |
| StatusAgreement.PostEvent | event-service/internal/web/controllers/events.go:92-121 | refused exactly when validation fails; recorded but ending in a nil dereference exactly when no environment status can be built; announced otherwise, with the payload's environment, its one event and its one family |
| StatusAgreement.AnnouncedAgrees | event-service/internal/web/controllers/events.go:108-118 | the status announced for a strictly newest event is what the full recomputation says about that object and family |
| StatusAgreement.TeamsOfResponse | event-service/internal/status/service.go:74-109 | exactly the team objects with an event are in a response, with the fields of a newest event and a status for every family they have events of |
| StatusAgreement.EnvironmentsOfResponse | event-service/internal/status/service.go:133-180 | the same for environments, by team and object |
| Events.ValidPayloadIff | event-service/internal/event/validator.go:7-59 | a payload is accepted exactly with a known type, an object, and the meta fields of its scope |
| Events.AcceptedIsRecorded | event-service/internal/event/service.go:32-52 | what is accepted is recorded with the fields of the payload and the family of its type |
| GitUrls.ReverseParseGitURL | internal-cli/app/util/parsers.go:79-108 | the backwards loop finds the last two delimiter-free pieces |
| GitUrls.ReverseParseIff | internal-cli/app/util/parsers.go:79-108 | on any URL ending in owner, delimiter, repository it returns the two, and rejects an empty one |
| GitUrls.ParsePanicsIff | il-operator/controller/util/parsers.go:92-97 | the operator's parser panics exactly on an HTTPS URL without a slash after the scheme |
| GitUrls.ParsedIff | il-operator/controller/util/parsers.go:87-116 | for every URL, with or without `.git`: which owner and repository are read, and when it is rejected |
| GitUrls.OrgIff | api/src/organization/utilities.ts:1-33 | for every URL: which organisation is taken from it, if any |
| GitUrls.BareHostPanics | il-operator/controller/util/parsers.go:92-97 | `https://github.com` is such a URL |
| GitUrls.SshParsersAgree | il-operator/controller/util/parsers.go:98-110 | on SSH URLs ending in .git operator and API accept the same ones with the same owner |
| GitUrls.AcceptedUrlsAgree | api/src/organization/utilities.ts:1-33 | every URL the API accepts is parsed by the operator into the same owner and the last piece of the URL; the backwards parser agrees exactly when these two are non-empty and colon-free |
| GitUrls.CanonicalUrlsAgree | api/src/organization/utilities.ts:1-33 | all three read owner and repository back from both spellings of a GitHub repository |
| GitRewrite.ThereAndBackIff | il-operator/controller/util/parsers.go:126-155 | replacing a prefix and replacing it back is the identity exactly on strings without the target, for prefixes that cannot overlap |
| GitRewrite.OperatorSshRoundTripIff | il-operator/controller/util/parsers.go:126-155 | SSH to HTTPS to SSH is the identity exactly when the rest of the URL has no HTTPS prefix of that host, for GitHub and GitLab |
| GitRewrite.OperatorHttpsRoundTripIff | il-operator/controller/util/parsers.go:126-155 | HTTPS to SSH to HTTPS likewise |
| GitRewrite.CliRoundTripIff | internal-cli/app/util/parsers.go:110-130 | the command line's SSH to HTTPS to SSH on any URL: identity exactly when it has no GitHub HTTPS prefix and, unless it has a GitHub SSH one, no GitLab HTTPS prefix |
| GitRewrite.OperatorRewrites | il-operator/controller/util/parsers.go:130-156 | which URLs are rewritten, and that all others are left alone |
| GitRewrite.OperatorKeepsTarget | il-operator/controller/util/parsers.go:130-156 | a URL in the target form stays as it is |
| GitRewrite.CliRewrites | internal-cli/app/util/parsers.go:110-130 | the same for the command line, which looks anywhere in the text |
| GitRewrite.ContainsSurvives | internal-cli/app/util/parsers.go:110-130 | replacing one prefix by another neither makes nor destroys occurrences of a text that can overlap neither |
| ArgoSessions.LockIsHeldByOne | bff/src/auth/argo.ts:58-79 | in every interleaving at most one caller is between taking and releasing the lock, and the flag is set exactly when one is |
| ArgoSessions.LoginsAreSpaced | bff/src/auth/argo.ts:41-56 | two sessions stored for one organisation are more than three hours apart under a clock that never runs backwards |
| ArgoSessions.HolderIsUndisturbed | bff/src/auth/argo.ts:58-79 | the holder always has a step, each of its steps brings the release closer, and no other step touches it, the lock or the sessions |
| ArgoSessions.CallerIsHanded | bff/src/auth/argo.ts:32-79 | a caller that found its session expired, in every interleaving: with a password the token of its own login; when none could be had, a failing store included, the expired token, or null if there was no session |
| ArgoSessions.ExpiredTokenServedIff | bff/src/auth/argo.ts:32-39 | the expired session itself is handed out exactly when there is one and no password could be had: the store has none or it could not be asked |
| ArgoSessions.LoginServesUntilExpiry | bff/src/auth/argo.ts:41-56 | what a login returned, null included, is what every caller of that organisation is handed for the next three hours |
| ArgoSessions.StepCases | bff/src/auth/argo.ts:32-79 | step by step what happens to the memory and the caller that moves, a held lock included, and that nobody else is touched |
| ArgoSessions.CanAlwaysMove | bff/src/auth/argo.ts:58-79 | a caller that is not done always has a step |
| ArgoSessions.ArgoAuth.IsExpired | bff/src/auth/argo.ts:51-56 | true exactly for a missing session, a zero expiry or a passed one |
| ArgoSessions.ArgoAuth.TryEnter | bff/src/auth/argo.ts:59-71 | the code up to the first await is the step of the protocol |
| ArgoSessions.ArgoAuth.PasswordArrived | bff/src/auth/argo.ts:34-39 | so is the code after the request to the secret store, whose failures the helper turns into null |
| ArgoSessions.ArgoAuth.LoggedIn | bff/src/auth/argo.ts:41-48 | so is the storing of the session |
| ArgoSessions.ArgoAuth.Leave | bff/src/auth/argo.ts:71-78 | so is the return |
| SecretKeys.GetEnvironments | api/src/secrets/secrets.service.ts:147-180 | the loop over all pages fills the map specified below |
| SecretKeys.KeyPrintedIff | il-operator/controller/codegen/secret/secret.go:27-52 | a key is printed exactly for a known scope whose parts are all given, and an unknown scope is told apart |
| SecretKeys.PrintedKey | il-operator/controller/codegen/secret/secret.go:54-68 | the key holds company, team, environment, component and name, as far as the scope goes, each after a slash |
| SecretKeys.KeySplits | il-operator/controller/codegen/secret/secret.go:27-68 | splitting a printed key gives an empty piece, the company, the scope parts and the name |
| SecretKeys.KeysAreInjective | il-operator/controller/codegen/secret/secret.go:27-68 | across all four scopes, slash-free parts that print the same key are the same scope, parts and name |
| SecretKeys.KeyValueRecovers | api/src/secrets/secrets.service.ts:48-60 | the API shows the scope path and the name of every printed key |
| SecretKeys.ScopePathRecovers | api/src/secrets/secrets.service.ts:56-57 | the colon-joined path gives the scope parts back when they are colon-free |
| SecretKeys.EnvironmentKeysRecognised | api/src/secrets/secrets.service.ts:62-69 | exactly environment-scope keys are taken for environments, with the right names |
| SecretKeys.ValidNamesPrintable | il-operator/controller/validator/common.go:22-34 | scope parts that pass the name check are slash-free and colon-free |
| SecretKeys.SlashConfusesScopes | il-operator/controller/codegen/secret/secret.go:54-68 | a slash in a name makes a team key equal to an environment key |
| SecretKeys.KeysCollideIff | il-operator/controller/codegen/secret/secret.go:27-68 | whatever slashes the parts hold, two keys are equal exactly when their parts have the same slash-separated pieces |
| SecretKeys.SlashedNamesCollideIff | il-operator/controller/codegen/secret/secret.go:27-68 | with slashes in secret names only: keys are equal exactly when one scope lies within the other and the wider one's name spells out the rest of the narrower scope and the other name |
| SecretKeys.PathAddressesKey | api/src/secrets/secrets.service.ts:36-46 | a path given to the API addresses the key the operator prints, with or without a leading slash |
| SecretKeys.PathCases | api/src/secrets/secrets.service.ts:36-46 | any path is read below the organisation, with one leading slash dropped |
| SecretKeys.ShortNames | api/src/secrets/secrets.service.ts:48-69 | a name with at most one slash has neither scope, value nor environment |
| SecretKeys.EntryIsLast | api/src/secrets/secrets.service.ts:163-168 | an entry of the environment list is one of the keys' teams, and every environment name with a key has an entry |
| SecretKeys.EnvironmentListCompleteIff | api/src/secrets/secrets.service.ts:147-180 | the list is complete exactly when no two teams use one environment name |
| Strings.JoinOfSplit | api/src/secrets/secrets.service.ts:51-57 | joining the pieces of a split restores the text, and no piece has the separator |
| Strings.SplitOfJoin | api/src/secrets/secrets.service.ts:51-57 | splitting the join of separator-free pieces restores them |
| Strings.ReplaceIdentityIff | il-operator/controller/util/interpolation.go:29-29 | replacing all occurrences by something else is the identity exactly when there are none |

## Left out

- Workflow.GenerateWorkflowOfWorkflows: the other task parameters and the workflow envelope are literals, and the exit handler runs outside the DAG; appending to a component's own `dependsOn` slice may write into its spare capacity, which the model, on values, does not show.
- DagRun.Progress: the executor is the step semantics of DAG tasks with `Dependencies`; retries and timeouts of Argo Workflows are not part of this model.
- Validator.ValidateEnvironmentComponents: overlay and tfvars checks need a clone and enter as given results; texts and field paths of errors are reduced to constructors.
- Team, namespace, quota and uniqueness checks of the environment validator outside the component list: single comparisons against cluster state.
- BrokerProtocol.Broker.Register: blocking of the unbuffered registration channels is the enabling condition of the step; a Go channel handed to two connections is one client.
- Interpolation.Interpolate: strings are characters, so a multi-byte character is one position; the expressions name only ASCII, so matches are the same.
- EnvironmentInterpolation.InterpolateEnvironment: components are assumed to own their lists, as decoding a document gives; two list entries pointing to one component are not modelled.
- GitReconciler.Reconciler.Reconcile: cloning, tokens and reading the head are one given result; the pass over all repositories and its timer are left out, as is the dereference of a nil entry by that pass.
- Retry.Retry: the limit is a package variable that nothing assigns; it is a constant here, and the pause between calls is left out.
- CostRollup.QuietIsRolledUp: requires that listeners overlap only where there are no components, which the code does not ensure; `CostOverlaps.RolledUpIff` shows that it has to. Environments, teams, component sets and the latest reconcile are fixed during a run, and an event carries its environment's key only.
- ZlState.S3Backend.Put: errors of the bucket are left out; the clock is read once per call.
- ErrorHistory.ErrorsService.ProcessValidRecon: rows with equal end times are ordered by nothing, so any of them may be restored; messages are compared as lists, not as JSON text.
- SpecPosts.EnvironmentController.SaveOrUpdate: one environment at a time; the index identifies names by a key, as a collation does; database errors other than its refusal are left out, and type and dependencies of a component are one value.
- StatusService.Calculate: the event table is given as the list of a company's events; with equal timestamps the result is any of those the library sort allows. Only the exact condition for a result assumes that there are none.
- StatusAgreement.PostEvent: a failing insert is left out; notification is the broker's.
- GitUrls.ReverseParseGitURL: for ASCII URLs; the loop indexes bytes while ranging over characters.
- ArgoSessions.LoginsAreSpaced: time is the clock of one process that never runs backwards; the waiting loop's timer is left out.
- SecretKeys.GetEnvironments: pages are given as lists; the secret store's own errors are left out.
- HTTP, Kubernetes, S3, SSM, GitHub and ArgoCD clients, rendering of templates, the web interface, SQL and JSON encodings.
- Ordering with non-terraform components, and components destroyed outside a teardown: their tasks carry no ordering claim.
