# h2kvm: a verified model of its stateful core

h2kvm moves virtual machines from other hypervisors to KVM. Most of it drives external
tools. This project models the parts whose correctness is a matter of logic, and proves
what they promise over every input, every run and every reachable state:

- **Circuit breaker** (`CircuitBreaker.dfy`, `BreakerProtocol.dfy`). The breaker object
  with its fields, and the protocol it plays with any number of in-flight calls. A run is
  any interleaving of calls, reports, resets and state reads under a monotone clock.
  Reports may come late, twice or never, and from calls of an earlier episode.
- **Layered configuration** (`ConfigMerge.dfy`, `ConfigKeys.dfy`, `ConfigAliases.dfy`,
  `Texts.dfy`). Values are trees. Dictionaries are maps for merging, and ordered pairs
  where two spellings of one key are resolved by insertion order; the ordered merge is
  proved to refine the unordered one.
- **Snapshot-chain fetch** (`RemotePaths.dfy`, `ChainWalk.dfy`, `SnapshotFetch.dfy`).
  POSIX `normpath` as a stack machine, containment tests on strings against containment
  by components, and the fetch over an arbitrary remote filesystem whose parent links may
  form cycles.
- **Statistics and prediction** (`Statistics.dfy`, `Similarity.dfy`, `Records.dfy`,
  `PhaseAnomalies.dfy`, `Anomalies.dfy`, `Prediction.dfy`). Exact reals; `sqrt` is a parameter of which only
  `s >= 0` and `s * s == v` is assumed, where it matters.
- **Streams, retries and transfers** (`StderrLines.dfy`, `ReaderProgress.dfy`,
  `CommandRetry.dfy`, `AtomicTransfer.dfy`). The incremental stderr splitter, the progress
  log, the retry loop of the command runner and the `.part`-then-rename download, each
  against an adversarial environment given as a parameter.

Code that changes state is a class or a method with loops, proved against a function of
its inputs; the theorems are then about those functions.

## What the code does not promise after all

Each of these comes with the condition under which the promise holds, as an if and only
if, and where it helps with a concrete witness.

- *Breaker*: the documentation says successful probes close the circuit. A call admitted
  before the circuit opened may report in HALF_OPEN and close it with no probe admitted
  (`StaleSuccessCloses`); the documented reading holds exactly without such a success
  (`ProbesCloseExactlyWithoutStaleSuccess`). The decorator catches only `Exception`, so a
  probe may never report. The breaker then stays shut exactly when the unreported probes
  and the slots used up by earlier successes leave none (`WedgedExactly`); one lost probe
  can be enough (`OneLostProbeWedges`). A refused call is told when to retry; that time is
  exact when OPEN and meaningless when the probe slots are taken (`RetryHintExactly`). The
  failure count is documented as consecutive failures; a success in HALF_OPEN does not set
  it back (`CountIsConsecutiveExactly`, `OneLostProbeWedges`).
- *Merge*: associativity fails for a scalar between two dictionaries
  (`DictScalarDictFails`); `MergeAssociativeExactly` says when it holds.
- *Aliases*: per-VM entries are merged before canonicalisation, so a base and an entry can
  leave two values under the two names of a pair (`VmPairAgreesExactly`,
  `OneNameInEachDisagrees`); the control-plane pair can differ by case or spaces
  (`ControlPlanePairAgrees`, `LoadedControlPlane`).
- *Paths*: `_normalize_remote_path` strips before it normalises, so it is not idempotent
  (`NormalizeRemoteIdempotentExactly`), and the sandbox test rewrites both the path and
  the root it is given (`SandboxTestExactly`). A root that ends in whitespace is taken for
  another directory, even for `/` (`DotsRootAdmitsAll`); the test keeps paths under the
  root given, but for the root followed by whitespace, exactly when the root's text is
  trimmed (`RootIsKeptExactly`). A fetch can leave the sandbox it computed exactly when
  the remote host has a name that passes the test without being under it
  (`LeaksExactly`); for a trimmed sandbox that is the sandbox followed by whitespace
  (`TrimmedSandboxEscapes`). Both ways of leaving have a witness (`SpacedSiblingLeaks`,
  `SpacedSandboxLeaks`).
- *Joins*: a base made of `..` can be climbed out of by one more `..`; no other can
  (`SafeJoinStaysBelowExactly`, `UpwardBaseIsClimbed`).
- *Chain walk*: the top descriptor is not marked as seen, so a cycle through it streams it
  twice (`TopIsFetchedAgainExactly`, `TwoCycleIsFetchedTwice`).
- *Regression*: lists of different lengths are documented to give `(0, mean(y))`; the code
  fits the common prefix (`UnequalLengthsAreFitted`, `UnequalLengthsAreTruncated`).
- *Anomalies*: a run is judged by a history that contains it, so early runs are never
  flagged; from what size on they can be is exact (`FlagPossibleExactly`,
  `PhaseFlagPossibleExactly`).
- *Command runner*: a checked command that fails is documented to raise `CommandError`; an
  exit code outside 0..255, as of a process killed by a signal, surfaces as `ValueError`,
  and a launch failure as itself (`CommandErrorExactly`).
- *Transfer*: the skip path leaves a stale `.part` file alone. A stale file can be
  promoted, at any attempt, exactly when the unlink before it fails and something can be
  left over (`StalePromotionExactly`).

## Model

| member | source | states |
|---|---|---|
| `CircuitBreakers.CircuitBreaker.constructor` | h2kvm/core/circuit_breaker.py:91-110 | a new breaker is CLOSED with all counters zero |
| `CircuitBreakers.CircuitBreaker.TransitionTo` | h2kvm/core/circuit_breaker.py:206-221 | the whole new state of a transition, field by field |
| `CircuitBreakers.CircuitBreaker.MaybeTransitionToHalfOpen` | h2kvm/core/circuit_breaker.py:198-204 | OPEN becomes HALF_OPEN once the recovery timeout has passed; all else is kept |
| `CircuitBreakers.CircuitBreaker.ReadState` | h2kvm/core/circuit_breaker.py:114-119 | reading the state may itself move OPEN to HALF_OPEN |
| `CircuitBreakers.CircuitBreaker.BeforeCallStep` | h2kvm/core/circuit_breaker.py:129-151 | verdict, remaining time and whole new state of the gate check, as the protocol's step |
| `CircuitBreakers.CircuitBreaker.RecordSuccessStep` | h2kvm/core/circuit_breaker.py:153-163 | refines the protocol's success step |
| `CircuitBreakers.CircuitBreaker.RecordFailureStep` | h2kvm/core/circuit_breaker.py:165-176 | refines the protocol's failure step |
| `CircuitBreakers.CircuitBreaker.ResetStep` | h2kvm/core/circuit_breaker.py:178-181 | refines the protocol's reset step |
| `BreakerProtocol.Reachable` | h2kvm/core/circuit_breaker.py:129-229 | every reachable state of every interleaving satisfies the invariant, for any settings and any stale or stray reports |
| `BreakerProtocol.ProbeSlotsAreConserved` | h2kvm/core/circuit_breaker.py:129-163 | in HALF_OPEN the slots taken equal the unreported probes plus the probes that succeeded; at most half_open_max_calls admissions in an episode |
| `BreakerProtocol.NeverWedges` | h2kvm/core/circuit_breaker.py:129-229 | once the calls of the current stay have reported (and the timeout has passed if OPEN) the next call is admitted |
| `BreakerProtocol.WedgedExactly` | h2kvm/core/circuit_breaker.py:129-163 | in every invariant state: no later call is admitted while nothing reports, if and only if unreported probes plus own successes leave no slot (HALF_OPEN), or no probe is ever allowed (OPEN) |
| `BreakerProtocol.OneLostProbeWedges` | h2kvm/core/circuit_breaker.py:307-316 | a run with two slots in which one probe succeeds, the other is lost, the breaker is wedged, and the failure count stays 1 |
| `BreakerProtocol.LostProbesWedge` | h2kvm/core/circuit_breaker.py:307-316 | if the probes hold all slots and never report, no later call is admitted, ever |
| `BreakerProtocol.ClosedTripsExactly` | h2kvm/core/circuit_breaker.py:165-176 | CLOSED opens exactly when the outcomes of the stay end in failure_threshold failures; failure_count is the length of that suffix |
| `BreakerProtocol.HalfOpenClosesExactly` | h2kvm/core/circuit_breaker.py:153-176 | HALF_OPEN closes exactly on the last needed success, with no failure recorded in the stay, and opens exactly on a failure |
| `BreakerProtocol.AdmissionWaitsForRecovery` | h2kvm/core/circuit_breaker.py:137-151 | over every run, no call is admitted within recovery_timeout of an opening unless reset intervened |
| `BreakerProtocol.AdmittedOnceRecoveredExactly` | h2kvm/core/circuit_breaker.py:137-176 | a breaker OPEN since a failure admits the next call if and only if recovery_timeout has passed since that failure, whatever was reported in between |
| `BreakerProtocol.StaleFailureDoesNotDelay` | h2kvm/core/circuit_breaker.py:165-176 | a run in which a failure reported while OPEN does not put off the recovery |
| `BreakerProtocol.FailureCountExactly` | h2kvm/core/circuit_breaker.py:121-125 | failure_count in every state of every run: the failures recorded since it was last set back, by entering CLOSED, a reset or a success outside HALF_OPEN |
| `BreakerProtocol.CountIsConsecutiveExactly` | h2kvm/core/circuit_breaker.py:121-125 | failure_count is the documented number of consecutive failures, if and only if no success was recorded while it was positive since it was last set back |
| `BreakerProtocol.StaleSuccessCloses` | h2kvm/core/circuit_breaker.py:153-159 | a run in which a call from before the opening closes the circuit though no probe was admitted |
| `BreakerProtocol.ProbesCloseExactlyWithoutStaleSuccess` | h2kvm/core/circuit_breaker.py:153-163 | closing means half_open_max_calls own probes succeeded exactly when no stale success was recorded |
| `BreakerProtocol.RetryHintExactly` | h2kvm/core/circuit_breaker.py:137-151 | the retry time told to a refused call is exact when OPEN, if and only if; with all probe slots taken it is 0 and waiting alone never helps |
| `ConfigMerge.DedupLoop` | h2kvm/config/config_loader.py:191-202 | the loop is first-occurrence dedup by Python's hash equality; lists and dicts are always kept |
| `ConfigMerge.KeysAreEqualExactly` | h2kvm/config/config_loader.py:191-202 | two scalars are duplicates exactly when Python finds them equal, True, 1 and 1.0 included |
| `ConfigMerge.DedupKeepsFirsts` | h2kvm/config/config_loader.py:191-202 | what is kept, by position: exactly the first occurrence of each scalar and every list and dict, in order |
| `ConfigMerge.DedupIsASetOfScalars` | h2kvm/config/config_loader.py:191-202 | no scalar occurs twice in the result and none is lost |
| `ConfigMerge.JoinListsAssociative` | h2kvm/config/config_loader.py:185-206 | all list modes are associative; extend_unique dedups the whole concatenation |
| `ConfigMerge.MergeDicts` | h2kvm/config/config_loader.py:178-209 | the assigning loop, in any item order, computes the recursive merge |
| `ConfigMerge.DeepMergeDict` | h2kvm/core/guest_utils.py:80-86 | deep_merge_dict equals merge_dicts in replace mode |
| `ConfigMerge.MergeAssociativeExactly` | h2kvm/config/config_loader.py:178-209 | deep merge of three layers is associative if and only if no layer of another kind sits between two whose merge changes the later one |
| `ConfigMerge.ConsistentLayersAssociate` | h2kvm/config/config_loader.py:178-209 | layers that agree on kinds at shared paths merge associatively in every list mode |
| `ConfigMerge.DictScalarDictFails` | h2kvm/config/config_loader.py:178-209 | a dict, a scalar, a dict at one key: associativity fails in every list mode |
| `ConfigMerge.TouchesIsCovers` | h2kvm/config/config_loader.py:178-209 | the recursive reading of "a value at the path or a non-dict above it" equals the direct one |
| `ConfigMerge.FoldLoop` | h2kvm/config/config_loader.py:229-231 | the accumulating loop is the fold of the merge |
| `ConfigMerge.LastCoveringLayerDecides` | h2kvm/config/config_loader.py:178-233 | the fold has leaf x at a path exactly when some layer has it there and no later layer covers the path |
| `ConfigMerge.MergedLists` | h2kvm/config/config_loader.py:185-206 | lists at one path become the later one, both in order, or the first occurrences of both in order, as the list mode says |
| `ConfigAliases.CanonicalizeAliases` | h2kvm/config/config_loader.py:428-477 | the mutating procedure computes the canonical form |
| `ConfigAliases.CanonicalFixedPoints` | h2kvm/config/config_loader.py:428-477 | its fixed points are exactly the settled configurations; it is idempotent |
| `ConfigAliases.CanonicalKeeps` | h2kvm/config/config_loader.py:428-477 | names that are no alias, and aliases that are given, keep their values |
| `ConfigAliases.GovcGiven` | h2kvm/config/config_loader.py:451-471 | a govc_* name keeps what is given for it, else takes the first given GOVC_* spelling, else stays absent |
| `ConfigAliases.GovcNames` | h2kvm/config/config_loader.py:455-468 | each GOVC_* name stands for its lower-case spelling, but for two that are shortened |
| `ConfigAliases.SettledMerge` | h2kvm/config/config_loader.py:178-209 | fixed points are closed under the merge in every list mode |
| `ConfigAliases.LoadMany` | h2kvm/config/config_loader.py:212-233 | loading is the fold of the canonical files, and the result is settled |
| `ConfigAliases.LoadedLookup` | h2kvm/config/config_loader.py:212-233 | the loaded leaf at a path that is no alias is that of the last file with a value there or a non-dict above it, by the files as given |
| `ConfigAliases.FinalCanonicalisationIsIdentity` | h2kvm/config/config_loader.py:229-233 | the closing canonicalisation of load_many changes nothing |
| `ConfigAliases.LoadedPairsAgree` | h2kvm/config/config_loader.py:229-233 | if no file conflicts with itself, both names of a pair agree and carry the scalar of the last file naming either |
| `ConfigAliases.LoadedPairAgreesExactly` | h2kvm/config/config_loader.py:229-233 | with scalars in the last file naming either, the loaded pair is that file's, and agrees if and only if that file does not conflict |
| `ConfigAliases.ControlPlanePairAgrees` | h2kvm/config/config_loader.py:445-475 | for every file: the control-plane names agree exactly when the value for one is the stripped, lower-cased value for the other |
| `ConfigAliases.LoadedControlPlane` | h2kvm/config/config_loader.py:229-233 | over all files: the loaded pair is that of the last file naming either with scalars, and agrees exactly when that file's does |
| `ConfigAliases.FanOut` | h2kvm/config/config_loader.py:412-423 | one file fans out into base overlaid with each entry, or stops at the first entry that is no mapping |
| `ConfigAliases.FanOutAll` | h2kvm/config/config_loader.py:408-423 | all files in order; it dies exactly on the first entry that is no mapping |
| `ConfigAliases.CanonicalizeEach` | h2kvm/config/config_loader.py:425-425 | each configuration is replaced by its canonical form |
| `ConfigAliases.LoadVmConfigs` | h2kvm/config/config_loader.py:408-425 | succeeds exactly when all entries are mappings, with the canonical overlays in order; otherwise dies on the first entry that is none |
| `ConfigAliases.PerVmAllAt` | h2kvm/config/config_loader.py:408-425 | the configurations come in file order and, within a file, in entry order |
| `ConfigAliases.VmLookup` | h2kvm/config/config_loader.py:412-421 | an entry over its file, by path: the entry where it says something, else the file outside its vms list; vms only if the entry states it |
| `ConfigAliases.LoadedVmLookup` | h2kvm/config/config_loader.py:408-425 | the result of load_vm_configs by position and by path, in terms of the files as given |
| `ConfigAliases.PlainFileIsOneVm` | h2kvm/config/config_loader.py:422-425 | a file without a vms list contributes its canonical form, once |
| `ConfigAliases.VmLists` | h2kvm/config/config_loader.py:412-421 | lists of a file and its entry at one path are combined as the list mode says |
| `ConfigAliases.VmPairAgreesExactly` | h2kvm/config/config_loader.py:412-425 | for scalars in the entry and any base: a pair agrees if and only if one name is stated nowhere or base and entry state the same at both |
| `ConfigAliases.VmPairOverAgreeingBase` | h2kvm/config/config_loader.py:412-425 | for values of any kind over an agreeing base: when a pair agrees, if and only if |
| `ConfigAliases.OneNameInEachDisagrees` | h2kvm/config/config_loader.py:412-425 | a file with cmd in the base and command in an entry, whose per-VM configuration holds two commands |
| `ConfigAliases.AliasClosedEntryAgrees` | h2kvm/config/config_loader.py:412-425 | an entry that uses both names for one value, or neither, yields agreement |
| `ConfigAliases.OneNameOverrideDisagrees` | h2kvm/config/config_loader.py:412-425 | a scalar override of one name over a base with the pair disagrees unless it repeats the base's value |
| `ConfigKeys.NormalizedIsDashFree` | h2kvm/config/config_loader.py:480-495 | no key at any depth, inside lists too, keeps a dash |
| `ConfigKeys.DashFreeIsFixed` | h2kvm/config/config_loader.py:480-495 | a value without dashes normalises to itself |
| `ConfigKeys.NormalizeIdempotent` | h2kvm/config/config_loader.py:480-495 | normalising the result again, in any order, gives it back |
| `ConfigKeys.OrderedMergeRefinesMerge` | h2kvm/config/config_loader.py:178-209 | the merge on ordered dictionaries, order forgotten, is the merge on maps |
| `ConfigKeys.NormalizeCommutesWithMerge` | h2kvm/config/config_loader.py:178-209 | normalising commutes with merging in every list mode when spellings are apart at each merged level |
| `ConfigKeys.MixedSpellingFails` | h2kvm/config/config_loader.py:485-495 | a base with both spellings of one key breaks the commutation |
| `Texts.StripTrims` | h2kvm/converters/fetch.py:34-38 | strip, by Python's own whitespace, leaves none outside and is the identity exactly on such texts |
| `Texts.StripDropsOnlySpace` | h2kvm/converters/fetch.py:34-38 | strip takes whitespace off the two ends and nothing else |
| `Texts.LowersLetters` | h2kvm/config/config_loader.py:473-475 | lowering takes each ASCII capital to its small letter and keeps the rest |
| `Texts.StripLowerIdempotent` | h2kvm/config/config_loader.py:473-475 | strip-and-lower is idempotent |
| `RemotePaths.NormpathIdempotent` | h2kvm/converters/fetch.py:34-38 | normpath is idempotent, keeps the components, and leaves no `..` in an absolute path |
| `RemotePaths.ParseRender` | h2kvm/converters/fetch.py:34-47 | round trip: every normal path reads back from its text |
| `RemotePaths.NormpathKeepsMeaning` | h2kvm/converters/fetch.py:34-38 | the normalised path leads where the original text leads, from every directory |
| `RemotePaths.ReferenceLeads` | h2kvm/converters/fetch.py:41-47 | a joined reference leads where following its own text leads, from the root or from the directory |
| `RemotePaths.StringTestIsContainment` | h2kvm/converters/fetch.py:62-64 | the string prefix test is exactly containment by components |
| `RemotePaths.UnderRemoteRootExactly` | h2kvm/converters/fetch.py:50-64 | what the sandbox test decides, for every path and every root, `/`, `//` and `.` included |
| `RemotePaths.NormalizeRemoteIdempotentExactly` | h2kvm/converters/fetch.py:34-38 | a second normalisation changes nothing if and only if the first kept component of a relative input does not begin with whitespace and the last kept one does not end with it |
| `RemotePaths.NoInnerSpaceIsStable` | h2kvm/converters/fetch.py:34-38 | without inner whitespace one normalisation is enough |
| `RemotePaths.InnerSpaceSurfaces` | h2kvm/converters/fetch.py:34-38 | a path that a second normalisation changes |
| `RemotePaths.SandboxTestExactly` | h2kvm/converters/fetch.py:50-64 | what the test decides about a normal absolute path, exactly, in terms of components and of the path stripped |
| `RemotePaths.MisjudgedExactly` | h2kvm/converters/fetch.py:50-64 | as to the directory the test makes of the root: an absolute path that passes is under it by components, if and only if it is not that directory followed by whitespace |
| `RemotePaths.RootIsKeptExactly` | h2kvm/converters/fetch.py:50-64 | as to the root given: the test passes nothing outside it but the root followed by whitespace, if and only if the root's text is trimmed |
| `RemotePaths.DotsRootAdmitsAll` | h2kvm/converters/fetch.py:50-64 | a root of two components for which the test passes every path |
| `RemotePaths.TrailingSpaceIsMisjudged` | h2kvm/converters/fetch.py:50-64 | for every root with a component, the root followed by whitespace passes and is not under it |
| `RemotePaths.SpacedRootPasses` | h2kvm/converters/fetch.py:50-64 | a concrete path outside the root that the test lets pass |
| `RemotePaths.SafeJoinExactly` | h2kvm/converters/flatten.py:105-121 | result or refusal for every base and every path, in terms of components |
| `RemotePaths.SafeJoinStaysInside` | h2kvm/converters/flatten.py:105-121 | a result extends the base by components and gains no `..` |
| `RemotePaths.SafeJoinStaysBelowExactly` | h2kvm/converters/flatten.py:105-121 | followed from any directory, a result leads below the base, if and only if not both the base ends in `..` and the path begins with it |
| `RemotePaths.UpwardBaseIsClimbed` | h2kvm/converters/flatten.py:105-121 | base `..`, path `../x`: accepted, and leads out of the base |
| `RemotePaths.SafeJoinAcceptsDescendants` | h2kvm/converters/flatten.py:90-121 | every path without `..` is accepted and lands exactly below the base |
| `ChainWalk.FetchExtent` | h2kvm/converters/fetch.py:482-515 | which accesses one extent makes and when it raises |
| `ChainWalk.VisitStep` | h2kvm/converters/fetch.py:440-459 | which accesses one descriptor makes and when it raises |
| `ChainWalk.WalkLoop` | h2kvm/converters/fetch.py:404-462 | the loop terminates on every graph, cyclic or not, and performs the recursive walk |
| `ChainWalk.WalkFollowsLinks` | h2kvm/converters/fetch.py:404-462 | whatever holds of the start and is passed along permitted links holds of every access |
| `ChainWalk.AscentIsChain` | h2kvm/converters/fetch.py:409-462 | the descriptors streamed form a chain of parents without repetition |
| `ChainWalk.AscentIsMaximal` | h2kvm/converters/fetch.py:409-462 | the chain ends only where it cannot go on |
| `ChainWalk.WalkVisitsAscent` | h2kvm/converters/fetch.py:409-462 | the accesses are the visits of that chain in order and at most one more probe; it raises exactly when the last copy does |
| `ChainWalk.CopiesExactly` | h2kvm/converters/fetch.py:447-515 | when a descriptor copies without an error, if and only if |
| `ChainWalk.WalkStreamsExactly` | h2kvm/converters/fetch.py:404-462 | the streams of the log, in order, on every graph: the ascent, each descriptor followed by its existing extent |
| `ChainWalk.StreamedExactly` | h2kvm/converters/fetch.py:404-515 | a file is streamed if and only if it is in the ascent or the existing extent of a readable descriptor there |
| `ChainWalk.WalkProbesFirst` | h2kvm/converters/fetch.py:440-514 | every stream follows its own probe, and a probe is followed by its stream exactly when the file exists |
| `ChainWalk.MissingProbedExactly` | h2kvm/converters/fetch.py:440-508 | which missing files are probed, if and only if |
| `ChainWalk.AcyclicChainIsFetched` | h2kvm/converters/fetch.py:404-462 | an acyclic chain that exists and copies is fetched whole: its log streams each ancestor once, in order, each followed by its extent, each after its own probe |
| `ChainWalk.ChainIsClimbed` | h2kvm/converters/fetch.py:404-462 | a chain of parents without repetition whose interior copies is climbed to its end |
| `ChainWalk.TopIsFetchedAgainExactly` | h2kvm/converters/fetch.py:405-438 | the top descriptor is streamed a second time if and only if it lies on a cycle of parents that copy |
| `ChainWalk.TwoCycleIsFetchedTwice` | h2kvm/converters/fetch.py:405-438 | on two descriptors that are each other's parent the walk streams both, the top again, and stops |
| `SnapshotFetch.FetchFrom` | h2kvm/converters/fetch.py:391-464 | accesses and outcome of the fetch of an existing descriptor |
| `SnapshotFetch.FetchDescriptorAndExtent` | h2kvm/converters/fetch.py:369-464 | accesses and outcome of the whole fetch, its refusals included |
| `SnapshotFetch.FetchExactly` | h2kvm/converters/fetch.py:391-464 | the streams of a fetch, in order, and its outcome: done if and only if everything it reached could be copied |
| `SnapshotFetch.DiesExactly` | h2kvm/converters/fetch.py:369-386 | when the fetch gives up before streaming, if and only if, and what it probed then |
| `SnapshotFetch.SandboxExactly` | h2kvm/converters/fetch.py:375-380 | the sandbox is the given root, normalised, or the directory of the descriptor |
| `SnapshotFetch.LinksLead` | h2kvm/converters/fetch.py:422-426 | a named parent or extent is taken from where its name leads from the descriptor, or refused |
| `SnapshotFetch.DefaultExtent` | h2kvm/converters/fetch.py:495-497 | a descriptor that names no extent has the one named after it, in its own directory |
| `SnapshotFetch.UnnamedLinks` | h2kvm/converters/fetch.py:410-420 | what cannot be parsed or is not named: no parent, an error, or the default extent |
| `SnapshotFetch.EveryAccessIsSound` | h2kvm/converters/fetch.py:369-515 | for every filesystem and graph every access is normalised and passed by the sandbox test |
| `SnapshotFetch.FetchStaysInSandbox` | h2kvm/converters/fetch.py:382-515 | every access lies under the root as the test reads it; from an absolute descriptor and with a trimmed sandbox, under the sandbox itself, or is the sandbox followed by whitespace |
| `SnapshotFetch.LeakNeedsEscape` | h2kvm/converters/fetch.py:382-515 | for any descriptor and root, a streamed file outside the computed sandbox has a name that passes the test without being under the sandbox |
| `SnapshotFetch.EveryAccessIsAbsolute` | h2kvm/converters/fetch.py:382-515 | from an absolute descriptor every access is an absolute path |
| `SnapshotFetch.LeaksExactly` | h2kvm/converters/fetch.py:382-515 | for an absolute descriptor, any root and given names on the host: some contents make the fetch stream a file outside the computed sandbox, if and only if a name passes the test without being under it |
| `SnapshotFetch.TrimmedSandboxEscapes` | h2kvm/converters/fetch.py:382-515 | for a trimmed sandbox with a component those names are exactly the sandbox followed by whitespace |
| `SnapshotFetch.SpacedSiblingLeaks` | h2kvm/converters/fetch.py:382-515 | a host on which a fetch with root /r streams a file outside it |
| `SnapshotFetch.SpacedSandboxLeaks` | h2kvm/converters/fetch.py:382-515 | a host on which a fetch whose sandbox ends in whitespace streams an ordinary file outside it |
| `Statistics.MemberDeviation` | h2kvm/ai/_stats.py:24-30 | a member of a sample satisfies n (x - mean)^2 <= (n - 1) S |
| `Statistics.MemberZScore` | h2kvm/ai/_stats.py:55-63 | a value tested against a sample that contains it has n z^2 <= (n - 1)^2 |
| `Statistics.MemberBoundIsTight` | h2kvm/ai/_stats.py:24-63 | the bound is attained for every sample size |
| `Statistics.RegressionExcess` | h2kvm/ai/_stats.py:81-98 | the exact excess of any line's squared residuals over the fitted line's |
| `Statistics.RegressionMinimises` | h2kvm/ai/_stats.py:81-98 | the fitted line minimises the squared residuals over all lines, uniquely when the x values differ |
| `Statistics.FewPointsAreConstant` | h2kvm/ai/_stats.py:87-89 | with fewer than two points the line is the constant mean of y |
| `Statistics.UnequalLengthsAreTruncated` | h2kvm/ai/_stats.py:81-98 | lists of different lengths are cut to the shorter; when that agrees with the documentation, if and only if |
| `Statistics.UnequalLengthsAreFitted` | h2kvm/ai/_stats.py:84-91 | lists of different lengths that do not give the documented result |
| `Similarity.CauchySchwarz` | h2kvm/ai/_stats.py:66-78 | the squared dot product is at most the product of the squared magnitudes |
| `Similarity.CosineBounds` | h2kvm/ai/_stats.py:66-78 | cosine similarity lies in [-1, 1], and in [0, 1] for vectors without negative components |
| `Similarity.LawOfCosines` | h2kvm/ai/_stats.py:66-78 | the similarity satisfies the law of cosines for the lengths and the distance of the vectors |
| `Similarity.SimilarityIsOneExactly` | h2kvm/ai/_stats.py:66-78 | for vectors that are not zero, 1 if and only if one is a positive multiple of the other |
| `Similarity.WeightedMeanBetween` | h2kvm/ai/_stats.py:101-110 | the weighted mean lies between the extremes, its fallbacks included |
| `Similarity.WeightedMeanBalances` | h2kvm/ai/_stats.py:101-110 | the weighted mean is the one value at which the weighted values balance, the plain mean in the fallbacks |
| `Records.KnowledgeBase.constructor` | h2kvm/ai/knowledge_base.py:58-93 | opens with the records the file already holds |
| `Records.KnowledgeBase.RecordMigration` | h2kvm/ai/knowledge_base.py:97-117 | stores by record id, replacing an older record of that id and nothing else |
| `Records.KnowledgeBase.GetAllRecords` | h2kvm/ai/knowledge_base.py:119-127 | the newest records, newest first, each once, as many as the limit allows |
| `Records.NewRecordIsReturned` | h2kvm/ai/knowledge_base.py:97-127 | a stored record is returned when at most `limit` records are as new |
| `PhaseAnomalies.TallyHistory` | h2kvm/ai/anomaly.py:89-96 | the counting loops compute occurrences of every phase and the number of successful records |
| `PhaseAnomalies.DetectPhase` | h2kvm/ai/anomaly.py:81-125 | flags, and lists, exactly the present phases below a fifth and the absent ones above four fifths of the successful records |
| `PhaseAnomalies.EarlyPhasesAreNeverFlagged` | h2kvm/ai/anomaly.py:81-125 | a successful run in its own history has no phase anomaly with at most five successful records |
| `PhaseAnomalies.PhaseFlagPossibleExactly` | h2kvm/ai/anomaly.py:81-125 | one of n successful records can be flagged, for a phase it has or for one it lacks, if and only if n is at least 6 |
| `Anomalies.DetectAll` | h2kvm/ai/anomaly.py:127-143 | returns exactly the flagged results of the three detectors |
| `Anomalies.PostMigrationAnalysis` | h2kvm/ai/orchestrator.py:203-223 | the record is stored before the history is read, so it is in its own sample; then a successful run has only phase anomalies below 9 records and none with at most 5 |
| `Anomalies.FlaggedMember` | h2kvm/ai/anomaly.py:28-79 | flagging a member of a sample of n at threshold t needs n t^2 < (n - 1)^2 |
| `Anomalies.DurationVerdictExactly` | h2kvm/ai/anomaly.py:28-53 | a duration is flagged if and only if at least three runs succeeded, they differ, and it lies beyond t standard deviations of them, to either side; what is reported |
| `Anomalies.ErrorVerdictExactly` | h2kvm/ai/anomaly.py:55-79 | the same for error counts, above the mean only |
| `Anomalies.FailedRunsDoNotCount` | h2kvm/ai/anomaly.py:34-34 | a failed run in the history never changes the verdict on a duration |
| `Anomalies.SampleIsEverySuccess` | h2kvm/ai/anomaly.py:34-34 | the sample holds every successful run once, with its duration |
| `Anomalies.FlagPossibleExactly` | h2kvm/ai/anomaly.py:28-79 | for every n >= 3 and threshold t, either detector can flag one of n runs if and only if n t^2 < (n - 1)^2 |
| `Anomalies.FlagBelowPossibleExactly` | h2kvm/ai/anomaly.py:28-53 | a duration below the mean can be flagged under the same condition |
| `Anomalies.EarlyRunsAreNeverFlagged` | h2kvm/ai/anomaly.py:28-79 | no duration or error-rate anomaly below 9 samples at threshold 2.5 or more |
| `Anomalies.NineCanFlag` | h2kvm/ai/anomaly.py:37-38 | at the default threshold nine suffice: eight equal values and one outlier |
| `Prediction.SortIsPermutation` | h2kvm/ai/knowledge_base.py:145-145 | the sort is descending and a permutation |
| `Prediction.SortIsStable` | h2kvm/ai/knowledge_base.py:145-145 | equally similar records keep their order |
| `Prediction.GetSimilarMigrations` | h2kvm/ai/knowledge_base.py:129-146 | the best top_k, best first, ties in the order read; nothing dropped scores above anything kept |
| `Prediction.PredictSuccess` | h2kvm/ai/predictive.py:140-159 | the share of similarity that succeeded times the discount of the risks that occur; within [0, 1], and without negative similarities never clamped |
| `Prediction.UnanimousHistory` | h2kvm/ai/predictive.py:140-143 | 1 when all similar records succeeded, 0 when all failed |
| `Prediction.SuccessRaisesEstimate` | h2kvm/ai/predictive.py:140-143 | turning one similar failure into a success raises the estimate strictly |
| `Prediction.PenaltiesExactly` | h2kvm/ai/predictive.py:150-157 | the penalties multiply by 0.5, 0.8 and 0.95 for each critical, high and medium risk, in any order |
| `Prediction.RiskCounts` | h2kvm/ai/predictive.py:35-99 | how many risks of each level the rules find |
| `Prediction.EstimateIgnoresOrder` | h2kvm/ai/predictive.py:140-143 | the estimate does not depend on the order of the similar migrations |
| `Prediction.PhysicalSimilarities` | h2kvm/ai/models.py:80-97 | features with sizes and counts that are not negative have similarities in [0, 1] |
| `Prediction.VectorsAgreeExactly` | h2kvm/ai/models.py:80-97 | two sets of features have one vector exactly when numbers and flags agree and names do or are both unknown |
| `Prediction.PredictionIsAProbability` | h2kvm/ai/predictive.py:132-159 | end to end: the estimate ignores the sort, lies in [0, 1] after penalties and is not clamped |
| `Prediction.DurationBetween` | h2kvm/ai/predictive.py:174-189 | a history-based duration lies between the extremes of the durations used; otherwise at least 30 |
| `Prediction.DurationExactly` | h2kvm/ai/predictive.py:174-189 | the similarity-weighted mean of the durations used, or a minute per GB and half a minute, from the records alone |
| `Prediction.UnusableRunsDoNotCount` | h2kvm/ai/predictive.py:180-184 | a run that failed or took no time plays no part |
| `StderrLines.CutIsScan` | h2kvm/converters/flatten.py:646-661 | split at runs of breaks, pop the partial part, drop empties: the same as a character scan |
| `StderrLines.SpansAreTheRuns` | h2kvm/converters/flatten.py:546-547 | the reference lines are exactly the maximal runs free of CR and LF, in order |
| `StderrLines.StderrReader.constructor` | h2kvm/converters/flatten.py:547-548 | a new reader has consumed the empty text |
| `StderrLines.StderrReader.FeedLines` | h2kvm/converters/flatten.py:659-661 | appends the non-empty parts and nothing else |
| `StderrLines.StderrReader.ConsumeText` | h2kvm/converters/flatten.py:646-661 | one more chunk extends the text held, wherever it was cut |
| `StderrLines.StderrReader.Drain` | h2kvm/converters/flatten.py:693-701 | after the flush the lines are those of the whole text |
| `StderrLines.ReadAll` | h2kvm/converters/flatten.py:646-701 | for every way of cutting the text into chunks, the lines of the whole text |
| `ReaderProgress.ShownGrows` | h2kvm/converters/flatten.py:600-618 | no parsed percentage and no file size lowers the shown percentage |
| `ReaderProgress.ShownIsMonotone` | h2kvm/converters/flatten.py:723-734 | the shown percentage never decreases over a run |
| `ReaderProgress.ShownIsPeak` | h2kvm/converters/flatten.py:600-618 | shown is the greatest percentage parsed or probed so far, at most 100 |
| `ReaderProgress.ReaderLoop` | h2kvm/converters/flatten.py:704-745 | shown is that of the best completion so far and in [0, 100]; no turn goes unlogged beyond the policy and no line comes before it is due; below 100% at most 21 + floor(T/10) lines by default |
| `ReaderProgress.DefaultLogBound` | h2kvm/converters/flatten.py:735-742 | the log budget of any policy gives 21 + floor(T/10) for the default one |
| `CommandRetry.Run` | h2kvm/core/command_runner.py:186-302 | how often the command runs, what surfaces, every pause; the trailing raise is reached exactly for negative retries; a dry run executes nothing |
| `CommandRetry.ExecutionsAreFixed` | h2kvm/core/command_runner.py:198-295 | the outcomes alone fix the number of executions, so check does not change it |
| `CommandRetry.ExecutionsAreTheMinimum` | h2kvm/core/command_runner.py:198-295 | executions are min(first success + 1, retries + 1) |
| `CommandRetry.SucceedsExactly` | h2kvm/core/command_runner.py:198-266 | exit code 0 is returned exactly when some attempt within the retries would succeed |
| `CommandRetry.CommandErrorExactly` | h2kvm/core/command_runner.py:238-287 | a checked failing run raises CommandError exactly when the last attempt timed out or exited with 1..255 |
| `CommandRetry.UncheckedExactly` | h2kvm/core/command_runner.py:238-287 | without check the last exit code is returned, failures to run are raised all the same, and check matters only for a failing code |
| `CommandRetry.KilledCommandIsNotACommandError` | h2kvm/core/exceptions.py:157-164 | a command killed by a signal surfaces as the ValueError of the code check |
| `CommandRetry.TotalSleep` | h2kvm/core/command_runner.py:288-293 | the total pause is the geometric sum of the backoff, and the delay each time for a backoff of 1 |
| `AtomicTransfer.Download.constructor` | h2kvm/converters/flatten.py:993-994 | the destination and its `.part` file as the run finds them |
| `AtomicTransfer.Download.UnlinkQuiet` | h2kvm/converters/flatten.py:65-70 | removes the file or, if that fails, changes nothing |
| `AtomicTransfer.Download.Scp` | h2kvm/converters/flatten.py:1015-1015 | the transfer changes only the `.part` file, in any way |
| `AtomicTransfer.Download.Replace` | h2kvm/converters/flatten.py:1037-1037 | the rename is atomic: all or nothing |
| `AtomicTransfer.Download.TryOnce` | h2kvm/converters/flatten.py:1012-1042 | an attempt succeeds exactly when nothing raises and the download is not empty and of the known size |
| `AtomicTransfer.Download.ScpFromAtomic` | h2kvm/converters/flatten.py:984-1081 | at every point the destination is its old content or one sound download; at most 4 transfers; outcome, both files and when a `.part` file remains, exactly |
| `AtomicTransfer.PartComesFrom` | h2kvm/converters/flatten.py:1005-1015 | the `.part` file after any attempt: exactly the latest write, or the file the run found, that every unlink since failed to remove |
| `AtomicTransfer.StalePromotionExactly` | h2kvm/converters/flatten.py:1009-1037 | for every schedule of unlinks and every k: an attempt k can promote a file it did not write if and only if it is one of the four, the unlink before it fails and something can be left over |
| `AtomicTransfer.PromotedIsFresh` | h2kvm/converters/flatten.py:1012-1037 | with the unlink before it working, an attempt promotes its own download, and its fate depends on nothing else |

## Left out

- SSH, scp, asyncio, selectors, qemu-img, NBD and SQLite: they appear only as parameters, maps and arbitrary outcomes.
- Decoding of UTF-8, the progress regexes, YAML and JSON parsing, config signatures, `expand_configs` and argparse defaults: decoded text, parsed percentages and parsed trees are inputs.
- `VMDK.parse_parent` and `VMDK.parse_extent`: arbitrary results, raising included.
- The naming of local copies in `fetch.py`: it rests on a hash; only that local stems hold no backslash is used.
- Floating-point rounding and `round`: results are about exact reals, before rounding.
- Texts.StripLowerIdempotent: `lower` changes ASCII letters only.
- Dictionary keys that are no strings: normalisation also applies `str` to them, and two such keys may then collide.
- Mutation of a dictionary argument in place and aliasing between configurations: `_canonicalize_aliases` and the merges are modelled on values.
- ConfigAliases.LoadVmConfigs: loads all files before fanning out the first, where the source interleaves the two; only which log message comes first differs.
- ConfigAliases.FanOut: after an entry that is no mapping nothing is claimed about the partial list, since the process exits.
- ConfigKeys.NormalizeCommutesWithMerge: the condition is sufficient; colliding spellings with equal values can commute too.
- SnapshotFetch.FetchStaysInSandbox: for a relative descriptor it speaks of components of the path as the test reads it, stripped; for a relative sandbox made of `..` lying under it by components does not mean staying below it, as `SafeJoinStaysBelowExactly` shows for joins.
- SnapshotFetch.LeaksExactly: only for absolute descriptors; for relative ones `LeakNeedsEscape` gives one direction, since from a relative directory not every name can be referred to.
- RemotePaths.Inside: a path with two leading slashes counts as outside a root with one, as POSIX allows and Linux does not.
- Statistics.RegressionMinimises: for two points or more; fewer are the case of `FewPointsAreConstant`.
- Anomalies.PostMigrationAnalysis: only with a knowledge base and a detector configured, without the health check; a run that failed is not part of its own duration and phase sample.
- CommandRetry.Run: requires a delay and a backoff that are not negative, as `time.sleep` does; output capture, sudo and logging are not modelled.
- ReaderProgress.ReaderLoop: the turns of the loop are given; the timeout, process control and debug lines are not modelled.
- AtomicTransfer.Download.ScpFromAtomic: the size probe's answer is a parameter and the backoff sleeps are not modelled.
- Prediction.PredictSuccess: the confidence label and the message texts of the risks are not modelled.
- `percentile`, firmware and capability detection, health and workload rules: finite tables or one-line formulas that would add only easy members.
- Credentials, feature flags, error formatting, the command line, the wizard and the web service.
