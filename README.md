# Device agent orchestrator — a Dafny model

This project models the decision logic of the deviceplane device agent's
orchestrator (`pkg/agent/agent.go`). The agent is a long-lived process on an
edge device. It has four small, sequential state machines:

- **Construction guard.** `NewAgent` refuses an empty version.
- **Identity bootstrap.** `Initialize` registers the device with the control
  plane when no access key is stored. It then loads the access key and the
  device ID into the API client and wires up the variables detector, the
  connector and the server listener. `register` and `writeFile` persist the
  credentials under `stateDir/projectID/`.
- **Saved-bundle loader.** `loadSavedBundle` polls for the bundle cached on
  disk. It stops when the file is missing, decodes, or does not decode. It
  keeps polling through read errors and other stat errors.
- **Reconciliation.** `runBundleApplier` first does a warm start: it gives the
  saved bundle's applications to the supervisor. Then it runs cycles. In each
  cycle `downloadLatestBundle` fetches, marshals and saves the latest bundle.
  A downloaded bundle then goes to the supervisor, then to the status garbage
  collector, then, if its desired agent spec decodes, to the updater.

Every call into the outside world becomes an input outcome:

- file-system calls (stat, read, mkdir, atomic write);
- control-plane RPCs (`RegisterDevice`, `GetBundle`);
- the variables detector's start;
- JSON encoding of the bundle, and JSON and YAML decoding.

Whether a file exists, and what it holds, is read from the disk the agent
owns. The disk is a `map<Path, Bytes>`. Only the fault of each call is an
input. Collaborators are recorded as fields, each holding the last value it
was given. An ordered trace records, with their arguments and in the order
made, the calls to:

- the file system;
- the control plane;
- the API client's credential setters;
- the variables detector's start;
- the handoff coordinator and the server's listener setter;
- the supervisor, the status garbage collector and the updater.

Constructors (`fsnotify.NewVariables`, `connector.NewConnector`) and
logging leave no trace entry.

Layout of the project:

- `wrappers.dfy`: `Option` and `Result`.
- `models.dfy`: bytes, applications, bundles, the agent's service spec, and the
  `Codec` of partial encoders that stands for `encoding/json` and `yaml.v2`.
- `layout.dfy`: the configuration, the three state-file names and `FileLocation`.
- `effects.dfy`: errors, trace events, the per-call outcome inputs, and the
  agent state `AgentState`.
- `identity.dfy`: `AfterWriteFile`, `AfterRegister`, `AfterInitialize`, and
  lemmas about them.
- `reconciliation.dfy`: `LoadSaved`, `AfterDownload`, `AfterCycle`,
  `AfterCycles`, `AfterBundleApplier`, and lemmas about runs of cycles.
- `agent.dfy`: class `Agent`, with the state the Go methods change.
  Its methods make the same calls as the Go methods, with the same early
  returns. Each method is proved to produce exactly the state given by the
  matching specification function.

Two behaviours of the code may surprise a reader, and the model keeps both:

- **A failed save drops the cycle** (`pkg/agent/agent.go:237-240`). One might
  expect a downloaded bundle to be applied even when it could not be saved. It
  is not: `downloadLatestBundle` returns nil, so nothing is pushed to any
  collaborator (`AfterCycle`).
- **The two identity files are not kept together.** One might expect the
  access-key and device-ID files to exist together or not at all. But
  register can save the access key and then fail to save the device ID
  (`RegisterCanStrandAccessKey`). After that, Initialize never registers
  again, because the access key exists. Every later Initialize fails; when
  its stat and its access-key read work, it fails with "failed to read device
  ID" (`StrandedAccessKeyBlocksInitialize`).

## Model

| member | source | states |
|---|---|---|
| `Orchestrator.Agent.NewAgent` | pkg/agent/agent.go:56-84 | fails with `VersionNotSet` exactly when the version is empty; otherwise returns a fresh agent with the given configuration, an empty trace and no collaborator state |
| `Orchestrator.Agent.constructor` | pkg/agent/agent.go:63-83 | the new agent holds the configuration and the given disk; nothing has been called or given yet |
| `Layout.FileLocation` | pkg/agent/agent.go:86-93 | a state file's path is the state directory, then the project's directory, then the given components |
| `Layout.FileLocationInDirectory` | pkg/agent/agent.go:86-93 | a state file is `stateDir/projectID` followed by its name; different names give different paths |
| `Layout.StateFilesDistinct` | pkg/agent/agent.go:30-34 | the access-key, device-ID and bundle files are three different files, and none of them is the directory |
| `Identity.AfterWriteFile` | pkg/agent/agent.go:95-103 | succeeds exactly when both mkdir and the write succeed; success replaces that one file; a failure leaves the disk as it was; the error is that of the first failing call |
| `Identity.WriteEventsWrites` | pkg/agent/agent.go:96-101 | no write is attempted when the directory could not be created; otherwise exactly the target file is written |
| `Orchestrator.Agent.WriteFile` | pkg/agent/agent.go:95-103 | the new disk, trace and error are exactly those of `AfterWriteFile`; no other field changes |
| `Identity.AfterRegister` | pkg/agent/agent.go:143-155 | succeeds exactly when the RPC and both saves succeed; a failed RPC writes nothing; a failed access-key save leaves the disk unchanged and returns "failed to save access key"; a failed device-ID save keeps the new access key and returns "failed to save device ID" |
| `Identity.RegisterWriteOrder` | pkg/agent/agent.go:148-153 | the files written are, in order, none, the access key alone, or the access key then the device ID; the device ID is attempted only after the access key was saved |
| `Identity.RegisterWritesPaths` | pkg/agent/agent.go:148-153 | the same write order, stated for register's file-system calls alone |
| `Orchestrator.Agent.Register` | pkg/agent/agent.go:143-155 | the new disk, trace and error are exactly those of `AfterRegister` |
| `Identity.LoadIdentityEvents` | pkg/agent/agent.go:117-140 | the calls of the second half of Initialize start with the read of the access key; the listener is installed exactly when both reads work and the detector starts |
| `Identity.LoadIdentityEventsKinds` | pkg/agent/agent.go:117-140 | those calls are only reads, the client's setters, the detector's start, the takeover and the listener setter: no registration and no write |
| `Identity.AfterLoadIdentity` | pkg/agent/agent.go:117-140 | succeeds exactly when both files exist, both reads work and the detector starts; the client gets the two files' contents once both reads worked, even if the detector then fails; only success wires the detector, connector and listener; the disk never changes |
| `Identity.AfterWireUp` | pkg/agent/agent.go:127-138 | the client holds both credentials; success exactly when the detector starts; a failed start returns "start fsnotify variables detector" and wires nothing; on success the takeover and the listener setter follow the start |
| `Orchestrator.Agent.LoadIdentity` | pkg/agent/agent.go:117-140 | the new state and the error are exactly those of `AfterLoadIdentity` |
| `Orchestrator.Agent.WireUp` | pkg/agent/agent.go:127-138 | the new state and the error are exactly those of `AfterWireUp` |
| `Identity.AfterRegistration` | pkg/agent/agent.go:106-115 | a stat error other than not-exist returns "failed to check for access key" after the stat alone; an existing access key means the stat alone and no error; otherwise register runs after the stat, and its failure is wrapped as "failed to register device" |
| `Identity.AfterInitialize` | pkg/agent/agent.go:105-141 | a stat error other than not-exist returns "failed to check for access key" after the stat alone (no registration, no reads); an existing access key leaves the disk untouched; a failed registration returns "failed to register device" and leaves the client untouched; success loads the persisted credentials into the client and wires the agent; failure wires nothing; collaborators never change |
| `Identity.InitializeRegistersIffAbsent` | pkg/agent/agent.go:106-112 | RegisterDevice is called exactly when the stat succeeds and reports that the access-key file does not exist |
| `Identity.InitializeWithoutRegistering` | pkg/agent/agent.go:106-125 | when the stat fails or finds the access key, the calls are the stat and then, if it found the key, those of loading the identity; RegisterDevice is not among them |
| `Identity.InitializeRegistering` | pkg/agent/agent.go:108-110 | when the stat reports the access key missing, RegisterDevice is the call right after the stat |
| `Identity.InitializeSucceedsIff` | pkg/agent/agent.go:105-141 | Initialize succeeds exactly when the stat works, the device is either already registered with both files present or registers now, both reads work and the detector starts |
| `Identity.InitializeIdempotent` | pkg/agent/agent.go:106-112 | after a successful Initialize, any second Initialize, whatever its calls return, calls no RegisterDevice and writes no file |
| `Identity.RegisterCanStrandAccessKey` | pkg/agent/agent.go:148-153 | with the access key saved and the device-ID save failing, the disk holds an access key and no device ID |
| `Identity.StrandedAccessKeyBlocksInitialize` | pkg/agent/agent.go:106-125 | with an access key and no device ID on disk, every Initialize fails, does not register and leaves the disk unchanged; when its stat and access-key read work, the error is "failed to read device ID" |
| `Orchestrator.Agent.Initialize` | pkg/agent/agent.go:105-141 | the new state (disk, trace, client credentials, wiring) and the error are exactly those of `AfterInitialize` |
| `Reconciliation.SavedVerdict` | pkg/agent/agent.go:195-210 | once the loader stops: the decoded bundle exactly when the file exists and decodes, otherwise nil |
| `Reconciliation.LoadSaved` | pkg/agent/agent.go:190-222 | a returned bundle is what the file decodes to; nil means the file is missing or corrupt; the loader is still polling exactly when every poll was a read error or a non-not-exist stat error |
| `Reconciliation.LoadEventsInspect` | pkg/agent/agent.go:194-197 | the loader's calls start with a stat, are only stats and reads of the bundle file, and read it only when it exists |
| `Orchestrator.Agent.PollSavedBundle` | pkg/agent/agent.go:195-215 | one poll makes the stat, then the read when the stat found the file; it waits for the next tick exactly when the poll is retried, and otherwise returns `SavedVerdict` |
| `Orchestrator.Agent.LoadSavedBundle` | pkg/agent/agent.go:190-222 | the loop returns `LoadSaved`'s answer, and the trace gains exactly the loader's stats and reads; it returns at the first poll it does not retry, after retrying every earlier one; a corrupt file is never polled again |
| `Reconciliation.AfterDownload` | pkg/agent/agent.go:224-243 | yields the fetched bundle exactly when fetch, marshal and save all succeed, and then the bundle file holds the marshalled bytes; otherwise yields nil and leaves the disk unchanged; only GetBundle and the save's calls are made |
| `Orchestrator.Agent.DownloadLatestBundle` | pkg/agent/agent.go:224-243 | the new disk, trace and result are exactly those of `AfterDownload` |
| `Reconciliation.AfterApply` | pkg/agent/agent.go:174-180 | the supervisor gets the bundle's applications and the GC the bundle; the updater gets the desired spec only when it decodes, otherwise keeps the previous one; the calls are made in that order |
| `Orchestrator.Agent.ApplyBundle` | pkg/agent/agent.go:175-180 | the new collaborator state and trace are exactly those of `AfterApply` |
| `Reconciliation.AfterCycle` | pkg/agent/agent.go:173-181 | a failed fetch, marshal or save changes no collaborator and no file; a success gives the supervisor and GC the new bundle and saves it; the updater changes only when the spec decodes; the calls go GetBundle, mkdir, write, supervisor, GC, updater; credentials and wiring never change |
| `Orchestrator.Agent.RunCycle` | pkg/agent/agent.go:173-181 | the new state is exactly that of `AfterCycle` |
| `Reconciliation.AfterWarmStart` | pkg/agent/agent.go:166-168 | a saved bundle gives its applications to the supervisor, with one SetApplications call; with none, nothing changes; nothing but the supervisor is given anything |
| `Reconciliation.AfterCycles` | pkg/agent/agent.go:173-187 | a run of cycles only adds calls, and never changes the client's credentials or the wiring |
| `Reconciliation.AfterBundleApplier` | pkg/agent/agent.go:165-188 | the loader's calls come first; while the loader is still polling nothing else happens; the client's credentials and the wiring never change |
| `Reconciliation.LastSuccess` | pkg/agent/agent.go:173-181 | there is a last successful bundle exactly when some cycle succeeded, and that bundle marshals |
| `Reconciliation.CyclesFollowLastSuccess` | pkg/agent/agent.go:173-187 | after any run of cycles the supervisor, the GC and the saved file hold the last successful bundle; failed cycles never roll them back; with no success they keep what they had |
| `Reconciliation.CyclesUpdater` | pkg/agent/agent.go:177-180 | after any run of cycles the updater holds the spec of the last successful cycle whose spec decodes, otherwise what it had |
| `Reconciliation.CyclePushes` | pkg/agent/agent.go:174-175 | one cycle calls SetApplications once if it succeeds and never otherwise |
| `Reconciliation.DownloadPushes` | pkg/agent/agent.go:224-243 | a download never calls the supervisor |
| `Reconciliation.ApplyPushes` | pkg/agent/agent.go:175-180 | applying a bundle calls SetApplications exactly once |
| `Reconciliation.CyclesPushes` | pkg/agent/agent.go:173-187 | over any run of cycles, SetApplications is called once per successful cycle |
| `Reconciliation.FailSucceedFail` | pkg/agent/agent.go:173-187 | for cycles fail, succeed, fail: the supervisor is updated exactly once, and the supervisor and GC keep the second cycle's bundle |
| `Reconciliation.RestartRecoversLastBundle` | pkg/agent/agent.go:190-243 | if the JSON codec round-trips, a restarted agent's loader, once it settles, returns the bundle of the last successful cycle |
| `Reconciliation.WarmStartPrecedence` | pkg/agent/agent.go:165-175 | after the loader's stat and read calls, the next call gives a saved bundle that decodes to the supervisor, before any GetBundle; it stays in force while no cycle succeeds |
| `Reconciliation.NoSavedBundleSkipsWarmStart` | pkg/agent/agent.go:166-173 | with no saved bundle, the applier runs its cycles on the state it started from, plus only the loader's calls |
| `Orchestrator.Agent.RunBundleApplier` | pkg/agent/agent.go:165-188 | the new state is exactly `AfterBundleApplier`: the loader's calls, the warm start, then the given cycles in order, and nothing more while the loader is still polling |

## Left out

- `Run` (`pkg/agent/agent.go:157-163`): it starts four goroutines and blocks forever. Only the bundle applier is modelled. The other tasks are assumed not to touch the modelled state.
- `runConnector`, `runInfoReporter` and `runServer` (`pkg/agent/agent.go:245-293`): loops that retry forever around collaborators whose code is not part of this model (`Do`, `Report`, `Serve`). Their only decision is to ignore an error and wait for the next tick.
- Tickers and intervals (1 s for the loader, 5 s for the applier): time is not modelled, and each poll or cycle is one element of an input sequence.
- `Agent.LoadSavedBundle`, `Agent.RunBundleApplier`: `loadSavedBundle` polls without bound while every poll is retried, and the loop of `runBundleApplier` never ends. The model runs over a finite sequence of polls or cycles. A loader that is still polling when its polls run out returns `StillPolling`, and then no cycle starts.
- `FileLocation`: `path.Join` builds a string and cleans it. The model keeps a path as its list of components, so the string-level cleaning (`..`, empty or slash-containing components) is not modelled.
- `os.MkdirAll` and `file.WriteFileAtomic`: permissions (0700, 0644) are not modelled. Each call is a success or failure input. The atomic-replace promise is taken as given: a failed write leaves the old contents.
- `os.Stat` and `ioutil.ReadFile`: the error kinds are reduced to "not exist" (derived from the disk) and "other" (an input fault). A read fault while the bundle file is absent has no effect, because the stat already reports not-exist.
- JSON and YAML: `json.Marshal`, `json.Unmarshal` and `yaml.Unmarshal` are arbitrary partial functions in `Codec`. The round trip is assumed only where a lemma states it.
- Client RPCs (`RegisterDevice`, `GetBundle`): their results are inputs. Status setters, GC deletions and info reports belong to collaborators whose code is not part of this model.
- The supervisor, status GC and updater: only the last value each was given is recorded, plus the order of the calls.
- The fsnotify variables detector, the connector and the listener: each is recorded only as whether it was set up, beside the `Start`, `Takeover` and `SetListener` calls in the trace. The detector's start outcome is an input. The listener that `Takeover` returns is not modelled.
- The collaborators built in `NewAgent` (supervisor callbacks, info reporter, server, updater, handoff coordinator) are not modelled beyond their existence. `NewAgent` also takes the disk as it is at construction.
- Application descriptors and the decoded service spec keep one field each. Their contents matter only to collaborators.
- Logging.
- Concurrency: each method runs alone, and the disk has no other writer.
