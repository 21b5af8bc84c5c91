/** What the orchestrator can observe and change: its errors, the calls it
    makes, the outcomes of those calls, and its whole mutable state. */
module Effects {
  import opened Wrappers
  import opened Models
  import opened Layout

  /** The errors the orchestrator returns. `Wrapped` adds context to a cause,
      as errors.Wrap does; `FsError` is a path error whose `notExist` flag is
      what os.IsNotExist reports. */
  datatype Error =
    | VersionNotSet
    | FsError(path: Path, notExist: bool)
    | RpcError
    | DetectorError
    | Wrapped(message: string, cause: Error)

  /** One call from the orchestrator to the file system, the control plane
      or a collaborator, in the order made. */
  datatype Event =
    | Stat(path: Path)
    | ReadFile(path: Path)
    | MkdirAll(path: Path)
    | WriteFileAtomic(path: Path, contents: Bytes)
    | RegisterDevice(token: string)
    | GetBundle
    | SetApplications(applications: seq<Application>)
    | SetBundle(bundle: Bundle)
    | SetDesiredSpec(spec: ServiceSpec)
    | SetAccessKey(key: Bytes)
    | SetDeviceID(id: Bytes)
    | StartVariables
    | Takeover
    | SetListener

  /** Whether os.MkdirAll and file.WriteFileAtomic fail in one writeFile. */
  datatype WriteEnv = WriteEnv(mkdirFails: bool, writeFails: bool)

  /** The control plane's answer to RegisterDevice. */
  datatype Registration = Registration(deviceAccessKeyValue: Bytes, deviceID: Bytes)

  /** The outcomes of the calls made by register: the RPC (`None` is an
      error) and the two file writes. */
  datatype RegisterEnv = RegisterEnv(
    response: Option<Registration>,
    accessKeyWrite: WriteEnv,
    deviceIDWrite: WriteEnv)

  /** The outcomes of the calls made by Initialize. A stat or read fault is
      an error other than "not exist"; whether a file exists is read off the
      disk. */
  datatype InitEnv = InitEnv(
    statFails: bool,
    register: RegisterEnv,
    accessKeyReadFails: bool,
    deviceIDReadFails: bool,
    variablesStartFails: bool)

  /** The fault, if any, of one poll of the saved-bundle loader: its stat
      fails with an error other than "not exist", or its read fails. */
  datatype Poll = Clean | StatFails | ReadFails

  /** The outcomes of the calls of one reconciliation cycle: the bundle
      GetBundle returns (`None` is an error) and the save's file writes. */
  datatype CycleEnv = CycleEnv(fetched: Option<Bundle>, save: WriteEnv)

  /** The agent's mutable state: the disk it owns, the calls made so far,
      the credentials given to the client, whether the variables detector,
      the connector and the server listener are set up, and the last value
      given to the supervisor, the status garbage collector and the updater. */
  datatype AgentState = AgentState(
    files: map<Path, Bytes>,
    trace: seq<Event>,
    accessKey: Option<Bytes>,
    deviceID: Option<Bytes>,
    variables: bool,
    connector: bool,
    listener: bool,
    supervisor: Option<seq<Application>>,
    garbageCollector: Option<Bundle>,
    updater: Option<ServiceSpec>)

  /** A new state and the error returned, if any. */
  datatype Outcome = Outcome(state: AgentState, err: Option<Error>)

  /** The state of a newly constructed agent over the given disk. */
  function Initial(disk: map<Path, Bytes>): AgentState {
    AgentState(disk, [], None, None, false, false, false, None, None, None)
  }

  /** The paths written, in order, by the WriteFileAtomic calls among these events. */
  function WrittenPaths(events: seq<Event>): seq<Path> {
    if events == [] then []
    else (if events[0].WriteFileAtomic? then [events[0].path] else []) + WrittenPaths(events[1..])
  }

  lemma {:induction false} WrittenPathsAppend(a: seq<Event>, b: seq<Event>)
    ensures WrittenPaths(a + b) == WrittenPaths(a) + WrittenPaths(b)
  {
    if a == [] {
      assert a + b == b;
    } else {
      assert (a + b)[0] == a[0];
      assert (a + b)[1..] == a[1..] + b;
      WrittenPathsAppend(a[1..], b);
    }
  }

  /** The number of SetApplications calls among these events. */
  function SupervisorPushes(events: seq<Event>): nat {
    if events == [] then 0
    else (if events[0].SetApplications? then 1 else 0) + SupervisorPushes(events[1..])
  }

  lemma {:induction false} SupervisorPushesAppend(a: seq<Event>, b: seq<Event>)
    ensures SupervisorPushes(a + b) == SupervisorPushes(a) + SupervisorPushes(b)
  {
    if a == [] {
      assert a + b == b;
    } else {
      assert (a + b)[1..] == a[1..] + b;
      SupervisorPushesAppend(a[1..], b);
    }
  }
}
