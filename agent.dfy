/** The device agent's orchestrator as an object whose methods make the
    calls of its Go counterpart, with every call outcome given as an input. */
module Orchestrator {
  import opened Wrappers
  import opened Models
  import opened Layout
  import opened Effects
  import opened Identity
  import opened Reconciliation

  class Agent {
    const config: Config
    // the disk the agent owns and the calls made so far
    var files: map<Path, Bytes>
    var trace: seq<Event>
    // what the client was given by SetAccessKey and SetDeviceID
    var accessKey: Option<Bytes>
    var deviceID: Option<Bytes>
    // the variables detector, the connector and the server's listener are set up
    var variables: bool
    var connector: bool
    var listener: bool
    // the last value given to the supervisor, the status garbage collector and the updater
    var supervisor: Option<seq<Application>>
    var garbageCollector: Option<Bundle>
    var updater: Option<ServiceSpec>

    ghost function State(): AgentState
      reads this
    {
      AgentState(files, trace, accessKey, deviceID, variables, connector, listener,
                 supervisor, garbageCollector, updater)
    }

    /** The struct literal of NewAgent, over the disk as it is at construction. */
    constructor (config: Config, disk: map<Path, Bytes>)
      ensures this.config == config && State() == Initial(disk)
    {
      this.config := config;
      files, trace := disk, [];
      accessKey, deviceID := None, None;
      variables, connector, listener := false, false, false;
      supervisor, garbageCollector, updater := None, None, None;
    }

    /** NewAgent: an agent needs a version. */
    static method NewAgent(config: Config, disk: map<Path, Bytes>) returns (r: Result<Agent, Error>)
      ensures r.Failure? <==> config.version == ""
      ensures r.Failure? ==> r.error == VersionNotSet
      ensures r.Success? ==> fresh(r.value) && r.value.config == config && r.value.State() == Initial(disk)
    {
      if config.version == "" {
        return Failure(VersionNotSet);
      }
      var agent := new Agent(config, disk);
      return Success(agent);
    }

    /** writeFile: create the per-project directory, then replace the file atomically. */
    method WriteFile(contents: Bytes, elem: seq<string>, env: WriteEnv) returns (err: Option<Error>)
      modifies this`files, this`trace
      ensures Outcome(State(), err) == AfterWriteFile(config, old(State()), contents, elem, env)
    {
      var dir := FileLocation(config, []);
      trace := trace + [MkdirAll(dir)];
      if env.mkdirFails {
        return Some(FsError(dir, false));
      }
      var path := FileLocation(config, elem);
      trace := trace + [WriteFileAtomic(path, contents)];
      if env.writeFails {
        return Some(FsError(path, false));
      }
      files := files[path := contents];
      return None;
    }

    /** register: obtain an identity from the control plane and persist it. */
    method Register(env: RegisterEnv) returns (err: Option<Error>)
      modifies this`files, this`trace
      ensures Outcome(State(), err) == AfterRegister(config, old(State()), env)
    {
      trace := trace + [RegisterDevice(config.registrationToken)];
      if env.response.None? {
        return Some(RpcError);
      }
      var response := env.response.value;
      var e := WriteFile(response.deviceAccessKeyValue, [AccessKeyFilename], env.accessKeyWrite);
      if e.Some? {
        return Some(Wrapped("failed to save access key", e.value));
      }
      e := WriteFile(response.deviceID, [DeviceIDFilename], env.deviceIDWrite);
      if e.Some? {
        return Some(Wrapped("failed to save device ID", e.value));
      }
      return None;
    }

    /** Initialize: register if the access key is not there, load the
        identity into the client and wire up the agent. */
    method Initialize(env: InitEnv) returns (err: Option<Error>)
      modifies this
      ensures Outcome(State(), err) == AfterInitialize(config, old(State()), env)
    {
      var key := FileLocation(config, [AccessKeyFilename]);
      trace := trace + [Stat(key)];
      var statErr := if env.statFails then Some(FsError(key, false))
                     else if key in files then None
                     else Some(FsError(key, true));
      if statErr.None? {
        // device already registered
      } else if statErr.value.notExist {
        var e := Register(env.register);
        if e.Some? {
          return Some(Wrapped("failed to register device", e.value));
        }
      } else {
        return Some(Wrapped("failed to check for access key", statErr.value));
      }

      err := LoadIdentity(env);
    }

    /** The rest of Initialize: read both credentials, give them to the
        client, start the variables detector, build the connector and install
        the listener handed over by the handoff coordinator. */
    method LoadIdentity(env: InitEnv) returns (err: Option<Error>)
      modifies this`trace, this`accessKey, this`deviceID, this`variables, this`connector, this`listener
      ensures Outcome(State(), err) == AfterLoadIdentity(config, old(State()), env)
    {
      var key := FileLocation(config, [AccessKeyFilename]);
      trace := trace + [ReadFile(key)];
      if env.accessKeyReadFails || key !in files {
        return Some(Wrapped("failed to read access key", FsError(key, !env.accessKeyReadFails)));
      }
      var accessKeyBytes := files[key];

      var id := FileLocation(config, [DeviceIDFilename]);
      trace := trace + [ReadFile(id)];
      if env.deviceIDReadFails || id !in files {
        return Some(Wrapped("failed to read device ID", FsError(id, !env.deviceIDReadFails)));
      }
      var deviceIDBytes := files[id];

      err := WireUp(accessKeyBytes, deviceIDBytes, env);
    }

    /** The end of Initialize: give the credentials to the client, start the
        variables detector, build the connector and install the listener
        handed over by the handoff coordinator. */
    method WireUp(accessKeyBytes: Bytes, deviceIDBytes: Bytes, env: InitEnv) returns (err: Option<Error>)
      modifies this`trace, this`accessKey, this`deviceID, this`variables, this`connector, this`listener
      ensures Outcome(State(), err) == AfterWireUp(old(State()), accessKeyBytes, deviceIDBytes, env)
    {
      accessKey := Some(accessKeyBytes);
      deviceID := Some(deviceIDBytes);
      // the client setters, then the detector's start
      trace := trace + [SetAccessKey(accessKeyBytes), SetDeviceID(deviceIDBytes), StartVariables];
      if env.variablesStartFails {
        return Some(Wrapped("start fsnotify variables detector", DetectorError));
      }
      variables := true;
      connector := true;
      listener := true;
      // the listener taken over from the previous agent is given to the server
      trace := trace + [Takeover, SetListener];
      return None;
    }

    /** loadSavedBundle: poll until the saved bundle is found missing, decodes
        or fails to decode; `made` is the number of polls made. */
    method LoadSavedBundle(polls: seq<Poll>, codec: Codec) returns (loaded: Loaded, made: nat)
      modifies this`trace
      ensures loaded == LoadSaved(files, BundlePath(config), polls, codec)
      ensures trace == old(trace) + LoadEvents(files, BundlePath(config), polls)
      ensures made <= |polls|
      // every poll but the last one made was retried
      ensures forall i :: 0 <= i < made - 1 ==> Retried(polls[i], BundlePath(config) in files)
      // the loader stops at the first poll it does not retry
      ensures loaded != StillPolling ==> 0 < made && !Retried(polls[made - 1], BundlePath(config) in files)
      ensures loaded == StillPolling ==> made == |polls|
    {
      var path := FileLocation(config, [BundleFilename]);
      assert polls[0..] == polls;
      made := 0;
      while made < |polls|
        invariant made <= |polls|
        invariant forall i :: 0 <= i < made ==> Retried(polls[i], path in files)
        invariant old(trace) + LoadEvents(files, path, polls) == trace + LoadEvents(files, path, polls[made..])
      {
        LoadTraceStep(old(trace) + LoadEvents(files, path, polls), trace, files, path, polls, made);
        var verdict := PollSavedBundle(polls[made], codec);
        made := made + 1;
        if verdict.Some? {
          LoadSavedStops(files, path, polls, made - 1, codec);
          return verdict.value, made;
        }
        // wait for the next tick
      }
      return StillPolling, made;
    }

    /** One pass of loadSavedBundle's loop: `None` when it waits for the next
        tick, otherwise what the loader returns. */
    method PollSavedBundle(poll: Poll, codec: Codec) returns (verdict: Option<Loaded>)
      modifies this`trace
      ensures verdict.None? <==> Retried(poll, BundlePath(config) in files)
      ensures verdict.Some? ==> verdict.value == SavedVerdict(files, BundlePath(config), codec)
      ensures trace == old(trace) + PollEvents(BundlePath(config), BundlePath(config) in files, poll)
    {
      var path := FileLocation(config, [BundleFilename]);
      trace := trace + [Stat(path)];
      if poll != StatFails && path in files {
        // the stat succeeded: read the file
        trace := trace + [ReadFile(path)];
        if poll == ReadFails {
          return None;
        }
        var decoded := codec.unmarshalBundle(files[path]);
        if decoded.None? {
          // an invalid saved bundle is discarded
          return Some(NoSavedBundle);
        }
        return Some(SavedBundle(decoded.value));
      } else if poll != StatFails {
        // the saved bundle does not exist
        return Some(NoSavedBundle);
      }
      // any other stat error
      return None;
    }

    /** downloadLatestBundle: fetch, marshal and save the latest bundle. */
    method DownloadLatestBundle(env: CycleEnv, codec: Codec) returns (bundle: Option<Bundle>)
      modifies this`files, this`trace
      ensures Download(State(), bundle) == AfterDownload(config, old(State()), env, codec)
    {
      trace := trace + [GetBundle];
      if env.fetched.None? {
        return None;
      }
      var fetched := env.fetched.value;
      var bytes := codec.marshalBundle(fetched);
      if bytes.None? {
        return None;
      }
      var e := WriteFile(bytes.value, [BundleFilename], env.save);
      if e.Some? {
        return None;
      }
      return Some(fetched);
    }

    /** One iteration of runBundleApplier's loop: push a downloaded bundle to
        the supervisor, then the garbage collector, then, if its desired agent
        spec decodes, the updater. */
    method RunCycle(env: CycleEnv, codec: Codec)
      modifies this
      ensures State() == AfterCycle(config, old(State()), env, codec)
    {
      var bundle := DownloadLatestBundle(env, codec);
      if bundle.Some? {
        ApplyBundle(bundle.value, codec);
      }
    }

    /** The pushes of a downloaded bundle, in the order of runBundleApplier's loop. */
    method ApplyBundle(b: Bundle, codec: Codec)
      modifies this`supervisor, this`garbageCollector, this`updater, this`trace
      ensures State() == AfterApply(old(State()), b, codec)
    {
      supervisor := Some(b.applications);
      trace := trace + [SetApplications(b.applications)];
      garbageCollector := Some(b);
      trace := trace + [SetBundle(b)];
      var spec := codec.unmarshalSpec(b.desiredAgentSpec);
      if spec.Some? {
        updater := Some(spec.value);
        trace := trace + [SetDesiredSpec(spec.value)];
      }
    }

    /** runBundleApplier: the warm start, then one cycle per element of `envs`. */
    method RunBundleApplier(polls: seq<Poll>, envs: seq<CycleEnv>, codec: Codec)
      modifies this
      ensures State() == AfterBundleApplier(config, old(State()), polls, envs, codec)
    {
      var loaded, _ := LoadSavedBundle(polls, codec);
      if loaded == StillPolling {
        return;
      }
      if loaded.SavedBundle? {
        supervisor := Some(loaded.bundle.applications);
        trace := trace + [SetApplications(loaded.bundle.applications)];
      }
      ghost var warm := State();
      assert envs[0..] == envs;
      var n := 0;
      while n < |envs|
        invariant n <= |envs|
        invariant AfterCycles(config, State(), envs[n..], codec) == AfterCycles(config, warm, envs, codec)
      {
        assert envs[n..][0] == envs[n] && envs[n..][1..] == envs[n + 1..];
        RunCycle(envs[n], codec);
        n := n + 1;
      }
    }
  }
}
