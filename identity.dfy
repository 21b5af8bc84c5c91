/** Identity bootstrap: writing a state file, registering the device, and
    initialising the agent from its persisted credentials. */
module Identity {
  import opened Wrappers
  import opened Models
  import opened Layout
  import opened Effects

  predicate Fails(w: WriteEnv) { w.mkdirFails || w.writeFails }

  /** The calls writeFile makes: it creates the directory and, only if that
      worked, writes the file atomically. */
  function WriteEvents(c: Config, contents: Bytes, elem: seq<string>, env: WriteEnv): seq<Event> {
    [MkdirAll(FileLocation(c, []))]
      + (if env.mkdirFails then [] else [WriteFileAtomic(FileLocation(c, elem), contents)])
  }

  /** No write is attempted once the directory could not be made; otherwise
      exactly the target file is written. */
  lemma WriteEventsWrites(c: Config, contents: Bytes, elem: seq<string>, env: WriteEnv)
    ensures WrittenPaths(WriteEvents(c, contents, elem, env))
         == if env.mkdirFails then [] else [FileLocation(c, elem)]
  {
    var e := WriteEvents(c, contents, elem, env);
    assert e[1..] == if env.mkdirFails then [] else [WriteFileAtomic(FileLocation(c, elem), contents)];
    if !env.mkdirFails {
      assert e[1..][1..] == [];
      assert WrittenPaths(e[1..]) == [FileLocation(c, elem)] + WrittenPaths([]);
    }
  }

  /** The error writeFile returns: that of the first call that fails. */
  function WriteError(c: Config, elem: seq<string>, env: WriteEnv): Option<Error> {
    if env.mkdirFails then Some(FsError(FileLocation(c, []), false))
    else if env.writeFails then Some(FsError(FileLocation(c, elem), false))
    else None
  }

  /** writeFile(contents, elem...). */
  function AfterWriteFile(c: Config, s: AgentState, contents: Bytes, elem: seq<string>, env: WriteEnv): (r: Outcome)
    ensures r.err.None? <==> !Fails(env)
    ensures r.err == WriteError(c, elem, env)
    // success puts exactly this file in place
    ensures r.err.None? ==> r.state.files == s.files[FileLocation(c, elem) := contents]
    // an atomic write that fails leaves the old contents
    ensures r.err.Some? ==> r.state.files == s.files
    ensures r.state.trace == s.trace + WriteEvents(c, contents, elem, env)
    ensures r.state == s.(files := r.state.files, trace := r.state.trace)
  {
    var dir := FileLocation(c, []);
    var s1 := s.(trace := s.trace + [MkdirAll(dir)]);
    if env.mkdirFails then
      Outcome(s1, Some(FsError(dir, false)))
    else
      var path := FileLocation(c, elem);
      var s2 := s1.(trace := s1.trace + [WriteFileAtomic(path, contents)]);
      if env.writeFails then
        Outcome(s2, Some(FsError(path, false)))
      else
        Outcome(s2.(files := s2.files[path := contents]), None)
  }

  /** The RPC answers and both saves work. */
  predicate RegisterSucceeds(env: RegisterEnv) {
    env.response.Some? && !Fails(env.accessKeyWrite) && !Fails(env.deviceIDWrite)
  }

  /** The file-system calls of register() after its RPC. */
  function RegisterWrites(c: Config, env: RegisterEnv): seq<Event> {
    match env.response
    case None => []
    case Some(reg) =>
      WriteEvents(c, reg.deviceAccessKeyValue, [AccessKeyFilename], env.accessKeyWrite)
        + (if Fails(env.accessKeyWrite) then []
           else WriteEvents(c, reg.deviceID, [DeviceIDFilename], env.deviceIDWrite))
  }

  /** register(): one RegisterDevice call, then the access key is saved, then
      the device ID; the first failure ends it. */
  function AfterRegister(c: Config, s: AgentState, env: RegisterEnv): (r: Outcome)
    ensures r.err.None? <==> RegisterSucceeds(env)
    // a failed RPC writes nothing
    ensures env.response.None? ==>
      r == Outcome(s.(trace := s.trace + [RegisterDevice(c.registrationToken)]), Some(RpcError))
    // a failed access-key save leaves the disk as it was
    ensures env.response.Some? && Fails(env.accessKeyWrite) ==>
      r.state.files == s.files &&
      r.err == Some(Wrapped("failed to save access key",
                            WriteError(c, [AccessKeyFilename], env.accessKeyWrite).value))
    ensures env.response.Some? && !Fails(env.accessKeyWrite) && Fails(env.deviceIDWrite) ==>
      r.state.files == s.files[AccessKeyPath(c) := env.response.value.deviceAccessKeyValue] &&
      r.err == Some(Wrapped("failed to save device ID",
                            WriteError(c, [DeviceIDFilename], env.deviceIDWrite).value))
    ensures r.err.None? ==>
      r.state.files == s.files[AccessKeyPath(c) := env.response.value.deviceAccessKeyValue]
                              [DeviceIDPath(c) := env.response.value.deviceID]
    ensures r.state.trace == s.trace + [RegisterDevice(c.registrationToken)] + RegisterWrites(c, env)
    ensures r.state == s.(files := r.state.files, trace := r.state.trace)
  {
    var called := s.(trace := s.trace + [RegisterDevice(c.registrationToken)]);
    match env.response
    case None => Outcome(called, Some(RpcError))
    case Some(reg) =>
      var key := AfterWriteFile(c, called, reg.deviceAccessKeyValue, [AccessKeyFilename], env.accessKeyWrite);
      if key.err.Some? then
        Outcome(key.state, Some(Wrapped("failed to save access key", key.err.value)))
      else
        var id := AfterWriteFile(c, key.state, reg.deviceID, [DeviceIDFilename], env.deviceIDWrite);
        if id.err.Some? then
          Outcome(id.state, Some(Wrapped("failed to save device ID", id.err.value)))
        else
          Outcome(id.state, None)
  }

  /** register() writes the access key before the device ID, and attempts the
      device ID only once the access key is on disk. */
  lemma RegisterWriteOrder(c: Config, s: AgentState, env: RegisterEnv)
    ensures var r := AfterRegister(c, s, env);
      s.trace <= r.state.trace &&
      WrittenPaths(r.state.trace[|s.trace|..]) ==
        if env.response.None? || env.accessKeyWrite.mkdirFails then []
        else if env.accessKeyWrite.writeFails || env.deviceIDWrite.mkdirFails then [AccessKeyPath(c)]
        else [AccessKeyPath(c), DeviceIDPath(c)]
  {
    var r := AfterRegister(c, s, env);
    var called := [RegisterDevice(c.registrationToken)];
    var writes := RegisterWrites(c, env);
    assert r.state.trace[|s.trace|..] == called + writes;
    assert WrittenPaths(called) == [] + WrittenPaths([]);
    WrittenPathsAppend(called, writes);
    RegisterWritesPaths(c, env);
  }

  /** The paths register() writes after its RPC, in order. */
  lemma RegisterWritesPaths(c: Config, env: RegisterEnv)
    ensures WrittenPaths(RegisterWrites(c, env)) ==
      if env.response.None? || env.accessKeyWrite.mkdirFails then []
      else if env.accessKeyWrite.writeFails || env.deviceIDWrite.mkdirFails then [AccessKeyPath(c)]
      else [AccessKeyPath(c), DeviceIDPath(c)]
  {
    if env.response.Some? {
      var reg := env.response.value;
      var keyEvents := WriteEvents(c, reg.deviceAccessKeyValue, [AccessKeyFilename], env.accessKeyWrite);
      var idEvents := if Fails(env.accessKeyWrite) then []
                      else WriteEvents(c, reg.deviceID, [DeviceIDFilename], env.deviceIDWrite);
      WriteEventsWrites(c, reg.deviceAccessKeyValue, [AccessKeyFilename], env.accessKeyWrite);
      WriteEventsWrites(c, reg.deviceID, [DeviceIDFilename], env.deviceIDWrite);
      WrittenPathsAppend(keyEvents, idEvents);
    }
  }

  /** Whether loading the identity gets past both reads: both files exist
      and can be read. */
  predicate ReadsSucceed(c: Config, files: map<Path, Bytes>, env: InitEnv) {
    !env.accessKeyReadFails && AccessKeyPath(c) in files &&
    !env.deviceIDReadFails && DeviceIDPath(c) in files
  }

  /** The calls the second half of Initialize makes, in order, up to the
      first one that fails. */
  function LoadIdentityEvents(c: Config, files: map<Path, Bytes>, env: InitEnv): (r: seq<Event>)
    // the access key is read first, and the listener is installed only after the detector started
    ensures 0 < |r| && r[0] == ReadFile(AccessKeyPath(c))
    ensures SetListener in r <==> ReadsSucceed(c, files, env) && !env.variablesStartFails
  {
    var key := AccessKeyPath(c);
    var id := DeviceIDPath(c);
    if env.accessKeyReadFails || key !in files then [ReadFile(key)]
    else if env.deviceIDReadFails || id !in files then [ReadFile(key), ReadFile(id)]
    else
      var started := [ReadFile(key), ReadFile(id), SetAccessKey(files[key]), SetDeviceID(files[id]), StartVariables];
      if env.variablesStartFails then started else started + [Takeover, SetListener]
  }

  /** Loading the identity only reads the disk and talks to the client, the
      detector and the handoff coordinator: it registers nothing and writes
      no file. */
  lemma LoadIdentityEventsKinds(c: Config, files: map<Path, Bytes>, env: InitEnv)
    ensures forall e | e in LoadIdentityEvents(c, files, env) ::
      e.ReadFile? || e.SetAccessKey? || e.SetDeviceID? || e.StartVariables? || e.Takeover? || e.SetListener?
  {
  }

  /** The second half of Initialize: read both credentials, hand them to the
      client, start the variables detector, then build the connector and
      install the handed-over listener. */
  function AfterLoadIdentity(c: Config, s: AgentState, env: InitEnv): (r: Outcome)
    ensures r.state.trace == s.trace + LoadIdentityEvents(c, s.files, env)
    ensures r.state.files == s.files
    ensures r.err.None? <==> ReadsSucceed(c, s.files, env) && !env.variablesStartFails
    // the client gets the credentials once both reads succeeded, even if the detector fails to start
    ensures ReadsSucceed(c, s.files, env) ==>
      r.state.accessKey == Some(s.files[AccessKeyPath(c)]) &&
      r.state.deviceID == Some(s.files[DeviceIDPath(c)])
    ensures !ReadsSucceed(c, s.files, env) ==> r.state.accessKey == s.accessKey && r.state.deviceID == s.deviceID
    ensures r.err.None? ==> r.state.variables && r.state.connector && r.state.listener
    ensures r.err.Some? ==>
      r.state.variables == s.variables && r.state.connector == s.connector && r.state.listener == s.listener
    ensures r.state.supervisor == s.supervisor && r.state.garbageCollector == s.garbageCollector &&
            r.state.updater == s.updater
  {
    var key := AccessKeyPath(c);
    var id := DeviceIDPath(c);
    if env.accessKeyReadFails || key !in s.files then
      Outcome(s.(trace := s.trace + [ReadFile(key)]),
              Some(Wrapped("failed to read access key", FsError(key, !env.accessKeyReadFails))))
    else if env.deviceIDReadFails || id !in s.files then
      Outcome(s.(trace := s.trace + [ReadFile(key), ReadFile(id)]),
              Some(Wrapped("failed to read device ID", FsError(id, !env.deviceIDReadFails))))
    else
      var read := s.(trace := s.trace + [ReadFile(key), ReadFile(id)]);
      var started := [ReadFile(key), ReadFile(id), SetAccessKey(s.files[key]), SetDeviceID(s.files[id]), StartVariables];
      assert read.trace + started[2..] == s.trace + started;
      assert read.trace + started[2..] + [Takeover, SetListener] == s.trace + (started + [Takeover, SetListener]);
      AfterWireUp(read, s.files[key], s.files[id], env)
  }

  /** The end of Initialize, once both credentials are read: hand them to the
      client, start the variables detector, then build the connector and
      install the listener handed over by the handoff coordinator. */
  function AfterWireUp(s: AgentState, accessKey: Bytes, deviceID: Bytes, env: InitEnv): (r: Outcome)
    // the client has the credentials even when the detector fails to start
    ensures r.state.accessKey == Some(accessKey) && r.state.deviceID == Some(deviceID)
    ensures r.err.None? <==> !env.variablesStartFails
    ensures r.err.Some? ==>
      r.err == Some(Wrapped("start fsnotify variables detector", DetectorError)) &&
      r.state.variables == s.variables && r.state.connector == s.connector && r.state.listener == s.listener &&
      r.state.trace == s.trace + [SetAccessKey(accessKey), SetDeviceID(deviceID), StartVariables]
    ensures r.err.None? ==>
      r.state.variables && r.state.connector && r.state.listener &&
      r.state.trace == s.trace + [SetAccessKey(accessKey), SetDeviceID(deviceID), StartVariables] + [Takeover, SetListener]
    ensures r.state.files == s.files && r.state.supervisor == s.supervisor &&
            r.state.garbageCollector == s.garbageCollector && r.state.updater == s.updater
  {
    var started := s.(accessKey := Some(accessKey), deviceID := Some(deviceID),
                      trace := s.trace + [SetAccessKey(accessKey), SetDeviceID(deviceID), StartVariables]);
    if env.variablesStartFails then
      Outcome(started, Some(Wrapped("start fsnotify variables detector", DetectorError)))
    else
      Outcome(started.(variables := true, connector := true, listener := true,
                       trace := started.trace + [Takeover, SetListener]), None)
  }

  /** The first half of Initialize: stat the access-key file, and register
      the device when the stat reports that the file does not exist. */
  function AfterRegistration(c: Config, s: AgentState, env: InitEnv): (r: Outcome)
    // any other stat error is fatal before anything else is done
    ensures env.statFails ==>
      r == Outcome(s.(trace := s.trace + [Stat(AccessKeyPath(c))]),
                   Some(Wrapped("failed to check for access key", FsError(AccessKeyPath(c), false))))
    // an already registered device only makes the stat
    ensures !env.statFails && AccessKeyPath(c) in s.files ==>
      r == Outcome(s.(trace := s.trace + [Stat(AccessKeyPath(c))]), None)
    // otherwise register() runs after the stat, and its failure is wrapped
    ensures !env.statFails && AccessKeyPath(c) !in s.files ==>
      r.state == AfterRegister(c, s.(trace := s.trace + [Stat(AccessKeyPath(c))]), env.register).state &&
      (r.err.None? <==> RegisterSucceeds(env.register)) &&
      (r.err.Some? ==> r.err.value.Wrapped? && r.err.value.message == "failed to register device")
  {
    var key := AccessKeyPath(c);
    var checked := s.(trace := s.trace + [Stat(key)]);
    if env.statFails then
      Outcome(checked, Some(Wrapped("failed to check for access key", FsError(key, false))))
    else if key in s.files then
      Outcome(checked, None)
    else
      var registered := AfterRegister(c, checked, env.register);
      if registered.err.Some? then
        Outcome(registered.state, Some(Wrapped("failed to register device", registered.err.value)))
      else
        registered
  }

  /** Initialize(): register when the access-key file does not exist, then
      load the identity. */
  function AfterInitialize(c: Config, s: AgentState, env: InitEnv): (r: Outcome)
    ensures s.trace <= r.state.trace
    // any other stat error is fatal before anything else is done
    ensures env.statFails ==>
      r == Outcome(s.(trace := s.trace + [Stat(AccessKeyPath(c))]),
                   Some(Wrapped("failed to check for access key", FsError(AccessKeyPath(c), false))))
    // an already registered device keeps its disk as it is
    ensures !env.statFails && AccessKeyPath(c) in s.files ==> r.state.files == s.files
    ensures !env.statFails && AccessKeyPath(c) !in s.files && !RegisterSucceeds(env.register) ==>
      r.err.Some? && r.err.value.Wrapped? && r.err.value.message == "failed to register device" &&
      r.state.accessKey == s.accessKey && r.state.deviceID == s.deviceID
    // success hands the persisted credentials to the client and wires the agent
    ensures r.err.None? ==>
      AccessKeyPath(c) in r.state.files && DeviceIDPath(c) in r.state.files &&
      r.state.accessKey == Some(r.state.files[AccessKeyPath(c)]) &&
      r.state.deviceID == Some(r.state.files[DeviceIDPath(c)]) &&
      r.state.variables && r.state.connector && r.state.listener
    ensures r.err.Some? ==>
      r.state.variables == s.variables && r.state.connector == s.connector && r.state.listener == s.listener
    ensures r.state.supervisor == s.supervisor && r.state.garbageCollector == s.garbageCollector &&
            r.state.updater == s.updater
  {
    var registered := AfterRegistration(c, s, env);
    if registered.err.Some? then registered else AfterLoadIdentity(c, registered.state, env)
  }

  /** Initialize calls RegisterDevice exactly when the stat of the access-key
      file reports that it does not exist. */
  lemma InitializeRegistersIffAbsent(c: Config, s: AgentState, env: InitEnv)
    ensures var r := AfterInitialize(c, s, env);
      s.trace <= r.state.trace &&
      (RegisterDevice(c.registrationToken) in r.state.trace[|s.trace|..] <==>
         !env.statFails && AccessKeyPath(c) !in s.files)
  {
    if env.statFails || AccessKeyPath(c) in s.files {
      InitializeWithoutRegistering(c, s, env);
    } else {
      InitializeRegistering(c, s, env);
      var r := AfterInitialize(c, s, env);
      assert r.state.trace[|s.trace|..][1] == RegisterDevice(c.registrationToken);
    }
  }

  /** When the stat fails or finds the access key, Initialize makes the stat
      and, if the stat found the key, loads the identity. */
  lemma InitializeWithoutRegistering(c: Config, s: AgentState, env: InitEnv)
    requires env.statFails || AccessKeyPath(c) in s.files
    ensures var r := AfterInitialize(c, s, env);
      r.state.trace == s.trace + [Stat(AccessKeyPath(c))] +
        (if env.statFails then [] else LoadIdentityEvents(c, s.files, env)) &&
      RegisterDevice(c.registrationToken) !in r.state.trace[|s.trace|..]
  {
    var added := [Stat(AccessKeyPath(c))] + (if env.statFails then [] else LoadIdentityEvents(c, s.files, env));
    LoadIdentityEventsKinds(c, s.files, env);
    assert (s.trace + added)[|s.trace|..] == added;
  }

  /** When the stat reports that the access key does not exist, RegisterDevice
      is the call right after the stat. */
  lemma InitializeRegistering(c: Config, s: AgentState, env: InitEnv)
    requires !env.statFails && AccessKeyPath(c) !in s.files
    ensures var r := AfterInitialize(c, s, env);
      s.trace + [Stat(AccessKeyPath(c)), RegisterDevice(c.registrationToken)] <= r.state.trace
  {
    var registered := AfterRegistration(c, s, env);
    var r := AfterInitialize(c, s, env);
    var called := s.trace + [Stat(AccessKeyPath(c)), RegisterDevice(c.registrationToken)];
    assert registered.state.trace == called + RegisterWrites(c, env.register);
    if registered.err.None? {
      assert r.state.trace == registered.state.trace + LoadIdentityEvents(c, registered.state.files, env);
    }
  }

  /** Repeated initialisation is idempotent: once Initialize succeeded, a
      later Initialize registers nothing and writes no file, whatever its
      calls return. */
  lemma InitializeIdempotent(c: Config, s: AgentState, first: InitEnv, second: InitEnv)
    requires AfterInitialize(c, s, first).err.None?
    ensures var once := AfterInitialize(c, s, first).state;
      var twice := AfterInitialize(c, once, second).state;
      once.trace <= twice.trace &&
      RegisterDevice(c.registrationToken) !in twice.trace[|once.trace|..] &&
      twice.files == once.files
  {
    InitializeRegistersIffAbsent(c, AfterInitialize(c, s, first).state, second);
  }

  /** register() can leave an access key without a device ID: the access key
      is saved and the device-ID save fails. */
  lemma RegisterCanStrandAccessKey(c: Config, s: AgentState, env: RegisterEnv)
    requires DeviceIDPath(c) !in s.files
    requires env.response.Some? && !Fails(env.accessKeyWrite) && Fails(env.deviceIDWrite)
    ensures var r := AfterRegister(c, s, env);
      r.err.Some? && AccessKeyPath(c) in r.state.files && DeviceIDPath(c) !in r.state.files
  {
    StateFilesDistinct(c);
  }

  /** An access key without a device ID is never repaired: every later
      Initialize fails, registers nothing and leaves the disk as it is,
      whatever the control plane would answer; when its stat and the
      access-key read work, it fails reading the device ID. */
  lemma StrandedAccessKeyBlocksInitialize(c: Config, s: AgentState, env: InitEnv)
    requires AccessKeyPath(c) in s.files && DeviceIDPath(c) !in s.files
    ensures var r := AfterInitialize(c, s, env);
      r.err.Some? &&
      s.trace <= r.state.trace &&
      RegisterDevice(c.registrationToken) !in r.state.trace[|s.trace|..] &&
      r.state.files == s.files
    ensures !env.statFails && !env.accessKeyReadFails ==>
      AfterInitialize(c, s, env).err ==
        Some(Wrapped("failed to read device ID", FsError(DeviceIDPath(c), !env.deviceIDReadFails)))
  {
    InitializeRegistersIffAbsent(c, s, env);
  }

  /** When Initialize succeeds: the stat works, the device is either already
      registered with both files on disk or registers now, both reads work and
      the variables detector starts. */
  lemma InitializeSucceedsIff(c: Config, s: AgentState, env: InitEnv)
    ensures AfterInitialize(c, s, env).err.None? <==>
      !env.statFails &&
      (if AccessKeyPath(c) in s.files then DeviceIDPath(c) in s.files else RegisterSucceeds(env.register)) &&
      !env.accessKeyReadFails && !env.deviceIDReadFails && !env.variablesStartFails
  {
    var key := AccessKeyPath(c);
    var checked := s.(trace := s.trace + [Stat(key)]);
    StateFilesDistinct(c);
    if !env.statFails && key !in s.files && RegisterSucceeds(env.register) {
      var registered := AfterRegister(c, checked, env.register);
      assert key in registered.state.files && DeviceIDPath(c) in registered.state.files;
    }
  }
}
