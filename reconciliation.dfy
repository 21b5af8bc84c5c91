/** The bundle applier: loading the saved bundle, downloading and saving the
    latest one, and pushing it to the supervisor, the status garbage
    collector and the updater. */
module Reconciliation {
  import opened Wrappers
  import opened Models
  import opened Layout
  import opened Effects
  import opened Identity

  /** What loadSavedBundle returns: no bundle (nil), the decoded bundle, or,
      when every poll given to it was retried, nothing yet. */
  datatype Loaded = NoSavedBundle | SavedBundle(bundle: Bundle) | StillPolling

  /** A poll the loader retries after the next tick: the stat failed with an
      error other than "not exist", or the file exists and could not be read. */
  predicate Retried(p: Poll, present: bool) {
    p == StatFails || (present && p == ReadFails)
  }

  /** The loader returns at the first poll it does not retry. */
  predicate Settles(polls: seq<Poll>, present: bool) {
    exists i :: 0 <= i < |polls| && !Retried(polls[i], present)
  }

  /** The bundle a poll that is not retried returns: nil when the file does
      not exist or does not decode, the decoded bundle otherwise. */
  function SavedVerdict(files: map<Path, Bytes>, path: Path, codec: Codec): (r: Loaded)
    ensures r != StillPolling
    ensures r.SavedBundle? <==> path in files && codec.unmarshalBundle(files[path]).Some?
    ensures r.SavedBundle? ==> codec.unmarshalBundle(files[path]) == Some(r.bundle)
  {
    if path !in files then NoSavedBundle
    else match codec.unmarshalBundle(files[path])
      case Some(b) => SavedBundle(b)
      case None => NoSavedBundle
  }

  /** loadSavedBundle(), stated without its loop. */
  function LoadSaved(files: map<Path, Bytes>, path: Path, polls: seq<Poll>, codec: Codec): (r: Loaded)
    // a decoded bundle is exactly what the file holds
    ensures r.SavedBundle? ==> path in files && codec.unmarshalBundle(files[path]) == Some(r.bundle)
    // nil means the file is absent or corrupt: a corrupt file is never trusted
    ensures r == NoSavedBundle ==> path !in files || codec.unmarshalBundle(files[path]).None?
    // the loader keeps polling only through read errors and other stat errors
    ensures r == StillPolling <==> forall i :: 0 <= i < |polls| ==> Retried(polls[i], path in files)
  {
    if Settles(polls, path in files) then SavedVerdict(files, path, codec) else StillPolling
  }

  /** The calls one poll of the loader makes: the stat, then the read when
      the stat found the file. */
  function PollEvents(path: Path, present: bool, p: Poll): seq<Event> {
    if p != StatFails && present then [Stat(path), ReadFile(path)] else [Stat(path)]
  }

  /** The calls loadSavedBundle makes over these polls, up to and including
      the first poll it does not retry. */
  function LoadEvents(files: map<Path, Bytes>, path: Path, polls: seq<Poll>): seq<Event>
    decreases |polls|
  {
    if polls == [] then []
    else PollEvents(path, path in files, polls[0]) +
         (if Retried(polls[0], path in files) then LoadEvents(files, path, polls[1..]) else [])
  }

  /** The loader only inspects the saved bundle: it starts with the stat,
      makes one stat per poll, and reads the file only once a stat found it. */
  lemma {:induction false} LoadEventsInspect(files: map<Path, Bytes>, path: Path, polls: seq<Poll>)
    ensures var r := LoadEvents(files, path, polls);
      (forall e | e in r :: e == Stat(path) || (e == ReadFile(path) && path in files)) &&
      (polls != [] ==> 0 < |r| && r[0] == Stat(path))
    decreases |polls|
  {
    if polls != [] {
      LoadEventsInspect(files, path, polls[1..]);
    }
  }

  /** The calls of the polls from the k-th on: that poll's, then, if it
      was retried, the rest. */
  lemma LoadEventsStep(files: map<Path, Bytes>, path: Path, polls: seq<Poll>, k: nat)
    requires k < |polls|
    ensures LoadEvents(files, path, polls[k..]) ==
      PollEvents(path, path in files, polls[k]) +
      (if Retried(polls[k], path in files) then LoadEvents(files, path, polls[k + 1..]) else [])
  {
    assert polls[k..][0] == polls[k] && polls[k..][1..] == polls[k + 1..];
  }

  /** A trace that still owes the calls of the polls from the k-th on gets
      them by one more poll's calls, and the rest if that poll is retried. */
  lemma LoadTraceStep(whole: seq<Event>, t: seq<Event>, files: map<Path, Bytes>, path: Path, polls: seq<Poll>, k: nat)
    requires k < |polls|
    requires whole == t + LoadEvents(files, path, polls[k..])
    ensures Retried(polls[k], path in files) ==>
      whole == (t + PollEvents(path, path in files, polls[k])) + LoadEvents(files, path, polls[k + 1..])
    ensures !Retried(polls[k], path in files) ==> whole == t + PollEvents(path, path in files, polls[k])
  {
    LoadEventsStep(files, path, polls, k);
  }

  /** The loader's answer is the verdict of the first poll it does not retry. */
  lemma LoadSavedStops(files: map<Path, Bytes>, path: Path, polls: seq<Poll>, k: nat, codec: Codec)
    requires k < |polls| && !Retried(polls[k], path in files)
    ensures LoadSaved(files, path, polls, codec) == SavedVerdict(files, path, codec)
  {
  }

  /** The state after the warm start pushed the loaded bundle, if any, to the supervisor. */
  function AfterWarmStart(s: AgentState, loaded: Loaded): (r: AgentState)
    ensures loaded.SavedBundle? ==>
      r.supervisor == Some(loaded.bundle.applications) &&
      r.trace == s.trace + [SetApplications(loaded.bundle.applications)]
    ensures !loaded.SavedBundle? ==> r == s
    // nothing but the supervisor is given anything
    ensures r == s.(supervisor := r.supervisor, trace := r.trace)
  {
    if loaded.SavedBundle? then
      s.(supervisor := Some(loaded.bundle.applications),
         trace := s.trace + [SetApplications(loaded.bundle.applications)])
    else s
  }

  /** A cycle whose download yields a bundle: GetBundle returned one, it
      marshalled, and it was saved. */
  predicate Succeeds(env: CycleEnv, codec: Codec) {
    env.fetched.Some? && codec.marshalBundle(env.fetched.value).Some? && !Fails(env.save)
  }

  datatype Download = Download(state: AgentState, bundle: Option<Bundle>)

  /** downloadLatestBundle(): fetch, marshal and save; any failure yields nil. */
  function AfterDownload(c: Config, s: AgentState, env: CycleEnv, codec: Codec): (r: Download)
    ensures r.bundle.Some? <==> Succeeds(env, codec)
    ensures r.bundle.Some? ==> r.bundle == env.fetched
    ensures r.bundle.Some? ==>
      r.state.files == s.files[BundlePath(c) := codec.marshalBundle(env.fetched.value).value]
    ensures r.bundle.None? ==> r.state.files == s.files
    ensures r.state.trace == s.trace + [GetBundle] +
      (if env.fetched.Some? && codec.marshalBundle(env.fetched.value).Some?
       then WriteEvents(c, codec.marshalBundle(env.fetched.value).value, [BundleFilename], env.save)
       else [])
    ensures r.state == s.(files := r.state.files, trace := r.state.trace)
  {
    var fetched := s.(trace := s.trace + [GetBundle]);
    match env.fetched
    case None => Download(fetched, None)
    case Some(b) =>
      match codec.marshalBundle(b)
      case None => Download(fetched, None)
      case Some(bytes) =>
        var saved := AfterWriteFile(c, fetched, bytes, [BundleFilename], env.save);
        if saved.err.Some? then Download(saved.state, None) else Download(saved.state, Some(b))
  }

  /** The pushes of one downloaded bundle, in order: supervisor, garbage
      collector, and the updater only if the desired agent spec decodes. */
  function AfterApply(s: AgentState, b: Bundle, codec: Codec): (r: AgentState)
    ensures r.supervisor == Some(b.applications) && r.garbageCollector == Some(b)
    ensures r.updater ==
      if codec.unmarshalSpec(b.desiredAgentSpec).Some? then codec.unmarshalSpec(b.desiredAgentSpec) else s.updater
    ensures r.trace == s.trace + [SetApplications(b.applications), SetBundle(b)] +
      (if codec.unmarshalSpec(b.desiredAgentSpec).Some?
       then [SetDesiredSpec(codec.unmarshalSpec(b.desiredAgentSpec).value)] else [])
    ensures r == s.(supervisor := r.supervisor, garbageCollector := r.garbageCollector,
                    updater := r.updater, trace := r.trace)
  {
    var pushed := s.(supervisor := Some(b.applications), garbageCollector := Some(b),
                     trace := s.trace + [SetApplications(b.applications), SetBundle(b)]);
    match codec.unmarshalSpec(b.desiredAgentSpec)
    case Some(spec) => pushed.(updater := Some(spec), trace := pushed.trace + [SetDesiredSpec(spec)])
    case None => pushed
  }

  /** One iteration of the bundle applier's loop. */
  function AfterCycle(c: Config, s: AgentState, env: CycleEnv, codec: Codec): (r: AgentState)
    // a failed fetch, marshal or save changes no collaborator and no file
    ensures !Succeeds(env, codec) ==>
      r.files == s.files && r.supervisor == s.supervisor &&
      r.garbageCollector == s.garbageCollector && r.updater == s.updater
    ensures Succeeds(env, codec) ==>
      r.supervisor == Some(env.fetched.value.applications) && r.garbageCollector == env.fetched &&
      r.files == s.files[BundlePath(c) := codec.marshalBundle(env.fetched.value).value]
    // the updater only changes when the desired agent spec decodes
    ensures r.updater ==
      if Succeeds(env, codec) && codec.unmarshalSpec(env.fetched.value.desiredAgentSpec).Some?
      then codec.unmarshalSpec(env.fetched.value.desiredAgentSpec)
      else s.updater
    // persisting, then supervisor, then garbage collector, then updater
    ensures Succeeds(env, codec) ==>
      var b := env.fetched.value;
      var bytes := codec.marshalBundle(b).value;
      r.trace == s.trace + [GetBundle, MkdirAll(FileLocation(c, [])), WriteFileAtomic(BundlePath(c), bytes),
                            SetApplications(b.applications), SetBundle(b)] +
                 (if codec.unmarshalSpec(b.desiredAgentSpec).Some?
                  then [SetDesiredSpec(codec.unmarshalSpec(b.desiredAgentSpec).value)] else [])
    ensures s.trace <= r.trace
    ensures r.accessKey == s.accessKey && r.deviceID == s.deviceID && r.variables == s.variables &&
            r.connector == s.connector && r.listener == s.listener
  {
    var d := AfterDownload(c, s, env, codec);
    if d.bundle.Some? then AfterApply(d.state, d.bundle.value, codec) else d.state
  }

  /** The bundle applier's loop run over these cycles, in order. */
  function AfterCycles(c: Config, s: AgentState, envs: seq<CycleEnv>, codec: Codec): (r: AgentState)
    // cycles only add calls, and never touch the client's credentials or the wiring
    ensures s.trace <= r.trace
    ensures r.accessKey == s.accessKey && r.deviceID == s.deviceID && r.variables == s.variables &&
            r.connector == s.connector && r.listener == s.listener
    decreases |envs|
  {
    if envs == [] then s else AfterCycles(c, AfterCycle(c, s, envs[0], codec), envs[1..], codec)
  }

  /** runBundleApplier(): the warm start, then the cycles; while the loader
      is still polling no cycle has started. */
  function AfterBundleApplier(c: Config, s: AgentState, polls: seq<Poll>, envs: seq<CycleEnv>, codec: Codec): (r: AgentState)
    // the loader's calls come first
    ensures s.trace + LoadEvents(s.files, BundlePath(c), polls) <= r.trace
    // while the loader is still polling, nothing else happens
    ensures LoadSaved(s.files, BundlePath(c), polls, codec) == StillPolling ==>
      r == s.(trace := s.trace + LoadEvents(s.files, BundlePath(c), polls))
    ensures r.accessKey == s.accessKey && r.deviceID == s.deviceID && r.variables == s.variables &&
            r.connector == s.connector && r.listener == s.listener
  {
    var loaded := LoadSaved(s.files, BundlePath(c), polls, codec);
    var polled := s.(trace := s.trace + LoadEvents(s.files, BundlePath(c), polls));
    if loaded == StillPolling then polled else AfterCycles(c, AfterWarmStart(polled, loaded), envs, codec)
  }

  /** The bundle of the last cycle that succeeded, if any. */
  function LastSuccess(envs: seq<CycleEnv>, codec: Codec): (r: Option<Bundle>)
    ensures r.Some? <==> exists i :: 0 <= i < |envs| && Succeeds(envs[i], codec)
    ensures r.Some? ==> codec.marshalBundle(r.value).Some?
    decreases |envs|
  {
    if envs == [] then None
    else match LastSuccess(envs[1..], codec)
      case Some(b) => Some(b)
      case None => if Succeeds(envs[0], codec) then envs[0].fetched else None
  }

  /** The decoded desired agent spec of the last succeeding cycle whose spec
      decodes, if any. */
  function LastDesiredSpec(envs: seq<CycleEnv>, codec: Codec): Option<ServiceSpec>
    decreases |envs|
  {
    if envs == [] then None
    else match LastDesiredSpec(envs[1..], codec)
      case Some(spec) => Some(spec)
      case None =>
        if Succeeds(envs[0], codec) && codec.unmarshalSpec(envs[0].fetched.value.desiredAgentSpec).Some?
        then codec.unmarshalSpec(envs[0].fetched.value.desiredAgentSpec)
        else None
  }

  /** The number of cycles that succeed. */
  function Successes(envs: seq<CycleEnv>, codec: Codec): nat
    decreases |envs|
  {
    if envs == [] then 0 else (if Succeeds(envs[0], codec) then 1 else 0) + Successes(envs[1..], codec)
  }

  /** After any run of cycles the supervisor and the garbage collector hold
      the bundle of the last cycle that succeeded, and the saved file is that
      bundle; failed cycles never roll them back, and with no success they
      keep what they had. */
  lemma {:induction false} CyclesFollowLastSuccess(c: Config, s: AgentState, envs: seq<CycleEnv>, codec: Codec)
    ensures var r := AfterCycles(c, s, envs, codec);
      match LastSuccess(envs, codec)
      case Some(b) =>
        r.supervisor == Some(b.applications) && r.garbageCollector == Some(b) &&
        r.files == s.files[BundlePath(c) := codec.marshalBundle(b).value]
      case None =>
        r.supervisor == s.supervisor && r.garbageCollector == s.garbageCollector && r.files == s.files
    decreases |envs|
  {
    if envs != [] {
      var next := AfterCycle(c, s, envs[0], codec);
      CyclesFollowLastSuccess(c, next, envs[1..], codec);
      if LastSuccess(envs[1..], codec).None? && Succeeds(envs[0], codec) {
        assert LastSuccess(envs, codec) == envs[0].fetched;
      }
    }
  }

  /** After any run of cycles the updater holds the spec of the last
      succeeding cycle whose spec decodes; a spec that does not decode never
      replaces the previous one. */
  lemma {:induction false} CyclesUpdater(c: Config, s: AgentState, envs: seq<CycleEnv>, codec: Codec)
    ensures AfterCycles(c, s, envs, codec).updater ==
      if LastDesiredSpec(envs, codec).Some? then LastDesiredSpec(envs, codec) else s.updater
    decreases |envs|
  {
    if envs != [] {
      CyclesUpdater(c, AfterCycle(c, s, envs[0], codec), envs[1..], codec);
    }
  }

  /** The supervisor is given applications exactly once per succeeding cycle. */
  lemma {:induction false} CyclesPushes(c: Config, s: AgentState, envs: seq<CycleEnv>, codec: Codec)
    ensures var r := AfterCycles(c, s, envs, codec);
      s.trace <= r.trace &&
      SupervisorPushes(r.trace) == SupervisorPushes(s.trace) + Successes(envs, codec)
    decreases |envs|
  {
    if envs != [] {
      var next := AfterCycle(c, s, envs[0], codec);
      CyclePushes(c, s, envs[0], codec);
      CyclesPushes(c, next, envs[1..], codec);
    }
  }

  /** One cycle adds one SetApplications call if it succeeds and none otherwise. */
  lemma CyclePushes(c: Config, s: AgentState, env: CycleEnv, codec: Codec)
    ensures SupervisorPushes(AfterCycle(c, s, env, codec).trace) ==
      SupervisorPushes(s.trace) + if Succeeds(env, codec) then 1 else 0
  {
    DownloadPushes(c, s, env, codec);
    var d := AfterDownload(c, s, env, codec);
    if d.bundle.Some? {
      ApplyPushes(d.state, d.bundle.value, codec);
    }
  }

  /** A download gives the supervisor nothing. */
  lemma DownloadPushes(c: Config, s: AgentState, env: CycleEnv, codec: Codec)
    ensures SupervisorPushes(AfterDownload(c, s, env, codec).state.trace) == SupervisorPushes(s.trace)
  {
    var saved := if env.fetched.Some? && codec.marshalBundle(env.fetched.value).Some?
      then WriteEvents(c, codec.marshalBundle(env.fetched.value).value, [BundleFilename], env.save)
      else [];
    assert forall e | e in [GetBundle] + saved :: !e.SetApplications?;
    CountNoPushes([GetBundle] + saved);
    assert AfterDownload(c, s, env, codec).state.trace == s.trace + ([GetBundle] + saved);
    SupervisorPushesAppend(s.trace, [GetBundle] + saved);
  }

  /** Applying a bundle gives the supervisor its applications once. */
  lemma ApplyPushes(s: AgentState, b: Bundle, codec: Codec)
    ensures SupervisorPushes(AfterApply(s, b, codec).trace) == SupervisorPushes(s.trace) + 1
  {
    var spec := if codec.unmarshalSpec(b.desiredAgentSpec).Some?
      then [SetDesiredSpec(codec.unmarshalSpec(b.desiredAgentSpec).value)] else [];
    var applied := [SetApplications(b.applications), SetBundle(b)] + spec;
    assert applied[1..] == [SetBundle(b)] + spec;
    assert forall e | e in applied[1..] :: !e.SetApplications?;
    CountNoPushes(applied[1..]);
    assert SupervisorPushes(applied) == 1 + SupervisorPushes(applied[1..]);
    assert AfterApply(s, b, codec).trace == s.trace + applied;
    SupervisorPushesAppend(s.trace, applied);
  }

  /** Events with no SetApplications call among them count zero. */
  lemma {:induction false} CountNoPushes(events: seq<Event>)
    requires forall e | e in events :: !e.SetApplications?
    ensures SupervisorPushes(events) == 0
  {
    if events != [] {
      assert events[0] in events;
      CountNoPushes(events[1..]);
    }
  }

  /** The cycle sequence fail, succeed, fail of a device: the supervisor is
      updated exactly once, on the cycle that succeeded, and keeps that state. */
  lemma FailSucceedFail(c: Config, s: AgentState, first: CycleEnv, second: CycleEnv, third: CycleEnv, codec: Codec)
    requires !Succeeds(first, codec) && Succeeds(second, codec) && !Succeeds(third, codec)
    ensures var r := AfterCycles(c, s, [first, second, third], codec);
      r.supervisor == Some(second.fetched.value.applications) &&
      r.garbageCollector == second.fetched &&
      SupervisorPushes(r.trace) == SupervisorPushes(s.trace) + 1
  {
    var envs := [first, second, third];
    assert envs[1..] == [second, third] && envs[1..][1..] == [third] && envs[1..][1..][1..] == [];
    assert LastSuccess([third], codec) == None;
    assert LastSuccess(envs, codec) == second.fetched;
    assert Successes([third], codec) == 0;
    assert Successes(envs, codec) == 1;
    CyclesFollowLastSuccess(c, s, envs, codec);
    CyclesPushes(c, s, envs, codec);
  }

  /** Crash recovery: after a run of cycles, a restarted agent whose loader
      settles finds the bundle of the last cycle that succeeded. */
  lemma RestartRecoversLastBundle(c: Config, s: AgentState, envs: seq<CycleEnv>, codec: Codec, polls: seq<Poll>)
    requires RoundTrips(codec)
    requires LastSuccess(envs, codec).Some?
    ensures var files := AfterCycles(c, s, envs, codec).files;
      LoadSaved(files, BundlePath(c), polls, codec) ==
        if Settles(polls, true) then SavedBundle(LastSuccess(envs, codec).value) else StillPolling
  {
    var b := LastSuccess(envs, codec).value;
    CyclesFollowLastSuccess(c, s, envs, codec);
    var files := AfterCycles(c, s, envs, codec).files;
    assert files[BundlePath(c)] == codec.marshalBundle(b).value;
  }

  /** Warm-start precedence: once the loader has made its stat and read
      calls, a saved bundle that decodes is given to the supervisor before
      the first GetBundle, and stays in force while every cycle fails. */
  lemma WarmStartPrecedence(c: Config, s: AgentState, polls: seq<Poll>, envs: seq<CycleEnv>, codec: Codec)
    requires LoadSaved(s.files, BundlePath(c), polls, codec).SavedBundle?
    ensures var b := LoadSaved(s.files, BundlePath(c), polls, codec).bundle;
      var r := AfterBundleApplier(c, s, polls, envs, codec);
      s.trace + LoadEvents(s.files, BundlePath(c), polls) + [SetApplications(b.applications)] <= r.trace &&
      (LastSuccess(envs, codec).None? ==> r.supervisor == Some(b.applications))
  {
    var loaded := LoadSaved(s.files, BundlePath(c), polls, codec);
    var polled := s.(trace := s.trace + LoadEvents(s.files, BundlePath(c), polls));
    var warm := AfterWarmStart(polled, loaded);
    CyclesPushes(c, warm, envs, codec);
    CyclesFollowLastSuccess(c, warm, envs, codec);
  }

  /** With no saved bundle the warm start is skipped: after the loader's
      calls, the applier runs the cycles on the state it started from. */
  lemma NoSavedBundleSkipsWarmStart(c: Config, s: AgentState, polls: seq<Poll>, envs: seq<CycleEnv>, codec: Codec)
    requires LoadSaved(s.files, BundlePath(c), polls, codec) == NoSavedBundle
    ensures AfterBundleApplier(c, s, polls, envs, codec) ==
      AfterCycles(c, s.(trace := s.trace + LoadEvents(s.files, BundlePath(c), polls)), envs, codec)
  {
  }
}
