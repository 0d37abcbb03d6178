/**
 * sink/src/main/kotlin/org/basinmc/sink/plugin/ExtensionImpl.kt: one
 * extension's state machine. It is REGISTERED when made, RESOLVED once its
 * required dependencies are wired, LOADED once it has a class loader, RUNNING
 * once its context has started, and close returns it to REGISTERED.
 *
 * The class loader and the application context are opaque tokens; whether
 * making the loader or starting the context fails is a parameter.
 */
module SinkExtension {
  import opened JavaLang
  import opened Extensions

  /** The extension class loader made for a container. */
  datatype Loader = Loader(container: string)

  /** The application context: its parent, the class loader it was given and
      the package it scanned. */
  datatype Context = Context(parent: nat, loader: Option<Loader>, scanned: string)

  /** Every field an ExtensionImpl changes. */
  datatype ExtState = ExtState(
    phase: Phase,
    deps: seq<ExtensionImpl>,
    sources: map<ExtensionImpl, Dependency>,
    loader: Option<Loader>,
    context: Option<Context>)

  /** An outcome and the state after it. */
  datatype Step = Step(outcome: Outcome, state: ExtState)

  const Fresh := ExtState(REGISTERED, [], map[], None, None)

  class ExtensionImpl {
    const containerPath: string
    const manifest: Manifest
    var phase: Phase
    var resolvedDependencies: seq<ExtensionImpl>
    var sources: map<ExtensionImpl, Dependency>
    var classLoader: Option<Loader>
    var context: Option<Context>

    function State(): ExtState
      reads this
    {
      ExtState(phase, resolvedDependencies, sources, classLoader, context)
    }

    /** The manifest is decoded from the container by the caller. */
    constructor(containerPath: string, manifest: Manifest)
      ensures this.containerPath == containerPath && this.manifest == manifest
      ensures State() == Fresh
    {
      this.containerPath := containerPath;
      this.manifest := manifest;
      phase := REGISTERED;
      resolvedDependencies := [];
      sources := map[];
      classLoader := None;
      context := None;
    }

    method WireDependency(extension: ExtensionImpl, dependency: Option<Dependency>) returns (o: Outcome)
      modifies this
      ensures Step(o, State()) == WireStep(old(State()), extension, dependency)
    {
      if phase != REGISTERED {
        return Thrown(IllegalState);
      }
      resolvedDependencies := resolvedDependencies + [extension];
      if dependency.Some? {
        sources := sources[extension := dependency.value];
      }
      o := Normal;
    }

    method Resolve() returns (o: Outcome)
      modifies this
      ensures Step(o, State()) == ResolveStep(old(State()), manifest)
    {
      var unresolved := Unresolved(manifest.extensionDependencies, Manifests(resolvedDependencies));
      if unresolved != [] {
        return Thrown(ResolverError);
      }
      phase := RESOLVED;
      o := Normal;
    }

    /** The stream that drops each dependency not yet LOADED whose source is
        optional, testing the source at the moment each one is reached. */
    method DropOptional(unresolved: seq<ExtensionImpl>)
      modifies this
      ensures (resolvedDependencies, sources) == Dropped(old(resolvedDependencies), old(sources), unresolved)
      ensures phase == old(phase) && classLoader == old(classLoader) && context == old(context)
    {
      var i := 0;
      while i < |unresolved|
        invariant 0 <= i <= |unresolved|
        invariant Dropped(resolvedDependencies, sources, unresolved[i..])
               == Dropped(old(resolvedDependencies), old(sources), unresolved)
        invariant phase == old(phase) && classLoader == old(classLoader) && context == old(context)
      {
        var e := unresolved[i];
        assert unresolved[i..][1..] == unresolved[i + 1..];
        if e in sources && sources[e].optional {
          resolvedDependencies := RemoveFirst(resolvedDependencies, e);
          sources := map x | x in sources && x != e :: sources[x];
        }
        i := i + 1;
      }
    }

    /** initialize() as the source has it: whether an unresolved dependency is
        required is asked after the optional ones were dropped. */
    method InitializeAsWritten(loaderFails: bool) returns (o: Outcome)
      modifies this
      ensures Step(o, State()) == InitializeStepAsWritten(old(State()), old(Phases(resolvedDependencies)), containerPath, loaderFails)
    {
      if context.Some? {
        return Normal;
      }
      var unresolved := NotLoaded(resolvedDependencies, Phases(resolvedDependencies));
      DropOptional(unresolved);
      var required := WithoutOptionalSource(unresolved, sources);
      if required != [] {
        return Thrown(ResolverError);
      }
      if loaderFails {
        return Thrown(ContainerError);
      }
      classLoader := Some(Loader(containerPath));
      phase := LOADED;
      o := Normal;
    }

    /** initialize(), with the required dependencies told apart by the sources
        as they were before the drop. */
    method Initialize(loaderFails: bool) returns (o: Outcome)
      modifies this
      ensures Step(o, State()) == InitializeStep(old(State()), old(Phases(resolvedDependencies)), containerPath, loaderFails)
    {
      if context.Some? {
        return Normal;
      }
      var unresolved := NotLoaded(resolvedDependencies, Phases(resolvedDependencies));
      var required := WithoutOptionalSource(unresolved, sources);
      DropOptional(unresolved);
      if required != [] {
        return Thrown(ResolverError);
      }
      if loaderFails {
        return Thrown(ContainerError);
      }
      classLoader := Some(Loader(containerPath));
      phase := LOADED;
      o := Normal;
    }

    /** start(parentContext): scan, refresh and start a context under the
        parent; startFails says whether any of them throws. */
    method Start(parent: nat, startFails: bool) returns (o: Outcome)
      modifies this
      ensures Step(o, State()) == StartStep(old(State()), old(Phases(resolvedDependencies)), parent, startFails, manifest.identifier)
    {
      if context.Some? {
        return Normal;
      }
      if NotRunning(Phases(resolvedDependencies)) {
        return Thrown(ResolverError);
      }
      if startFails {
        return Thrown(ContainerError);
      }
      context := Some(Context(parent, classLoader, manifest.identifier));
      phase := RUNNING;
      o := Normal;
    }

    /** close(): failures while closing the context or the loader are logged. */
    method Close()
      modifies this
      ensures State() == CloseStep(old(State()))
    {
      if context.Some? {
        context := None;
      }
      if classLoader.Some? {
        classLoader := None;
      }
      phase := REGISTERED;
      resolvedDependencies := [];
    }
  }

  /** The phases of the wired dependencies, in order. */
  function Phases(deps: seq<ExtensionImpl>): (r: seq<Phase>)
    reads set e | e in deps
    ensures |r| == |deps| && forall i :: 0 <= i < |deps| ==> r[i] == deps[i].phase
  {
    if deps == [] then [] else [deps[0].phase] + Phases(deps[1..])
  }

  /** The manifests of the wired dependencies (manifests never change). */
  function Manifests(deps: seq<ExtensionImpl>): (r: seq<Manifest>)
    ensures |r| == |deps| && forall i :: 0 <= i < |deps| ==> r[i] == deps[i].manifest
  {
    if deps == [] then [] else [deps[0].manifest] + Manifests(deps[1..])
  }

  /** The declared dependencies that are not optional and that no wired
      dependency's manifest matches. */
  function Unresolved(declared: seq<Dependency>, wired: seq<Manifest>): (r: seq<Dependency>)
    ensures forall d :: d in r <==> d in declared && !d.optional && forall m :: m in wired ==> !Matches(d.reference, m)
  {
    if declared == [] then []
    else
      var d := declared[0];
      var rest := Unresolved(declared[1..], wired);
      if !d.optional && forall m :: m in wired ==> !Matches(d.reference, m) then [d] + rest else rest
  }

  /** The wired dependencies whose phase is not LOADED, in order. */
  function NotLoaded(deps: seq<ExtensionImpl>, phases: seq<Phase>): (r: seq<ExtensionImpl>)
    requires |phases| == |deps|
    ensures r == [] <==> forall i :: 0 <= i < |deps| ==> phases[i] == LOADED
    ensures forall i :: 0 <= i < |deps| && phases[i] != LOADED ==> deps[i] in r
  {
    if deps == [] then []
    else
      var rest := NotLoaded(deps[1..], phases[1..]);
      assert forall i :: 1 <= i < |deps| ==> deps[1..][i - 1] == deps[i] && phases[1..][i - 1] == phases[i];
      if phases[0] != LOADED then [deps[0]] + rest else rest
  }

  /** Everything NotLoaded keeps is a wired dependency that is not LOADED. */
  lemma {:induction false} NotLoadedSound(deps: seq<ExtensionImpl>, phases: seq<Phase>, k: nat)
    requires |phases| == |deps| && k < |NotLoaded(deps, phases)|
    ensures exists i :: 0 <= i < |deps| && deps[i] == NotLoaded(deps, phases)[k] && phases[i] != LOADED
  {
    var rest := NotLoaded(deps[1..], phases[1..]);
    if phases[0] != LOADED {
      if k == 0 {
        assert deps[0] == NotLoaded(deps, phases)[k];
      } else {
        NotLoadedSound(deps[1..], phases[1..], k - 1);
        var j :| 0 <= j < |deps| - 1 && deps[1..][j] == rest[k - 1] && phases[1..][j] != LOADED;
        assert deps[j + 1] == NotLoaded(deps, phases)[k];
      }
    } else {
      NotLoadedSound(deps[1..], phases[1..], k);
      var j :| 0 <= j < |deps| - 1 && deps[1..][j] == rest[k] && phases[1..][j] != LOADED;
      assert deps[j + 1] == NotLoaded(deps, phases)[k];
    }
  }

  /** Whether some phase is not RUNNING. */
  predicate NotRunning(phases: seq<Phase>)
  {
    exists p :: p in phases && p != RUNNING
  }

  /** Whether a dependency was wired for an optional declaration. */
  predicate OptionalSource(e: ExtensionImpl, sources: map<ExtensionImpl, Dependency>)
  {
    e in sources && sources[e].optional
  }

  /** The entries without an optional source, in order. */
  function WithoutOptionalSource(es: seq<ExtensionImpl>, sources: map<ExtensionImpl, Dependency>): (r: seq<ExtensionImpl>)
    ensures forall k :: 0 <= k < |r| ==> r[k] in es && !OptionalSource(r[k], sources)
    ensures forall i :: 0 <= i < |es| && !OptionalSource(es[i], sources) ==> es[i] in r
  {
    if es == [] then []
    else
      var rest := WithoutOptionalSource(es[1..], sources);
      if !OptionalSource(es[0], sources) then [es[0]] + rest else rest
  }

  /** MutableList.remove(element): drops the first occurrence, if any. */
  function RemoveFirst<T(==)>(s: seq<T>, x: T): (r: seq<T>)
    ensures x in s ==> |r| == |s| - 1 && multiset(r) == multiset(s) - multiset{x}
    ensures x !in s ==> r == s
  {
    if s == [] then []
    else
      assert s == [s[0]] + s[1..];
      if s[0] == x then s[1..] else [s[0]] + RemoveFirst(s[1..], x)
  }

  /** The lists after visiting `unresolved` in order, dropping each entry whose
      source is optional at the time it is visited, wired list and source map alike. */
  function Dropped(deps: seq<ExtensionImpl>, sources: map<ExtensionImpl, Dependency>, unresolved: seq<ExtensionImpl>)
    : (seq<ExtensionImpl>, map<ExtensionImpl, Dependency>)
    decreases |unresolved|
  {
    if unresolved == [] then (deps, sources)
    else
      var e := unresolved[0];
      if OptionalSource(e, sources)
      then Dropped(RemoveFirst(deps, e), map x | x in sources && x != e :: sources[x], unresolved[1..])
      else Dropped(deps, sources, unresolved[1..])
  }

  /** wireDependency: only while REGISTERED; appends, and records the source
      when one is given. */
  function WireStep(s: ExtState, e: ExtensionImpl, dep: Option<Dependency>): Step
  {
    if s.phase != REGISTERED then Step(Thrown(IllegalState), s)
    else Step(Normal, s.(deps := s.deps + [e], sources := if dep.Some? then s.sources[e := dep.value] else s.sources))
  }

  /** resolve: fails, changing nothing, when a required declared dependency
      has no wired match; otherwise RESOLVED. */
  function ResolveStep(s: ExtState, m: Manifest): Step
  {
    if Unresolved(m.extensionDependencies, Manifests(s.deps)) != [] then Step(Thrown(ResolverError), s)
    else Step(Normal, s.(phase := RESOLVED))
  }

  /** The end of initialize once the lists are dropped: the failure when
      required is not empty, else the loader and LOADED. */
  function Load(s: ExtState, dropped: (seq<ExtensionImpl>, map<ExtensionImpl, Dependency>),
                required: seq<ExtensionImpl>, container: string, loaderFails: bool): Step
  {
    var t := s.(deps := dropped.0, sources := dropped.1);
    if required != [] then Step(Thrown(ResolverError), t)
    else if loaderFails then Step(Thrown(ContainerError), t)
    else Step(Normal, t.(loader := Some(Loader(container)), phase := LOADED))
  }

  function InitializeStepAsWritten(s: ExtState, phases: seq<Phase>, container: string, loaderFails: bool): Step
    requires |phases| == |s.deps|
  {
    if s.context.Some? then Step(Normal, s)
    else
      var unresolved := NotLoaded(s.deps, phases);
      var dropped := Dropped(s.deps, s.sources, unresolved);
      Load(s, dropped, WithoutOptionalSource(unresolved, dropped.1), container, loaderFails)
  }

  function InitializeStep(s: ExtState, phases: seq<Phase>, container: string, loaderFails: bool): Step
    requires |phases| == |s.deps|
  {
    if s.context.Some? then Step(Normal, s)
    else
      var unresolved := NotLoaded(s.deps, phases);
      var dropped := Dropped(s.deps, s.sources, unresolved);
      Load(s, dropped, WithoutOptionalSource(unresolved, s.sources), container, loaderFails)
  }

  /** start: a no-op with a context; fails unless every wired dependency is
      RUNNING, or when the context fails to start, changing nothing either way;
      otherwise the context is set and the phase is RUNNING. */
  function StartStep(s: ExtState, phases: seq<Phase>, parent: nat, startFails: bool, identifier: string): Step
  {
    if s.context.Some? then Step(Normal, s)
    else if NotRunning(phases) then Step(Thrown(ResolverError), s)
    else if startFails then Step(Thrown(ContainerError), s)
    else Step(Normal, s.(context := Some(Context(parent, s.loader, identifier)), phase := RUNNING))
  }

  /** close: no context, no loader, REGISTERED, no wired dependencies; the
      recorded sources stay. */
  function CloseStep(s: ExtState): ExtState
  {
    s.(phase := REGISTERED, deps := [], loader := None, context := None)
  }

  // ---------------------------------------------------------------------
  // Properties

  /** Phase and fields agree: a loader exactly from LOADED on, a context
      exactly when RUNNING, and the context holds the loader. */
  predicate Consistent(s: ExtState)
  {
    s.phase != NONE
    && (s.loader.Some? <==> s.phase in {LOADED, RUNNING})
    && (s.context.Some? <==> s.phase == RUNNING)
    && (s.context.Some? ==> s.context.value.loader == s.loader)
  }

  lemma FreshConsistent()
    ensures Consistent(Fresh)
  {
  }

  /** Wiring is refused outside REGISTERED, changing nothing; in REGISTERED it
      appends the extension and records the source when there is one. */
  lemma WireOnlyWhileRegistered(s: ExtState, e: ExtensionImpl, dep: Option<Dependency>)
    ensures WireStep(s, e, dep).outcome.Normal? <==> s.phase == REGISTERED
    ensures s.phase != REGISTERED ==> WireStep(s, e, dep) == Step(Thrown(IllegalState), s)
    ensures s.phase == REGISTERED ==> WireStep(s, e, dep).state.deps == s.deps + [e]
    ensures s.phase == REGISTERED && dep.Some? ==> WireStep(s, e, dep).state.sources == s.sources[e := dep.value]
  {
  }

  /** resolve fails exactly when some required declared dependency is matched
      by no wired dependency; the state is unchanged on failure and only the
      phase changes, to RESOLVED, on success. */
  lemma ResolveFailsIff(s: ExtState, m: Manifest)
    ensures ResolveStep(s, m).outcome.Thrown? <==>
      exists d :: d in m.extensionDependencies && !d.optional && forall w :: w in Manifests(s.deps) ==> !Matches(d.reference, w)
    ensures ResolveStep(s, m).outcome.Thrown? ==> ResolveStep(s, m).state == s
    ensures ResolveStep(s, m).outcome.Normal? ==> ResolveStep(s, m).state == s.(phase := RESOLVED)
  {
    var u := Unresolved(m.extensionDependencies, Manifests(s.deps));
    if u != [] {
      assert u[0] in u;
    }
  }

  /** With nothing wired, resolve succeeds exactly when every declared
      extension dependency is optional. */
  lemma ResolveUnwired(s: ExtState, m: Manifest)
    requires s.deps == []
    ensures ResolveStep(s, m).outcome.Normal? <==> forall d :: d in m.extensionDependencies ==> d.optional
  {
    ResolveFailsIff(s, m);
  }

  lemma {:induction false} DroppedKeepsOthers(deps: seq<ExtensionImpl>, sources: map<ExtensionImpl, Dependency>, unresolved: seq<ExtensionImpl>, e: ExtensionImpl)
    requires !OptionalSource(e, sources)
    ensures !OptionalSource(e, Dropped(deps, sources, unresolved).1)
    ensures e in sources ==> e in Dropped(deps, sources, unresolved).1 && Dropped(deps, sources, unresolved).1[e] == sources[e]
    decreases |unresolved|
  {
    if unresolved != [] {
      var x := unresolved[0];
      if OptionalSource(x, sources) {
        DroppedKeepsOthers(RemoveFirst(deps, x), map y | y in sources && y != x :: sources[y], unresolved[1..], e);
      } else {
        DroppedKeepsOthers(deps, sources, unresolved[1..], e);
      }
    }
  }

  /** Every visited entry with an optional source loses it. */
  lemma {:induction false} DroppedRemovesOptional(deps: seq<ExtensionImpl>, sources: map<ExtensionImpl, Dependency>, unresolved: seq<ExtensionImpl>, e: ExtensionImpl)
    requires e in unresolved
    ensures !OptionalSource(e, Dropped(deps, sources, unresolved).1)
    decreases |unresolved|
  {
    var x := unresolved[0];
    var next := if OptionalSource(x, sources) then map y | y in sources && y != x :: sources[y] else sources;
    var nextDeps := if OptionalSource(x, sources) then RemoveFirst(deps, x) else deps;
    if x == e {
      if OptionalSource(x, sources) {
        DroppedKeepsOthers(nextDeps, next, unresolved[1..], e);
      } else {
        DroppedKeepsOthers(deps, sources, unresolved[1..], e);
      }
    } else {
      DroppedRemovesOptional(nextDeps, next, unresolved[1..], e);
    }
  }

  /** The sources afterwards are those before, less some visited entries. */
  lemma {:induction false} DroppedSources(deps: seq<ExtensionImpl>, sources: map<ExtensionImpl, Dependency>, unresolved: seq<ExtensionImpl>)
    ensures forall e :: e in Dropped(deps, sources, unresolved).1 ==> e in sources && Dropped(deps, sources, unresolved).1[e] == sources[e]
    ensures forall e :: e in sources && e !in unresolved ==> e in Dropped(deps, sources, unresolved).1
    decreases |unresolved|
  {
    if unresolved != [] {
      var x := unresolved[0];
      if OptionalSource(x, sources) {
        DroppedSources(RemoveFirst(deps, x), map y | y in sources && y != x :: sources[y], unresolved[1..]);
      } else {
        DroppedSources(deps, sources, unresolved[1..]);
      }
    }
  }

  /** As written, initialize counts every dependency that is not LOADED as
      required, the dropped optional ones included: it fails whenever one is
      not LOADED (and there is no context). */
  lemma InitializeAsWrittenFailsIff(s: ExtState, phases: seq<Phase>, container: string, loaderFails: bool)
    requires |phases| == |s.deps| && s.context.None?
    ensures InitializeStepAsWritten(s, phases, container, loaderFails).outcome == Thrown(ResolverError)
        <==> exists i :: 0 <= i < |s.deps| && phases[i] != LOADED
  {
    var unresolved := NotLoaded(s.deps, phases);
    var dropped := Dropped(s.deps, s.sources, unresolved);
    forall e | e in unresolved
      ensures !OptionalSource(e, dropped.1)
    {
      DroppedRemovesOptional(s.deps, s.sources, unresolved, e);
    }
    var required := WithoutOptionalSource(unresolved, dropped.1);
    if unresolved != [] {
      assert unresolved[0] in required;
    }
  }

  /** Corrected, it fails with a resolver error exactly when a dependency
      that is not LOADED lacks an optional source. */
  lemma InitializeFailsIff(s: ExtState, phases: seq<Phase>, container: string, loaderFails: bool)
    requires |phases| == |s.deps| && s.context.None?
    ensures InitializeStep(s, phases, container, loaderFails).outcome == Thrown(ResolverError)
        <==> exists i :: 0 <= i < |s.deps| && phases[i] != LOADED && !OptionalSource(s.deps[i], s.sources)
  {
    var unresolved := NotLoaded(s.deps, phases);
    var required := WithoutOptionalSource(unresolved, s.sources);
    if required != [] {
      var k :| 0 <= k < |unresolved| && unresolved[k] == required[0];
      NotLoadedSound(s.deps, phases, k);
    }
  }

  /** Either way the drop persists whatever the outcome, a context makes it a
      no-op, and success sets the loader and LOADED. */
  lemma InitializeShape(s: ExtState, phases: seq<Phase>, container: string, loaderFails: bool)
    requires |phases| == |s.deps|
    ensures s.context.Some? ==> InitializeStep(s, phases, container, loaderFails) == Step(Normal, s)
    ensures s.context.None? ==>
      var dropped := Dropped(s.deps, s.sources, NotLoaded(s.deps, phases));
      var t := InitializeStep(s, phases, container, loaderFails).state;
      t.deps == dropped.0 && t.sources == dropped.1 && t.context == s.context
    ensures InitializeStep(s, phases, container, loaderFails).outcome.Normal? && s.context.None? ==>
      InitializeStep(s, phases, container, loaderFails).state.phase == LOADED
      && InitializeStep(s, phases, container, loaderFails).state.loader == Some(Loader(container))
    ensures InitializeStep(s, phases, container, loaderFails).outcome.Thrown? ==>
      InitializeStep(s, phases, container, loaderFails).state.phase == s.phase
  {
  }

  /** The two agree when no unresolved dependency has an optional source, and
      the correction only ever turns a resolver failure into progress. */
  lemma InitializeCorrectionAgrees(s: ExtState, phases: seq<Phase>, container: string, loaderFails: bool)
    requires |phases| == |s.deps| && s.context.None?
    requires forall i :: 0 <= i < |s.deps| && phases[i] != LOADED ==> !OptionalSource(s.deps[i], s.sources)
    ensures InitializeStepAsWritten(s, phases, container, loaderFails) == InitializeStep(s, phases, container, loaderFails)
  {
    var unresolved := NotLoaded(s.deps, phases);
    var dropped := Dropped(s.deps, s.sources, unresolved);
    forall e | e in unresolved
      ensures !OptionalSource(e, dropped.1) && !OptionalSource(e, s.sources)
    {
      var k :| 0 <= k < |unresolved| && unresolved[k] == e;
      NotLoadedSound(s.deps, phases, k);
      DroppedKeepsOthers(s.deps, s.sources, unresolved, e);
    }
    var a := WithoutOptionalSource(unresolved, dropped.1);
    var b := WithoutOptionalSource(unresolved, s.sources);
    if a != [] { assert a[0] in b; }
    if b != [] { assert b[0] in a; }
  }

  /** The case the correction exists for: an unwired-in-time optional
      dependency. As written initialize throws; corrected it drops the
      dependency and loads. */
  lemma OptionalDependencyBlocksAsWritten(e: ExtensionImpl, dep: Dependency, container: string)
    requires dep.optional
    ensures var s := ExtState(REGISTERED, [e], map[e := dep], None, None);
      InitializeStepAsWritten(s, [RESOLVED], container, false).outcome == Thrown(ResolverError)
      && InitializeStep(s, [RESOLVED], container, false)
         == Step(Normal, ExtState(LOADED, [], map[], Some(Loader(container)), None))
  {
    var s := ExtState(REGISTERED, [e], map[e := dep], None, None);
    InitializeAsWrittenFailsIff(s, [RESOLVED], container, false);
    assert s.deps[0] == e && s.deps[1..] == [] && [RESOLVED][1..] == [];
    var unresolved := NotLoaded(s.deps, [RESOLVED]);
    assert unresolved == [e];
    assert WithoutOptionalSource(unresolved, s.sources) == [];
    var next := map y | y in s.sources && y != e :: s.sources[y];
    assert next == map[];
    assert RemoveFirst([e], e) == [];
    assert Dropped(s.deps, s.sources, unresolved) == Dropped([], next, []);
  }

  /** start fails, changing nothing, unless every wired dependency is RUNNING;
      it sets the context and RUNNING only when the context starts. */
  lemma StartFailsIff(s: ExtState, phases: seq<Phase>, parent: nat, startFails: bool, identifier: string)
    requires s.context.None?
    ensures StartStep(s, phases, parent, startFails, identifier).outcome.Normal?
        <==> (forall p :: p in phases ==> p == RUNNING) && !startFails
    ensures StartStep(s, phases, parent, startFails, identifier).outcome.Thrown? ==>
        StartStep(s, phases, parent, startFails, identifier).state == s
    ensures StartStep(s, phases, parent, startFails, identifier).outcome.Normal? ==>
        StartStep(s, phases, parent, startFails, identifier).state
          == s.(context := Some(Context(parent, s.loader, identifier)), phase := RUNNING)
  {
  }

  /** close is idempotent, always ends in a consistent REGISTERED state and
      keeps the recorded sources. */
  lemma CloseResets(s: ExtState)
    ensures CloseStep(CloseStep(s)) == CloseStep(s)
    ensures Consistent(CloseStep(s)) && CloseStep(s).phase == REGISTERED
    ensures CloseStep(s).deps == [] && CloseStep(s).sources == s.sources
  {
  }

  /** The steps the manager takes, each from the phase it takes it in, keep
      the phase and the fields consistent. */
  lemma StepsKeepConsistent(s: ExtState, m: Manifest, phases: seq<Phase>, container: string, fails: bool, parent: nat)
    requires Consistent(s) && |phases| == |s.deps|
    ensures s.phase == REGISTERED ==> Consistent(ResolveStep(s, m).state)
    ensures s.phase == RESOLVED ==> Consistent(InitializeStep(s, phases, container, fails).state)
    ensures s.phase == LOADED ==> Consistent(StartStep(s, phases, parent, fails, m.identifier).state)
  {
  }
}
