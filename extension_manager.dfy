/**
 * sink/src/main/kotlin/org/basinmc/sink/plugin/ExtensionManagerImpl.kt: the
 * registry of discovered extensions and the batch passes that resolve, load,
 * start and shut them down, each guarded by a veto-able pre-event.
 *
 * The event bus is a log of posted events plus the set of pre-events its
 * subscribers veto. Whether making an extension's class loader or starting
 * its context fails, the directory listing and the decoded manifests are
 * parameters too.
 */
module SinkExtensionManager {
  import opened JavaLang
  import opened Extensions
  import opened SinkExtension
  import Lifecycle

  /** ExtensionManager.CONTAINER_EXTENSION. */
  const ContainerExtension: string := ".bec"

  datatype EventKind = Registration | Resolve | Load | Run | Shutdown | Removal
  datatype Stage = Pre | Post

  /** A posted event: its kind, Pre or Post, and the extension's container path. */
  datatype Event = Event(kind: EventKind, stage: Stage, path: string)

  /** What the environment decides: the pre-events whose state the bus's
      subscribers vetoed, and the container paths whose class loader or
      context fails. */
  datatype Oracles = Oracles(vetoed: set<Event>, loaderFails: set<string>, startFails: set<string>)

  /** Whether the state a pre-event comes back with still permits the step. */
  predicate Accepts(o: Oracles, e: Event)
  {
    e !in o.vetoed
  }

  /** The three startup passes and shutdown. */
  datatype Pass = ResolvePass | LoadPass | RunPass | ShutdownPass

  /** The phase a pass selects its extensions by. */
  function Source(p: Pass): Phase
  {
    match p
    case ResolvePass => REGISTERED
    case LoadPass => RESOLVED
    case RunPass => LOADED
    case ShutdownPass => RUNNING
  }

  function KindOf(p: Pass): EventKind
  {
    match p
    case ResolvePass => Resolve
    case LoadPass => Load
    case RunPass => Run
    case ShutdownPass => Shutdown
  }

  /** What one pass does to one extension it selected, and the events it posts.
      Shutdown posts Pre, closes and posts Post with no veto. The others post
      Pre and stop there when the bus vetoes; otherwise they take the step and
      post Post when it succeeds. A failed load or start closes the
      extension; a failed resolve only leaves it as it was. Nothing is wired
      by the manager, which is why the dependency phases are empty. */
  function Visit(p: Pass, s: ExtState, m: Manifest, path: string, o: Oracles, parent: nat): (r: (ExtState, seq<Event>))
    requires s.deps == []
    ensures r.0.deps == [] && r.0.sources == s.sources
  {
    var pre := Event(KindOf(p), Pre, path);
    var post := Event(KindOf(p), Post, path);
    if p == ShutdownPass then (CloseStep(s), [pre, post])
    else if !Accepts(o, pre) then (s, [pre])
    else
      var st :=
        if p == ResolvePass then ResolveStep(s, m)
        else if p == LoadPass then InitializeStep(s, [], path, path in o.loaderFails)
        else StartStep(s, [], parent, path in o.startFails, m.identifier);
      if st.outcome.Normal? then (st.state, [pre, post])
      else if p == ResolvePass then (st.state, [pre])
      else (CloseStep(st.state), [pre])
  }

  /** A pass on one extension: a visit when it is in the pass's phase, nothing otherwise. */
  function Advance(p: Pass, s: ExtState, m: Manifest, path: string, o: Oracles, parent: nat): (r: ExtState)
    requires s.deps == []
    ensures r.deps == []
  {
    if s.phase == Source(p) then Visit(p, s, m, path, o, parent).0 else s
  }

  /** The three startup passes in turn. */
  function Startup(s: ExtState, m: Manifest, path: string, o: Oracles, parent: nat): (r: ExtState)
    requires s.deps == []
    ensures r.deps == []
  {
    var s1 := Advance(ResolvePass, s, m, path, o, parent);
    var s2 := Advance(LoadPass, s1, m, path, o, parent);
    Advance(RunPass, s2, m, path, o, parent)
  }

  /** The events a pass posts visiting `order`, whose states are `states`, in order. */
  function PassEvents(p: Pass, order: seq<ExtensionImpl>, states: seq<ExtState>, o: Oracles, parent: nat): seq<Event>
    requires |states| == |order| && forall j :: 0 <= j < |states| ==> states[j].deps == []
  {
    if order == [] then []
    else
      var n := |order| - 1;
      PassEvents(p, order[..n], states[..n], o, parent) + Visit(p, states[n], order[n].manifest, order[n].containerPath, o, parent).1
  }

  /** The events of a pass over one more extension. */
  lemma PassEventsStep(p: Pass, order: seq<ExtensionImpl>, states: seq<ExtState>, i: nat, o: Oracles, parent: nat)
    requires |states| == |order| && forall j :: 0 <= j < |states| ==> states[j].deps == []
    requires i < |order|
    ensures PassEvents(p, order[..i + 1], states[..i + 1], o, parent)
      == PassEvents(p, order[..i], states[..i], o, parent) + Visit(p, states[i], order[i].manifest, order[i].containerPath, o, parent).1
  {
    assert order[..i + 1][..i] == order[..i] && states[..i + 1][..i] == states[..i];
  }

  /** The states of the extensions in `order`. */
  function StatesOf(order: seq<ExtensionImpl>): (r: seq<ExtState>)
    reads set e | e in order
    ensures |r| == |order| && forall j :: 0 <= j < |order| ==> r[j] == order[j].State()
  {
    if order == [] then [] else StatesOf(order[..|order| - 1]) + [order[|order| - 1].State()]
  }

  /** The removal events of one stage for the given paths, in order. */
  function Removals(stage: Stage, paths: seq<string>): (r: seq<Event>)
    ensures |r| == |paths| && forall i :: 0 <= i < |paths| ==> r[i] == Event(Removal, stage, paths[i])
  {
    if paths == [] then [] else Removals(stage, paths[..|paths| - 1]) + [Event(Removal, stage, paths[|paths| - 1])]
  }

  /** sorted() by Extension.compareTo: a stable insertion of each element
      before the first one it compares below. */
  function Sorted(s: seq<ExtensionImpl>): (r: seq<ExtensionImpl>)
    ensures multiset(r) == multiset(s)
  {
    if s == [] then []
    else
      assert s == s[..|s| - 1] + [s[|s| - 1]];
      Insert(s[|s| - 1], Sorted(s[..|s| - 1]))
  }

  function Insert(x: ExtensionImpl, s: seq<ExtensionImpl>): (r: seq<ExtensionImpl>)
    ensures multiset(r) == multiset(s) + multiset{x}
  {
    if s == [] then [x]
    else if CompareExtensions(x.manifest, s[0].manifest) < 0 then [x] + s
    else
      assert s == [s[0]] + s[1..];
      [s[0]] + Insert(x, s[1..])
  }

  predicate Distinct<T(==)>(s: seq<T>)
  {
    forall i, j :: 0 <= i < j < |s| ==> s[i] != s[j]
  }

  /** The extensions in phase `ph`, in registry order (the filter the passes
      start from). */
  function Snapshot(exts: seq<ExtensionImpl>, ph: Phase): (r: seq<ExtensionImpl>)
    reads set e | e in exts
    ensures forall j :: 0 <= j < |r| ==> r[j] in exts && r[j].phase == ph
    ensures forall i :: 0 <= i < |exts| && exts[i].phase == ph ==> exts[i] in r
    ensures Distinct(exts) ==> Distinct(r)
  {
    if exts == [] then []
    else
      var rest := Snapshot(exts[1..], ph);
      assert forall j :: 0 <= j < |rest| ==> rest[j] in exts[1..];
      if exts[0].phase == ph then [exts[0]] + rest else rest
  }

  /** All states carry no wired dependency, as none are wired by the manager. */
  predicate Unwired(states: seq<ExtState>)
  {
    forall j :: 0 <= j < |states| ==> states[j].deps == []
  }

  /** Snapshot over states given as values: the extensions of `exts` whose
      state in `states` is in phase `ph`, in registry order. */
  function Select(exts: seq<ExtensionImpl>, states: seq<ExtState>, ph: Phase): seq<ExtensionImpl>
    requires |states| == |exts|
  {
    if exts == [] then []
    else
      var rest := Select(exts[1..], states[1..], ph);
      if states[0].phase == ph then [exts[0]] + rest else rest
  }

  /** The state `states` gives the first occurrence of `e` in `exts`. */
  function StateIn(e: ExtensionImpl, exts: seq<ExtensionImpl>, states: seq<ExtState>): (r: ExtState)
    requires |states| == |exts|
    ensures Unwired(states) ==> r.deps == []
  {
    if exts == [] then Fresh
    else if exts[0] == e then states[0]
    else StateIn(e, exts[1..], states[1..])
  }

  /** The states of the extensions of `order`, looked up in `exts`. */
  function StatesIn(order: seq<ExtensionImpl>, exts: seq<ExtensionImpl>, states: seq<ExtState>): (r: seq<ExtState>)
    requires |states| == |exts|
    ensures |r| == |order| && (Unwired(states) ==> Unwired(r))
  {
    seq(|order|, j requires 0 <= j < |order| => StateIn(order[j], exts, states))
  }

  /** The events one pass posts over a registry whose states are `states`:
      its sorted snapshot, visited in order. */
  function PassEventsOver(p: Pass, exts: seq<ExtensionImpl>, states: seq<ExtState>, o: Oracles, parent: nat): seq<Event>
    requires |states| == |exts| && Unwired(states)
  {
    var order := Sorted(Select(exts, states, Source(p)));
    PassEvents(p, order, StatesIn(order, exts, states), o, parent)
  }

  /** The states a pass leaves, extension by extension. */
  function AdvanceAll(p: Pass, exts: seq<ExtensionImpl>, states: seq<ExtState>, o: Oracles, parent: nat): (r: seq<ExtState>)
    requires |states| == |exts| && Unwired(states)
    ensures |r| == |exts| && Unwired(r)
    ensures forall i :: 0 <= i < |exts| ==> r[i] == Advance(p, states[i], exts[i].manifest, exts[i].containerPath, o, parent)
  {
    seq(|exts|, i requires 0 <= i < |exts| => Advance(p, states[i], exts[i].manifest, exts[i].containerPath, o, parent))
  }

  /** The states initialize() leaves: every extension through Startup. */
  function StartupAll(exts: seq<ExtensionImpl>, states: seq<ExtState>, o: Oracles, parent: nat): (r: seq<ExtState>)
    requires |states| == |exts| && Unwired(states)
    ensures |r| == |exts| && Unwired(r)
    ensures forall i :: 0 <= i < |exts| ==> r[i] == Startup(states[i], exts[i].manifest, exts[i].containerPath, o, parent)
  {
    AdvanceAll(RunPass, exts, AdvanceAll(LoadPass, exts, AdvanceAll(ResolvePass, exts, states, o, parent), o, parent), o, parent)
  }

  /** The states onStart() leaves over a registry that discovery grew from
      `before`: every extension through Startup, or, when discovery threw,
      the grown states as they are. */
  function StartStates(exts: seq<ExtensionImpl>, before: seq<ExtState>, outcome: Outcome, o: Oracles, parent: nat): (r: seq<ExtState>)
    requires |before| <= |exts| && Unwired(before)
    ensures |r| == |exts|
    ensures forall i :: 0 <= i < |before| ==>
      r[i] == if outcome.Normal? then Startup(before[i], exts[i].manifest, exts[i].containerPath, o, parent) else before[i]
    ensures forall i :: |before| <= i < |exts| ==>
      r[i] == if outcome.Normal? then Startup(Fresh, exts[i].manifest, exts[i].containerPath, o, parent) else Fresh
  {
    var grown := before + FreshStates(|exts| - |before|);
    StartupAllGrown(exts, before, StartupAll(exts, grown, o, parent), o, parent);
    if outcome.Normal? then StartupAll(exts, grown, o, parent) else grown
  }

  /** The events onStart() posts after discovery: initialize()'s, unless
      discovery threw. */
  function StartLog(exts: seq<ExtensionImpl>, before: seq<ExtState>, outcome: Outcome, o: Oracles, parent: nat): seq<Event>
    requires |before| <= |exts| && Unwired(before)
  {
    if outcome.Normal? then StartupEvents(exts, before + FreshStates(|exts| - |before|), o, parent) else []
  }

  /** The events of initialize(): the resolve, load and run passes in turn,
      each over the states the one before left. */
  function StartupEvents(exts: seq<ExtensionImpl>, states: seq<ExtState>, o: Oracles, parent: nat): seq<Event>
    requires |states| == |exts| && Unwired(states)
  {
    var s1 := AdvanceAll(ResolvePass, exts, states, o, parent);
    var s2 := AdvanceAll(LoadPass, exts, s1, o, parent);
    PassEventsOver(ResolvePass, exts, states, o, parent)
    + PassEventsOver(LoadPass, exts, s1, o, parent)
    + PassEventsOver(RunPass, exts, s2, o, parent)
  }

  /** The states of `n` newly registered extensions. */
  function FreshStates(n: nat): (r: seq<ExtState>)
    ensures |r| == n && Unwired(r) && forall j :: 0 <= j < n ==> r[j] == Fresh
  {
    seq(n, _ => Fresh)
  }

  /** Over the registry's own states, Select is the Snapshot filter. */
  lemma {:induction false} SelectIsSnapshot(exts: seq<ExtensionImpl>, ph: Phase)
    ensures Select(exts, StatesOf(exts), ph) == Snapshot(exts, ph)
  {
    if exts != [] {
      SelectIsSnapshot(exts[1..], ph);
      assert StatesOf(exts)[1..] == StatesOf(exts[1..]);
    }
  }

  /** In a registry without duplicates, a member's looked-up state is its own. */
  lemma {:induction false} StateInAt(exts: seq<ExtensionImpl>, states: seq<ExtState>, i: nat)
    requires |states| == |exts| && Distinct(exts) && i < |exts|
    ensures StateIn(exts[i], exts, states) == states[i]
  {
    if i > 0 {
      assert exts[0] != exts[i];
      assert exts[1..][i - 1] == exts[i];
      StateInAt(exts[1..], states[1..], i - 1);
    }
  }

  /** Looking up the members of `order` in the registry gives their states. */
  lemma StatesInOwn(order: seq<ExtensionImpl>, exts: seq<ExtensionImpl>)
    requires Distinct(exts) && forall j :: 0 <= j < |order| ==> order[j] in exts
    ensures StatesIn(order, exts, StatesOf(exts)) == StatesOf(order)
  {
    forall j | 0 <= j < |order|
      ensures StatesIn(order, exts, StatesOf(exts))[j] == StatesOf(order)[j]
    {
      var i :| 0 <= i < |exts| && exts[i] == order[j];
      StateInAt(exts, StatesOf(exts), i);
    }
  }

  /** The shutdown pass posts a Pre and a Post event for every extension it
      visits, in its order, whatever the subscribers decide. */
  lemma {:induction false} ShutdownEventsPaired(order: seq<ExtensionImpl>, states: seq<ExtState>, o: Oracles, parent: nat)
    requires |states| == |order| && Unwired(states)
    ensures |PassEvents(ShutdownPass, order, states, o, parent)| == 2 * |order|
    ensures forall k :: 0 <= k < |order| ==>
      PassEvents(ShutdownPass, order, states, o, parent)[2 * k] == Event(Shutdown, Pre, order[k].containerPath)
      && PassEvents(ShutdownPass, order, states, o, parent)[2 * k + 1] == Event(Shutdown, Post, order[k].containerPath)
  {
    if order != [] {
      var n := |order| - 1;
      ShutdownEventsPaired(order[..n], states[..n], o, parent);
      var front := PassEvents(ShutdownPass, order[..n], states[..n], o, parent);
      var all := PassEvents(ShutdownPass, order, states, o, parent);
      assert all == front + [Event(Shutdown, Pre, order[n].containerPath), Event(Shutdown, Post, order[n].containerPath)];
      forall k | 0 <= k < n
        ensures all[2 * k] == Event(Shutdown, Pre, order[k].containerPath)
        ensures all[2 * k + 1] == Event(Shutdown, Post, order[k].containerPath)
      {
        assert order[..n][k] == order[k];
      }
    }
  }

  /** The shutdown pass over a registry: a Pre and Post pair for each RUNNING
      extension, in the sorted snapshot's order. */
  lemma ShutdownPassEvents(exts: seq<ExtensionImpl>, states: seq<ExtState>, o: Oracles, parent: nat)
    requires |states| == |exts| && Unwired(states)
    ensures var order := Sorted(Select(exts, states, RUNNING));
      |PassEventsOver(ShutdownPass, exts, states, o, parent)| == 2 * |order|
      && forall k :: 0 <= k < |order| ==>
        PassEventsOver(ShutdownPass, exts, states, o, parent)[2 * k] == Event(Shutdown, Pre, order[k].containerPath)
        && PassEventsOver(ShutdownPass, exts, states, o, parent)[2 * k + 1] == Event(Shutdown, Post, order[k].containerPath)
  {
    var order := Sorted(Select(exts, states, RUNNING));
    ShutdownEventsPaired(order, StatesIn(order, exts, states), o, parent);
  }

  /** A pass's events over the registry's own states are those of its forEach
      over the sorted snapshot. */
  lemma PassEventsOverOwn(p: Pass, exts: seq<ExtensionImpl>, order: seq<ExtensionImpl>, o: Oracles, parent: nat)
    requires Distinct(exts) && Unwired(StatesOf(exts)) && Unwired(StatesOf(order))
    requires order == Sorted(Snapshot(exts, Source(p)))
    requires forall j :: 0 <= j < |order| ==> order[j] in exts
    ensures PassEventsOver(p, exts, StatesOf(exts), o, parent) == PassEvents(p, order, StatesOf(order), o, parent)
  {
    SelectIsSnapshot(exts, Source(p));
    StatesInOwn(order, exts);
  }

  /** The three passes in turn: every extension goes through Startup, and
      the log grows by StartupEvents. */
  lemma StartupOf(exts: seq<ExtensionImpl>, s0: seq<ExtState>, s1: seq<ExtState>, s2: seq<ExtState>, s3: seq<ExtState>,
                  e0: seq<Event>, e1: seq<Event>, e2: seq<Event>, e3: seq<Event>, o: Oracles, parent: nat)
    requires |s0| == |exts| && Unwired(s0)
    requires s1 == AdvanceAll(ResolvePass, exts, s0, o, parent) && e1 == e0 + PassEventsOver(ResolvePass, exts, s0, o, parent)
    requires s2 == AdvanceAll(LoadPass, exts, s1, o, parent) && e2 == e1 + PassEventsOver(LoadPass, exts, s1, o, parent)
    requires s3 == AdvanceAll(RunPass, exts, s2, o, parent) && e3 == e2 + PassEventsOver(RunPass, exts, s2, o, parent)
    ensures s3 == StartupAll(exts, s0, o, parent)
    ensures e3 == e0 + StartupEvents(exts, s0, o, parent)
  {
    AppendThree(e0, PassEventsOver(ResolvePass, exts, s0, o, parent), PassEventsOver(LoadPass, exts, s1, o, parent),
      PassEventsOver(RunPass, exts, s2, o, parent));
  }

  /** The states of a registry grown by fresh extensions. */
  lemma StatesOfGrown(exts: seq<ExtensionImpl>, before: seq<ExtState>)
    requires |before| <= |exts|
    requires forall i :: 0 <= i < |before| ==> exts[i].State() == before[i]
    requires forall i :: |before| <= i < |exts| ==> exts[i].State() == Fresh
    ensures StatesOf(exts) == before + FreshStates(|exts| - |before|)
  {
  }

  /** Startup over a registry grown by fresh extensions, old and new part apart. */
  lemma StartupAllGrown(exts: seq<ExtensionImpl>, before: seq<ExtState>, after: seq<ExtState>, o: Oracles, parent: nat)
    requires |before| <= |exts| && Unwired(before)
    requires after == StartupAll(exts, before + FreshStates(|exts| - |before|), o, parent)
    ensures |after| == |exts|
    ensures forall i :: 0 <= i < |before| ==> after[i] == Startup(before[i], exts[i].manifest, exts[i].containerPath, o, parent)
    ensures forall i :: |before| <= i < |exts| ==> after[i] == Startup(Fresh, exts[i].manifest, exts[i].containerPath, o, parent)
  {
    var grown := before + FreshStates(|exts| - |before|);
    forall i | 0 <= i < |before|
      ensures grown[i] == before[i]
    {
    }
    forall i | |before| <= i < |exts|
      ensures grown[i] == Fresh
    {
    }
  }

  /** Logging three runs of events in turn logs their concatenation. */
  lemma AppendThree<T>(log: seq<T>, a: seq<T>, b: seq<T>, c: seq<T>)
    ensures log + a + b + c == log + (a + b + c)
  {
  }

  /** The states a pass leaves, given extension by extension, are AdvanceAll's. */
  lemma AdvanceAllOf(p: Pass, exts: seq<ExtensionImpl>, before: seq<ExtState>, after: seq<ExtState>, o: Oracles, parent: nat)
    requires |before| == |exts| && |after| == |exts| && Unwired(before)
    requires forall i :: 0 <= i < |exts| ==> after[i] == Advance(p, before[i], exts[i].manifest, exts[i].containerPath, o, parent)
    ensures after == AdvanceAll(p, exts, before, o, parent)
  {
  }

  /** Whether a path names an extension container; discover() posts nothing
      for any other file. */
  predicate IsContainer(path: string)
  {
    |path| >= |ContainerExtension| && path[|path| - |ContainerExtension|..] == ContainerExtension
  }

  /** The exceptions discover(path) catches: ExtensionException and its
      subclasses. Any other exception thrown while reading a container escapes
      discover(path), the listing's forEach, and so onStart() and start(). */
  predicate IsExtensionException(e: Exception)
  {
    e == ManifestError || e == AccessError || e == ResolverError || e == ContainerError
  }

  /** discover(path) on the registry's paths and the event log: a registered
      path changes nothing; a container whose reading fails with an
      ExtensionException changes nothing either, while any other failure is
      thrown; otherwise Pre is posted, and when the bus accepts it the path is
      registered and Post is posted. */
  function DiscoverStep(regs: seq<string>, events: seq<Event>, path: string, m: Result<Manifest>,
                        o: Oracles): (seq<string>, seq<Event>, Outcome)
  {
    var pre := Event(Registration, Pre, path);
    if path in regs then (regs, events, Normal)
    else if m.Err? then (regs, events, if IsExtensionException(m.error) then Normal else Thrown(m.error))
    else if Accepts(o, pre) then (regs + [path], events + [pre, Event(Registration, Post, path)], Normal)
    else (regs, events + [pre], Normal)
  }

  /** What reading a container gives: the decoder's manifest or exception for
      the paths the map holds, and ExtensionAccessException (the constructor's
      wrapper of an IOException) for a file that cannot be read. */
  function Decoded(manifests: map<string, Result<Manifest>>, path: string): (r: Result<Manifest>)
    ensures path in manifests ==> r == manifests[path]
    ensures path !in manifests ==> r == Err(AccessError) && IsExtensionException(r.error)
  {
    if path in manifests then manifests[path] else Err(AccessError)
  }

  /** discover(path) for each container of a listing, in order, until one
      throws. */
  function DiscoverAll(regs: seq<string>, events: seq<Event>, listing: seq<string>,
                       manifests: map<string, Result<Manifest>>, o: Oracles): (seq<string>, seq<Event>, Outcome)
  {
    if listing == [] then (regs, events, Normal)
    else
      var last := listing[|listing| - 1];
      var before := DiscoverAll(regs, events, listing[..|listing| - 1], manifests, o);
      if before.2.Thrown? || !IsContainer(last) then before
      else DiscoverStep(before.0, before.1, last, Decoded(manifests, last), o)
  }

  class ExtensionManager {
    /** The parent application context the extensions start under. */
    const parent: nat
    var extensions: seq<ExtensionImpl>
    var registrations: seq<string>
    var events: seq<Event>
    var running: bool

    /** The registry lists agree, no path is registered twice, nothing is
        wired, and every extension's phase agrees with its fields. */
    predicate Valid()
      reads this, set e | e in extensions
    {
      |registrations| == |extensions|
      && (forall i :: 0 <= i < |extensions| ==> registrations[i] == extensions[i].containerPath)
      && Distinct(registrations)
      && forall i :: 0 <= i < |extensions| ==>
           extensions[i].resolvedDependencies == [] && Consistent(extensions[i].State())
    }

    constructor(parent: nat)
      ensures Valid() && this.parent == parent
      ensures extensions == [] && registrations == [] && events == [] && !running
    {
      this.parent := parent;
      extensions := [];
      registrations := [];
      events := [];
      running := false;
    }

    /** Distinct paths make distinct extensions. */
    lemma ExtensionsDistinct()
      requires Valid()
      ensures Distinct(extensions)
    {
    }

    /** discover(path), with the container's manifest, or the failure to read
        it, given; `outcome` says whether it threw. */
    method Discover(path: string, manifest: Result<Manifest>, o: Oracles) returns (outcome: Outcome)
      requires Valid()
      modifies this
      ensures Valid() && running == old(running)
      ensures (registrations, events, outcome) == DiscoverStep(old(registrations), old(events), path, manifest, o)
      ensures |extensions| == |registrations|
      ensures extensions[..|old(extensions)|] == old(extensions)
      ensures |extensions| > |old(extensions)| ==>
        var e := extensions[|extensions| - 1];
        fresh(e) && e.State() == Fresh && e.manifest == manifest.value
    {
      outcome := Normal;
      if path in registrations {
        return;
      }
      if manifest.Err? {
        if !IsExtensionException(manifest.error) {
          outcome := Thrown(manifest.error);
        }
        return;
      }
      var extension := new ExtensionImpl(path, manifest.value);
      FreshConsistent();
      var pre := Event(Registration, Pre, path);
      events := events + [pre];
      if Accepts(o, pre) {
        registrations := registrations + [path];
        extensions := extensions + [extension];
        events := events + [Event(Registration, Post, path)];
        assert events == old(events) + [pre, Event(Registration, Post, path)];
      }
    }

    /** The forEach of discover() over the containers a directory listing
        yields; an exception a container throws ends it. */
    method DiscoverListing(listing: seq<string>, manifests: map<string, Result<Manifest>>, o: Oracles) returns (outcome: Outcome)
      requires Valid()
      modifies this
      ensures Valid() && running == old(running)
      ensures |old(extensions)| <= |extensions|
      ensures (registrations, events, outcome) == DiscoverAll(old(registrations), old(events), listing, manifests, o)
      ensures extensions[..|old(extensions)|] == old(extensions)
      ensures forall i :: |old(extensions)| <= i < |extensions| ==> fresh(extensions[i]) && extensions[i].State() == Fresh
    {
      outcome := Normal;
      var i := 0;
      while i < |listing| && outcome.Normal?
        invariant 0 <= i <= |listing|
        invariant Valid() && running == old(running)
        invariant (registrations, events, outcome) == DiscoverAll(old(registrations), old(events), listing[..i], manifests, o)
        invariant |old(extensions)| <= |extensions| && extensions[..|old(extensions)|] == old(extensions)
        invariant forall k :: |old(extensions)| <= k < |extensions| ==> fresh(extensions[k]) && extensions[k].State() == Fresh
      {
        assert listing[..i + 1][..i] == listing[..i];
        if IsContainer(listing[i]) {
          outcome := Discover(listing[i], Decoded(manifests, listing[i]), o);
        }
        i := i + 1;
      }
      if i < |listing| {
        DiscoverAllStops(old(registrations), old(events), listing[..i], listing[i..], manifests, o);
        assert listing[..i] + listing[i..] == listing;
      } else {
        assert listing[..i] == listing;
      }
    }

    /** One pass's step on one extension. */
    method VisitOne(p: Pass, e: ExtensionImpl, o: Oracles)
      requires e.resolvedDependencies == []
      modifies this, e
      ensures e.State() == Visit(p, old(e.State()), e.manifest, e.containerPath, o, parent).0
      ensures events == old(events) + Visit(p, old(e.State()), e.manifest, e.containerPath, o, parent).1
      ensures extensions == old(extensions) && registrations == old(registrations) && running == old(running)
    {
      var pre := Event(KindOf(p), Pre, e.containerPath);
      var post := Event(KindOf(p), Post, e.containerPath);
      events := events + [pre];
      if p == ShutdownPass {
        e.Close();
        events := events + [post];
        return;
      }
      if !Accepts(o, pre) {
        return;
      }
      var outcome;
      if p == ResolvePass {
        outcome := e.Resolve();
      } else if p == LoadPass {
        outcome := e.Initialize(e.containerPath in o.loaderFails);
      } else {
        outcome := e.Start(parent, e.containerPath in o.startFails);
      }
      if outcome.Normal? {
        events := events + [post];
      } else if p != ResolvePass {
        e.Close();
      }
    }

    /** One pass's forEach over its sorted snapshot: `order` holds each
        extension it visits once. */
    method RunOver(p: Pass, order: seq<ExtensionImpl>, o: Oracles)
      requires Distinct(order)
      requires forall j :: 0 <= j < |order| ==> order[j].resolvedDependencies == []
      modifies this, set e | e in order
      ensures extensions == old(extensions) && registrations == old(registrations) && running == old(running)
      ensures forall j :: 0 <= j < |order| ==>
        order[j].State() == Visit(p, old(order[j].State()), order[j].manifest, order[j].containerPath, o, parent).0
      ensures events == old(events) + PassEvents(p, order, old(StatesOf(order)), o, parent)
    {
      ghost var before := StatesOf(order);
      var i := 0;
      while i < |order|
        invariant 0 <= i <= |order|
        invariant extensions == old(extensions) && registrations == old(registrations) && running == old(running)
        invariant forall j :: 0 <= j < i ==>
          order[j].State() == Visit(p, before[j], order[j].manifest, order[j].containerPath, o, parent).0
        invariant forall j :: i <= j < |order| ==> order[j].State() == before[j]
        invariant events == old(events) + PassEvents(p, order[..i], before[..i], o, parent)
      {
        VisitAt(p, order, before, i, o, old(events));
        i := i + 1;
      }
      assert order[..i] == order && before[..i] == before;
    }

    /** The forEach body for the i-th extension of the snapshot: it advances
        the visited prefix by one. */
    method VisitAt(p: Pass, order: seq<ExtensionImpl>, ghost before: seq<ExtState>, i: nat, o: Oracles, ghost start: seq<Event>)
      requires Distinct(order) && |before| == |order| && i < |order|
      requires forall j :: 0 <= j < |before| ==> before[j].deps == []
      requires forall j :: 0 <= j < i ==>
        order[j].State() == Visit(p, before[j], order[j].manifest, order[j].containerPath, o, parent).0
      requires forall j :: i <= j < |order| ==> order[j].State() == before[j]
      requires events == start + PassEvents(p, order[..i], before[..i], o, parent)
      modifies this, order[i]
      ensures extensions == old(extensions) && registrations == old(registrations) && running == old(running)
      ensures forall j :: 0 <= j < i + 1 ==>
        order[j].State() == Visit(p, before[j], order[j].manifest, order[j].containerPath, o, parent).0
      ensures forall j :: i + 1 <= j < |order| ==> order[j].State() == before[j]
      ensures events == start + PassEvents(p, order[..i + 1], before[..i + 1], o, parent)
    {
      var e := order[i];
      PassEventsStep(p, order, before, i, o, parent);
      VisitOne(p, e, o);
      forall j | 0 <= j < |order| && j != i
        ensures order[j].State() == old(order[j].State())
      {
        assert order[j] != e;
      }
    }

    /** A pass: its sorted snapshot, then its forEach. */
    method PassOf(p: Pass, o: Oracles, ghost before: seq<ExtState>)
      requires Valid() && before == StatesOf(extensions)
      modifies this, set e | e in extensions
      ensures Valid()
      ensures extensions == old(extensions) && registrations == old(registrations) && running == old(running)
      ensures StatesOf(extensions) == AdvanceAll(p, extensions, before, o, parent)
      ensures events == old(events) + PassEventsOver(p, extensions, before, o, parent)
    {
      ExtensionsDistinct();
      var selected := Snapshot(extensions, Source(p));
      var order := Sorted(selected);
      PermutationKeeps(selected, order);
      forall j | 0 <= j < |order|
        ensures order[j] in extensions && order[j].phase == Source(p)
      {
        var k :| 0 <= k < |extensions| && extensions[k] == order[j];
      }
      PassEventsOverOwn(p, extensions, order, o, parent);
      ghost var passEvents := PassEventsOver(p, extensions, before, o, parent);
      PassOver(p, order, o);
      assert events == old(events) + passEvents;
      AdvanceAllOf(p, extensions, before, StatesOf(extensions), o, parent);
    }

    /** The forEach of a pass over its sorted snapshot `order`, seen from the
        registry: the extensions in the pass's phase are those of `order`. */
    method PassOver(p: Pass, order: seq<ExtensionImpl>, o: Oracles)
      requires Valid() && Distinct(order) && order == Sorted(Snapshot(extensions, Source(p)))
      requires forall j :: 0 <= j < |order| ==> order[j] in extensions && order[j].phase == Source(p)
      requires forall k :: 0 <= k < |extensions| && extensions[k].phase == Source(p) ==> extensions[k] in order
      requires Valid()
      modifies this, set e | e in extensions
      ensures Valid()
      ensures extensions == old(extensions) && registrations == old(registrations) && running == old(running)
      ensures forall i :: 0 <= i < |extensions| ==>
        extensions[i].State() == Advance(p, old(extensions[i].State()), extensions[i].manifest, extensions[i].containerPath, o, parent)
      ensures events == old(events) + PassEvents(p, order, old(StatesOf(order)), o, parent)
    {
      ExtensionsDistinct();
      RunOver(p, order, o);
      forall k | 0 <= k < |extensions|
        ensures extensions[k].resolvedDependencies == [] && Consistent(extensions[k].State())
        ensures extensions[k].State() == Advance(p, old(extensions[k].State()), extensions[k].manifest, extensions[k].containerPath, o, parent)
      {
        var e := extensions[k];
        if old(e.phase) == Source(p) {
          var j :| 0 <= j < |order| && order[j] == e;
          VisitKeepsConsistent(p, old(e.State()), e.manifest, e.containerPath, o, parent);
        } else {
          assert e !in order;
        }
      }
    }

    /** initialize(): the resolve, load and run passes in turn. */
    method Initialize(o: Oracles)
      requires Valid()
      modifies this, set e | e in extensions
      ensures Valid()
      ensures extensions == old(extensions) && registrations == old(registrations) && running == old(running)
      ensures StatesOf(extensions) == StartupAll(extensions, old(StatesOf(extensions)), o, parent)
      ensures events == old(events) + StartupEvents(extensions, old(StatesOf(extensions)), o, parent)
    {
      ghost var s0, e0 := StatesOf(extensions), events;
      ghost var s1 := AdvanceAll(ResolvePass, extensions, s0, o, parent);
      PassOf(ResolvePass, o, s0);
      ghost var s2, e1 := AdvanceAll(LoadPass, extensions, s1, o, parent), events;
      PassOf(LoadPass, o, s1);
      ghost var e2 := events;
      PassOf(RunPass, o, s2);
      StartupOf(extensions, s0, s1, s2, StatesOf(extensions), e0, e1, e2, events, o, parent);
    }

    /** shutdown(): the RUNNING extensions are closed, each between its Pre
        and Post event. */
    method ShutdownAll(o: Oracles)
      requires Valid()
      modifies this, set e | e in extensions
      ensures Valid()
      ensures extensions == old(extensions) && registrations == old(registrations) && running == old(running)
      ensures forall i :: 0 <= i < |extensions| ==>
        extensions[i].State() == Advance(ShutdownPass, old(extensions[i].State()), extensions[i].manifest, extensions[i].containerPath, o, parent)
      ensures events == old(events) + PassEventsOver(ShutdownPass, extensions, old(StatesOf(extensions)), o, parent)
    {
      PassOf(ShutdownPass, o, StatesOf(extensions));
    }

    /** The forEach posting one removal event per path. */
    method PostRemovals(stage: Stage, paths: seq<string>)
      modifies this
      ensures events == old(events) + Removals(stage, paths)
      ensures extensions == old(extensions) && registrations == old(registrations) && running == old(running)
    {
      var i := 0;
      while i < |paths|
        invariant 0 <= i <= |paths|
        invariant events == old(events) + Removals(stage, paths[..i])
        invariant extensions == old(extensions) && registrations == old(registrations) && running == old(running)
      {
        assert paths[..i + 1][..i] == paths[..i];
        events := events + [Event(Removal, stage, paths[i])];
        i := i + 1;
      }
      assert paths[..i] == paths;
    }

    /** clearRegistry(): removal Pre for every extension, both lists
        emptied, then removal Post for the same extensions. */
    method ClearRegistry()
      requires Valid()
      modifies this
      ensures Valid() && running == old(running)
      ensures extensions == [] && registrations == []
      ensures events == old(events) + Removals(Pre, old(registrations)) + Removals(Post, old(registrations))
    {
      var paths := registrations;
      PostRemovals(Pre, paths);
      extensions := [];
      registrations := [];
      PostRemovals(Post, paths);
    }

    /** start() with onStart(): discover, initialize, then the flag. An
        exception that escapes discovery is `outcome`; it skips initialize()
        and the flag. */
    method Start(listing: seq<string>, manifests: map<string, Result<Manifest>>, o: Oracles) returns (hookRan: bool, outcome: Outcome)
      requires Valid()
      modifies this, set e | e in extensions
      ensures Valid()
      ensures hookRan <==> !old(running)
      ensures running <==> old(running) || outcome.Normal?
      ensures outcome.Normal? ==> Lifecycle.Toggle(hookRan, running) == Lifecycle.StartStep(old(running))
      ensures !hookRan ==> outcome == Normal && extensions == old(extensions) && registrations == old(registrations) && events == old(events)
      ensures hookRan ==> outcome == DiscoverAll(old(registrations), old(events), listing, manifests, o).2
      ensures hookRan ==> registrations == DiscoverAll(old(registrations), old(events), listing, manifests, o).0
      ensures |old(extensions)| <= |extensions|
      ensures hookRan ==> extensions[..|old(extensions)|] == old(extensions)
      ensures hookRan ==> forall i :: |old(extensions)| <= i < |extensions| ==> fresh(extensions[i])
      ensures hookRan ==>
        StatesOf(extensions) == StartStates(extensions, old(StatesOf(extensions)), outcome, o, parent)
      ensures hookRan ==>
        events == DiscoverAll(old(registrations), old(events), listing, manifests, o).1
          + StartLog(extensions, old(StatesOf(extensions)), outcome, o, parent)
    {
      hookRan := false;
      outcome := Normal;
      if running {
        return;
      }
      outcome := OnStart(listing, manifests, o);
      hookRan := true;
    }

    /** The base onStart() and onStop() of the lifecycle service: the flag's write. */
    method MarkRunning(flag: bool)
      requires Valid()
      modifies this
      ensures Valid() && running == flag
      ensures extensions == old(extensions) && registrations == old(registrations) && events == old(events)
      ensures StatesOf(extensions) == old(StatesOf(extensions))
    {
      running := flag;
    }

    /** onStart(): discovery over the listing, then, unless discovery threw,
        initialize() and the flag. */
    method OnStart(listing: seq<string>, manifests: map<string, Result<Manifest>>, o: Oracles) returns (outcome: Outcome)
      requires Valid()
      modifies this, set e | e in extensions
      ensures Valid()
      ensures outcome == DiscoverAll(old(registrations), old(events), listing, manifests, o).2
      ensures running == if outcome.Normal? then true else old(running)
      ensures registrations == DiscoverAll(old(registrations), old(events), listing, manifests, o).0
      ensures |old(extensions)| <= |extensions|
      ensures extensions[..|old(extensions)|] == old(extensions)
      ensures forall i :: |old(extensions)| <= i < |extensions| ==> fresh(extensions[i])
      ensures StatesOf(extensions) == StartStates(extensions, old(StatesOf(extensions)), outcome, o, parent)
      ensures events == DiscoverAll(old(registrations), old(events), listing, manifests, o).1
        + StartLog(extensions, old(StatesOf(extensions)), outcome, o, parent)
    {
      outcome := DiscoverThenInitialize(listing, manifests, o);
      MarkRunning(outcome.Normal? || running);
    }

    /** onStart()'s discovery seen through the states: the registry grows by
        fresh extensions only. */
    method DiscoverFresh(listing: seq<string>, manifests: map<string, Result<Manifest>>, o: Oracles) returns (outcome: Outcome)
      requires Valid()
      modifies this
      ensures Valid() && running == old(running)
      ensures (registrations, events, outcome) == DiscoverAll(old(registrations), old(events), listing, manifests, o)
      ensures |old(extensions)| <= |extensions| && extensions[..|old(extensions)|] == old(extensions)
      ensures forall i :: |old(extensions)| <= i < |extensions| ==> fresh(extensions[i])
      ensures StatesOf(extensions) == old(StatesOf(extensions)) + FreshStates(|extensions| - |old(extensions)|)
    {
      outcome := DiscoverListing(listing, manifests, o);
      StatesOfGrown(extensions, old(StatesOf(extensions)));
    }

    /** onStart()'s discovery and, unless it threw, initialize(). */
    method DiscoverThenInitialize(listing: seq<string>, manifests: map<string, Result<Manifest>>, o: Oracles) returns (outcome: Outcome)
      requires Valid()
      modifies this, set e | e in extensions
      ensures Valid() && running == old(running)
      ensures outcome == DiscoverAll(old(registrations), old(events), listing, manifests, o).2
      ensures registrations == DiscoverAll(old(registrations), old(events), listing, manifests, o).0
      ensures |old(extensions)| <= |extensions|
      ensures extensions[..|old(extensions)|] == old(extensions)
      ensures forall i :: |old(extensions)| <= i < |extensions| ==> fresh(extensions[i])
      ensures StatesOf(extensions) == StartStates(extensions, old(StatesOf(extensions)), outcome, o, parent)
      ensures events == DiscoverAll(old(registrations), old(events), listing, manifests, o).1
        + StartLog(extensions, old(StatesOf(extensions)), outcome, o, parent)
    {
      outcome := DiscoverFresh(listing, manifests, o);
      if outcome.Normal? {
        Initialize(o);
      }
    }

    /** stop() with onStop(): shut down, clear the registry, then the flag. */
    method Stop(o: Oracles) returns (hookRan: bool)
      requires Valid()
      modifies this, set e | e in extensions
      ensures Valid()
      ensures Lifecycle.Toggle(hookRan, running) == Lifecycle.StopStep(old(running))
      ensures !hookRan ==> extensions == old(extensions) && registrations == old(registrations) && events == old(events)
      ensures hookRan ==> extensions == [] && registrations == []
      ensures hookRan ==> forall i :: 0 <= i < |old(extensions)| ==>
        old(extensions[i]).State() == Advance(ShutdownPass, old(extensions[i].State()), old(extensions[i]).manifest, old(extensions[i]).containerPath, o, parent)
      ensures hookRan ==>
        events == old(events) + PassEventsOver(ShutdownPass, old(extensions), old(StatesOf(extensions)), o, parent)
          + Removals(Pre, old(registrations)) + Removals(Post, old(registrations))
    {
      hookRan := false;
      if !running {
        return;
      }
      ShutdownAll(o);
      ClearRegistry();
      MarkRunning(false);
      hookRan := true;
    }
  }

  // ---------------------------------------------------------------------
  // Properties

  /** A multiset-preserving rearrangement keeps membership and distinctness. */
  lemma PermutationKeeps<T>(a: seq<T>, b: seq<T>)
    requires multiset(a) == multiset(b) && Distinct(a)
    ensures Distinct(b)
    ensures forall x :: x in a <==> x in b
    ensures forall j :: 0 <= j < |b| ==> b[j] in a
  {
    forall x
      ensures x in a <==> x in b
    {
      assert x in a <==> x in multiset(a);
      assert x in b <==> x in multiset(b);
    }
    forall i, j | 0 <= i < j < |b|
      ensures b[i] != b[j]
    {
      if b[i] == b[j] {
        TwiceCounted(b, i, j);
        DistinctCountedOnce(a, b[i]);
      }
    }
  }

  lemma {:induction false} TwiceCounted<T>(s: seq<T>, i: nat, j: nat)
    requires i < j < |s| && s[i] == s[j]
    ensures multiset(s)[s[i]] >= 2
  {
    assert s == s[..j] + s[j..];
    assert s[i] in s[..j];
    assert s[j] in s[j..];
    assert multiset(s) == multiset(s[..j]) + multiset(s[j..]);
  }

  lemma {:induction false} DistinctCountedOnce<T>(s: seq<T>, x: T)
    requires Distinct(s)
    ensures multiset(s)[x] <= 1
  {
    if s != [] {
      assert s == [s[0]] + s[1..];
      assert Distinct(s[1..]);
      DistinctCountedOnce(s[1..], x);
      if x == s[0] {
        assert x !in s[1..];
      }
    }
  }

  /** A visit from the pass's own phase keeps the phase and the fields
      consistent. */
  lemma VisitKeepsConsistent(p: Pass, s: ExtState, m: Manifest, path: string, o: Oracles, parent: nat)
    requires s.deps == [] && Consistent(s) && s.phase == Source(p)
    ensures Consistent(Visit(p, s, m, path, o, parent).0)
  {
    StepsKeepConsistent(s, m, [], path, path in o.loaderFails, parent);
    if p == RunPass {
      StepsKeepConsistent(s, m, [], path, path in o.startFails, parent);
    }
  }

  /** shutdown closes exactly the RUNNING extensions, posting Shutdown Pre
      and Post for each; one left LOADED by a veto or RESOLVED keeps its
      loader, or its phase, when stop() then drops it from the registry. */
  lemma ShutdownClosesRunning(s: ExtState, m: Manifest, path: string, o: Oracles, parent: nat)
    requires s.deps == []
    ensures s.phase == RUNNING ==> Advance(ShutdownPass, s, m, path, o, parent) == CloseStep(s)
    ensures Visit(ShutdownPass, s, m, path, o, parent).1 == [Event(Shutdown, Pre, path), Event(Shutdown, Post, path)]
    ensures s.phase != RUNNING ==> Advance(ShutdownPass, s, m, path, o, parent) == s
  {
  }

  /** Advance touches only extensions in the pass's phase; a vetoed pre-event
      leaves the extension as it was with Pre as the only event; Post is
      posted exactly when the step succeeds. */
  lemma VisitVeto(p: Pass, s: ExtState, m: Manifest, path: string, o: Oracles, parent: nat)
    requires s.deps == []
    ensures s.phase != Source(p) ==> Advance(p, s, m, path, o, parent) == s
    ensures p != ShutdownPass && !Accepts(o, Event(KindOf(p), Pre, path)) ==>
      Visit(p, s, m, path, o, parent) == (s, [Event(KindOf(p), Pre, path)])
    ensures Visit(p, s, m, path, o, parent).1[0] == Event(KindOf(p), Pre, path)
    ensures Event(KindOf(p), Post, path) in Visit(p, s, m, path, o, parent).1 <==>
      p == ShutdownPass
      || (Accepts(o, Event(KindOf(p), Pre, path))
          && (if p == ResolvePass then ResolveStep(s, m)
              else if p == LoadPass then InitializeStep(s, [], path, path in o.loaderFails)
              else StartStep(s, [], parent, path in o.startFails, m.identifier)).outcome.Normal?)
  {
  }

  /** The resolve pass: a REGISTERED extension ends RESOLVED exactly when the
      bus accepts and every declared extension dependency is optional (the
      manager wires none); otherwise it stays as it was. */
  lemma ResolvePassOutcome(s: ExtState, m: Manifest, path: string, o: Oracles, parent: nat)
    requires s.deps == [] && s.phase == REGISTERED
    ensures var r := Advance(ResolvePass, s, m, path, o, parent);
      (r == s.(phase := RESOLVED) <==> Accepts(o, Event(Resolve, Pre, path)) && forall d :: d in m.extensionDependencies ==> d.optional)
      && (r == s || r == s.(phase := RESOLVED))
  {
    ResolveUnwired(s, m);
    ResolveFailsIff(s, m);
  }

  /** The load pass: a consistent RESOLVED extension ends LOADED with its
      loader when the bus accepts and the loader is made; a failed loader
      closes it; a veto leaves it RESOLVED. */
  lemma LoadPassOutcome(s: ExtState, m: Manifest, path: string, o: Oracles, parent: nat)
    requires s.deps == [] && s.phase == RESOLVED && Consistent(s)
    ensures var r := Advance(LoadPass, s, m, path, o, parent);
      var accepted := Accepts(o, Event(Load, Pre, path));
      (accepted && path !in o.loaderFails ==> r == s.(phase := LOADED, loader := Some(Loader(path))))
      && (accepted && path in o.loaderFails ==> r == CloseStep(s))
      && (!accepted ==> r == s)
  {
  }

  /** The run pass: a consistent LOADED extension ends RUNNING under the
      manager's context when the bus accepts and the context starts; a failed
      start closes it; a veto leaves it LOADED. */
  lemma RunPassOutcome(s: ExtState, m: Manifest, path: string, o: Oracles, parent: nat)
    requires s.deps == [] && s.phase == LOADED && Consistent(s)
    ensures var r := Advance(RunPass, s, m, path, o, parent);
      var accepted := Accepts(o, Event(Run, Pre, path));
      (accepted && path !in o.startFails ==> r == s.(phase := RUNNING, context := Some(Context(parent, s.loader, m.identifier))))
      && (accepted && path in o.startFails ==> r == CloseStep(s))
      && (!accepted ==> r == s)
  {
  }

  /** A freshly registered extension ends startup RUNNING exactly when all
      three pre-events are accepted, every declared extension dependency is
      optional, and neither the loader nor the context fails. */
  lemma StartupRunsIff(m: Manifest, path: string, o: Oracles, parent: nat)
    ensures Startup(Fresh, m, path, o, parent).phase == RUNNING <==>
      Accepts(o, Event(Resolve, Pre, path)) && (forall d :: d in m.extensionDependencies ==> d.optional)
      && Accepts(o, Event(Load, Pre, path)) && path !in o.loaderFails
      && Accepts(o, Event(Run, Pre, path)) && path !in o.startFails
    ensures Consistent(Startup(Fresh, m, path, o, parent))
  {
    var s1 := Advance(ResolvePass, Fresh, m, path, o, parent);
    ResolvePassOutcome(Fresh, m, path, o, parent);
    if s1.phase == RESOLVED {
      LoadPassOutcome(s1, m, path, o, parent);
      var s2 := Advance(LoadPass, s1, m, path, o, parent);
      if s2.phase == LOADED {
        RunPassOutcome(s2, m, path, o, parent);
      }
    }
  }

  /** discover(path) never registers a path twice and keeps the registered
      paths; it registers a new path exactly when the manifest decodes and the
      bus accepts the Pre event, and it throws exactly when reading a new
      path fails with an exception other than an ExtensionException, changing
      nothing then. */
  lemma DiscoverStepRegisters(regs: seq<string>, events: seq<Event>, path: string, m: Result<Manifest>, o: Oracles)
    requires Distinct(regs)
    ensures var d := DiscoverStep(regs, events, path, m, o);
      Distinct(d.0) && d.0[..|regs|] == regs
      && (path in d.0 <==> path in regs || (m.Ok? && Accepts(o, Event(Registration, Pre, path))))
      && (path in regs ==> d == (regs, events, Normal))
      && (d.2.Thrown? <==> path !in regs && m.Err? && !IsExtensionException(m.error))
      && (d.2.Thrown? ==> d == (regs, events, Thrown(m.error)))
  {
  }

  /** Once a container has thrown, the rest of the listing is not looked at. */
  lemma {:induction false} DiscoverAllStops(regs: seq<string>, events: seq<Event>, a: seq<string>, b: seq<string>,
                                            manifests: map<string, Result<Manifest>>, o: Oracles)
    requires DiscoverAll(regs, events, a, manifests, o).2.Thrown?
    ensures DiscoverAll(regs, events, a + b, manifests, o) == DiscoverAll(regs, events, a, manifests, o)
  {
    if b != [] {
      var init := b[..|b| - 1];
      DiscoverAllStops(regs, events, a, init, manifests, o);
      assert (a + b)[..|a + b| - 1] == a + init;
      assert DiscoverAll(regs, events, a + b, manifests, o) == DiscoverAll(regs, events, a + init, manifests, o);
    } else {
      assert a + b == a;
    }
  }

  /** A new container whose reading throws something other than an
      ExtensionException ends discovery with that exception: nothing after
      it is discovered, and the registry and log are those before it. */
  lemma DiscoverEscapesAt(regs: seq<string>, events: seq<Event>, a: seq<string>, x: string, b: seq<string>,
                          manifests: map<string, Result<Manifest>>, o: Oracles)
    requires DiscoverAll(regs, events, a, manifests, o).2.Normal?
    requires IsContainer(x) && x !in DiscoverAll(regs, events, a, manifests, o).0
    requires Decoded(manifests, x).Err? && !IsExtensionException(Decoded(manifests, x).error)
    ensures var d := DiscoverAll(regs, events, a, manifests, o);
      DiscoverAll(regs, events, a + [x] + b, manifests, o) == (d.0, d.1, Thrown(Decoded(manifests, x).error))
  {
    assert (a + [x])[..|a + [x]| - 1] == a;
    DiscoverAllStops(regs, events, a + [x], b, manifests, o);
  }

  /** A listing whose first container carries an unparsable version: the
      decoder's IllegalArgumentException escapes, and the well-formed second
      container is never registered. */
  lemma MalformedFirstStops(m: Manifest, o: Oracles)
    ensures DiscoverAll([], [], ["a.bec", "b.bec"], map["a.bec" := Err(IllegalArgument), "b.bec" := Ok(m)], o)
         == ([], [], Thrown(IllegalArgument))
  {
    var manifests := map["a.bec" := Err(IllegalArgument), "b.bec" := Ok(m)];
    assert IsContainer("a.bec") && IsContainer("b.bec");
    DiscoverEscapesAt([], [], [], "a.bec", ["b.bec"], manifests, o);
    assert [] + ["a.bec"] + ["b.bec"] == ["a.bec", "b.bec"];
  }

  /** After a listing is discovered the registry holds the paths it held
      before and only listed containers that decode and whose Pre event is
      accepted, each once; when no container threw, it holds every such
      container. Discovery throws only an exception some listed container's
      reading gave, never an ExtensionException, and always when every
      failing container failed otherwise and none was registered before. */
  lemma {:induction false} DiscoverAllRegisters(regs: seq<string>, events: seq<Event>, listing: seq<string>,
                                                manifests: map<string, Result<Manifest>>, o: Oracles)
    requires Distinct(regs)
    ensures var d := DiscoverAll(regs, events, listing, manifests, o);
      Distinct(d.0) && |d.0| >= |regs| && d.0[..|regs|] == regs
      && (forall x :: x in d.0 ==>
            x in regs || (x in listing && IsContainer(x) && Decoded(manifests, x).Ok? && Accepts(o, Event(Registration, Pre, x))))
      && (d.2.Normal? ==> forall x :: x in listing && IsContainer(x) && Decoded(manifests, x).Ok? && Accepts(o, Event(Registration, Pre, x)) ==> x in d.0)
      && (d.2.Thrown? ==>
            !IsExtensionException(d.2.error) && exists x :: x in listing && IsContainer(x) && Decoded(manifests, x) == Err(d.2.error))
      && ((forall x :: x in listing && IsContainer(x) && Decoded(manifests, x).Err? ==> IsExtensionException(Decoded(manifests, x).error))
            ==> d.2.Normal?)
  {
    if listing != [] {
      var last := listing[|listing| - 1];
      var init := listing[..|listing| - 1];
      DiscoverAllRegisters(regs, events, init, manifests, o);
      var before := DiscoverAll(regs, events, init, manifests, o);
      assert listing == init + [last];
      assert forall x :: x in init ==> x in listing;
      if before.2.Normal? && IsContainer(last) {
        DiscoverStepRegisters(before.0, before.1, last, Decoded(manifests, last), o);
        var r := DiscoverStep(before.0, before.1, last, Decoded(manifests, last), o).0;
        assert r[..|before.0|] == before.0;
        assert r[..|regs|] == before.0[..|regs|];
      }
    }
  }

  /** clearRegistry posts a Pre and a Post removal event for each registered
      path, every Pre before every Post. */
  lemma RemovalsPaired(paths: seq<string>)
    ensures var ev := Removals(Pre, paths) + Removals(Post, paths);
      |ev| == 2 * |paths|
      && forall i :: 0 <= i < |paths| ==> ev[i] == Event(Removal, Pre, paths[i]) && ev[|paths| + i] == Event(Removal, Post, paths[i])
  {
  }
}
