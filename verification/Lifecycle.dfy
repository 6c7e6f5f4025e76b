/** Installed packages over whole runs (snix-redox/src/install.rs). */
module Lifecycle {
  // A run is any sequence of commands. Fetches may stop part-way, sweeps may abort, the
  // manifest save and the root link may fail. What is installed keeps its closure exactly while
  // it is live at every collection; it is live while its root link is in place, and for every
  // command the exact condition under which it keeps that link is given.

  import opened Graph
  import opened Store
  import opened GcProperties
  import opened Fetch

  type Profile = map<string, StorePath>

  datatype State = State(records: Records, disk: set<StorePath>, roots: Roots, profile: Profile)

  /** What a command finds outside the system: the package index and the cache. They may be
      different for every command of a run. */
  datatype World = World(index: map<string, StorePath>, cache: Cache)

  /** How replacing a root link can end: linked, old link gone and no new one, or nothing done. */
  datatype RootOutcome = Linked | LinkLost | LinkKept

  /** How saving the manifest can end: saved, not written at all, or cut short. A manifest that was
      cut short cannot be read and counts as empty from then on. */
  datatype SaveOutcome = Saved | Unsaved | CutShort

  datatype Command =
    | FetchPath(path: StorePath, fetchFaults: map<StorePath, FetchFault>)
    | Install(name: string, fetchFaults: map<StorePath, FetchFault>, linkFails: bool, save: SaveOutcome,
              rootOutcome: RootOutcome)
    | Remove(name: string, unlinkFails: bool, rootStuck: bool, save: SaveOutcome)
    | Collect(dryRun: bool, sweepFaults: map<StorePath, SweepFault>)
    | AddRoot(rootName: string, path: StorePath)
    | DropRoot(rootName: string)

  function RootName(name: string): string {
    "profile-" + name
  }

  lemma RootNamesDiffer(a: string, b: string)
    ensures RootName(a) == RootName(b) <==> a == b
  {
    assert RootName(a)[8..] == a && RootName(b)[8..] == b;
  }

  // ----- The commands as relations between states -----

  /** A path is registered and on disk with everything it needs. */
  ghost predicate Has(s: State, p: StorePath) {
    ClosurePresent(s.records, s.disk, p)
  }

  function RootsAfter(roots: Roots, name: string, p: StorePath, o: RootOutcome): Roots {
    match o
    case Linked => roots[RootName(name) := p]
    case LinkLost => roots - {RootName(name)}
    case LinkKept => roots
  }

  function ProfileAfter(before: Profile, after: Profile, o: SaveOutcome): Profile {
    match o
    case Saved => after
    case Unsaved => before
    case CutShort => map[]
  }

  /** A path can be fetched with everything it needs. */
  ghost predicate CanFetch(w: World, s: State, c: Command, p: StorePath)
    requires c.FetchPath? || c.Install?
  {
    AllObtainable(s.records, s.disk, w.cache, c.fetchFaults, p)
  }

  /** The installation reaches the save: the package is known, not installed and can be fetched and linked. */
  ghost predicate WillLink(w: World, s: State, c: Command)
    requires c.Install?
  {
    c.name in w.index && c.name !in s.profile && !c.linkFails && CanFetch(w, s, c, w.index[c.name])
  }

  /** The package was fetched with its closure and linked; the save and the root link follow. */
  ghost predicate Linking(w: World, s: State, c: Command, s': State)
    requires c.Install? && c.name in w.index
  {
    && s'.profile == ProfileAfter(s.profile, s.profile[c.name := w.index[c.name]], c.save)
    && s'.roots == if c.save.Saved? then RootsAfter(s.roots, c.name, w.index[c.name], c.rootOutcome) else s.roots
  }

  /** Everything dead is gone and nothing else. */
  ghost predicate CollectFinished(s: State, s': State) {
    Finished(s.records, s.disk, s.roots, s'.records, s'.disk)
  }

  ghost predicate Collecting(s: State, c: Command, s': State)
    requires c.Collect?
  {
    && Swept(s.records, s.disk, s.roots, s'.records, s'.disk) && WellKeyed(s'.records)
    && (c.dryRun ==> s'.records == s.records && s'.disk == s.disk)
    && (!c.dryRun && !SweepFails(s.records, s.disk, s.roots, c.sweepFaults) ==> CollectFinished(s, s'))
  }

  /** Records and files after fetching, among the paths in play. */
  ghost predicate Fetched(u: set<StorePath>, w: World, s: State, s': State) {
    Acquired(w.cache, s.records, s.disk, s'.records, s'.disk) && Universe(u, s'.records, w.cache)
  }

  ghost predicate Step(u: set<StorePath>, w: World, s: State, c: Command, s': State) {
    match c
    case FetchPath(path, _) =>
      && path in u && Fetched(u, w, s, s') && s'.roots == s.roots && s'.profile == s.profile
      && (CanFetch(w, s, c, path) ==> Has(s', path))
    case Install(_, _, _, _, _) =>
      && Fetched(u, w, s, s')
      && (c.name in w.index && CanFetch(w, s, c, w.index[c.name]) ==> Has(s', w.index[c.name]))
      && if WillLink(w, s, c) then Linking(w, s, c, s') else s'.profile == s.profile && s'.roots == s.roots
    case Remove(name, unlinkFails, rootStuck, save) =>
      && s'.records == s.records && s'.disk == s.disk
      && (if name !in s.profile || unlinkFails then s'.profile == s.profile && s'.roots == s.roots
          else
            && s'.roots == (if rootStuck then s.roots else s.roots - {RootName(name)})
            && s'.profile == ProfileAfter(s.profile, s.profile - {name}, save))
    case Collect(_, _) =>
      Collecting(s, c, s') && s'.roots == s.roots && s'.profile == s.profile
    case AddRoot(rootName, path) =>
      s' == if path.StorePath? then s.(roots := s.roots[rootName := path]) else s
    case DropRoot(rootName) =>
      s' == s.(roots := s.roots - {rootName})
  }

  // ----- What a command reports -----

  /** The command will report success. */
  ghost predicate Succeeds(w: World, s: State, c: Command) {
    match c
    case FetchPath(path, _) => CanFetch(w, s, c, path)
    case Install(name, _, linkFails, save, rootOutcome) =>
      && name in w.index && CanFetch(w, s, c, w.index[name])
      && (name in s.profile || (!linkFails && save.Saved? && rootOutcome.Linked?))
    case Remove(name, unlinkFails, _, save) => name in s.profile && !unlinkFails && save.Saved?
    case Collect(dryRun, _) => dryRun || !SweepFails(s.records, s.disk, s.roots, c.sweepFaults)
    case AddRoot(_, path) => path.StorePath?
    case DropRoot(rootName) => rootName in s.roots
  }

  /** What was asked for is there. */
  ghost predicate Achieved(w: World, s: State, c: Command, s': State) {
    match c
    case FetchPath(path, _) => Has(s', path)
    case Install(name, _, _, _, _) =>
      && name in w.index && Has(s', w.index[name]) && name in s'.profile
      && (name !in s.profile ==> s'.profile[name] == w.index[name] && Rooted(s', name))
    case Remove(name, _, _, _) => name !in s'.profile && s'.profile == s.profile - {name}
    case Collect(dryRun, _) => dryRun || CollectFinished(s, s')
    case AddRoot(rootName, path) => rootName in s'.roots && s'.roots[rootName] == path
    case DropRoot(rootName) => rootName !in s'.roots
  }

  /** A command that reports success has done what it was asked for. */
  lemma SuccessAchieves(u: set<StorePath>, w: World, s: State, c: Command, s': State)
    requires Step(u, w, s, c, s') && Succeeds(w, s, c)
    ensures Achieved(w, s, c, s')
  {
  }

  // ----- What a command may touch -----

  /** The command gets as far as saving the manifest. */
  ghost predicate Saves(w: World, s: State, c: Command) {
    (c.Install? && WillLink(w, s, c)) || (c.Remove? && c.name in s.profile && !c.unlinkFails)
  }

  /** The root links that a command may change: an installation touches the link of its package only
      after the manifest is saved, a removal before that. */
  ghost predicate MayChangeRoot(w: World, s: State, c: Command, root: string) {
    match c
    case Install(name, _, _, save, _) => root == RootName(name) && Saves(w, s, c) && save.Saved?
    case Remove(name, _, rootStuck, _) => root == RootName(name) && Saves(w, s, c) && !rootStuck
    case AddRoot(rootName, path) => root == rootName && path.StorePath?
    case DropRoot(rootName) => root == rootName
    case _ => false
  }

  ghost predicate SameRoot(s: State, s': State, root: string) {
    (root in s.roots <==> root in s'.roots) && (root in s.roots ==> s'.roots[root] == s.roots[root])
  }

  /** What a command leaves alone, and what saving does to the manifest: nothing, the one package, or
      everything is lost. */
  lemma CommandFootprint(u: set<StorePath>, w: World, s: State, c: Command, s': State, root: string, n: string)
    requires Step(u, w, s, c, s')
    ensures !MayChangeRoot(w, s, c, root) ==> SameRoot(s, s', root)
    ensures !Saves(w, s, c) || c.save.Unsaved? ==> s'.profile == s.profile
    ensures Saves(w, s, c) && c.save.CutShort? ==> s'.profile == map[]
    ensures Saves(w, s, c) && c.save.Saved? ==> (c.Install? <==> c.name in s'.profile)
    ensures Saves(w, s, c) && c.save.Saved? && n != c.name ==>
              (n in s'.profile <==> n in s.profile) && (n in s.profile ==> s'.profile[n] == s.profile[n])
    ensures c.Remove? || c.AddRoot? || c.DropRoot? ==> s'.records == s.records && s'.disk == s.disk
  {
  }

  // ----- What every command keeps -----

  /** Records and installed packages are among the paths in play, of which no two share a digest.
      Roots may point anywhere. */
  ghost predicate Inv(u: set<StorePath>, s: State) {
    && Universe(u, s.records, map[])
    && (forall n :: n in s.profile ==> s.profile[n] in u)
  }

  /** Index and cache advertise paths in play only. */
  ghost predicate Offers(u: set<StorePath>, w: World) {
    && (forall n :: n in w.index ==> w.index[n] in u)
    && (forall h, r :: h in w.cache && r in w.cache[h].references ==> r in u)
  }

  lemma InPlay(u: set<StorePath>, w: World, s: State)
    requires Inv(u, s) && Offers(u, w)
    ensures Universe(u, s.records, w.cache)
  {
  }

  /** Every command, whatever fails inside it, stays among the paths in play. */
  lemma StepKeepsInv(u: set<StorePath>, w: World, s: State, c: Command, s': State)
    requires Inv(u, s) && Offers(u, w) && Step(u, w, s, c, s')
    ensures Inv(u, s')
  {
  }

  function Empty(): State {
    State(map[], {}, map[], map[])
  }

  ghost predicate Live(s: State, p: StorePath) {
    IsLive(s.records, s.roots, p)
  }

  /** A closure outlives every command but a collection, every collection while it is live, and a
      finished collection only then. */
  lemma StepKeepsClosure(u: set<StorePath>, w: World, s: State, c: Command, s': State, p: StorePath)
    requires Inv(u, s) && Offers(u, w) && Step(u, w, s, c, s') && p in u && Has(s, p)
    ensures !c.Collect? || c.dryRun || Live(s, p) ==> Has(s', p)
    ensures c.Collect? && CollectFinished(s, s') ==> (Has(s', p) <==> Live(s, p))
  {
    match c
    case FetchPath(_, _) =>
      AcquiredKeepsClosure(s.records, s.disk, s'.records, s'.disk, u, w.cache, p);
    case Install(_, _, _, _, _) =>
      AcquiredKeepsClosure(s.records, s.disk, s'.records, s'.disk, u, w.cache, p);
    case Collect(_, _) =>
      forall q | InClosure(s.records, p, q) ensures Faithful(s.records, q) {
        InUniverse(s.records, u, map[], p, q);
      }
      if Live(s, p) {
        SweepKeepsLive(s.records, s.disk, s.roots, s'.records, s'.disk, p);
      }
      if CollectFinished(s, s') {
        SurvivesIffLive(s.records, s.disk, s.roots, s'.disk, p);
      }
    case _ =>
  }

  // ----- Root links -----

  /** The root link that protects an installed package is in place. */
  predicate Rooted(s: State, name: string) {
    name in s.profile && RootName(name) in s.roots && s.roots[RootName(name)] == s.profile[name]
  }

  lemma RootedIsLive(s: State, n: string)
    requires Rooted(s, n) && Has(s, s.profile[n])
    ensures Live(s, s.profile[n])
  {
    ReachesSelf(RefGraph(s.records), s.profile[n]);
    assert Complete(s.records, s.roots[RootName(n)]);
    assert InClosure(s.records, s.roots[RootName(n)], s.profile[n]);
  }

  /** The commands that leave the root link of an installed package alone or put the same link there,
      and those that take the package out of the profile with it. */
  predicate KeepsRoot(s: State, c: Command, n: string)
    requires n in s.profile
  {
    match c
    case Remove(name, unlinkFails, rootStuck, save) => name != n || unlinkFails || rootStuck || !save.Unsaved?
    case AddRoot(rootName, path) => rootName != RootName(n) || path == s.profile[n] || path.Malformed?
    case DropRoot(rootName) => rootName != RootName(n)
    case _ => true
  }

  /** A rooted package stays rooted, or leaves the profile, exactly under that condition. */
  lemma StepKeepsRooted(u: set<StorePath>, w: World, s: State, c: Command, s': State, n: string)
    requires Step(u, w, s, c, s') && Rooted(s, n)
    ensures (n in s'.profile ==> Rooted(s', n)) <==> KeepsRoot(s, c, n)
    ensures n in s'.profile ==> s'.profile[n] == s.profile[n]
  {
    match c
    case Install(name, _, _, _, _) => RootNamesDiffer(n, name);
    case Remove(name, _, _, _) => RootNamesDiffer(n, name);
    case _ =>
  }

  /** The link is made, or was there before. */
  predicate LinkThere(w: World, s: State, c: Command)
    requires c.Install?
  {
    || c.rootOutcome.Linked?
    || (c.rootOutcome.LinkKept? && c.name in w.index
        && RootName(c.name) in s.roots && s.roots[RootName(c.name)] == w.index[c.name])
  }

  /** A package enters the profile exactly when the installation reaches the save and the save works;
      it then has its closure, and is rooted exactly when the link is made or was there before. */
  lemma InstallEndsRooted(u: set<StorePath>, w: World, s: State, c: Command, s': State)
    requires Step(u, w, s, c, s') && c.Install?
    ensures c.name !in s.profile ==> (c.name in s'.profile <==> WillLink(w, s, c) && c.save.Saved?)
    ensures c.name in s'.profile && c.name !in s.profile ==>
              && s'.profile[c.name] == w.index[c.name] && Has(s', s'.profile[c.name])
              && (Rooted(s', c.name) <==> LinkThere(w, s, c))
  {
  }

  // ----- Whole runs -----

  /** A command and what it finds outside the system. */
  datatype Event = Event(world: World, command: Command)

  /** A run: states and the events between them. */
  ghost predicate IsRun(u: set<StorePath>, states: seq<State>, events: seq<Event>) {
    && |states| == |events| + 1
    && forall i :: 0 <= i < |events| ==> StepAt(u, states, events, i)
  }

  ghost predicate StepAt(u: set<StorePath>, states: seq<State>, events: seq<Event>, i: nat)
    requires i < |events| < |states|
  {
    Offers(u, events[i].world) && Step(u, events[i].world, states[i], events[i].command, states[i + 1])
  }

  lemma {:induction false} RunKeepsInv(u: set<StorePath>, states: seq<State>, events: seq<Event>, k: nat)
    requires IsRun(u, states, events) && Inv(u, states[0]) && k < |states|
    ensures Inv(u, states[k])
  {
    if k > 0 {
      RunKeepsInv(u, states, events, k - 1);
      assert StepAt(u, states, events, k - 1);
      StepKeepsInv(u, events[k - 1].world, states[k - 1], events[k - 1].command, states[k]);
    }
  }

  /** A collection that is not a dry one. */
  predicate Collects(e: Event) {
    e.command.Collect? && !e.command.dryRun
  }

  /** Every collection of the run that is not a dry one removes all that is dead. */
  ghost predicate AllFinish(states: seq<State>, events: seq<Event>)
    requires |states| == |events| + 1
  {
    forall i :: 0 <= i < |events| ==> FinishAt(states, events, i)
  }

  ghost predicate FinishAt(states: seq<State>, events: seq<Event>, i: nat)
    requires i < |events| < |states|
  {
    Collects(events[i]) ==> CollectFinished(states[i], states[i + 1])
  }

  /** The path is live if the command is a collection. */
  ghost predicate LiveAt(states: seq<State>, events: seq<Event>, p: StorePath, i: nat)
    requires i < |events| < |states|
  {
    Collects(events[i]) ==> Live(states[i], p)
  }

  /** The collections among the first `k` events found the path live. */
  ghost predicate LiveUntil(states: seq<State>, events: seq<Event>, p: StorePath, k: nat)
    requires |states| == |events| + 1 && k <= |events|
  {
    forall i :: 0 <= i < k ==> LiveAt(states, events, p, i)
  }

  ghost predicate HasUntil(states: seq<State>, p: StorePath, k: nat)
    requires k < |states|
  {
    forall i :: 0 <= i <= k ==> Has(states[i], p)
  }

  lemma LiveSplit(states: seq<State>, events: seq<Event>, p: StorePath, i: nat)
    requires |states| == |events| + 1 && i < |events|
    ensures LiveUntil(states, events, p, i + 1) <==> LiveUntil(states, events, p, i) && LiveAt(states, events, p, i)
  {
  }

  lemma HasSplit(states: seq<State>, p: StorePath, i: nat)
    requires i + 1 < |states|
    ensures HasUntil(states, p, i + 1) <==> HasUntil(states, p, i) && Has(states[i + 1], p)
  {
  }

  /** Over every run, whatever fails in it, a closure is there all the time if it is live at every
      collection; where the collections finish, it is there all the time only then. */
  lemma {:induction false} RunKeepsLive(u: set<StorePath>, states: seq<State>, events: seq<Event>, p: StorePath, k: nat)
    requires IsRun(u, states, events) && Inv(u, states[0]) && k < |states|
    requires p in u && Has(states[0], p)
    ensures LiveUntil(states, events, p, k) ==> HasUntil(states, p, k)
    ensures AllFinish(states, events) ==> (HasUntil(states, p, k) <==> LiveUntil(states, events, p, k))
  {
    if k > 0 {
      var i := k - 1;
      RunKeepsLive(u, states, events, p, i);
      RunKeepsInv(u, states, events, i);
      assert StepAt(u, states, events, i);
      LiveSplit(states, events, p, i);
      HasSplit(states, p, i);
      assert AllFinish(states, events) ==> FinishAt(states, events, i);
      if Has(states[i], p) {
        StepKeepsClosure(u, events[i].world, states[i], events[i].command, states[k], p);
      }
    }
  }

  /** Every rooted package has its closure. */
  ghost predicate RootedHave(s: State) {
    forall n :: Rooted(s, n) ==> Has(s, s.profile[n])
  }

  /** A root added by hand under the name of a package's own root must not claim a closure that is not there. */
  ghost predicate HonestRoot(s: State, c: Command) {
    c.AddRoot? && c.path.StorePath? ==>
      forall n :: n in s.profile && c.rootName == RootName(n) && c.path == s.profile[n] ==> Has(s, c.path)
  }

  lemma StepKeepsRootedHave(u: set<StorePath>, w: World, s: State, c: Command, s': State)
    requires Inv(u, s) && Offers(u, w) && Step(u, w, s, c, s') && RootedHave(s)
    ensures RootedHave(s') <==> HonestRoot(s, c)
  {
    forall n | Rooted(s', n) ensures Has(s', s'.profile[n]) || !HonestRoot(s, c) {
      if Rooted(s, n) && s.profile[n] == s'.profile[n] {
        RootedIsLive(s, n);
        StepKeepsClosure(u, w, s, c, s', s.profile[n]);
      } else if c.Install? {
        RootNamesDiffer(n, c.name);
      }
    }
    if !HonestRoot(s, c) {
      var n :| n in s.profile && c.rootName == RootName(n) && c.path == s.profile[n] && !Has(s, c.path);
      assert Rooted(s', n);
    }
  }

  /** Over every run, every rooted package keeps its whole closure registered and on disk at every moment. */
  lemma {:induction false} RunKeepsInstalled(u: set<StorePath>, states: seq<State>, events: seq<Event>, k: nat)
    requires IsRun(u, states, events) && Inv(u, states[0]) && RootedHave(states[0]) && k < |states|
    requires forall i :: 0 <= i < k ==> HonestRoot(states[i], events[i].command)
    ensures Inv(u, states[k]) && RootedHave(states[k])
  {
    RunKeepsInv(u, states, events, k);
    if k > 0 {
      RunKeepsInstalled(u, states, events, k - 1);
      assert StepAt(u, states, events, k - 1);
      StepKeepsRootedHave(u, events[k - 1].world, states[k - 1], events[k - 1].command, states[k]);
    }
  }

  // ----- Runs that protect everything installed -----

  ghost predicate Protected(s: State, n: string) {
    Rooted(s, n) && Has(s, s.profile[n])
  }

  /** Every installed package is rooted and has its closure. */
  ghost predicate AllProtected(s: State) {
    forall n :: n in s.profile ==> Protected(s, n)
  }

  /** No installed package loses its root link, and one that will enter the profile gets its own. */
  ghost predicate Careful(w: World, s: State, c: Command) {
    && (forall n :: n in s.profile ==> KeepsRoot(s, c, n))
    && (c.Install? && WillLink(w, s, c) && c.save.Saved? ==> LinkThere(w, s, c))
  }

  lemma StepKeepsProtected(u: set<StorePath>, w: World, s: State, c: Command, s': State)
    requires Inv(u, s) && Offers(u, w) && Step(u, w, s, c, s') && AllProtected(s)
    ensures AllProtected(s') <==> Careful(w, s, c)
  {
    forall n | n in s.profile ensures (n in s'.profile ==> Protected(s', n)) <==> KeepsRoot(s, c, n) {
      assert Protected(s, n);
      StepKeepsRooted(u, w, s, c, s', n);
      RootedIsLive(s, n);
      StepKeepsClosure(u, w, s, c, s', s.profile[n]);
    }
    if c.Install? {
      InstallEndsRooted(u, w, s, c, s');
      assert c.name in s'.profile && c.name !in s.profile ==> (Protected(s', c.name) <==> LinkThere(w, s, c));
    }
    forall n | n in s'.profile && n !in s.profile ensures c.Install? && n == c.name {
    }
  }

  ghost predicate CarefulUntil(states: seq<State>, events: seq<Event>, k: nat)
    requires |states| == |events| + 1 && k <= |events|
  {
    forall i :: 0 <= i < k ==> CarefulAt(states, events, i)
  }

  ghost predicate CarefulAt(states: seq<State>, events: seq<Event>, i: nat)
    requires i < |events| < |states|
  {
    Careful(events[i].world, states[i], events[i].command)
  }

  ghost predicate ProtectedUntil(states: seq<State>, k: nat)
    requires k < |states|
  {
    forall i :: 0 <= i <= k ==> AllProtected(states[i])
  }

  lemma ProtectedSplit(states: seq<State>, i: nat)
    requires i + 1 < |states|
    ensures ProtectedUntil(states, i + 1) <==> ProtectedUntil(states, i) && AllProtected(states[i + 1])
  {
  }

  lemma CarefulSplit(states: seq<State>, events: seq<Event>, i: nat)
    requires |states| == |events| + 1 && i < |events|
    ensures CarefulUntil(states, events, i + 1) <==> CarefulUntil(states, events, i) && CarefulAt(states, events, i)
  {
  }

  /** Over every run, everything installed is protected at every moment exactly when every command is
      careful, although fetches may fail part-way and sweeps may abort. */
  lemma {:induction false} CareProtectsEverything(u: set<StorePath>, states: seq<State>, events: seq<Event>, k: nat)
    requires IsRun(u, states, events) && Inv(u, states[0]) && AllProtected(states[0]) && k < |states|
    ensures ProtectedUntil(states, k) <==> CarefulUntil(states, events, k)
  {
    if k > 0 {
      var i := k - 1;
      CareProtectsEverything(u, states, events, i);
      RunKeepsInv(u, states, events, i);
      assert StepAt(u, states, events, i);
      ProtectedSplit(states, i);
      CarefulSplit(states, events, i);
      if ProtectedUntil(states, i) {
        StepKeepsProtected(u, events[i].world, states[i], events[i].command, states[k]);
      }
    }
  }

  /** In particular from the empty system, whatever index and cache every command finds. */
  lemma FreshSystemProtected(u: set<StorePath>, states: seq<State>, events: seq<Event>, k: nat)
    requires DigestsUnique(u) && IsRun(u, states, events) && states[0] == Empty() && k < |states|
    ensures Inv(u, states[k]) && (ProtectedUntil(states, k) <==> CarefulUntil(states, events, k))
  {
    RunKeepsInv(u, states, events, k);
    CareProtectsEverything(u, states, events, k);
  }

  // ----- A removal that is not saved -----

  /** One package `x` without dependencies. */
  function OnePackage(p: StorePath): World
    requires p.StorePath?
  {
    World(map["x" := p], map[p.digest := NarInfo(1, [])])
  }

  function Installed(p: StorePath): State
    requires p.StorePath?
  {
    State(map[p.digest := PathInfo(p, 1, [])], {p}, map["profile-x" := p], map["x" := p])
  }

  function Unrooted(p: StorePath): State
    requires p.StorePath?
  {
    Installed(p).(roots := map[])
  }

  function Collected(p: StorePath): State
    requires p.StorePath?
  {
    Unrooted(p).(records := map[], disk := {})
  }

  lemma OneIsInstalled(p: StorePath)
    requires p.StorePath?
    ensures Step({p}, OnePackage(p), Empty(), Install("x", map[], false, Saved, Linked), Installed(p))
    ensures AllProtected(Installed(p))
  {
    var s := Installed(p);
    assert RootName("x") == "profile-x";
    ClosedTraps(RefGraph(s.records), {p}, p);
    ClosedTraps(SourceGraph(map[], {}, OnePackage(p).cache), {p}, p);
    assert WillLink(OnePackage(p), Empty(), Install("x", map[], false, Saved, Linked));
    assert Has(s, p);
    assert Protected(s, "x");
  }

  lemma OneIsUnrooted(p: StorePath)
    requires p.StorePath?
    ensures Step({p}, OnePackage(p), Installed(p), Remove("x", false, false, Unsaved), Unrooted(p))
  {
    assert RootName("x") == "profile-x";
    assert Installed(p).roots - {RootName("x")} == map[];
  }

  lemma OneIsCollected(p: StorePath)
    requires p.StorePath?
    ensures Step({p}, OnePackage(p), Unrooted(p), Collect(false, map[]), Collected(p))
  {
    var s := Unrooted(p);
    assert s.records[p.digest].storePath == p;
    assert IsDead(s.records, s.roots, p);
    assert CollectFinished(s, Collected(p));
  }

  /** `remove` drops the root before saving the manifest. From the empty system: install a package,
      fail to save its removal, collect; the package is still installed and its files are gone. */
  lemma FailedRemoveLosesPackage(p: StorePath)
    requires p.StorePath?
    ensures IsRun({p}, [Empty(), Installed(p), Unrooted(p), Collected(p)],
                  [Event(OnePackage(p), Install("x", map[], false, Saved, Linked)),
                   Event(OnePackage(p), Remove("x", false, false, Unsaved)),
                   Event(OnePackage(p), Collect(false, map[]))])
    ensures AllProtected(Installed(p))
    ensures "x" in Collected(p).profile && !Registered(Collected(p).records, p) && p !in Collected(p).disk
  {
    OneIsInstalled(p);
    OneIsUnrooted(p);
    OneIsCollected(p);
    ThreeSteps({p}, OnePackage(p), Empty(), Installed(p), Unrooted(p), Collected(p),
               Install("x", map[], false, Saved, Linked), Remove("x", false, false, Unsaved), Collect(false, map[]));
  }

  lemma ThreeSteps(u: set<StorePath>, w: World, s0: State, s1: State, s2: State, s3: State,
                   c0: Command, c1: Command, c2: Command)
    requires Offers(u, w) && Step(u, w, s0, c0, s1) && Step(u, w, s1, c1, s2) && Step(u, w, s2, c2, s3)
    ensures IsRun(u, [s0, s1, s2, s3], [Event(w, c0), Event(w, c1), Event(w, c2)])
  {
    var states, events := [s0, s1, s2, s3], [Event(w, c0), Event(w, c1), Event(w, c2)];
    assert StepAt(u, states, events, 0) && StepAt(u, states, events, 1) && StepAt(u, states, events, 2);
  }
}
