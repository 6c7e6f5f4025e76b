/** Activation of a system profile. */
module Activation {
  // The swap by renames, the fallback rebuild and any number of activations in a row
  // (`atomic_profile_swap`, `fallback_profile_rebuild` and the second step of `activate` in
  // snix-redox/src/activate.rs).

  import opened Results
  import opened ProfileSwap

  // ----- The swap -----

  /** Steps 1 and 2: the new profile is complete in `bin.new`, and `bin` is untouched. */
  predicate PrepareWorks(s: Slots, f: Faults, bins: Packages, packages: seq<Location>) {
    var c := Cleared(s, f);
    && f.makeStaging && CanPopulate(Content(c, Staging), bins, packages, f.populate)
    && f.toNew && Vacant(c, BinNew) && f.makeParent
  }

  predicate ExchangeWorks(s: Slots, f: Faults) {
    (Bin in s ==> f.toOld && Vacant(s, BinOld)) && f.toBin
  }

  predicate SameBins(a: Slots, b: Slots) {
    Get(a, Bin) == Get(b, Bin) && Get(a, BinOld) == Get(b, BinOld)
  }

  /** `bin` and `bin.old` are those of `s` in every state since `before`. */
  ghost predicate Stays(before: seq<Slots>, trace: seq<Slots>, s: Slots) {
    before <= trace && forall i :: |before| <= i < |trace| ==> SameBins(trace[i], s)
  }

  /** `bin` and `bin.old` since `before`: those of `s` for two clean-ups, and those of `c` from the third on. */
  ghost predicate Prepared(before: seq<Slots>, trace: seq<Slots>, s: Slots, c: Slots) {
    && before <= trace && |trace| >= |before| + 3
    && forall i :: |before| <= i < |trace| ==> SameBins(trace[i], if i < |before| + 2 then s else c)
  }

  lemma PreparedMore(before: seq<Slots>, mid: seq<Slots>, trace: seq<Slots>, s: Slots, c: Slots)
    requires Prepared(before, mid, s, c) && Stays(mid, trace, c)
    ensures Prepared(before, trace, s, c)
  {
  }

  /** The profile in use, or else the one set aside. */
  function Survivor(s: Slots): Option<Profile> {
    if Bin in s then Get(s, Bin) else Get(s, BinOld)
  }

  /** The first clean-up does not touch the only profile there is. */
  predicate SparesSurvivor(s: Slots, f: Faults) {
    Bin in s || BinOld !in s || (f.cleanOld.Left? && s[BinOld].Keys <= f.cleanOld.kept)
  }

  lemma SparedIsWhole(s: Slots, f: Faults)
    requires Bin !in s
    ensures SparesSurvivor(s, f) <==> Get(Cleared(s, f), BinOld) == Get(s, BinOld)
  {
    ClearedParts(s, f);
    if BinOld in s && f.cleanOld.Left? {
      var dir, kept := s[BinOld], f.cleanOld.kept;
      if dir.Keys <= kept {
        assert Restrict(dir, kept) == dir;
      } else {
        var n :| n in dir && n !in kept;
        assert n !in Restrict(dir, kept);
      }
    }
  }

  /** Until the renames, the old profile is safe exactly when the clean-up spares it. */
  lemma PreparedIsSafe(before: seq<Slots>, trace: seq<Slots>, s: Slots, f: Faults, new': Profile)
    requires Prepared(before, trace, s, Cleared(s, f))
    ensures SafeFrom(trace, |before|, Get(s, Bin), new')
    ensures SafeFrom(trace, |before|, Survivor(s), new') <==> SparesSurvivor(s, f)
  {
    ClearedParts(s, f);
    if Bin !in s {
      SparedIsWhole(s, f);
      assert SameBins(trace[|before| + 2], Cleared(s, f));
    }
  }

  lemma CleanedKeepsLinks(s: Slots, which: Slot, leave: Leave)
    requires AllLinks(s)
    ensures AllLinks(Cleaned(s, which, leave))
  {
  }

  method ClearLeftovers(p: Profiles, f: Faults)
    modifies p
    ensures p.slots == Cleared(old(p.slots), f)
    ensures AllLinks(old(p.slots)) ==> AllLinks(p.slots)
    ensures Prepared(old(p.trace), p.trace, old(p.slots), Cleared(old(p.slots), f))
  {
    p.Cleanup(Staging, f.cleanStaging);
    p.Cleanup(BinNew, f.cleanNew);
    p.Cleanup(BinOld, f.cleanOld);
    if AllLinks(old(p.slots)) {
      CleanedKeepsLinks(old(p.slots), Staging, f.cleanStaging);
      CleanedKeepsLinks(Cleaned(old(p.slots), Staging, f.cleanStaging), BinNew, f.cleanNew);
      CleanedKeepsLinks(Cleaned(Cleaned(old(p.slots), Staging, f.cleanStaging), BinNew, f.cleanNew), BinOld,
                        f.cleanOld);
    }
  }

  lemma ClearedParts(s: Slots, f: Faults)
    ensures Get(Cleared(s, f), Bin) == Get(s, Bin)
    ensures Get(Cleared(s, f), BinOld) == Get(Cleaned(s, BinOld, f.cleanOld), BinOld)
    ensures Content(Cleared(s, f), Staging) == Content(Cleaned(s, Staging, f.cleanStaging), Staging)
  {
  }

  method StageProfile(p: Profiles, f: Faults, bins: Packages,
                      packages: seq<Location>) returns (r: Result<nat, SwapError>)
    modifies p
    ensures r.Success? <==> f.makeStaging && CanPopulate(Content(old(p.slots), Staging), bins, packages, f.populate)
    ensures r.Success? ==> r.value == LinkCount(bins, packages)
    ensures r.Success? ==>
              p.slots == old(p.slots)[Staging := Content(old(p.slots), Staging) + ProfileOf(bins, packages)]
    ensures r.Failure? ==> r.error == StagingFailed || r.error == PopulateFailed
    ensures SameExcept(p.slots, old(p.slots), Staging)
    ensures AllLinks(old(p.slots)) ==> AllLinks(p.slots)
    ensures Extends(old(p.trace), p.trace, old(p.slots), Staging)
  {
    if !f.makeStaging {
      return Failure(StagingFailed);
    }
    p.Become(p.slots[Staging := Content(p.slots, Staging)]);
    ghost var mid, seen := p.slots, p.trace;
    var ok, count := p.Populate(Staging, bins, packages, f.populate);
    ChangesJoin(old(p.trace), seen, p.trace, old(p.slots), mid, Staging);
    PopulatedSlot(mid, Staging, Plan(bins, packages), f.populate);
    r := if ok then Success(count) else Failure(PopulateFailed);
  }

  lemma PopulatedSlot(s: Slots, which: Slot, plan: seq<Planned>, h: Halt)
    requires which in s
    ensures AllLinks(s) ==> AllLinks(s[which := Populated(s[which], plan, h)])
  {
    if LinksOnly(s[which]) {
      PopulatedLinksOnly(s[which], plan, h);
    }
  }

  method Prepare(p: Profiles, f: Faults, bins: Packages, packages: seq<Location>) returns (r: Result<nat, SwapError>)
    modifies p
    ensures r.Success? <==> PrepareWorks(old(p.slots), f, bins, packages)
    ensures r.Success? ==> r.value == LinkCount(bins, packages)
    ensures r.Success? ==>
              Get(p.slots, BinNew) == Some(NewProfile(old(p.slots), f, bins, packages)) && Staging !in p.slots
    ensures r.Failure? ==> r.error != ToOldFailed && r.error != ToBinFailed
    ensures SameBins(p.slots, Cleared(old(p.slots), f))
    ensures AllLinks(old(p.slots)) ==> AllLinks(p.slots)
    ensures Prepared(old(p.trace), p.trace, old(p.slots), Cleared(old(p.slots), f))
  {
    ClearedParts(p.slots, f);
    ClearLeftovers(p, f);
    ghost var c, seen := p.slots, p.trace;
    r := StageProfile(p, f, bins, packages);
    PreparedMore(old(p.trace), seen, p.trace, old(p.slots), c);
    if r.Success? {
      seen := p.trace;
      var e := MoveToNew(p, f);
      PreparedMore(old(p.trace), seen, p.trace, old(p.slots), c);
      if e.Some? {
        return Failure(e.value);
      }
    }
  }

  method MoveToNew(p: Profiles, f: Faults) returns (e: Option<SwapError>)
    requires Staging in p.slots
    modifies p
    ensures e.None? <==> f.toNew && Vacant(old(p.slots), BinNew) && f.makeParent
    ensures e.Some? ==> e.value == ToNewFailed || e.value == ParentFailed
    ensures e.None? ==> Get(p.slots, BinNew) == Get(old(p.slots), Staging) && Staging !in p.slots
    ensures SameBins(p.slots, old(p.slots))
    ensures AllLinks(old(p.slots)) ==> AllLinks(p.slots)
    ensures Stays(old(p.trace), p.trace, old(p.slots))
  {
    var ok := p.Rename(Staging, BinNew, f.toNew);
    e := if !ok then Some(ToNewFailed) else if !f.makeParent then Some(ParentFailed) else None;
  }

  /** Steps 3 to 5. */
  method Exchange(p: Profiles, f: Faults, count: nat) returns (r: Result<nat, SwapError>)
    requires BinNew in p.slots
    modifies p
    ensures r.Success? <==> ExchangeWorks(old(p.slots), f)
    ensures r.Success? ==> r.value == count
    ensures r == Failure(ToBinFailed) <==> (Bin in old(p.slots) ==> f.toOld && Vacant(old(p.slots), BinOld)) && !f.toBin
    ensures Exchanged(old(p.slots), p.slots, f, r)
    ensures AllLinks(old(p.slots)) ==> AllLinks(p.slots)
    ensures old(p.trace) <= p.trace
    ensures SafeFrom(p.trace, |old(p.trace)|, Get(old(p.slots), Bin), old(p.slots)[BinNew])
    ensures SafeFrom(p.trace, |old(p.trace)|, Survivor(old(p.slots)), old(p.slots)[BinNew])
  {
    var hadOld := Bin in p.slots;
    if hadOld {
      var moved := p.Rename(Bin, BinOld, f.toOld);
      if !moved {
        return Failure(ToOldFailed);
      }
    }
    r := SwapIn(p, f, hadOld, count, Get(old(p.slots), Bin));
  }

  /** Steps 4 and 5; `was` is the profile that step 3 set aside. */
  method SwapIn(p: Profiles, f: Faults, hadOld: bool, count: nat,
                ghost was: Option<Profile>) returns (r: Result<nat, SwapError>)
    requires BinNew in p.slots && Bin !in p.slots
    requires hadOld <==> was.Some?
    requires hadOld ==> Get(p.slots, BinOld) == was
    modifies p
    ensures r == if f.toBin then Success(count) else Failure(ToBinFailed)
    ensures f.toBin ==> Get(p.slots, Bin) == Get(old(p.slots), BinNew) && BinNew !in p.slots
    ensures !f.toBin ==> Get(p.slots, Bin) == if f.rollback then was else None
    ensures !f.toBin ==> Get(p.slots, BinOld) == if hadOld && f.rollback then None else Get(old(p.slots), BinOld)
    ensures Get(p.slots, Staging) == Get(old(p.slots), Staging)
    ensures AllLinks(old(p.slots)) ==> AllLinks(p.slots)
    ensures old(p.trace) <= p.trace
    ensures SafeFrom(p.trace, |old(p.trace)|, was, old(p.slots)[BinNew])
    ensures SafeFrom(p.trace, |old(p.trace)|, Get(old(p.slots), BinOld), old(p.slots)[BinNew])
  {
    var swapped := p.Rename(BinNew, Bin, f.toBin);
    if swapped {
      if hadOld {
        p.Cleanup(BinOld, f.cleanReplaced);
      }
      r := Success(count);
    } else {
      if hadOld {
        var _ := p.Rename(BinOld, Bin, f.rollback);
      }
      p.Cleanup(BinNew, f.cleanUnused);
      r := Failure(ToBinFailed);
    }
  }

  /** Where the profiles are after steps 3 to 5. */
  ghost predicate Exchanged(a: Slots, b: Slots, f: Faults, r: Result<nat, SwapError>) {
    match r
    case Success(_) => Get(b, Bin) == Get(a, BinNew) && BinNew !in b && Get(b, Staging) == Get(a, Staging)
    case Failure(ToBinFailed) =>
      && Get(b, Bin) == (if f.rollback then Get(a, Bin) else None)
      && Get(b, BinOld) == (if Bin !in a then Get(a, BinOld) else if f.rollback then None else Get(a, Bin))
    case Failure(_) => r.error == ToOldFailed && Bin in a && b == a
  }

  /** The last rename fails, after everything before it worked. */
  predicate SwapStuck(s: Slots, f: Faults, bins: Packages, packages: seq<Location>) {
    PrepareWorks(s, f, bins, packages) && (Bin in s ==> f.toOld && Vacant(Cleared(s, f), BinOld)) && !f.toBin
  }

  predicate SwapWorks(s: Slots, f: Faults, bins: Packages, packages: seq<Location>) {
    PrepareWorks(s, f, bins, packages) && (Bin in s ==> f.toOld && Vacant(Cleared(s, f), BinOld)) && f.toBin
  }

  /** Everything the swap decides: when it works, and where the profiles are afterwards. */
  ghost predicate SwapStep(a: Slots, b: Slots, f: Faults, bins: Packages, packages: seq<Location>,
                           r: Result<nat, SwapError>) {
    && (AllLinks(a) ==> AllLinks(b))
    && (r.Success? <==> SwapWorks(a, f, bins, packages))
    && (r == Failure(ToBinFailed) <==> SwapStuck(a, f, bins, packages))
    && match r
       case Success(count) =>
         && count == LinkCount(bins, packages)
         && Get(b, Bin) == Some(NewProfile(a, f, bins, packages)) && Staging !in b && BinNew !in b
       case Failure(ToBinFailed) =>
         && Get(b, Bin) == (if f.rollback then Get(a, Bin) else None)
         && Get(b, BinOld) == (if Bin !in a then Get(Cleared(a, f), BinOld)
                               else if f.rollback then None else Get(a, Bin))
       case Failure(_) =>
         Get(b, Bin) == Get(a, Bin) && Get(b, BinOld) == Get(Cleared(a, f), BinOld)
  }

  lemma SafeJoin(before: seq<Slots>, mid: seq<Slots>, trace: seq<Slots>, was: Option<Profile>, new': Profile)
    requires before <= mid <= trace
    ensures SafeFrom(trace, |before|, was, new')
            <==> SafeFrom(mid, |before|, was, new') && SafeFrom(trace, |mid|, was, new')
  {
    forall i | |before| <= i < |mid| ensures trace[i] == mid[i] { }
  }

  method AtomicProfileSwap(p: Profiles, f: Faults, bins: Packages,
                           packages: seq<Location>) returns (r: Result<nat, SwapError>)
    modifies p
    ensures SwapStep(old(p.slots), p.slots, f, bins, packages, r)
    ensures old(p.trace) <= p.trace
    ensures SafeFrom(p.trace, |old(p.trace)|, Get(old(p.slots), Bin), NewProfile(old(p.slots), f, bins, packages))
    ensures SafeFrom(p.trace, |old(p.trace)|, Survivor(old(p.slots)), NewProfile(old(p.slots), f, bins, packages))
            <==> SparesSurvivor(old(p.slots), f)
  {
    ClearedParts(p.slots, f);
    r := Prepare(p, f, bins, packages);
    ghost var new', seen := NewProfile(old(p.slots), f, bins, packages), p.trace;
    PreparedIsSafe(old(p.trace), seen, old(p.slots), f, new');
    if r.Success? {
      r := Exchange(p, f, r.value);
      SafeJoin(old(p.trace), seen, p.trace, Get(old(p.slots), Bin), new');
      SafeJoin(old(p.trace), seen, p.trace, Survivor(old(p.slots)), new');
      if Bin !in old(p.slots) {
        SparedIsWhole(old(p.slots), f);
      }
    }
  }

  // ----- The fallback -----

  datatype FallbackFaults = FallbackFaults(make: bool, read: bool, clear: Option<nat>, populate: Halt)

  function LinkNames(dir: Profile): set<Name> {
    set n | n in dir && dir[n].Link?
  }

  /** Clearing fails when so many links are gone, possibly all of them. */
  predicate ClearStops(dir: Profile, f: FallbackFaults) {
    f.clear.Some? && f.clear.value <= |LinkNames(dir)|
  }

  predicate FallbackWorks(s: Slots, f: FallbackFaults, bins: Packages, packages: seq<Location>) {
    && (if Bin in s then f.read && !ClearStops(s[Bin], f) else f.make)
    && CanPopulate(NonLinks(Content(s, Bin)), bins, packages, f.populate)
  }

  /** What the fallback makes of `bin`, whether it succeeds or not. */
  ghost predicate FallbackLeaves(before: Option<Profile>, after: Option<Profile>, f: FallbackFaults,
                                 plan: seq<Planned>) {
    match before
    case None => after == if f.make then Some(Populated(map[], plan, f.populate)) else None
    case Some(dir) =>
      if !f.read then after == before
      else if ClearStops(dir, f) then exists gone :: PartlyCleared(dir, gone, f.clear.value, after)
      else after == Some(Populated(NonLinks(dir), plan, f.populate))
  }

  predicate PartlyCleared(dir: Profile, gone: set<Name>, count: nat, after: Option<Profile>) {
    gone <= LinkNames(dir) && |gone| == count && after == Some(dir - gone)
  }

  ghost predicate FallbackStep(a: Slots, b: Slots, f: FallbackFaults, bins: Packages, packages: seq<Location>,
                               r: Option<nat>) {
    && SameExcept(b, a, Bin)
    && (r.Some? <==> FallbackWorks(a, f, bins, packages))
    && (r.Some? ==> r.value == LinkCount(bins, packages))
    && FallbackLeaves(Get(a, Bin), Get(b, Bin), f, Plan(bins, packages))
  }

  /** Remove the links one by one, in any order. */
  method ClearLinks(p: Profiles, fault: Option<nat>) returns (ok: bool, ghost gone: set<Name>)
    requires Bin in p.slots
    modifies p
    ensures Bin in p.slots && SameExcept(p.slots, old(p.slots), Bin)
    ensures ok <==> (fault.Some? ==> fault.value > |LinkNames(old(p.slots)[Bin])|)
    ensures ok ==> p.slots[Bin] == NonLinks(old(p.slots)[Bin])
    ensures !ok ==> PartlyCleared(old(p.slots)[Bin], gone, fault.value, Some(p.slots[Bin]))
  {
    var dir := p.slots[Bin];
    var rest := LinkNames(dir);
    ghost var all := |rest|;
    var done := 0;
    while rest != {}
      invariant rest <= LinkNames(dir) && done + |rest| == all
      invariant fault.Some? ==> done <= fault.value
      invariant Bin in p.slots && SameExcept(p.slots, old(p.slots), Bin)
      invariant p.slots[Bin] == dir - (LinkNames(dir) - rest)
    {
      var n :| n in rest;
      if fault == Some(done) {
        return false, LinkNames(dir) - rest;
      }
      RemoveOne(dir, rest, n);
      p.Become(p.slots[Bin := p.slots[Bin] - {n}]);
      rest := rest - {n};
      done := done + 1;
    }
    AllRemoved(dir, rest);
    ok, gone := fault != Some(done), LinkNames(dir) - rest;
  }

  lemma RemoveOne(dir: Profile, rest: set<Name>, n: Name)
    requires rest <= LinkNames(dir) && n in rest
    ensures dir - (LinkNames(dir) - rest) - {n} == dir - (LinkNames(dir) - (rest - {n}))
  {
  }

  lemma AllRemoved(dir: Profile, rest: set<Name>)
    requires rest == {}
    ensures dir - (LinkNames(dir) - rest) == NonLinks(dir)
  {
  }

  method FallbackProfileRebuild(p: Profiles, f: FallbackFaults, bins: Packages,
                                packages: seq<Location>) returns (r: Option<nat>)
    modifies p
    ensures FallbackStep(old(p.slots), p.slots, f, bins, packages, r)
  {
    if Bin in p.slots {
      if !f.read {
        return None;
      }
      var ok, gone := ClearLinks(p, f.clear);
      if !ok {
        return None;
      }
    } else {
      if !f.make {
        return None;
      }
      p.Become(p.slots[Bin := map[]]);
    }
    assert p.slots[Bin] == NonLinks(Content(old(p.slots), Bin));
    var ok, count := p.Populate(Bin, bins, packages, f.populate);
    r := if ok then Some(count) else None;
  }

  /** A successful fallback overlays what is no link with the profile; links stay links in any case. */
  lemma FallbackGives(a: Slots, b: Slots, f: FallbackFaults, bins: Packages, packages: seq<Location>, r: Option<nat>)
    requires FallbackStep(a, b, f, bins, packages, r)
    ensures r.Some? ==> Get(b, Bin) == Some(NonLinks(Content(a, Bin)) + ProfileOf(bins, packages))
    ensures AllLinks(a) ==> AllLinks(b)
  {
    var plan, kept := Plan(bins, packages), NonLinks(Content(a, Bin));
    assert NonLinks(map[]) == map[];
    UnhinderedWhen(kept, bins, packages, f.populate);
    MadeAll(kept, plan, f.populate);
    PopulatedProfile(kept, bins, packages);
    PopulatedLinksOnly(map[], plan, f.populate);
    if AllLinks(a) {
      forall w | w in b ensures LinksOnly(b[w]) {
        if w != Bin {
          assert Get(b, w) == Get(a, w);
        } else if Bin in a {
          assert LinksOnly(a[Bin]) && kept == map[];
        }
      }
    }
  }

  // ----- Activations -----

  /** One activation: its package list and what fails. */
  datatype Attempt = Attempt(bins: Packages, packages: seq<Location>, swap: Faults, fallback: FallbackFaults)

  /** The swap, and the fallback when the swap fails; `None` when both fail. */
  ghost predicate ActivateStep(a: Slots, b: Slots, t: Attempt, r: Option<nat>) {
    exists mid, first :: SwapThenFallback(a, mid, b, t, first, r)
  }

  ghost predicate SwapThenFallback(a: Slots, mid: Slots, b: Slots, t: Attempt, first: Result<nat, SwapError>,
                                   r: Option<nat>) {
    && SwapStep(a, mid, t.swap, t.bins, t.packages, first)
    && match first
       case Success(count) => b == mid && r == Some(count)
       case Failure(_) => FallbackStep(mid, b, t.fallback, t.bins, t.packages, r)
  }

  method ActivateProfile(p: Profiles, t: Attempt) returns (r: Option<nat>)
    modifies p
    ensures ActivateStep(old(p.slots), p.slots, t, r)
  {
    var first := AtomicProfileSwap(p, t.swap, t.bins, t.packages);
    ghost var mid := p.slots;
    if first.Success? {
      r := Some(first.value);
    } else {
      r := FallbackProfileRebuild(p, t.fallback, t.bins, t.packages);
    }
    assert SwapThenFallback(old(p.slots), mid, p.slots, t, first, r);
  }

  lemma Overlay(left: Profile, p: Profile)
    ensures left + p == p <==> left.Keys <= p.Keys
  {
    assert (left + p).Keys == left.Keys + p.Keys;
  }

  lemma CleanProfile(a: Slots, t: Attempt)
    ensures t.swap.cleanStaging.Gone? ==> NewProfile(a, t.swap, t.bins, t.packages) == ProfileOf(t.bins, t.packages)
  {
    Overlay(map[], ProfileOf(t.bins, t.packages));
  }

  /** After a reported success `bin` is the profile of the package list, by either route, when it
      held only links before and no stale link was left in the staging directory. */
  lemma ActivatedProfile(a: Slots, b: Slots, t: Attempt, r: Option<nat>)
    requires ActivateStep(a, b, t, r) && AllLinks(a)
    ensures AllLinks(b)
    ensures r.Some? && t.swap.cleanStaging.Gone? ==> Get(b, Bin) == Some(ProfileOf(t.bins, t.packages))
    ensures r.Some? ==> r.value == LinkCount(t.bins, t.packages)
  {
    var mid, first :| SwapThenFallback(a, mid, b, t, first, r);
    if first.Success? {
      CleanProfile(a, t);
    } else {
      FallbackGives(mid, b, t.fallback, t.bins, t.packages, r);
      Overlay(NonLinks(Content(mid, Bin)), ProfileOf(t.bins, t.packages));
    }
  }

  /** From one state, a successful fallback ends with the profile of a successful swap exactly when a
      link replaces everything that is no link; so always from a `bin` of links. */
  lemma RoutesAgree(a: Slots, b: Slots, b': Slots, t: Attempt, r: Result<nat, SwapError>, r': Option<nat>)
    requires SwapStep(a, b, t.swap, t.bins, t.packages, r) && r.Success? && t.swap.cleanStaging.Gone?
    requires FallbackStep(a, b', t.fallback, t.bins, t.packages, r') && r'.Some?
    ensures r'.value == r.value
    ensures Get(b', Bin) == Get(b, Bin) <==> NonLinks(Content(a, Bin)).Keys <= ProfileOf(t.bins, t.packages).Keys
    ensures LinksOnly(Content(a, Bin)) ==> Get(b', Bin) == Get(b, Bin)
  {
    CleanProfile(a, t);
    FallbackGives(a, b', t.fallback, t.bins, t.packages, r');
    Overlay(NonLinks(Content(a, Bin)), ProfileOf(t.bins, t.packages));
  }

  /** States and results of activations one after the other. */
  ghost predicate IsRun(states: seq<Slots>, attempts: seq<Attempt>, results: seq<Option<nat>>) {
    && |states| == |attempts| + 1 && |results| == |attempts|
    && forall i :: 0 <= i < |attempts| ==> ActivateStep(states[i], states[i + 1], attempts[i], results[i])
  }

  /** In any run of activations with any failures, every one that reports success leaves exactly
      its own profile in `bin`, whatever went wrong before. */
  lemma {:induction false} RunConverges(states: seq<Slots>, attempts: seq<Attempt>, results: seq<Option<nat>>, k: nat)
    requires IsRun(states, attempts, results) && AllLinks(states[0]) && k < |attempts|
    ensures AllLinks(states[k]) && AllLinks(states[k + 1])
    ensures results[k].Some? && attempts[k].swap.cleanStaging.Gone?
            ==> Get(states[k + 1], Bin) == Some(ProfileOf(attempts[k].bins, attempts[k].packages))
  {
    if k > 0 { RunConverges(states, attempts, results, k - 1); }
    ActivatedProfile(states[k], states[k + 1], attempts[k], results[k]);
  }

  // ----- Stale links from the staging directory -----

  /** What was left in the staging directory. */
  function Stale(s: Slots, f: Faults): Profile {
    Content(Cleaned(s, Staging, f.cleanStaging), Staging)
  }

  /** A successful swap ends with the profile of the package list exactly when a new link replaces
      everything that its clean-up left in the staging directory. */
  lemma StaleStagingShows(a: Slots, b: Slots, f: Faults, bins: Packages, packages: seq<Location>,
                          r: Result<nat, SwapError>)
    requires SwapStep(a, b, f, bins, packages, r) && r.Success?
    ensures Get(b, Bin) == Some(ProfileOf(bins, packages)) <==> Stale(a, f).Keys <= ProfileOf(bins, packages).Keys
  {
    Overlay(Stale(a, f), ProfileOf(bins, packages));
  }

  /** Nothing fails but the clean-up of the staging directory, which leaves one link. */
  function StaleFaults(n: Name): Faults {
    Faults(Left({n}), Gone, Gone, true, Never, true, true, true, true, true, Gone, Gone)
  }

  /** A swap to no packages at all that reports success and leaves a stale link in `bin`. */
  lemma StaleLinkSurvives(at: Location, n: Name)
    ensures SwapStep(map[Staging := map[n := Link(at, n)]], map[Bin := map[n := Link(at, n)]],
                     StaleFaults(n), map[], [], Success(0))
    ensures ProfileOf(map[], []) == map[]
  {
    var a: Slots, left: Profile := map[Staging := map[n := Link(at, n)]], map[n := Link(at, n)];
    var f := StaleFaults(n);
    assert Restrict(left, {n}) == left;
    assert Cleared(a, f) == a;
    assert NewProfile(a, f, map[], []) == left;
  }

  // ----- What a failed activation keeps -----

  /** That profile is still in `bin` or `bin.old`, complete. */
  predicate Kept(a: Slots, b: Slots) {
    Survivor(a).Some? ==> Get(b, Bin) == Survivor(a) || Get(b, BinOld) == Survivor(a)
  }

  /** Making links again restores a directory of which `kept` is left: every link made is one that was
      there, every link that was there is made, and no name was freed for a link that then failed. */
  ghost predicate Restores(kept: Profile, dir: Profile, plan: seq<Planned>, h: Halt) {
    forall n :: NameRestored(kept, dir, plan, h, n)
  }

  /** A failing fallback leaves `bin` as it was: it cannot read it, it removes no link, or it makes
      exactly the links again that it removed. */
  ghost predicate RebuildKeeps(dir: Profile, f: FallbackFaults, plan: seq<Planned>) {
    if !f.read then true
    else if ClearStops(dir, f) then f.clear.value == 0
    else Restores(NonLinks(dir), dir, plan, f.populate)
  }

  /** When a failed activation keeps the old profile. */
  ghost predicate KeepsSurvivor(a: Slots, t: Attempt) {
    var plan, stuck := Plan(t.bins, t.packages), SwapStuck(a, t.swap, t.bins, t.packages);
    var aside := Get(Cleared(a, t.swap), BinOld);
    if Bin in a then
      || (stuck && !t.swap.rollback)
      || RebuildKeeps(a[Bin], t.fallback, plan)
      || (!stuck && aside == Get(a, Bin))
    else
      || BinOld !in a
      || aside == Get(a, BinOld)
      || (t.fallback.make && Restores(map[], a[BinOld], plan, t.fallback.populate))
  }

  lemma PartIsLess(dir: Profile, gone: set<Name>)
    requires gone <= LinkNames(dir)
    ensures dir - gone == dir <==> |gone| == 0
  {
    if |gone| != 0 {
      var n :| n in gone;
      assert n in dir && n !in dir - gone;
    } else {
      assert dir - gone == dir;
    }
  }

  lemma FallbackKeeps(before: Option<Profile>, after: Option<Profile>, f: FallbackFaults, plan: seq<Planned>)
    requires FallbackLeaves(before, after, f, plan)
    ensures before.Some? ==> (after == before <==> RebuildKeeps(before.value, f, plan))
  {
    if before.Some? {
      PopulatedByName(NonLinks(before.value), before.value, plan, f.populate);
    }
    if before.Some? && f.read && ClearStops(before.value, f) {
      var gone :| PartlyCleared(before.value, gone, f.clear.value, after);
      PartIsLess(before.value, gone);
    }
  }

  /** An activation that fails by both routes keeps the old profile exactly under that condition. */
  lemma FailedActivationKeeps(a: Slots, b: Slots, t: Attempt, r: Option<nat>)
    requires ActivateStep(a, b, t, r) && r.None?
    ensures Kept(a, b) <==> KeepsSurvivor(a, t)
  {
    var mid, first :| SwapThenFallback(a, mid, b, t, first, r);
    assert Get(b, BinOld) == Get(mid, BinOld);
    if Bin in a {
      ProfileInUseKept(a, mid, b, t, first);
    } else {
      ProfileAsideKept(a, mid, b, t, first);
    }
  }

  lemma ProfileInUseKept(a: Slots, mid: Slots, b: Slots, t: Attempt, first: Result<nat, SwapError>)
    requires SwapThenFallback(a, mid, b, t, first, None) && Bin in a && Get(b, BinOld) == Get(mid, BinOld)
    ensures Kept(a, b) <==> KeepsSurvivor(a, t)
  {
    FallbackKeeps(Get(mid, Bin), Get(b, Bin), t.fallback, Plan(t.bins, t.packages));
  }

  lemma ProfileAsideKept(a: Slots, mid: Slots, b: Slots, t: Attempt, first: Result<nat, SwapError>)
    requires SwapThenFallback(a, mid, b, t, first, None) && Bin !in a && Get(b, BinOld) == Get(mid, BinOld)
    ensures Kept(a, b) <==> KeepsSurvivor(a, t)
  {
    PopulatedByName(map[], Content(a, BinOld), Plan(t.bins, t.packages), t.fallback.populate);
  }

  /** The staging directory cannot be made. */
  const NO_STAGING := Faults(Gone, Gone, Gone, false, Never, true, true, true, true, true, Gone, Gone)

  /** The links are cleared, and the first new one cannot be made. */
  const NO_LINKS := FallbackFaults(true, true, None, Late(0))

  /** One activation can lose a profile of links that was in use: the swap fails early, and the
      fallback clears `bin` before it fails. */
  lemma FailedActivationLosesProfile(was: Profile, bins: Packages, packages: seq<Location>)
    requires LinksOnly(was) && was != map[] && LinkCount(bins, packages) > 0
    ensures ActivateStep(map[Bin := was], map[Bin := map[]], Attempt(bins, packages, NO_STAGING, NO_LINKS), None)
    ensures !Kept(map[Bin := was], map[Bin := map[]])
  {
    var a: Slots, b: Slots, plan := map[Bin := was], map[Bin := map[]], Plan(bins, packages);
    var t := Attempt(bins, packages, NO_STAGING, NO_LINKS);
    assert Cleared(a, NO_STAGING) == a;
    assert SwapStep(a, a, NO_STAGING, bins, packages, Failure(StagingFailed));
    NothingMade(plan);
    assert FallbackStep(a, b, NO_LINKS, bins, packages, None);
    assert SwapThenFallback(a, a, b, t, Failure(StagingFailed), None);
  }

  lemma NothingMade(plan: seq<Planned>)
    requires plan != []
    ensures Populated(map[], plan, Late(0)) == map[]
  {
    assert Fails(map[], plan[0], Late(0), 0) && plan[..0] == [];
    MadeUntil(map[], plan, Late(0), 0);
  }

  /** The last rename and its roll-back fail. */
  const NO_SWAP := Faults(Gone, Gone, Gone, true, Never, true, true, true, false, false, Gone, Gone)

  /** `bin` cannot be made. */
  const NO_BIN := FallbackFaults(false, true, None, Never)

  /** A first failure can leave the profile only in `bin.old`, and the next swap begins by removing it. */
  lemma SetAsideProfileLost(was: Profile, bins: Packages, packages: seq<Location>)
    ensures ActivateStep(map[Bin := was], map[BinOld := was], Attempt(bins, packages, NO_SWAP, NO_BIN), None)
    ensures ActivateStep(map[BinOld := was], map[], Attempt(bins, packages, NO_STAGING, NO_BIN), None)
    ensures !SparesSurvivor(map[BinOld := was], NO_STAGING) && !Kept(map[BinOld := was], map[])
  {
    var a: Slots, aside: Slots, none: Slots := map[Bin := was], map[BinOld := was], map[];
    assert Cleared(a, NO_SWAP) == a && Cleared(aside, NO_STAGING) == none;
    assert SwapStep(a, aside, NO_SWAP, bins, packages, Failure(ToBinFailed));
    assert SwapThenFallback(a, aside, aside, Attempt(bins, packages, NO_SWAP, NO_BIN), Failure(ToBinFailed), None);
    assert SwapStep(aside, none, NO_STAGING, bins, packages, Failure(StagingFailed));
    assert SwapThenFallback(aside, none, none, Attempt(bins, packages, NO_STAGING, NO_BIN), Failure(StagingFailed),
                            None);
  }
}
