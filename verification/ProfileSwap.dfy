/** The profile directories (snix-redox/src/activate.rs). */
module ProfileSwap {
  // Four directories matter: the staging directory, `profile/bin`, `profile/bin.new` and
  // `profile/bin.old`. Every filesystem operation may fail; which ones do is a parameter.

  import opened Results

  datatype Name = Name(text: string)

  datatype Location = Location(path: string)

  /** What a profile directory holds under a name; a link points at `bin/<name>` of a package. */
  datatype Object = Link(package: Location, name: Name) | Plain(id: int) | Subdir

  type Profile = map<Name, Object>

  datatype Slot = Staging | Bin | BinNew | BinOld

  type Slots = map<Slot, Profile>

  function Get(s: Slots, which: Slot): Option<Profile> {
    if which in s then Some(s[which]) else None
  }

  function Content(s: Slots, which: Slot): Profile {
    if which in s then s[which] else map[]
  }

  // ----- Links to package binaries -----

  /** One entry of a package's `bin` directory. */
  datatype DirEntry = DirEntry(name: Name, isFile: bool)

  /** The `bin` directories of the packages that have one. */
  type Packages = map<Location, seq<DirEntry>>

  /** The entries visited for a package: none without a store path or a `bin` directory. */
  function Listing(bins: Packages, at: Location): seq<DirEntry> {
    if at.path == "" || at !in bins then [] else bins[at]
  }

  predicate Provides(bins: Packages, at: Location, n: Name) {
    exists i :: 0 <= i < |Listing(bins, at)| && Listing(bins, at)[i] == DirEntry(n, true)
  }

  /** The last package of the list that provides a binary. */
  function LastProvider(bins: Packages, packages: seq<Location>, n: Name): Option<Location> {
    if packages == [] then None
    else if Provides(bins, packages[|packages| - 1], n) then Some(packages[|packages| - 1])
    else LastProvider(bins, packages[..|packages| - 1], n)
  }

  function AllNames(bins: Packages, packages: seq<Location>): set<Name> {
    set i, j | 0 <= i < |packages| && 0 <= j < |Listing(bins, packages[i])| :: Listing(bins, packages[i])[j].name
  }

  /** The profile of a package list: every provided name links to its last provider. */
  function ProfileOf(bins: Packages, packages: seq<Location>): Profile {
    map n | n in AllNames(bins, packages) && LastProvider(bins, packages, n).Some?
      :: Link(LastProvider(bins, packages, n).value, n)
  }

  /** A package that has a store path and a `bin` directory provides the regular files in it. */
  lemma ProvidesMeans(bins: Packages, at: Location, n: Name)
    ensures Provides(bins, at, n) <==> at.path != "" && at in bins && DirEntry(n, true) in bins[at]
  {
    if at.path != "" && at in bins && DirEntry(n, true) in bins[at] {
      var i :| 0 <= i < |bins[at]| && bins[at][i] == DirEntry(n, true);
      assert Listing(bins, at)[i] == DirEntry(n, true);
    }
  }

  /** The position of the last package of the list that provides a binary, or -1. */
  function LastProviderAt(bins: Packages, packages: seq<Location>, n: Name): (i: int)
    ensures -1 <= i < |packages| && (i >= 0 ==> Provides(bins, packages[i], n))
    ensures forall j :: i < j < |packages| ==> !Provides(bins, packages[j], n)
  {
    var last := |packages| - 1;
    if packages == [] then -1
    else if Provides(bins, packages[last], n) then last
    else
      assert forall j :: 0 <= j < last ==> packages[j] == packages[..last][j];
      LastProviderAt(bins, packages[..last], n)
  }

  lemma {:induction false} LastProviderIs(bins: Packages, packages: seq<Location>, n: Name)
    ensures var i := LastProviderAt(bins, packages, n);
            LastProvider(bins, packages, n) == if i < 0 then None else Some(packages[i])
  {
    if packages != [] { LastProviderIs(bins, packages[..|packages| - 1], n); }
  }

  /** A name is in the profile exactly when some package provides it, as a link to the last one that does. */
  lemma ProfileHolds(bins: Packages, packages: seq<Location>, n: Name)
    ensures n in ProfileOf(bins, packages) <==> exists i :: 0 <= i < |packages| && Provides(bins, packages[i], n)
    ensures n in ProfileOf(bins, packages) ==>
              var i := LastProviderAt(bins, packages, n);
              i >= 0 && ProfileOf(bins, packages)[n] == Link(packages[i], n)
  {
    LastProviderIs(bins, packages, n);
    if LastProvider(bins, packages, n).Some? {
      ProviderIsListed(bins, packages, n);
    }
  }

  // ----- Populating, one link at a time -----

  /** A link to be made. */
  datatype Planned = Planned(at: Location, name: Name)

  function PlanListing(at: Location, listing: seq<DirEntry>): seq<Planned> {
    if listing == [] then []
    else
      var e := listing[|listing| - 1];
      PlanListing(at, listing[..|listing| - 1]) + if e.isFile then [Planned(at, e.name)] else []
  }

  /** The links of all packages in the order in which they are made. */
  function Plan(bins: Packages, packages: seq<Location>): seq<Planned> {
    if packages == [] then []
    else
      var at := packages[|packages| - 1];
      Plan(bins, packages[..|packages| - 1]) + PlanListing(at, Listing(bins, at))
  }

  /** The number of links made, repetitions included. */
  function LinkCount(bins: Packages, packages: seq<Location>): nat {
    |Plan(bins, packages)|
  }

  /** The regular files of a listing. */
  function FilesIn(listing: seq<DirEntry>): set<nat> {
    set i | 0 <= i < |listing| && listing[i].isFile
  }

  lemma {:induction false} PlanListingSize(at: Location, listing: seq<DirEntry>)
    ensures |PlanListing(at, listing)| == |FilesIn(listing)|
  {
    if listing != [] {
      var init, e := listing[..|listing| - 1], listing[|listing| - 1];
      PlanListingSize(at, init);
      assert FilesIn(listing) == FilesIn(init) + if e.isFile then {|listing| - 1} else {};
    }
  }

  /** Every package adds the number of regular files that it provides. */
  lemma LinkCountMore(bins: Packages, packages: seq<Location>, at: Location)
    ensures LinkCount(bins, []) == 0
    ensures LinkCount(bins, packages + [at])
            == LinkCount(bins, packages) + if at.path != "" && at in bins then |FilesIn(bins[at])| else 0
  {
    assert (packages + [at])[..|packages|] == packages;
    PlanListingSize(at, Listing(bins, at));
    assert FilesIn([]) == {};
  }

  /** The directory after some links were made. */
  function Make(dir: Profile, plan: seq<Planned>): Profile {
    if plan == [] then dir
    else
      var p := plan[|plan| - 1];
      Make(dir, plan[..|plan| - 1])[p.name := Link(p.at, p.name)]
  }

  lemma MakeMore(dir: Profile, plan: seq<Planned>, p: Planned)
    ensures Make(dir, plan + [p]) == Make(dir, plan)[p.name := Link(p.at, p.name)]
  {
    assert (plan + [p])[..|plan|] == plan;
  }

  function Entry(dir: Profile, n: Name): Option<Object> {
    if n in dir then Some(dir[n]) else None
  }

  /** The last link planned under a name. */
  function LastPlanned(plan: seq<Planned>, n: Name): Option<Location> {
    if plan == [] then None
    else if plan[|plan| - 1].name == n then Some(plan[|plan| - 1].at)
    else LastPlanned(plan[..|plan| - 1], n)
  }

  lemma {:induction false} LastPlannedJoin(a: seq<Planned>, b: seq<Planned>, n: Name)
    ensures LastPlanned(a + b, n) == if LastPlanned(b, n).Some? then LastPlanned(b, n) else LastPlanned(a, n)
    decreases |b|
  {
    if b == [] {
      assert a + b == a;
    } else {
      assert (a + b)[..|a + b| - 1] == a + b[..|b| - 1] && (a + b)[|a + b| - 1] == b[|b| - 1];
      LastPlannedJoin(a, b[..|b| - 1], n);
    }
  }

  lemma {:induction false} LastPlannedIs(plan: seq<Planned>, n: Name)
    ensures LastPlanned(plan, n).Some? <==> exists j :: 0 <= j < |plan| && plan[j].name == n
  {
    if plan != [] {
      var init := plan[..|plan| - 1];
      LastPlannedIs(init, n);
      if LastPlanned(init, n).Some? {
        var j :| 0 <= j < |init| && init[j].name == n;
        assert plan[j].name == n;
      }
      if j :| 0 <= j < |plan| && plan[j].name == n {
        assert j < |init| ==> init[j].name == n;
      }
    }
  }

  predicate Among(listing: seq<DirEntry>, n: Name) {
    exists i :: 0 <= i < |listing| && listing[i] == DirEntry(n, true)
  }

  lemma AmongLast(listing: seq<DirEntry>, n: Name)
    requires listing != []
    ensures Among(listing, n) <==> Among(listing[..|listing| - 1], n) || listing[|listing| - 1] == DirEntry(n, true)
  {
  }

  lemma {:induction false} ListingPlanned(at: Location, listing: seq<DirEntry>, n: Name)
    ensures LastPlanned(PlanListing(at, listing), n) == if Among(listing, n) then Some(at) else None
  {
    if listing != [] {
      var init, e := listing[..|listing| - 1], listing[|listing| - 1];
      ListingPlanned(at, init, n);
      AmongLast(listing, n);
      LastPlannedJoin(PlanListing(at, init), if e.isFile then [Planned(at, e.name)] else [], n);
      assert e == DirEntry(e.name, e.isFile);
      assert [Planned(at, e.name)][..0] == [];
    }
  }

  /** The last link planned under a name is that of its last provider. */
  lemma {:induction false} ProviderPlanned(bins: Packages, packages: seq<Location>, n: Name)
    ensures LastPlanned(Plan(bins, packages), n) == LastProvider(bins, packages, n)
  {
    if packages != [] {
      var init, at := packages[..|packages| - 1], packages[|packages| - 1];
      ProviderPlanned(bins, init, n);
      ListingPlanned(at, Listing(bins, at), n);
      LastPlannedJoin(Plan(bins, init), PlanListing(at, Listing(bins, at)), n);
      assert Provides(bins, at, n) <==> Among(Listing(bins, at), n);
    }
  }

  lemma {:induction false} MakeAt(dir: Profile, plan: seq<Planned>, n: Name)
    ensures Entry(Make(dir, plan), n)
            == match LastPlanned(plan, n) case Some(at) => Some(Link(at, n)) case None => Entry(dir, n)
  {
    if plan != [] {
      MakeAt(dir, plan[..|plan| - 1], n);
    }
  }

  lemma {:induction false} ProviderIsListed(bins: Packages, packages: seq<Location>, n: Name)
    requires LastProvider(bins, packages, n).Some?
    ensures n in AllNames(bins, packages)
  {
    var init, at := packages[..|packages| - 1], packages[|packages| - 1];
    if Provides(bins, at, n) {
      var j :| 0 <= j < |Listing(bins, at)| && Listing(bins, at)[j] == DirEntry(n, true);
      assert Listing(bins, packages[|packages| - 1])[j].name == n;
    } else {
      ProviderIsListed(bins, init, n);
      var i, j :| 0 <= i < |init| && 0 <= j < |Listing(bins, init[i])| && Listing(bins, init[i])[j].name == n;
      assert packages[i] == init[i];
      assert Listing(bins, packages[i])[j].name == n;
    }
  }

  /** Populating overlays what was there with the profile of the package list. */
  lemma PopulatedProfile(dir: Profile, bins: Packages, packages: seq<Location>)
    ensures Make(dir, Plan(bins, packages)) == dir + ProfileOf(bins, packages)
  {
    forall n ensures Entry(Make(dir, Plan(bins, packages)), n) == Entry(dir + ProfileOf(bins, packages), n) {
      PopulatedAt(dir, bins, packages, n);
    }
    SameEntries(Make(dir, Plan(bins, packages)), dir + ProfileOf(bins, packages));
  }

  lemma PopulatedAt(dir: Profile, bins: Packages, packages: seq<Location>, n: Name)
    ensures Entry(Make(dir, Plan(bins, packages)), n) == Entry(dir + ProfileOf(bins, packages), n)
  {
    MakeAt(dir, Plan(bins, packages), n);
    ProviderPlanned(bins, packages, n);
    if LastProvider(bins, packages, n).Some? { ProviderIsListed(bins, packages, n); }
  }

  lemma SameEntries(a: Profile, b: Profile)
    requires forall n :: Entry(a, n) == Entry(b, n)
    ensures a == b
  {
    forall n ensures n in a <==> n in b { assert Entry(a, n) == Entry(b, n); }
    forall n | n in a ensures a[n] == b[n] { assert Entry(a, n) == Entry(b, n); }
  }

  predicate LinksOnly(dir: Profile) {
    forall n :: n in dir ==> dir[n].Link?
  }

  predicate AllLinks(s: Slots) {
    forall w :: w in s ==> LinksOnly(s[w])
  }

  function NonLinks(dir: Profile): Profile {
    map n | n in dir && !dir[n].Link? :: dir[n]
  }

  // ----- Faults -----

  /** Where making links stops by itself: at a listing that fails when so many links have been made,
      possibly all of them, or at a link that cannot be made although its name is free. */
  datatype Halt = Never | Early(link: nat) | Late(link: nat)

  /** A directory in the way of a link cannot be removed. */
  predicate InTheWay(dir: Profile, n: Name) {
    n in dir && dir[n].Subdir?
  }

  predicate Fails(dir: Profile, p: Planned, h: Halt, j: nat) {
    InTheWay(dir, p.name) || (!h.Never? && h.link == j)
  }

  /** None of the links fails. */
  predicate Unhindered(dir: Profile, plan: seq<Planned>, h: Halt) {
    forall j :: 0 <= j < |plan| ==> !Fails(dir, plan[j], h, j)
  }

  /** What a failing link leaves of the directory. */
  function Interrupted(dir: Profile, p: Planned, h: Halt): Profile {
    if InTheWay(dir, p.name) || h.Early? then dir else dir - {p.name}
  }

  /** The number of links made: all, or those before the first that fails. */
  function Made(dir: Profile, plan: seq<Planned>, h: Halt): (k: nat)
    ensures k <= |plan|
  {
    if plan == [] then 0
    else
      var k, j := Made(dir, plan[..|plan| - 1], h), |plan| - 1;
      if k < j || Fails(dir, plan[j], h, j) then k else j + 1
  }

  /** The directory when populating has ended, completely or not. */
  function Populated(dir: Profile, plan: seq<Planned>, h: Halt): Profile {
    var k := Made(dir, plan, h);
    if k == |plan| then Make(dir, plan) else Interrupted(Make(dir, plan[..k]), plan[k], h)
  }

  lemma {:induction false} MadeAll(dir: Profile, plan: seq<Planned>, h: Halt)
    ensures Made(dir, plan, h) == |plan| <==> Unhindered(dir, plan, h)
  {
    if plan != [] {
      var init, j := plan[..|plan| - 1], |plan| - 1;
      MadeAll(dir, init, h);
      if Unhindered(dir, init, h) && !Fails(dir, plan[j], h, j) {
        forall i | 0 <= i < |plan| ensures !Fails(dir, plan[i], h, i) {
          assert i < |init| ==> !Fails(dir, init[i], h, i);
        }
      }
      if Unhindered(dir, plan, h) {
        forall i | 0 <= i < |init| ensures !Fails(dir, init[i], h, i) {
          assert !Fails(dir, plan[i], h, i);
        }
      }
    }
  }

  /** The first failing link decides, whatever follows. */
  lemma {:induction false} MadeUntil(dir: Profile, plan: seq<Planned>, h: Halt, j: nat)
    requires j < |plan| && Unhindered(dir, plan[..j], h) && Fails(dir, plan[j], h, j)
    ensures Made(dir, plan, h) == j
    ensures Populated(dir, plan, h) == Interrupted(Make(dir, plan[..j]), plan[j], h)
    decreases |plan|
  {
    MadeAll(dir, plan[..j], h);
    if j < |plan| - 1 {
      var init := plan[..|plan| - 1];
      assert init[..j] == plan[..j];
      MadeUntil(dir, init, h, j);
    }
  }

  lemma {:induction false} MadeUnhindered(dir: Profile, plan: seq<Planned>, h: Halt)
    ensures Unhindered(dir, plan[..Made(dir, plan, h)], h)
  {
    if plan != [] {
      var init, k := plan[..|plan| - 1], Made(dir, plan, h);
      MadeUnhindered(dir, init, h);
      MadeAll(dir, plan, h);
      if k < |plan| {
        assert init[..k] == plan[..k];
      } else {
        assert plan[..k] == plan;
      }
    }
  }

  /** A link that could not be made has freed this name. */
  predicate Freed(kept: Profile, plan: seq<Planned>, h: Halt, n: Name) {
    var k := Made(kept, plan, h);
    k < |plan| && n == plan[k].name && !InTheWay(kept, n) && !h.Early?
  }

  /** Under one name: what populating `kept` leaves is what `dir` holds. A name freed at the end is
      absent, a name with a link made holds the last one, and any other is as it was. */
  predicate NameRestored(kept: Profile, dir: Profile, plan: seq<Planned>, h: Halt, n: Name) {
    if Freed(kept, plan, h, n) then n !in dir
    else match LastPlanned(plan[..Made(kept, plan, h)], n)
      case Some(at) => n in dir && dir[n] == Link(at, n)
      case None => Entry(dir, n) == Entry(kept, n)
  }

  lemma PopulatedAtName(kept: Profile, dir: Profile, plan: seq<Planned>, h: Halt, n: Name)
    ensures Entry(Populated(kept, plan, h), n) == Entry(dir, n) <==> NameRestored(kept, dir, plan, h, n)
  {
    var k := Made(kept, plan, h);
    var done := plan[..k];
    MadeUnhindered(kept, plan, h);
    MakeAt(kept, done, n);
    if k < |plan| {
      StillInTheWay(kept, done, plan[k], h);
    } else {
      assert done == plan;
    }
  }

  /** Populating ends with a given directory exactly when it does so under every name. */
  lemma PopulatedByName(kept: Profile, dir: Profile, plan: seq<Planned>, h: Halt)
    ensures Populated(kept, plan, h) == dir <==> forall n :: NameRestored(kept, dir, plan, h, n)
  {
    forall n ensures Entry(Populated(kept, plan, h), n) == Entry(dir, n) <==> NameRestored(kept, dir, plan, h, n) {
      PopulatedAtName(kept, dir, plan, h, n);
    }
    if forall n :: NameRestored(kept, dir, plan, h, n) {
      SameEntries(Populated(kept, plan, h), dir);
    }
  }

  predicate Blocked(dir: Profile, bins: Packages, packages: seq<Location>) {
    exists n :: n in dir && dir[n].Subdir? && LastProvider(bins, packages, n).Some?
  }

  /** Some package has a directory to be listed. */
  predicate HasListing(bins: Packages, packages: seq<Location>) {
    exists i :: 0 <= i < |packages| && packages[i].path != "" && packages[i] in bins
  }

  /** A listing fails after all links were made. */
  predicate EndFails(bins: Packages, packages: seq<Location>, h: Halt) {
    h == Early(LinkCount(bins, packages)) && HasListing(bins, packages)
  }

  predicate CanPopulate(dir: Profile, bins: Packages, packages: seq<Location>, h: Halt) {
    && !Blocked(dir, bins, packages)
    && (h.Never? || h.link >= LinkCount(bins, packages)) && !EndFails(bins, packages, h)
  }

  lemma UnhinderedWhen(dir: Profile, bins: Packages, packages: seq<Location>, h: Halt)
    ensures Unhindered(dir, Plan(bins, packages), h) && !EndFails(bins, packages, h)
            <==> CanPopulate(dir, bins, packages, h)
  {
    var plan := Plan(bins, packages);
    if !h.Never? && h.link < |plan| {
      assert Fails(dir, plan[h.link], h, h.link);
    }
    if n :| n in dir && dir[n].Subdir? && LastProvider(bins, packages, n).Some? {
      ProviderPlanned(bins, packages, n);
      LastPlannedIs(plan, n);
      var j :| 0 <= j < |plan| && plan[j].name == n;
      assert Fails(dir, plan[j], h, j);
    }
    if j :| 0 <= j < |plan| && Fails(dir, plan[j], h, j) && InTheWay(dir, plan[j].name) {
      ProviderPlanned(bins, packages, plan[j].name);
      LastPlannedIs(plan, plan[j].name);
    }
  }

  /** What a best-effort removal leaves: nothing, or the entries that could not be removed. */
  datatype Leave = Gone | Left(kept: set<Name>)

  function Restrict(dir: Profile, kept: set<Name>): Profile {
    map n | n in dir && n in kept :: dir[n]
  }

  function Cleaned(s: Slots, which: Slot, leave: Leave): Slots {
    if which !in s then s
    else match leave
      case Gone => s - {which}
      case Left(kept) => s[which := Restrict(s[which], kept)]
  }

  /** Which operations work. */
  datatype Faults = Faults(cleanStaging: Leave, cleanNew: Leave, cleanOld: Leave, makeStaging: bool, populate: Halt,
                           toNew: bool, makeParent: bool, toOld: bool, toBin: bool, rollback: bool,
                           cleanReplaced: Leave, cleanUnused: Leave)

  datatype SwapError = StagingFailed | PopulateFailed | ToNewFailed | ParentFailed | ToOldFailed | ToBinFailed

  /** After the leftovers of earlier attempts were removed. */
  function Cleared(s: Slots, f: Faults): Slots {
    Cleaned(Cleaned(Cleaned(s, Staging, f.cleanStaging), BinNew, f.cleanNew), BinOld, f.cleanOld)
  }

  /** What is linked, plus what the clean-up of the staging directory left. */
  function NewProfile(s: Slots, f: Faults, bins: Packages, packages: seq<Location>): Profile {
    Content(Cleaned(s, Staging, f.cleanStaging), Staging) + ProfileOf(bins, packages)
  }

  predicate Vacant(s: Slots, which: Slot) {
    which in s ==> s[which] == map[]
  }

  // ----- Safety -----

  /** `bin` is the complete old profile, the complete new one or absent, and the old profile is
      in `bin` or `bin.old` until the new one is in place. */
  predicate Safe(s: Slots, was: Option<Profile>, new': Profile) {
    && (Get(s, Bin) == was || Get(s, Bin) == Some(new') || Get(s, Bin) == None)
    && (Get(s, Bin) == was || Get(s, Bin) == Some(new') || Get(s, BinOld) == was)
  }

  predicate SafeFrom(trace: seq<Slots>, start: nat, was: Option<Profile>, new': Profile) {
    forall i :: start <= i < |trace| ==> Safe(trace[i], was, new')
  }

  /** Two states differ in one directory at most. */
  predicate SameExcept(a: Slots, b: Slots, which: Slot) {
    forall w :: w != which ==> Get(a, w) == Get(b, w)
  }

  predicate OnlyChanges(trace: seq<Slots>, start: nat, s: Slots, which: Slot) {
    forall i :: start <= i < |trace| ==> SameExcept(trace[i], s, which)
  }

  class Profiles {
    var slots: Slots
    ghost var trace: seq<Slots>

    /** One atomic change, remembered. */
    method Become(s: Slots)
      modifies this
      ensures slots == s && trace == old(trace) + [s]
    {
      slots := s;
      trace := trace + [s];
    }

    method Cleanup(which: Slot, leave: Leave)
      modifies this
      ensures slots == Cleaned(old(slots), which, leave) && trace == old(trace) + [slots]
    {
      Become(Cleaned(slots, which, leave));
    }

    /** Rename a directory; an existing target must be empty. */
    method Rename(from: Slot, to: Slot, works: bool) returns (ok: bool)
      requires from in slots && from != to
      modifies this
      ensures ok <==> works && Vacant(old(slots), to)
      ensures slots == if ok then (old(slots) - {from})[to := old(slots)[from]] else old(slots)
      ensures trace == old(trace) + [slots]
    {
      ok := works && (to !in slots || slots[to] == map[]);
      Become(if ok then (slots - {from})[to := slots[from]] else slots);
    }

    /** Put one link, removing what was under the name before. */
    method PutLink(which: Slot, p: Planned, h: Halt, j: nat) returns (ok: bool)
      requires which in slots
      modifies this
      ensures ok <==> !Fails(old(slots)[which], p, h, j)
      ensures ok ==> slots == old(slots)[which := old(slots)[which][p.name := Link(p.at, p.name)]]
      ensures !ok ==> slots == old(slots)[which := Interrupted(old(slots)[which], p, h)]
      ensures Extends(old(trace), trace, old(slots), which)
    {
      SameSlot(slots, which);
      if h == Early(j) {
        return false;
      }
      if p.name in slots[which] {
        if slots[which][p.name].Subdir? {
          return false;
        }
        Become(slots[which := slots[which] - {p.name}]);
      }
      FreeName(old(slots), which, p.name);
      if h == Late(j) {
        return false;
      }
      Become(slots[which := slots[which][p.name := Link(p.at, p.name)]]);
      Relinked(old(slots), which, p.name, Link(p.at, p.name));
      ok := true;
    }

    /** One link of the plan; `done` are the links made before. */
    method LinkEntry(which: Slot, p: Planned, h: Halt, j: nat, ghost was: Slots, ghost done: seq<Planned>,
                     ghost before: seq<Slots>)
      returns (ok: bool)
      requires j == |done| && Placed(was, slots, which, done, h) && Extends(before, trace, was, which)
      modifies this
      ensures ok <==> !Fails(was[which], p, h, j)
      ensures ok ==> Placed(was, slots, which, done + [p], h)
      ensures !ok ==> slots == was[which := Interrupted(Make(was[which], done), p, h)]
      ensures Extends(before, trace, was, which)
    {
      ghost var mid := slots;
      StillInTheWay(was[which], done, p, h);
      ok := PutLink(which, p, h, j);
      ChangesJoin(before, old(trace), trace, was, mid, which);
      if ok {
        PlacedMore(was, mid, slots, which, done, p, h);
      }
    }

    /** The links of one package; `count` counts the links made. */
    method PopulateListing(which: Slot, at: Location, listing: seq<DirEntry>, h: Halt, made: nat,
                           ghost was: Slots, ghost done: seq<Planned>, ghost before: seq<Slots>)
      returns (ok: bool, count: nat)
      requires made == |done| && Placed(was, slots, which, done, h) && Extends(before, trace, was, which)
      modifies this
      ensures ok ==> Placed(was, slots, which, done + PlanListing(at, listing), h)
      ensures ok ==> count == |done + PlanListing(at, listing)|
      ensures !ok ==> Stopped(was, slots, which, done + PlanListing(at, listing), h, count)
      ensures Extends(before, trace, was, which)
    {
      ok, count := true, made;
      assert done + PlanListing(at, listing[..0]) == done;
      for i := 0 to |listing|
        invariant Placed(was, slots, which, done + PlanListing(at, listing[..i]), h)
        invariant count == |done + PlanListing(at, listing[..i])| && Extends(before, trace, was, which)
      {
        PlanStep(at, listing, i, done);
        if listing[i].isFile {
          var p := Planned(at, listing[i].name);
          ok := LinkEntry(which, p, h, count, was, done + PlanListing(at, listing[..i]), before);
          if !ok {
            StoppedHere(was, slots, which, done + PlanListing(at, listing[..i]), p, h);
            PlanPrefix(at, listing, i + 1, done);
            StoppedLater(was, slots, which, done + PlanListing(at, listing[..i + 1]), done + PlanListing(at, listing),
                         h, count);
            return;
          }
          count := count + 1;
        }
      }
      assert listing[..|listing|] == listing;
    }

    /** Link the binaries of all packages into one directory and count the links. */
    method Populate(which: Slot, bins: Packages, packages: seq<Location>, h: Halt) returns (ok: bool, count: nat)
      requires which in slots
      modifies this
      ensures ok <==> CanPopulate(old(slots)[which], bins, packages, h)
      ensures ok ==> count == LinkCount(bins, packages)
      ensures ok ==> slots == old(slots)[which := old(slots)[which] + ProfileOf(bins, packages)]
      ensures slots == old(slots)[which := Populated(old(slots)[which], Plan(bins, packages), h)]
      ensures Extends(old(trace), trace, old(slots), which)
    {
      ghost var was, dir, plan := slots, slots[which], Plan(bins, packages);
      ok, count := PopulateAll(which, bins, packages, h);
      UnhinderedWhen(dir, bins, packages, h);
      PopulatedProfile(dir, bins, packages);
      MadeAll(dir, plan, h);
      if !ok {
        StoppedPopulated(was, slots, which, plan, h, count);
      } else if h == Early(count) && HasListing(bins, packages) {
        ok := false;
      }
    }

    /** The loop over the packages. */
    method PopulateAll(which: Slot, bins: Packages, packages: seq<Location>, h: Halt) returns (ok: bool, count: nat)
      requires which in slots
      modifies this
      ensures ok ==> Placed(old(slots), slots, which, Plan(bins, packages), h) && count == LinkCount(bins, packages)
      ensures !ok ==> Stopped(old(slots), slots, which, Plan(bins, packages), h, count)
      ensures Extends(old(trace), trace, old(slots), which)
    {
      ghost var was, before := slots, trace;
      NothingPlaced(was, which, h);
      ok, count := true, 0;
      for i := 0 to |packages|
        invariant Placed(was, slots, which, Plan(bins, packages[..i]), h) && count == |Plan(bins, packages[..i])|
        invariant Extends(before, trace, was, which)
      {
        PackageStep(bins, packages, i);
        ok, count := PopulateListing(which, packages[i], Listing(bins, packages[i]), h, count, was,
                                     Plan(bins, packages[..i]), before);
        if !ok {
          PackagePrefix(bins, packages, i + 1);
          StoppedLater(was, slots, which, Plan(bins, packages[..i + 1]), Plan(bins, packages), h, count);
          return;
        }
      }
      assert packages[..|packages|] == packages;
    }
  }

  lemma SameSlot(s: Slots, which: Slot)
    requires which in s
    ensures s[which := s[which]] == s
  {
  }

  lemma FreeName(s: Slots, which: Slot, n: Name)
    requires which in s
    ensures n !in s[which] ==> s[which := s[which] - {n}] == s
  {
    if n !in s[which] {
      assert s[which] - {n} == s[which];
      SameSlot(s, which);
    }
  }

  lemma Relinked(s: Slots, which: Slot, n: Name, x: Object)
    requires which in s
    ensures s[which := s[which] - {n}][which := (s[which] - {n})[n := x]] == s[which := s[which][n := x]]
  {
    assert (s[which] - {n})[n := x] == s[which][n := x];
  }

  /** The directory holds the links made so far, and none of them failed. */
  ghost predicate Placed(was: Slots, now: Slots, which: Slot, done: seq<Planned>, h: Halt) {
    which in was && now == was[which := Make(was[which], done)] && Unhindered(was[which], done, h)
  }

  /** Link `j` of the plan failed. */
  ghost predicate Stopped(was: Slots, now: Slots, which: Slot, plan: seq<Planned>, h: Halt, j: nat) {
    && which in was && j < |plan|
    && Unhindered(was[which], plan[..j], h) && Fails(was[which], plan[j], h, j)
    && now == was[which := Interrupted(Make(was[which], plan[..j]), plan[j], h)]
  }

  lemma NothingPlaced(s: Slots, which: Slot, h: Halt)
    requires which in s
    ensures Placed(s, s, which, [], h)
  {
    SameSlot(s, which);
  }

  lemma PlacedMore(was: Slots, mid: Slots, now: Slots, which: Slot, done: seq<Planned>, p: Planned, h: Halt)
    requires Placed(was, mid, which, done, h) && !Fails(was[which], p, h, |done|)
    requires now == mid[which := mid[which][p.name := Link(p.at, p.name)]]
    ensures Placed(was, now, which, done + [p], h)
  {
    MakeMore(was[which], done, p);
    UnhinderedMore(was[which], done, p, h);
  }

  lemma UnhinderedMore(dir: Profile, done: seq<Planned>, p: Planned, h: Halt)
    requires Unhindered(dir, done, h) && !Fails(dir, p, h, |done|)
    ensures Unhindered(dir, done + [p], h)
  {
    var more := done + [p];
    forall j | 0 <= j < |more| ensures !Fails(dir, more[j], h, j) {
      assert j < |done| ==> !Fails(dir, done[j], h, j);
    }
  }

  /** Making links that do not fail puts no directory in the way and removes none. */
  lemma StillInTheWay(dir: Profile, done: seq<Planned>, p: Planned, h: Halt)
    requires Unhindered(dir, done, h)
    ensures InTheWay(Make(dir, done), p.name) <==> InTheWay(dir, p.name)
  {
    MakeAt(dir, done, p.name);
    LastPlannedIs(done, p.name);
    if j :| 0 <= j < |done| && done[j].name == p.name {
      assert !Fails(dir, done[j], h, j);
    }
  }

  lemma StoppedHere(was: Slots, now: Slots, which: Slot, done: seq<Planned>, p: Planned, h: Halt)
    requires which in was && Unhindered(was[which], done, h) && Fails(was[which], p, h, |done|)
    requires now == was[which := Interrupted(Make(was[which], done), p, h)]
    ensures Stopped(was, now, which, done + [p], h, |done|)
  {
    assert (done + [p])[..|done|] == done;
  }

  lemma StoppedLater(was: Slots, now: Slots, which: Slot, plan: seq<Planned>, longer: seq<Planned>, h: Halt, j: nat)
    requires Stopped(was, now, which, plan, h, j) && plan <= longer
    ensures Stopped(was, now, which, longer, h, j)
  {
    assert longer[..j] == plan[..j];
  }

  lemma StoppedPopulated(was: Slots, now: Slots, which: Slot, plan: seq<Planned>, h: Halt, j: nat)
    requires Stopped(was, now, which, plan, h, j)
    ensures now == was[which := Populated(was[which], plan, h)] && !Unhindered(was[which], plan, h)
  {
    MadeUntil(was[which], plan, h, j);
  }

  lemma PlanStep(at: Location, listing: seq<DirEntry>, i: nat, done: seq<Planned>)
    requires i < |listing|
    ensures done + PlanListing(at, listing[..i + 1])
            == if listing[i].isFile then done + PlanListing(at, listing[..i]) + [Planned(at, listing[i].name)]
               else done + PlanListing(at, listing[..i])
  {
    assert listing[..i + 1][..i] == listing[..i];
  }

  lemma {:induction false} PlanPrefix(at: Location, listing: seq<DirEntry>, i: nat, done: seq<Planned>)
    requires i <= |listing|
    ensures done + PlanListing(at, listing[..i]) <= done + PlanListing(at, listing)
    decreases |listing|
  {
    if i < |listing| {
      assert listing[..|listing| - 1][..i] == listing[..i];
      PlanPrefix(at, listing[..|listing| - 1], i, done);
    } else {
      assert listing[..i] == listing;
    }
  }

  lemma PackageStep(bins: Packages, packages: seq<Location>, i: nat)
    requires i < |packages|
    ensures Plan(bins, packages[..i + 1])
            == Plan(bins, packages[..i]) + PlanListing(packages[i], Listing(bins, packages[i]))
  {
    assert packages[..i + 1][..i] == packages[..i];
  }

  lemma {:induction false} PackagePrefix(bins: Packages, packages: seq<Location>, i: nat)
    requires i <= |packages|
    ensures Plan(bins, packages[..i]) <= Plan(bins, packages)
    decreases |packages|
  {
    if i < |packages| {
      assert packages[..|packages| - 1][..i] == packages[..i];
      PackagePrefix(bins, packages[..|packages| - 1], i);
    } else {
      assert packages[..i] == packages;
    }
  }

  /** The states since `before` differ from `s` in one directory at most. */
  ghost predicate Extends(before: seq<Slots>, trace: seq<Slots>, s: Slots, which: Slot) {
    before <= trace && OnlyChanges(trace, |before|, s, which)
  }

  lemma ChangesJoin(before: seq<Slots>, mid: seq<Slots>, trace: seq<Slots>, a: Slots, b: Slots, which: Slot)
    requires Extends(before, mid, a, which) && SameExcept(b, a, which) && Extends(mid, trace, b, which)
    ensures Extends(before, trace, a, which)
  {
  }

  // ----- Links only -----

  lemma {:induction false} MakeLinksOnly(dir: Profile, plan: seq<Planned>)
    requires LinksOnly(dir)
    ensures LinksOnly(Make(dir, plan))
  {
    if plan != [] { MakeLinksOnly(dir, plan[..|plan| - 1]); }
  }

  lemma PopulatedLinksOnly(dir: Profile, plan: seq<Planned>, h: Halt)
    requires LinksOnly(dir)
    ensures LinksOnly(Populated(dir, plan, h))
  {
    MakeLinksOnly(dir, plan);
    MakeLinksOnly(dir, plan[..Made(dir, plan, h)]);
  }
}
