/** What a merged manifest holds, field by field. */
module MergedManifest {
  // Merging is described by `IsMerge`; here its result is told from the configuration and the
  // current manifest alone (`merge_config` in snix-redox/src/rebuild.rs).

  import opened Results
  import opened Bytes
  import opened Listings
  import opened ManagedMode
  import opened ConfigFiles
  import opened MergeConfig

  // ----- Files -----

  /** Of the spellings of one path in a configuration, `k` is the greatest, which is put in last. */
  ghost predicate Decides(input: map<Key, FileInput>, k: Key) {
    && k in input && StoredKey(k).Some?
    && forall k' :: k' in input && StoredKey(k') == StoredKey(k) ==> k' == k || Below(k'.text, k.text)
  }

  predicate Spells(t: Text, q: Key) {
    StoredKey(Key(t)) == Some(q)
  }

  /** The last position of a spelling, or -1. */
  function LastAt(names: seq<Text>, q: Key): (i: int)
    ensures -1 <= i < |names| && (i >= 0 ==> Spells(names[i], q))
    ensures forall j :: i < j < |names| ==> !Spells(names[j], q)
  {
    if names == [] then -1
    else if Spells(names[|names| - 1], q) then |names| - 1
    else
      assert forall j :: 0 <= j < |names| - 1 ==> names[j] == names[..|names| - 1][j];
      LastAt(names[..|names| - 1], q)
  }

  lemma {:induction false} LastSpellingAt(names: seq<Text>, q: Key)
    ensures LastSpelling(names, q) == if LastAt(names, q) < 0 then None else Some(Key(names[LastAt(names, q)]))
  {
    if names != [] { LastSpellingAt(names[..|names| - 1], q); }
  }

  /** The last spelling is the greatest. */
  lemma LastIsGreatest(names: seq<Text>, q: Key, i: nat)
    requires Ascending(names) && i < |names| && Spells(names[i], q)
    ensures LastAt(names, q) >= i && (names[i] == names[LastAt(names, q)] || Below(names[i], names[LastAt(names, q)]))
  {
    var l := LastAt(names, q);
    AscendingPair(names, i, l);
  }

  lemma AscendingPair(names: seq<Text>, i: nat, l: int)
    requires Ascending(names) && i < |names| && l < |names|
    ensures i < l ==> Below(names[i], names[l])
  {
  }

  lemma GreatestDecides(input: map<Key, FileInput>, k: Key)
    requires Decides(input, k)
    ensures LastSpelling(Spellings(input), StoredKey(k).value) == Some(k)
  {
    var names, q := Spellings(input), StoredKey(k).value;
    SpellingsAre(input, k.text);
    var i :| 0 <= i < |names| && names[i] == k.text;
    assert k == Key(k.text);
    LastIsGreatest(names, q, i);
    LastSpellingAt(names, q);
    var l := Key(names[LastAt(names, q)]);
    SpellingsAre(input, l.text);
    assert l in input && StoredKey(l) == Some(q);
    if l != k { NotBelowBoth(k.text, l.text); }
  }

  lemma NotBelowBoth(a: Text, b: Text)
    requires Below(a, b)
    ensures !Below(b, a) && a != b
  {
    BelowIrreflexive(a);
    if Below(b, a) { BelowTransitive(a, b, a); }
  }

  /** A configured file is in the merged manifest with its own text, hash, size and mode. */
  lemma ConfiguredFile(current: Manifest, c: Config, resolved: seq<Package>, h: Text -> Hash, m: Manifest, k: Key)
    requires IsMerge(current, c, resolved, h, m) && c.files.Some? && Decides(c.files.value, k)
    ensures StoredKey(k).value in m.files
    ensures var file, info := c.files.value[k], m.files[StoredKey(k).value];
            && info.text == Some(file.text) && info.hash == h(file.text) && info.size == |file.text|
            && ParseMode(info.mode).Some?
            && ParseMode(info.mode) == if file.mode.Some? then ParseMode(file.mode.value) else Some(0x1A4)
  {
    var input := c.files.value;
    var file := input[k];
    GreatestDecides(input, k);
    assert FileIs(m.files, Tracked(current.files), input, Spellings(input), h, StoredKey(k).value);
    NormalizeKeepsMode(if file.mode.Some? then file.mode.value else DEFAULT_MODE);
    FormattedModeParses(0x1A4);
  }

  /** Every other file of the merged manifest is one of the current manifest that has no text. */
  lemma OtherFiles(current: Manifest, c: Config, resolved: seq<Package>, h: Text -> Hash, m: Manifest, q: Key)
    requires IsMerge(current, c, resolved, h, m) && c.files.Some?
    requires forall k :: k in c.files.value ==> StoredKey(k) != Some(q)
    ensures q in m.files <==> q in current.files && current.files[q].text.None?
    ensures q in m.files ==> m.files[q] == current.files[q]
  {
    var input := c.files.value;
    var names := Spellings(input);
    LastSpellingAt(names, q);
    if LastAt(names, q) >= 0 {
      var l := Key(names[LastAt(names, q)]);
      SpellingsAre(input, l.text);
    }
    assert FileIs(m.files, Tracked(current.files), input, names, h, q);
  }

  /** One spelling decides for every configured path. */
  lemma SomeSpellingDecides(input: map<Key, FileInput>, k: Key)
    requires k in input && StoredKey(k).Some?
    ensures exists l :: Decides(input, l) && StoredKey(l) == StoredKey(k)
  {
    var names, q := Spellings(input), StoredKey(k).value;
    SpellingsAre(input, k.text);
    var i :| 0 <= i < |names| && names[i] == k.text;
    assert k == Key(k.text);
    LastIsGreatest(names, q, i);
    var l := Key(names[LastAt(names, q)]);
    SpellingsAre(input, l.text);
    forall k' | k' in input && StoredKey(k') == Some(q) ensures k' == l || Below(k'.text, l.text) {
      SpellingsAre(input, k'.text);
      var n :| 0 <= n < |names| && names[n] == k'.text;
      assert k' == Key(k'.text);
      LastIsGreatest(names, q, n);
    }
    assert Decides(input, l);
  }

  // ----- Users -----

  /** The users are the configured ones, and each has a group of its own name with itself as only member. */
  lemma UsersHaveGroups(current: Manifest, c: Config, resolved: seq<Package>, h: Text -> Hash, m: Manifest, n: Name)
    requires IsMerge(current, c, resolved, h, m) && c.users.Some?
    ensures n in m.users <==> n in c.users.value
    ensures n in m.groups <==> n in m.users
    ensures n in m.users ==>
              && m.users[n] == c.users.value[n]
              && m.groups[n].gid == m.users[n].gid && m.groups[n].members == [n]
  {
  }

  // ----- The order of packages -----

  /** The position of the first package with a name, or the length of the list. */
  function IndexOf(ps: seq<Package>, n: Name): (i: nat)
    ensures i <= |ps| && (i < |ps| ==> ps[i].name == n)
    ensures forall j :: 0 <= j < i ==> ps[j].name != n
  {
    if ps == [] || ps[0].name == n then 0
    else
      var i := IndexOf(ps[1..], n);
      assert forall j :: 0 < j <= i ==> j < |ps| ==> ps[j] == ps[1..][j - 1];
      i + 1
  }

  lemma IndexIs(ps: seq<Package>, n: Name, i: nat)
    requires i < |ps| && ps[i].name == n && forall j :: 0 <= j < i ==> ps[j].name != n
    ensures IndexOf(ps, n) == i
  {
  }

  lemma IndexNone(ps: seq<Package>, n: Name)
    requires forall j :: 0 <= j < |ps| ==> ps[j].name != n
    ensures IndexOf(ps, n) == |ps|
  {
  }

  /** Where a name is found is where its first package is. */
  lemma {:induction false} FirstIsAt(ps: seq<Package>, n: Name)
    ensures First(ps, n) == if IndexOf(ps, n) < |ps| then Some(ps[IndexOf(ps, n)]) else None
  {
    if ps != [] {
      var init := ps[..|ps| - 1];
      FirstIsAt(init, n);
      IndexMore(init, ps[|ps| - 1], n);
      SplitLast(ps);
    }
  }

  lemma IndexMore(ps: seq<Package>, p: Package, n: Name)
    ensures IndexOf(ps + [p], n)
            == if IndexOf(ps, n) < |ps| then IndexOf(ps, n) else if p.name == n then |ps| else |ps| + 1
  {
    var more, i := ps + [p], IndexOf(ps, n);
    assert forall j :: 0 <= j < |ps| ==> more[j] == ps[j];
    if i < |ps| {
      IndexIs(more, n, i);
    } else if p.name == n {
      IndexIs(more, n, |ps|);
    } else {
      IndexNone(more, n);
    }
  }

  lemma IndexJoin(a: seq<Package>, b: seq<Package>, n: Name)
    ensures IndexOf(a + b, n) == if IndexOf(a, n) < |a| then IndexOf(a, n) else |a| + IndexOf(b, n)
  {
    var all, i := a + b, IndexOf(a, n);
    assert forall j :: 0 <= j < |a| ==> all[j] == a[j];
    assert forall j :: |a| <= j < |all| ==> all[j] == b[j - |a|];
    if i < |a| {
      IndexIs(all, n, i);
    } else if IndexOf(b, n) < |b| {
      IndexIs(all, n, |a| + IndexOf(b, n));
    } else {
      IndexNone(all, n);
    }
  }

  /** The packages of the first list are in the order in which the second first names them. */
  ghost predicate InOrderOf(s: seq<Package>, ps: seq<Package>) {
    forall i, j :: 0 <= i < j < |s| ==> IndexOf(ps, s[i].name) < IndexOf(ps, s[j].name)
  }

  /** A list stays in order when what is appended is found further on. */
  lemma AppendInOrder(s: seq<Package>, more: seq<Package>, init: seq<Package>, ps: seq<Package>)
    requires InOrderOf(s, init) && |more| <= 1
    requires forall p :: p in s ==> IndexOf(ps, p.name) == IndexOf(init, p.name) < |init|
    requires forall p :: p in more ==> |init| <= IndexOf(ps, p.name) < |ps|
    ensures InOrderOf(s + more, ps)
  {
    var all := s + more;
    forall i, j | 0 <= i < j < |all| ensures IndexOf(ps, all[i].name) < IndexOf(ps, all[j].name) {
      assert all[i] == s[i] && s[i] in s;
      if j < |s| {
        assert all[j] == s[j] && s[j] in s;
      } else {
        assert all[j] == more[j - |s|] && more[j - |s|] in more;
      }
    }
  }

  lemma {:induction false} DedupInOrder(ps: seq<Package>)
    ensures InOrderOf(Dedup(ps), ps) && forall p :: p in Dedup(ps) ==> IndexOf(ps, p.name) < |ps|
  {
    if ps != [] {
      var init, last := ps[..|ps| - 1], ps[|ps| - 1];
      DedupInOrder(init);
      SplitLast(ps);
      FirstIsAt(init, last.name);
      forall p | p in Dedup(init) ensures IndexOf(ps, p.name) == IndexOf(init, p.name) < |init| {
        IndexMore(init, last, p.name);
      }
      IndexMore(init, last, last.name);
      var more := if First(init, last.name).None? then [last] else [];
      AppendInOrder(Dedup(init), more, init, ps);
    }
  }

  lemma {:induction false} PartIndex(ps: seq<Package>, a: Name, b: Name)
    requires a in BOOT_ESSENTIAL && b in BOOT_ESSENTIAL
    ensures IndexOf(Part(ps, true), a) < |Part(ps, true)| <==> IndexOf(ps, a) < |ps|
    ensures IndexOf(ps, a) < |ps| ==>
              (IndexOf(Part(ps, true), a) < IndexOf(Part(ps, true), b) <==> IndexOf(ps, a) < IndexOf(ps, b))
  {
    if ps != [] {
      var init, p := ps[..|ps| - 1], ps[|ps| - 1];
      var part := Part(init, true);
      PartIndex(init, a, b);
      PartIndex(init, b, a);
      SplitLast(ps);
      IndexMore(init, p, a);
      IndexMore(init, p, b);
      IndexMore(part, p, a);
      IndexMore(part, p, b);
      assert part + [] == part;
    }
  }

  /** A name keeps its current package. */
  predicate Stays(current: seq<Package>, n: Name) {
    n in BOOT_ESSENTIAL && IndexOf(current, n) < |current|
  }

  /** Where a name comes from: a place in the current list, or behind it one in the resolved list. */
  function Rank(current: seq<Package>, resolved: seq<Package>, n: Name): nat {
    if Stays(current, n) then IndexOf(current, n) else |current| + IndexOf(resolved, n)
  }

  lemma RankIsIndex(current: seq<Package>, resolved: seq<Package>, a: Name, b: Name)
    requires var all := Essential(current) + resolved; IndexOf(all, a) < IndexOf(all, b) < |all|
    ensures Rank(current, resolved, a) < Rank(current, resolved, b)
  {
    IndexJoin(Essential(current), resolved, a);
    IndexJoin(Essential(current), resolved, b);
    EssentialIndex(current, a);
    EssentialIndex(current, b);
    if Stays(current, a) && Stays(current, b) {
      PartIndex(current, a, b);
    }
  }

  lemma EssentialIndex(current: seq<Package>, n: Name)
    ensures IndexOf(Essential(current), n) < |Essential(current)| <==> Stays(current, n)
  {
    FirstPart(current, true, n);
    FirstIsAt(Essential(current), n);
    FirstIsAt(current, n);
  }

  /** Merged packages: those that stay come first in their current order, then the resolved ones in
      theirs, each name once. */
  lemma MergedInOrder(current: seq<Package>, resolved: seq<Package>, i: nat, j: nat)
    requires i < j < |MergedPackages(current, resolved)|
    ensures var m := MergedPackages(current, resolved);
            Rank(current, resolved, m[i].name) < Rank(current, resolved, m[j].name)
  {
    var all, m := Essential(current) + resolved, MergedPackages(current, resolved);
    DedupInOrder(all);
    assert m[j] in m;
    RankIsIndex(current, resolved, m[i].name, m[j].name);
  }

  /** The packages of a merged manifest: unchanged unless the configuration lists packages and some were
      resolved; then every name has its current package if that stays, and else the resolved one. */
  lemma PackagesMerged(current: Manifest, c: Config, resolved: seq<Package>, h: Text -> Hash, m: Manifest, n: Name)
    requires IsMerge(current, c, resolved, h, m)
    ensures !c.packages || resolved == [] ==> m.packages == current.packages
    ensures c.packages && resolved != [] ==>
              && DistinctNames(m.packages)
              && First(m.packages, n)
                 == if Stays(current.packages, n) then Some(current.packages[IndexOf(current.packages, n)])
                    else if IndexOf(resolved, n) < |resolved| then Some(resolved[IndexOf(resolved, n)])
                    else None
  {
    MergedPackagesByName(current.packages, resolved, n);
    FirstIsAt(current.packages, n);
    FirstIsAt(resolved, n);
  }
}
