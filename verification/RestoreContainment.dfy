/** Containment: where admitted entries land once they are extracted into the volume's parent. */
module RestoreContainment {
  import opened Bytes
  import opened Text
  import opened TarHeader
  import opened RestoreArchive
  import opened RestoreConservation

  // ----- lexical path resolution -----

  /** Following path parts from a directory: `.` and empty parts stay, `..` goes up. */
  function Follow(dir: seq<string>, parts: seq<string>): seq<string>
    decreases |parts|
  {
    if parts == [] then dir
    else if parts[0] == "" || parts[0] == "." then Follow(dir, parts[1..])
    else if parts[0] == ".." then Follow(if dir == [] then [] else dir[..|dir| - 1], parts[1..])
    else Follow(dir + [parts[0]], parts[1..])
  }

  function Resolve(dir: seq<string>, path: string): seq<string> {
    Follow(if path != "" && path[0] == '/' then [] else dir, Split(path, '/'))
  }

  lemma {:induction false} FollowConcat(dir: seq<string>, a: seq<string>, b: seq<string>)
    ensures Follow(dir, a + b) == Follow(Follow(dir, a), b)
    decreases |a|
  {
    if a == [] {
      assert a + b == b;
    } else {
      assert (a + b)[1..] == a[1..] + b;
      FollowConcat(dir, a[1..], b);
      FollowConcat(dir + [a[0]], a[1..], b);
      FollowConcat(if dir == [] then [] else dir[..|dir| - 1], a[1..], b);
    }
  }

  lemma {:induction false} FollowMeaningful(dir: seq<string>, parts: seq<string>)
    requires ".." !in Meaningful(parts)
    ensures Follow(dir, parts) == dir + Meaningful(parts)
    decreases |parts|
  {
    if parts != [] {
      var rest := parts[1..];
      if parts[0] == "" || parts[0] == "." {
        FollowMeaningful(dir, rest);
      } else {
        assert Meaningful(parts) == [parts[0]] + Meaningful(rest);
        assert parts[0] in Meaningful(parts);
        FollowMeaningful(dir + [parts[0]], rest);
      }
    }
  }

  /** The guard's components are where the path leads, below the directory it is resolved from. */
  lemma ResolveComponents(dir: seq<string>, path: string)
    requires Components(path).Some?
    ensures Resolve(dir, path) == dir + Components(path).value
  {
    FollowMeaningful(dir, Split(path, '/'));
  }

  // ----- where restore extracts -----

  datatype Target = Target(parentPath: string, rootName: string)

  function RestoreTargetFor(volumePath: string): Target {
    var slash := LastIndexOf(volumePath, '/');
    Target(if slash <= 0 then "/" else volumePath[..slash], volumePath[slash + 1..])
  }

  predicate IsName(part: string) {
    '/' !in part && part != "" && part != "." && part != ".."
  }

  /** A proper root name, below the parent, is the volume. */
  lemma TargetIsVolume(volumePath: string)
    requires IsName(RestoreTargetFor(volumePath).rootName)
    ensures var t := RestoreTargetFor(volumePath);
            Resolve([], volumePath) == Resolve([], t.parentPath) + [t.rootName]
  {
    hide Follow, Split;
    var t := RestoreTargetFor(volumePath);
    var slash := LastIndexOf(volumePath, '/');
    RootIsEmpty();
    if slash == -1 {
      SplitNone(volumePath, '/');
      FollowName([], t.rootName);
    } else {
      var parent := volumePath[..slash];
      assert volumePath == parent + ['/'] + t.rootName;
      SplitLast(parent, t.rootName, '/');
      FollowConcat([], Split(parent, '/'), [t.rootName]);
      FollowName(Follow([], Split(parent, '/')), t.rootName);
    }
  }

  lemma FollowName(dir: seq<string>, name: string)
    requires IsName(name)
    ensures Follow(dir, [name]) == dir + [name]
  {
    assert Follow(dir, [name]) == Follow(dir + [name], [name][1..]);
  }

  lemma RootIsEmpty()
    ensures Resolve([], "/") == [] && Follow([], Split("", '/')) == []
  {
    SplitNone("", '/');
    SplitAtHead("", "", '/');
    assert "" + ['/'] + "" == "/";
    assert [""] + [""] == ["", ""];
    FollowMeaningful([], ["", ""]);
    FollowMeaningful([], [""]);
  }

  // ----- what the pass admits -----

  /** Some ancestor of `path` is the link's own path. */
  predicate Through(link: string, path: string) {
    Components(link).Some? && Components(path).Some? &&
    IsBeneathSymlink({Join(Components(link).value, '/')}, Components(path).value)
  }

  ghost predicate Admissible(cfg: Config, symlinks: set<string>, e: Entry) {
    ProblemWith(cfg, symlinks, e.kind, e.name, e.linkName) == None
  }

  ghost predicate AllAdmissible(cfg: Config, symlinks: set<string>, entries: seq<Entry>) {
    && (forall j :: 0 <= j < |entries| ==> Admissible(cfg, symlinks, entries[j]))
    && (forall i, j :: 0 <= i < j < |entries| && entries[i].kind == SYMLINK ==>
        !Through(entries[i].name, entries[j].name))
  }

  lemma AdmitsOnlyAdmissible(cfg: Config, meta: Meta, symlinks: set<string>, holding: bool, rest: seq<byte>)
    ensures var item := ReadItem(cfg, meta, symlinks, holding, rest);
            item.Admit? ==> ProblemWith(cfg, symlinks, item.kind, item.name, item.linkName) == None
  {
    hide ChecksumOk, NumberField, ProblemWith, EffectiveName, EffectiveLink, EffectiveSize, EffectiveKind;
  }

  lemma {:induction false} PassAdmissible(cfg: Config, meta: Meta, symlinks: set<string>, held: seq<byte>, at: nat,
                                          rest: seq<byte>)
    requires |held| <= at
    ensures AllAdmissible(cfg, symlinks, PassFrom(cfg, meta, symlinks, held, at, rest).admitted)
    decreases |rest|
  {
    hide ReadItem, AllAdmissible, WithEntry, ProblemWith;
    var item := ReadItem(cfg, meta, symlinks, held != [], rest);
    if item.Extended? {
      PassAdmissible(cfg, item.meta, symlinks, held + rest[..item.length], at + item.length, rest[item.length..]);
      PassExtended(cfg, meta, symlinks, held, at, rest);
    } else if item.Admit? && BLOCK + item.dataLength <= |rest| {
      AdmitsOnlyAdmissible(cfg, meta, symlinks, held != [], rest);
      var n := BLOCK + item.dataLength;
      var entry := Entry(at - |held|, at, at + n, item.kind, item.name, item.linkName);
      var symlinks' := WithEntry(symlinks, item.kind, item.name);
      PassAdmissible(cfg, NO_META, symlinks', [], at + n, rest[n..]);
      PassAdmit(cfg, meta, symlinks, held, at, rest);
      OneMore(cfg, symlinks, entry, PassFrom(cfg, NO_META, symlinks', [], at + n, rest[n..]).admitted);
    } else if item.Admit? {
      AdmitsOnlyAdmissible(cfg, meta, symlinks, held != [], rest);
      var n := BLOCK + item.dataLength;
      var entry := Entry(at - |held|, at, at + n, item.kind, item.name, item.linkName);
      var symlinks' := WithEntry(symlinks, item.kind, item.name);
      NoneAdmissible(cfg, symlinks');
      OneMore(cfg, symlinks, entry, []);
    } else {
      NoneAdmissible(cfg, symlinks);
    }
  }

  lemma NoneAdmissible(cfg: Config, symlinks: set<string>)
    ensures AllAdmissible(cfg, symlinks, [])
  {
  }

  lemma OneMore(cfg: Config, symlinks: set<string>, e: Entry, entries: seq<Entry>)
    requires Admissible(cfg, symlinks, e)
    requires AllAdmissible(cfg, WithEntry(symlinks, e.kind, e.name), entries)
    ensures AllAdmissible(cfg, symlinks, [e] + entries)
  {
    var all := [e] + entries;
    var more := WithEntry(symlinks, e.kind, e.name);
    forall j | 0 <= j < |all| ensures Admissible(cfg, symlinks, all[j]) {
      if j > 0 {
        assert all[j] == entries[j - 1] && Admissible(cfg, more, entries[j - 1]);
        FewerSymlinks(symlinks, more, Components(all[j].name).value);
      }
    }
    forall i, j | 0 <= i < j < |all| && all[i].kind == SYMLINK ensures !Through(all[i].name, all[j].name) {
      assert all[j] == entries[j - 1];
      if i == 0 {
        assert Admissible(cfg, more, entries[j - 1]);
        FewerSymlinks({Join(Components(e.name).value, '/')}, more, Components(all[j].name).value);
      } else {
        assert all[i] == entries[i - 1];
      }
    }
  }

  lemma FewerSymlinks(some: set<string>, more: set<string>, parts: seq<string>)
    requires some <= more && !IsBeneathSymlink(more, parts)
    ensures !IsBeneathSymlink(some, parts)
  {
  }

  /** A link's path is a proper prefix of another's components exactly when the path goes through it. */
  lemma ThroughIsBelow(link: string, path: string)
    requires Components(link).Some? && Components(path).Some? && Components(link).value != []
    ensures Through(link, path) <==> Components(link).value < Components(path).value
  {
    var a, b := Components(link).value, Components(path).value;
    if Through(link, path) {
      var depth :| 1 <= depth < |b| && Join(b[..depth], '/') in {Join(a, '/')};
      JoinInjective(b[..depth], a, '/');
    }
    if a < b {
      assert b[..|a|] == a;
      assert Join(b[..|a|], '/') in {Join(a, '/')};
    }
  }

  /**
   * Every admitted entry, and every admitted hard link's target, resolves from the
   * parent to a path at or below the volume; and no admitted entry lies strictly
   * below a path that an earlier admitted entry made a symlink.
   */
  lemma Containment(volumePath: string, decode: Decoder, archive: seq<byte>)
    ensures var t := RestoreTargetFor(volumePath);
            var entries := Pass(Config(t.rootName, decode), archive).admitted;
            var volume, parent := Resolve([], volumePath), Resolve([], t.parentPath);
            && (forall i :: 0 <= i < |entries| ==>
                  && volume <= Resolve(parent, entries[i].name)
                  && (entries[i].kind == HARD_LINK ==> volume <= Resolve(parent, entries[i].linkName)))
            && (forall i, j :: 0 <= i < j < |entries| && entries[i].kind == SYMLINK ==>
                  !(Resolve(parent, entries[i].name) < Resolve(parent, entries[j].name)))
  {
    var t := RestoreTargetFor(volumePath);
    var cfg := Config(t.rootName, decode);
    var entries := Pass(cfg, archive).admitted;
    var volume, parent := Resolve([], volumePath), Resolve([], t.parentPath);
    PassAdmissible(cfg, NO_META, {}, [], 0, archive);
    hide Pass;
    forall i | 0 <= i < |entries|
      ensures volume <= Resolve(parent, entries[i].name)
      ensures entries[i].kind == HARD_LINK ==> volume <= Resolve(parent, entries[i].linkName)
    {
      assert Admissible(cfg, {}, entries[i]);
      LandsInVolume(volumePath, entries[i].name);
      if entries[i].kind == HARD_LINK {
        LandsInVolume(volumePath, entries[i].linkName);
      }
    }
    forall i, j | 0 <= i < j < |entries| && entries[i].kind == SYMLINK
      ensures !(Resolve(parent, entries[i].name) < Resolve(parent, entries[j].name))
    {
      assert Admissible(cfg, {}, entries[i]) && Admissible(cfg, {}, entries[j]);
      assert !Through(entries[i].name, entries[j].name);
      ThroughIsBelow(entries[i].name, entries[j].name);
      BelowFrom(parent, entries[i].name, entries[j].name);
    }
  }

  lemma LandsInVolume(volumePath: string, path: string)
    requires InRoot(RestoreTargetFor(volumePath).rootName, path)
    ensures Resolve([], volumePath) <= Resolve(Resolve([], RestoreTargetFor(volumePath).parentPath), path)
  {
    hide Follow, Split, Resolve, RestoreTargetFor;
    var t := RestoreTargetFor(volumePath);
    var parts := Components(path).value;
    assert IsName(t.rootName) by { assert t.rootName in parts; }
    hide Components;
    TargetIsVolume(volumePath);
    ResolveComponents(Resolve([], t.parentPath), path);
    HeadIsPrefix(Resolve([], t.parentPath), parts);
  }

  lemma HeadIsPrefix(dir: seq<string>, parts: seq<string>)
    requires parts != []
    ensures dir + [parts[0]] <= dir + parts
  {
    assert dir + parts == dir + [parts[0]] + parts[1..];
  }

  lemma BelowFrom(dir: seq<string>, a: string, b: string)
    requires Components(a).Some? && Components(b).Some?
    ensures Resolve(dir, a) < Resolve(dir, b) <==> Components(a).value < Components(b).value
  {
    ResolveComponents(dir, a);
    ResolveComponents(dir, b);
    var p, q := Components(a).value, Components(b).value;
    if dir + p < dir + q {
      assert (dir + q)[..|dir + p|] == dir + p;
      assert q[..|p|] == (dir + q)[|dir|..|dir| + |p|] == (dir + p)[|dir|..] == p;
    }
    if p < q {
      assert q == p + q[|p|..];
      assert dir + q == dir + p + q[|p|..];
    }
  }

  // ----- hard-link targets and symlinks -----

  /** The guard's memory of symlinks once these entries are admitted. */
  ghost function SymlinksOf(entries: seq<Entry>): set<string> {
    if entries == [] then {}
    else
      var last := entries[|entries| - 1];
      WithEntry(SymlinksOf(entries[..|entries| - 1]), last.kind, last.name)
  }

  lemma {:induction false} SymlinksAre(entries: seq<Entry>, path: string)
    ensures path in SymlinksOf(entries)
            <==> exists i :: 0 <= i < |entries| && IsSymlinkAt(entries[i], path)
  {
    hide Components;
    if entries != [] {
      var init := entries[..|entries| - 1];
      SymlinksAre(init, path);
      assert forall i :: 0 <= i < |init| ==> init[i] == entries[i];
    }
  }

  predicate IsSymlinkAt(e: Entry, path: string) {
    e.kind == SYMLINK && Components(e.name).Some? && Join(Components(e.name).value, '/') == path
  }

  lemma BeneathIffThrough(entries: seq<Entry>, path: string)
    requires Components(path).Some?
    ensures IsBeneathSymlink(SymlinksOf(entries), Components(path).value)
            <==> exists i :: 0 <= i < |entries| && entries[i].kind == SYMLINK && Through(entries[i].name, path)
  {
    hide Components;
    var parts := Components(path).value;
    if IsBeneathSymlink(SymlinksOf(entries), parts) {
      var depth :| 1 <= depth < |parts| && Join(parts[..depth], '/') in SymlinksOf(entries);
      SymlinksAre(entries, Join(parts[..depth], '/'));
      var i :| 0 <= i < |entries| && IsSymlinkAt(entries[i], Join(parts[..depth], '/'));
      assert Through(entries[i].name, path);
    }
    if i :| 0 <= i < |entries| && entries[i].kind == SYMLINK && Through(entries[i].name, path) {
      var link := Join(Components(entries[i].name).value, '/');
      var depth :| 1 <= depth < |parts| && Join(parts[..depth], '/') in {link};
      assert IsSymlinkAt(entries[i], link);
      SymlinksAre(entries, link);
    }
  }

  /** A path that the test of entry names would refuse, these entries having been admitted. */
  ghost predicate Beneath(entries: seq<Entry>, path: string) {
    Components(path).Some? && IsBeneathSymlink(SymlinksOf(entries), Components(path).value)
  }

  lemma BeneathIffBelow(cfg: Config, parent: seq<string>, entries: seq<Entry>, path: string)
    requires Components(path).Some? && forall i :: 0 <= i < |entries| ==> Admissible(cfg, {}, entries[i])
    ensures Beneath(entries, path)
            <==> exists i :: 0 <= i < |entries| && entries[i].kind == SYMLINK
                             && Resolve(parent, entries[i].name) < Resolve(parent, path)
  {
    hide Resolve, IsBeneathSymlink, SymlinksOf, Through;
    BeneathIffThrough(entries, path);
    forall i | 0 <= i < |entries| && entries[i].kind == SYMLINK
      ensures Through(entries[i].name, path) <==> Resolve(parent, entries[i].name) < Resolve(parent, path)
    {
      assert Admissible(cfg, {}, entries[i]);
      hide Components;
      ThroughIsBelow(entries[i].name, path);
      BelowFrom(parent, entries[i].name, path);
    }
  }

  lemma TargetsAreRelative(cfg: Config, e: Entry)
    requires Admissible(cfg, {}, e)
    ensures Components(e.name).Some? && (e.kind == HARD_LINK ==> Components(e.linkName).Some?)
  {
    hide Components;
  }

  /**
   * Only names are tested against earlier symlinks. The targets of admitted hard links
   * avoid them exactly when each target would pass the test that its entry's name passes.
   */
  lemma LinkTargetsAvoidIff(volumePath: string, decode: Decoder, archive: seq<byte>)
    ensures var t := RestoreTargetFor(volumePath);
            var entries := Pass(Config(t.rootName, decode), archive).admitted;
            var parent := Resolve([], t.parentPath);
            && (forall j :: 0 <= j < |entries| ==> !Beneath(entries[..j], entries[j].name))
            && ((forall i, j :: 0 <= i < j < |entries| && entries[i].kind == SYMLINK && entries[j].kind == HARD_LINK ==>
                   !(Resolve(parent, entries[i].name) < Resolve(parent, entries[j].linkName)))
                <==>
                forall j :: 0 <= j < |entries| && entries[j].kind == HARD_LINK ==>
                  !Beneath(entries[..j], entries[j].linkName))
  {
    var t := RestoreTargetFor(volumePath);
    var cfg := Config(t.rootName, decode);
    var entries := Pass(cfg, archive).admitted;
    var parent := Resolve([], t.parentPath);
    PassAdmissible(cfg, NO_META, {}, [], 0, archive);
    Containment(volumePath, decode, archive);
    hide Pass, Resolve, RestoreTargetFor, Admissible, Beneath, Components, Through;
    forall j | 0 <= j < |entries|
      ensures !Beneath(entries[..j], entries[j].name)
      ensures entries[j].kind == HARD_LINK ==>
                (Beneath(entries[..j], entries[j].linkName)
                 <==> exists i :: 0 <= i < j && entries[i].kind == SYMLINK
                                  && Resolve(parent, entries[i].name) < Resolve(parent, entries[j].linkName))
    {
      assert forall i :: 0 <= i < j ==> entries[..j][i] == entries[i];
      TargetsAreRelative(cfg, entries[j]);
      BeneathIffBelow(cfg, parent, entries[..j], entries[j].name);
      if entries[j].kind == HARD_LINK {
        BeneathIffBelow(cfg, parent, entries[..j], entries[j].linkName);
      }
    }
  }

  /** Such a target is admitted: a symlink, then a hard link to a path below it. */
  lemma LinkTargetThroughSymlink(decode: Decoder, destination: string)
    ensures var cfg := Config("mail", decode);
            && ProblemWith(cfg, {}, SYMLINK, "mail/l", destination) == None
            && ProblemWith(cfg, WithEntry({}, SYMLINK, "mail/l"), HARD_LINK, "mail/h", "mail/l/x") == None
            && Through("mail/l", "mail/l/x")
  {
    hide Split, Meaningful, Components, Join, IsBeneathSymlink, Through;
    Paths();
    Named(["mail", "l"], "mail/l");
    Named(["mail", "h"], "mail/h");
    Named(["mail", "l", "x"], "mail/l/x");
    NotBeneath({}, ["mail", "l"]);
    assert "mail/l"[4] == '/';
    NotBeneath({"mail/l"}, ["mail", "h"]);
    assert {} + {"mail/l"} == {"mail/l"} && WithEntry({}, SYMLINK, "mail/l") == {"mail/l"};
    assert ["mail", "l", "x"][..2] == ["mail", "l"];
    ThroughIsBelow("mail/l", "mail/l/x");
  }

  lemma Paths()
    ensures Join(["mail", "l"], '/') == "mail/l" && Join(["mail", "h"], '/') == "mail/h"
    ensures Join(["mail", "l", "x"], '/') == "mail/l/x"
  {
    assert ["mail", "l"][1..] == ["l"] && ["mail", "h"][1..] == ["h"];
    assert ["mail", "l", "x"][1..] == ["l", "x"] && ["l", "x"][1..] == ["x"];
  }

  lemma NotBeneath(symlinks: set<string>, parts: seq<string>)
    requires |parts| == 2 && '/' !in parts[0] && forall link :: link in symlinks ==> '/' in link
    ensures !IsBeneathSymlink(symlinks, parts)
  {
    assert parts[..1] == [parts[0]];
  }

  lemma Named(parts: seq<string>, path: string)
    requires parts != [] && Join(parts, '/') == path && forall i :: 0 <= i < |parts| ==> IsName(parts[i])
    ensures Components(path) == Some(parts)
  {
    SplitJoin(parts, '/');
    AllMeaningful(parts);
    assert IsName(parts[0]);
  }

  lemma {:induction false} AllMeaningful(parts: seq<string>)
    requires forall i :: 0 <= i < |parts| ==> parts[i] != "" && parts[i] != "."
    ensures Meaningful(parts) == parts
  {
    if parts != [] {
      var rest := parts[1..];
      assert forall i :: 0 <= i < |rest| ==> rest[i] == parts[i + 1];
      AllMeaningful(rest);
      assert parts == [parts[0]] + rest;
    }
  }

  // ----- exactly what is refused -----

  /** A relative path that never goes up and leads to `root` or below it. */
  predicate LeadsInto(root: string, path: string) {
    && (path == "" || path[0] != '/') && ".." !in Split(path, '/')
    && [root] <= Follow([], Split(path, '/'))
  }

  lemma InRootIff(root: string, path: string)
    requires IsName(root)
    ensures InRoot(root, path) <==> LeadsInto(root, path)
  {
    hide Split;
    var parts := Split(path, '/');
    assert ".." in Meaningful(parts) <==> ".." in parts;
    if ".." !in parts {
      FollowMeaningful([], parts);
      assert [] + Meaningful(parts) == Meaningful(parts);
      if Meaningful(parts) != [] && Meaningful(parts)[0] == root {
        assert [root] == Meaningful(parts)[..1];
      }
    }
  }

  /** The path goes strictly below one of these paths. */
  predicate GoesBelow(symlinks: set<string>, path: string) {
    exists link :: link in symlinks && Below(link, path)
  }

  predicate Below(link: string, path: string) {
    Follow([], Split(link, '/')) < Follow([], Split(path, '/'))
  }

  /** The paths are as the guard remembers them: the joined components of admitted entries. */
  predicate Remembered(symlinks: set<string>) {
    forall link :: link in symlinks ==> Components(link).Some? && Components(link).value != []
                                        && Join(Components(link).value, '/') == link
  }

  lemma BeneathIffGoesBelow(symlinks: set<string>, path: string)
    requires Remembered(symlinks) && Components(path).Some?
    ensures IsBeneathSymlink(symlinks, Components(path).value) <==> GoesBelow(symlinks, path)
  {
    hide Components, Join;
    var parts := Components(path).value;
    FollowsComponents(path);
    forall link | link in symlinks
      ensures Below(link, path) <==> exists depth :: 1 <= depth < |parts| && Join(parts[..depth], '/') == link
    {
      FollowsComponents(link);
      ThroughIsBelow(link, path);
    }
    if IsBeneathSymlink(symlinks, parts) {
      var depth :| 1 <= depth < |parts| && Join(parts[..depth], '/') in symlinks;
      assert Below(Join(parts[..depth], '/'), path);
    }
  }

  lemma FollowsComponents(path: string)
    requires Components(path).Some?
    ensures Follow([], Split(path, '/')) == Components(path).value
  {
    ResolveComponents([], path);
    assert [] + Components(path).value == Components(path).value;
  }

  /** Why an entry is refused, exactly: the first of the three things that is wrong with it. */
  lemma ProblemIff(cfg: Config, symlinks: set<string>, kind: byte, name: string, linkName: string)
    requires IsName(cfg.rootName) && Remembered(symlinks)
    ensures ProblemWith(cfg, symlinks, kind, name, linkName)
            == if !LeadsInto(cfg.rootName, name) then Some(OutsideRoot(name))
               else if GoesBelow(symlinks, name) then Some(BeneathSymlink(name))
               else if kind == '1' as int && !LeadsInto(cfg.rootName, linkName) then Some(HardLinkOutsideRoot(name))
               else None
  {
    hide LeadsInto, GoesBelow, Components, IsBeneathSymlink;
    InRootIff(cfg.rootName, name);
    InRootIff(cfg.rootName, linkName);
    if LeadsInto(cfg.rootName, name) {
      BeneathIffGoesBelow(symlinks, name);
    }
  }

  /** Only symlinks are remembered, and as the guard will look for them. */
  lemma RemembersSymlinks(symlinks: set<string>, kind: byte, name: string)
    requires Remembered(symlinks) && Components(name).Some? && Components(name).value != []
    ensures var more := WithEntry(symlinks, kind, name);
            && Remembered(more)
            && (kind != '2' as int ==> more == symlinks)
            && (kind == '2' as int ==> forall path ::
                  GoesBelow(more, path) <==> GoesBelow(symlinks, path) || Below(name, path))
  {
    hide Components, Join;
    var parts := Components(name).value;
    ProperNames(name);
    Named(parts, Join(parts, '/'));
    FollowsComponents(name);
    FollowsComponents(Join(parts, '/'));
    hide Split;
  }

  lemma ProperNames(name: string)
    requires Components(name).Some?
    ensures forall i :: 0 <= i < |Components(name).value| ==> IsName(Components(name).value[i])
  {
    assert forall p :: p in Components(name).value ==> IsName(p);
  }
}
