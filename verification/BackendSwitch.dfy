/** The backend switcher: each listed file lives in the game directory or in its
    backend's store, and a switch moves files between them. */
module BackendSwitch {

  datatype Backend = Daniel | Guentra

  type Name = string
  type Content = seq<int>
  type Dir = map<Name, Content>

  const DANIEL_FILES: seq<Name> := ["version.dll", "amdhip64_7.dll", "dlssnr_on_amd.ini"]
  const GUENTRA_FILES: seq<Name> := ["d3d12.dll", "lmxxf-d3d12.dll", "d3d12core.dll", "dlss5_hip.dll", "ReShade.ini"]

  function Files(b: Backend): seq<Name> {
    if b.Daniel? then DANIEL_FILES else GUENTRA_FILES
  }

  function Other(b: Backend): Backend {
    if b.Daniel? then Guentra else Daniel
  }

  datatype Layout = Layout(game: Dir, daniel: Dir, guentra: Dir)

  function Store(s: Layout, b: Backend): Dir {
    if b.Daniel? then s.daniel else s.guentra
  }

  function WithStore(s: Layout, b: Backend, d: Dir): Layout {
    if b.Daniel? then s.(daniel := d) else s.(guentra := d)
  }

  lemma FilesDisjoint()
    ensures forall f :: f in DANIEL_FILES ==> f !in GUENTRA_FILES
  {
    assert forall f :: f in DANIEL_FILES ==> f == "version.dll" || f == "amdhip64_7.dll" || f == "dlssnr_on_amd.ini";
    assert |"version.dll"| == 11 && |"amdhip64_7.dll"| == 14 && |"dlssnr_on_amd.ini"| == 17;
    assert forall f :: f in GUENTRA_FILES ==> f == "d3d12.dll" || f == "lmxxf-d3d12.dll" || f == "d3d12core.dll" || f == "dlss5_hip.dll" || f == "ReShade.ini";
    assert "ReShade.ini"[0] != "version.dll"[0];
  }

  // ----- what the two passes do

  function Kept(d: Dir, files: seq<Name>): Dir {
    map f | f in d && f !in files :: d[f]
  }

  function Picked(d: Dir, files: seq<Name>): Dir {
    map f | f in d && f in files :: d[f]
  }

  /** Each of `files` that `src` has moves to `dst`, over any copy there. */
  function Moved(src: Dir, dst: Dir, files: seq<Name>): (Dir, Dir) {
    (Kept(src, files), dst + Picked(src, files))
  }

  function Backup(s: Layout, b: Backend, files: seq<Name>): Layout {
    var (game, store) := Moved(s.game, Store(s, b), files);
    WithStore(s, b, store).(game := game)
  }

  function Restore(s: Layout, b: Backend, files: seq<Name>): Layout {
    var (store, game) := Moved(Store(s, b), s.game, files);
    WithStore(s, b, store).(game := game)
  }

  lemma MovedNone(src: Dir, dst: Dir)
    ensures Moved(src, dst, []) == (src, dst)
  {
    assert Picked(src, []) == map[];
    assert Kept(src, []) == src;
    assert dst + map[] == dst;
  }

  lemma KeptOneMore(src: Dir, done: seq<Name>, f: Name)
    ensures Kept(src, done + [f]) == Kept(src, done) - {f}
  {
    assert forall g :: g in done + [f] <==> g in done || g == f;
    assert Kept(src, done + [f]).Keys == (Kept(src, done) - {f}).Keys;
  }

  lemma PickedOneMore(src: Dir, done: seq<Name>, f: Name)
    ensures Picked(src, done + [f]) == if f in Kept(src, done) then Picked(src, done)[f := src[f]] else Picked(src, done)
  {
    assert forall g :: g in done + [f] <==> g in done || g == f;
    if f in Kept(src, done) {
      assert Picked(src, done + [f]).Keys == Picked(src, done)[f := src[f]].Keys;
    } else {
      assert Picked(src, done + [f]).Keys == Picked(src, done).Keys;
    }
  }

  lemma MovedOneMore(src: Dir, dst: Dir, done: seq<Name>, f: Name)
    ensures var (src', dst') := Moved(src, dst, done);
            Moved(src, dst, done + [f]) == if f in src' then Moved(src', dst', [f]) else (src', dst')
  {
    KeptOneMore(src, done, f);
    PickedOneMore(src, done, f);
    var src', dst' := Kept(src, done), dst + Picked(src, done);
    if f in src' {
      MovedOne(src', dst', f);
      assert dst + Picked(src, done)[f := src[f]] == dst'[f := src[f]];
    } else {
      assert src' - {f} == src';
    }
  }

  lemma MovedOne(src: Dir, dst: Dir, f: Name)
    requires f in src
    ensures Moved(src, dst, [f]) == (src - {f}, dst[f := src[f]])
  {
    assert Kept(src, [f]) == src - {f};
    assert dst + Picked(src, [f]) == dst[f := src[f]];
  }

  ghost predicate Missing(s: Layout, b: Backend, files: seq<Name>) {
    exists f :: f in files && f !in Store(s, b) && f !in s.game
  }

  function Switch(s: Layout, target: Backend): Layout {
    Restore(Backup(Backup(s, Daniel, DANIEL_FILES), Guentra, GUENTRA_FILES), target, Files(target))
  }

  // ----- the script

  class GameDirectory {
    var game: Dir
    var daniel: Dir
    var guentra: Dir

    ghost function View(): Layout
      reads this
    {
      Layout(game, daniel, guentra)
    }

    /** `mv` from the game directory to a store. */
    method Stash(b: Backend, f: Name)
      requires f in game
      modifies this
      ensures View() == Backup(old(View()), b, [f])
    {
      MovedOne(game, Store(View(), b), f);
      if b.Daniel? {
        daniel := daniel[f := game[f]];
      } else {
        guentra := guentra[f := game[f]];
      }
      game := game - {f};
    }

    /** `mv` from a store to the game directory. */
    method Unstash(b: Backend, f: Name)
      requires f in Store(View(), b)
      modifies this
      ensures View() == Restore(old(View()), b, [f])
    {
      MovedOne(Store(View(), b), game, f);
      if b.Daniel? {
        game := game[f := daniel[f]];
        daniel := daniel - {f};
      } else {
        game := game[f := guentra[f]];
        guentra := guentra - {f};
      }
    }

    method BackupPresent(b: Backend, files: seq<Name>)
      modifies this
      ensures View() == Backup(old(View()), b, files)
    {
      hide Moved;
      ghost var s := View();
      MovedNone(s.game, Store(s, b));
      for i := 0 to |files|
        invariant View() == Backup(s, b, files[..i])
      {
        var f := files[i];
        MovedOneMore(s.game, Store(s, b), files[..i], f);
        assert files[..i] + [f] == files[..i + 1];
        if f in game {
          Stash(b, f);
        }
      }
      assert files[..|files|] == files;
    }

    method RestoreBackend(b: Backend, files: seq<Name>) returns (missing: bool)
      modifies this
      ensures View() == Restore(old(View()), b, files)
      ensures missing <==> Missing(old(View()), b, files)
    {
      hide Moved, Missing;
      ghost var s := View();
      MovedNone(Store(s, b), s.game);
      missing := false;
      MissingNone(s, b);
      for i := 0 to |files|
        invariant View() == Restore(s, b, files[..i])
        invariant missing <==> Missing(s, b, files[..i])
      {
        var f := files[i];
        MovedOneMore(Store(s, b), s.game, files[..i], f);
        MissingOneMore(s, b, files[..i], f);
        assert files[..i] + [f] == files[..i + 1];
        if f in (if b.Daniel? then daniel else guentra) {
          Unstash(b, f);
        } else if f !in game {
          missing := true;
        }
      }
      assert files[..|files|] == files;
    }

    /** The whole run of the script for one target. */
    method SwitchTo(target: Backend) returns (missing: bool)
      modifies this
      ensures View() == Switch(old(View()), target)
      ensures missing <==> exists f :: f in Files(target) && f !in old(View()).game && f !in Store(old(View()), target)
    {
      BackupPresent(Daniel, DANIEL_FILES);
      BackupPresent(Guentra, GUENTRA_FILES);
      FilesDisjoint();
      missing := RestoreBackend(target, Files(target));
    }
  }

  lemma MissingNone(s: Layout, b: Backend)
    ensures !Missing(s, b, [])
  {
  }

  lemma MissingOneMore(s: Layout, b: Backend, done: seq<Name>, f: Name)
    ensures var t := Restore(s, b, done);
            Missing(s, b, done + [f]) <==> Missing(s, b, done) || (f !in Store(t, b) && f !in t.game)
  {
    assert forall g :: g in done + [f] <==> g in done || g == f;
  }

  // ----- conservation

  /** The backend a listed file belongs to. */
  ghost predicate Listed(f: Name, b: Backend) {
    f in Files(b)
  }

  /** No listed file is both in the game directory and in its own store. */
  ghost predicate SinglePlaced(s: Layout) {
    forall f, b :: Listed(f, b) && f in s.game ==> f !in Store(s, b)
  }

  /** Copies of `f` with content `c` in the two places it may be. */
  function Copies(s: Layout, f: Name, b: Backend, c: Content): nat {
    (if f in s.game && s.game[f] == c then 1 else 0) + (if f in Store(s, b) && Store(s, b)[f] == c then 1 else 0)
  }

  ghost predicate Conserves(s: Layout, t: Layout) {
    forall f, b, c :: Listed(f, b) ==> Copies(t, f, b, c) == Copies(s, f, b, c)
  }

  /** The files the script moves. */
  lemma ListedFiles(f: Name)
    ensures Listed(f, Daniel) <==> f == "version.dll" || f == "amdhip64_7.dll" || f == "dlssnr_on_amd.ini"
    ensures Listed(f, Guentra) <==>
              f == "d3d12.dll" || f == "lmxxf-d3d12.dll" || f == "d3d12core.dll" || f == "dlss5_hip.dll" || f == "ReShade.ini"
  {
  }

  /** Where one listed file ends up. */
  lemma SwitchFile(s: Layout, target: Backend, f: Name, b: Backend)
    requires Listed(f, b)
    ensures var t := Switch(s, target);
            var present := f in s.game || f in Store(s, b);
            && (f in t.game <==> present && b == target)
            && (f in Store(t, b) <==> present && b != target)
            && (f in t.game ==> t.game[f] == if f in s.game then s.game[f] else Store(s, b)[f])
            && (f in Store(t, b) ==> Store(t, b)[f] == if f in s.game then s.game[f] else Store(s, b)[f])
  {
    FilesDisjoint();
  }

  /** A switch loses no listed file's contents iff no listed file is in two places. */
  lemma ConservesIffSinglePlaced(s: Layout, target: Backend)
    ensures Conserves(s, Switch(s, target)) <==> SinglePlaced(s)
  {
    hide Switch, Files;
    var t := Switch(s, target);
    if SinglePlaced(s) {
      forall f, b, c | Listed(f, b)
        ensures Copies(t, f, b, c) == Copies(s, f, b, c)
      {
        SwitchFile(s, target, f, b);
      }
    } else {
      var f, b :| Listed(f, b) && f in s.game && f in Store(s, b);
      SwitchFile(s, target, f, b);
      var c := Store(s, b)[f];
      assert Copies(t, f, b, c) != Copies(s, f, b, c);
    }
  }

  /** Files the script does not list stay where they are, in all three directories. */
  lemma UnlistedUntouched(s: Layout, target: Backend, f: Name)
    requires !Listed(f, Daniel) && !Listed(f, Guentra)
    ensures var t := Switch(s, target);
            && (f in t.game <==> f in s.game) && (f in s.game ==> t.game[f] == s.game[f])
            && (f in t.daniel <==> f in s.daniel) && (f in s.daniel ==> t.daniel[f] == s.daniel[f])
            && (f in t.guentra <==> f in s.guentra) && (f in s.guentra ==> t.guentra[f] == s.guentra[f])
  {
  }

  function SwitchAll(s: Layout, targets: seq<Backend>): Layout {
    if targets == [] then s else Switch(SwitchAll(s, targets[..|targets| - 1]), targets[|targets| - 1])
  }

  lemma SwitchSinglePlaced(s: Layout, target: Backend)
    ensures SinglePlaced(Switch(s, target))
  {
    forall f, b | Listed(f, b) && f in Switch(s, target).game
      ensures f !in Store(Switch(s, target), b)
    {
      SwitchFile(s, target, f, b);
    }
  }

  /** Any sequence of switches keeps every listed file, in exactly one place, with its
      contents; and afterwards the game directory holds only the last target's. */
  lemma {:induction false} SwitchesConserve(s: Layout, targets: seq<Backend>)
    requires SinglePlaced(s)
    ensures var t := SwitchAll(s, targets);
            && SinglePlaced(t) && Conserves(s, t)
            && (targets != [] ==> forall f, b :: Listed(f, b) && f in t.game ==> b == targets[|targets| - 1])
  {
    hide Switch;
    if targets != [] {
      var n := |targets| - 1;
      SwitchesConserve(s, targets[..n]);
      var u := SwitchAll(s, targets[..n]);
      ConservesIffSinglePlaced(u, targets[n]);
      SwitchSinglePlaced(u, targets[n]);
      forall f, b | Listed(f, b) && f in Switch(u, targets[n]).game
        ensures b == targets[n]
      {
        SwitchFile(u, targets[n], f, b);
      }
    }
  }

  /** Both layouts hold the same at `f`. */
  ghost predicate SameAt(s: Layout, t: Layout, f: Name) {
    SameIn(s.game, t.game, f) && SameIn(s.daniel, t.daniel, f) && SameIn(s.guentra, t.guentra, f)
  }

  ghost predicate SameIn(a: Dir, b: Dir, f: Name) {
    (f in a <==> f in b) && (f in a ==> a[f] == b[f])
  }

  lemma SameDir(a: Dir, b: Dir)
    requires forall f :: SameIn(a, b, f)
    ensures a == b
  {
    forall f
      ensures (f in a <==> f in b) && (f in a ==> a[f] == b[f])
    {
      assert SameIn(a, b, f);
    }
  }

  lemma SameEverywhere(s: Layout, t: Layout)
    requires forall f :: SameAt(s, t, f)
    ensures s == t
  {
    forall f
      ensures SameIn(s.game, t.game, f) && SameIn(s.daniel, t.daniel, f) && SameIn(s.guentra, t.guentra, f)
    {
      assert SameAt(s, t, f);
    }
    SameDir(s.game, t.game);
    SameDir(s.daniel, t.daniel);
    SameDir(s.guentra, t.guentra);
  }

  /** Everything a switch decides about one name, in all three directories. */
  lemma SwitchAt(s: Layout, target: Backend, f: Name)
    ensures var t := Switch(s, target);
            && (!Listed(f, Daniel) ==> SameIn(t.daniel, s.daniel, f))
            && (!Listed(f, Guentra) ==> SameIn(t.guentra, s.guentra, f))
            && (!Listed(f, Daniel) && !Listed(f, Guentra) ==> SameIn(t.game, s.game, f))
  {
    FilesDisjoint();
  }

  /** Switching to the active backend again changes nothing. */
  lemma SwitchIdempotent(s: Layout, target: Backend)
    ensures Switch(Switch(s, target), target) == Switch(s, target)
  {
    hide Switch;
    var t := Switch(s, target);
    forall f
      ensures SameAt(Switch(t, target), t, f)
    {
      SwitchAt(t, target, f);
      forall b | Listed(f, b)
        ensures SameIn(Switch(t, target).game, t.game, f) && SameIn(Store(Switch(t, target), b), Store(t, b), f)
      {
        SwitchFile(s, target, f, b);
        SwitchFile(t, target, f, b);
      }
      assert Listed(f, Daniel) || Listed(f, Guentra) || SameIn(Switch(t, target).game, t.game, f);
    }
    SameEverywhere(Switch(t, target), t);
  }

  /** Switching away and back restores the layout the first switch had made. */
  lemma SwitchAwayAndBack(s: Layout, target: Backend)
    ensures Switch(Switch(Switch(s, target), Other(target)), target) == Switch(s, target)
  {
    hide Switch, Files;
    var t := Switch(s, target);
    var u := Switch(t, Other(target));
    var v := Switch(u, target);
    forall f
      ensures SameAt(v, t, f)
    {
      SwitchAt(t, Other(target), f);
      SwitchAt(u, target, f);
      forall b | Listed(f, b)
        ensures SameIn(v.game, t.game, f) && SameIn(Store(v, b), Store(t, b), f)
      {
        SwitchFile(s, target, f, b);
        SwitchFile(t, Other(target), f, b);
        SwitchFile(u, target, f, b);
      }
      assert Listed(f, Daniel) || Listed(f, Guentra) || SameIn(v.game, t.game, f);
    }
    SameEverywhere(v, t);
  }
}
