/** `clean_empty_folders`: walks the tree bottom-up and removes every
    directory below the top one that is empty when its turn comes. */
module Sweeper {
  import opened Wrappers
  import opened Paths
  import opened FileSystem

  /** Failures the platform reports for the `i`-th directory of the walk,
      beyond those the file-system state implies. */
  datatype SweepFaults = SweepFaults(listdir: nat -> Option<OsError>, rmdir: nat -> Option<OsError>)

  /** One directory's turn: list it, and remove it when the listing is
      empty. Any `OSError` leaves it in place; returns 1 when removed. The
      turn removes `root` and nothing else, and only when it holds no file
      and no directory; otherwise nothing changes. */
  function SweepStep(fs: Fs, faults: SweepFaults, i: nat, root: string): (r: (nat, Fs))
    ensures r.1.files == fs.files
    ensures r.0 == 1 ==> root in fs.dirs && Children(fs, root) == {} && r.1.dirs == fs.dirs - {root}
    ensures r.0 == 0 ==> r.1 == fs
    ensures r.0 == 1 <==>
      faults.listdir(i).None? && faults.rmdir(i).None? && root in fs.dirs && Children(fs, root) == {}
  {
    match ListDir(fs, faults.listdir(i), root)
    case Err(_) => (0, fs)
    case Ok(entries) =>
      if entries != {} then (0, fs)
      else
        match RemoveDir(fs, faults.rmdir(i), root)
        case Err(_) => (0, fs)
        case Ok(fs1) => (1, fs1)
  }

  /** The count and the file system after the turns of `walk`, the top
      folder itself skipped. */
  function Sweep(fs: Fs, faults: SweepFaults, folder: string, walk: seq<string>): (r: (nat, Fs))
    ensures r.0 <= |walk|
  {
    if |walk| == 0 then (0, fs)
    else
      var n := |walk| - 1;
      var before := Sweep(fs, faults, folder, walk[..n]);
      if walk[n] == folder then before
      else
        var step := SweepStep(before.1, faults, n, walk[n]);
        (before.0 + step.0, step.1)
  }

  /** Removing directories can only take entries away from a listing. */
  lemma ChildrenShrink(fs: Fs, fs1: Fs, d: string)
    requires fs1.files == fs.files && fs1.dirs <= fs.dirs
    ensures Children(fs1, d) <= Children(fs, d)
  {
  }

  /** The sweep never touches a regular file, only removes directories,
      and counts each removal once. */
  lemma {:induction false} SweepFrame(fs: Fs, faults: SweepFaults, folder: string, walk: seq<string>)
    ensures var r := Sweep(fs, faults, folder, walk);
      && r.1.files == fs.files
      && r.1.dirs <= fs.dirs
      && r.0 == |fs.dirs| - |r.1.dirs|
  {
    if |walk| > 0 {
      var n := |walk| - 1;
      SweepFrame(fs, faults, folder, walk[..n]);
      var before := Sweep(fs, faults, folder, walk[..n]);
      if walk[n] != folder {
        if SweepStep(before.1, faults, n, walk[n]).0 == 1 {
          assert |before.1.dirs - {walk[n]}| == |before.1.dirs| - 1;
        }
      }
    }
  }

  /** Only directories of the walk are removed, and never the top folder. */
  lemma {:induction false} SweepRemovesWalked(fs: Fs, faults: SweepFaults, folder: string, walk: seq<string>)
    ensures var r := Sweep(fs, faults, folder, walk);
      forall d :: d in fs.dirs && d !in r.1.dirs ==> d in walk && d != folder
  {
    if |walk| > 0 {
      var n := |walk| - 1;
      SweepRemovesWalked(fs, faults, folder, walk[..n]);
      SweepFrame(fs, faults, folder, walk[..n]);
      var before := Sweep(fs, faults, folder, walk[..n]);
      assert forall d :: d in walk[..n] ==> d in walk;
      if walk[n] != folder {
      }
    }
  }

  /** Every directory the sweep removed holds nothing at the end: no
      regular file and no directory was left orphaned below it. */
  lemma {:induction false} SweepRemovesEmpty(fs: Fs, faults: SweepFaults, folder: string, walk: seq<string>)
    ensures var r := Sweep(fs, faults, folder, walk);
      forall d :: d in fs.dirs && d !in r.1.dirs ==> Children(r.1, d) == {}
  {
    if |walk| > 0 {
      var n := |walk| - 1;
      SweepRemovesEmpty(fs, faults, folder, walk[..n]);
      SweepFrame(fs, faults, folder, walk[..n]);
      var before := Sweep(fs, faults, folder, walk[..n]);
      var after := Sweep(fs, faults, folder, walk);
      if walk[n] != folder {
        forall d | d in fs.dirs && d !in after.1.dirs
          ensures Children(after.1, d) == {}
        {
          ChildrenShrink(before.1, after.1, d);
        }
      }
    }
  }

  /** A failing `rmdir` everywhere leaves the tree as it was and counts
      nothing. */
  lemma {:induction false} SweepBlocked(fs: Fs, faults: SweepFaults, folder: string, walk: seq<string>)
    requires forall i :: 0 <= i < |walk| ==> faults.rmdir(i).Some?
    ensures Sweep(fs, faults, folder, walk) == (0, fs)
  {
    if |walk| > 0 {
      var n := |walk| - 1;
      SweepBlocked(fs, faults, folder, walk[..n]);
    }
  }

  /** The loop of `clean_empty_folders` over the bottom-up walk. */
  method CleanEmptyFolders(fs0: Fs, faults: SweepFaults, folder: string, walk: seq<string>)
    returns (cleaned: nat, fs: Fs)
    ensures (cleaned, fs) == Sweep(fs0, faults, folder, walk)
  {
    cleaned, fs := 0, fs0;
    var i := 0;
    while i < |walk|
      invariant 0 <= i <= |walk|
      invariant (cleaned, fs) == Sweep(fs0, faults, folder, walk[..i])
    {
      var root := walk[i];
      assert walk[..i + 1][..i] == walk[..i];
      if root == folder {
        i := i + 1;
        continue;
      }
      var listing := ListDir(fs, faults.listdir(i), root);
      if listing.Ok? && listing.value == {} {
        var removed := RemoveDir(fs, faults.rmdir(i), root);
        if removed.Ok? {
          fs := removed.value;
          cleaned := cleaned + 1;
        }
      }
      i := i + 1;
    }
    assert walk[..i] == walk;
  }

  /** `a` is a directory strictly above `p`: one of the parents of `p`. */
  predicate Under(p: string, a: string)
  {
    a in Lineage(Parent(p))
  }

  /** Every directory on a lineage is no longer than its start. */
  lemma {:induction false} LineageShorter(x: string, y: string)
    ensures x in Lineage(y) ==> |x| <= |y|
    decreases |y|
  {
    if y != "" && x != y {
      LineageShorter(x, Parent(y));
    }
  }

  /** A lineage holds the lineage of each of its directories. */
  lemma {:induction false} LineageClosed(x: string, y: string)
    ensures x in Lineage(y) ==> Lineage(x) <= Lineage(y)
    decreases |y|
  {
    if y != "" && x != y {
      LineageClosed(x, Parent(y));
    }
  }

  /** Nothing lies under the empty path, and only a non-empty path lies under
      anything; no path lies under itself. */
  lemma UnderProper(p: string, a: string)
    ensures Under(p, a) ==> p != "" && a != "" && |a| < |p|
    ensures !Under(p, p)
  {
    LineageShorter(a, Parent(p));
    LineageShorter(p, Parent(p));
  }

  /** A directory's entries lie under it. */
  lemma ChildUnder(c: string, d: string)
    ensures Parent(c) == d && d != "" ==> Under(c, d)
  {
  }

  /** Lying under is transitive. */
  lemma UnderTransitive(p: string, c: string, d: string)
    ensures Under(p, c) && Under(c, d) ==> Under(p, d)
  {
    if Under(p, c) && Under(c, d) {
      UnderProper(c, d);
      LineageClosed(c, Parent(p));
    }
  }

  /** Below a directory `d`, the way down to `p` starts with an entry of `d`:
      `p` itself or a directory `p` lies under. */
  lemma {:induction false} ChildTowards(p: string, d: string) returns (c: string)
    requires Under(p, d)
    ensures Parent(c) == d && (c == p || Under(p, c))
    decreases |p|
  {
    UnderProper(p, d);
    if Parent(p) == d {
      c := p;
    } else {
      c := ChildTowards(Parent(p), d);
      if c != Parent(p) {
        LineageClosed(c, Parent(p));
      }
    }
  }

  /** No regular file lies under `d`. */
  predicate NoFileUnder(fs: Fs, d: string)
  {
    forall f :: f in fs.files ==> !Under(f, d)
  }

  /** The directories under `folder` that have no regular file below them:
      those a sweep can empty. */
  function EmptySubtrees(fs: Fs, folder: string): set<string>
  {
    set d | d in fs.dirs && Under(d, folder) && NoFileUnder(fs, d)
  }

  /** What `os.walk(folder, topdown=False)` yields: `folder` and the
      directories under it, each once, every one after all the directories
      under it, and every directory under `folder` among them. */
  predicate BottomUpWalk(fs: Fs, folder: string, walk: seq<string>)
  {
    && (forall i :: 0 <= i < |walk| ==> walk[i] == folder || Under(walk[i], folder))
    && (forall d :: d in fs.dirs && Under(d, folder) ==> d in walk)
    && (forall i, j :: 0 <= i < |walk| && 0 <= j < |walk| && Under(walk[i], walk[j]) ==> i < j)
    && (forall i, j :: 0 <= i < j < |walk| ==> walk[i] != walk[j])
  }

  /** The tree below `folder` is connected: every directory between a
      regular file and `folder` exists. */
  ghost predicate FilesRooted(fs: Fs, folder: string)
  {
    forall f, a :: f in fs.files && Under(f, a) && Under(a, folder) ==> a in fs.dirs
  }

  ghost predicate NoFaults(faults: SweepFaults)
  {
    forall i :: faults.listdir(i).None? && faults.rmdir(i).None?
  }

  /** The directories of `EmptySubtrees` among the first `n` of the walk. */
  function SweptBy(fs: Fs, folder: string, walk: seq<string>, n: nat): set<string>
    requires n <= |walk|
  {
    set d | d in EmptySubtrees(fs, folder) && d in walk[..n]
  }

  /** The turn of a directory under `folder`, with the directories of
      `EmptySubtrees` that came earlier already gone: it removes the
      directory exactly when that is in `EmptySubtrees`. */
  lemma BottomUpTurn(fs: Fs, cur: Fs, faults: SweepFaults, folder: string, walk: seq<string>, n: nat)
    requires NoFaults(faults) && BottomUpWalk(fs, folder, walk) && FilesRooted(fs, folder)
    requires n < |walk| && walk[n] != folder
    requires cur == Fs(fs.files, fs.dirs - SweptBy(fs, folder, walk, n))
    ensures var r := SweepStep(cur, faults, n, walk[n]);
      && r.0 == (if walk[n] in EmptySubtrees(fs, folder) then 1 else 0)
      && r.1 == Fs(fs.files, cur.dirs - (EmptySubtrees(fs, folder) * {walk[n]}))
  {
    var d, empty := walk[n], EmptySubtrees(fs, folder);
    var swept := SweptBy(fs, folder, walk, n);
    assert Under(d, folder);
    UnderProper(d, folder);
    assert faults.listdir(n).None? && faults.rmdir(n).None?;
    if d in empty {
      assert d !in walk[..n] by {
        forall j | 0 <= j < n ensures walk[..n][j] != d { assert walk[j] != walk[n]; }
      }
      forall p | Parent(p) == d
        ensures p !in cur.files && p !in cur.dirs
      {
        ChildUnder(p, d);
        UnderTransitive(p, d, folder);
        if p in fs.dirs {
          assert p in walk;
          var j :| 0 <= j < |walk| && walk[j] == p;
          assert walk[..n][j] == p;
          forall f | f in fs.files ensures !Under(f, p) { UnderTransitive(f, p, d); }
          assert p in swept;
        }
      }
      assert Children(cur, d) == {};
    } else if d in fs.dirs {
      var f :| f in fs.files && Under(f, d);
      var c := ChildTowards(f, d);
      ChildUnder(c, d);
      if c != f {
        UnderTransitive(c, d, folder);
        assert c in fs.dirs;
        assert c !in empty;
      }
      assert c in Children(cur, d);
    }
  }

  /** The last turn of a sweep, on the state the earlier turns left. */
  lemma SweepLast(fs: Fs, faults: SweepFaults, folder: string, walk: seq<string>, n: nat)
    requires n < |walk|
    ensures var prior := Sweep(fs, faults, folder, walk[..n]);
      var step := SweepStep(prior.1, faults, n, walk[n]);
      Sweep(fs, faults, folder, walk[..n + 1]) ==
        if walk[n] == folder then prior else (prior.0 + step.0, step.1)
  {
    assert walk[..n + 1][..n] == walk[..n];
  }

  /** One more turn of the walk adds its directory when it is in
      `EmptySubtrees`. */
  lemma SweptByStep(fs: Fs, folder: string, walk: seq<string>, m: nat)
    requires m < |walk|
    ensures SweptBy(fs, folder, walk, m + 1) ==
      SweptBy(fs, folder, walk, m) + EmptySubtrees(fs, folder) * {walk[m]}
  {
    assert walk[..m + 1] == walk[..m] + [walk[m]];
  }

  /** Removing `before`, then the directories of `extra` not in it, removes
      their union, and counts add up. */
  lemma RemoveMore(dirs: set<string>, before: set<string>, extra: set<string>)
    requires extra !! before
    ensures (dirs - before) - extra == dirs - (before + extra)
    ensures |before + extra| == |before| + |extra|
  {
  }

  /** Extends a sweep over the first `m` directories of the walk by the
      turn of the next one, given what that turn removes. */
  lemma ComposeTurn(fs: Fs, faults: SweepFaults, folder: string, walk: seq<string>, m: nat,
                    before: set<string>, extra: set<string>)
    requires m < |walk| && extra !! before
    requires Sweep(fs, faults, folder, walk[..m]) == (|before|, Fs(fs.files, fs.dirs - before))
    requires walk[m] == folder ==> extra == {}
    requires walk[m] != folder ==>
      SweepStep(Fs(fs.files, fs.dirs - before), faults, m, walk[m]) ==
      (|extra|, Fs(fs.files, (fs.dirs - before) - extra))
    ensures Sweep(fs, faults, folder, walk[..m + 1]) ==
      (|before + extra|, Fs(fs.files, fs.dirs - (before + extra)))
  {
    SweepLast(fs, faults, folder, walk, m);
    RemoveMore(fs.dirs, before, extra);
    var prior := Sweep(fs, faults, folder, walk[..m]);
    if walk[m] == folder {
      assert before + extra == before;
      assert Sweep(fs, faults, folder, walk[..m + 1]) == prior;
    } else {
      var step := SweepStep(prior.1, faults, m, walk[m]);
      assert Sweep(fs, faults, folder, walk[..m + 1]) == (prior.0 + step.0, step.1);
    }
  }

  /** What the turn of the `m`-th directory of a bottom-up walk adds to the
      directories swept before it. */
  lemma TurnAdds(fs: Fs, faults: SweepFaults, folder: string, walk: seq<string>, m: nat)
    requires NoFaults(faults) && BottomUpWalk(fs, folder, walk) && FilesRooted(fs, folder)
    requires m < |walk|
    ensures var before, extra := SweptBy(fs, folder, walk, m), EmptySubtrees(fs, folder) * {walk[m]};
      && extra !! before
      && SweptBy(fs, folder, walk, m + 1) == before + extra
      && (walk[m] == folder ==> extra == {})
      && (walk[m] != folder ==>
            SweepStep(Fs(fs.files, fs.dirs - before), faults, m, walk[m]) ==
            (|extra|, Fs(fs.files, (fs.dirs - before) - extra)))
  {
    var w, empty := walk[m], EmptySubtrees(fs, folder);
    var before, extra := SweptBy(fs, folder, walk, m), empty * {w};
    SweptByStep(fs, folder, walk, m);
    assert extra !! before by {
      if w in empty {
        forall j | 0 <= j < m ensures walk[..m][j] != w { assert walk[j] != walk[m]; }
      }
    }
    if w == folder {
      UnderProper(folder, folder);
      assert extra == {};
    } else {
      BottomUpTurn(fs, Fs(fs.files, fs.dirs - before), faults, folder, walk, m);
      if w in empty {
        assert extra == {w};
      } else {
        assert extra == {};
      }
    }
  }

  /** The sweep over the first `n` directories of a bottom-up walk has
      removed exactly the directories of `EmptySubtrees` among them. */
  lemma {:induction false} BottomUpPrefix(fs: Fs, faults: SweepFaults, folder: string, walk: seq<string>, n: nat)
    requires NoFaults(faults) && BottomUpWalk(fs, folder, walk) && FilesRooted(fs, folder)
    requires n <= |walk|
    ensures var swept := SweptBy(fs, folder, walk, n);
      Sweep(fs, faults, folder, walk[..n]) == (|swept|, Fs(fs.files, fs.dirs - swept))
  {
    if n == 0 {
      assert SweptBy(fs, folder, walk, 0) == {};
      assert walk[..0] == [];
      assert fs.dirs - {} == fs.dirs;
    } else {
      var m := n - 1;
      var before, extra := SweptBy(fs, folder, walk, m), EmptySubtrees(fs, folder) * {walk[m]};
      BottomUpPrefix(fs, faults, folder, walk, m);
      TurnAdds(fs, faults, folder, walk, m);
      ComposeTurn(fs, faults, folder, walk, m, before, extra);
      assert SweptBy(fs, folder, walk, n) == before + extra;
    }
  }

  /** Bottom-up completeness: with no failing call, a bottom-up walk over a
      connected tree removes every directory under `folder` that has no
      regular file below it, and no other, and counts each. */
  lemma SweepBottomUp(fs: Fs, faults: SweepFaults, folder: string, walk: seq<string>)
    requires NoFaults(faults) && BottomUpWalk(fs, folder, walk) && FilesRooted(fs, folder)
    ensures var r := Sweep(fs, faults, folder, walk);
      && (forall d :: d in fs.dirs && Under(d, folder) && NoFileUnder(fs, d) ==> d !in r.1.dirs)
      && r == (|EmptySubtrees(fs, folder)|, Fs(fs.files, fs.dirs - EmptySubtrees(fs, folder)))
  {
    BottomUpPrefix(fs, faults, folder, walk, |walk|);
    assert walk[..|walk|] == walk;
    assert SweptBy(fs, folder, walk, |walk|) == EmptySubtrees(fs, folder);
  }

  /** A chain of empty directories `s/a/b` under the top folder `s`: the
      bottom-up walk removes both, deepest first. */
  lemma NestedEmptyRemoved(faults: SweepFaults)
    requires forall i :: faults.listdir(i).None? && faults.rmdir(i).None?
    ensures Sweep(Fs(map[], {"s", "s/a", "s/a/b"}), faults, "s", ["s/a/b", "s/a", "s"]) == (2, Fs(map[], {"s"}))
  {
    var fs := Fs(map[], {"s", "s/a", "s/a/b"});
    var fs1 := Fs(map[], {"s", "s/a"});
    var fs2 := Fs(map[], {"s"});
    assert Parent("s") == "" && Parent("s/a") == "s" && Parent("s/a/b") == "s/a";
    assert faults.listdir(0).None? && faults.rmdir(0).None?;
    assert faults.listdir(1).None? && faults.rmdir(1).None?;
    assert Children(fs, "s/a/b") == {};
    assert fs.dirs - {"s/a/b"} == fs1.dirs;
    assert SweepStep(fs, faults, 0, "s/a/b") == (1, fs1);
    assert Children(fs1, "s/a") == {};
    assert fs1.dirs - {"s/a"} == fs2.dirs;
    assert SweepStep(fs1, faults, 1, "s/a") == (1, fs2);
    var walk := ["s/a/b", "s/a", "s"];
    assert walk[..2][..1] == ["s/a/b"] && walk[..2] == ["s/a/b", "s/a"];
    assert ["s/a/b"][..0] == [];
    assert Sweep(fs, faults, "s", ["s/a/b"]) == (1, fs1);
    assert Sweep(fs, faults, "s", walk[..2]) == (2, fs2);
  }

  /** In top-down order the same chain loses only its deepest directory:
      the parent still holds its child when its turn comes. */
  lemma TopDownLeavesParent(faults: SweepFaults)
    requires forall i :: faults.listdir(i).None? && faults.rmdir(i).None?
    ensures Sweep(Fs(map[], {"s", "s/a", "s/a/b"}), faults, "s", ["s", "s/a", "s/a/b"]) == (1, Fs(map[], {"s", "s/a"}))
  {
    var fs := Fs(map[], {"s", "s/a", "s/a/b"});
    var fs1 := Fs(map[], {"s", "s/a"});
    assert Parent("s") == "" && Parent("s/a") == "s" && Parent("s/a/b") == "s/a";
    assert faults.listdir(1).None? && faults.listdir(2).None? && faults.rmdir(2).None?;
    assert "s/a/b" in Children(fs, "s/a");
    assert SweepStep(fs, faults, 1, "s/a") == (0, fs);
    assert Children(fs, "s/a/b") == {};
    assert fs.dirs - {"s/a/b"} == fs1.dirs;
    assert SweepStep(fs, faults, 2, "s/a/b") == (1, fs1);
    var walk := ["s", "s/a", "s/a/b"];
    assert walk[..2][..1] == ["s"] && walk[..2] == ["s", "s/a"];
    assert ["s"][..0] == [];
    assert Sweep(fs, faults, "s", ["s"]) == (0, fs);
    assert Sweep(fs, faults, "s", walk[..2]) == (0, fs);
  }
}
