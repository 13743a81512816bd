/** The zone-marker purge of `delete-zone-identifier.py`: a walk over a directory tree that
    deletes every regular file whose name ends with `:Zone.Identifier`. The tree is a value;
    which deletions fail (permissions, a file that vanished) is an input set of paths. */
module ZonePurge {
  import opened Optional

  /** A path: the components below the file system root, the last one being the entry's name. */
  type Path = seq<string>

  /** A directory entry: a regular file, a directory with its entries, or anything else
      (a device, a socket, a dangling link), which the walk neither deletes nor enters. */
  datatype Entry = File(name: string) | Dir(name: string, children: seq<Entry>) | Other(name: string)

  /** The suffix that marks a download-provenance file. */
  const MarkerSuffix: string := ":Zone.Identifier"

  /** `name.endswith(':Zone.Identifier')`. */
  predicate IsMarker(name: string)
  {
    |MarkerSuffix| <= |name| && name[|name| - |MarkerSuffix|..] == MarkerSuffix
  }

  /** What the walk does with one entry of the directory at `dir`: a marker file whose
      deletion does not fail disappears, a directory is walked, anything else stays. */
  function PurgeEntry(dir: Path, e: Entry, failing: set<Path>): seq<Entry>
    decreases e
  {
    match e
    case File(n) => if IsMarker(n) && dir + [n] !in failing then [] else [e]
    case Dir(n, ch) => [Dir(n, Purge(dir + [n], ch, failing))]
    case Other(_) => [e]
  }

  /** The entries of the directory at `dir` after the walk, in their original order. */
  function Purge(dir: Path, es: seq<Entry>, failing: set<Path>): seq<Entry>
    decreases es
  {
    if es == [] then []
    else Purge(dir, es[..|es| - 1], failing) + PurgeEntry(dir, es[|es| - 1], failing)
  }

  /** The kind of an entry, as `os.path.isfile` and `os.path.isdir` tell them apart. */
  datatype Kind = RegularFile | Directory | Special

  /** An entry of the tree, by full path and kind. */
  datatype Item = Item(path: Path, kind: Kind)

  function ItemsOf(dir: Path, e: Entry): set<Item>
    decreases e
  {
    match e
    case File(n) => {Item(dir + [n], RegularFile)}
    case Dir(n, ch) => {Item(dir + [n], Directory)} + Items(dir + [n], ch)
    case Other(n) => {Item(dir + [n], Special)}
  }

  /** Every entry at or below the entries `es` of the directory at `dir`. */
  function Items(dir: Path, es: seq<Entry>): set<Item>
    decreases es
  {
    if es == [] then {}
    else Items(dir, es[..|es| - 1]) + ItemsOf(dir, es[|es| - 1])
  }

  /** The files the walk deletes: marker files whose deletion does not fail. */
  predicate Doomed(x: Item, failing: set<Path>)
  {
    x.kind == RegularFile && |x.path| > 0 && IsMarker(x.path[|x.path| - 1]) && x.path !in failing
  }

  lemma {:induction false} PurgeEntryItems(dir: Path, e: Entry, failing: set<Path>)
    ensures Items(dir, PurgeEntry(dir, e, failing)) == set x | x in ItemsOf(dir, e) && !Doomed(x, failing)
    decreases e
  {
    var out := PurgeEntry(dir, e, failing);
    match e
    case File(n) =>
      assert (dir + [n])[|dir + [n]| - 1] == n;
      if out != [] {
        assert out[..0] == [];
      }
    case Dir(n, ch) =>
      PurgeItems(dir + [n], ch, failing);
      assert out[..0] == [];
    case Other(n) =>
      assert out[..0] == [];
  }

  lemma {:induction false} ItemsAppend(dir: Path, a: seq<Entry>, b: seq<Entry>)
    ensures Items(dir, a + b) == Items(dir, a) + Items(dir, b)
    decreases |b|
  {
    if b != [] {
      var b' := b[..|b| - 1];
      assert (a + b)[..|a + b| - 1] == a + b';
      assert (a + b)[|a + b| - 1] == b[|b| - 1];
      ItemsAppend(dir, a, b');
    } else {
      assert a + b == a;
    }
  }

  /** Exactly the deletable marker files disappear: every other file, every directory
      and every special entry is still there, under the same path. */
  lemma {:induction false} PurgeItems(dir: Path, es: seq<Entry>, failing: set<Path>)
    ensures Items(dir, Purge(dir, es, failing)) == set x | x in Items(dir, es) && !Doomed(x, failing)
    decreases es
  {
    if es != [] {
      var init, last := es[..|es| - 1], es[|es| - 1];
      PurgeItems(dir, init, failing);
      PurgeEntryItems(dir, last, failing);
      ItemsAppend(dir, Purge(dir, init, failing), PurgeEntry(dir, last, failing));
    }
  }

  /** After the walk, the only marker files left are those whose deletion failed,
      and no entry other than a deletable marker file was removed. */
  lemma PurgeRemovesOnlyMarkers(dir: Path, es: seq<Entry>, failing: set<Path>)
    ensures forall p ::
      (Item(p, RegularFile) in Items(dir, Purge(dir, es, failing)) && |p| > 0 && IsMarker(p[|p| - 1]))
      ==> p in failing
    ensures forall x :: x in Items(dir, es) && !Doomed(x, failing) ==> x in Items(dir, Purge(dir, es, failing))
    ensures forall x :: x in Items(dir, Purge(dir, es, failing)) ==> x in Items(dir, es)
    ensures forall p :: Item(p, Directory) in Items(dir, Purge(dir, es, failing)) <==> Item(p, Directory) in Items(dir, es)
  {
    PurgeItems(dir, es, failing);
  }

  /** The tree with every marker file removed, whether or not its deletion would fail. */
  function Unmarked(es: seq<Entry>): seq<Entry>
  {
    if es == [] then []
    else
      var last := match es[|es| - 1]
        case File(n) => if IsMarker(n) then [] else [File(n)]
        case Dir(n, ch) => [Dir(n, Unmarked(ch))]
        case Other(n) => [Other(n)];
      Unmarked(es[..|es| - 1]) + last
  }

  lemma {:induction false} UnmarkedAppend(a: seq<Entry>, b: seq<Entry>)
    ensures Unmarked(a + b) == Unmarked(a) + Unmarked(b)
    decreases |b|
  {
    if b != [] {
      var b' := b[..|b| - 1];
      assert (a + b)[..|a + b| - 1] == a + b';
      assert (a + b)[|a + b| - 1] == b[|b| - 1];
      UnmarkedAppend(a, b');
    } else {
      assert a + b == a;
    }
  }

  /** Apart from the marker files, the tree is unchanged: the same entries, in the same
      order, in the same directories. */
  lemma {:induction false} PurgeKeepsTheRest(dir: Path, es: seq<Entry>, failing: set<Path>)
    ensures Unmarked(Purge(dir, es, failing)) == Unmarked(es)
    decreases es
  {
    if es != [] {
      var init, last := es[..|es| - 1], es[|es| - 1];
      PurgeKeepsTheRest(dir, init, failing);
      var tail := PurgeEntry(dir, last, failing);
      UnmarkedAppend(Purge(dir, init, failing), tail);
      match last
      case File(n) =>
        if tail != [] {
          assert tail[..0] == [];
        }
      case Dir(n, ch) =>
        PurgeKeepsTheRest(dir + [n], ch, failing);
        assert tail[..0] == [];
      case Other(n) =>
        assert tail[..0] == [];
    }
  }

  /** Walking an already purged tree again, with the same deletions failing, changes nothing;
      with no failures this is the idempotence of the purge. */
  lemma {:induction false} PurgeIdempotent(dir: Path, es: seq<Entry>, failing: set<Path>)
    ensures Purge(dir, Purge(dir, es, failing), failing) == Purge(dir, es, failing)
    decreases es
  {
    if es != [] {
      var init, last := es[..|es| - 1], es[|es| - 1];
      PurgeIdempotent(dir, init, failing);
      var head, tail := Purge(dir, init, failing), PurgeEntry(dir, last, failing);
      PurgeAppend(dir, head, tail, failing);
      match last
      case File(n) =>
        if tail != [] {
          assert tail[..0] == [];
        }
      case Dir(n, ch) =>
        PurgeIdempotent(dir + [n], ch, failing);
        assert tail[..0] == [];
      case Other(n) =>
        assert tail[..0] == [];
    }
  }

  lemma {:induction false} PurgeAppend(dir: Path, a: seq<Entry>, b: seq<Entry>, failing: set<Path>)
    ensures Purge(dir, a + b, failing) == Purge(dir, a, failing) + Purge(dir, b, failing)
    decreases |b|
  {
    if b != [] {
      var b' := b[..|b| - 1];
      assert (a + b)[..|a + b| - 1] == a + b';
      assert (a + b)[|a + b| - 1] == b[|b| - 1];
      PurgeAppend(dir, a, b', failing);
    } else {
      assert a + b == a;
    }
  }

  // ---------------------------------------------------------------------------
  // The walk with listing failures: a directory that cannot be listed raises out of
  // every enclosing call, so the rest of the tree is not visited.
  // ---------------------------------------------------------------------------

  /** The state reached by (part of) the walk: the entries as they now are, the paths
      deleted so far, and whether `os.listdir` raised and ended the whole walk. */
  datatype Walked = Walked(entries: seq<Entry>, deleted: set<Path>, aborted: bool)

  /** One call of `eliminar_zone_identifier` on the directory at `dir` holding `es`:
      listing it fails when `dir` is unlistable, and nothing in it changes. */
  function Listing(dir: Path, es: seq<Entry>, failing: set<Path>, unlistable: set<Path>): Walked
    decreases es, 1
  {
    if dir in unlistable then Walked(es, {}, true) else Walk(dir, es, failing, unlistable)
  }

  /** The loop over the listed entries `es` of the directory at `dir`, stopped by the
      first failed listing below it; the entries after that point are left as they are. */
  function Walk(dir: Path, es: seq<Entry>, failing: set<Path>, unlistable: set<Path>): Walked
    decreases es, 0
  {
    if es == [] then Walked([], {}, false)
    else
      var w := Walk(dir, es[..|es| - 1], failing, unlistable);
      if w.aborted then Walked(w.entries + [es[|es| - 1]], w.deleted, true)
      else
        var x := WalkEntry(dir, es[|es| - 1], failing, unlistable);
        Walked(w.entries + x.entries, w.deleted + x.deleted, x.aborted)
  }

  /** One entry of the loop: a deletable marker file goes, a directory is walked by a
      recursive call, anything else stays. */
  function WalkEntry(dir: Path, e: Entry, failing: set<Path>, unlistable: set<Path>): Walked
    decreases e, 2
  {
    match e
    case File(n) =>
      if IsMarker(n) && dir + [n] !in failing then Walked([], {dir + [n]}, false)
      else Walked([e], {}, false)
    case Dir(n, ch) =>
      var w := Listing(dir + [n], ch, failing, unlistable);
      Walked([Dir(n, w.entries)], w.deleted, w.aborted)
    case Other(_) => Walked([e], {}, false)
  }

  /** A directory at or below the entries `es` of `dir` that cannot be listed. */
  predicate Blocked(dir: Path, es: seq<Entry>, unlistable: set<Path>)
  {
    exists p :: p in unlistable && Item(p, Directory) in Items(dir, es)
  }

  /** The marker files at or below `es` that the walk may delete. */
  predicate DoomedIn(p: Path, dir: Path, es: seq<Entry>, failing: set<Path>)
  {
    Doomed(Item(p, RegularFile), failing) && Item(p, RegularFile) in Items(dir, es)
  }

  // The facts below, about one entry, a loop and a call, are proved together by induction.

  lemma {:induction false} WalkEntryFacts(dir: Path, e: Entry, failing: set<Path>, unlistable: set<Path>)
    ensures var w := WalkEntry(dir, e, failing, unlistable);
      && (w.aborted <==> Blocked(dir, [e], unlistable))
      && Unmarked(w.entries) == Unmarked([e])
      && (forall p :: p in w.deleted ==> DoomedIn(p, dir, [e], failing))
      && (!w.aborted ==> w.entries == PurgeEntry(dir, e, failing) &&
                         forall p :: DoomedIn(p, dir, [e], failing) ==> p in w.deleted)
    decreases e, 2
  {
    assert [e][..0] == [] && [e][0] == e;
    assert Items(dir, [e]) == ItemsOf(dir, e);
    match e
    case File(n) =>
      assert (dir + [n])[|dir + [n]| - 1] == n;
    case Dir(n, ch) =>
      ListingFacts(dir + [n], ch, failing, unlistable);
      var w := Listing(dir + [n], ch, failing, unlistable);
      if w.aborted {
        if dir + [n] in unlistable {
          assert Item(dir + [n], Directory) in Items(dir, [e]);
        } else {
          var p :| p in unlistable && Item(p, Directory) in Items(dir + [n], ch);
          assert Item(p, Directory) in Items(dir, [e]);
        }
      }
    case Other(n) =>
  }

  lemma {:induction false} ListingFacts(dir: Path, es: seq<Entry>, failing: set<Path>, unlistable: set<Path>)
    ensures var w := Listing(dir, es, failing, unlistable);
      && (w.aborted <==> dir in unlistable || Blocked(dir, es, unlistable))
      && Unmarked(w.entries) == Unmarked(es)
      && (forall p :: p in w.deleted ==> DoomedIn(p, dir, es, failing))
      && (!w.aborted ==> w.entries == Purge(dir, es, failing) &&
                         forall p :: DoomedIn(p, dir, es, failing) ==> p in w.deleted)
    decreases es, 1
  {
    if dir !in unlistable {
      WalkFacts(dir, es, failing, unlistable);
    }
  }

  lemma {:induction false} WalkFacts(dir: Path, es: seq<Entry>, failing: set<Path>, unlistable: set<Path>)
    ensures var w := Walk(dir, es, failing, unlistable);
      && (w.aborted <==> Blocked(dir, es, unlistable))
      && Unmarked(w.entries) == Unmarked(es)
      && (forall p :: p in w.deleted ==> DoomedIn(p, dir, es, failing))
      && (!w.aborted ==> w.entries == Purge(dir, es, failing) &&
                         forall p :: DoomedIn(p, dir, es, failing) ==> p in w.deleted)
    decreases es, 0
  {
    if es != [] {
      var init, last := es[..|es| - 1], es[|es| - 1];
      WalkFacts(dir, init, failing, unlistable);
      WalkEntryFacts(dir, last, failing, unlistable);
      ItemsAppend(dir, init, [last]);
      assert init + [last] == es;
      UnmarkedAppend(init, [last]);
      var w := Walk(dir, init, failing, unlistable);
      if w.aborted {
        UnmarkedAppend(w.entries, [last]);
      } else {
        UnmarkedAppend(w.entries, WalkEntry(dir, last, failing, unlistable).entries);
      }
    }
  }

  /** Once a failed listing has ended the walk, the entries after it are left as they are. */
  lemma {:induction false} WalkAfterAbort(dir: Path, es: seq<Entry>, k: nat, failing: set<Path>, unlistable: set<Path>)
    requires k <= |es| && Walk(dir, es[..k], failing, unlistable).aborted
    ensures var w := Walk(dir, es[..k], failing, unlistable);
      Walk(dir, es, failing, unlistable) == Walked(w.entries + es[k..], w.deleted, true)
    decreases |es|
  {
    if k == |es| {
      assert es[..k] == es;
    } else {
      var init := es[..|es| - 1];
      assert init[..k] == es[..k];
      WalkAfterAbort(dir, init, k, failing, unlistable);
      assert init[k..] + [es[|es| - 1]] == es[k..];
    }
  }

  /** The walk over a tree in which every directory can be listed is the purge. */
  lemma ListingComplete(dir: Path, es: seq<Entry>, failing: set<Path>, unlistable: set<Path>)
    requires dir !in unlistable && !Blocked(dir, es, unlistable)
    ensures var w := Listing(dir, es, failing, unlistable);
      && !w.aborted && w.entries == Purge(dir, es, failing)
      && forall p :: p in w.deleted <==> DoomedIn(p, dir, es, failing)
  {
    ListingFacts(dir, es, failing, unlistable);
  }

  /** One more step of a loop that has not aborted visits the next entry. */
  lemma WalkStep(dir: Path, es: seq<Entry>, i: nat, failing: set<Path>, unlistable: set<Path>)
    requires i < |es| && !Walk(dir, es[..i], failing, unlistable).aborted
    ensures var w, x := Walk(dir, es[..i], failing, unlistable), WalkEntry(dir, es[i], failing, unlistable);
      Walk(dir, es[..i + 1], failing, unlistable) == Walked(w.entries + x.entries, w.deleted + x.deleted, x.aborted)
  {
    assert es[..i + 1][..i] == es[..i];
  }

  /** What `WalkFacts` says, stated about the results of the walk method. */
  lemma WalkResult(dir: Path, entries: seq<Entry>, failing: set<Path>, unlistable: set<Path>,
                   kept: seq<Entry>, deleted: seq<Path>, aborted: bool)
    requires kept == Walk(dir, entries, failing, unlistable).entries
    requires aborted == Walk(dir, entries, failing, unlistable).aborted
    requires forall p :: p in deleted <==> p in Walk(dir, entries, failing, unlistable).deleted
    ensures aborted <==> Blocked(dir, entries, unlistable)
    ensures Unmarked(kept) == Unmarked(entries)
    ensures forall p :: p in deleted ==> DoomedIn(p, dir, entries, failing)
    ensures !aborted ==> kept == Purge(dir, entries, failing) &&
                         forall p :: p in deleted <==> DoomedIn(p, dir, entries, failing)
  {
    WalkFacts(dir, entries, failing, unlistable);
  }

  /** `eliminar_zone_identifier(dir)` after `os.listdir(dir)` returned `entries`: the loop over
      the entries, recursing into subdirectories. `deleted` lists the files reported as
      removed; `aborted` says that a listing below raised and ended the walk. */
  method PurgeDirectory(dir: Path, entries: seq<Entry>, failing: set<Path>, unlistable: set<Path>)
    returns (kept: seq<Entry>, deleted: seq<Path>, aborted: bool)
    ensures kept == Walk(dir, entries, failing, unlistable).entries
    ensures aborted == Walk(dir, entries, failing, unlistable).aborted
    ensures forall p :: p in deleted <==> p in Walk(dir, entries, failing, unlistable).deleted
    ensures aborted <==> Blocked(dir, entries, unlistable)
    ensures Unmarked(kept) == Unmarked(entries)
    ensures forall p :: p in deleted ==> DoomedIn(p, dir, entries, failing)
    ensures !aborted ==> kept == Purge(dir, entries, failing) &&
                         forall p :: p in deleted <==> DoomedIn(p, dir, entries, failing)
    decreases entries
  {
    kept, deleted, aborted := [], [], false;
    var i := 0;
    while i < |entries|
      invariant 0 <= i <= |entries|
      invariant kept == Walk(dir, entries[..i], failing, unlistable).entries
      invariant !Walk(dir, entries[..i], failing, unlistable).aborted
      invariant forall p :: p in deleted <==> p in Walk(dir, entries[..i], failing, unlistable).deleted
    {
      var e := entries[i];
      WalkStep(dir, entries, i, failing, unlistable);
      match e {
        case File(n) =>
          var path := dir + [n];
          if IsMarker(n) && path !in failing {
            deleted := deleted + [path];
          } else {
            kept := kept + [e];
          }
        case Dir(n, ch) =>
          var sub, subDeleted, subAborted;
          if dir + [n] in unlistable {
            sub, subDeleted, subAborted := ch, [], true;
          } else {
            sub, subDeleted, subAborted := PurgeDirectory(dir + [n], ch, failing, unlistable);
          }
          var w := Listing(dir + [n], ch, failing, unlistable);
          assert sub == w.entries && subAborted == w.aborted;
          assert WalkEntry(dir, e, failing, unlistable) == Walked([Dir(n, sub)], w.deleted, subAborted);
          kept := kept + [Dir(n, sub)];
          deleted := deleted + subDeleted;
          if subAborted {
            WalkAfterAbort(dir, entries, i + 1, failing, unlistable);
            kept, aborted := kept + entries[i + 1..], true;
            WalkResult(dir, entries, failing, unlistable, kept, deleted, aborted);
            return;
          }
        case Other(_) =>
          kept := kept + [e];
      }
      i := i + 1;
    }
    assert entries[..i] == entries;
    WalkResult(dir, entries, failing, unlistable, kept, deleted, aborted);
  }

  /** `eliminar_zone_identifier(carpeta)`: `root` is what exists at `path`, the full path of
      `root`, if anything. Unless it is a directory nothing is deleted; otherwise it is listed
      and its entries are walked, until a listing raises. */
  method EliminateZoneIdentifiers(path: Path, root: Option<Entry>, failing: set<Path>, unlistable: set<Path>)
    returns (after: Option<Entry>, deleted: seq<Path>, aborted: bool)
    ensures !(root.Some? && root.value.Dir?) ==> after == root && deleted == [] && !aborted
    ensures root.Some? && root.value.Dir? ==>
      var w := Listing(path, root.value.children, failing, unlistable);
      && after == Some(Dir(root.value.name, w.entries))
      && aborted == w.aborted
      && (forall p :: p in deleted <==> p in w.deleted)
      && (aborted <==> path in unlistable || Blocked(path, root.value.children, unlistable))
      && Unmarked(after.value.children) == Unmarked(root.value.children)
      && (forall p :: p in deleted ==> DoomedIn(p, path, root.value.children, failing))
      && (!aborted ==> after == Some(Dir(root.value.name, Purge(path, root.value.children, failing))) &&
                       forall p :: p in deleted <==> DoomedIn(p, path, root.value.children, failing))
  {
    if !(root.Some? && root.value.Dir?) {
      return root, [], false;
    }
    ListingFacts(path, root.value.children, failing, unlistable);
    var kept;
    if path in unlistable {
      kept, deleted, aborted := root.value.children, [], true;
    } else {
      kept, deleted, aborted := PurgeDirectory(path, root.value.children, failing, unlistable);
    }
    after := Some(Dir(root.value.name, kept));
  }
}
