/**
 * The file system the plugin's tasks read and write: a finite map from absolute
 * paths (sequences of segments) to nodes, with the operations the tasks use
 * (`deleteRecursively`, `mkdirs`, `createNewFile`, `writeText`/`writeBytes`) and
 * Gradle's `sync`, which makes a destination directory hold exactly a given tree.
 */
module Disk {
  import opened Wrappers
  import opened Binary

  /** An absolute path, one segment per directory level; the empty path is the root. */
  type Path = seq<string>

  datatype Node = File(data: seq<byte>) | Dir

  /** What `File.exists()`, `isFile` and `isDirectory` report about a path. */
  datatype Stat = Missing | Regular(data: seq<byte>) | Directory

  predicate Under(p: Path, root: Path) {
    |root| <= |p| && p[..|root|] == root
  }

  predicate StrictlyUnder(p: Path, root: Path) {
    |root| < |p| && p[..|root|] == root
  }

  /** Neither path lies inside the other. */
  predicate Disjoint(a: Path, b: Path) {
    !Under(a, b) && !Under(b, a)
  }

  lemma SplitAtRoot(p: Path, root: Path)
    requires Under(p, root)
    ensures p == root + p[|root|..]
  {
  }

  lemma JoinedIsUnder(root: Path, rel: Path)
    ensures StrictlyUnder(root + rel, root) <==> rel != []
    ensures (root + rel)[|root|..] == rel
  {
    assert (root + rel)[..|root|] == root;
  }

  function StatOf(e: map<Path, Node>, p: Path): (s: Stat)
    ensures s.Missing? <==> p != [] && p !in e
    ensures s.Regular? <==> p != [] && p in e && e[p].File?
  {
    if p == [] then Directory
    else if p !in e then Missing
    else match e[p]
      case File(d) => Regular(d)
      case Dir => Directory
  }

  // ---------------------------------------------------------------- subtrees

  function RelativeKeys(e: map<Path, Node>, root: Path): set<Path> {
    set p | p in e && StrictlyUnder(p, root) :: p[|root|..]
  }

  lemma RelativeKeysAt(e: map<Path, Node>, root: Path, rel: Path)
    ensures rel in RelativeKeys(e, root) <==> rel != [] && root + rel in e
  {
    JoinedIsUnder(root, rel);
    if rel in RelativeKeys(e, root) {
      var p :| p in e && StrictlyUnder(p, root) && p[|root|..] == rel;
      SplitAtRoot(p, root);
    }
  }

  /** The entries strictly below `root`, keyed by their path relative to it. */
  function Subtree(e: map<Path, Node>, root: Path): (t: map<Path, Node>)
    ensures forall rel :: rel in t <==> rel != [] && root + rel in e
    ensures forall rel :: rel in t ==> t[rel] == e[root + rel]
  {
    forall rel
      ensures rel in RelativeKeys(e, root) <==> rel != [] && root + rel in e
    {
      RelativeKeysAt(e, root, rel);
    }
    map rel | rel in RelativeKeys(e, root) :: e[root + rel]
  }

  /** The regular files of a tree and their contents. */
  function FilesOf(t: map<Path, Node>): (f: map<Path, seq<byte>>)
    ensures forall r :: r in f <==> r in t && t[r].File?
    ensures forall r :: r in f ==> t[r] == File(f[r])
  {
    map r | r in t && t[r].File? :: t[r].data
  }

  /** The files strictly below `root`, keyed by their relative path. */
  function FilesUnder(e: map<Path, Node>, root: Path): map<Path, seq<byte>> {
    FilesOf(Subtree(e, root))
  }

  /** Everything outside `root`: what deleting `root` recursively leaves. */
  function Outside(e: map<Path, Node>, root: Path): (o: map<Path, Node>)
    ensures forall p :: p in o <==> p in e && !Under(p, root)
    ensures forall p :: p in o ==> o[p] == e[p]
  {
    map p | p in e && !Under(p, root) :: e[p]
  }

  // ---------------------------------------------------------------- sync

  /** A tree placed below `root`. */
  function Graft(t: map<Path, Node>, root: Path): (g: map<Path, Node>)
    ensures forall p :: p in g <==> StrictlyUnder(p, root) && p[|root|..] in t
    ensures forall p {:trigger g[p]} :: p in g ==> |root| < |p| && g[p] == t[p[|root|..]]
  {
    var keys := set r {:trigger root + r} | r in t && r != [] :: root + r;
    forall p
      ensures p in keys <==> StrictlyUnder(p, root) && p[|root|..] in t && p[|root|..] != []
    {
      if p in keys {
        var r :| r in t && r != [] && root + r == p;
        JoinedIsUnder(root, r);
      }
      if StrictlyUnder(p, root) && p[|root|..] in t {
        SplitAtRoot(p, root);
      }
    }
    map p | p in keys :: t[p[|root|..]]
  }

  /**
   * Gradle's `sync { from(...); into(dst) }`: afterwards `dst` is a directory
   * holding exactly the tree `t`, and nothing outside `dst` has changed.
   */
  function SyncResult(e: map<Path, Node>, t: map<Path, Node>, dst: Path): map<Path, Node> {
    Outside(e, dst)[dst := Dir] + Graft(t, dst)
  }

  /** Below `dst`, a sync leaves exactly the given tree. */
  lemma SubtreeOfSync(e: map<Path, Node>, t: map<Path, Node>, dst: Path)
    requires [] !in t
    ensures Subtree(SyncResult(e, t, dst), dst) == t
  {
    var s := Subtree(SyncResult(e, t, dst), dst);
    forall rel
      ensures (rel in s <==> rel in t) && (rel in s ==> s[rel] == t[rel])
    {
      JoinedIsUnder(dst, rel);
    }
    SameMaps(s, t);
  }

  /** Outside `dst`, a sync changes nothing. */
  lemma SyncElsewhere(e: map<Path, Node>, t: map<Path, Node>, dst: Path, p: Path)
    requires !Under(p, dst)
    ensures var r := SyncResult(e, t, dst); (p in r <==> p in e) && (p in e ==> r[p] == e[p])
  {
  }

  lemma JoinedNotUnder(src: Path, dst: Path, rel: Path)
    requires Disjoint(src, dst)
    ensures !Under(src + rel, dst)
  {
    var p := src + rel;
    assert p[..|src|] == src;
    if |dst| <= |src| {
      assert p[..|dst|] == src[..|dst|];
    } else if |dst| <= |p| {
      assert p[..|dst|][..|src|] == src;
    }
  }

  /** A tree that lies neither inside nor around the destination is left as it was. */
  lemma SyncKeepsDisjoint(e: map<Path, Node>, t: map<Path, Node>, dst: Path, src: Path)
    requires Disjoint(src, dst)
    ensures Subtree(SyncResult(e, t, dst), src) == Subtree(e, src)
  {
    var a, b := Subtree(SyncResult(e, t, dst), src), Subtree(e, src);
    forall rel
      ensures (rel in a <==> rel in b) && (rel in a ==> a[rel] == b[rel])
    {
      JoinedNotUnder(src, dst, rel);
      SyncElsewhere(e, t, dst, src + rel);
    }
    SameMaps(a, b);
  }

  /** A sync that is repeated with the same tree changes nothing more. */
  lemma SyncIdempotent(e: map<Path, Node>, t: map<Path, Node>, dst: Path)
    ensures SyncResult(SyncResult(e, t, dst), t, dst) == SyncResult(e, t, dst)
  {
  }

  /** Deleting a directory and making it again is a sync of the empty tree. */
  lemma EmptySync(e: map<Path, Node>, dst: Path)
    ensures Outside(e, dst)[dst := Dir] == SyncResult(e, map[], dst)
  {
    assert Graft(map[], dst) == map[];
  }

  /** Outside `dst`, a sync leaves everything as it was. */
  lemma OutsideOfSync(e: map<Path, Node>, t: map<Path, Node>, dst: Path)
    ensures Outside(SyncResult(e, t, dst), dst) == Outside(e, dst)
  {
    var a, b := Outside(SyncResult(e, t, dst), dst), Outside(e, dst);
    forall p
      ensures (p in a <==> p in b) && (p in a ==> a[p] == b[p])
    {
      if !Under(p, dst) {
        SyncElsewhere(e, t, dst, p);
      }
    }
    SameMaps(a, b);
  }

  /** Nothing is left below a deleted directory. */
  lemma SubtreeOfOutside(e: map<Path, Node>, root: Path)
    ensures Subtree(Outside(e, root), root) == map[]
  {
    forall rel | rel in Subtree(Outside(e, root), root)
      ensures false
    {
      JoinedIsUnder(root, rel);
    }
  }

  /** The stat of a path outside `dst` is the same after the sync. */
  lemma StatElsewhere(e: map<Path, Node>, t: map<Path, Node>, dst: Path, p: Path)
    requires !Under(p, dst)
    ensures StatOf(SyncResult(e, t, dst), p) == StatOf(e, p)
  {
    SyncElsewhere(e, t, dst, p);
  }

  /** After a sync, `dst` is a directory and its child `name` is what the tree holds there. */
  lemma StatOfSyncedChild(e: map<Path, Node>, t: map<Path, Node>, dst: Path, name: string)
    ensures StatOf(SyncResult(e, t, dst), dst) == Directory
    ensures var s := StatOf(SyncResult(e, t, dst), dst + [name]);
      ([name] !in t ==> s == Missing) && ([name] in t && t[[name]].File? ==> s == Regular(t[[name]].data))
  {
    JoinedIsUnder(dst, [name]);
    var r := SyncResult(e, t, dst);
    assert dst !in Graft(t, dst);
    if dst != [] {
      assert r[dst] == Dir;
    }
  }

  /** What a sync leaves at one path. */
  function SyncedAt(e: map<Path, Node>, t: map<Path, Node>, dst: Path, p: Path): Option<Node> {
    if StrictlyUnder(p, dst) then (if p[|dst|..] in t then Some(t[p[|dst|..]]) else None)
    else if p == dst then Some(Dir)
    else if p in e then Some(e[p]) else None
  }

  lemma SyncAt(e: map<Path, Node>, t: map<Path, Node>, dst: Path, p: Path)
    ensures var r := SyncResult(e, t, dst);
      (p in r <==> SyncedAt(e, t, dst, p).Some?) && (p in r ==> r[p] == SyncedAt(e, t, dst, p).value)
  {
  }

  lemma SyncThenWriteAt(e: map<Path, Node>, t: map<Path, Node>, dst: Path, name: string, n: Node, p: Path)
    ensures var a, b := SyncResult(e, t, dst)[dst + [name] := n], SyncResult(e, t[[name] := n], dst);
      (p in a <==> p in b) && (p in a ==> a[p] == b[p])
  {
    JoinedIsUnder(dst, [name]);
    SyncAt(e, t[[name] := n], dst, p);
    if p != dst + [name] {
      SyncAt(e, t, dst, p);
      if StrictlyUnder(p, dst) {
        SplitAtRoot(p, dst);
        assert p[|dst|..] != [name];
      }
    }
  }

  lemma SameMaps<K, V>(a: map<K, V>, b: map<K, V>)
    requires forall k :: (k in a <==> k in b) && (k in a ==> a[k] == b[k])
    ensures a == b
  {
  }

  /** Writing one more file into a synced directory is the sync of the tree with that file. */
  lemma SyncThenWrite(e: map<Path, Node>, t: map<Path, Node>, dst: Path, name: string, n: Node)
    ensures SyncResult(e, t, dst)[dst + [name] := n] == SyncResult(e, t[[name] := n], dst)
  {
    var a, b := SyncResult(e, t, dst)[dst + [name] := n], SyncResult(e, t[[name] := n], dst);
    forall p
      ensures (p in a <==> p in b) && (p in a ==> a[p] == b[p])
    {
      SyncThenWriteAt(e, t, dst, name, n, p);
    }
    SameMaps(a, b);
  }

  // ---------------------------------------------------------------- the file system

  /** The file system, changed in place by the tasks. */
  class FileSystem {
    var entries: map<Path, Node>

    constructor (initial: map<Path, Node>)
      ensures entries == initial
    {
      entries := initial;
    }

    function Stat(p: Path): Stat
      reads this
    {
      StatOf(entries, p)
    }

    /** `deleteRecursively()`: removes `p` and everything below it. */
    method DeleteRecursively(p: Path)
      modifies this
      ensures entries == Outside(old(entries), p)
    {
      entries := Outside(entries, p);
    }

    /**
     * `mkdirs()`: makes `p` a directory unless a regular file is there. The directories
     * above `p` are not entries of this model, so they need no creating.
     */
    method Mkdirs(p: Path)
      modifies this
      ensures entries == if p == [] || (p in old(entries) && old(entries)[p].File?) then old(entries) else old(entries)[p := Dir]
    {
      if p != [] && !(p in entries && entries[p].File?) {
        entries := entries[p := Dir];
      }
    }

    /** `writeBytes`/`writeText`: fails, changing nothing, unless the parent is a directory and `p` is not one. */
    method WriteBytes(p: Path, data: seq<byte>) returns (ok: bool)
      modifies this
      ensures ok <==> p != [] && old(Stat(p[..|p| - 1])) == Directory && !old(Stat(p)).Directory?
      ensures entries == if ok then old(entries)[p := File(data)] else old(entries)
    {
      ok := p != [] && Stat(p[..|p| - 1]) == Directory && !Stat(p).Directory?;
      if ok {
        entries := entries[p := File(data)];
      }
    }

    /**
     * `createNewFile()`: an empty file where nothing exists yet. It reports whether it
     * made one, and makes none unless the parent is a directory.
     */
    method CreateNewFile(p: Path) returns (ok: bool)
      modifies this
      ensures ok <==> p != [] && p !in old(entries) && old(Stat(p[..|p| - 1])) == Directory
      ensures entries == if ok then old(entries)[p := File([])] else old(entries)
    {
      ok := p != [] && p !in entries && Stat(p[..|p| - 1]) == Directory;
      if ok {
        entries := entries[p := File([])];
      }
    }

    /** Gradle's `sync` into `dst`. */
    method Sync(t: map<Path, Node>, dst: Path)
      modifies this
      ensures entries == SyncResult(old(entries), t, dst)
    {
      entries := SyncResult(entries, t, dst);
    }
  }
}
