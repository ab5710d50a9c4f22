/** Paths: every live node has exactly one, and each request changes the map from paths to nodes at one path at most. */
module FsPaths {
  import opened FsSpec
  import opened FsTree
  import Bytes

  /** The name of a node in its parent. */
  ghost function NameOf(fs: FS, ino: Ino): (n: Name)
    requires Tree(fs) && ino in fs.nodes && ino != ROOT
    ensures var p := fs.nodes[ino].parent; HasChild(fs, p, n) && fs.nodes[p].children[n] == ino
  {
    assert Named(fs, ino);
    var p := fs.nodes[ino].parent;
    var n :| n in fs.nodes[p].children && fs.nodes[p].children[n] == ino;
    n
  }

  /** The names from the root down to a node; the walk up ends as each directory's parent has a smaller number. */
  ghost function PathOf(fs: FS, ino: Ino): seq<Name>
    requires Tree(fs) && ino in fs.nodes
    decreases if fs.nodes[ino].isDir then ino else fs.nextDir
  {
    if ino == ROOT then []
    else
      var n := NameOf(fs, ino);
      PathOf(fs, fs.nodes[ino].parent) + [n]
  }

  /** Looking up one name after the other. */
  function Resolve(fs: FS, from: Ino, path: seq<Name>): Option<Ino>
    decreases |path|
  {
    if path == [] then Some(from)
    else if !HasChild(fs, from, path[0]) then None
    else Resolve(fs, fs.nodes[from].children[path[0]], path[1..])
  }

  /** A node below `from`, found by the path to its parent and its own name. */
  lemma {:induction false} ResolveLast(fs: FS, from: Ino, path: seq<Name>, name: Name)
    ensures Resolve(fs, from, path + [name]) ==
            match Resolve(fs, from, path)
            case None => None
            case Some(d) => if HasChild(fs, d, name) then Some(fs.nodes[d].children[name]) else None
    decreases |path|
  {
    if path == [] {
      assert path + [name] == [name] && [name][1..] == [];
    } else {
      assert (path + [name])[1..] == path[1..] + [name];
      if HasChild(fs, from, path[0]) {
        ResolveLast(fs, fs.nodes[from].children[path[0]], path[1..], name);
      }
    }
  }

  lemma {:induction false} ResolvePathOf(fs: FS, ino: Ino)
    requires Tree(fs) && ino in fs.nodes
    ensures Resolve(fs, ROOT, PathOf(fs, ino)) == Some(ino)
    decreases if fs.nodes[ino].isDir then ino else fs.nextDir
  {
    if ino != ROOT {
      assert Named(fs, ino);
      var p := fs.nodes[ino].parent;
      ResolvePathOf(fs, p);
      ResolveLast(fs, ROOT, PathOf(fs, p), NameOf(fs, ino));
    }
  }

  lemma PathOfChild(fs: FS, d: Ino, name: Name)
    requires Tree(fs) && HasChild(fs, d, name)
    ensures var c := fs.nodes[d].children[name];
            c in fs.nodes && PathOf(fs, c) == PathOf(fs, d) + [name]
  {
    var c := fs.nodes[d].children[name];
    assert c in fs.nodes && c != ROOT && fs.nodes[c].parent == d;
    assert NameOf(fs, c) == name;
  }

  lemma ResolveFront(fs: FS, path: seq<Name>)
    requires path != [] && Resolve(fs, ROOT, path).Some?
    ensures var front, last := path[..|path| - 1], path[|path| - 1];
            && path == front + [last] && Resolve(fs, ROOT, front).Some?
            && HasChild(fs, Resolve(fs, ROOT, front).value, last)
            && Resolve(fs, ROOT, path).value == fs.nodes[Resolve(fs, ROOT, front).value].children[last]
  {
    var front, last := path[..|path| - 1], path[|path| - 1];
    assert path == front + [last];
    ResolveLast(fs, ROOT, front, last);
  }

  lemma {:induction false} PathOfResolve(fs: FS, path: seq<Name>)
    requires Tree(fs) && Resolve(fs, ROOT, path).Some?
    ensures var ino := Resolve(fs, ROOT, path).value;
            ino in fs.nodes && PathOf(fs, ino) == path
    decreases |path|
  {
    if path != [] {
      ResolveFront(fs, path);
      PathOfResolve(fs, path[..|path| - 1]);
      PathOfChild(fs, Resolve(fs, ROOT, path[..|path| - 1]).value, path[|path| - 1]);
    }
  }

  /** Every live node is found by exactly one path from the root. */
  lemma OnePathEach(fs: FS, ino: Ino, path: seq<Name>)
    requires Tree(fs) && ino in fs.nodes
    ensures Resolve(fs, ROOT, path) == Some(ino) <==> path == PathOf(fs, ino)
  {
    ResolvePathOf(fs, ino);
    if Resolve(fs, ROOT, path) == Some(ino) {
      PathOfResolve(fs, path);
    }
  }

  // ---------- requests as changes of the map from paths to nodes ----------

  /** `t` is `fs` with one entry more, leading to a node `made` that has none. */
  ghost predicate OneMore(fs: FS, t: FS, parent: Ino, name: Name, made: Ino) {
    && !HasChild(fs, parent, name)
    && HasChild(t, parent, name) && t.nodes[parent].children[name] == made
    && (forall n: Name :: !HasChild(t, made, n))
    && (forall d: Ino, n: Name | (d, n) != (parent, name) :: HasChild(fs, d, n) <==> HasChild(t, d, n))
    && (forall d: Ino, n: Name | HasChild(fs, d, n) :: t.nodes[d].children[n] == fs.nodes[d].children[n])
  }

  lemma {:induction false} ResolveOneMore(fs: FS, t: FS, parent: Ino, name: Name, made: Ino, d: Ino, path: seq<Name>)
    requires OneMore(fs, t, parent, name, made)
    ensures Resolve(t, d, path) ==
            if path != [] && path[|path| - 1] == name && Resolve(fs, d, path[..|path| - 1]) == Some(parent)
            then Some(made) else Resolve(fs, d, path)
    decreases |path|
  {
    if path != [] {
      var rest, front := path[1..], path[..|path| - 1];
      assert rest != [] ==> front[0] == path[0] && front[1..] == rest[..|rest| - 1];
      if HasChild(fs, d, path[0]) {
        ResolveOneMore(fs, t, parent, name, made, fs.nodes[d].children[path[0]], rest);
      } else if (d, path[0]) == (parent, name) {
        assert rest != [] ==> !HasChild(t, made, rest[0]);
      }
    }
  }

  lemma AllocateOneMore(fs: FS, parent: Ino, isDir: bool, name: Name)
    requires IsDir(fs, parent) && !HasChild(fs, parent, name) && Fresh(fs, isDir) !in fs.nodes
    ensures OneMore(fs, Allocate(fs, parent, isDir, name), parent, name, Fresh(fs, isDir))
  {
  }

  lemma SplitLast(path: seq<Name>, front: seq<Name>, last: Name)
    ensures path == front + [last] <==> path != [] && path[..|path| - 1] == front && path[|path| - 1] == last
  {
  }

  /** Creating a file or directory adds one path, that of the parent followed by the name, and changes no other. */
  lemma MakeAddsOnePath(fs: FS, parent: Ino, isDir: bool, name: Name, path: seq<Name>)
    requires Tree(fs) && IsDir(fs, parent) && name !in fs.nodes[parent].children
    ensures Resolve(Allocate(fs, parent, isDir, name), ROOT, path) ==
            if path == PathOf(fs, parent) + [name] then Some(Fresh(fs, isDir)) else Resolve(fs, ROOT, path)
  {
    FreshIsNew(fs, isDir);
    var made := Fresh(fs, isDir);
    AllocateOneMore(fs, parent, isDir, name);
    ResolveOneMore(fs, Allocate(fs, parent, isDir, name), parent, name, made, ROOT, path);
    SplitLast(path, PathOf(fs, parent), name);
    if path != [] {
      OnePathEach(fs, parent, path[..|path| - 1]);
    }
  }

  /** `t` is `fs` without one entry, the only one leading to a node `gone` that has none. */
  ghost predicate OneLess(fs: FS, t: FS, parent: Ino, name: Name, gone: Ino) {
    && HasChild(fs, parent, name) && fs.nodes[parent].children[name] == gone
    && (forall n: Name :: !HasChild(fs, gone, n))
    && (forall d: Ino, n: Name :: HasChild(t, d, n) <==> HasChild(fs, d, n) && (d, n) != (parent, name))
    && (forall d: Ino, n: Name | HasChild(t, d, n) :: t.nodes[d].children[n] == fs.nodes[d].children[n] != gone)
  }

  lemma {:induction false} ResolveOneLess(fs: FS, t: FS, parent: Ino, name: Name, gone: Ino, d: Ino, path: seq<Name>)
    requires OneLess(fs, t, parent, name, gone) && d != gone
    ensures Resolve(t, d, path) == if Resolve(fs, d, path) == Some(gone) then None else Resolve(fs, d, path)
    decreases |path|
  {
    if path != [] {
      if HasChild(t, d, path[0]) {
        ResolveOneLess(fs, t, parent, name, gone, t.nodes[d].children[path[0]], path[1..]);
      } else if (d, path[0]) == (parent, name) {
        assert path[1..] != [] ==> !HasChild(fs, gone, path[1..][0]);
      }
    }
  }

  lemma RemoveOneLess(fs: FS, parent: Ino, name: Name)
    requires EntriesLive(fs) && NamesUnique(fs) && HasChild(fs, parent, name) && Removable(fs, parent, name)
    ensures OneLess(fs, Remove(fs, parent, name), parent, name, fs.nodes[parent].children[name])
  {
  }

  /** Removing a file or an empty directory takes away its path, and changes no other. */
  lemma RemoveDropsOnePath(fs: FS, parent: Ino, name: Name, path: seq<Name>)
    requires Tree(fs) && HasChild(fs, parent, name) && Removable(fs, parent, name)
    ensures Resolve(Remove(fs, parent, name), ROOT, path) ==
            if path == PathOf(fs, parent) + [name] then None else Resolve(fs, ROOT, path)
  {
    var c := fs.nodes[parent].children[name];
    RemoveOneLess(fs, parent, name);
    ResolveOneLess(fs, Remove(fs, parent, name), parent, name, c, ROOT, path);
    OnePathEach(fs, c, path);
    assert NameOf(fs, c) == name;
  }

  lemma {:induction false} WithDataKeepsPaths(fs: FS, ino: Ino, data: seq<Bytes.Byte>, d: Ino, path: seq<Name>)
    requires ino in fs.nodes
    ensures Resolve(WithData(fs, ino, data), d, path) == Resolve(fs, d, path)
    decreases |path|
  {
    if path != [] && HasChild(fs, d, path[0]) {
      WithDataKeepsPaths(fs, ino, data, fs.nodes[d].children[path[0]], path[1..]);
    }
  }

  lemma OtherStepPaths(fs: FS, op: Op, path: seq<Name>)
    requires !op.Create? && !op.Mkdir? && !op.Unlink? && !op.Rmdir?
    ensures Resolve(Step(fs, op).0, ROOT, path) == Resolve(fs, ROOT, path)
  {
    if op.Write? && IsFile(fs, op.ino) {
      WithDataKeepsPaths(fs, op.ino, Put(fs.nodes[op.ino].data, op.off, op.buf), ROOT, path);
    } else if op.SetAttr? && IsFile(fs, op.ino) && op.setSize && op.size >= 0 {
      WithDataKeepsPaths(fs, op.ino, Resize(fs.nodes[op.ino].data, op.size), ROOT, path);
    }
  }

  /** The paths after a request: one more, one less, or the same. */
  lemma StepPaths(fs: FS, op: Op, path: seq<Name>)
    requires Tree(fs) && Allowed(fs, op)
    ensures var (t, reply) := Step(fs, op);
            Resolve(t, ROOT, path) ==
            if (op.Create? || op.Mkdir?) && reply.Entry? && path == PathOf(fs, op.parent) + [op.name] then Some(reply.ino)
            else if (op.Unlink? || op.Rmdir?) && reply.Done? && path == PathOf(fs, op.parent) + [op.name] then None
            else Resolve(fs, ROOT, path)
  {
    match op
    case Create(parent, name) =>
      if IsDir(fs, parent) && !HasChild(fs, parent, name) { MakeAddsOnePath(fs, parent, false, name, path); }
    case Mkdir(parent, name) =>
      if IsDir(fs, parent) && !HasChild(fs, parent, name) { MakeAddsOnePath(fs, parent, true, name, path); }
    case Unlink(parent, name) =>
      if HasChild(fs, parent, name) { RemoveDropsOnePath(fs, parent, name, path); }
    case Rmdir(parent, name) =>
      if HasChild(fs, parent, name) && Removable(fs, parent, name) { RemoveDropsOnePath(fs, parent, name, path); }
    case _ => OtherStepPaths(fs, op, path);
  }
}
