/** The shape of the file system: a tree, kept by every request, in which each node has exactly one path. */
module FsTree {
  import opened FsSpec
  import Bytes

  datatype Option<+T> = None | Some(value: T)

  // ---------- the invariant ----------

  /** A name in a directory leads to a live node, not the root, that names the directory as its parent. */
  ghost predicate EntriesLive(fs: FS) {
    forall d, n | d in fs.nodes && n in fs.nodes[d].children ::
      var c := fs.nodes[d].children[n];
      fs.nodes[d].isDir && c in fs.nodes && c != ROOT && fs.nodes[c].parent == d
  }

  /** Two names in a directory lead to two nodes. */
  ghost predicate NamesUnique(fs: FS) {
    forall d, m, n | d in fs.nodes && m in fs.nodes[d].children && n in fs.nodes[d].children ::
      fs.nodes[d].children[m] == fs.nodes[d].children[n] ==> m == n
  }

  /** The parent has a name for this node. */
  ghost predicate Named(fs: FS, ino: Ino)
    requires ino in fs.nodes
  {
    var p := fs.nodes[ino].parent;
    IsDir(fs, p) && exists n :: n in fs.nodes[p].children && fs.nodes[p].children[n] == ino
  }

  ghost predicate AllNamed(fs: FS) {
    forall ino {:trigger Named(fs, ino)} | ino in fs.nodes && ino != ROOT :: Named(fs, ino)
  }

  /** Directories have odd numbers and files even ones, all below the next of their kind. */
  ghost predicate Numbered(fs: FS) {
    && fs.nextFile % 2 == 0 && fs.nextDir % 2 == 1 && fs.nextDir > ROOT
    && forall ino | ino in fs.nodes ::
         if fs.nodes[ino].isDir then ino % 2 == 1 && ino < fs.nextDir else ino % 2 == 0 && ino < fs.nextFile
  }

  /** A directory's parent was there before it. */
  ghost predicate ParentsOlder(fs: FS) {
    forall ino | ino in fs.nodes && ino != ROOT && fs.nodes[ino].isDir :: fs.nodes[ino].parent < ino
  }

  ghost predicate Tree(fs: FS) {
    && IsDir(fs, ROOT) && fs.nodes[ROOT].parent == ROOT
    && EntriesLive(fs) && NamesUnique(fs) && AllNamed(fs) && Numbered(fs) && ParentsOlder(fs)
  }

  // ---------- every request keeps it ----------

  lemma FreshIsNew(fs: FS, isDir: bool)
    requires Tree(fs)
    ensures Fresh(fs, isDir) !in fs.nodes && Fresh(fs, isDir) != ROOT
  {
  }

  lemma AllocateEntries(fs: FS, parent: Ino, isDir: bool, name: Name)
    requires EntriesLive(fs) && NamesUnique(fs) && IsDir(fs, parent) && name !in fs.nodes[parent].children
    requires Fresh(fs, isDir) !in fs.nodes && Fresh(fs, isDir) != ROOT
    ensures EntriesLive(Allocate(fs, parent, isDir, name)) && NamesUnique(Allocate(fs, parent, isDir, name))
  {
  }

  lemma AllocateNamed(fs: FS, parent: Ino, isDir: bool, name: Name)
    requires AllNamed(fs) && IsDir(fs, parent) && name !in fs.nodes[parent].children
    requires Fresh(fs, isDir) !in fs.nodes && Fresh(fs, isDir) != ROOT
    ensures AllNamed(Allocate(fs, parent, isDir, name))
  {
    var t, made := Allocate(fs, parent, isDir, name), Fresh(fs, isDir);
    forall ino | ino in t.nodes && ino != ROOT
      ensures Named(t, ino)
    {
      if ino == made {
        assert t.nodes[parent].children[name] == made;
      } else {
        assert Named(fs, ino);
        var p := fs.nodes[ino].parent;
        var n :| n in fs.nodes[p].children && fs.nodes[p].children[n] == ino;
        assert n in t.nodes[p].children && t.nodes[p].children[n] == ino;
      }
    }
  }

  lemma AllocateNumbers(fs: FS, parent: Ino, isDir: bool, name: Name)
    requires Numbered(fs) && ParentsOlder(fs) && IsDir(fs, parent)
    requires Fresh(fs, isDir) !in fs.nodes && Fresh(fs, isDir) != ROOT
    ensures Numbered(Allocate(fs, parent, isDir, name)) && ParentsOlder(Allocate(fs, parent, isDir, name))
  {
  }

  lemma AllocateKeepsTree(fs: FS, parent: Ino, isDir: bool, name: Name)
    requires Tree(fs) && IsDir(fs, parent) && name !in fs.nodes[parent].children
    ensures Tree(Allocate(fs, parent, isDir, name))
  {
    FreshIsNew(fs, isDir);
    AllocateEntries(fs, parent, isDir, name);
    AllocateNamed(fs, parent, isDir, name);
    AllocateNumbers(fs, parent, isDir, name);
  }

  /** What a name leads to may be removed: it is a file, or a directory with no names of its own. */
  predicate Removable(fs: FS, parent: Ino, name: Name)
    requires HasChild(fs, parent, name)
  {
    var c := fs.nodes[parent].children[name];
    c in fs.nodes && fs.nodes[c].children == map[]
  }

  lemma RemoveEntries(fs: FS, parent: Ino, name: Name)
    requires EntriesLive(fs) && NamesUnique(fs) && HasChild(fs, parent, name)
    ensures EntriesLive(Remove(fs, parent, name)) && NamesUnique(Remove(fs, parent, name))
  {
  }

  lemma RemoveNamed(fs: FS, parent: Ino, name: Name)
    requires EntriesLive(fs) && AllNamed(fs) && HasChild(fs, parent, name) && Removable(fs, parent, name)
    ensures AllNamed(Remove(fs, parent, name))
  {
    var t, c := Remove(fs, parent, name), fs.nodes[parent].children[name];
    forall ino | ino in t.nodes && ino != ROOT
      ensures Named(t, ino)
    {
      assert Named(fs, ino);
      var p := fs.nodes[ino].parent;
      var n :| n in fs.nodes[p].children && fs.nodes[p].children[n] == ino;
      assert n in t.nodes[p].children && t.nodes[p].children[n] == ino;
    }
  }

  lemma RemoveNumbers(fs: FS, parent: Ino, name: Name)
    requires Numbered(fs) && ParentsOlder(fs) && HasChild(fs, parent, name)
    ensures Numbered(Remove(fs, parent, name)) && ParentsOlder(Remove(fs, parent, name))
  {
  }

  lemma RemoveKeepsTree(fs: FS, parent: Ino, name: Name)
    requires Tree(fs) && HasChild(fs, parent, name) && Removable(fs, parent, name)
    ensures Tree(Remove(fs, parent, name))
  {
    RemoveEntries(fs, parent, name);
    RemoveNamed(fs, parent, name);
    RemoveNumbers(fs, parent, name);
  }

  /** Removing a directory that still has names orphans what they lead to. */
  lemma RemoveBreaksTree(fs: FS, parent: Ino, name: Name)
    requires Tree(fs) && HasChild(fs, parent, name) && !Removable(fs, parent, name)
    ensures !Tree(Remove(fs, parent, name))
  {
    var t, c := Remove(fs, parent, name), fs.nodes[parent].children[name];
    var n :| n in fs.nodes[c].children;
    var orphan := fs.nodes[c].children[n];
    assert orphan in t.nodes && t.nodes[orphan].parent == c && c !in t.nodes;
    assert !Named(t, orphan);
  }

  lemma WithDataNamed(fs: FS, ino: Ino, data: seq<Bytes.Byte>)
    requires AllNamed(fs) && ino in fs.nodes
    ensures AllNamed(WithData(fs, ino, data))
  {
    var t := WithData(fs, ino, data);
    forall i | i in t.nodes && i != ROOT
      ensures Named(t, i)
    {
      assert Named(fs, i);
      var p := fs.nodes[i].parent;
      var n :| n in fs.nodes[p].children && fs.nodes[p].children[n] == i;
      assert n in t.nodes[p].children && t.nodes[p].children[n] == i;
    }
  }

  lemma WithDataEntries(fs: FS, ino: Ino, data: seq<Bytes.Byte>)
    requires EntriesLive(fs) && NamesUnique(fs) && Numbered(fs) && ParentsOlder(fs) && ino in fs.nodes
    ensures var t := WithData(fs, ino, data);
            EntriesLive(t) && NamesUnique(t) && Numbered(t) && ParentsOlder(t)
  {
  }

  lemma WithDataKeepsTree(fs: FS, ino: Ino, data: seq<Bytes.Byte>)
    requires Tree(fs) && ino in fs.nodes
    ensures Tree(WithData(fs, ino, data))
  {
    WithDataNamed(fs, ino, data);
    WithDataEntries(fs, ino, data);
  }

  /** The one request the code does not check itself: an unlink must not name a directory that has names. */
  predicate Allowed(fs: FS, op: Op) {
    op.Unlink? && HasChild(fs, op.parent, op.name) ==> Removable(fs, op.parent, op.name)
  }

  /** A request keeps the tree exactly when it is not an unlink of a directory that still has names. */
  lemma StepKeepsTreeIff(fs: FS, op: Op)
    requires Tree(fs)
    ensures Tree(Step(fs, op).0) <==> Allowed(fs, op)
  {
    match op
    case Create(parent, name) =>
      if IsDir(fs, parent) && name !in fs.nodes[parent].children { AllocateKeepsTree(fs, parent, false, name); }
    case Mkdir(parent, name) =>
      if IsDir(fs, parent) && name !in fs.nodes[parent].children { AllocateKeepsTree(fs, parent, true, name); }
    case Unlink(parent, name) =>
      if HasChild(fs, parent, name) {
        if Removable(fs, parent, name) { RemoveKeepsTree(fs, parent, name); }
        else { RemoveBreaksTree(fs, parent, name); }
      }
    case Rmdir(parent, name) =>
      if HasChild(fs, parent, name) && Removable(fs, parent, name) { RemoveKeepsTree(fs, parent, name); }
    case Write(ino, buf, off) =>
      if IsFile(fs, ino) { WithDataKeepsTree(fs, ino, Put(fs.nodes[ino].data, off, buf)); }
    case SetAttr(ino, setSize, size) =>
      if IsFile(fs, ino) && setSize && size >= 0 { WithDataKeepsTree(fs, ino, Resize(fs.nodes[ino].data, size)); }
    case _ =>
  }

  // ---------- runs ----------

  /** Every request of the run was allowed when it came. */
  predicate AllAllowed(ops: seq<Op>) {
    ops == [] ||
    (AllAllowed(ops[..|ops| - 1]) && Allowed(Run(ops[..|ops| - 1]), ops[|ops| - 1]))
  }

  /** The file system is a tree after every run of allowed requests, so no lookup meets a name that leads nowhere. */
  lemma {:induction false} RunIsTree(ops: seq<Op>)
    requires AllAllowed(ops)
    ensures Tree(Run(ops))
    ensures forall parent, name :: Step(Run(ops), Lookup(parent, name)).1 != Fault
  {
    if ops != [] {
      var n := |ops| - 1;
      RunIsTree(ops[..n]);
      StepKeepsTreeIff(Run(ops[..n]), ops[n]);
    }
  }

  lemma RunMore(ops: seq<Op>, op: Op)
    ensures Run(ops + [op]) == Step(Run(ops), op).0
    ensures AllAllowed(ops) && Allowed(Run(ops), op) ==> AllAllowed(ops + [op])
  {
  }
}
