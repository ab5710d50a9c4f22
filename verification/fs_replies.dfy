/** What each request is answered, told by paths, by what the next request is answered, and by a file's history. */
module FsReplies {
  import opened FsSpec
  import opened FsTree
  import opened FsPaths
  import FsContents
  import opened Bytes

  /** Where the path of `dir`, followed by `name`, leads. */
  ghost function Below(fs: FS, dir: Ino, name: Name): Option<Ino>
    requires Tree(fs) && dir in fs.nodes
  {
    Resolve(fs, ROOT, PathOf(fs, dir) + [name])
  }

  lemma BelowIsChild(fs: FS, dir: Ino, name: Name)
    requires Tree(fs) && dir in fs.nodes
    ensures Below(fs, dir, name) == if HasChild(fs, dir, name) then Some(fs.nodes[dir].children[name]) else None
  {
    ResolvePathOf(fs, dir);
    ResolveLast(fs, ROOT, PathOf(fs, dir), name);
  }

  // ---------- attributes ----------

  /** What `getattr` says of a node; the other replies that describe a node are compared with it. */
  function Attr(fs: FS, ino: Ino): Reply {
    Step(fs, GetAttr(ino)).1
  }

  /**
   * Attributes are those of the node asked for: directories are the odd numbers, a file has one link, and a directory
   * two and one for each name by which a path leads on from it.
   */
  lemma AttrMeans(fs: FS, ino: Ino, names: set<Name>)
    requires Tree(fs)
    requires ino in fs.nodes ==> forall n :: n in names <==> Below(fs, ino, n).Some?
    ensures var r := Attr(fs, ino);
            if ino !in fs.nodes then r == Err(ENOENT)
            else
              && r.Entry? && r.ino == ino && r.isDir == (ino % 2 == 1)
              && r.links == (if r.isDir then 2 + |names| else 1) && r.size == |fs.nodes[ino].data|
  {
    if ino in fs.nodes && fs.nodes[ino].isDir {
      forall n: Name
        ensures n in names <==> n in fs.nodes[ino].children.Keys
      {
        BelowIsChild(fs, ino, n);
      }
      assert names == fs.nodes[ino].children.Keys;
    }
  }

  /** The size a file is reported with is what its writes and truncations make of it. */
  lemma SizeIsHistory(ops: seq<Op>, ino: Ino)
    requires AllAllowed(ops) && IsFile(Run(ops), ino)
    ensures var r := Attr(Run(ops), ino);
            r.Entry? && r.size == FsContents.Length(FsContents.Edits(ops, ino))
  {
    FsContents.RunHoldsHistory(ops, ino);
    FsContents.ReplayLength(FsContents.Edits(ops, ino));
  }

  // ---------- requests on a name ----------

  /** A lookup finds the node its path leads to, and describes it as `getattr` would; it fails exactly without one. */
  lemma LookupMeans(fs: FS, parent: Ino, name: Name)
    requires Tree(fs)
    ensures var r := Step(fs, Lookup(parent, name)).1;
            if !IsDir(fs, parent) then r == Err(ENOTDIR)
            else match Below(fs, parent, name)
                 case None => r == Err(ENOENT)
                 case Some(ino) => r.Entry? && r.ino == ino && r == Attr(fs, ino)
  {
    if IsDir(fs, parent) {
      BelowIsChild(fs, parent, name);
      if HasChild(fs, parent, name) {
        PathOfChild(fs, parent, name);
      }
    }
  }

  /** Creating answers with a node that was not there, as a lookup then finds it; it fails exactly if the name is taken. */
  lemma MakeMeans(fs: FS, parent: Ino, name: Name, isDir: bool)
    requires Tree(fs)
    ensures var (t, r) := Make(fs, parent, name, isDir);
            if !IsDir(fs, parent) then (t, r) == (fs, Err(ENOTDIR))
            else if Below(fs, parent, name).Some? then (t, r) == (fs, Err(EEXIST))
            else
              && r.Entry? && r.ino !in fs.nodes && r.isDir == isDir && r.size == 0
              && r == Attr(t, r.ino) == Step(t, Lookup(parent, name)).1
  {
    if IsDir(fs, parent) {
      BelowIsChild(fs, parent, name);
      FreshIsNew(fs, isDir);
    }
  }

  /** Unlinking succeeds exactly if the path leads somewhere, and then no more. */
  lemma UnlinkMeans(fs: FS, parent: Ino, name: Name)
    requires Tree(fs)
    ensures var (t, r) := Step(fs, Unlink(parent, name));
            if !IsDir(fs, parent) then (t, r) == (fs, Err(ENOTDIR))
            else if Below(fs, parent, name).None? then (t, r) == (fs, Err(ENOENT))
            else r == Done && Step(t, Lookup(parent, name)).1 == Err(ENOENT)
  {
    if IsDir(fs, parent) {
      BelowIsChild(fs, parent, name);
      if HasChild(fs, parent, name) {
        PathOfChild(fs, parent, name);
        assert fs.nodes[parent].children[name] != parent;
      }
    }
  }

  /** Removing a directory succeeds exactly if the path leads to one and no further. */
  lemma RmdirMeans(fs: FS, parent: Ino, name: Name)
    requires Tree(fs)
    ensures var (t, r) := Step(fs, Rmdir(parent, name));
            if !IsDir(fs, parent) then (t, r) == (fs, Err(ENOTDIR))
            else match Below(fs, parent, name)
                 case None => (t, r) == (fs, Err(ENOENT))
                 case Some(ino) =>
                   && ino in fs.nodes
                   && if ino % 2 == 0 then (t, r) == (fs, Err(ENOTDIR))
                      else if exists n :: Below(fs, ino, n).Some? then (t, r) == (fs, Err(ENOTEMPTY))
                      else r == Done && Step(t, Lookup(parent, name)).1 == Err(ENOENT)
  {
    if IsDir(fs, parent) {
      BelowIsChild(fs, parent, name);
      if HasChild(fs, parent, name) {
        PathOfChild(fs, parent, name);
        var child := fs.nodes[parent].children[name];
        if fs.nodes[child].isDir { EmptyIff(fs, child); }
      }
    }
  }

  lemma EmptyIff(fs: FS, ino: Ino)
    requires Tree(fs) && ino in fs.nodes && fs.nodes[ino].isDir
    ensures fs.nodes[ino].children != map[] <==> exists n :: Below(fs, ino, n).Some?
  {
    forall n: Name
      ensures Below(fs, ino, n).Some? <==> n in fs.nodes[ino].children
    {
      BelowIsChild(fs, ino, n);
    }
    if fs.nodes[ino].children != map[] {
      var n :| n in fs.nodes[ino].children;
      assert Below(fs, ino, n).Some?;
    }
  }

  /** How many files, or directories, a run has made. */
  function Made(ops: seq<Op>, isDir: bool): nat {
    if ops == [] then 0
    else
      var op, r := ops[|ops| - 1], Step(Run(ops[..|ops| - 1]), ops[|ops| - 1]).1;
      Made(ops[..|ops| - 1], isDir) + if (if isDir then op.Mkdir? else op.Create?) && r.Entry? then 1 else 0
  }

  lemma StepNumbers(fs: FS, op: Op)
    ensures var (t, r) := Step(fs, op);
            && t.nextFile == fs.nextFile + (if op.Create? && r.Entry? then 2 else 0)
            && t.nextDir == fs.nextDir + (if op.Mkdir? && r.Entry? then 2 else 0)
  {
  }

  /** Files are numbered 2, 4, 6 and so on, directories 3, 5, 7 and so on: none is skipped, none given out again. */
  lemma {:induction false} NumbersInOrder(ops: seq<Op>)
    ensures Run(ops).nextFile == 2 + 2 * Made(ops, false) && Run(ops).nextDir == 3 + 2 * Made(ops, true)
  {
    if ops != [] {
      NumbersInOrder(ops[..|ops| - 1]);
      StepNumbers(Run(ops[..|ops| - 1]), ops[|ops| - 1]);
    }
  }

  // ---------- requests on a node ----------

  /** Opening, reading and writing fail exactly without a node, or on a directory. */
  lemma FileErrors(fs: FS, op: Op)
    requires Tree(fs) && (op.Open? || op.Read? || op.Write?)
    ensures var (t, r) := Step(fs, op);
            if op.ino !in fs.nodes then (t, r) == (fs, Err(ENOENT))
            else if op.ino % 2 == 1 then (t, r) == (fs, Err(EISDIR))
            else if op.Open? then (t, r) == (fs, Done)
            else if op.Read? then t == fs && r.Bytes?
            else r == Count(|op.buf|)
  {
  }

  /** What was written is read back at its offset, and every byte of the reply's count is there. */
  lemma WriteThenRead(fs: FS, ino: Ino, buf: seq<Byte>, off: nat)
    requires IsFile(fs, ino)
    ensures var (t, r) := Step(fs, Write(ino, buf, off));
            r == Count(|buf|) && Step(t, Read(ino, |buf|, off)).1 == Reply.Bytes(buf)
  {
    var t := Step(fs, Write(ino, buf, off)).0;
    assert t.nodes[ino].data[off..off + |buf|] == buf;
  }

  /** Setting attributes answers as `getattr` then would, with the size set; a size fails on a directory or below 0. */
  lemma SetAttrMeans(fs: FS, ino: Ino, setSize: bool, size: int)
    requires Tree(fs)
    ensures var (t, r) := Step(fs, SetAttr(ino, setSize, size));
            if ino !in fs.nodes then (t, r) == (fs, Err(ENOENT))
            else if setSize && ino % 2 == 1 then (t, r) == (fs, Err(EISDIR))
            else if setSize && size < 0 then (t, r) == (fs, Err(EINVAL))
            else r.Entry? && r == Attr(t, ino) && if setSize then r.size == size else t == fs
  {
  }
}
