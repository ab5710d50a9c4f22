/** The server as an object: a table of shared file nodes changed in place, proved against the file system on values. */
module FsServer {
  import opened Bytes
  import opened FsSpec
  import opened FsTree

  class FileNode {
    const isDir: bool
    const parent: Ino
    var data: seq<Byte>
    var children: map<Name, Ino>

    constructor (isDir: bool, parent: Ino)
      ensures View() == Node(isDir, parent, [], map[])
    {
      this.isDir, this.parent, data, children := isDir, parent, [], map[];
    }

    function View(): Node
      reads this
    {
      Node(isDir, parent, data, children)
    }
  }

  /** In a tree, a number found under a name is a node of that directory, and is under no other name there. */
  lemma OnlyName(fs: FS, parent: Ino, name: Name)
    requires Tree(fs) && IsDir(fs, parent) && name in fs.nodes[parent].children
    ensures var ino := fs.nodes[parent].children[name];
            && ino in fs.nodes && ino != parent && fs.nodes[ino].parent == parent
            && forall n | n in fs.nodes[parent].children && fs.nodes[parent].children[n] == ino :: n == name
  {
  }

  class Server {
    var inodes: map<Ino, FileNode>
    var nextFile: Ino
    var nextDir: Ino
    /** The requests served so far. */
    ghost var ops: seq<Op>

    /** The server has done what the requests served so far do to an empty file system. */
    ghost predicate Serving()
      reads this, inodes.Values
    {
      Valid() && AllAllowed(ops) && State() == Run(ops)
    }

    /** No node is under two numbers. */
    ghost predicate Valid()
      reads this`inodes
    {
      forall i, j | i in inodes && j in inodes :: inodes[i] == inodes[j] ==> i == j
    }

    ghost function State(): FS
      reads this`inodes, this`nextFile, this`nextDir, inodes.Values
    {
      FS(map i | i in inodes :: inodes[i].View(), nextFile, nextDir)
    }

    constructor ()
      ensures Serving() && ops == [] && fresh(inodes.Values)
    {
      var root := new FileNode(true, ROOT);
      inodes, nextFile, nextDir, ops := map[ROOT := root], 2, 3, [];
    }

    /** Requests on a name in a directory. */
    method DispatchName(op: Op) returns (reply: Reply)
      requires op.Lookup? || op.Create? || op.Mkdir? || op.Unlink? || op.Rmdir?
      requires Valid() && Tree(State())
      modifies this`inodes, this`nextFile, this`nextDir, inodes.Values
      ensures Valid() && (State(), reply) == Step(old(State()), op)
      ensures fresh(inodes.Values - old(inodes.Values))
    {
      match op {
        case Lookup(parent, name) => reply := Lookup(parent, name);
        case Create(parent, name) => reply := Create(parent, name, false);
        case Mkdir(parent, name) => reply := Create(parent, name, true);
        case Unlink(parent, name) => reply := Unlink(parent, name);
        case Rmdir(parent, name) => reply := Rmdir(parent, name);
      }
    }

    /** Requests on a node. */
    method DispatchNode(op: Op) returns (reply: Reply)
      requires !(op.Lookup? || op.Create? || op.Mkdir? || op.Unlink? || op.Rmdir?)
      requires Valid()
      modifies inodes.Values
      ensures (State(), reply) == Step(old(State()), op)
    {
      match op {
        case Open(ino) => reply := Open(ino);
        case GetAttr(ino) => reply := GetAttr(ino);
        case Read(ino, count, off) => reply := Read(ino, count, off);
        case Write(ino, buf, off) => reply := Write(ino, buf, off);
        case SetAttr(ino, setSize, size) => reply := SetAttr(ino, setSize, size);
      }
    }

    /** Any request the kernel may send: all that is proved of runs holds of the server. */
    method Serve(op: Op) returns (reply: Reply)
      requires Serving() && Allowed(State(), op)
      modifies this, inodes.Values
      ensures Serving() && ops == old(ops) + [op] && reply == Step(old(State()), op).1
      ensures fresh(inodes.Values - old(inodes.Values))
    {
      RunIsTree(ops);
      RunMore(ops, op);
      if op.Lookup? || op.Create? || op.Mkdir? || op.Unlink? || op.Rmdir? {
        reply := DispatchName(op);
      } else {
        reply := DispatchNode(op);
      }
      ops := ops + [op];
    }

    method NewNode(ino: Ino, parent: Ino, isDir: bool)
      requires Valid() && ino !in inodes
      modifies this`inodes
      ensures Valid() && inodes.Keys == old(inodes.Keys) + {ino} && fresh(inodes.Values - old(inodes.Values))
      ensures inodes[ino].View() == Node(isDir, parent, [], map[])
      ensures forall i <- old(inodes) :: inodes[i] == old(inodes)[i]
    {
      var node := new FileNode(isDir, parent);
      inodes := inodes[ino := node];
    }

    method AddNode(ino: Ino, parent: Ino, isDir: bool)
      requires Valid() && ino !in inodes
      modifies this`inodes
      ensures Valid() && inodes.Keys == old(inodes.Keys) + {ino} && fresh(inodes.Values - old(inodes.Values))
      ensures forall i <- old(inodes) :: inodes[i] == old(inodes)[i]
      ensures State().nodes == old(State()).nodes[ino := Node(isDir, parent, [], map[])]
    {
      ghost var after := State().nodes[ino := Node(isDir, parent, [], map[])];
      NewNode(ino, parent, isDir);
      forall i | i in inodes
        ensures i in after && inodes[i].View() == after[i]
      {
      }
      assert State().nodes.Keys == after.Keys;
    }

    method AddName(parent: Ino, name: Name, ino: Ino)
      requires Valid() && parent in inodes
      modifies inodes[parent]
      ensures var nodes := old(State()).nodes;
              State().nodes == nodes[parent := nodes[parent].(children := nodes[parent].children[name := ino])]
    {
      var p := inodes[parent];
      p.children := p.children[name := ino];
    }

    method AllocateInode(parent: Ino, isDir: bool, name: Name) returns (ino: Ino)
      requires Valid() && parent in inodes && inodes[parent].isDir && Fresh(State(), isDir) !in inodes
      modifies this`inodes, this`nextFile, this`nextDir, inodes[parent]
      ensures Valid() && State() == Allocate(old(State()), parent, isDir, name) && ino == Fresh(old(State()), isDir)
      ensures fresh(inodes.Values - old(inodes.Values))
    {
      if isDir {
        ino := nextDir;
        nextDir := nextDir + 2;
      } else {
        ino := nextFile;
        nextFile := nextFile + 2;
      }
      assert State().nodes == old(State()).nodes;
      AddNode(ino, parent, isDir);
      assert inodes[parent] == old(inodes)[parent];
      AddName(parent, name, ino);
    }

    method Create(parent: Ino, name: Name, isDir: bool) returns (reply: Reply)
      requires Valid() && Tree(State())
      modifies this`inodes, this`nextFile, this`nextDir, inodes.Values
      ensures Valid() && (State(), reply) == Make(old(State()), parent, name, isDir)
      ensures fresh(inodes.Values - old(inodes.Values))
    {
      if parent !in inodes || !inodes[parent].isDir {
        return Err(ENOTDIR);
      }
      if name in inodes[parent].children {
        return Err(EEXIST);
      }
      FreshIsNew(State(), isDir);
      var ino := AllocateInode(parent, isDir, name);
      return Entry(ino, isDir, if isDir then 2 else 1, 0);
    }

    method Lookup(parent: Ino, name: Name) returns (reply: Reply)
      requires Valid() && Tree(State())
      ensures (State(), reply) == Step(State(), Op.Lookup(parent, name))
      ensures reply != Fault
    {
      if parent !in inodes || !inodes[parent].isDir {
        return Err(ENOTDIR);
      }
      if name !in inodes[parent].children {
        return Err(ENOENT);
      }
      var ino := inodes[parent].children[name];
      assert State().nodes[parent].children[name] == ino;
      var child := inodes[ino];
      return Entry(ino, child.isDir, if child.isDir then 2 + |child.children| else 1, |child.data|);
    }

    method Unlink(parent: Ino, name: Name) returns (reply: Reply)
      requires Valid()
      modifies this`inodes, inodes.Values
      ensures Valid() && (State(), reply) == Step(old(State()), Op.Unlink(parent, name))
      ensures inodes.Values <= old(inodes.Values)
    {
      if parent !in inodes || !inodes[parent].isDir {
        return Err(ENOTDIR);
      }
      var node := inodes[parent];
      if name !in node.children {
        return Err(ENOENT);
      }
      ghost var was := State();
      inodes := inodes - {node.children[name]};
      node.children := node.children - {name};
      assert State().nodes == Remove(was, parent, name).nodes;
      return Done;
    }

    /** Erases the first entry found, in no particular order, that leads to `ino`. */
    method EraseByValue(node: FileNode, ino: Ino, ghost name: Name)
      requires name in node.children && node.children[name] == ino
      requires forall n | n in node.children && node.children[n] == ino :: n == name
      modifies node`children
      ensures node.children == old(node.children) - {name}
    {
      var left := node.children.Keys;
      while left != {}
        invariant left <= node.children.Keys && name in left && node.children == old(node.children)
        decreases |left|
      {
        var n :| n in left;
        if node.children[n] == ino {
          node.children := node.children - {n};
          return;
        }
        left := left - {n};
      }
    }

    /** Takes a node out of the table and out of its parent, where its name is searched by value. */
    method ForgetInode(ino: Ino, ghost parent: Ino, ghost name: Name)
      requires Valid() && ino in inodes && parent in inodes && ino != parent && parent != 0
      requires inodes[ino].parent == parent && inodes[parent].isDir
      requires name in inodes[parent].children && inodes[parent].children[name] == ino
      requires forall n | n in inodes[parent].children && inodes[parent].children[n] == ino :: n == name
      modifies this`inodes, inodes[parent]
      ensures Valid() && State() == Remove(old(State()), parent, name)
      ensures inodes.Values <= old(inodes.Values)
    {
      if ino !in inodes {
        return;
      }
      ghost var was := State();
      var node := inodes[ino];
      if node.parent != 0 {
        if node.parent in inodes {
          EraseByValue(inodes[node.parent], ino, name);
        }
      }
      inodes := inodes - {ino};
      assert State().nodes == Remove(was, parent, name).nodes;
    }

    /** The name that was looked up is the one erased, though the erasing searches by number. */
    method Rmdir(parent: Ino, name: Name) returns (reply: Reply)
      requires Valid() && Tree(State())
      modifies this`inodes, inodes.Values
      ensures Valid() && (State(), reply) == Step(old(State()), Op.Rmdir(parent, name))
      ensures inodes.Values <= old(inodes.Values)
    {
      ghost var was := State();
      if parent !in inodes || !inodes[parent].isDir {
        assert !IsDir(was, parent);
        return Err(ENOTDIR);
      }
      assert was.nodes[parent].children == inodes[parent].children;
      if name !in inodes[parent].children {
        return Err(ENOENT);
      }
      var ino := inodes[parent].children[name];
      assert IsDir(was, ino) <==> ino in inodes && inodes[ino].isDir;
      if ino !in inodes || !inodes[ino].isDir {
        return Err(ENOTDIR);
      }
      assert was.nodes[ino].children == inodes[ino].children;
      if inodes[ino].children != map[] {
        return Err(ENOTEMPTY);
      }
      OnlyName(State(), parent, name);
      ForgetInode(ino, parent, name);
      return Done;
    }

    method Read(ino: Ino, count: nat, off: nat) returns (reply: Reply)
      requires Valid()
      ensures (State(), reply) == Step(State(), Op.Read(ino, count, off))
    {
      if ino !in inodes {
        return Err(ENOENT);
      }
      var node := inodes[ino];
      if node.isDir {
        return Err(EISDIR);
      }
      if off >= |node.data| {
        return Bytes([]);
      }
      var n := Min(count, |node.data| - off);
      return Bytes(node.data[off..off + n]);
    }

    method Write(ino: Ino, buf: seq<Byte>, off: nat) returns (reply: Reply)
      requires Valid()
      modifies inodes.Values
      ensures (State(), reply) == Step(old(State()), Op.Write(ino, buf, off))
    {
      if ino !in inodes {
        return Err(ENOENT);
      }
      var node := inodes[ino];
      if node.isDir {
        return Err(EISDIR);
      }
      var end := off + |buf|;
      if end > |node.data| {
        node.data := Resize(node.data, end);
      }
      node.data := node.data[..off] + buf + node.data[end..];
      assert node.data == Put(old(node.data), off, buf);
      assert State().nodes == WithData(old(State()), ino, node.data).nodes;
      return Count(|buf|);
    }

    method SetAttr(ino: Ino, setSize: bool, size: int) returns (reply: Reply)
      requires Valid()
      modifies inodes.Values
      ensures (State(), reply) == Step(old(State()), Op.SetAttr(ino, setSize, size))
    {
      if ino !in inodes {
        return Err(ENOENT);
      }
      var node := inodes[ino];
      if setSize {
        if node.isDir {
          return Err(EISDIR);
        }
        if size < 0 {
          return Err(EINVAL);
        }
        node.data := Resize(node.data, size);
        assert State().nodes == WithData(old(State()), ino, node.data).nodes;
      }
      return Entry(ino, node.isDir, if node.isDir then 2 + |node.children| else 1, |node.data|);
    }

    method Open(ino: Ino) returns (reply: Reply)
      requires Valid()
      ensures (State(), reply) == Step(State(), Op.Open(ino))
    {
      if ino !in inodes {
        return Err(ENOENT);
      }
      if inodes[ino].isDir {
        return Err(EISDIR);
      }
      return Done;
    }

    method GetAttr(ino: Ino) returns (reply: Reply)
      requires Valid()
      ensures (State(), reply) == Step(State(), Op.GetAttr(ino))
    {
      if ino !in inodes {
        return Err(ENOENT);
      }
      var node := inodes[ino];
      return Entry(ino, node.isDir, if node.isDir then 2 + |node.children| else 1, |node.data|);
    }
  }
}
