/** The in-memory file system on values: inode table, name entries and file bytes. */
module FsSpec {
  import opened Bytes

  type Ino = nat

  type Name = string

  const ROOT: Ino := 1

  datatype Node = Node(isDir: bool, parent: Ino, data: seq<Byte>, children: map<Name, Ino>)

  datatype FS = FS(nodes: map<Ino, Node>, nextFile: Ino, nextDir: Ino)

  const EMPTY := FS(map[ROOT := Node(true, ROOT, [], map[])], 2, 3)

  datatype Errno = ENOENT | EEXIST | ENOTDIR | EISDIR | EINVAL | ENOTEMPTY

  /**
   * What a request is replied with; `links` and `size` are those of `st_nlink` and `st_size`. `Fault` stands for the
   * null node a lookup would use if a name led nowhere.
   */
  datatype Reply =
    | Err(errno: Errno)
    | Entry(ino: Ino, isDir: bool, links: nat, size: nat)
    | Bytes(data: seq<Byte>)
    | Count(n: nat)
    | Done
    | Fault

  datatype Op =
    | Lookup(parent: Ino, name: Name)
    | Create(parent: Ino, name: Name)
    | Mkdir(parent: Ino, name: Name)
    | Unlink(parent: Ino, name: Name)
    | Rmdir(parent: Ino, name: Name)
    | Open(ino: Ino)
    | GetAttr(ino: Ino)
    | Read(ino: Ino, count: nat, off: nat)
    | Write(ino: Ino, buf: seq<Byte>, off: nat)
    | SetAttr(ino: Ino, setSize: bool, size: int)

  predicate IsDir(fs: FS, ino: Ino) {
    ino in fs.nodes && fs.nodes[ino].isDir
  }

  predicate IsFile(fs: FS, ino: Ino) {
    ino in fs.nodes && !fs.nodes[ino].isDir
  }

  predicate HasChild(fs: FS, parent: Ino, name: Name) {
    IsDir(fs, parent) && name in fs.nodes[parent].children
  }

  function Links(n: Node): nat {
    if n.isDir then 2 + |n.children| else 1
  }

  /** `st_nlink`, `st_size` and type of a node, as lookup, getattr and setattr report them. */
  function Report(ino: Ino, n: Node): Reply {
    Entry(ino, n.isDir, Links(n), |n.data|)
  }

  function Fresh(fs: FS, isDir: bool): Ino {
    if isDir then fs.nextDir else fs.nextFile
  }

  /** `allocateInode`: a fresh number, a new node, and its name in the parent. */
  function Allocate(fs: FS, parent: Ino, isDir: bool, name: Name): FS
    requires parent in fs.nodes
  {
    var ino := Fresh(fs, isDir);
    var nodes := fs.nodes[ino := Node(isDir, parent, [], map[])];
    var p := nodes[parent];
    FS(nodes[parent := p.(children := p.children[name := ino])],
       if isDir then fs.nextFile else fs.nextFile + 2, if isDir then fs.nextDir + 2 else fs.nextDir)
  }

  /** Takes a name out of a directory and its node out of the table. */
  function Remove(fs: FS, parent: Ino, name: Name): FS
    requires HasChild(fs, parent, name)
  {
    var nodes := fs.nodes - {fs.nodes[parent].children[name]};
    if parent !in nodes then fs.(nodes := nodes)
    else
      var p := nodes[parent];
      fs.(nodes := nodes[parent := p.(children := p.children - {name})])
  }

  /** `resize(n)`: cut, or fill up with zeros. */
  function Resize(data: seq<Byte>, n: nat): (r: seq<Byte>)
    ensures |r| == n
  {
    if n <= |data| then data[..n] else data + Zeros(n - |data|)
  }

  /** The file grows, with zeros, to hold the write; then the bytes are copied in. */
  function Put(data: seq<Byte>, off: nat, buf: seq<Byte>): seq<Byte> {
    var d := if off + |buf| > |data| then Resize(data, off + |buf|) else data;
    d[..off] + buf + d[off + |buf|..]
  }

  function WithData(fs: FS, ino: Ino, data: seq<Byte>): FS
    requires ino in fs.nodes
  {
    fs.(nodes := fs.nodes[ino := fs.nodes[ino].(data := data)])
  }

  function Make(fs: FS, parent: Ino, name: Name, isDir: bool): (FS, Reply) {
    if !IsDir(fs, parent) then (fs, Err(ENOTDIR))
    else if name in fs.nodes[parent].children then (fs, Err(EEXIST))
    else (Allocate(fs, parent, isDir, name), Entry(Fresh(fs, isDir), isDir, if isDir then 2 else 1, 0))
  }

  function Step(fs: FS, op: Op): (FS, Reply) {
    match op
    case Lookup(parent, name) =>
      if !IsDir(fs, parent) then (fs, Err(ENOTDIR))
      else if name !in fs.nodes[parent].children then (fs, Err(ENOENT))
      else
        var ino := fs.nodes[parent].children[name];
        if ino in fs.nodes then (fs, Report(ino, fs.nodes[ino])) else (fs, Fault)
    case Create(parent, name) => Make(fs, parent, name, false)
    case Mkdir(parent, name) => Make(fs, parent, name, true)
    case Unlink(parent, name) =>
      if !IsDir(fs, parent) then (fs, Err(ENOTDIR))
      else if name !in fs.nodes[parent].children then (fs, Err(ENOENT))
      else (Remove(fs, parent, name), Done)
    case Rmdir(parent, name) =>
      if !IsDir(fs, parent) then (fs, Err(ENOTDIR))
      else if name !in fs.nodes[parent].children then (fs, Err(ENOENT))
      else
        var ino := fs.nodes[parent].children[name];
        if !IsDir(fs, ino) then (fs, Err(ENOTDIR))
        else if fs.nodes[ino].children != map[] then (fs, Err(ENOTEMPTY))
        else (Remove(fs, parent, name), Done)
    case Open(ino) =>
      if ino !in fs.nodes then (fs, Err(ENOENT))
      else if fs.nodes[ino].isDir then (fs, Err(EISDIR)) else (fs, Done)
    case GetAttr(ino) =>
      if ino !in fs.nodes then (fs, Err(ENOENT)) else (fs, Report(ino, fs.nodes[ino]))
    case Read(ino, count, off) =>
      if ino !in fs.nodes then (fs, Err(ENOENT))
      else if fs.nodes[ino].isDir then (fs, Err(EISDIR))
      else
        var data := fs.nodes[ino].data;
        if off >= |data| then (fs, Bytes([])) else (fs, Bytes(data[off..off + Min(count, |data| - off)]))
    case Write(ino, buf, off) =>
      if ino !in fs.nodes then (fs, Err(ENOENT))
      else if fs.nodes[ino].isDir then (fs, Err(EISDIR))
      else (WithData(fs, ino, Put(fs.nodes[ino].data, off, buf)), Count(|buf|))
    case SetAttr(ino, setSize, size) =>
      if ino !in fs.nodes then (fs, Err(ENOENT))
      else if !setSize then (fs, Report(ino, fs.nodes[ino]))
      else if fs.nodes[ino].isDir then (fs, Err(EISDIR))
      else if size < 0 then (fs, Err(EINVAL))
      else
        var t := WithData(fs, ino, Resize(fs.nodes[ino].data, size));
        (t, Report(ino, t.nodes[ino]))
  }

  /** The file system after a run of requests on an empty one. */
  function Run(ops: seq<Op>): FS {
    if ops == [] then EMPTY else Step(Run(ops[..|ops| - 1]), ops[|ops| - 1]).0
  }
}
