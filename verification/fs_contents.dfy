/** What a file holds after a run: at each offset the byte of the latest write there that no truncation has cut. */
module FsContents {
  import opened Bytes
  import opened FsSpec
  import opened FsTree

  /** A change of one file: a write, or a new length. */
  datatype Edit = Wrote(off: nat, buf: seq<Byte>) | Resized(size: nat)

  // ---------- the history of a file, read without replaying it ----------

  function Length(edits: seq<Edit>): nat {
    if edits == [] then 0
    else
      var before := Length(edits[..|edits| - 1]);
      match edits[|edits| - 1]
      case Wrote(off, buf) => if off + |buf| > before then off + |buf| else before
      case Resized(size) => size
  }

  /** The latest write covering `i`, unless the file was cut to `i` or below since; 0 where there is none. */
  function ByteAt(edits: seq<Edit>, i: nat): Byte {
    if edits == [] then 0
    else
      match edits[|edits| - 1]
      case Wrote(off, buf) => if off <= i < off + |buf| then buf[i - off] else ByteAt(edits[..|edits| - 1], i)
      case Resized(size) => if i >= size then 0 else ByteAt(edits[..|edits| - 1], i)
  }

  // ---------- the same, as the server computes it ----------

  function Replay(edits: seq<Edit>): seq<Byte> {
    if edits == [] then []
    else
      var before := Replay(edits[..|edits| - 1]);
      match edits[|edits| - 1]
      case Wrote(off, buf) => Put(before, off, buf)
      case Resized(size) => Resize(before, size)
  }

  lemma {:induction false} ReplayLength(edits: seq<Edit>)
    ensures |Replay(edits)| == Length(edits)
  {
    if edits != [] {
      ReplayLength(edits[..|edits| - 1]);
    }
  }

  lemma PutByte(data: seq<Byte>, off: nat, buf: seq<Byte>, i: nat)
    ensures var r := Put(data, off, buf);
            i < |r| ==> r[i] == if off <= i < off + |buf| then buf[i - off] else if i < |data| then data[i] else 0
  {
  }

  /** The server's bytes are those the history determines. */
  lemma {:induction false} ReplayByte(edits: seq<Edit>, i: nat)
    ensures ByteAt(edits, i) == if i < |Replay(edits)| then Replay(edits)[i] else 0
  {
    if edits != [] {
      var front, last := edits[..|edits| - 1], edits[|edits| - 1];
      ReplayByte(front, i);
      if last.Wrote? {
        PutByte(Replay(front), last.off, last.buf, i);
      }
    }
  }

  // ---------- whole runs ----------

  /** The change a request makes to a file, if it is carried out. */
  function EditOf(fs: FS, op: Op, ino: Ino): seq<Edit> {
    if !IsFile(fs, ino) then []
    else if op.Write? && op.ino == ino then [Wrote(op.off, op.buf)]
    else if op.SetAttr? && op.ino == ino && op.setSize && op.size >= 0 then [Resized(op.size)]
    else []
  }

  function Edits(ops: seq<Op>, ino: Ino): seq<Edit> {
    if ops == [] then []
    else Edits(ops[..|ops| - 1], ino) + EditOf(Run(ops[..|ops| - 1]), ops[|ops| - 1], ino)
  }

  /** A file holds its history; a number not yet given out has none. */
  ghost predicate HoldsHistory(fs: FS, ino: Ino, edits: seq<Edit>) {
    && (IsFile(fs, ino) ==> fs.nodes[ino].data == Replay(edits))
    && (ino % 2 == 0 && ino >= fs.nextFile ==> edits == [])
  }

  /** One request, seen from one file: its edit is applied to what it held, and a new file holds nothing. */
  lemma StepData(fs: FS, op: Op, ino: Ino)
    requires Numbered(fs) && IsFile(Step(fs, op).0, ino)
    ensures var t, es := Step(fs, op).0, EditOf(fs, op, ino);
            if !IsFile(fs, ino) then ino == fs.nextFile && t.nodes[ino].data == []
            else t.nodes[ino].data ==
                 if es == [] then fs.nodes[ino].data
                 else if es[0].Wrote? then Put(fs.nodes[ino].data, es[0].off, es[0].buf)
                 else Resize(fs.nodes[ino].data, es[0].size)
  {
  }

  lemma ReplayLast(edits: seq<Edit>, more: seq<Edit>)
    requires |more| <= 1
    ensures Replay(edits + more) ==
            if more == [] then Replay(edits)
            else if more[0].Wrote? then Put(Replay(edits), more[0].off, more[0].buf)
            else Resize(Replay(edits), more[0].size)
  {
    var all := edits + more;
    if more == [] {
      assert all == edits;
    } else {
      assert all[..|all| - 1] == edits;
    }
  }

  lemma NextFileGrows(fs: FS, op: Op)
    ensures Step(fs, op).0.nextFile >= fs.nextFile
  {
  }

  lemma StepHoldsHistory(fs: FS, op: Op, ino: Ino, edits: seq<Edit>)
    requires Numbered(fs) && HoldsHistory(fs, ino, edits)
    ensures HoldsHistory(Step(fs, op).0, ino, edits + EditOf(fs, op, ino))
  {
    ReplayLast(edits, EditOf(fs, op, ino));
    NextFileGrows(fs, op);
    if IsFile(Step(fs, op).0, ino) {
      StepData(fs, op, ino);
    }
  }

  lemma {:induction false} RunHoldsHistory(ops: seq<Op>, ino: Ino)
    requires AllAllowed(ops)
    ensures HoldsHistory(Run(ops), ino, Edits(ops, ino))
  {
    if ops != [] {
      var front := ops[..|ops| - 1];
      RunHoldsHistory(front, ino);
      RunIsTree(front);
      StepHoldsHistory(Run(front), ops[|ops| - 1], ino, Edits(front, ino));
    }
  }

  /** What a read replies with, from the history of the file. */
  ghost predicate ReadsAs(reply: Reply, edits: seq<Edit>, count: nat, off: nat) {
    && reply.Bytes?
    && |reply.data| == (if off >= Length(edits) then 0 else Min(count, Length(edits) - off))
    && forall k | 0 <= k < |reply.data| :: reply.data[k] == ByteAt(edits, off + k)
  }

  lemma ReadOne(fs: FS, ino: Ino, edits: seq<Edit>, count: nat, off: nat)
    requires IsFile(fs, ino) && HoldsHistory(fs, ino, edits)
    ensures ReadsAs(Step(fs, Read(ino, count, off)).1, edits, count, off)
  {
    ReplayLength(edits);
    forall i: nat | i < Length(edits)
      ensures fs.nodes[ino].data[i] == ByteAt(edits, i)
    {
      ReplayByte(edits, i);
    }
  }

  /**
   * File contents. After any run, a read of a file returns at each offset the byte its history of writes and
   * truncations determines, clipped at the current length; what happened to other files does not matter.
   */
  lemma ReadReturnsHistory(ops: seq<Op>, ino: Ino, count: nat, off: nat)
    requires AllAllowed(ops) && IsFile(Run(ops), ino)
    ensures ReadsAs(Step(Run(ops), Read(ino, count, off)).1, Edits(ops, ino), count, off)
  {
    RunHoldsHistory(ops, ino);
    ReadOne(Run(ops), ino, Edits(ops, ino), count, off);
  }
}
