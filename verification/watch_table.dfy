/** The watcher of the transport library: a two-level table of entries kept in step with the kernel. */
module WatchTables {
  import opened Registries

  datatype WatchEntry = WatchEntry(reader: Option<Callback>, writer: Option<Callback>, mask: bv8) {

    function Slot(flag: Flag): Option<Callback> {
      if flag.RDONLY? then reader else writer
    }

    function With(flag: Flag, cb: Option<Callback>): WatchEntry {
      if flag.RDONLY? then this.(reader := cb) else this.(writer := cb)
    }
  }

  const FRESH := WatchEntry(None, None, 0)

  const BLOCK_SIZE: nat := 64

  type Block = b: seq<WatchEntry> | |b| == BLOCK_SIZE witness seq(BLOCK_SIZE, _ => FRESH)

  /** The sparse two-level map: blocks of 64 entries, each fd at `fd / 64`, `fd % 64`. */
  class FdWatchMap {
    var block: map<nat, Block>

    constructor ()
      ensures forall fd: nat :: Entry(fd) == FRESH
    {
      block := map[];
    }

    /** The map read as one function from fds to entries. */
    function Entry(fd: nat): WatchEntry
      reads this
    {
      if fd / BLOCK_SIZE in block then block[fd / BLOCK_SIZE][fd % BLOCK_SIZE] else FRESH
    }

    method Store(fd: nat, entry: WatchEntry)
      requires fd / BLOCK_SIZE in block
      modifies this
      ensures Entry(fd) == entry && block.Keys == old(block.Keys)
      ensures forall f: nat :: f != fd ==> Entry(f) == old(Entry(f))
    {
      var b, offset := fd / BLOCK_SIZE, fd % BLOCK_SIZE;
      block := block[b := block[b][offset := entry]];
    }

    /** An entry with an empty mask is replaced by a new one; any other is kept. */
    method TryEmplace(fd: nat) returns (entry: WatchEntry, inserted: bool)
      modifies this
      ensures fd / BLOCK_SIZE in block && entry == Entry(fd)
      ensures inserted == (old(Entry(fd)).mask == 0)
      ensures entry == if inserted then FRESH else old(Entry(fd))
      ensures forall f: nat :: f != fd ==> Entry(f) == old(Entry(f))
    {
      var b := fd / BLOCK_SIZE;
      if b !in block {
        block := block[b := seq(BLOCK_SIZE, _ => FRESH)];
      }
      assert forall f: nat :: Entry(f) == old(Entry(f));
      inserted := Entry(fd).mask == 0;
      if inserted {
        Store(fd, FRESH);
      }
      entry := Entry(fd);
    }

    /** The fds of `visited` lie in blocks of `done`, and are all those there with a non-empty mask. */
    ghost predicate Covers(visited: seq<nat>, done: set<nat>)
      reads this
    {
      forall fd: nat :: fd in visited <==> fd / BLOCK_SIZE in done && Entry(fd).mask != 0
    }

    /** Visits every fd with a non-empty mask exactly once, and no other, in some order of the blocks. */
    method ForEach() returns (visited: seq<nat>)
      ensures forall fd: nat :: fd in visited <==> Entry(fd).mask != 0
      ensures forall i, j :: 0 <= i < j < |visited| ==> visited[i] != visited[j]
    {
      visited := [];
      var todo := block.Keys;
      while todo != {}
        invariant todo <= block.Keys
        invariant Covers(visited, block.Keys - todo)
        invariant forall i, j :: 0 <= i < j < |visited| ==> visited[i] != visited[j]
        decreases |todo|
      {
        var b :| b in todo;
        ghost var done := block.Keys - todo;
        for offset := 0 to BLOCK_SIZE
          invariant forall fd: nat :: fd in visited <==>
                      && (fd / BLOCK_SIZE in done || (fd / BLOCK_SIZE == b && fd % BLOCK_SIZE < offset))
                      && Entry(fd).mask != 0
          invariant forall i, j :: 0 <= i < j < |visited| ==> visited[i] != visited[j]
        {
          var fd := b * BLOCK_SIZE + offset;
          assert fd / BLOCK_SIZE == b && fd % BLOCK_SIZE == offset;
          assert fd !in visited;
          if block[b][offset].mask != 0 {
            visited := visited + [fd];
          }
        }
        todo := todo - {b};
      }
    }
  }
}
