/** What a watcher registers, and the calls that keep the kernel's interest set in agreement with it. */
module Registries {

  datatype Option<+T> = None | Some(value: T)

  datatype Flag = RDONLY | WRONLY {

    /** `EPOLLIN` and `EPOLLOUT`. */
    function Bit(): bv8 {
      if RDONLY? then 1 else 4
    }

    function Other(): Flag {
      if RDONLY? then WRONLY else RDONLY
    }
  }

  /** Callbacks are known by their identity alone. */
  type Callback = nat

  type Key = (int, Flag)

  type Registry = map<Key, Callback>

  datatype Op = Watch(fd: int, flag: Flag, callback: Callback) | Unwatch(fd: int, flag: Flag) {
    function Key(): Key {
      (fd, flag)
    }
  }

  /** A call on a negative fd is refused. */
  function Apply(reg: Registry, op: Op): Registry {
    if op.fd < 0 then reg
    else match op
    case Watch(fd, flag, cb) => reg[(fd, flag) := cb]
    case Unwatch(fd, flag) => reg - {(fd, flag)}
  }

  function ApplyAll(reg: Registry, ops: seq<Op>): Registry
    decreases |ops|
  {
    if ops == [] then reg else ApplyAll(Apply(reg, ops[0]), ops[1..])
  }

  /** What is registered under a key; `None` if nothing is. */
  function Lookup(reg: Registry, key: Key): Option<Callback> {
    if key in reg then Some(reg[key]) else None
  }

  /** The last of `ops` on `key` decides; without one, what was there before. */
  function Latest(before: Option<Callback>, ops: seq<Op>, key: Key): Option<Callback>
    decreases |ops|
  {
    if ops == [] then before
    else
      var last := ops[|ops| - 1];
      if last.Key() != key then Latest(before, ops[..|ops| - 1], key)
      else if last.Watch? then Some(last.callback) else None
  }

  lemma {:induction false} ApplyAllAppend(reg: Registry, a: seq<Op>, b: seq<Op>)
    ensures ApplyAll(reg, a + b) == ApplyAll(ApplyAll(reg, a), b)
    decreases |a|
  {
    if a == [] {
      assert a + b == b;
    } else {
      assert (a + b)[0] == a[0] && (a + b)[1..] == a[1..] + b;
      ApplyAllAppend(Apply(reg, a[0]), a[1..], b);
    }
  }

  /** After any run of calls the registry holds, for each key, what the last call on it left; none on a negative fd do. */
  lemma {:induction false} LatestWins(reg: Registry, ops: seq<Op>, key: Key)
    ensures Lookup(ApplyAll(reg, ops), key) == if key.0 < 0 then Lookup(reg, key) else Latest(Lookup(reg, key), ops, key)
    decreases |ops|
  {
    if ops != [] {
      var front, last := ops[..|ops| - 1], ops[|ops| - 1];
      assert ops == front + [last];
      ApplyAllAppend(reg, front, [last]);
      assert [last][1..] == front[..0];
      LatestWins(reg, front, key);
    }
  }

  // ---------- the kernel ----------

  function Bits(read: bool, write: bool): bv8 {
    (if read then 1 else 0) | (if write then 4 else 0)
  }

  function MaskOf(reg: Registry, fd: int): bv8 {
    Bits((fd, RDONLY) in reg, (fd, WRONLY) in reg)
  }

  datatype CtlOp = ADD | MOD | DEL

  /** One `epoll_ctl` call and whether the kernel accepted it. */
  datatype Call = Call(op: CtlOp, fd: int, events: bv8, accepted: bool)

  datatype Kernel = Kernel(interest: map<int, bv8>, calls: seq<Call>) {

    /** `ADD` needs an absent fd, `MOD` and `DEL` a present one; a refused call changes nothing. */
    predicate Legal(op: CtlOp, fd: int) {
      op.ADD? <==> fd !in interest
    }

    function Ctl(op: CtlOp, fd: int, events: bv8): Kernel {
      var after :=
        if !Legal(op, fd) then interest
        else if op.DEL? then interest - {fd}
        else interest[fd := events];
      Kernel(after, calls + [Call(op, fd, events, Legal(op, fd))])
    }

    predicate AllAccepted() {
      forall c <- calls :: c.accepted
    }
  }

  // ---------- what each watcher asks of the kernel ----------

  /** The table watcher calls only when a slot becomes engaged or empty. */
  function TableWatch(reg: Registry, k: Kernel, fd: int, flag: Flag): Kernel {
    if (fd, flag) in reg then k
    else k.Ctl(if MaskOf(reg, fd) == 0 then ADD else MOD, fd, MaskOf(reg, fd) | flag.Bit())
  }

  function TableUnwatch(reg: Registry, k: Kernel, fd: int, flag: Flag): Kernel {
    if (fd, flag) !in reg then k
    else k.Ctl(if (fd, flag.Other()) in reg then MOD else DEL, fd, MaskOf(reg - {(fd, flag)}, fd))
  }

  /** The flat watcher calls on each new key, and on every unwatch, registered or not. */
  function FlatWatch(reg: Registry, k: Kernel, fd: int, flag: Flag): Kernel {
    if (fd, flag) in reg then k
    else if (fd, flag.Other()) in reg then k.Ctl(MOD, fd, flag.Bit() | flag.Other().Bit())
    else k.Ctl(ADD, fd, flag.Bit())
  }

  function FlatUnwatch(reg: Registry, k: Kernel, fd: int, flag: Flag): Kernel {
    if (fd, flag.Other()) in reg then k.Ctl(MOD, fd, flag.Other().Bit()) else k.Ctl(DEL, fd, 0)
  }

  /** The kernel watches on `fd` exactly what the registry says. */
  predicate Agrees(reg: Registry, k: Kernel, fd: int) {
    if MaskOf(reg, fd) == 0 then fd !in k.interest else fd in k.interest && k.interest[fd] == MaskOf(reg, fd)
  }

  ghost predicate Synced(reg: Registry, k: Kernel) {
    forall fd: int :: Agrees(reg, k, fd)
  }

  lemma MaskElsewhere(reg: Registry, op: Op, fd: int)
    requires fd != op.fd
    ensures MaskOf(Apply(reg, op), fd) == MaskOf(reg, fd)
  {
  }

  /** Both watchers' calls for a `watch` are accepted, and keep the kernel in agreement with the registry. */
  lemma WatchSynced(reg: Registry, k: Kernel, fd: int, flag: Flag, cb: Callback)
    requires fd >= 0 && Synced(reg, k)
    ensures var reg' := Apply(reg, Watch(fd, flag, cb));
            Synced(reg', TableWatch(reg, k, fd, flag)) && Synced(reg', FlatWatch(reg, k, fd, flag))
    ensures k.AllAccepted() ==> TableWatch(reg, k, fd, flag).AllAccepted() && FlatWatch(reg, k, fd, flag).AllAccepted()
  {
    var op := Watch(fd, flag, cb);
    assert Agrees(reg, k, fd);
    forall f: int
      ensures Agrees(Apply(reg, op), TableWatch(reg, k, fd, flag), f)
      ensures Agrees(Apply(reg, op), FlatWatch(reg, k, fd, flag), f)
    {
      assert Agrees(reg, k, f);
      if f != fd {
        MaskElsewhere(reg, op, f);
      }
    }
  }

  /**
   * The same for an `unwatch`, except that the flat watcher's call is refused, without effect, exactly when the fd
   * had no registration at all.
   */
  lemma UnwatchSynced(reg: Registry, k: Kernel, fd: int, flag: Flag)
    requires fd >= 0 && Synced(reg, k)
    ensures var reg' := Apply(reg, Unwatch(fd, flag));
            Synced(reg', TableUnwatch(reg, k, fd, flag)) && Synced(reg', FlatUnwatch(reg, k, fd, flag))
    ensures k.AllAccepted() ==> TableUnwatch(reg, k, fd, flag).AllAccepted()
    ensures k.AllAccepted() ==> (FlatUnwatch(reg, k, fd, flag).AllAccepted() <==> MaskOf(reg, fd) != 0)
  {
    var op := Unwatch(fd, flag);
    assert Agrees(reg, k, fd);
    var flat := FlatUnwatch(reg, k, fd, flag);
    assert flat.calls[|k.calls|] in flat.calls;
    forall f: int
      ensures Agrees(Apply(reg, op), TableUnwatch(reg, k, fd, flag), f)
      ensures Agrees(Apply(reg, op), FlatUnwatch(reg, k, fd, flag), f)
    {
      assert Agrees(reg, k, f);
      if f != fd {
        MaskElsewhere(reg, op, f);
      }
    }
  }

  /** A kernel that watches nothing agrees with the empty registry only. */
  lemma SyncedEmpty(reg: Registry, k: Kernel)
    requires k.interest == map[]
    ensures Synced(reg, k) <==> reg == map[]
  {
    if reg != map[] {
      var key :| key in reg;
      assert key.1 == RDONLY || key.1 == WRONLY;
      assert (key.0, key.1) in reg;
      assert !Agrees(reg, k, key.0);
    }
  }

  /**
   * After `unwatchAll` the kernel watches nothing but the table still holds its entries. A later `watch` reaches the
   * kernel exactly when its fd had no entry: otherwise it issues no call, or a `MOD` the kernel refuses.
   */
  lemma WatchAfterUnwatchAll(reg: Registry, k: Kernel, fd: int, flag: Flag)
    requires k.interest == map[]
    ensures fd in TableWatch(reg, k, fd, flag).interest <==> MaskOf(reg, fd) == 0
  {
  }

  /**
   * The table watcher asks the kernel exactly when a registration begins or ends, and once: a new callback for a key
   * that has one, or an unwatch of a key that has none, issues no call.
   */
  lemma CallsWhenChanged(reg: Registry, k: Kernel, fd: nat, flag: Flag, callback: Callback)
    requires Synced(reg, k)
    ensures var w, u := TableWatch(reg, k, fd, flag).calls, TableUnwatch(reg, k, fd, flag).calls;
            && (if Lookup(reg, (fd, flag)).Some? then w == k.calls
                else |w| == |k.calls| + 1 && w[..|k.calls|] == k.calls && w[|k.calls|].fd == fd && w[|k.calls|].accepted)
            && (if Lookup(reg, (fd, flag)).None? then u == k.calls
                else |u| == |k.calls| + 1 && u[..|k.calls|] == k.calls && u[|k.calls|].fd == fd && u[|k.calls|].accepted)
  {
    assert Agrees(reg, k, fd);
  }

  /** A flat watcher that unwatches an fd it does not watch, from agreement: the kernel refuses the call. */
  lemma FlatUnwatchIsRefused(fd: nat, flag: Flag)
    ensures var k := Kernel(map[], []);
            Synced(map[], k) && FlatUnwatch(map[], k, fd, flag).calls == [Call(DEL, fd, 0, false)]
  {
  }
}
