/** The two watchers as objects: the table of the transport library, and the flat map it replaces. */
module Watchers {
  import opened Registries
  import opened WatchTables
  import opened Dispatching

  /** The entry of `fd` that the registry calls for. */
  ghost function EntryOf(reg: Registry, fd: nat): WatchEntry {
    WatchEntry(Lookup(reg, (fd, RDONLY)), Lookup(reg, (fd, WRONLY)), MaskOf(reg, fd))
  }

  lemma EntryWatched(reg: Registry, fd: nat, flag: Flag, callback: Callback)
    ensures var e := EntryOf(reg, fd);
            EntryOf(Apply(reg, Watch(fd, flag, callback)), fd) ==
            e.With(flag, Some(callback)).(mask := e.mask | flag.Bit())
  {
  }

  lemma EntryUnwatched(reg: Registry, fd: nat, flag: Flag)
    ensures var e := EntryOf(reg, fd);
            EntryOf(Apply(reg, Unwatch(fd, flag)), fd) == e.With(flag, None).(mask := e.mask & !flag.Bit())
  {
  }

  lemma EntryEmpty(reg: Registry, fd: nat)
    ensures EntryOf(reg, fd).mask == 0 ==> EntryOf(reg, fd) == FRESH
  {
  }

  lemma EntryElsewhere(reg: Registry, op: Op, fd: nat)
    requires fd != op.fd
    ensures EntryOf(Apply(reg, op), fd) == EntryOf(reg, fd)
  {
  }

  class EventWatcher {
    const table: FdWatchMap
    const eventFd: nat
    var kernel: Kernel
    /** What is registered, as one map; the table stores it entry by entry. */
    ghost var reg: Registry

    /** Each mask bit is set exactly when its slot is engaged, and the slots are what is registered. */
    ghost predicate TableValid()
      reads this, table
    {
      && (forall k <- reg :: k.0 >= 0)
      && forall fd: nat :: table.Entry(fd) == EntryOf(reg, fd)
    }

    /** Table, kernel and registry agree, and the kernel has accepted every call so far. */
    ghost predicate Valid()
      reads this, table
    {
      TableValid() && Synced(reg, kernel) && kernel.AllAccepted()
    }

    constructor (eventFd: nat, wake: Callback)
      ensures Valid() && reg == map[(eventFd, RDONLY) := wake] && this.eventFd == eventFd
    {
      this.eventFd := eventFd;
      table := new FdWatchMap();
      kernel, reg := Kernel(map[], []), map[];
      new;
      HandleWatch(eventFd, RDONLY, wake);
    }

    method HandleWatch(fd: nat, flag: Flag, callback: Callback)
      requires TableValid()
      modifies this`kernel, this`reg, table
      ensures TableValid() && reg == Apply(old(reg), Watch(fd, flag, callback))
      ensures kernel == TableWatch(old(reg), old(kernel), fd, flag)
      ensures old(Valid()) ==> Valid()
    {
      if Synced(reg, kernel) {
        WatchSynced(reg, kernel, fd, flag, callback);
      }
      EntryEmpty(reg, fd);
      EntryWatched(reg, fd, flag, callback);
      var entry, _ := table.TryEmplace(fd);
      var op := if entry.mask == 0 then ADD else MOD;
      var was := entry.Slot(flag);
      entry := entry.With(flag, Some(callback)).(mask := entry.mask | flag.Bit());
      table.Store(fd, entry);
      if was.None? {
        kernel := kernel.Ctl(op, fd, entry.mask);
      }
      ghost var was' := reg;
      reg := reg[(fd, flag) := callback];
      forall f: nat
        ensures table.Entry(f) == EntryOf(reg, f)
      {
        if f != fd {
          EntryElsewhere(was', Watch(fd, flag, callback), f);
        }
      }
    }

    method HandleUnwatch(fd: nat, flag: Flag)
      requires TableValid()
      modifies this`kernel, this`reg, table
      ensures TableValid() && reg == Apply(old(reg), Unwatch(fd, flag))
      ensures kernel == TableUnwatch(old(reg), old(kernel), fd, flag)
      ensures old(Valid()) ==> Valid()
    {
      if Synced(reg, kernel) {
        UnwatchSynced(reg, kernel, fd, flag);
      }
      EntryEmpty(reg, fd);
      EntryUnwatched(reg, fd, flag);
      var entry, _ := table.TryEmplace(fd);
      var was := entry.Slot(flag);
      entry := entry.With(flag, None).(mask := entry.mask & !flag.Bit());
      var op := if entry.mask == 0 then DEL else MOD;
      table.Store(fd, entry);
      if was.Some? {
        kernel := kernel.Ctl(op, fd, entry.mask);
      }
      ghost var was' := reg;
      reg := reg - {(fd, flag)};
      forall f: nat
        ensures table.Entry(f) == EntryOf(reg, f)
      {
        if f != fd {
          EntryElsewhere(was', Unwatch(fd, flag), f);
        }
      }
    }

    /** `watch` or `unwatch` called on the loop's thread, where it runs at once. */
    method Perform(op: Op)
      requires TableValid()
      modifies this`kernel, this`reg, table
      ensures TableValid() && reg == Apply(old(reg), op)
      ensures old(Valid()) ==> Valid()
    {
      if op.fd < 0 {
        return;
      }
      match op
      case Watch(fd, flag, callback) => HandleWatch(fd, flag, callback);
      case Unwatch(fd, flag) => HandleUnwatch(fd, flag);
    }

    method PerformAll(ops: seq<Op>)
      requires TableValid()
      modifies this`kernel, this`reg, table
      ensures TableValid() && reg == ApplyAll(old(reg), ops)
      ensures old(Valid()) ==> Valid()
    {
      var rest := ops;
      while rest != []
        invariant TableValid() && ApplyAll(reg, rest) == ApplyAll(old(reg), ops)
        invariant old(Valid()) ==> Valid()
        decreases |rest|
      {
        Perform(rest[0]);
        rest := rest[1..];
      }
    }

    /** Runs the callback of a slot, which makes the next calls of the script. */
    method Invoke(fd: nat, flag: Flag, script: seq<seq<Op>>) returns (acts: seq<Act>, rest: seq<seq<Op>>)
      requires TableValid() && (fd, flag) in reg
      modifies this`kernel, this`reg, table
      ensures TableValid() && Turn(reg, acts, rest) == Fire(old(reg), fd, flag, script)
      ensures old(Valid()) ==> Valid()
    {
      var slot := table.Entry(fd).Slot(flag);
      acts := [Act.Invoke(fd, flag, slot.value)] + Changes(Next(script));
      PerformAll(Next(script));
      rest := if script == [] then [] else script[1..];
    }

    /** One event: each slot is read again after the callback before it. */
    method LoopOne(e: Ready, script: seq<seq<Op>>) returns (acts: seq<Act>, rest: seq<seq<Op>>)
      requires TableValid()
      modifies this`kernel, this`reg, table
      ensures TableValid() && Turn(reg, acts, rest) == DispatchOne(old(reg), e, script)
      ensures old(Valid()) ==> Valid()
    {
      acts, rest := [], script;
      var entry, _ := table.TryEmplace(e.fd);
      if (e.broken || e.readable) && entry.mask & RDONLY.Bit() != 0 {
        acts, rest := Invoke(e.fd, RDONLY, rest);
      }
      entry := table.Entry(e.fd);
      if (e.broken || e.writable) && entry.mask & WRONLY.Bit() != 0 {
        var more;
        more, rest := Invoke(e.fd, WRONLY, rest);
        acts := acts + more;
      }
    }

    /** One turn of the loop over the ready events. */
    method Loop(events: seq<Ready>, script: seq<seq<Op>>) returns (acts: seq<Act>, rest: seq<seq<Op>>)
      requires TableValid()
      modifies this`kernel, this`reg, table
      ensures TableValid() && Turn(reg, acts, rest) == Dispatch(old(reg), events, script)
      ensures old(Valid()) ==> Valid()
    {
      acts, rest := [], script;
      var left := events;
      while left != []
        invariant TableValid() && (old(Valid()) ==> Valid())
        invariant var t := Dispatch(reg, left, rest);
                  Dispatch(old(reg), events, script) == Turn(t.reg, acts + t.acts, t.script)
        decreases |left|
      {
        ghost var before := acts;
        var more;
        more, rest := LoopOne(left[0], rest);
        acts, left := acts + more, left[1..];
        assert before + (more + Dispatch(reg, left, rest).acts) == acts + Dispatch(reg, left, rest).acts;
      }
    }

    /** Takes every watched fd out of the kernel, the eventfd too, but leaves the table as it is. */
    method UnwatchAll()
      requires Valid()
      modifies this`kernel
      ensures TableValid() && kernel.interest == map[] && kernel.AllAccepted()
      ensures Synced(reg, kernel) <==> reg == map[]
      ensures (eventFd, RDONLY) in reg ==>
                eventFd in old(kernel.interest) && eventFd !in kernel.interest && !Synced(reg, kernel)
    {
      assert forall fd: int :: Agrees(reg, kernel, fd) ==> (fd in kernel.interest <==> MaskOf(reg, fd) != 0);
      assert Agrees(reg, kernel, eventFd);
      assert forall fd: int | fd < 0 :: MaskOf(reg, fd) == 0;
      var fds := table.ForEach();
      while fds != []
        invariant forall fd: int :: fd in kernel.interest <==> fd >= 0 && fd in fds
        invariant forall i, j :: 0 <= i < j < |fds| ==> fds[i] != fds[j]
        invariant kernel.AllAccepted()
        decreases |fds|
      {
        kernel := kernel.Ctl(DEL, fds[0], 0);
        fds := fds[1..];
      }
      assert forall fd: int :: fd !in kernel.interest;
      assert kernel.interest == map[];
      SyncedEmpty(reg, kernel);
    }
  }

  /** A new watcher that has unwatched all: its eventfd is registered, and out of the kernel. */
  method UnwatchNew(eventFd: nat, wake: Callback) returns (w: EventWatcher)
    ensures w.TableValid() && w.eventFd == eventFd && w.reg == map[(eventFd, RDONLY) := wake]
    ensures w.kernel.interest == map[] && !Synced(w.reg, w.kernel)
  {
    w := new EventWatcher(eventFd, wake);
    w.UnwatchAll();
  }

  /** The flat watcher: one map from (fd, flag) to callback, and a wakeup pipe only the kernel knows of. */
  class FlatWatcher {
    const wakeFd: nat
    var callbacks: Registry
    var kernel: Kernel

    /** The callbacks, with the pipe as if it were registered for reading. */
    ghost function WithPipe(): Registry
      reads this
    {
      callbacks[(wakeFd, RDONLY) := 0]
    }

    ghost predicate Valid()
      reads this
    {
      (forall key <- callbacks :: key.0 != wakeFd) && Synced(WithPipe(), kernel)
    }

    constructor (wakeFd: nat)
      ensures Valid() && callbacks == map[] && this.wakeFd == wakeFd
    {
      this.wakeFd := wakeFd;
      callbacks, kernel := map[], Kernel(map[], []).Ctl(ADD, wakeFd, RDONLY.Bit());
    }

    method Watch(fd: nat, flag: Flag, callback: Callback)
      requires Valid() && fd != wakeFd
      modifies this
      ensures Valid() && callbacks == Apply(old(callbacks), Op.Watch(fd, flag, callback))
      ensures kernel == FlatWatch(old(callbacks), old(kernel), fd, flag)
    {
      WatchSynced(WithPipe(), kernel, fd, flag, callback);
      var inserted := (fd, flag) !in callbacks;
      callbacks := callbacks[(fd, flag) := callback];
      assert Apply(old(WithPipe()), Op.Watch(fd, flag, callback)) == WithPipe();
      if !inserted {
        return;
      }
      var inEpoll, events := false, flag.Bit();
      if (fd, flag.Other()) in callbacks {
        inEpoll, events := true, events | flag.Other().Bit();
      }
      kernel := kernel.Ctl(if inEpoll then MOD else ADD, fd, events);
    }

    method Unwatch(fd: nat, flag: Flag)
      requires Valid() && fd != wakeFd
      modifies this
      ensures Valid() && callbacks == Apply(old(callbacks), Op.Unwatch(fd, flag))
      ensures kernel == FlatUnwatch(old(callbacks), old(kernel), fd, flag)
    {
      UnwatchSynced(WithPipe(), kernel, fd, flag);
      callbacks := callbacks - {(fd, flag)};
      assert Apply(old(WithPipe()), Op.Unwatch(fd, flag)) == WithPipe();
      var inEpoll, events := false, 0;
      if (fd, flag.Other()) in callbacks {
        inEpoll, events := true, flag.Other().Bit();
      }
      kernel := kernel.Ctl(if inEpoll then MOD else DEL, fd, events);
    }
  }

  /** An fd a user of both watchers may pass: neither watcher's own wakeup fd. */
  ghost predicate UserFd(t: EventWatcher, f: FlatWatcher, fd: int) {
    fd >= 0 && fd != t.eventFd && fd != f.wakeFd
  }

  /** Both register the same callbacks for user fds. */
  ghost predicate SameCallbacks(t: EventWatcher, f: FlatWatcher)
    reads t, f
  {
    forall fd: int, flag: Flag | UserFd(t, f, fd) :: Lookup(t.reg, (fd, flag)) == Lookup(f.callbacks, (fd, flag))
  }

  /** The kernel watches the same user fds, each for the same events. */
  ghost predicate SameInterest(t: EventWatcher, f: FlatWatcher)
    reads t, f
  {
    forall fd: int | UserFd(t, f, fd) ::
      && (fd in t.kernel.interest <==> fd in f.kernel.interest)
      && (fd in t.kernel.interest ==> t.kernel.interest[fd] == f.kernel.interest[fd])
  }

  lemma SameCallbacksSameInterest(t: EventWatcher, f: FlatWatcher)
    requires t.Valid() && f.Valid() && SameCallbacks(t, f)
    ensures SameInterest(t, f)
  {
    forall fd: int | UserFd(t, f, fd)
      ensures && (fd in t.kernel.interest <==> fd in f.kernel.interest)
              && (fd in t.kernel.interest ==> t.kernel.interest[fd] == f.kernel.interest[fd])
    {
      assert Agrees(t.reg, t.kernel, fd) && Agrees(f.WithPipe(), f.kernel, fd);
      assert Lookup(t.reg, (fd, RDONLY)) == Lookup(f.callbacks, (fd, RDONLY));
      assert Lookup(t.reg, (fd, WRONLY)) == Lookup(f.callbacks, (fd, WRONLY));
    }
  }

  /**
   * The table refines the flat map: driven by the same calls, they always register the same callbacks and leave the
   * same kernel interest on user fds, though the kernel calls they make differ.
   */
  method RunBoth(t: EventWatcher, f: FlatWatcher, ops: seq<Op>)
    requires t.Valid() && f.Valid() && SameCallbacks(t, f)
    requires forall op <- ops :: UserFd(t, f, op.fd)
    modifies t`kernel, t`reg, t.table, f
    ensures t.Valid() && f.Valid()
    ensures t.reg == ApplyAll(old(t.reg), ops) && f.callbacks == ApplyAll(old(f.callbacks), ops)
    ensures SameCallbacks(t, f) && SameInterest(t, f)
  {
    var rest := ops;
    while rest != []
      invariant t.Valid() && f.Valid() && SameCallbacks(t, f)
      invariant forall op <- rest :: UserFd(t, f, op.fd)
      invariant ApplyAll(t.reg, rest) == ApplyAll(old(t.reg), ops)
      invariant ApplyAll(f.callbacks, rest) == ApplyAll(old(f.callbacks), ops)
      decreases |rest|
    {
      var op := rest[0];
      t.Perform(op);
      match op {
        case Watch(fd, flag, callback) => f.Watch(fd, flag, callback);
        case Unwatch(fd, flag) => f.Unwatch(fd, flag);
      }
      rest := rest[1..];
    }
    SameCallbacksSameInterest(t, f);
  }
}
