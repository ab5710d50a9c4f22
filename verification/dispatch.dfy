/** One turn of the event loop over a batch of ready fds, while callbacks watch and unwatch as they please. */
module Dispatching {
  import opened Registries

  /** One `epoll_event`; `broken` stands for any of EPOLLERR, EPOLLHUP and EPOLLRDHUP. */
  datatype Ready = Ready(fd: nat, readable: bool, writable: bool, broken: bool) {
    predicate For(flag: Flag) {
      broken || (if flag.RDONLY? then readable else writable)
    }
  }

  /** What happens in a turn, in order: callbacks invoked, and calls they make on the watcher. */
  datatype Act = Invoke(fd: int, flag: Flag, callback: Callback) | Change(op: Op)

  /** The registry after a turn's acts, and the scripts of the callbacks still to be invoked. */
  datatype Turn = Turn(reg: Registry, acts: seq<Act>, script: seq<seq<Op>>)

  function Changes(ops: seq<Op>): (acts: seq<Act>)
    ensures |acts| == |ops| && forall i :: 0 <= i < |ops| ==> acts[i] == Change(ops[i])
  {
    seq(|ops|, i requires 0 <= i < |ops| => Change(ops[i]))
  }

  /** The next callback's calls; callbacks past the end of the script make none. */
  function Next(script: seq<seq<Op>>): seq<Op> {
    if script == [] then [] else script[0]
  }

  function Fire(reg: Registry, fd: int, flag: Flag, script: seq<seq<Op>>): Turn {
    if (fd, flag) !in reg then Turn(reg, [], script)
    else
      var ops := Next(script);
      Turn(ApplyAll(reg, ops), [Invoke(fd, flag, reg[(fd, flag)])] + Changes(ops),
           if script == [] then [] else script[1..])
  }

  function FireIf(ready: bool, reg: Registry, fd: int, flag: Flag, script: seq<seq<Op>>): Turn {
    if ready then Fire(reg, fd, flag, script) else Turn(reg, [], script)
  }

  /** One event: the reader first, then the writer if it is still registered. */
  function DispatchOne(reg: Registry, e: Ready, script: seq<seq<Op>>): Turn {
    var a := FireIf(e.For(RDONLY), reg, e.fd, RDONLY, script);
    var b := FireIf(e.For(WRONLY), a.reg, e.fd, WRONLY, a.script);
    Turn(b.reg, a.acts + b.acts, b.script)
  }

  function Dispatch(reg: Registry, events: seq<Ready>, script: seq<seq<Op>>): Turn
    decreases |events|
  {
    if events == [] then Turn(reg, [], script)
    else
      var a := DispatchOne(reg, events[0], script);
      var b := Dispatch(a.reg, events[1..], a.script);
      Turn(b.reg, a.acts + b.acts, b.script)
  }

  /** The registry once `acts` have happened, from the calls among them alone. */
  function Replay(reg: Registry, acts: seq<Act>): Registry
    decreases |acts|
  {
    if acts == [] then reg
    else Replay(if acts[0].Change? then Apply(reg, acts[0].op) else reg, acts[1..])
  }

  lemma {:induction false} ReplayAppend(reg: Registry, a: seq<Act>, b: seq<Act>)
    ensures Replay(reg, a + b) == Replay(Replay(reg, a), b)
    decreases |a|
  {
    if a == [] {
      assert a + b == b;
    } else {
      assert (a + b)[0] == a[0] && (a + b)[1..] == a[1..] + b;
      ReplayAppend(if a[0].Change? then Apply(reg, a[0].op) else reg, a[1..], b);
    }
  }

  lemma {:induction false} ReplayChanges(reg: Registry, ops: seq<Op>)
    ensures Replay(reg, Changes(ops)) == ApplyAll(reg, ops)
    decreases |ops|
  {
    if ops != [] {
      assert Changes(ops)[1..] == Changes(ops[1..]);
      ReplayChanges(Apply(reg, ops[0]), ops[1..]);
    }
  }

  /** Every invocation in `acts` is of the callback registered at that moment. */
  ghost predicate Current(reg: Registry, acts: seq<Act>) {
    forall i :: 0 <= i < |acts| && acts[i].Invoke? ==>
      Lookup(Replay(reg, acts[..i]), (acts[i].fd, acts[i].flag)) == Some(acts[i].callback)
  }

  lemma CurrentAppend(reg: Registry, a: seq<Act>, b: seq<Act>)
    requires Current(reg, a) && Current(Replay(reg, a), b)
    ensures Current(reg, a + b)
  {
    forall i | 0 <= i < |a + b| && (a + b)[i].Invoke?
      ensures Lookup(Replay(reg, (a + b)[..i]), ((a + b)[i].fd, (a + b)[i].flag)) == Some((a + b)[i].callback)
    {
      if i < |a| {
        assert (a + b)[..i] == a[..i];
      } else {
        assert (a + b)[..i] == a + b[..i - |a|];
        ReplayAppend(reg, a, b[..i - |a|]);
      }
    }
  }

  lemma FireCurrent(ready: bool, reg: Registry, fd: int, flag: Flag, script: seq<seq<Op>>)
    ensures var t := FireIf(ready, reg, fd, flag, script);
            Current(reg, t.acts) && t.reg == Replay(reg, t.acts)
  {
    var t := FireIf(ready, reg, fd, flag, script);
    if t.acts != [] {
      var ops := Next(script);
      assert t.acts[1..] == Changes(ops) && t.acts[..0] == [];
      ReplayChanges(reg, ops);
    }
  }

  lemma DispatchOneCurrent(reg: Registry, e: Ready, script: seq<seq<Op>>)
    ensures var t := DispatchOne(reg, e, script);
            Current(reg, t.acts) && t.reg == Replay(reg, t.acts)
  {
    var a := FireIf(e.For(RDONLY), reg, e.fd, RDONLY, script);
    var b := FireIf(e.For(WRONLY), a.reg, e.fd, WRONLY, a.script);
    FireCurrent(e.For(RDONLY), reg, e.fd, RDONLY, script);
    FireCurrent(e.For(WRONLY), a.reg, e.fd, WRONLY, a.script);
    ReplayAppend(reg, a.acts, b.acts);
    CurrentAppend(reg, a.acts, b.acts);
  }

  /**
   * Dispatch under adversarial callbacks: whatever they watch or unwatch inline, each invocation in a batch is of
   * the callback registered for that fd and flag at that very moment, and the registry ends as the calls left it.
   */
  lemma {:induction false} DispatchCurrent(reg: Registry, events: seq<Ready>, script: seq<seq<Op>>)
    ensures var t := Dispatch(reg, events, script);
            Current(reg, t.acts) && t.reg == Replay(reg, t.acts)
    decreases |events|
  {
    if events != [] {
      var a := DispatchOne(reg, events[0], script);
      DispatchOneCurrent(reg, events[0], script);
      DispatchCurrent(a.reg, events[1..], a.script);
      var b := Dispatch(a.reg, events[1..], a.script);
      ReplayAppend(reg, a.acts, b.acts);
      CurrentAppend(reg, a.acts, b.acts);
    }
  }

  lemma {:induction false} StaysUnregistered(reg: Registry, acts: seq<Act>, key: Key)
    requires key !in reg && forall a <- acts :: a.Change? && a.op.Watch? ==> a.op.Key() != key
    ensures key !in Replay(reg, acts)
    decreases |acts|
  {
    if acts != [] {
      StaysUnregistered(if acts[0].Change? then Apply(reg, acts[0].op) else reg, acts[1..], key);
    }
  }

  lemma GoneSince(reg: Registry, acts: seq<Act>, i: nat, j: nat)
    requires i < j <= |acts| && acts[i].Change? && acts[i].op.Unwatch? && acts[i].op.fd >= 0
    requires forall a <- acts[i + 1..j] :: a.Change? && a.op.Watch? ==> a.op.Key() != acts[i].op.Key()
    ensures acts[i].op.Key() !in Replay(reg, acts[..j])
  {
    var rest := [acts[i]] + acts[i + 1..j];
    assert acts[..j] == acts[..i] + rest;
    ReplayAppend(reg, acts[..i], rest);
    assert rest[1..] == acts[i + 1..j];
    StaysUnregistered(Apply(Replay(reg, acts[..i]), acts[i].op), acts[i + 1..j], acts[i].op.Key());
  }

  /** A key unwatched in a batch, and not watched again since, is not invoked later in the batch. */
  lemma NeverAfterUnwatch(reg: Registry, events: seq<Ready>, script: seq<seq<Op>>, i: nat, j: nat)
    requires var acts := Dispatch(reg, events, script).acts;
             && i < j < |acts| && acts[i].Change? && acts[i].op.Unwatch? && acts[i].op.fd >= 0
             && (forall a <- acts[i + 1..j] :: a.Change? && a.op.Watch? ==> a.op.Key() != acts[i].op.Key())
    ensures var acts := Dispatch(reg, events, script).acts;
            acts[j].Invoke? ==> (acts[j].fd, acts[j].flag) != acts[i].op.Key()
  {
    DispatchCurrent(reg, events, script);
    GoneSince(reg, Dispatch(reg, events, script).acts, i, j);
  }

  lemma {:induction false} StaysRegistered(reg: Registry, acts: seq<Act>, key: Key)
    requires key in reg && forall a <- acts :: a.Change? && a.op.Unwatch? ==> a.op.Key() != key
    ensures key in Replay(reg, acts)
    decreases |acts|
  {
    if acts != [] {
      StaysRegistered(if acts[0].Change? then Apply(reg, acts[0].op) else reg, acts[1..], key);
    }
  }

  /** Some act invokes a callback of the key. */
  ghost predicate Invoked(acts: seq<Act>, key: Key) {
    exists a :: a in acts && a.Invoke? && (a.fd, a.flag) == key
  }

  lemma DispatchOneComplete(reg: Registry, e: Ready, script: seq<seq<Op>>, flag: Flag)
    requires (e.broken || if flag.RDONLY? then e.readable else e.writable) && (e.fd, flag) in reg
    requires forall a <- DispatchOne(reg, e, script).acts :: a.Change? && a.op.Unwatch? ==> a.op.Key() != (e.fd, flag)
    ensures Invoked(DispatchOne(reg, e, script).acts, (e.fd, flag))
  {
    var a := FireIf(e.For(RDONLY), reg, e.fd, RDONLY, script);
    var b := FireIf(e.For(WRONLY), a.reg, e.fd, WRONLY, a.script);
    if flag.RDONLY? {
      assert a.acts[0] in a.acts + b.acts;
    } else {
      FireCurrent(e.For(RDONLY), reg, e.fd, RDONLY, script);
      StaysRegistered(reg, a.acts, (e.fd, flag));
      assert b.acts[0] in a.acts + b.acts;
    }
  }

  /** Nothing ready is missed: a registered key in the batch is invoked unless some callback unwatches it. */
  lemma {:induction false} DispatchComplete(reg: Registry, events: seq<Ready>, script: seq<seq<Op>>, k: nat, flag: Flag)
    requires k < |events| && (events[k].broken || if flag.RDONLY? then events[k].readable else events[k].writable)
    requires (events[k].fd, flag) in reg
    requires forall a <- Dispatch(reg, events, script).acts ::
               a.Change? && a.op.Unwatch? ==> a.op.Key() != (events[k].fd, flag)
    ensures Invoked(Dispatch(reg, events, script).acts, (events[k].fd, flag))
    decreases |events|
  {
    var a := DispatchOne(reg, events[0], script);
    var b := Dispatch(a.reg, events[1..], a.script);
    var key := (events[k].fd, flag);
    if k == 0 {
      DispatchOneComplete(reg, events[0], script, flag);
      var act :| act in a.acts && act.Invoke? && (act.fd, act.flag) == key;
      assert act in a.acts + b.acts;
    } else {
      DispatchOneCurrent(reg, events[0], script);
      StaysRegistered(reg, a.acts, key);
      DispatchComplete(a.reg, events[1..], a.script, k - 1, flag);
      var act :| act in b.acts && act.Invoke? && (act.fd, act.flag) == key;
      assert act in a.acts + b.acts;
    }
  }

  // ---------- what is ready, and no more, is invoked ----------

  /** The keys invoked, in order. */
  function Invocations(acts: seq<Act>): seq<Key>
    decreases |acts|
  {
    if acts == [] then []
    else (if acts[0].Invoke? then [(acts[0].fd, acts[0].flag)] else []) + Invocations(acts[1..])
  }

  lemma {:induction false} InvocationsAppend(a: seq<Act>, b: seq<Act>)
    ensures Invocations(a + b) == Invocations(a) + Invocations(b)
    decreases |a|
  {
    if a == [] {
      assert a + b == b;
    } else {
      assert (a + b)[0] == a[0] && (a + b)[1..] == a[1..] + b;
      InvocationsAppend(a[1..], b);
    }
  }

  lemma {:induction false} ChangesInvokeNone(acts: seq<Act>)
    requires forall a <- acts :: a.Change?
    ensures Invocations(acts) == []
    decreases |acts|
  {
    if acts != [] {
      assert acts[0] in acts;
      ChangesInvokeNone(acts[1..]);
    }
  }

  /** What one event may bring about: its reader if readable, then its writer if writable, both if broken. */
  predicate OfEvent(keys: seq<Key>, e: Ready) {
    || keys == []
    || (keys == [(e.fd, RDONLY)] && (e.broken || e.readable))
    || (keys == [(e.fd, WRONLY)] && (e.broken || e.writable))
    || (keys == [(e.fd, RDONLY), (e.fd, WRONLY)] && (e.broken || (e.readable && e.writable)))
  }

  /** The keys fall into what each event may bring about, event by event. */
  ghost predicate Follows(keys: seq<Key>, events: seq<Ready>)
    decreases |events|
  {
    if events == [] then keys == []
    else exists n: nat :: n <= |keys| && OfEvent(keys[..n], events[0]) && Follows(keys[n..], events[1..])
  }

  lemma FireInvokes(ready: bool, reg: Registry, fd: int, flag: Flag, script: seq<seq<Op>>)
    ensures Invocations(FireIf(ready, reg, fd, flag, script).acts) ==
            if ready && (fd, flag) in reg then [(fd, flag)] else []
  {
    if ready && (fd, flag) in reg {
      var first, rest := [Invoke(fd, flag, reg[(fd, flag)])], Changes(Next(script));
      InvocationsAppend(first, rest);
      assert first[1..] == [];
      ChangesInvokeNone(rest);
    }
  }

  lemma DispatchOneFollows(reg: Registry, e: Ready, script: seq<seq<Op>>)
    ensures OfEvent(Invocations(DispatchOne(reg, e, script).acts), e)
  {
    var a := FireIf(e.For(RDONLY), reg, e.fd, RDONLY, script);
    var b := FireIf(e.For(WRONLY), a.reg, e.fd, WRONLY, a.script);
    FireInvokes(e.For(RDONLY), reg, e.fd, RDONLY, script);
    FireInvokes(e.For(WRONLY), a.reg, e.fd, WRONLY, a.script);
    InvocationsAppend(a.acts, b.acts);
  }

  /**
   * Whatever callbacks do, what is invoked follows the batch event by event: each registered key at most once for its
   * event, the reader first, and only if the event reports it ready or broken.
   */
  lemma {:induction false} InvokesFollowEvents(reg: Registry, events: seq<Ready>, script: seq<seq<Op>>)
    ensures Follows(Invocations(Dispatch(reg, events, script).acts), events)
    decreases |events|
  {
    if events != [] {
      var a := DispatchOne(reg, events[0], script);
      var b := Dispatch(a.reg, events[1..], a.script);
      DispatchOneFollows(reg, events[0], script);
      InvokesFollowEvents(a.reg, events[1..], a.script);
      InvocationsAppend(a.acts, b.acts);
      var keys, n := Invocations(a.acts + b.acts), |Invocations(a.acts)|;
      assert keys[..n] == Invocations(a.acts) && keys[n..] == Invocations(b.acts);
    }
  }

  /** So every invocation is of an fd and flag that some event of the batch reports ready or broken. */
  lemma {:induction false} OnlyReadyInvoked(reg: Registry, events: seq<Ready>, script: seq<seq<Op>>, act: Act)
    requires act in Dispatch(reg, events, script).acts && act.Invoke?
    ensures exists e <- events ::
              e.fd == act.fd && (e.broken || if act.flag.RDONLY? then e.readable else e.writable)
    decreases |events|
  {
    if events != [] {
      var a := DispatchOne(reg, events[0], script);
      if act in a.acts {
        DispatchOneFollows(reg, events[0], script);
        InvocationListed(a.acts, act);
        assert events[0] in events;
      } else {
        OnlyReadyInvoked(a.reg, events[1..], a.script, act);
      }
    }
  }

  lemma {:induction false} InvocationListed(acts: seq<Act>, act: Act)
    requires act in acts && act.Invoke?
    ensures (act.fd, act.flag) in Invocations(acts)
    decreases |acts|
  {
    if act != acts[0] {
      InvocationListed(acts[1..], act);
    }
  }

  /** The acts are invocations, each followed by the calls that the next callback of the script makes. */
  ghost predicate Plays(acts: seq<Act>, script: seq<seq<Op>>)
    decreases |acts|
  {
    acts != [] ==>
      && acts[0].Invoke?
      && var ops := if script == [] then [] else script[0];
         && |ops| < |acts| && acts[1..|ops| + 1] == Changes(ops)
         && Plays(acts[|ops| + 1..], if script == [] then [] else script[1..])
  }

  lemma FirePlays(ready: bool, reg: Registry, fd: int, flag: Flag, script: seq<seq<Op>>, rest: seq<Act>)
    requires Plays(rest, FireIf(ready, reg, fd, flag, script).script)
    ensures Plays(FireIf(ready, reg, fd, flag, script).acts + rest, script)
  {
    var acts := FireIf(ready, reg, fd, flag, script).acts;
    if ready && (fd, flag) in reg {
      var ops := if script == [] then [] else script[0];
      assert (acts + rest)[1..|ops| + 1] == Changes(ops) && (acts + rest)[|ops| + 1..] == rest;
    } else {
      assert acts + rest == rest;
    }
  }

  lemma PlaysRegrouped(a: seq<Act>, b: seq<Act>, c: seq<Act>, script: seq<seq<Op>>)
    requires Plays(a + (b + c), script)
    ensures Plays(a + b + c, script)
  {
    assert a + b + c == a + (b + c);
  }

  lemma DispatchOnePlays(reg: Registry, e: Ready, script: seq<seq<Op>>, rest: seq<Act>)
    requires Plays(rest, DispatchOne(reg, e, script).script)
    ensures Plays(DispatchOne(reg, e, script).acts + rest, script)
  {
    var a := FireIf(e.For(RDONLY), reg, e.fd, RDONLY, script);
    var b := FireIf(e.For(WRONLY), a.reg, e.fd, WRONLY, a.script);
    FirePlays(e.For(WRONLY), a.reg, e.fd, WRONLY, a.script, rest);
    FirePlays(e.For(RDONLY), reg, e.fd, RDONLY, script, b.acts + rest);
    PlaysRegrouped(a.acts, b.acts, rest, script);
  }

  /** Each callback that is invoked makes its own calls, in order, before the next is. */
  lemma {:induction false} DispatchPlays(reg: Registry, events: seq<Ready>, script: seq<seq<Op>>)
    ensures Plays(Dispatch(reg, events, script).acts, script)
    decreases |events|
  {
    if events != [] {
      var a := DispatchOne(reg, events[0], script);
      DispatchPlays(a.reg, events[1..], a.script);
      DispatchOnePlays(reg, events[0], script, Dispatch(a.reg, events[1..], a.script).acts);
    }
  }
}
