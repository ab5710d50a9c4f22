/** The TCP transport as an object, proved against the connections on values. */
module NetTransport {
  import opened NetSpec
  import NetRuns

  function OptFd(fd: int): Option<Fd> {
    if fd >= 0 then Some(fd) else None
  }

  class TcpTransport {
    var listenFd: int
    var clientFd: int
    var hotRead: Peer
    var hotWrite: Peer
    var connected: bool
    var fdByPeer: map<Peer, Fd>
    var connections: map<Fd, Connection>
    /** The watcher's and the kernel's side. */
    var watched: set<(Fd, Flag)>
    var open: set<Fd>
    ghost var connecting: bool
    ghost var leaked: set<Fd>
    /** The calls made so far. */
    ghost var calls: seq<NetRuns.Call>

    /** The object is where its calls lead from a new transport, so every law of runs holds of it. */
    ghost predicate Valid()
      reads this
    {
      NetRuns.Kept(NEW, calls) && State() == NetRuns.Run(NEW, calls)
    }

    ghost function State(): Net
      reads this
    {
      Net(OptFd(listenFd), OptFd(clientFd), connecting, connected, hotRead, hotWrite, fdByPeer, connections,
          watched, open, leaked)
    }

    constructor ()
      ensures State() == NEW && Valid() && calls == []
    {
      listenFd, clientFd, hotRead, hotWrite, connected := -1, -1, "", "", false;
      fdByPeer, connections, watched, open, connecting := map[], map[], {}, {}, false;
      leaked, calls := {}, [];
    }

    /** Any call that keeps to its promise. */
    method Perform(c: NetRuns.Call)
      requires Valid() && NetRuns.Promised(State(), c)
      modifies this
      ensures Valid() && calls == old(calls) + [c]
    {
      NetRuns.RunMore(NEW, calls, c);
      Dispatch(c);
      calls := calls + [c];
    }

    method Dispatch(c: NetRuns.Call)
      requires NetRuns.Promised(State(), c)
      modifies this
      ensures State() == NetRuns.Step(old(State()), c) && calls == old(calls)
    {
      match c
      case DoBind(fd) => var _ := Bind(if fd.None? then -1 else fd.value);
      case DoConnect(fd) => Connect(if fd.None? then -1 else fd.value);
      case DoConnectReady(peer) => var _ := OnConnectReady(peer);
      case DoAcceptReady(ready) => OnAcceptReady(ready);
      case DoReadReady(fd) => var _ := OnReadReady(fd);
      case DoWriteReady(fd) => var _ := OnWriteReady(fd);
      case DoResumeRead(order, recv, capacity) => var _ := ResumeRead(order, recv, capacity);
      case DoResumeWrite(to, order, answer) => var _ := ResumeWrite(to, order, answer);
      case DoSuspendRead => SuspendRead();
      case DoSuspendWrite(to) => SuspendWrite(to);
      case DoClose => Close();
    }

    // ---------- arming ----------

    method WatchRead(fd: Fd)
      requires fd in connections
      modifies `connections, `watched
      ensures State() == Arm(old(State()), fd, RDONLY, true)
    {
      if !connections[fd].readArmed {
        watched := watched + {(fd, RDONLY)};
        connections := connections[fd := connections[fd].(readArmed := true)];
      }
    }

    method UnwatchRead(fd: Fd)
      requires fd in connections
      modifies `connections, `watched
      ensures State() == Arm(old(State()), fd, RDONLY, false)
    {
      if connections[fd].readArmed {
        watched := watched - {(fd, RDONLY)};
        connections := connections[fd := connections[fd].(readArmed := false)];
      }
    }

    method WatchWrite(fd: Fd)
      requires fd in connections
      modifies `connections, `watched
      ensures State() == Arm(old(State()), fd, WRONLY, true)
    {
      if !connections[fd].writeArmed {
        watched := watched + {(fd, WRONLY)};
        connections := connections[fd := connections[fd].(writeArmed := true)];
      }
    }

    method UnwatchWrite(fd: Fd)
      requires fd in connections
      modifies `connections, `watched
      ensures State() == Arm(old(State()), fd, WRONLY, false)
    {
      if connections[fd].writeArmed {
        watched := watched - {(fd, WRONLY)};
        connections := connections[fd := connections[fd].(writeArmed := false)];
      }
    }

    method ReleaseConnection(fd: Fd)
      modifies `connections, `fdByPeer, `watched, `open, `hotRead, `hotWrite
      ensures State() == Release(old(State()), fd)
    {
      if fd !in connections {
        return;
      }
      UnwatchRead(fd);
      UnwatchWrite(fd);
      DropConnection(fd);
    }

    method DropConnection(fd: Fd)
      requires fd in connections
      modifies `connections, `fdByPeer, `open, `hotRead, `hotWrite
      ensures State() == Drop(old(State()), fd)
    {
      var peer := connections[fd].peer;
      open := open - {fd};
      connections := connections - {fd};
      fdByPeer := fdByPeer - {peer};
      if hotRead == peer {
        hotRead := "";
      }
      if hotWrite == peer {
        hotWrite := "";
      }
    }

    // ---------- setting up ----------

    /** `fd` is -1 when creating, binding or listening failed. */
    method Bind(fd: int) returns (status: IOStatus)
      requires listenFd < 0
      modifies `listenFd, `watched, `open
      ensures State() == NetSpec.Bind(old(State()), OptFd(fd)) && status == if fd < 0 then Fatal else Ok
    {
      listenFd := fd;
      if listenFd < 0 {
        return Fatal;
      }
      open := open + {fd};
      watched := watched + {(fd, RDONLY)};
      return Ok;
    }

    /** `fd` is -1 when the connect could not be started. */
    method Connect(fd: int)
      modifies `clientFd, `connecting, `watched, `open
      ensures State() == NetSpec.Connect(old(State()), OptFd(fd))
    {
      clientFd := fd;
      connecting := fd >= 0;
      if clientFd < 0 {
        return;
      }
      open := open + {fd};
      watched := watched + {(fd, WRONLY)};
    }

    method OnConnectReady(peer: Option<Peer>) returns (status: IOStatus)
      requires connecting && clientFd >= 0
      modifies `clientFd, `connecting, `connected, `connections, `fdByPeer, `watched, `open
      ensures State() == ConnectReady(old(State()), peer) && status == if peer.Some? then Ok else Fatal
    {
      watched := watched - {(clientFd, WRONLY)};
      connecting := false;
      if peer.None? {
        open := open - {clientFd};
        clientFd := -1;
        return Fatal;
      }
      connections := connections[clientFd := Connection(clientFd, peer.value, false, false)];
      fdByPeer := fdByPeer[peer.value := clientFd];
      connected := true;
      return Ok;
    }

    method OnAcceptReady(ready: seq<(Fd, Peer)>)
      modifies `connections, `fdByPeer, `watched, `open
      ensures State() == AcceptAll(old(State()), ready, ACCEPT_BATCH)
    {
      var rest, i := ready, 0;
      while i < ACCEPT_BATCH && rest != []
        invariant i <= ACCEPT_BATCH
        invariant AcceptAll(State(), rest, ACCEPT_BATCH - i) == AcceptAll(old(State()), ready, ACCEPT_BATCH)
        decreases ACCEPT_BATCH - i
      {
        AcceptOne(rest[0].0, rest[0].1);
        rest, i := rest[1..], i + 1;
      }
    }

    method AcceptOne(fd: Fd, peer: Peer)
      modifies `connections, `fdByPeer, `watched, `open
      ensures State() == Accept(old(State()), fd, peer)
    {
      open := open + {fd};
      connections := connections[fd := Connection(fd, peer, false, false)];
      fdByPeer := fdByPeer[peer := fd];
      WatchRead(fd);
    }

    // ---------- reading ----------

    /** Whether the socket is told that it can read. */
    method OnReadReady(fd: Fd) returns (told: bool)
      modifies `hotRead
      ensures State() == ReadReady(old(State()), fd) && told == (fd in connections)
    {
      told := fd in connections;
      if told {
        hotRead := connections[fd].peer;
      }
    }

    /** The peer the socket is told it can write to, if any. */
    method OnWriteReady(fd: Fd) returns (told: Option<Peer>)
      modifies `hotWrite
      ensures State() == WriteReady(old(State()), fd)
      ensures told == if fd in connections then Some(connections[fd].peer) else None
    {
      if fd !in connections {
        return None;
      }
      hotWrite := connections[fd].peer;
      return Some(hotWrite);
    }

    /** The fast path, if a peer is hot, else a scan of all connections. */
    method ResumeRead(order: seq<Fd>, recv: Fd -> Transfer, capacity: nat) returns (out: Outcome)
      requires forall fd <- order :: fd in connections
      modifies `connections, `fdByPeer, `watched, `open, `hotRead, `hotWrite
      ensures (State(), out) == NetSpec.ResumeRead(old(State()), order, recv, capacity)
    {
      if hotRead != "" {
        if hotRead in fdByPeer {
          var fd := fdByPeer[hotRead];
          if fd in connections {
            out := ReadFrom(fd, recv(fd), capacity);
            return;
          }
        }
        hotRead := "";
      }
      out := ScanAll(order, recv);
    }

    method ReadFrom(fd: Fd, answer: Transfer, capacity: nat) returns (out: Outcome)
      requires fd in connections
      modifies `connections, `fdByPeer, `watched, `open, `hotRead, `hotWrite
      ensures (State(), out) == ReadHot(old(State()), fd, answer, capacity)
    {
      match answer
      case Moved(n) =>
        if n < capacity {
          hotRead := "";
        }
        return Outcome(Ok, n, connections[fd].peer);
      case Zero =>
        hotRead := "";
        ReleaseConnection(fd);
        return Outcome(Eof, 0, "");
      case Again =>
        hotRead := "";
        WatchRead(fd);
        return Outcome(WouldBlock, 0, "");
      case Broken =>
        hotRead := "";
        ReleaseConnection(fd);
        return Outcome(Fatal, MINUS_ONE, "");
    }

    method ScanAll(order: seq<Fd>, recv: Fd -> Transfer) returns (out: Outcome)
      requires forall fd <- order :: fd in connections
      modifies `connections, `fdByPeer, `watched, `open, `hotRead, `hotWrite
      ensures (State(), out) == Scan(old(State()), order, recv)
    {
      var rest := order;
      while rest != []
        invariant forall fd <- rest :: fd in connections
        invariant Scan(State(), rest, recv) == Scan(old(State()), order, recv)
        decreases |rest|
      {
        var fd := rest[0];
        var peer := connections[fd].peer;
        WatchRead(fd);
        match recv(fd) {
          case Moved(n) =>
            return Outcome(Ok, n, peer);
          case Zero =>
            ReleaseConnection(fd);
            return Outcome(Eof, 0, "");
          case Again =>
          case Broken =>
            ReleaseConnection(fd);
            return Outcome(Fatal, MINUS_ONE, "");
        }
        rest := rest[1..];
      }
      return Outcome(WouldBlock, 0, "");
    }

    method SuspendRead()
      modifies `connections, `watched
      ensures State() == NetSpec.SuspendRead(old(State()))
    {
      ghost var s := State();
      SuspendedAll(s);
      var left := connections.Keys;
      while left != {}
        invariant left <= s.table.Keys && State() == Suspended(s, s.table.Keys - left)
        decreases |left|
      {
        var fd :| fd in left;
        ghost var done := s.table.Keys - left;
        SuspendMore(s, done, fd);
        assert s.table.Keys - (left - {fd}) == done + {fd};
        UnwatchRead(fd);
        left := left - {fd};
      }
      assert s.table.Keys - left == s.table.Keys;
    }

    // ---------- writing ----------

    method ResumeWrite(peer: Peer, order: seq<Fd>, answer: Transfer) returns (out: Outcome)
      modifies `connections, `fdByPeer, `watched, `open, `hotRead, `hotWrite
      ensures (State(), out) == NetSpec.ResumeWrite(old(State()), peer, order, answer)
    {
      var fd: Fd;
      if peer != "" {
        if peer !in fdByPeer {
          return Outcome(Fatal, MINUS_ONE, "");
        }
        if fdByPeer[peer] !in connections {
          return Outcome(Fatal, MINUS_ONE, "");
        }
        fd := fdByPeer[peer];
      } else if connected && clientFd >= 0 && clientFd in connections {
        fd := clientFd;
      } else if |connections| == 1 && order != [] && order[0] in connections {
        fd := order[0];
      } else {
        return Outcome(Error, MINUS_ONE, "");
      }
      match answer
      case Moved(n) =>
        return Outcome(Ok, n, "");
      case Zero =>
        ReleaseConnection(fd);
        return Outcome(Eof, 0, "");
      case Again =>
        WatchWrite(fd);
        return Outcome(WouldBlock, 0, "");
      case Broken =>
        ReleaseConnection(fd);
        return Outcome(Fatal, MINUS_ONE, "");
    }

    method SuspendWrite(peer: Peer)
      modifies `connections, `watched
      ensures State() == NetSpec.SuspendWrite(old(State()), peer)
    {
      if peer !in fdByPeer {
        return;
      }
      var fd := fdByPeer[peer];
      if fd !in connections {
        return;
      }
      UnwatchWrite(fd);
    }

    // ---------- closing ----------

    method Close()
      modifies `listenFd, `clientFd, `connecting, `leaked, `connections, `fdByPeer, `watched, `open, `hotRead, `hotWrite
      ensures State() == NetSpec.Close(old(State()))
    {
      CloseEnds();
      CloseConnections();
      connections, fdByPeer := map[], map[];
      hotRead, hotWrite := "", "";
    }

    method CloseEnds()
      modifies `listenFd, `clientFd, `connecting, `leaked, `watched, `open
      ensures State() == NetSpec.CloseEnds(old(State()))
    {
      if listenFd >= 0 {
        watched := watched - {(listenFd, RDONLY)};
        open := open - {listenFd};
        listenFd := -1;
      }
      if clientFd >= 0 {
        watched := watched - {(clientFd, WRONLY)};
        leaked := if connecting then leaked + {clientFd} else leaked;
        connecting := false;
        clientFd := -1;
      }
    }

    method CloseConnections()
      modifies `connections, `watched, `open
      ensures connections.Keys == old(connections.Keys)
      ensures State() == Shut(old(State()), old(connections.Keys))
    {
      ghost var s := State();
      ShutNone(s);
      var left := connections.Keys;
      while left != {}
        invariant left <= s.table.Keys && State() == Shut(s, s.table.Keys - left)
        decreases |left|
      {
        var fd :| fd in left;
        ghost var done := s.table.Keys - left;
        ShutMore(s, done, fd);
        assert s.table.Keys - (left - {fd}) == done + {fd};
        CloseConnection(fd);
        left := left - {fd};
      }
      assert s.table.Keys - left == s.table.Keys;
    }

    method CloseConnection(fd: Fd)
      requires fd in connections
      modifies `connections, `watched, `open
      ensures var t := Arm(Arm(old(State()), fd, RDONLY, false), fd, WRONLY, false);
              State() == t.(open := t.open - {fd})
    {
      UnwatchRead(fd);
      UnwatchWrite(fd);
      open := open - {fd};
    }
  }

  // ---------- the loops' halfway states ----------

  /** The connections of `done` disarmed for reading, the others as they are. */
  ghost function Suspended(s: Net, done: set<Fd>): Net {
    s.(table := map fd | fd in s.table :: if fd in done then s.table[fd].With(RDONLY, false) else s.table[fd],
       watched := (set w | w in s.watched && !(w.1.RDONLY? && w.0 in done && w.0 in s.table && s.table[w.0].readArmed)))
  }

  lemma SuspendMore(s: Net, done: set<Fd>, fd: Fd)
    requires fd in s.table && fd !in done
    ensures fd in Suspended(s, done).table
    ensures Arm(Suspended(s, done), fd, RDONLY, false) == Suspended(s, done + {fd})
  {
  }

  lemma SuspendedAll(s: Net)
    ensures Suspended(s, s.table.Keys) == SuspendRead(s)
    ensures Suspended(s, {}) == s
  {
  }

  /** The connections of `done` disarmed and closed, the others as they are. */
  ghost function Shut(s: Net, done: set<Fd>): Net {
    s.(table := map fd | fd in s.table ::
                  if fd in done then s.table[fd].With(RDONLY, false).With(WRONLY, false) else s.table[fd],
       watched := (set w | w in s.watched && !(w.0 in done && w.0 in s.table && s.table[w.0].IsArmed(w.1))),
       open := s.open - done)
  }

  lemma ShutMore(s: Net, done: set<Fd>, fd: Fd)
    requires fd in s.table && fd !in done
    ensures fd in Shut(s, done).table
    ensures var t := Arm(Arm(Shut(s, done), fd, RDONLY, false), fd, WRONLY, false);
            t.(open := t.open - {fd}) == Shut(s, done + {fd})
  {
    var t, b := Arm(Arm(Shut(s, done), fd, RDONLY, false), fd, WRONLY, false), Shut(s, done + {fd});
    assert t.table == b.table;
    forall f: Fd, g: Flag
      ensures (f, g) in t.watched <==> (f, g) in b.watched
    {
      assert g == RDONLY || g == WRONLY;
    }
    assert t.watched == b.watched;
    assert t.open - {fd} == b.open;
  }

  lemma ShutNone(s: Net)
    ensures Shut(s, {}) == s
  {
  }
}
