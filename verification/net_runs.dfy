/** What every call of the TCP transport keeps, and what its answers promise. */
module NetRuns {
  import opened NetSpec

  // ---------- the invariant ----------

  /** The two indexes are inverse to each other. */
  ghost predicate Indexed(s: Net) {
    && (forall fd <- s.table :: s.table[fd].fd == fd && s.table[fd].peer != ""
                                && s.table[fd].peer in s.fdByPeer && s.fdByPeer[s.table[fd].peer] == fd)
    && (forall p <- s.fdByPeer :: s.fdByPeer[p] in s.table && s.table[s.fdByPeer[p]].peer == p)
  }

  /** A hot peer is empty or has a connection. */
  predicate HotLive(s: Net) {
    (s.hotRead == "" || s.hotRead in s.fdByPeer) && (s.hotWrite == "" || s.hotWrite in s.fdByPeer)
  }

  /** Watched apart from connections: the listener, and a connect under way. */
  predicate Waited(s: Net, fd: Fd, flag: Flag) {
    (flag.RDONLY? && s.listen == Some(fd)) || (flag.WRONLY? && s.connecting && s.client == Some(fd))
  }

  predicate Armed(s: Net, fd: Fd, flag: Flag) {
    fd in s.table && s.table[fd].IsArmed(flag)
  }

  /** The watcher watches exactly the armed connections and what else is waited for. */
  ghost predicate Watching(s: Net) {
    forall fd: Fd, flag: Flag :: (fd, flag) in s.watched <==> Armed(s, fd, flag) || Waited(s, fd, flag)
  }

  /** The fds of the listener and of a connect under way. */
  function Others(s: Net): set<Fd> {
    (if s.listen.Some? then {s.listen.value} else {}) + (if s.connecting && s.client.Some? then {s.client.value} else {})
  }

  /** The open fds are those of the connections, the listener, a connect under way, and leaked ones, all different. */
  ghost predicate Opened(s: Net) {
    && (s.connecting ==> s.client.Some? && s.client != s.listen)
    && s.table.Keys !! Others(s) && s.leaked !! s.table.Keys + Others(s)
    && s.open == s.table.Keys + Others(s) + s.leaked
  }

  ghost predicate Valid(s: Net) {
    Indexed(s) && HotLive(s) && Watching(s) && Opened(s)
  }

  // ---------- single steps ----------

  lemma ArmWatching(s: Net, fd: Fd, flag: Flag, on: bool)
    requires Watching(s) && fd in s.table && !Waited(s, fd, flag)
    ensures Watching(Arm(s, fd, flag, on))
  {
  }

  lemma ArmIndexed(s: Net, fd: Fd, flag: Flag, on: bool)
    requires Indexed(s) && HotLive(s) && fd in s.table
    ensures Indexed(Arm(s, fd, flag, on)) && HotLive(Arm(s, fd, flag, on))
  {
  }

  lemma ArmOpened(s: Net, fd: Fd, flag: Flag, on: bool)
    requires Opened(s) && fd in s.table
    ensures Opened(Arm(s, fd, flag, on)) && Arm(s, fd, flag, on).table.Keys == s.table.Keys
  {
  }

  lemma ArmValid(s: Net, fd: Fd, flag: Flag, on: bool)
    requires Valid(s) && fd in s.table
    ensures Valid(Arm(s, fd, flag, on))
  {
    ArmWatching(s, fd, flag, on);
    ArmIndexed(s, fd, flag, on);
    ArmOpened(s, fd, flag, on);
  }

  lemma AddValid(s: Net, fd: Fd, peer: Peer)
    requires Indexed(s) && HotLive(s) && Watching(s) && fd !in s.table && peer != "" && peer !in s.fdByPeer
    ensures Indexed(Add(s, fd, peer)) && HotLive(Add(s, fd, peer)) && Watching(Add(s, fd, peer))
  {
  }

  lemma DropValid(s: Net, fd: Fd)
    requires Valid(s) && fd in s.table && !s.table[fd].readArmed && !s.table[fd].writeArmed
    ensures Valid(Drop(s, fd))
  {
  }

  lemma ReleaseValid(s: Net, fd: Fd)
    requires Valid(s)
    ensures Valid(Release(s, fd))
  {
    if fd in s.table {
      var a := Arm(s, fd, RDONLY, false);
      ArmValid(s, fd, RDONLY, false);
      ArmValid(a, fd, WRONLY, false);
      DropValid(Arm(a, fd, WRONLY, false), fd);
    }
  }

  lemma ReleaseIndexes(s: Net, fd: Fd)
    requires fd in s.table
    ensures Release(s, fd).table == s.table - {fd} && Release(s, fd).fdByPeer == s.fdByPeer - {s.table[fd].peer}
  {
  }

  /** Releasing a connection takes out that one, leaves every other as it was, and unwatches its fd. */
  lemma ReleaseRemovesOne(s: Net, fd: Fd, flag: Flag)
    requires Valid(s) && fd in s.table
    ensures Release(s, fd).table == s.table - {fd} && Release(s, fd).fdByPeer == s.fdByPeer - {s.table[fd].peer}
    ensures (fd, flag) !in Release(s, fd).watched
    ensures var t, peer := Release(s, fd), s.table[fd].peer;
            && t.hotRead == (if s.hotRead == peer then "" else s.hotRead)
            && t.hotWrite == (if s.hotWrite == peer then "" else s.hotWrite)
            && t.open == s.open - {fd} && t.listen == s.listen && t.client == s.client
  {
    ReleaseIndexes(s, fd);
    ReleaseValid(s, fd);
    var t := Release(s, fd);
    assert (fd, flag) in t.watched <==> Armed(t, fd, flag) || Waited(t, fd, flag);
  }

  // ---------- calls ----------

  lemma BindValid(s: Net, fd: Option<Fd>)
    requires Valid(s) && s.listen.None? && (fd.Some? ==> fd.value !in s.open)
    ensures Valid(Bind(s, fd))
  {
  }

  lemma ConnectValid(s: Net, fd: Option<Fd>)
    requires Valid(s) && !s.connecting && (fd.Some? ==> fd.value !in s.open)
    ensures Valid(Connect(s, fd))
  {
  }

  lemma ConnectReadyValid(s: Net, peer: Option<Peer>)
    requires Valid(s) && s.connecting && (peer.Some? ==> peer.value != "" && peer.value !in s.fdByPeer)
    ensures Valid(ConnectReady(s, peer))
  {
  }

  /** What the kernel promises of a batch: fds that are not open, peers that have no connection, all different. */
  ghost predicate FreshBatch(s: Net, ready: seq<(Fd, Peer)>) {
    && (forall r <- ready :: r.0 !in s.open && r.1 != "" && r.1 !in s.fdByPeer)
    && (forall i, j | 0 <= i < j < |ready| :: ready[i].0 != ready[j].0 && ready[i].1 != ready[j].1)
  }

  lemma AcceptTable(s: Net, fd: Fd, peer: Peer)
    ensures Accept(s, fd, peer).table == s.table[fd := Connection(fd, peer, true, false)]
    ensures Accept(s, fd, peer).open == s.open + {fd} && Accept(s, fd, peer).fdByPeer == s.fdByPeer[peer := fd]
  {
  }

  lemma AcceptValid(s: Net, fd: Fd, peer: Peer)
    requires Valid(s) && fd !in s.open && peer != "" && peer !in s.fdByPeer
    ensures Valid(Accept(s, fd, peer))
  {
    var o := s.(open := s.open + {fd});
    OpenWatching(s, fd);
    AddValid(o, fd, peer);
    var n := Add(o, fd, peer);
    assert n.table.Keys == s.table.Keys + {fd};
    ArmWatching(n, fd, RDONLY, true);
    ArmIndexed(n, fd, RDONLY, true);
    ArmOpened(n, fd, RDONLY, true);
  }

  lemma OpenWatching(s: Net, fd: Fd)
    requires Watching(s)
    ensures Watching(s.(open := s.open + {fd}))
  {
  }

  lemma {:induction false} AcceptAllValid(s: Net, ready: seq<(Fd, Peer)>, limit: nat)
    requires Valid(s) && FreshBatch(s, ready)
    ensures Valid(AcceptAll(s, ready, limit))
    decreases limit
  {
    if limit > 0 && ready != [] {
      var t := Accept(s, ready[0].0, ready[0].1);
      AcceptValid(s, ready[0].0, ready[0].1);
      AcceptTable(s, ready[0].0, ready[0].1);
      forall r | r in ready[1..]
        ensures r.0 !in t.open && r.1 != "" && r.1 !in t.fdByPeer
      {
        var i :| 0 <= i < |ready[1..]| && ready[1..][i] == r;
        assert ready[i + 1] == r && r in ready;
      }
      AcceptAllValid(t, ready[1..], limit - 1);
    }
  }

  /** The hot peer's lookup never falls through: whenever a peer is hot, both indexes have it. */
  lemma HotNeverStale(s: Net)
    requires Valid(s)
    ensures s.hotRead != "" ==> HotFd(s) == Some(s.fdByPeer[s.hotRead])
  {
  }

  lemma ColdValid(s: Net)
    requires Valid(s)
    ensures Valid(s.(hotRead := ""))
  {
  }

  lemma HotValid(s: Net, fd: Fd)
    requires Valid(s)
    ensures Valid(ReadReady(s, fd)) && Valid(WriteReady(s, fd))
  {
  }

  lemma ReadHotValid(s: Net, fd: Fd, answer: Transfer, capacity: nat)
    requires Valid(s) && fd in s.table
    ensures Valid(ReadHot(s, fd, answer, capacity).0)
  {
    var cold := s.(hotRead := "");
    ColdValid(s);
    ReleaseValid(cold, fd);
    ArmValid(cold, fd, RDONLY, true);
  }

  lemma {:induction false} ScanValid(s: Net, order: seq<Fd>, recv: Fd -> Transfer)
    requires Valid(s) && forall fd <- order :: fd in s.table
    ensures Valid(Scan(s, order, recv).0)
    decreases |order|
  {
    if order != [] {
      var t := Arm(s, order[0], RDONLY, true);
      ArmValid(s, order[0], RDONLY, true);
      ReleaseValid(t, order[0]);
      if recv(order[0]).Again? {
        ScanValid(t, order[1..], recv);
      }
    }
  }

  lemma ResumeReadValid(s: Net, order: seq<Fd>, recv: Fd -> Transfer, capacity: nat)
    requires Valid(s) && forall fd <- order :: fd in s.table
    ensures Valid(ResumeRead(s, order, recv, capacity).0)
  {
    if HotFd(s).Some? {
      ReadHotValid(s, HotFd(s).value, recv(HotFd(s).value), capacity);
    } else {
      ColdValid(s);
      ScanValid(s.(hotRead := ""), order, recv);
    }
  }

  lemma ResumeWriteValid(s: Net, peer: Peer, order: seq<Fd>, answer: Transfer)
    requires Valid(s)
    ensures Valid(ResumeWrite(s, peer, order, answer).0)
  {
    var target := Target(s, peer, order);
    if target.Some? {
      ReleaseValid(s, target.value);
      ArmValid(s, target.value, WRONLY, true);
    }
  }

  lemma SuspendReadValid(s: Net)
    requires Valid(s)
    ensures Valid(SuspendRead(s))
  {
  }

  lemma CloseWatchesNothing(s: Net)
    requires Watching(s)
    ensures Close(s).watched == {}
  {
  }

  lemma CloseOpensLeaked(s: Net)
    requires Opened(s)
    ensures Close(s).open == Close(s).leaked == s.leaked + (if s.connecting then {s.client.value} else {})
  {
  }

  lemma CloseValid(s: Net)
    requires Valid(s)
    ensures Valid(Close(s))
  {
    CloseWatchesNothing(s);
    CloseOpensLeaked(s);
  }

  // ---------- whole runs ----------

  datatype Call =
    | DoBind(fd: Option<Fd>)
    | DoConnect(fd: Option<Fd>)
    | DoConnectReady(peer: Option<Peer>)
    | DoAcceptReady(ready: seq<(Fd, Peer)>)
    | DoReadReady(ready1: Fd)
    | DoWriteReady(ready1: Fd)
    | DoResumeRead(order: seq<Fd>, recv: Fd -> Transfer, capacity: nat)
    | DoResumeWrite(to: Peer, order: seq<Fd>, answer: Transfer)
    | DoSuspendRead
    | DoSuspendWrite(to: Peer)
    | DoClose

  /** What the kernel and the socket keep to: new fds are not open, new peers unknown, calls come in their phase. */
  ghost predicate Promised(s: Net, c: Call) {
    match c
    case DoBind(fd) => s.listen.None? && (fd.Some? ==> fd.value !in s.open)
    case DoConnect(fd) => !s.connecting && (fd.Some? ==> fd.value !in s.open)
    case DoConnectReady(peer) =>
      s.connecting && s.client.Some? && (peer.Some? ==> peer.value != "" && peer.value !in s.fdByPeer)
    case DoAcceptReady(ready) => FreshBatch(s, ready)
    case DoResumeRead(order, _, _) => IsOrder(s, order)
    case DoResumeWrite(_, order, _) => IsOrder(s, order)
    case _ => true
  }

  function Step(s: Net, c: Call): Net
    requires Promised(s, c)
  {
    match c
    case DoBind(fd) => Bind(s, fd)
    case DoConnect(fd) => Connect(s, fd)
    case DoConnectReady(peer) => ConnectReady(s, peer)
    case DoAcceptReady(ready) => AcceptAll(s, ready, ACCEPT_BATCH)
    case DoReadReady(fd) => ReadReady(s, fd)
    case DoWriteReady(fd) => WriteReady(s, fd)
    case DoResumeRead(order, recv, capacity) => ResumeRead(s, order, recv, capacity).0
    case DoResumeWrite(to, order, answer) => ResumeWrite(s, to, order, answer).0
    case DoSuspendRead => SuspendRead(s)
    case DoSuspendWrite(to) => SuspendWrite(s, to)
    case DoClose => Close(s)
  }

  /** Whatever `accept4`, `recv` and `send` answer, every call keeps indexes, flags, watcher and hot peers in step. */
  lemma StepValid(s: Net, c: Call)
    requires Valid(s) && Promised(s, c)
    ensures Valid(Step(s, c))
  {
    match c
    case DoBind(fd) => BindValid(s, fd);
    case DoConnect(fd) => ConnectValid(s, fd);
    case DoConnectReady(peer) => ConnectReadyValid(s, peer);
    case DoAcceptReady(ready) => AcceptAllValid(s, ready, ACCEPT_BATCH);
    case DoReadReady(fd) => HotValid(s, fd);
    case DoWriteReady(fd) => HotValid(s, fd);
    case DoResumeRead(order, recv, capacity) => ResumeReadValid(s, order, recv, capacity);
    case DoResumeWrite(to, order, answer) => ResumeWriteValid(s, to, order, answer);
    case DoSuspendRead => SuspendReadValid(s);
    case DoSuspendWrite(to) => if to in s.fdByPeer { ArmValid(s, s.fdByPeer[to], WRONLY, false); }
    case DoClose => CloseValid(s);
  }

  /** Every call of the run keeps to its promise where it comes. */
  ghost predicate Kept(s: Net, calls: seq<Call>)
    decreases |calls|
  {
    calls == [] || (Promised(s, calls[0]) && Kept(Step(s, calls[0]), calls[1..]))
  }

  ghost function Run(s: Net, calls: seq<Call>): Net
    requires Kept(s, calls)
    decreases |calls|
  {
    if calls == [] then s else Run(Step(s, calls[0]), calls[1..])
  }

  /** So the invariant, and with it all that is proved from it, holds wherever a run from a valid state can get. */
  lemma {:induction false} RunValid(s: Net, calls: seq<Call>)
    requires Valid(s) && Kept(s, calls)
    ensures Valid(Run(s, calls))
    decreases |calls|
  {
    if calls != [] {
      StepValid(s, calls[0]);
      RunValid(Step(s, calls[0]), calls[1..]);
    }
  }

  lemma {:induction false} RunMore(s: Net, calls: seq<Call>, c: Call)
    requires Kept(s, calls) && Promised(Run(s, calls), c)
    ensures Kept(s, calls + [c]) && Run(s, calls + [c]) == Step(Run(s, calls), c)
    decreases |calls|
  {
    var more := calls + [c];
    if calls == [] {
      assert more[0] == c && more[1..] == [];
    } else {
      assert more[0] == calls[0] && more[1..] == calls[1..] + [c];
      RunMore(Step(s, calls[0]), calls[1..], c);
    }
  }

  // ---------- what an answer means ----------

  ghost predicate AllReadArmed(s: Net) {
    forall fd <- s.table :: s.table[fd].readArmed
  }

  lemma {:induction false} ScanBlocked(s: Net, order: seq<Fd>, recv: Fd -> Transfer)
    requires forall fd <- order :: fd in s.table
    requires Scan(s, order, recv).1.status.WouldBlock?
    ensures forall fd <- order :: recv(fd).Again?
    ensures var t := Scan(s, order, recv).0;
            t.table.Keys == s.table.Keys && forall fd <- s.table ::
              t.table[fd].readArmed <==> s.table[fd].readArmed || fd in order
    decreases |order|
  {
    if order != [] {
      ScanBlocked(Arm(s, order[0], RDONLY, true), order[1..], recv);
    }
  }

  /**
   * A scan asks the connections in order up to the first that does not answer "try again". It arms exactly those it
   * asks; that one's answer is the result, and it is lost unless it brought something.
   */
  lemma {:induction false} ScanInOrder(s: Net, order: seq<Fd>, recv: Fd -> Transfer, k: nat)
    requires (forall fd <- order :: fd in s.table) && k < |order|
    requires (forall j | 0 <= j < k :: recv(order[j]).Again?) && !recv(order[k]).Again?
    ensures var (t, out) := Scan(s, order, recv);
            var last := recv(order[k]);
            && out.status == (if last.Moved? then Ok else if last.Zero? then Eof else Fatal)
            && (last.Moved? ==> out.n == last.n && out.peer == s.table[order[k]].peer)
            && t.table.Keys == (if last.Moved? then s.table.Keys else s.table.Keys - {order[k]})
            && forall fd <- t.table :: t.table[fd].readArmed <==> s.table[fd].readArmed || fd in order[..k + 1]
    decreases |order|
  {
    var a := Arm(s, order[0], RDONLY, true);
    if k > 0 {
      ScanInOrder(a, order[1..], recv, k - 1);
      assert order[..k + 1] == [order[0]] + order[1..][..k];
    } else {
      ReleaseIndexes(a, order[0]);
      assert order[..1] == [order[0]];
    }
  }

  /**
   * A read that would block should leave every connection armed, so that the next bytes wake the reader. It does so
   * exactly when no peer was hot, or all connections but the hot one were armed already: the fast path arms its own
   * connection only.
   */
  lemma BlockedReadArmsAllIff(s: Net, order: seq<Fd>, recv: Fd -> Transfer, capacity: nat)
    requires Valid(s) && IsOrder(s, order)
    requires ResumeRead(s, order, recv, capacity).1.status.WouldBlock?
    ensures AllReadArmed(ResumeRead(s, order, recv, capacity).0) <==>
            s.hotRead == "" || forall fd <- s.table :: s.table[fd].peer == s.hotRead || s.table[fd].readArmed
  {
    if s.hotRead == "" {
      ScanBlocked(s.(hotRead := ""), order, recv);
    } else {
      HotNeverStale(s);
      var h := s.fdByPeer[s.hotRead];
      var t := ResumeRead(s, order, recv, capacity).0;
      assert t == Arm(s.(hotRead := ""), h, RDONLY, true);
      assert forall fd <- s.table :: s.table[fd].peer == s.hotRead <==> fd == h;
      assert forall fd <- t.table :: t.table[fd].readArmed <==> fd == h || s.table[fd].readArmed;
    }
  }

  /** Whether `t` has the connections of `s` but for `fd`, whose `recv` answered so. */
  ghost predicate LostOne(s: Net, t: Net, fd: Fd) {
    fd in s.table && t.table.Keys == s.table.Keys - {fd}
  }

  lemma ReadHotMeans(s: Net, fd: Fd, answer: Transfer, capacity: nat)
    requires Valid(s) && fd in s.table
    ensures var (t, out) := ReadHot(s, fd, answer, capacity);
            && (out.status.Ok? ==>
                  answer.Moved? && answer.n == out.n && out.peer == s.table[fd].peer && t.table.Keys == s.table.Keys)
            && (out.status.WouldBlock? ==> answer.Again? && out.n == 0 && t.table.Keys == s.table.Keys)
            && (out.status.Eof? ==> answer.Zero? && out.n == 0 && LostOne(s, t, fd))
            && (out.status.Fatal? ==> answer.Broken? && out.n == MINUS_ONE && LostOne(s, t, fd))
  {
  }

  lemma {:induction false} ScanMeans(s: Net, order: seq<Fd>, recv: Fd -> Transfer)
    requires Valid(s) && forall fd <- order :: fd in s.table
    ensures var (t, out) := Scan(s, order, recv);
            && !out.status.Error?
            && (out.status.Ok? ==>
                  exists fd :: fd in s.table && recv(fd).Moved? && recv(fd).n == out.n && out.peer == s.table[fd].peer)
            && (out.status.Ok? || out.status.WouldBlock? ==> t.table.Keys == s.table.Keys)
            && (out.status.WouldBlock? || out.status.Eof? ==> out.n == 0) && (out.status.Fatal? ==> out.n == MINUS_ONE)
            && (out.status.Eof? ==> exists fd :: recv(fd).Zero? && LostOne(s, t, fd))
            && (out.status.Fatal? ==> exists fd :: recv(fd).Broken? && LostOne(s, t, fd))
    decreases |order|
  {
    if order != [] {
      var fd := order[0];
      var a := Arm(s, fd, RDONLY, true);
      ArmValid(s, fd, RDONLY, true);
      assert a.table.Keys == s.table.Keys;
      ReleaseIndexes(a, fd);
      if recv(fd).Again? {
        ScanMeans(a, order[1..], recv);
        var (t, out) := Scan(a, order[1..], recv);
        if out.status.Ok? {
          var g :| g in a.table && recv(g).Moved? && recv(g).n == out.n && out.peer == a.table[g].peer;
          assert s.table[g].peer == a.table[g].peer;
        }
      } else if !recv(fd).Moved? {
        assert LostOne(s, Release(a, fd), fd);
      }
    }
  }

  /**
   * A read's answer can be trusted: bytes come from the peer it names; end of file and failure lose the one connection
   * that answered so, and nothing else is ever lost.
   */
  lemma ReadMeans(s: Net, order: seq<Fd>, recv: Fd -> Transfer, capacity: nat)
    requires Valid(s) && IsOrder(s, order)
    ensures var (t, out) := ResumeRead(s, order, recv, capacity);
            && !out.status.Error?
            && (out.status.Ok? ==>
                  out.peer in s.fdByPeer
                  && var answer := recv(s.fdByPeer[out.peer]); answer.Moved? && answer.n == out.n)
            && (out.status.Ok? || out.status.WouldBlock? ==> t.table.Keys == s.table.Keys)
            && (out.status.WouldBlock? || out.status.Eof? ==> out.n == 0) && (out.status.Fatal? ==> out.n == MINUS_ONE)
            && (out.status.Eof? ==> exists fd :: recv(fd).Zero? && LostOne(s, t, fd))
            && (out.status.Fatal? ==> exists fd :: recv(fd).Broken? && LostOne(s, t, fd))
  {
    if HotFd(s).Some? {
      ReadHotMeans(s, HotFd(s).value, recv(HotFd(s).value), capacity);
    } else {
      var cold := s.(hotRead := "");
      ColdValid(s);
      ScanMeans(cold, order, recv);
      var (t, out) := Scan(cold, order, recv);
      if out.status.Eof? {
        var fd :| recv(fd).Zero? && LostOne(cold, t, fd);
        assert LostOne(s, t, fd);
      }
      if out.status.Fatal? {
        var fd :| recv(fd).Broken? && LostOne(cold, t, fd);
        assert LostOne(s, t, fd);
      }
    }
  }

  lemma {:induction false} ScanHot(s: Net, order: seq<Fd>, recv: Fd -> Transfer)
    requires s.hotRead == "" && forall fd <- order :: fd in s.table
    ensures Scan(s, order, recv).0.hotRead == ""
    decreases |order|
  {
    if order != [] {
      ScanHot(Arm(s, order[0], RDONLY, true), order[1..], recv);
    }
  }

  lemma ReadHotHot(s: Net, fd: Fd, answer: Transfer, capacity: nat)
    requires fd in s.table && s.table[fd].peer == s.hotRead
    ensures var (t, out) := ReadHot(s, fd, answer, capacity);
            if out.status.Ok? && out.n >= capacity then t.hotRead == s.hotRead == out.peer else t.hotRead == ""
  {
  }

  /** A peer stays hot only through a read that brought its bytes and filled the buffer: there may be more. */
  lemma HotAfterRead(s: Net, order: seq<Fd>, recv: Fd -> Transfer, capacity: nat)
    requires Valid(s) && IsOrder(s, order)
    ensures var (t, out) := ResumeRead(s, order, recv, capacity);
            if s.hotRead != "" && out.status.Ok? && out.n >= capacity then t.hotRead == s.hotRead == out.peer
            else t.hotRead == ""
  {
    if s.hotRead == "" {
      ScanHot(s, order, recv);
    } else {
      HotNeverStale(s);
      var fd := s.fdByPeer[s.hotRead];
      ReadHotHot(s, fd, recv(fd), capacity);
    }
  }

  /**
   * A write goes to the connection of the peer it names, and is refused exactly when there is none. Without a peer it
   * goes to the client's connection or to the only one there is, and is refused exactly when there is neither.
   */
  lemma TargetMeans(s: Net, peer: Peer, order: seq<Fd>)
    requires Valid(s) && IsOrder(s, order)
    ensures var target := Target(s, peer, order);
            && (target.Some? ==> target.value in s.table)
            && (peer != "" ==> forall fd <- s.table :: target == Some(fd) <==> s.table[fd].peer == peer)
            && (peer == "" && s.connected && s.client.Some? && s.client.value in s.table ==> target == s.client)
            && (peer == "" ==>
                  (target.None? <==> |s.table| != 1 && !(s.connected && s.client.Some? && s.client.value in s.table)))
  {
  }

  lemma ReleaseLosesOne(s: Net, fd: Fd)
    requires fd in s.table
    ensures LostOne(s, Release(s, fd), fd)
  {
    ReleaseIndexes(s, fd);
  }

  lemma ArmedIsWatched(s: Net, fd: Fd)
    requires Valid(s) && fd in s.table
    ensures (fd, WRONLY) in Arm(s, fd, WRONLY, true).watched && Arm(s, fd, WRONLY, true).table.Keys == s.table.Keys
  {
    assert (fd, WRONLY) in s.watched <==> Armed(s, fd, WRONLY) || Waited(s, fd, WRONLY);
  }

  /** A blocked write leaves its connection waiting to be writable; only an end or a failure loses the connection. */
  lemma WriteMeans(s: Net, peer: Peer, order: seq<Fd>, answer: Transfer)
    requires Valid(s) && IsOrder(s, order) && Target(s, peer, order).Some?
    ensures var (t, out) := ResumeWrite(s, peer, order, answer);
            var fd := Target(s, peer, order).value;
            && (out.status.Ok? <==> answer.Moved?) && (out.status.Ok? ==> t == s && answer == Moved(out.n))
            && (out.status.WouldBlock? <==> answer.Again?)
            && (out.status.WouldBlock? ==> out.n == 0 && (fd, WRONLY) in t.watched && t.table.Keys == s.table.Keys)
            && (answer.Zero? ==> LostOne(s, t, fd) && out.status == Eof && out.n == 0)
            && (answer.Broken? ==> LostOne(s, t, fd) && out.status == Fatal && out.n == MINUS_ONE)
  {
    TargetMeans(s, peer, order);
    match answer
    case Moved(_) =>
    case Again => ArmedIsWatched(s, Target(s, peer, order).value);
    case Zero => ReleaseLosesOne(s, Target(s, peer, order).value);
    case Broken => ReleaseLosesOne(s, Target(s, peer, order).value);
  }

  /** There is a connection a write to `peer` can go to: its own, or, unnamed, the client's or the only one. */
  ghost predicate Reachable(s: Net, peer: Peer) {
    if peer != "" then exists fd <- s.table :: s.table[fd].peer == peer
    else |s.table| == 1 || (s.connected && s.client.Some? && s.client.value in s.table)
  }

  /** Without one a write is refused, with -1 and the status that says why, and nothing changes. */
  lemma WriteRefusedIff(s: Net, peer: Peer, order: seq<Fd>, answer: Transfer)
    requires Valid(s) && IsOrder(s, order)
    ensures Target(s, peer, order).None? <==> !Reachable(s, peer)
    ensures var (t, out) := ResumeWrite(s, peer, order, answer);
            && (!Reachable(s, peer) ==>
                  t == s && out.n == MINUS_ONE && out.status == if peer != "" then Fatal else Error)
            && (out.status.Ok? <==> Reachable(s, peer) && answer.Moved?)
  {
    TargetMeans(s, peer, order);
    if peer != "" && Target(s, peer, order).Some? {
      assert s.table[Target(s, peer, order).value].peer == peer;
    }
  }

  // ---------- what the other calls do ----------

  /** A bind listens and watches for accepts; a connect waits to be writable; one that failed leaves neither. */
  lemma SetupMeans(s: Net, fd: Option<Fd>)
    requires Valid(s) && (fd.Some? ==> fd.value !in s.open)
    ensures var b := Bind(s, fd);
            && b.listen == fd && b.table == s.table && b.fdByPeer == s.fdByPeer
            && (fd.Some? ==> fd.value in b.open && b.watched == s.watched + {(fd.value, RDONLY)})
            && (fd.None? ==> b.open == s.open && b.watched == s.watched)
    ensures var c := Connect(s, fd);
            && c.client == fd && c.connecting == fd.Some? && c.table == s.table && c.fdByPeer == s.fdByPeer
            && (fd.Some? ==> fd.value in c.open && c.watched == s.watched + {(fd.value, WRONLY)})
            && (fd.None? ==> c.open == s.open && c.watched == s.watched)
  {
  }

  /**
   * A connect that succeeded adds the client's connection, which the peer and an unnamed write then reach, and no other;
   * one that failed closes and forgets its fd. Neither is waited for any longer.
   */
  lemma ConnectReadyMeans(s: Net, peer: Option<Peer>, order: seq<Fd>)
    requires Valid(s) && s.connecting && (peer.Some? ==> peer.value != "" && peer.value !in s.fdByPeer)
    ensures var t, fd := ConnectReady(s, peer), s.client.value;
            && !t.connecting && (fd, WRONLY) !in t.watched
            && (peer.None? ==>
                  t.client == None && t.open == s.open - {fd} && t.table == s.table && t.connected == s.connected)
            && (peer.Some? ==>
                  && t.table.Keys == s.table.Keys + {fd} && t.table[fd] == Connection(fd, peer.value, false, false)
                  && fd in t.open && Target(t, peer.value, order) == Some(fd) == Target(t, "", order))
  {
  }

  /** A ready connection is the one the next read asks, and no other is asked or touched. */
  lemma ReadyMakesHot(s: Net, fd: Fd, order: seq<Fd>, recv: Fd -> Transfer, capacity: nat, other: Fd)
    requires Valid(s) && fd in s.table && IsOrder(s, order) && other in s.table && other != fd
    ensures var h := ReadReady(s, fd);
            var (t, out) := ResumeRead(h, order, recv, capacity);
            && HotFd(h) == Some(fd) && WriteReady(s, fd).hotWrite == s.table[fd].peer
            && other in t.table && t.table[other] == s.table[other]
            && (out.status.Ok? <==> recv(fd).Moved?) && (out.status.Ok? ==> out.peer == s.table[fd].peer)
  {
    var h := ReadReady(s, fd);
    assert HotFd(h) == Some(fd);
    ReleaseIndexes(h.(hotRead := ""), fd);
  }

  /** Suspending writes to a peer disarms its connection for writing, and nothing else; without one it does nothing. */
  lemma SuspendWriteMeans(s: Net, peer: Peer, fd: Fd, flag: Flag)
    requires Valid(s)
    ensures (fd, flag) in SuspendWrite(s, peer).watched <==>
            (fd, flag) in s.watched &&
            (flag.RDONLY? || fd !in s.table || s.table[fd].peer != peer)
    ensures SuspendWrite(s, peer).table.Keys == s.table.Keys && SuspendWrite(s, peer).fdByPeer == s.fdByPeer
  {
    assert (fd, flag) in s.watched <==> Armed(s, fd, flag) || Waited(s, fd, flag);
  }

  lemma {:induction false} AcceptKeeps(s: Net, ready: seq<(Fd, Peer)>, limit: nat, fd: Fd)
    requires forall i | 0 <= i < |ready| && i < limit :: ready[i].0 != fd
    ensures var t := AcceptAll(s, ready, limit);
            (fd in t.table <==> fd in s.table) && (fd in s.table ==> t.table[fd] == s.table[fd])
    decreases limit
  {
    if limit > 0 && ready != [] {
      AcceptTable(s, ready[0].0, ready[0].1);
      assert forall i | 0 <= i < |ready[1..]| :: ready[1..][i] == ready[i + 1];
      AcceptKeeps(Accept(s, ready[0].0, ready[0].1), ready[1..], limit - 1, fd);
    }
  }

  lemma {:induction false} AcceptAdds(s: Net, ready: seq<(Fd, Peer)>, limit: nat, i: nat)
    requires i < |ready| && i < limit && forall j | i < j < |ready| :: ready[j].0 != ready[i].0
    ensures var (fd, peer) := ready[i];
            var t := AcceptAll(s, ready, limit);
            fd in t.table && t.table[fd] == Connection(fd, peer, true, false)
    decreases limit
  {
    var u, rest := Accept(s, ready[0].0, ready[0].1), ready[1..];
    AcceptTable(s, ready[0].0, ready[0].1);
    assert forall j | 0 <= j < |rest| :: rest[j] == ready[j + 1];
    if i == 0 {
      AcceptKeeps(u, rest, limit - 1, ready[0].0);
    } else {
      AcceptAdds(u, rest, limit - 1, i - 1);
    }
  }

  /** A batch of accepts adds the first ten that are ready, each armed for reading, and changes no other connection. */
  lemma AcceptTakesBatch(s: Net, ready: seq<(Fd, Peer)>, fd: Fd)
    requires FreshBatch(s, ready)
    ensures var t := AcceptAll(s, ready, ACCEPT_BATCH);
            && (forall i | 0 <= i < |ready| && i < 10 && ready[i].0 == fd ::
                  fd in t.table && t.table[fd] == Connection(fd, ready[i].1, true, false))
            && ((forall i | 0 <= i < |ready| && i < 10 :: ready[i].0 != fd) ==>
                  (fd in t.table <==> fd in s.table) && (fd in s.table ==> t.table[fd] == s.table[fd]))
  {
    if i :| 0 <= i < |ready| && i < 10 && ready[i].0 == fd {
      AcceptAdds(s, ready, ACCEPT_BATCH, i);
    } else {
      AcceptKeeps(s, ready, ACCEPT_BATCH, fd);
    }
  }

  /** Suspending reads disarms every connection for reading and leaves the rest: what is written, and the listener. */
  lemma SuspendReadMeans(s: Net, fd: Fd, flag: Flag)
    requires Valid(s)
    ensures (fd, flag) in SuspendRead(s).watched <==>
            (fd, flag) in s.watched && (flag.WRONLY? || s.listen == Some(fd))
  {
  }

  /**
   * Closing leaves nothing watched, indexed or hot. It also closes every fd, as it should, exactly when no connect
   * is under way and none was at an earlier close: the fd of a pending connect is forgotten while still open.
   */
  lemma CloseReleasesAllIff(s: Net)
    requires Valid(s)
    ensures var t := Close(s);
            && t.watched == {} && t.table == map[] && t.fdByPeer == map[] && t.hotRead == "" && t.hotWrite == ""
            && t.open == s.leaked + (if s.connecting then {s.client.value} else {})
            && (t.open == {} <==> !s.connecting && s.leaked == {})
  {
    CloseWatchesNothing(s);
    CloseOpensLeaked(s);
    assert s.connecting ==> s.client.value in Close(s).open;
  }

  /** Some close of the run comes while a connect is under way. */
  ghost predicate ClosesEarly(s: Net, calls: seq<Call>)
    requires Kept(s, calls)
    decreases |calls|
  {
    calls != [] && ((calls[0].DoClose? && s.connecting) || ClosesEarly(Step(s, calls[0]), calls[1..]))
  }

  lemma {:induction false} AcceptLeaks(s: Net, ready: seq<(Fd, Peer)>, limit: nat)
    ensures AcceptAll(s, ready, limit).leaked == s.leaked
    decreases limit
  {
    if limit > 0 && ready != [] {
      AcceptLeaks(Accept(s, ready[0].0, ready[0].1), ready[1..], limit - 1);
    }
  }

  lemma {:induction false} ScanLeaks(s: Net, order: seq<Fd>, recv: Fd -> Transfer)
    requires forall fd <- order :: fd in s.table
    ensures Scan(s, order, recv).0.leaked == s.leaked
    decreases |order|
  {
    if order != [] {
      ScanLeaks(Arm(s, order[0], RDONLY, true), order[1..], recv);
    }
  }

  lemma ReadLeaks(s: Net, order: seq<Fd>, recv: Fd -> Transfer, capacity: nat)
    requires forall fd <- order :: fd in s.table
    ensures ResumeRead(s, order, recv, capacity).0.leaked == s.leaked
  {
    ScanLeaks(s.(hotRead := ""), order, recv);
  }

  lemma WriteLeaks(s: Net, peer: Peer, order: seq<Fd>, answer: Transfer)
    ensures ResumeWrite(s, peer, order, answer).0.leaked == s.leaked
  {
  }

  lemma StepLeaks(s: Net, c: Call)
    requires Valid(s) && Promised(s, c)
    ensures Step(s, c).leaked == s.leaked + if c.DoClose? && s.connecting then {s.client.value} else {}
  {
    match c
    case DoAcceptReady(ready) => AcceptLeaks(s, ready, ACCEPT_BATCH);
    case DoResumeRead(order, recv, capacity) => ReadLeaks(s, order, recv, capacity);
    case DoResumeWrite(to, order, answer) => WriteLeaks(s, to, order, answer);
    case DoBind(_) =>
    case DoConnect(_) =>
    case DoConnectReady(_) =>
    case DoReadReady(_) =>
    case DoWriteReady(_) =>
    case DoSuspendRead =>
    case DoSuspendWrite(_) =>
    case DoClose =>
  }

  /** Fds are leaked exactly by closing while a connect is under way. */
  lemma {:induction false} LeakedIff(s: Net, calls: seq<Call>)
    requires Valid(s) && Kept(s, calls)
    ensures Run(s, calls).leaked == {} <==> s.leaked == {} && !ClosesEarly(s, calls)
    decreases |calls|
  {
    if calls != [] {
      StepValid(s, calls[0]);
      StepLeaks(s, calls[0]);
      LeakedIff(Step(s, calls[0]), calls[1..]);
    }
  }

  /** A whole life: any run from a new transport, then `close`. Nothing is left open exactly if no close came early. */
  lemma LifeLeavesNothing(calls: seq<Call>)
    requires Kept(NEW, calls)
    ensures var s := Run(NEW, calls);
            Valid(s) && Close(s).watched == {} && (Close(s).open == {} <==> !s.connecting && !ClosesEarly(NEW, calls))
  {
    assert Valid(NEW);
    RunValid(NEW, calls);
    LeakedIff(NEW, calls);
    CloseReleasesAllIff(Run(NEW, calls));
  }
}
