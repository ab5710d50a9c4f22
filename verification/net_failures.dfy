/** Where the transport's promises fail: the exact condition on peers, and runs for each failing side. */
module NetFailures {
  import opened NetSpec
  import opened NetRuns

  /** A peer that comes back while still indexed breaks the indexes; any other keeps them. */
  lemma AcceptValidIff(s: Net, fd: Fd, peer: Peer)
    requires Valid(s) && fd !in s.open && peer != ""
    ensures Valid(Accept(s, fd, peer)) <==> peer !in s.fdByPeer
  {
    if peer in s.fdByPeer {
      AcceptTable(s, fd, peer);
      var earlier := s.fdByPeer[peer];
      assert earlier in Accept(s, fd, peer).table && s.table[earlier].peer == peer && earlier != fd;
    } else {
      AcceptValid(s, fd, peer);
    }
  }

  /** Releasing the earlier connection of such a peer then hides the new one: no write to the peer reaches it. */
  lemma ReconnectedPeerIsLost(s: Net, fd: Fd, peer: Peer, order: seq<Fd>)
    requires Valid(s) && fd !in s.open && peer != "" && peer in s.fdByPeer
    ensures var t := Release(Accept(s, fd, peer), s.fdByPeer[peer]);
            fd in t.table && t.table[fd].peer == peer && Target(t, peer, order) == None
  {
    var earlier, u := s.fdByPeer[peer], Accept(s, fd, peer);
    AcceptTable(s, fd, peer);
    assert s.table[earlier].peer == peer && earlier != fd;
    ReleaseIndexes(u, earlier);
  }

  const BATCH: seq<(Fd, Peer)> := [(4, "a"), (5, "b")]

  lemma TwoAccepted()
    ensures var calls := [] + [DoBind(Some(3))] + [DoAcceptReady(BATCH)];
            && Kept(NEW, calls)
            && var s := Run(NEW, calls);
               && s.table == map[4 := Connection(4, "a", true, false), 5 := Connection(5, "b", true, false)]
               && s.fdByPeer == map["a" := 4, "b" := 5] && s.hotRead == ""
  {
    var a := Bind(NEW, Some(3));
    RunMore(NEW, [], DoBind(Some(3)));
    RunMore(NEW, [] + [DoBind(Some(3))], DoAcceptReady(BATCH));
    AcceptTable(a, 4, "a");
    AcceptTable(Accept(a, 4, "a"), 5, "b");
    assert BATCH[1..] == [(5, "b")] && BATCH[1..][1..] == [];
    assert AcceptAll(a, BATCH, ACCEPT_BATCH) == Accept(Accept(a, 4, "a"), 5, "b");
  }

  function NoBytes(fd: Fd): Transfer {
    Again
  }

  lemma OneUnarmed(s: Net, order: seq<Fd>)
    requires HotFd(s) == Some(4) && 5 in s.table && !s.table[5].readArmed && forall fd <- order :: fd in s.table
    ensures var (t, out) := ResumeRead(s, order, NoBytes, 1024);
            out.status.WouldBlock? && !AllReadArmed(t)
  {
    var t := Arm(s.(hotRead := ""), 4, RDONLY, true);
    assert 5 in t.table && !t.table[5].readArmed;
  }

  /** Two connections, of which one is hot and all are suspended: a read that would block arms the hot one alone. */
  lemma BlockedReadLeavesOneUnarmed()
    ensures var calls := [] + [DoBind(Some(3))] + [DoAcceptReady(BATCH)] + [DoReadReady(4)] + [DoSuspendRead];
            && Kept(NEW, calls) && IsOrder(Run(NEW, calls), [4, 5])
            && var (t, out) := ResumeRead(Run(NEW, calls), [4, 5], NoBytes, 1024);
               out.status.WouldBlock? && !AllReadArmed(t)
  {
    var two := [] + [DoBind(Some(3))] + [DoAcceptReady(BATCH)];
    TwoAccepted();
    RunMore(NEW, two, DoReadReady(4));
    RunMore(NEW, two + [DoReadReady(4)], DoSuspendRead);
    var s := SuspendRead(ReadReady(Run(NEW, two), 4));
    OneUnarmed(s, [4, 5]);
  }

  /** A connect that is closed before its outcome is known leaves its fd open. */
  lemma PendingConnectLeaks()
    ensures var calls := [] + [DoConnect(Some(3))] + [DoClose];
            Kept(NEW, calls) && Run(NEW, calls).open == {3} && Run(NEW, calls).client == None
  {
    RunMore(NEW, [], DoConnect(Some(3)));
    RunMore(NEW, [] + [DoConnect(Some(3))], DoClose);
    assert 3 in Close(Connect(NEW, Some(3))).open;
  }
}
