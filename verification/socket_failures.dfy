/** Runs in which the socket's promises fail: one for each failing side of the conditions proved elsewhere. */
module SocketFailures {
  import opened SocketSpec
  import opened SocketRuns
  import opened SocketHistory
  import opened SocketAnswers

  lemma First(e: Event)
    ensures Run([e]) == Tick(NEW, 0, e)
  {
    Further([], e);
    assert [] + [e] == [e];
  }

  const END_OF_FILE := ReadResult(0, Eof, [], "")

  // ---------- an end of file, and a stuck write ----------

  function Connecting(): seq<Event> {
    [ConnectReq] + [ConnectRep(Ok)]
  }

  lemma ConnectedRun()
    ensures Run(Connecting()) == NEW.(phase := Connected, answers := map[0 := [Plain(Ok)]])
  {
    First(ConnectReq);
    Further([ConnectReq], ConnectRep(Ok));
    assert Run([ConnectReq]).connectQ == [0] && Run([ConnectReq]).connectQ[1..] == [];
    assert Calls(Run(Connecting()).answers, 0) == [Plain(Ok)];
    assert Run(Connecting()).answers == map[0 := [Plain(Ok)]];
  }

  /** Connected, then a read that meets the end of file: it is never told. */
  lemma EofLosesRead()
    ensures var events := Connecting() + [ReadReq([END_OF_FILE])];
            Run(events).phase.Closed? && Calls(Run(events).answers, 2) == [] && !AllAnswered(events)
  {
    var events := Connecting() + [ReadReq([END_OF_FILE])];
    ConnectedRun();
    Further(Connecting(), ReadReq([END_OF_FILE]));
    var asking := Asking(Run(Connecting()), 2, events[2]);
    assert asking.readQ == [2] && Meets(asking, [END_OF_FILE]);
    EveryRead(asking, [END_OF_FILE], 0);
    ReadCloses(asking, [END_OF_FILE]);
    assert IsRequest(events[2]);
  }

  /** Connected, a write that names a peer, and a ready reply for it: the write is not answered. */
  lemma NamedWriteIsStuck()
    ensures var events := Connecting() + [WriteReq("p", [1], Ok)] + [WriteReadyRep("p", Ok)];
            Run(events).phase.Connected? && Calls(Run(events).answers, 2) == []
  {
    var w := Connecting() + [WriteReq("p", [1], Ok)];
    ConnectedRun();
    Further(Connecting(), WriteReq("p", [1], Ok));
    Further(w, WriteReadyRep("p", Ok));
  }

  // ---------- a stray reply, a failed read, a failed bind ----------

  function Binding(): seq<Event> {
    [BindReq] + [BindRep(Ok, "")]
  }

  lemma BoundRun()
    ensures Run(Binding()) == NEW.(phase := Bound, answers := map[0 := [Answer(Ok, [], "")]])
  {
    First(BindReq);
    Further([BindReq], BindRep(Ok, ""));
    assert Run([BindReq]).bindQ == [0] && Run([BindReq]).bindQ[1..] == [];
    assert Calls(Run(Binding()).answers, 0) == [Answer(Ok, [], "")];
    assert Run(Binding()).answers == map[0 := [Answer(Ok, [], "")]];
  }

  function LeftOver(): seq<Event> {
    Binding() + [WriteReq("p", [1], WouldBlock)] + [CloseReq]
  }

  /** Bound, a write that would block, and a close that answers it and leaves it in the map. */
  lemma WriteIsLeftOver()
    ensures var s := Run(LeftOver());
            s.shut && s.phase.Closed? && s.writeQ == map["p" := 2] && |Calls(s.answers, 2)| == 1
  {
    var w := Binding() + [WriteReq("p", [1], WouldBlock)];
    BoundRun();
    Further(Binding(), WriteReq("p", [1], WouldBlock));
    Further(w, CloseReq);
    var s := Run(w);
    assert s.writeQ == map["p" := 2] && s.writeQ["p"] in s.writeQ.Values;
    CallsGiven(s.answers, Pending(s), Plain(Error), 2);
  }

  /** A ready reply for the write that was left over answers it again. */
  lemma StrayReplyAnswersTwice()
    ensures var events := LeftOver() + [WriteReadyRep("p", Ok)];
            |Calls(Run(events).answers, 2)| == 2 && !WritesAtMostOnce(events)
  {
    var events := LeftOver() + [WriteReadyRep("p", Ok)];
    WriteIsLeftOver();
    Further(LeftOver(), WriteReadyRep("p", Ok));
    assert events[2].WriteReq?;
  }

  /** Bound, and a read for which the transport returns -1 and a failure: its caller is told "ok". */
  lemma FailedReadIsOk()
    ensures var events := Binding() + [ReadReq([ReadResult(0xFFFF_FFFF_FFFF_FFFF, Fatal, [], "")])];
            Calls(Run(events).answers, 2) == [Answer(Ok, [], "")]
  {
    var r := ReadResult(0xFFFF_FFFF_FFFF_FFFF, Fatal, [], "");
    BoundRun();
    Further(Binding(), ReadReq([r]));
    var asking := Asking(Run(Binding()), 2, ReadReq([r]));
    assert asking.readQ == [2] && asking.phase.Bound?;
    assert TransportRead(asking, [r]) == TransportRead(AnswerRead(asking, Answer(Ok, [], "")), []);
  }

  /** A read queued before the bind, a bind that fails, and a close: the read is not answered. */
  lemma FailedBindLosesRead()
    ensures var events := [BindReq] + [ReadReq([])] + [BindRep(Fatal, "")] + [CloseReq];
            Run(events).phase.Closed? && Calls(Run(events).answers, 1) == [] && !AllAnswered(events)
  {
    var r := [BindReq] + [ReadReq([])];
    var f := r + [BindRep(Fatal, "")];
    First(BindReq);
    Further([BindReq], ReadReq([]));
    Further(r, BindRep(Fatal, ""));
    Further(f, CloseReq);
    assert IsRequest((f + [CloseReq])[1]);
  }
}
