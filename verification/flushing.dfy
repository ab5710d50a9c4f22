/** How much is read and written by rounds of calls, and whether what waits is watched for writability. */
module Flushing {
  import opened Bytes

  /** What one `recv` or `writev` answers: a count of bytes it would move, "would block", or an error. */
  datatype SysResult = Moved(n: nat) | Blocked | Failed(errno: int)

  const READ_CHUNK: nat := 4096

  const WRITE_ROUNDS: nat := 256

  /** How `onWritable` leaves its loop. */
  datatype Exit = Completed | WouldBlock | Error(errno: int)

  datatype Drained = Drained(moved: nat, exit: Exit)

  /** Writing `size` buffered bytes in at most `rounds` calls. A call that writes nothing uses up a round. */
  function Drain(size: nat, script: seq<SysResult>, rounds: nat): (d: Drained)
    ensures d.moved <= size
    decreases rounds
  {
    if rounds == 0 || size == 0 then Drained(0, Completed)
    else if script == [] then Drained(0, WouldBlock)
    else
      match script[0]
      case Moved(k) =>
        var n := Min(k, size);
        var d := Drain(size - n, script[1..], rounds - 1);
        Drained(n + d.moved, d.exit)
      case Blocked => Drained(0, WouldBlock)
      case Failed(errno) => Drained(0, Error(errno))
  }

  /** What a call that moved nothing because it was refused says. */
  function Refusal(script: seq<SysResult>): Exit {
    if script != [] && script[0].Failed? then Error(script[0].errno) else WouldBlock
  }

  /** One round, and the rounds after it. */
  lemma DrainOnce(size: nat, script: seq<SysResult>, rounds: nat)
    requires size > 0 && rounds > 0
    ensures var answer := if script != [] then script[0] else Blocked;
            if answer.Moved? then
              var n := Min(answer.n, size);
              var d := Drain(size - n, script[1..], rounds - 1);
              Drain(size, script, rounds) == Drained(n + d.moved, d.exit)
            else Drain(size, script, rounds) == Drained(0, Refusal(script))
  {
  }

  /** How many of `size` waiting bytes a run of reads takes: it stops at the first that brings nothing. */
  function Taken(size: nat, script: seq<SysResult>): (n: nat)
    ensures n <= size
  {
    if script == [] || !script[0].Moved? then 0
    else
      var n := Min(Min(script[0].n, READ_CHUNK), size);
      if n == 0 then 0 else n + Taken(size - n, script[1..])
  }

  // ---------- how much is read and written, without the rounds ----------

  /** What the answers offer altogether, each up to `most`. */
  function Offered(script: seq<SysResult>, most: nat): nat {
    if script == [] then 0
    else (if script[0].Moved? then Min(script[0].n, most) else 0) + Offered(script[1..], most)
  }

  /** The first `i` answers bring something, and then none is left or the next brings nothing. */
  ghost predicate BringsUpTo(script: seq<SysResult>, i: nat) {
    && i <= |script| && (forall j | 0 <= j < i :: script[j].Moved? && script[j].n > 0)
    && (i < |script| ==> !script[i].Moved? || script[i].n == 0)
  }

  /** Reading takes what is offered, 4096 bytes at a time, up to the first answer that brings nothing, or all there is. */
  lemma {:induction false} TakenMeans(size: nat, script: seq<SysResult>, i: nat)
    requires BringsUpTo(script, i)
    ensures Taken(size, script) == Min(size, Offered(script[..i], 4096))
    decreases i
  {
    if i > 0 {
      assert script[..i][0] == script[0] && script[..i][1..] == script[1..][..i - 1];
      TakenMeans(size - Min(Min(script[0].n, READ_CHUNK), size), script[1..], i - 1);
    }
  }

  lemma {:induction false} SomeBringsUpTo(script: seq<SysResult>) returns (i: nat)
    ensures BringsUpTo(script, i)
  {
    if script == [] || !script[0].Moved? || script[0].n == 0 {
      i := 0;
    } else {
      var k := SomeBringsUpTo(script[1..]);
      i := k + 1;
      assert forall j | 0 < j < i :: script[j] == script[1..][j - 1];
    }
  }

  lemma {:induction false} OfferedFull(script: seq<SysResult>, most: nat)
    requires forall a <- script :: a.Moved? && a.n >= most
    ensures Offered(script, most) == |script| * most
  {
    if script != [] {
      assert script[0] in script;
      OfferedFull(script[1..], most);
    }
  }

  /** With enough full answers everything that waits is taken. */
  lemma FullReadsTakeAll(size: nat, script: seq<SysResult>)
    requires (forall a <- script :: a.Moved? && a.n >= READ_CHUNK) && size <= |script| * READ_CHUNK
    ensures Taken(size, script) == size
  {
    assert script[..|script|] == script;
    TakenMeans(size, script, |script|);
    OfferedFull(script, READ_CHUNK);
  }

  /** The first `i` answers take bytes or none, and then no answer is left or the next refuses. */
  ghost predicate TakesUpTo(script: seq<SysResult>, i: nat) {
    i <= |script| && (forall j | 0 <= j < i :: script[j].Moved?) && (i < |script| ==> !script[i].Moved?)
  }

  /**
   * Writing moves what the answers take in the rounds there are, before the first refusal, or all that is buffered; it
   * completes if all has moved or no round is left, and otherwise ends as that refusal says.
   */
  lemma {:induction false} DrainMeans(size: nat, script: seq<SysResult>, rounds: nat, i: nat)
    requires TakesUpTo(script, i)
    ensures var d := Drain(size, script, rounds);
            && d.moved == Min(size, Offered(script[..Min(i, rounds)], size))
            && d.exit == if d.moved == size || rounds <= i then Completed
                         else if i < |script| && script[i].Failed? then Error(script[i].errno) else WouldBlock
    decreases i
  {
    if i > 0 && rounds > 0 {
      var n := Min(script[0].n, size);
      var rest := script[1..];
      assert script[..Min(i, rounds)][1..] == rest[..Min(i - 1, rounds - 1)];
      DrainMeans(size - n, rest, rounds - 1, i - 1);
      OfferedUpTo(rest[..Min(i - 1, rounds - 1)], size - n, size);
    }
  }

  /** Capping each answer at less, but no less than what is wanted, does not change what is offered of it. */
  lemma {:induction false} OfferedUpTo(script: seq<SysResult>, less: nat, most: nat)
    requires less <= most
    ensures Min(less, Offered(script, less)) == Min(less, Offered(script, most))
  {
    if script != [] {
      OfferedUpTo(script[1..], less, most);
    }
  }

  // ---------- when a completed flush means an empty buffer ----------

  /** A kernel that never takes zero bytes of a non-empty write. */
  predicate Progress(script: seq<SysResult>) {
    forall a <- script :: a.Moved? ==> a.n > 0
  }

  ghost predicate FlushMeansEmpty(size: nat) {
    forall script | Progress(script) ::
      var d := Drain(size, script, WRITE_ROUNDS);
      d.exit == Completed ==> d.moved == size
  }

  lemma {:induction false} DrainProgress(size: nat, script: seq<SysResult>, rounds: nat)
    requires Progress(script) && size <= rounds
    ensures var d := Drain(size, script, rounds);
            d.exit == Completed ==> d.moved == size
    decreases rounds
  {
    if rounds > 0 && size > 0 && script != [] && script[0].Moved? {
      DrainProgress(size - Min(script[0].n, size), script[1..], rounds - 1);
    }
  }

  /** A kernel that takes one byte at a time. */
  function Dribble(rounds: nat): (script: seq<SysResult>)
    ensures Progress(script)
  {
    if rounds == 0 then [] else [Moved(1)] + Dribble(rounds - 1)
  }

  lemma {:induction false} DrainDribble(size: nat, rounds: nat)
    requires size > rounds
    ensures Drain(size, Dribble(rounds), rounds) == Drained(rounds, Completed)
    decreases rounds
  {
    if rounds > 0 {
      assert Dribble(rounds)[1..] == Dribble(rounds - 1);
      DrainDribble(size - 1, rounds - 1);
    }
  }

  /**
   * The flush callback runs after 256 writes even if bytes are left, and then nobody watches for writability. It
   * means an empty buffer, whatever a progressing kernel answers, exactly when at most 256 bytes were buffered.
   */
  lemma FlushMeansEmptyIff(size: nat)
    ensures FlushMeansEmpty(size) <==> size <= 256
  {
    if size <= WRITE_ROUNDS {
      forall script | Progress(script)
        ensures var d := Drain(size, script, WRITE_ROUNDS); d.exit == Completed ==> d.moved == size
      {
        DrainProgress(size, script, WRITE_ROUNDS);
      }
    } else {
      DrainDribble(size, WRITE_ROUNDS);
      assert Progress(Dribble(WRITE_ROUNDS));
    }
  }

  // ---------- whether waiting bytes are watched ----------

  /** How many bytes wait in the buffer, and whether the watcher watches for writability. */
  datatype Pump = Pump(size: nat, watched: bool)

  /** `write` of `n` bytes, `flush`, and a writable event; the watcher has none if writability is not watched. */
  datatype Move = Put(n: nat) | Flush | Writable(script: seq<SysResult>)

  const EMPTY := Pump(0, false)

  function Pumped(p: Pump, m: Move): Pump {
    match m
    case Put(n) => Pump(p.size + n, p.watched || n > 0)
    case Flush => Pump(p.size, p.watched || p.size > 0)
    case Writable(script) =>
      if !p.watched then p
      else
        var d := Drain(p.size, script, WRITE_ROUNDS);
        Pump(p.size - d.moved, d.exit == WouldBlock)
  }

  function PumpedAll(moves: seq<Move>): Pump {
    if moves == [] then EMPTY else Pumped(PumpedAll(moves[..|moves| - 1]), moves[|moves| - 1])
  }

  /** The writable event ends in completion or an error with bytes left. */
  predicate Stalls(size: nat, script: seq<SysResult>) {
    var d := Drain(size, script, WRITE_ROUNDS);
    d.exit != WouldBlock && d.moved < size
  }

  predicate StallsAt(moves: seq<Move>, k: nat)
    requires k < |moves|
  {
    var p := PumpedAll(moves[..k]);
    moves[k].Writable? && p.watched && Stalls(p.size, moves[k].script)
  }

  /** A move that has writability watched again. */
  predicate Revives(m: Move) {
    m.Flush? || (m.Put? && m.n > 0)
  }

  ghost predicate StalledSince(moves: seq<Move>, k: nat)
    requires k < |moves|
  {
    StallsAt(moves, k) && forall m <- moves[k + 1..] :: !Revives(m)
  }

  lemma StalledLast(moves: seq<Move>)
    requires moves != []
    ensures var n := |moves| - 1;
            (exists k: nat :: k < |moves| && StalledSince(moves, k)) <==>
            StallsAt(moves, n) || (!Revives(moves[n]) && exists k: nat :: k < n && StalledSince(moves[..n], k))
  {
    var n := |moves| - 1;
    forall k: nat | k < n
      ensures StalledSince(moves, k) <==> StalledSince(moves[..n], k) && !Revives(moves[n])
    {
      assert moves[..n][..k] == moves[..k];
      assert moves[k + 1..] == moves[..n][k + 1..] + [moves[n]];
    }
    assert moves[n + 1..] == [];
    assert StalledSince(moves, n) <==> StallsAt(moves, n);
  }

  /**
   * Waiting bytes are watched for writability, over any run of writes, flushes and writable events, except exactly
   * since a writable event that ended in completion or an error with bytes left, and until the next write or flush.
   */
  lemma {:induction false} UnwatchedIffStalled(moves: seq<Move>)
    ensures var p := PumpedAll(moves);
            p.size > 0 && !p.watched <==> exists k: nat :: k < |moves| && StalledSince(moves, k)
  {
    if moves != [] {
      UnwatchedIffStalled(moves[..|moves| - 1]);
      StalledLast(moves);
    }
  }

  predicate NoErrors(script: seq<SysResult>) {
    forall a <- script :: !a.Failed?
  }

  ghost predicate NeverStalls(size: nat) {
    forall script | Progress(script) && NoErrors(script) :: !Stalls(size, script)
  }

  lemma DribbleNeverFails(rounds: nat)
    ensures NoErrors(Dribble(rounds))
  {
  }

  /** No answers of a progressing kernel without errors stall a writable event exactly if at most 256 bytes wait. */
  lemma NeverStallsIff(size: nat)
    ensures NeverStalls(size) <==> size <= 256
  {
    if size <= WRITE_ROUNDS {
      forall script | Progress(script) && NoErrors(script)
        ensures !Stalls(size, script)
      {
        DrainProgress(size, script, WRITE_ROUNDS);
        DrainNoError(size, script, WRITE_ROUNDS);
      }
    } else {
      DrainDribble(size, WRITE_ROUNDS);
      DribbleNeverFails(WRITE_ROUNDS);
      assert Stalls(size, Dribble(WRITE_ROUNDS));
    }
  }

  lemma {:induction false} DrainNoError(size: nat, script: seq<SysResult>, rounds: nat)
    requires NoErrors(script)
    ensures !Drain(size, script, rounds).exit.Error?
    decreases rounds
  {
    if rounds > 0 && size > 0 && script != [] && script[0].Moved? {
      DrainNoError(size - Min(script[0].n, size), script[1..], rounds - 1);
    }
  }
}
