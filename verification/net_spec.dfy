/** The connections of the socket's TCP transport on values: two indexes, armed flags, hot peers, what is watched. */
module NetSpec {

  datatype IOStatus = Ok | WouldBlock | Fatal | Error | Eof

  datatype Flag = RDONLY | WRONLY

  type Peer = string

  type Fd = nat

  datatype Option<+T> = None | Some(value: T)

  datatype Connection = Connection(fd: Fd, peer: Peer, readArmed: bool, writeArmed: bool) {

    predicate IsArmed(flag: Flag) {
      if flag.RDONLY? then readArmed else writeArmed
    }

    function With(flag: Flag, on: bool): Connection {
      if flag.RDONLY? then this.(readArmed := on) else this.(writeArmed := on)
    }
  }

  /**
   * `watched` and `open` are outside the transport: what the watcher watches for it, and the fds it has open.
   * `connecting` records that a connect is under way on `client`; `leaked` are fds left open and forgotten.
   */
  datatype Net = Net(
    listen: Option<Fd>, client: Option<Fd>, connecting: bool, connected: bool, hotRead: Peer, hotWrite: Peer,
    fdByPeer: map<Peer, Fd>, table: map<Fd, Connection>, watched: set<(Fd, Flag)>, open: set<Fd>,
    leaked: set<Fd>)

  const NEW := Net(None, None, false, false, "", "", map[], map[], {}, {}, {})

  type Positive = n: nat | n > 0 witness 1

  /** One answer of `recv` or `send`: a positive count, a zero, "try again", or another error. */
  datatype Transfer = Moved(n: Positive) | Zero | Again | Broken

  /** A call's result; `n` is a `size_t`. */
  datatype Outcome = Outcome(status: IOStatus, n: nat, peer: Peer)

  /** `size_t` of -1. */
  const MINUS_ONE: nat := 0xFFFF_FFFF_FFFF_FFFF

  const ACCEPT_BATCH: nat := 10

  // ---------- one connection ----------

  /** `watchRead`, `unwatchRead` and the like: nothing happens if the flag is already as wanted. */
  function Arm(s: Net, fd: Fd, flag: Flag, on: bool): Net
    requires fd in s.table
  {
    if s.table[fd].IsArmed(flag) == on then s
    else s.(watched := if on then s.watched + {(fd, flag)} else s.watched - {(fd, flag)},
            table := s.table[fd := s.table[fd].With(flag, on)])
  }

  function Add(s: Net, fd: Fd, peer: Peer): Net {
    s.(table := s.table[fd := Connection(fd, peer, false, false)], fdByPeer := s.fdByPeer[peer := fd])
  }

  function Drop(s: Net, fd: Fd): Net
    requires fd in s.table
  {
    var peer := s.table[fd].peer;
    s.(open := s.open - {fd}, table := s.table - {fd}, fdByPeer := s.fdByPeer - {peer},
       hotRead := if s.hotRead == peer then "" else s.hotRead,
       hotWrite := if s.hotWrite == peer then "" else s.hotWrite)
  }

  function Release(s: Net, fd: Fd): Net {
    if fd !in s.table then s else Drop(Arm(Arm(s, fd, RDONLY, false), fd, WRONLY, false), fd)
  }

  // ---------- setting up ----------

  /** `bind`, with the listener's fd, or none if one of its steps failed. */
  function Bind(s: Net, fd: Option<Fd>): Net {
    if fd.None? then s.(listen := None)
    else s.(listen := fd, open := s.open + {fd.value}, watched := s.watched + {(fd.value, RDONLY)})
  }

  /** `connect`, with the client's fd, or none if it could not be started. */
  function Connect(s: Net, fd: Option<Fd>): Net {
    if fd.None? then s.(client := None, connecting := false)
    else s.(client := fd, connecting := true, open := s.open + {fd.value}, watched := s.watched + {(fd.value, WRONLY)})
  }

  /** The outcome of a connect: the socket's endpoint, or none if it failed. */
  function ConnectReady(s: Net, peer: Option<Peer>): Net
    requires s.client.Some?
  {
    var fd := s.client.value;
    var t := s.(connecting := false, watched := s.watched - {(fd, WRONLY)});
    if peer.None? then t.(client := None, open := t.open - {fd})
    else Add(t, fd, peer.value).(connected := true)
  }

  function Accept(s: Net, fd: Fd, peer: Peer): Net {
    Arm(Add(s.(open := s.open + {fd}), fd, peer), fd, RDONLY, true)
  }

  /** The batch of accepts the kernel has ready; at most ten are taken. */
  function AcceptAll(s: Net, ready: seq<(Fd, Peer)>, limit: nat): Net
    decreases limit
  {
    if limit == 0 || ready == [] then s
    else AcceptAll(Accept(s, ready[0].0, ready[0].1), ready[1..], limit - 1)
  }

  // ---------- reading ----------

  function ReadReady(s: Net, fd: Fd): Net {
    if fd in s.table then s.(hotRead := s.table[fd].peer) else s
  }

  function WriteReady(s: Net, fd: Fd): Net {
    if fd in s.table then s.(hotWrite := s.table[fd].peer) else s
  }

  /** The connection of the hot peer, if looking it up in both indexes succeeds. */
  function HotFd(s: Net): Option<Fd> {
    if s.hotRead != "" && s.hotRead in s.fdByPeer && s.fdByPeer[s.hotRead] in s.table then Some(s.fdByPeer[s.hotRead])
    else None
  }

  /** Reading from the hot peer; a full buffer keeps it hot. */
  function ReadHot(s: Net, fd: Fd, answer: Transfer, capacity: nat): (Net, Outcome)
    requires fd in s.table
  {
    var cold := s.(hotRead := "");
    match answer
    case Moved(n) => (if n < capacity then cold else s, Outcome(Ok, n, s.table[fd].peer))
    case Zero => (Release(cold, fd), Outcome(Eof, 0, ""))
    case Again => (Arm(cold, fd, RDONLY, true), Outcome(WouldBlock, 0, ""))
    case Broken => (Release(cold, fd), Outcome(Fatal, MINUS_ONE, ""))
  }

  /** Scanning all connections, in the order the table happens to have, until one brings something. */
  function Scan(s: Net, order: seq<Fd>, recv: Fd -> Transfer): (Net, Outcome)
    requires forall fd <- order :: fd in s.table
    decreases |order|
  {
    if order == [] then (s, Outcome(WouldBlock, 0, ""))
    else
      var fd := order[0];
      var t := Arm(s, fd, RDONLY, true);
      match recv(fd)
      case Moved(n) => (t, Outcome(Ok, n, s.table[fd].peer))
      case Zero => (Release(t, fd), Outcome(Eof, 0, ""))
      case Again => Scan(t, order[1..], recv)
      case Broken => (Release(t, fd), Outcome(Fatal, MINUS_ONE, ""))
  }

  /** An order in which every connection comes once. */
  ghost predicate IsOrder(s: Net, order: seq<Fd>) {
    (forall fd :: fd in order <==> fd in s.table) && forall i, j | 0 <= i < j < |order| :: order[i] != order[j]
  }

  function ResumeRead(s: Net, order: seq<Fd>, recv: Fd -> Transfer, capacity: nat): (Net, Outcome)
    requires forall fd <- order :: fd in s.table
  {
    if HotFd(s).Some? then ReadHot(s, HotFd(s).value, recv(HotFd(s).value), capacity)
    else Scan(s.(hotRead := ""), order, recv)
  }

  /** Every connection disarmed for reading. */
  function SuspendRead(s: Net): Net {
    s.(table := map fd | fd in s.table :: s.table[fd].With(RDONLY, false),
       watched := set w | w in s.watched && !(w.1.RDONLY? && w.0 in s.table && s.table[w.0].readArmed))
  }

  // ---------- writing ----------

  /** The connection a write goes to: that of its peer, else the client's, else the only one there is. */
  function Target(s: Net, peer: Peer, order: seq<Fd>): Option<Fd> {
    if peer != "" then
      if peer in s.fdByPeer && s.fdByPeer[peer] in s.table then Some(s.fdByPeer[peer]) else None
    else if s.connected && s.client.Some? && s.client.value in s.table then s.client
    else if |s.table| == 1 && order != [] && order[0] in s.table then Some(order[0])
    else None
  }

  function ResumeWrite(s: Net, peer: Peer, order: seq<Fd>, answer: Transfer): (Net, Outcome) {
    var target := Target(s, peer, order);
    if target.None? then (s, Outcome(if peer != "" then Fatal else Error, MINUS_ONE, ""))
    else
      var fd := target.value;
      match answer
      case Moved(n) => (s, Outcome(Ok, n, ""))
      case Zero => (Release(s, fd), Outcome(Eof, 0, ""))
      case Again => (if fd in s.table then Arm(s, fd, WRONLY, true) else s, Outcome(WouldBlock, 0, ""))
      case Broken => (Release(s, fd), Outcome(Fatal, MINUS_ONE, ""))
  }

  function SuspendWrite(s: Net, peer: Peer): Net {
    if peer in s.fdByPeer && s.fdByPeer[peer] in s.table then Arm(s, s.fdByPeer[peer], WRONLY, false) else s
  }

  // ---------- closing ----------

  function ArmedKeys(s: Net): set<(Fd, Flag)> {
    set w | w in s.watched && w.0 in s.table && s.table[w.0].IsArmed(w.1)
  }

  /** The listener is unwatched and closed, a client unwatched and forgotten. */
  function CloseEnds(s: Net): Net {
    var a := if s.listen.None? then s
             else s.(listen := None, watched := s.watched - {(s.listen.value, RDONLY)},
                     open := s.open - {s.listen.value});
    if a.client.None? then a
    else a.(client := None, connecting := false, watched := a.watched - {(a.client.value, WRONLY)},
            leaked := if a.connecting then a.leaked + {a.client.value} else a.leaked)
  }

  /** Then all connections are unwatched and closed. */
  function Close(s: Net): Net {
    var b := CloseEnds(s);
    b.(watched := b.watched - ArmedKeys(b), open := b.open - b.table.Keys, table := map[], fdByPeer := map[],
       hotRead := "", hotWrite := "")
  }
}
