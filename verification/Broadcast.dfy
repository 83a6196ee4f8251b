/** Serving one log file to every client that is connected while it is read. */
module Broadcast {

  const FD_SETSIZE: nat := 1024

  type Fd = n: nat | n < FD_SETSIZE

  // One accepted connection: how much of the log had been read by then, what it was sent, and whether it is open.
  datatype Connection = Connection(fd: Fd, since: nat, received: string, open: bool)

  // What accept, and then read and the writes of the byte it returned, come to when select reports them.
  datatype Arrival = NoArrival | AcceptFails | Accepts(fd: Fd)
  datatype Data = NoData | ReadFails | Reads(ch: char, refusing: set<Fd>)

  // What select returns.
  datatype Wake = Timeout | SelectFails | Ready(arrival: Arrival, data: Data)

  datatype State = State(output: set<Fd>, connections: int, fileOpen: bool, log: string, clients: seq<Connection>)

  // Either the loop goes on, or the function has returned.
  datatype Progress = Going(s: State) | Returned(s: State, err: int)

  const START := State({}, 0, true, "", [])

  function Admit(s: State, fd: Fd): State {
    s.(output := s.output + {fd}, connections := s.connections + 1,
    clients := s.clients + [Connection(fd, |s.log|, "", true)])
  }

  function WriteTo(c: Connection, to: set<Fd>, ch: char, refusing: set<Fd>): Connection {
    if !c.open || c.fd !in to then c
    else if c.fd in refusing then c.(open := false)
    else c.(received := c.received + [ch])
  }

  function WriteAll(cs: seq<Connection>, to: set<Fd>, ch: char, refusing: set<Fd>): seq<Connection> {
    seq(|cs|, i requires 0 <= i < |cs| => WriteTo(cs[i], to, ch, refusing))
  }

  function CloseIn(c: Connection, fds: set<Fd>): Connection {
    if c.fd in fds then c.(open := false) else c
  }

  function Send(s: State, ch: char, refusing: set<Fd>): State {
    s.(output := s.output - refusing, connections := s.connections - |s.output * refusing|, log := s.log + [ch],
    clients := WriteAll(s.clients, s.output, ch, refusing))
  }

  function CloseAll(s: State): State {
    s.(output := {}, fileOpen := false,
    clients := seq(|s.clients|, i requires 0 <= i < |s.clients| => CloseIn(s.clients[i], s.output)))
  }

  function Check(s: State): Progress {
    if s.connections > 0 then Going(s) else Returned(CloseAll(s), 0)
  }

  // One turn of the loop.
  function Turn(s: State, w: Wake): Progress {
    match w
    case Timeout => Check(s)
    case SelectFails => Returned(s.(fileOpen := false), -1)
    case Ready(arrival, data) =>
      if arrival.AcceptFails? then Returned(CloseAll(s), -1)
      else
        var s' := if arrival.Accepts? then Admit(s, arrival.fd) else s;
        match data
        case NoData => Check(s')
        case ReadFails => Returned(CloseAll(s'), -1)
        case Reads(ch, refusing) => Check(Send(s', ch, refusing))
  }

  function Run(s: State, schedule: seq<Wake>): Progress
    decreases |schedule|
  {
    if schedule == [] then Going(s)
    else
      match Turn(s, schedule[0])
      case Going(s') => Run(s', schedule[1..])
      case Returned(s', err) => Returned(s', err)
  }

  // The number of turns before the one that returns.
  function TurnsKept(s: State, schedule: seq<Wake>): (n: nat)
    ensures n <= |schedule| && (n == |schedule| <==> Run(s, schedule).Going?)
    decreases |schedule|
  {
    if schedule == [] || Turn(s, schedule[0]).Returned? then 0 else 1 + TurnsKept(Turn(s, schedule[0]).s, schedule[1..])
  }

  // One of the calls reports an error.
  predicate Fails(w: Wake) {
    w.SelectFails? || (w.Ready? && (w.arrival.AcceptFails? || w.data.ReadFails?))
  }

  // ---------------------------------------------------------------- what holds in every run

  // A new descriptor is not one that is open.
  ghost predicate Possible(s: State, w: Wake) {
    w.Ready? && w.arrival.Accepts? ==> forall c | c in s.clients :: c.open ==> c.fd != w.arrival.fd
  }

  ghost predicate AllPossible(s: State, schedule: seq<Wake>)
    decreases |schedule|
  {
    schedule == [] ||
    (Possible(s, schedule[0]) && (Turn(s, schedule[0]).Going? ==> AllPossible(Turn(s, schedule[0]).s, schedule[1..])))
  }

  // A client was sent what was read since it was accepted, in order and without a gap.
  ghost predicate InOrder(c: Connection, log: string) {
    c.since + |c.received| <= |log| && c.received == log[c.since..c.since + |c.received|]
  }

  ghost predicate UpToDate(c: Connection, log: string) {
    InOrder(c, log) && (c.open ==> c.since + |c.received| == |log|)
  }

  ghost predicate Holds(c: Connection, fd: Fd) {
    c.open && c.fd == fd
  }

  ghost predicate Served(clients: seq<Connection>, fd: Fd) {
    exists i :: 0 <= i < |clients| && Holds(clients[i], fd)
  }

  ghost predicate OneEach(clients: seq<Connection>) {
    forall i, j :: 0 <= i < j < |clients| && clients[i].open ==> !Holds(clients[j], clients[i].fd)
  }

  // The descriptors of the output set are those of the open connections, one each.
  ghost predicate Matched(s: State) {
    && (forall i :: 0 <= i < |s.clients| && s.clients[i].open ==> s.clients[i].fd in s.output)
    && (forall fd | fd in s.output :: Served(s.clients, fd))
    && OneEach(s.clients)
  }

  ghost predicate AllUpToDate(clients: seq<Connection>, log: string) {
    forall i :: 0 <= i < |clients| ==> UpToDate(clients[i], log)
  }

  ghost predicate AllInOrder(clients: seq<Connection>, log: string) {
    forall i :: 0 <= i < |clients| ==> InOrder(clients[i], log)
  }

  ghost predicate Invariant(s: State) {
    && s.connections == |s.output|
    && s.fileOpen
    && Matched(s)
    && AllUpToDate(s.clients, s.log)
  }

  ghost predicate AllClosed(s: State) {
    !s.fileOpen && s.output == {} && forall i :: 0 <= i < |s.clients| ==> !s.clients[i].open
  }

  // What may become of a connection: a closed one is left alone.
  ghost predicate Continues(c: Connection, c': Connection) {
    c.fd == c'.fd && c.since == c'.since && c.received <= c'.received && (!c.open ==> c == c')
  }

  ghost predicate Later(s: State, s': State) {
    s.log <= s'.log && |s.clients| <= |s'.clients| &&
    forall i :: 0 <= i < |s.clients| ==> Continues(s.clients[i], s'.clients[i])
  }

  lemma AdmitMatches(s: State, fd: Fd)
    requires Matched(s) && forall c | c in s.clients :: c.open ==> c.fd != fd
    ensures Matched(Admit(s, fd)) && fd !in s.output
  {
    var s' := Admit(s, fd);
    assert Holds(s'.clients[|s.clients|], fd);
    forall d | d in s.output
      ensures Served(s'.clients, d) && d != fd
    {
      var i :| 0 <= i < |s.clients| && Holds(s.clients[i], d);
      assert s.clients[i] in s.clients && Holds(s'.clients[i], d);
    }
    forall i, j | 0 <= i < j < |s'.clients| && s'.clients[i].open
      ensures !Holds(s'.clients[j], s'.clients[i].fd)
    {
      assert s.clients[i] in s.clients;
    }
  }

  lemma SendMatches(s: State, ch: char, refusing: set<Fd>)
    requires Matched(s)
    ensures Matched(Send(s, ch, refusing))
  {
    var s' := Send(s, ch, refusing);
    forall d | d in s'.output
      ensures Served(s'.clients, d)
    {
      var i :| 0 <= i < |s.clients| && Holds(s.clients[i], d);
      assert Holds(s'.clients[i], d);
    }
    forall i, j | 0 <= i < j < |s'.clients| && s'.clients[i].open
      ensures !Holds(s'.clients[j], s'.clients[i].fd)
    {
      assert !Holds(s.clients[j], s.clients[i].fd);
    }
  }

  lemma WriteKeepsUpToDate(c: Connection, to: set<Fd>, ch: char, refusing: set<Fd>, log: string)
    requires UpToDate(c, log) && (c.open ==> c.fd in to)
    ensures UpToDate(WriteTo(c, to, ch, refusing), log + [ch])
    ensures Continues(c, WriteTo(c, to, ch, refusing))
  {
    var c', n := WriteTo(c, to, ch, refusing), c.since + |c.received|;
    assert (log + [ch])[c.since..n] == log[c.since..n];
    if c'.received != c.received {
      assert (log + [ch])[c.since..n + 1] == log[c.since..n] + [ch];
    }
  }

  lemma SendKeepsInvariant(s: State, ch: char, refusing: set<Fd>)
    requires Invariant(s)
    ensures Invariant(Send(s, ch, refusing)) && Later(s, Send(s, ch, refusing))
  {
    SendMatches(s, ch, refusing);
    assert s.output == (s.output - refusing) + s.output * refusing;
    forall i | 0 <= i < |s.clients|
      ensures UpToDate(Send(s, ch, refusing).clients[i], s.log + [ch])
      ensures Continues(s.clients[i], Send(s, ch, refusing).clients[i])
    {
      WriteKeepsUpToDate(s.clients[i], s.output, ch, refusing, s.log);
    }
  }

  lemma AdmitKeepsInvariant(s: State, fd: Fd)
    requires Invariant(s) && forall c | c in s.clients :: c.open ==> c.fd != fd
    ensures Invariant(Admit(s, fd)) && Later(s, Admit(s, fd))
  {
    AdmitMatches(s, fd);
    assert UpToDate(Connection(fd, |s.log|, "", true), s.log);
    assert forall i :: 0 <= i < |s.clients| ==> Admit(s, fd).clients[i] == s.clients[i];
  }

  lemma CloseAllCloses(s: State)
    requires Matched(s) && AllUpToDate(s.clients, s.log)
    ensures var s' := CloseAll(s);
            AllClosed(s') && Later(s, s') && AllInOrder(s'.clients, s'.log)
  {
  }

  lemma LaterComposes(a: State, b: State, c: State)
    requires Later(a, b) && Later(b, c)
    ensures Later(a, c)
  {
    forall i | 0 <= i < |a.clients|
      ensures Continues(a.clients[i], c.clients[i])
    {
      assert Continues(a.clients[i], b.clients[i]) && Continues(b.clients[i], c.clients[i]);
    }
  }

  // What a turn may come to.
  ghost predicate Expected(s: State, p: Progress) {
    && Later(s, p.s)
    && AllInOrder(p.s.clients, p.s.log)
    && (p.Going? ==> Invariant(p.s) && p.s.output != {})
  }

  // How a run ends at a turn: with an error if a call failed, and with everything closed but for the clients
  // of a failed select, which are left as they were.
  ghost predicate Ended(p: Progress, w: Wake)
    requires p.Returned?
  {
    && p.err == (if Fails(w) then -1 else 0)
    && (p.err == 0 ==> p.s.connections == 0)
    && !p.s.fileOpen
    && if w == SelectFails then Invariant(p.s.(fileOpen := true)) else AllClosed(p.s)
  }

  lemma CheckIsExpected(s: State, now: State, w: Wake)
    requires Later(s, now) && Invariant(now) && !Fails(w)
    ensures Expected(s, Check(now)) && (Check(now).Returned? ==> Ended(Check(now), w))
  {
    CloseAllCloses(now);
    if now.connections <= 0 {
      LaterComposes(s, now, CloseAll(now));
    }
  }

  // A turn keeps the invariant or returns; it returns with everything closed unless select failed.
  lemma TurnKeepsInvariant(s: State, w: Wake)
    requires Invariant(s) && Possible(s, w)
    ensures Expected(s, Turn(s, w))
    ensures Turn(s, w).Returned? ==> Ended(Turn(s, w), w)
    ensures Fails(w) ==> Turn(s, w).Returned?
  {
    match w
    case Timeout => CheckIsExpected(s, s, w);
    case SelectFails =>
    case Ready(arrival, data) =>
      if arrival.AcceptFails? {
        CloseAllCloses(s);
      } else {
        var s' := if arrival.Accepts? then Admit(s, arrival.fd) else s;
        if arrival.Accepts? {
          AdmitKeepsInvariant(s, arrival.fd);
        }
        DataKeepsInvariant(s, s', arrival, data);
      }
  }

  lemma DataKeepsInvariant(s: State, s': State, arrival: Arrival, data: Data)
    requires Invariant(s') && Later(s, s') && !arrival.AcceptFails?
    requires s' == if arrival.Accepts? then Admit(s, arrival.fd) else s
    ensures Expected(s, Turn(s, Ready(arrival, data)))
    ensures Turn(s, Ready(arrival, data)).Returned? ==> Ended(Turn(s, Ready(arrival, data)), Ready(arrival, data))
  {
    match data
    case NoData => CheckIsExpected(s, s', Ready(arrival, data));
    case ReadFails =>
      CloseAllCloses(s');
      LaterComposes(s, s', CloseAll(s'));
    case Reads(ch, refusing) =>
      var now := SentIsExpected(s, s', ch, refusing, Ready(arrival, data));
      assert Turn(s, Ready(arrival, data)) == Check(now);
  }

  lemma SentIsExpected(s: State, s': State, ch: char, refusing: set<Fd>, w: Wake) returns (now: State)
    requires Invariant(s') && Later(s, s') && !Fails(w)
    ensures now == Send(s', ch, refusing)
    ensures Expected(s, Check(now)) && (Check(now).Returned? ==> Ended(Check(now), w))
  {
    now := Send(s', ch, refusing);
    SendKeepsInvariant(s', ch, refusing);
    LaterComposes(s, s', now);
    CheckIsExpected(s, now, w);
  }

  // Over every run: at each turn that goes on the counter counts the output set, every connection ever accepted
  // was sent a piece of the log from its accept on, and the open ones all of it; the run ends at the first
  // failing call or with the last client.
  lemma {:induction false} RunKeepsInvariant(s: State, schedule: seq<Wake>)
    requires Invariant(s) && AllPossible(s, schedule)
    ensures Expected(s, Run(s, schedule)) || schedule == []
    ensures forall i :: 0 <= i < TurnsKept(s, schedule) ==> !Fails(schedule[i])
    ensures Run(s, schedule).Returned? ==> Ended(Run(s, schedule), schedule[TurnsKept(s, schedule)])
    decreases |schedule|
  {
    if schedule != [] {
      var p := Turn(s, schedule[0]);
      TurnKeepsInvariant(s, schedule[0]);
      if p.Going? {
        RunKeepsInvariant(p.s, schedule[1..]);
        LaterComposes(s, p.s, Run(p.s, schedule[1..]).s);
      }
    }
  }

  lemma StartIsInvariant()
    ensures Invariant(START)
  {
  }

  // What the service is, over every schedule: while it goes on the invariant holds, and it ends as a run ends.
  lemma ServiceKeepsInvariant(schedule: seq<Wake>)
    requires AllPossible(START, schedule)
    ensures var p := Run(START, schedule);
            && AllInOrder(p.s.clients, p.s.log)
            && (forall i :: 0 <= i < TurnsKept(START, schedule) ==> !Fails(schedule[i]))
            && if p.Going? then Invariant(p.s) && (schedule != [] ==> p.s.output != {})
               else Ended(p, schedule[TurnsKept(START, schedule)])
  {
    StartIsInvariant();
    RunKeepsInvariant(START, schedule);
  }

  // A timeout in front of the first client ends the service.
  lemma FirstTimeoutReturns(schedule: seq<Wake>)
    requires schedule != [] && schedule[0] == Timeout
    ensures Run(START, schedule) == Returned(START.(fileOpen := false), 0)
  {
    assert CloseAll(START) == START.(fileOpen := false);
  }

  // ---------------------------------------------------------------- code

  function Below(fds: set<Fd>, n: nat): set<Fd> {
    set fd | fd in fds && fd < n
  }

  lemma BelowNext(fds: set<Fd>, n: Fd)
    ensures Below(fds, n + 1) == Below(fds, n) + (if n in fds then {n} else {})
    ensures n !in Below(fds, n)
  {
  }

  // One client of the output set, or none, is written to.
  function SendOne(s: State, fd: Fd, ch: char, refusing: set<Fd>): State {
    if fd !in s.output then s
    else if fd in refusing then
      s.(output := s.output - {fd}, connections := s.connections - 1, clients := WriteAll(s.clients, {fd}, ch, refusing))
    else s.(clients := WriteAll(s.clients, {fd}, ch, refusing))
  }

  // The clients below a descriptor are written to.
  function SendBelow(s: State, n: nat, ch: char, refusing: set<Fd>): State {
    s.(output := s.output - Below(refusing, n), connections := s.connections - |s.output * Below(refusing, n)|,
    clients := WriteAll(s.clients, Below(s.output, n), ch, refusing))
  }

  lemma WriteAllNext(cs: seq<Connection>, out: set<Fd>, n: Fd, ch: char, refusing: set<Fd>)
    ensures var now := WriteAll(cs, Below(out, n), ch, refusing);
            (if n in out then WriteAll(now, {n}, ch, refusing) else now) == WriteAll(cs, Below(out, n + 1), ch, refusing)
  {
    BelowNext(out, n);
  }

  // The clients that refuse below n, and what is left of the output set.
  lemma RefusingNext(output: set<Fd>, refusing: set<Fd>, n: Fd)
    ensures var gone, going := output * Below(refusing, n), output * Below(refusing, n + 1);
            && going == (if n in output && n in refusing then gone + {n} else gone)
            && output - Below(refusing, n) == output - gone && output - Below(refusing, n + 1) == output - going
            && n !in gone
  {
    BelowNext(refusing, n);
  }

  lemma SendNext(s: State, n: Fd, ch: char, refusing: set<Fd>)
    ensures SendOne(SendBelow(s, n, ch, refusing), n, ch, refusing) == SendBelow(s, n + 1, ch, refusing)
  {
    RefusingNext(s.output, refusing, n);
    WriteAllNext(s.clients, s.output, n, ch, refusing);
    var gone := s.output * Below(refusing, n);
    assert s.output - (gone + {n}) == s.output - gone - {n};
  }

  lemma SendBelowStarts(s: State, ch: char, refusing: set<Fd>)
    ensures SendBelow(s, 0, ch, refusing) == s
  {
    assert Below(refusing, 0) == {} && Below(s.output, 0) == {};
    assert WriteAll(s.clients, {}, ch, refusing) == s.clients;
  }

  lemma SendBelowEnds(s: State, ch: char, refusing: set<Fd>)
    ensures SendBelow(s.(log := s.log + [ch]), FD_SETSIZE, ch, refusing) == Send(s, ch, refusing)
  {
    assert Below(refusing, FD_SETSIZE) == refusing && Below(s.output, FD_SETSIZE) == s.output;
  }

  class Server {
    var outputSet: set<Fd>
    var nbConnections: int
    var fileOpen: bool
    var log: string
    var clients: seq<Connection>

    constructor ()
      ensures Now() == START.(fileOpen := false)
    {
      outputSet, nbConnections, fileOpen, log, clients := {}, 0, false, "", [];
    }

    ghost function Now(): State
      reads this
    {
      State(outputSet, nbConnections, fileOpen, log, clients)
    }

    // accept, and the client joins the output set.
    method Join(fd: Fd)
      modifies this
      ensures Now() == Admit(old(Now()), fd)
    {
      clients := clients + [Connection(fd, |log|, "", true)];
      outputSet := outputSet + {fd};
      nbConnections := nbConnections + 1;
    }

    // write(fd, &ch, 1) to a client that may refuse it, and is then closed and forgotten.
    method WriteByte(fd: Fd, ch: char, refusing: set<Fd>)
      requires fd in outputSet
      modifies this
      ensures Now() == SendOne(old(Now()), fd, ch, refusing)
    {
      clients := WriteAll(clients, {fd}, ch, refusing);
      if fd in refusing {
        outputSet := outputSet - {fd};
        nbConnections := nbConnections - 1;
      }
    }

    // One turn of the loop over the descriptors.
    method WriteIfMember(fd: Fd, ch: char, refusing: set<Fd>)
      modifies this
      ensures Now() == SendOne(old(Now()), fd, ch, refusing)
    {
      if fd in outputSet {
        WriteByte(fd, ch, refusing);
      }
    }

    // The loop over the descriptors, which takes the state through all that lead from one to the next.
    method WriteToClients(ghost states: nat -> State, ch: char, refusing: set<Fd>)
      requires Now() == states(0)
      requires forall n: Fd :: SendOne(states(n), n, ch, refusing) == states(n + 1)
      modifies this
      ensures Now() == states(FD_SETSIZE)
    {
      var fd := 0;
      while fd < FD_SETSIZE
        invariant fd <= FD_SETSIZE && Now() == states(fd)
      {
        WriteIfMember(fd, ch, refusing);
        fd := fd + 1;
      }
    }

    method SendByte(ch: char, refusing: set<Fd>)
      modifies this
      ensures Now() == Send(old(Now()), ch, refusing)
    {
      SendBelowEnds(Now(), ch, refusing);
      log := log + [ch];
      ghost var s := Now();
      SendBelowStarts(s, ch, refusing);
      forall n: Fd {
        SendNext(s, n, ch, refusing);
      }
      WriteToClients((n: nat) => SendBelow(s, n, ch, refusing), ch, refusing);
    }

    // Every client that is left is closed, and the file.
    method Shut()
      modifies this
      ensures Now() == CloseAll(old(Now()))
    {
      ghost var out, were := outputSet, clients;
      var fd := 0;
      while fd < FD_SETSIZE
        invariant fd <= FD_SETSIZE && fileOpen == old(fileOpen) && log == old(log) && nbConnections == old(nbConnections)
        invariant outputSet == out - Below(out, fd)
        invariant |clients| == |were|
        invariant forall i :: 0 <= i < |were| ==> clients[i] == CloseIn(were[i], Below(out, fd))
      {
        BelowNext(out, fd);
        if fd in outputSet {
          outputSet := outputSet - {fd};
          var before := clients;
          clients := seq(|before|, i requires 0 <= i < |before| => CloseIn(before[i], {fd}));
        }
        fd := fd + 1;
      }
      assert Below(out, FD_SETSIZE) == out;
      fileOpen := false;
    }

    // The service up to its return, or to the end of the schedule if it is still going on then.
    method Serve(opens: bool, schedule: seq<Wake>) returns (err: int, running: bool)
      requires Now() == START.(fileOpen := false)
      modifies this
      ensures !opens ==> err == -1 && !running && Now() == old(Now())
      ensures opens ==> Run(START, schedule) == if running then Going(Now()) else Returned(Now(), err)
    {
      if !opens {
        return -1, false;
      }
      fileOpen := true;
      err := 0;
      running := true;
      var i := 0;
      while running && i < |schedule|
        invariant i <= |schedule|
        invariant running ==> err == 0 && Run(Now(), schedule[i..]) == Run(START, schedule)
        invariant !running ==> Run(START, schedule) == Returned(CloseAll(Now()), err)
      {
        var wake := schedule[i];
        assert schedule[i..][0] == wake && schedule[i..][1..] == schedule[i + 1..];
        i := i + 1;
        match wake
        case Timeout =>
          running := nbConnections > 0;
        case SelectFails =>
          fileOpen := false;
          return -1, false;
        case Ready(arrival, data) =>
          match arrival {
            case AcceptFails =>
              err := -1;
              running := false;
              break;
            case Accepts(fd) => Join(fd);
            case NoArrival =>
          }
          match data {
            case ReadFails =>
              err := -1;
              running := false;
              break;
            case Reads(ch, refusing) => SendByte(ch, refusing);
            case NoData =>
          }
          running := nbConnections > 0;
      }
      if !running {
        Shut();
      }
    }
  }
}
