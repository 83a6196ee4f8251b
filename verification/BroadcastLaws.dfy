/** Who is served and for how long: every client from its accept until it refuses a byte. */
module BroadcastLaws {
  import opened Broadcast

  // ---------------------------------------------------------------- what a schedule says

  // The client refuses the byte that is read in this turn.
  predicate Refuses(w: Wake, fd: Fd) {
    w.Ready? && w.data.Reads? && fd in w.data.refusing
  }

  predicate Accepted(w: Wake) {
    w.Ready? && w.arrival.Accepts?
  }

  // The clients that are accepted, and the bytes that are read, in order.
  function Arrivals(ws: seq<Wake>): seq<Fd> {
    if ws == [] then [] else (if Accepted(ws[0]) then [ws[0].arrival.fd] else []) + Arrivals(ws[1..])
  }

  function ByteOf(w: Wake): string {
    if w.Ready? && w.data.Reads? then [w.data.ch] else ""
  }

  function BytesOf(ws: seq<Wake>): string {
    if ws == [] then "" else ByteOf(ws[0]) + BytesOf(ws[1..])
  }

  predicate NoneFails(ws: seq<Wake>) {
    forall i :: 0 <= i < |ws| ==> !Fails(ws[i])
  }

  // No turn from k on brings a refusal of this client.
  predicate NeverRefused(ws: seq<Wake>, k: nat, fd: Fd) {
    forall t :: k <= t < |ws| ==> !Refuses(ws[t], fd)
  }

  // ---------------------------------------------------------------- turns without their ending

  // What a turn does before it looks whether a client is left.
  function Work(s: State, w: Wake): State
    requires !Fails(w)
  {
    match w
    case Timeout => s
    case Ready(arrival, data) =>
      var s' := if arrival.Accepts? then Admit(s, arrival.fd) else s;
      if data.Reads? then Send(s', data.ch, data.refusing) else s'
  }

  function WorkAll(s: State, ws: seq<Wake>): State
    requires NoneFails(ws)
    decreases |ws|
  {
    if ws == [] then s else WorkAll(Work(s, ws[0]), ws[1..])
  }

  ghost predicate WorkPossible(s: State, ws: seq<Wake>)
    requires NoneFails(ws)
    decreases |ws|
  {
    ws == [] || (Possible(s, ws[0]) && WorkPossible(Work(s, ws[0]), ws[1..]))
  }

  lemma TurnIsWork(s: State, w: Wake)
    requires !Fails(w)
    ensures Turn(s, w) == Check(Work(s, w))
  {
  }

  lemma {:induction false} WorkAllJoins(s: State, a: seq<Wake>, b: seq<Wake>)
    requires NoneFails(a + b)
    ensures NoneFails(a) && NoneFails(b) && WorkAll(s, a + b) == WorkAll(WorkAll(s, a), b)
    ensures WorkPossible(s, a + b) ==> WorkPossible(s, a) && WorkPossible(WorkAll(s, a), b)
    decreases |a|
  {
    assert NoneFails(a) && NoneFails(b) by {
      assert forall i :: 0 <= i < |a| ==> a[i] == (a + b)[i];
      assert forall i :: 0 <= i < |b| ==> b[i] == (a + b)[|a| + i];
    }
    if a == [] {
      assert a + b == b;
    } else {
      assert (a + b)[0] == a[0] && (a + b)[1..] == a[1..] + b;
      WorkAllJoins(Work(s, a[0]), a[1..], b);
    }
  }

  // ---------------------------------------------------------------- one turn

  // After a byte is sent, an open connection is closed exactly if it refused; otherwise it got the byte.
  lemma SendClosesRefusing(s: State, ch: char, refusing: set<Fd>, i: nat)
    requires Invariant(s) && i < |s.clients| && s.clients[i].open
    ensures var c, c' := s.clients[i], Send(s, ch, refusing).clients[i];
            && c'.fd == c.fd && c'.since == c.since
            && (c'.open <==> c.fd !in refusing)
            && c'.received == if c.fd in refusing then c.received else c.received + [ch]
  {
  }

  lemma AdmitKeepsClients(s: State, fd: Fd, i: nat)
    requires i < |s.clients|
    ensures Admit(s, fd).clients[i] == s.clients[i]
  {
  }

  // What a turn leaves of the state: the invariant, the bytes read, and every connection but the refusing ones.
  lemma WorkKeeps(s: State, w: Wake)
    requires Invariant(s) && Possible(s, w) && !Fails(w)
    ensures Invariant(Work(s, w)) && Work(s, w).log == s.log + ByteOf(w)
    ensures |Work(s, w).clients| == |s.clients| + if Accepted(w) then 1 else 0
  {
    if w.Ready? {
      var s' := if w.arrival.Accepts? then Admit(s, w.arrival.fd) else s;
      if w.arrival.Accepts? {
        AdmitKeepsInvariant(s, w.arrival.fd);
      }
      if w.data.Reads? {
        SendKeepsInvariant(s', w.data.ch, w.data.refusing);
      }
    }
  }

  // What a turn makes of an open connection.
  ghost predicate Follows(c: Connection, c': Connection, refuses: bool) {
    && c'.fd == c.fd && c'.since == c.since && (c'.open <==> c.open && !refuses)
    && (c.open && refuses ==> c'.received == c.received) && (!c.open ==> c' == c)
  }

  lemma SendFollows(s: State, ch: char, refusing: set<Fd>, i: nat)
    requires Invariant(s) && i < |s.clients|
    ensures Follows(s.clients[i], Send(s, ch, refusing).clients[i], s.clients[i].fd in refusing)
  {
    if s.clients[i].open {
      SendClosesRefusing(s, ch, refusing, i);
    }
  }

  // A connection closes at a turn exactly if it was open and refused.
  lemma WorkClosesRefusing(s: State, w: Wake, i: nat)
    requires Invariant(s) && Possible(s, w) && !Fails(w) && i < |s.clients|
    ensures i < |Work(s, w).clients| && Follows(s.clients[i], Work(s, w).clients[i], Refuses(w, s.clients[i].fd))
  {
    WorkKeeps(s, w);
    if w.Ready? {
      var s' := if w.arrival.Accepts? then Admit(s, w.arrival.fd) else s;
      if w.arrival.Accepts? {
        AdmitKeepsInvariant(s, w.arrival.fd);
        AdmitKeepsClients(s, w.arrival.fd, i);
      }
      if w.data.Reads? {
        SendFollows(s', w.data.ch, w.data.refusing, i);
      }
    }
  }

  // An accepted client is there at the end of its turn, unless it refuses the byte that is read in that turn.
  lemma WorkAdmits(s: State, w: Wake)
    requires Invariant(s) && Possible(s, w) && !Fails(w) && Accepted(w)
    ensures |Work(s, w).clients| == |s.clients| + 1
    ensures var c := Work(s, w).clients[|s.clients|];
            && c.fd == w.arrival.fd && c.since == |s.log| && (c.open <==> !Refuses(w, c.fd))
            && (!c.open ==> c.received == "")
  {
    WorkKeeps(s, w);
    AdmitKeepsInvariant(s, w.arrival.fd);
    if w.data.Reads? {
      SendFollows(Admit(s, w.arrival.fd), w.data.ch, w.data.refusing, |s.clients|);
    }
  }

  // ---------------------------------------------------------------- whole runs

  // Over any number of turns: a connection is open at the end exactly if it was open and never refused since, every
  // accept adds one, and the log holds the bytes that were read.
  lemma {:induction false} WorkAllKeeps(s: State, ws: seq<Wake>)
    requires Invariant(s) && NoneFails(ws) && WorkPossible(s, ws)
    ensures Invariant(WorkAll(s, ws)) && WorkAll(s, ws).log == s.log + BytesOf(ws)
    ensures |WorkAll(s, ws).clients| == |s.clients| + |Arrivals(ws)|
    decreases |ws|
  {
    if ws != [] {
      WorkKeeps(s, ws[0]);
      WorkAllKeeps(Work(s, ws[0]), ws[1..]);
    }
  }

  lemma {:induction false} StaysUntilRefusal(s: State, ws: seq<Wake>, i: nat)
    requires Invariant(s) && NoneFails(ws) && WorkPossible(s, ws) && i < |s.clients|
    ensures i < |WorkAll(s, ws).clients|
    ensures var c, c' := s.clients[i], WorkAll(s, ws).clients[i];
            c'.fd == c.fd && c'.since == c.since && (c'.open <==> c.open && NeverRefused(ws, 0, c.fd)) && (!c.open ==> c' == c)
    decreases |ws|
  {
    if ws != [] {
      WorkKeeps(s, ws[0]);
      WorkClosesRefusing(s, ws[0], i);
      StaysUntilRefusal(Work(s, ws[0]), ws[1..], i);
      assert forall t :: 0 <= t < |ws| - 1 ==> ws[1..][t] == ws[t + 1];
      assert NeverRefused(ws, 0, s.clients[i].fd) <==>
             !Refuses(ws[0], s.clients[i].fd) && NeverRefused(ws[1..], 0, s.clients[i].fd) by {
        assert forall t :: 0 < t < |ws| ==> ws[t] == ws[1..][t - 1];
      }
    }
  }

  lemma NeverRefusedFrom(ws: seq<Wake>, k: nat, fd: Fd)
    requires k < |ws|
    ensures NeverRefused(ws, k, fd) <==> !Refuses(ws[k], fd) && NeverRefused(ws[k + 1..], 0, fd)
  {
    var rest := ws[k + 1..];
    assert forall t :: k < t < |ws| ==> ws[t] == rest[t - k - 1];
    assert forall t :: 0 <= t < |rest| ==> rest[t] == ws[t + k + 1];
  }

  lemma SplitAtTurn(s: State, ws: seq<Wake>, k: nat)
    requires NoneFails(ws) && WorkPossible(s, ws) && k < |ws|
    ensures NoneFails(ws[..k]) && NoneFails(ws[k + 1..]) && WorkPossible(s, ws[..k])
    ensures var a := WorkAll(s, ws[..k]);
            && Possible(a, ws[k]) && WorkPossible(Work(a, ws[k]), ws[k + 1..])
            && WorkAll(s, ws) == WorkAll(Work(a, ws[k]), ws[k + 1..])
  {
    assert ws == ws[..k] + ws[k..] && ws[k..][0] == ws[k] && ws[k..][1..] == ws[k + 1..];
    WorkAllJoins(s, ws[..k], ws[k..]);
  }

  // The client that is accepted at turn k has its own connection, which starts with the bytes read from then on and
  // is open at the end exactly if the client never refused one.
  lemma ArrivalIsServed(s: State, ws: seq<Wake>, k: nat)
    requires Invariant(s) && NoneFails(ws) && WorkPossible(s, ws) && k < |ws| && Accepted(ws[k])
    requires NoneFails(ws[..k])
    ensures var a, r := WorkAll(s, ws[..k]), WorkAll(s, ws);
            && |a.clients| < |r.clients| && a.log == s.log + BytesOf(ws[..k])
            && r.clients[|a.clients|].fd == ws[k].arrival.fd && r.clients[|a.clients|].since == |a.log|
            && (r.clients[|a.clients|].open <==> NeverRefused(ws, k, ws[k].arrival.fd))
  {
    SplitAtTurn(s, ws, k);
    WorkAllKeeps(s, ws[..k]);
    var a := WorkAll(s, ws[..k]);
    WorkKeeps(a, ws[k]);
    WorkAdmits(a, ws[k]);
    StaysUntilRefusal(Work(a, ws[k]), ws[k + 1..], |a.clients|);
    NeverRefusedFrom(ws, k, ws[k].arrival.fd);
  }

  lemma LogJoins(s: State, a: seq<Wake>, b: seq<Wake>)
    requires Invariant(s) && NoneFails(a + b) && WorkPossible(s, a + b) && NoneFails(a)
    ensures WorkAll(s, a + b).log == WorkAll(s, a).log + BytesOf(b) && Invariant(WorkAll(s, a + b))
  {
    WorkAllJoins(s, a, b);
    WorkAllKeeps(s, a);
    WorkAllKeeps(WorkAll(s, a), b);
  }

  lemma LogFrom(s: State, ws: seq<Wake>, k: nat)
    requires Invariant(s) && NoneFails(ws) && WorkPossible(s, ws) && k < |ws| && NoneFails(ws[..k])
    ensures WorkAll(s, ws).log == WorkAll(s, ws[..k]).log + BytesOf(ws[k..]) && Invariant(WorkAll(s, ws))
  {
    assert ws == ws[..k] + ws[k..];
    LogJoins(s, ws[..k], ws[k..]);
  }

  // A client that never refused was sent every byte that was read since its accept.
  lemma ArrivalGetsAll(s: State, ws: seq<Wake>, k: nat)
    requires Invariant(s) && NoneFails(ws) && WorkPossible(s, ws) && k < |ws| && Accepted(ws[k])
    requires NoneFails(ws[..k]) && NeverRefused(ws, k, ws[k].arrival.fd)
    ensures var a, r := WorkAll(s, ws[..k]), WorkAll(s, ws);
            |a.clients| < |r.clients| && r.clients[|a.clients|].received == BytesOf(ws[k..])
  {
    ArrivalIsServed(s, ws, k);
    LogFrom(s, ws, k);
    var a, r := WorkAll(s, ws[..k]), WorkAll(s, ws);
    OpenGotRest(r.clients[|a.clients|], r.log, a.log, BytesOf(ws[k..]));
  }

  lemma OpenGotRest(c: Connection, log: string, before: string, rest: string)
    requires UpToDate(c, log) && c.open && c.since == |before| && log == before + rest
    ensures c.received == rest
  {
    assert log[c.since..] == rest;
  }

  // A client that refused was sent what was read since its accept and before its first refusal, and nothing after.
  lemma RefusingGetsPart(s: State, ws: seq<Wake>, k: nat, t: nat)
    requires Invariant(s) && NoneFails(ws) && WorkPossible(s, ws) && k < t < |ws| && Accepted(ws[k])
    requires NoneFails(ws[..k]) && NeverRefused(ws[..t], k, ws[k].arrival.fd) && Refuses(ws[t], ws[k].arrival.fd)
    ensures var a, r := WorkAll(s, ws[..k]), WorkAll(s, ws);
            |a.clients| < |r.clients| && r.clients[|a.clients|].received == BytesOf(ws[k..t])
  {
    SplitAtTurn(s, ws, t);
    var before := ws[..t];
    assert before[..k] == ws[..k] && before[k..] == ws[k..t];
    ArrivalGetsAll(s, before, k);
    ArrivalIsServed(s, before, k);
    WorkAllKeeps(s, before);
    var i, b := |WorkAll(s, ws[..k]).clients|, WorkAll(s, before);
    WorkKeeps(b, ws[t]);
    WorkClosesRefusing(b, ws[t], i);
    StaysUntilRefusal(Work(b, ws[t]), ws[t + 1..], i);
  }

  // Every connection that is added belongs to an accept.
  lemma {:induction false} ConnectionHasArrived(s: State, ws: seq<Wake>, j: nat) returns (k: nat)
    requires Invariant(s) && NoneFails(ws) && WorkPossible(s, ws) && |s.clients| <= j < |WorkAll(s, ws).clients|
    ensures k < |ws| && Accepted(ws[k]) && NoneFails(ws[..k]) && |WorkAll(s, ws[..k]).clients| == j
    decreases |ws|
  {
    WorkKeeps(s, ws[0]);
    if j == |s.clients| && Accepted(ws[0]) {
      k := 0;
      assert ws[..0] == [];
    } else {
      var i := ConnectionHasArrived(Work(s, ws[0]), ws[1..], j);
      k := i + 1;
      assert ws[..k][0] == ws[0] && ws[..k][1..] == ws[1..][..i];
      assert NoneFails(ws[..k]);
    }
  }

  // ---------------------------------------------------------------- the service

  // The turns that a run takes: one more than those it keeps if it returns.
  function Turns(s: State, schedule: seq<Wake>): (n: nat)
    ensures n <= |schedule|
  {
    var n := TurnsKept(s, schedule);
    if n < |schedule| then n + 1 else n
  }

  // A progress is the work of these turns: it goes on after it, or returns without an error and closes everything
  // because no client is left.
  ghost predicate IsWork(p: Progress, s: State, ws: seq<Wake>) {
    && NoneFails(ws) && WorkPossible(s, ws)
    && match p
       case Going(s') => s' == WorkAll(s, ws)
       case Returned(s', _) => s' == CloseAll(WorkAll(s, ws)) && WorkAll(s, ws).connections <= 0
  }

  lemma IsWorkNext(p: Progress, s: State, ws: seq<Wake>)
    requires ws != [] && !Fails(ws[0]) && Possible(s, ws[0]) && IsWork(p, Work(s, ws[0]), ws[1..])
    ensures IsWork(p, s, ws)
  {
    assert forall i :: 0 < i < |ws| ==> ws[i] == ws[1..][i - 1];
  }

  lemma TurnsNext(s: State, schedule: seq<Wake>)
    requires schedule != []
    ensures var p := Turn(s, schedule[0]);
            && Turns(s, schedule) == 1 + (if p.Going? then Turns(p.s, schedule[1..]) else 0)
            && Run(s, schedule) == if p.Going? then Run(p.s, schedule[1..]) else p
  {
  }

  lemma TakeNext(ws: seq<Wake>, n: nat)
    requires ws != [] && n < |ws|
    ensures ws[..n + 1][0] == ws[0] && ws[..n + 1][1..] == ws[1..][..n]
  {
  }

  // The first turn of such a run fails in nothing.
  lemma FirstTurn(s: State, schedule: seq<Wake>)
    requires Invariant(s) && AllPossible(s, schedule) && schedule != []
    requires Run(s, schedule).Returned? ==> Run(s, schedule).err == 0
    ensures !Fails(schedule[0]) && Possible(s, schedule[0]) && Turn(s, schedule[0]) == Check(Work(s, schedule[0]))
    ensures Invariant(Work(s, schedule[0]))
    ensures Turn(s, schedule[0]).Going? ==> AllPossible(Work(s, schedule[0]), schedule[1..])
  {
    TurnKeepsInvariant(s, schedule[0]);
    TurnIsWork(s, schedule[0]);
    WorkKeeps(s, schedule[0]);
  }

  // The turns of a run that returns at once.
  lemma OneTurnIsWork(s: State, schedule: seq<Wake>)
    requires schedule != [] && !Fails(schedule[0]) && Possible(s, schedule[0])
    requires Turn(s, schedule[0]) == Check(Work(s, schedule[0])) && Turn(s, schedule[0]).Returned?
    ensures IsWork(Run(s, schedule), s, schedule[..1]) && Turns(s, schedule) == 1
  {
    TurnsNext(s, schedule);
    TakeNext(schedule, 0);
    IsWorkNext(Run(s, schedule), s, schedule[..1]);
  }

  lemma MoreTurnsAreWork(s: State, schedule: seq<Wake>, next: State)
    requires schedule != [] && !Fails(schedule[0]) && Possible(s, schedule[0]) && next == Work(s, schedule[0])
    requires Turn(s, schedule[0]) == Going(next)
    requires IsWork(Run(next, schedule[1..]), next, schedule[1..][..Turns(next, schedule[1..])])
    ensures IsWork(Run(s, schedule), s, schedule[..Turns(s, schedule)])
    ensures Turns(s, schedule) == 1 + Turns(next, schedule[1..])
  {
    TurnsNext(s, schedule);
    TakeNext(schedule, Turns(next, schedule[1..]));
    IsWorkNext(Run(s, schedule), s, schedule[..Turns(s, schedule)]);
  }

  // A run that goes on, or that ends without an error, is the work of the turns it takes.
  lemma {:induction false} RunIsWork(s: State, schedule: seq<Wake>)
    requires Invariant(s) && AllPossible(s, schedule)
    requires Run(s, schedule).Returned? ==> Run(s, schedule).err == 0
    ensures IsWork(Run(s, schedule), s, schedule[..Turns(s, schedule)])
    ensures Run(s, schedule).Going? ==> Turns(s, schedule) == |schedule|
    decreases |schedule|
  {
    if schedule != [] {
      FirstTurn(s, schedule);
      TurnsNext(s, schedule);
      var next := Work(s, schedule[0]);
      if Turn(s, schedule[0]).Going? {
        RunIsWork(next, schedule[1..]);
        MoreTurnsAreWork(s, schedule, next);
      } else {
        OneTurnIsWork(s, schedule);
      }
    }
  }

  // The connections of a run that goes on or ends without an error: one for each accept in the turns it takes, and a
  // log of the bytes they read.
  lemma ServiceAdmitsAll(schedule: seq<Wake>)
    requires AllPossible(START, schedule) && (Run(START, schedule).Returned? ==> Run(START, schedule).err == 0)
    ensures var p, ws := Run(START, schedule), schedule[..Turns(START, schedule)];
            p.s.log == BytesOf(ws) && |p.s.clients| == |Arrivals(ws)|
  {
    StartIsInvariant();
    RunIsWork(START, schedule);
    WorkAllKeeps(START, schedule[..Turns(START, schedule)]);
  }

  // While the service goes on, a client is connected exactly if it was accepted and never refused.
  lemma ClientStaysConnected(schedule: seq<Wake>, k: nat)
    requires AllPossible(START, schedule) && Run(START, schedule).Going? && k < |schedule| && Accepted(schedule[k])
    ensures exists i :: 0 <= i < |Run(START, schedule).s.clients| &&
                        IsClientOf(Run(START, schedule).s.clients[i], schedule, k)
  {
    StartIsInvariant();
    RunIsWork(START, schedule);
    assert schedule[..|schedule|] == schedule;
    SplitAtTurn(START, schedule, k);
    ArrivalIsServed(START, schedule, k);
    if NeverRefused(schedule, k, schedule[k].arrival.fd) {
      ArrivalGetsAll(START, schedule, k);
    }
    assert IsClientOf(Run(START, schedule).s.clients[|WorkAll(START, schedule[..k]).clients|], schedule, k);
  }

  // The connection of the client that was accepted at turn k.
  ghost predicate IsClientOf(c: Connection, ws: seq<Wake>, k: nat)
    requires k < |ws| && Accepted(ws[k])
  {
    && c.fd == ws[k].arrival.fd && c.since == |BytesOf(ws[..k])|
    && (c.open <==> NeverRefused(ws, k, c.fd))
    && (c.open ==> c.received == BytesOf(ws[k..]))
  }

  // The service ends without an error only when every client that it accepted has refused.
  lemma EndsWhenAllRefused(schedule: seq<Wake>, k: nat)
    requires AllPossible(START, schedule) && Run(START, schedule).Returned? && Run(START, schedule).err == 0
    requires k < Turns(START, schedule) && Accepted(schedule[k])
    ensures !NeverRefused(schedule[..Turns(START, schedule)], k, schedule[k].arrival.fd)
  {
    var ws := schedule[..Turns(START, schedule)];
    StartIsInvariant();
    RunIsWork(START, schedule);
    SplitAtTurn(START, ws, k);
    WorkAllKeeps(START, ws);
    ArrivalIsServed(START, ws, k);
    var r := WorkAll(START, ws);
    assert r.output == {};
  }

  // As long as it goes on, it has a client that never refused.
  lemma GoesOnForAClient(schedule: seq<Wake>) returns (k: nat)
    requires AllPossible(START, schedule) && Run(START, schedule).Going? && schedule != []
    ensures k < |schedule| && Accepted(schedule[k]) && NeverRefused(schedule, k, schedule[k].arrival.fd)
  {
    StartIsInvariant();
    RunIsWork(START, schedule);
    RunKeepsInvariant(START, schedule);
    assert schedule[..|schedule|] == schedule;
    var r := WorkAll(START, schedule);
    var fd :| fd in r.output;
    assert Served(r.clients, fd);
    var j :| 0 <= j < |r.clients| && Holds(r.clients[j], fd);
    k := ConnectionHasArrived(START, schedule, j);
    ArrivalIsServed(START, schedule, k);
  }
}
