/** Bytes that are owed do get sent: a socket that takes bytes is enough. */
module EventDelivery {
  import opened Common
  import opened EventWakeup

  /** The server takes n steps while the socket takes what it is given. */
  function Moves(n: nat): (run: seq<Action>)
    ensures |run| == n && forall i :: 0 <= i < n ==> run[i] == ServerMoves(false)
  {
    seq(n, _ => ServerMoves(false))
  }

  function Moved(s: State, n: nat): (t: State)
    decreases n
  {
    if n == 0 then s else Moved(ServerStep(s, false), n - 1)
  }

  lemma AfterOne(run: seq<Action>, a: Action)
    ensures After(run + [a]) == Step(After(run), a)
  {
    hide Step, Inv;
    assert (run + [a])[..|run|] == run;
  }

  lemma {:induction false} AfterMoves(run: seq<Action>, n: nat)
    ensures After(run + Moves(n)) == Moved(After(run), n)
    decreases n
  {
    hide After, Inv, ServerStep;
    if n == 0 {
      assert run + Moves(0) == run;
    } else {
      AfterOne(run, ServerMoves(false));
      AfterMoves(run + [ServerMoves(false)], n - 1);
      assert run + Moves(n) == run + [ServerMoves(false)] + Moves(n - 1);
    }
  }

  /** The rest of a send of what is owed. */
  lemma {:induction false} SendingEnds(s: State)
    requires s.server.Sending? && s.server.done < s.owed
    ensures var left := s.owed - s.server.done;
            Moved(s, left) == s.(bytes := s.bytes + left, sent := s.sent + left, server := Reduce(s.owed))
    decreases s.owed - s.server.done
  {
    var t := ServerStep(s, false);
    if t.server.Sending? {
      SendingEnds(t);
    } else {
      assert Moved(t, 0) == t;
    }
  }

  lemma {:induction false} MovedOn(s: State, m: nat, n: nat)
    ensures Moved(s, m + n) == Moved(Moved(s, m), n)
    decreases m
  {
    hide ServerStep;
    if m > 0 {
      MovedOn(ServerStep(s, false), m - 1, n);
    }
  }

  /** A resend sends all that is owed, and stops polling for POLLOUT. */
  lemma ResendSettles(s: State)
    requires s.server.Resend? && s.owed > 0
    ensures Moved(s, s.owed + 3) ==
            s.(bytes := s.bytes + s.owed, sent := s.sent + s.owed, owed := 0, armed := false, server := SIdle)
  {
    var t := ServerStep(s, false);
    assert t == s.(server := Sending(0));
    SendingEnds(t);
    var u := Moved(t, s.owed);
    MovedOn(t, s.owed, 2);
    var v := ServerStep(u, false);
    assert Moved(u, 2) == Moved(v, 1) && Moved(v, 1) == Moved(ServerStep(v, false), 0);
    assert Moved(s, s.owed + 3) == Moved(t, s.owed + 2);
  }

  /** All debts paid, and nothing else done by the server. */
  ghost predicate Paid(s: State, t: State, debt: nat) {
    && t.server.SIdle? && t.owed == 0 && !t.armed
    && t.bytes == s.bytes + debt && t.sent == s.sent + debt
    && t.client == s.client && t.unread == s.unread
  }

  lemma ArmedAtRest(s: State)
    requires Inv(s) && s.server.SIdle?
    ensures s.armed <==> s.owed > 0
    ensures s.owed >= 0
  {
    hide Accounts;
  }

  /** When the socket polls writable, or the next event is refused by a full ring, what is
      owed is sent, and POLLOUT is no longer polled for. */
  lemma {:induction false} DebtsArePaid(run: seq<Action>, a: Action)
    requires var s := After(run); s.server.SIdle? && s.owed > 0
    requires a.Writable? || a.SendRefused?
    ensures var s := After(run); Paid(s, After(run + [a] + Moves(s.owed + 3)), s.owed)
  {
    hide After, ServerStep, Moves, Moved, Inv;
    var s := After(run);
    ArmedAtRest(s);
    AfterOne(run, a);
    AfterMoves(run + [a], s.owed + 3);
    ResendSettles(s.(server := Resend));
  }

  /** An event sent while bytes are owed is announced along with them. */
  lemma {:induction false} NewEventPaysToo(run: seq<Action>, size: nat)
    requires var s := After(run); s.server.SIdle? && s.owed > 0
    ensures var s, t := After(run), After(run + [Send(size)] + Moves(After(run).owed + 5));
            && t.unread == s.unread + [size] && t.committed == s.committed + 1
            && Paid(s.(unread := s.unread + [size]), t, s.owed + 1)
  {
    hide After, Moves;
    var s := After(run);
    AfterOne(run, Send(size));
    AfterMoves(run + [Send(size)], s.owed + 5);
    var u := Step(s, Send(size));
    var v := ServerStep(u, false);
    assert v.server.Resend? && v.owed == s.owed + 1;
    hide ServerStep;
    ResendSettles(v);
    assert Moved(u, s.owed + 5) == Moved(v, s.owed + 4);
  }

  /** An event sent with nothing owed is announced at once, if the socket takes the byte,
      and owed with POLLOUT armed, if not. */
  lemma {:induction false} NewEventAnnounced(run: seq<Action>, size: nat, full: bool)
    requires var s := After(run); s.server.SIdle? && s.owed == 0
    ensures var s := After(run);
            var t := After(run + [Send(size), ServerMoves(full), ServerMoves(full), ServerMoves(full)]);
            && t.server.SIdle? && t.unread == s.unread + [size] && t.client == s.client
            && (full ==> t.owed == 1 && t.armed && t.bytes == s.bytes)
            && (!full ==> t.owed == 0 && !t.armed && t.bytes == s.bytes + 1)
  {
    hide After, Inv, Step;
    var s := After(run);
    ArmedAtRest(s);
    var a, b := Send(size), ServerMoves(full);
    AfterOne(run, a);
    AfterOne(run + [a], b);
    AfterOne(run + [a] + [b], b);
    AfterOne(run + [a] + [b] + [b], b);
    assert run + [a, b, b, b] == run + [a] + [b] + [b] + [b];
    OneEvent(s, size, full);
  }

  lemma OneEvent(s: State, size: nat, full: bool)
    requires s.server.SIdle? && s.owed == 0 && !s.armed
    ensures var b := ServerMoves(full);
            var t := Step(Step(Step(Step(s, Send(size)), b), b), b);
            && t.server.SIdle? && t.unread == s.unread + [size] && t.client == s.client
            && (full ==> t.owed == 1 && t.armed && t.bytes == s.bytes)
            && (!full ==> t.owed == 0 && !t.armed && t.bytes == s.bytes + 1)
  {
    var t := s.(server := Notify, unread := s.unread + [size], committed := s.committed + 1);
    assert Step(s, Send(size)) == t;
    assert ServerStep(t, full) == t.(server := SendOne);
  }

  /** Steps that the server still takes to come to rest. */
  function ToRest(s: State): (n: int) {
    match s.server
    case SIdle => 0
    case Notify => if s.owed > 0 then s.owed + 5 else 2
    case SendOne => 1
    case Arm => 1
    case Resend => s.owed + 3
    case Sending(n) => s.owed - n + 2
    case Reduce(_) => 2
    case Settle => 1
  }

  /** The server always comes to rest, and the client is left as it is. */
  lemma {:induction false} ServerRests(s: State)
    requires Inv(s)
    ensures ToRest(s) >= 0
    ensures var t := Moved(s, ToRest(s));
            Inv(t) && t.server.SIdle? && t.client == s.client && t.bytes >= s.bytes
    decreases ToRest(s)
  {
    hide Accounts;
    if !s.server.SIdle? {
      var t := ServerStep(s, false);
      ServerKeeps(s, false);
      assert ToRest(t) == ToRest(s) - 1;
      ServerRests(t);
    }
  }

  /** The same with the server at rest: the byte is there, or is sent when the socket
      polls writable. */
  lemma {:induction false} ServedAtRest(run: seq<Action>) returns (more: seq<Action>)
    requires After(run).client.AwaitByte? && After(run).server.SIdle?
    ensures forall i :: 0 <= i < |more| ==> more[i] in {ServerMoves(false), Writable, GetByte}
    ensures After(run + more).client.CIdle? && After(run + more).got == After(run).got + 1
  {
    hide After, Moved, ServerStep, Moves, Inv;
    var t := After(run);
    ByteWillCome(run);
    if t.bytes > 0 {
      more := [GetByte];
      AfterOne(run, GetByte);
    } else {
      var n: nat := t.owed + 3;
      DebtsArePaid(run, Writable);
      AfterOne(run, Writable);
      AfterMoves(run + [Writable], n);
      GotStays(Step(t, Writable), n);
      var paid := run + [Writable] + Moves(n);
      AfterOne(paid, GetByte);
      more := [Writable] + Moves(n) + [GetByte];
      assert run + more == paid + [GetByte];
      OnlyMoves(n);
    }
  }

  lemma OnlyMoves(n: nat)
    ensures forall i :: 0 <= i < |Moves(n)| ==> Moves(n)[i] == ServerMoves(false)
  {
  }

  /** A client that waits for its byte gets it as soon as the socket takes bytes: the
      server comes to rest, the byte is there or is sent when the socket polls writable,
      and the client takes it. */
  lemma {:induction false} WaitingClientIsServed(run: seq<Action>) returns (more: seq<Action>)
    requires After(run).client.AwaitByte?
    ensures forall i :: 0 <= i < |more| ==> more[i] in {ServerMoves(false), Writable, GetByte}
    ensures After(run + more).client.CIdle? && After(run + more).got == After(run).got + 1
  {
    hide After, Moved, ServerStep, Moves, Inv, Step;
    var s := After(run);
    ServerRests(s);
    var n: nat := ToRest(s);
    AfterMoves(run, n);
    GotStays(s, n);
    OnlyMoves(n);
    var rest := ServedAtRest(run + Moves(n));
    more := Moves(n) + rest;
    assert run + more == run + Moves(n) + rest;
  }

  lemma {:induction false} GotStays(s: State, n: nat)
    ensures Moved(s, n).got == s.got
    decreases n
  {
    if n > 0 {
      GotStays(ServerStep(s, false), n - 1);
    }
  }

  // ------------------------------------------------------------------- order

  /** The sizes of the events sent, in order. */
  function Offered(run: seq<Action>): (ns: seq<nat>) {
    if run == [] then [] else
      var r, a := run[..|run| - 1], run[|run| - 1];
      Offered(r) + if a.Send? && After(r).server.SIdle? then [a.size] else []
  }

  predicate Takes(s: State, a: Action) {
    a.Recv? && s.client.CIdle? && s.unread != []
  }

  /** The sizes of the events that the client took, in order. */
  function Taken(run: seq<Action>): (ns: seq<nat>) {
    if run == [] then [] else
      var r, a := run[..|run| - 1], run[|run| - 1];
      Taken(r) + if Takes(After(r), a) then [After(r).unread[0]] else []
  }

  /** How many of them are empty. */
  function Empties(ns: seq<nat>): (n: nat) {
    if ns == [] then 0 else Empties(ns[..|ns| - 1]) + One(ns[|ns| - 1] == 0)
  }

  lemma EmptiesMore(ns: seq<nat>, n: nat)
    ensures Empties(ns + [n]) == Empties(ns) + One(n == 0)
  {
    assert (ns + [n])[..|ns|] == ns;
  }

  /** Events are taken in the order they were sent. */
  lemma {:induction false} EventsInOrder(run: seq<Action>)
    ensures Offered(run) == Taken(run) + After(run).unread
    ensures After(run).empties == Empties(Taken(run))
  {
    hide After, Step, Inv, Empties;
    if run == [] {
      AtTheStart();
    } else {
      var r, a := run[..|run| - 1], run[|run| - 1];
      assert run == r + [a];
      EventsInOrder(r);
      AfterOne(r, a);
      var s := After(r);
      StepInOrder(s, a);
      if Takes(s, a) {
        EmptiesMore(Taken(r), s.unread[0]);
      } else {
        assert Taken(run) == Taken(r);
      }
      Requeued(Offered(r), Taken(r), s.unread, if a.Send? && s.server.SIdle? then [a.size] else [],
               if Takes(s, a) then [s.unread[0]] else [], After(run).unread);
    }
  }

  lemma AtTheStart()
    ensures After([]) == INIT && Empties([]) == 0
  {
    hide Inv, Step;
  }

  lemma Requeued(os: seq<nat>, ts: seq<nat>, us: seq<nat>, o: seq<nat>, t: seq<nat>, vs: seq<nat>)
    requires os == ts + us && us + o == t + vs
    ensures os + o == ts + t + vs
  {
    assert os + o == ts + (us + o);
  }

  lemma StepInOrder(s: State, a: Action)
    ensures var t := Step(s, a);
            && s.unread + (if a.Send? && s.server.SIdle? then [a.size] else []) ==
               (if Takes(s, a) then [s.unread[0]] else []) + t.unread
            && t.empties == s.empties + One(Takes(s, a) && s.unread[0] == 0)
  {
  }
}
