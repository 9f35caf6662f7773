/**
 Events of a shared-memory connection: each event goes through a ring and is
 announced by one byte on a socket, so that the client can poll.  Bytes that the
 socket does not take are owed (outstanding_notifiers) and sent when it polls
 writable.  Server and client are interleaved at every shared access.
 */
module EventWakeup {
  import opened Common

  /** Where the server is.  A send either takes nothing (EAGAIN) or goes on, byte by
      byte, until everything is taken. */
  datatype Server =
    | SIdle
    | Notify              // event committed: new_event_notification
    | SendOne             // nothing was owed: about to send one byte
    | Arm                 // it was not taken and is owed: about to poll for POLLOUT
    | Resend              // resend_event_notifications: about to send what is owed
    | Sending(done: nat)  // in the middle of that send
    | Reduce(done: nat)   // about to subtract what was sent
    | Settle              // about to see whether anything is still owed

  datatype Client = CIdle | AwaitByte  // AwaitByte: has the event, waits for its byte

  /** The fields from `committed` on are history: events put into the ring, bytes put
      into the socket, events and bytes taken out, events of length 0 taken out. */
  datatype State = State(
    server: Server, client: Client, owed: int, armed: bool, unread: seq<nat>, bytes: nat,
    committed: nat, sent: nat, taken: nat, got: nat, empties: nat)

  datatype Action =
    | Send(size: nat)          // qb_ipcs_event_send, the ring takes the event
    | SendRefused              // qb_ipcs_event_send, the ring is full
    | Writable                 // the loop reports POLLOUT
    | ServerMoves(full: bool)  // the server's next step; `full`: the socket takes nothing
    | Recv                     // qb_ipcc_event_recv takes an event, if there is one
    | GetByte                  // qb_ipcc_event_recv takes a byte, if there is one

  const INIT := State(SIdle, CIdle, 0, false, [], 0, 0, 0, 0, 0, 0)

  /** An action that is not enabled leaves the state as it is. */
  function Step(s: State, a: Action): (t: State) {
    match a
    case Send(n) =>
      if s.server.SIdle? then s.(server := Notify, unread := s.unread + [n], committed := s.committed + 1) else s
    case SendRefused => if s.server.SIdle? && s.owed > 0 then s.(server := Resend) else s
    case Writable => if s.server.SIdle? && s.armed then s.(server := Resend) else s
    case ServerMoves(full) => ServerStep(s, full)
    case Recv =>
      if s.client.CIdle? && s.unread != [] then
        if s.unread[0] > 0 then s.(unread := s.unread[1..], taken := s.taken + 1, client := AwaitByte)
        else s.(unread := s.unread[1..], taken := s.taken + 1, empties := s.empties + 1)
      else s
    case GetByte =>
      if s.client.AwaitByte? && s.bytes > 0 then s.(client := CIdle, bytes := s.bytes - 1, got := s.got + 1) else s
  }

  function ServerStep(s: State, full: bool): (t: State) {
    match s.server
    case SIdle => s
    case Notify => if s.owed > 0 then s.(owed := s.owed + 1, server := Resend) else s.(server := SendOne)
    case SendOne =>
      if full then s.(owed := s.owed + 1, server := Arm)
      else s.(bytes := s.bytes + 1, sent := s.sent + 1, server := SIdle)
    case Arm => s.(armed := true, server := SIdle)
    case Resend => if s.owed > 0 && !full then s.(server := Sending(0)) else s.(server := Settle)
    case Sending(n) =>
      s.(bytes := s.bytes + 1, sent := s.sent + 1,
         server := if n + 1 < s.owed then Sending(n + 1) else Reduce(n + 1))
    case Reduce(n) => s.(owed := s.owed - n, server := Settle)
    case Settle => s.(armed := s.armed && s.owed != 0, server := SIdle)
  }

  // ---------------------------------------------------------------- invariant

  /** Bytes announced but not yet in the socket. */
  function Due(s: State): (n: int) {
    match s.server
    case Notify => s.owed + 1
    case SendOne => s.owed + 1
    case Sending(n) => s.owed - n
    case Reduce(n) => s.owed - n
    case _ => s.owed
  }

  /** POLLOUT is polled for while bytes are owed. */
  predicate ArmedWhileOwed(s: State) {
    s.owed >= 0 &&
    match s.server
    case SendOne => s.owed == 0 && !s.armed
    case Arm => s.owed == 1 && !s.armed
    case Resend => s.owed > 0 && s.armed
    case Sending(n) => n < s.owed && s.armed
    case Reduce(n) => n == s.owed && s.armed
    case Settle => s.armed
    case _ => s.armed <==> s.owed > 0
  }

  /** Every event and every byte is somewhere. */
  predicate Accounts(s: State) {
    && s.committed == s.sent + Due(s) && s.committed == s.taken + |s.unread|
    && s.sent == s.got + s.bytes && s.taken == s.got + One(s.client.AwaitByte?) + s.empties
  }

  predicate Inv(s: State) {
    ArmedWhileOwed(s) && Accounts(s)
  }

  lemma ServerArmed(s: State, full: bool)
    requires ArmedWhileOwed(s)
    ensures ArmedWhileOwed(ServerStep(s, full))
  {
  }

  lemma ServerAccounts(s: State, full: bool)
    requires ArmedWhileOwed(s) && Accounts(s)
    ensures Accounts(ServerStep(s, full))
  {
  }

  lemma ServerKeeps(s: State, full: bool)
    requires Inv(s)
    ensures Inv(ServerStep(s, full))
  {
    hide ServerStep, ArmedWhileOwed, Accounts;
    ServerArmed(s, full);
    ServerAccounts(s, full);
  }

  lemma StepKeeps(s: State, a: Action)
    requires Inv(s)
    ensures Inv(Step(s, a))
  {
    hide ServerStep;
    if a.ServerMoves? {
      ServerKeeps(s, a.full);
    }
  }

  lemma InitInv()
    ensures Inv(INIT)
  {
  }

  function After(run: seq<Action>): (s: State)
    ensures Inv(s)
  {
    hide Step, Inv;
    InitInv();
    if run == [] then INIT else
      var s := After(run[..|run| - 1]);
      StepKeeps(s, run[|run| - 1]);
      Step(s, run[|run| - 1])
  }

  // ----------------------------------------------------------------- results

  /** Between calls of the server, every event committed has had its byte sent or is
      owed one, and POLLOUT is polled for exactly while bytes are owed. */
  lemma WakeupsConserved(run: seq<Action>)
    ensures var s := After(run); s.server.SIdle? ==> s.committed == s.sent + s.owed && (s.owed > 0 <==> s.armed)
  {
    hide After;
  }

  /** The assertions in both notification functions hold. */
  lemma AssertsHold(run: seq<Action>)
    ensures After(run).owed >= 0
  {
    hide After;
  }

  /** Bytes and events the client has not taken.  A byte is taken with every event but
      the empty ones, so the bytes are at most the unread events if and only if the
      empty events taken are no more than the bytes still due. */
  lemma BytesAgainstEvents(run: seq<Action>)
    ensures var s := After(run);
            s.bytes + Due(s) == |s.unread| + One(s.client.AwaitByte?) + s.empties &&
            (s.client.CIdle? ==> (s.bytes <= |s.unread| <==> s.empties <= Due(s)))
  {
    hide After;
  }

  predicate NoEmptyEvents(run: seq<Action>) {
    forall i :: 0 <= i < |run| && run[i].Send? ==> run[i].size > 0
  }

  predicate AllFull(s: State) {
    s.empties == 0 && forall i :: 0 <= i < |s.unread| ==> s.unread[i] > 0
  }

  lemma StepAllFull(s: State, a: Action)
    requires AllFull(s) && (a.Send? ==> a.size > 0)
    ensures AllFull(Step(s, a))
  {
  }

  lemma {:induction false} NoEmpties(run: seq<Action>)
    requires NoEmptyEvents(run)
    ensures AllFull(After(run))
  {
    hide AllFull, Step, Inv;
    if run == [] {
      assert AllFull(INIT) by { NoneYet(); }
    } else {
      NoEmpties(run[..|run| - 1]);
      StepAllFull(After(run[..|run| - 1]), run[|run| - 1]);
    }
  }

  lemma NoneYet()
    ensures AllFull(INIT)
  {
  }

  /** Unless events of length 0 are sent, an idle client never has more bytes than
      events before it. */
  lemma NeverMoreBytesThanEvents(run: seq<Action>)
    requires NoEmptyEvents(run)
    ensures After(run).client.CIdle? ==> After(run).bytes <= |After(run).unread|
  {
    hide After;
    NoEmpties(run);
  }

  /** A client that waits for its byte will get it: it is in the socket, or the server
      is on its way to send it, or polls for the socket to take it. */
  lemma ByteWillCome(run: seq<Action>)
    requires After(run).client.AwaitByte?
    ensures After(run).bytes > 0 || !After(run).server.SIdle? || (After(run).owed > 0 && After(run).armed)
  {
    hide After;
  }

  /** An event that is unread while both sides rest has its byte in the socket or owed. */
  lemma NoEventUnannounced(run: seq<Action>)
    requires After(run).server.SIdle? && After(run).client.CIdle? && After(run).unread != []
    ensures After(run).bytes > 0 || After(run).armed
  {
    hide After;
  }

  /** An empty event leaves its byte behind. */
  lemma EmptyEventStrandsAByte()
    ensures exists run :: After(run).client.CIdle? && After(run).unread == [] && After(run).bytes == 1
  {
    hide Inv;
    var a, b, c, d := Send(0), ServerMoves(false), ServerMoves(false), Recv;
    var run := [a, b, c, d];
    assert run[..3] == [a, b, c] && [a, b, c][..2] == [a, b] && [a, b][..1] == [a] && [a][..0] == [];
    assert After([a]) == Step(INIT, a);
    assert After([a, b]) == Step(After([a]), b);
    assert After([a, b, c]) == Step(After([a, b]), c);
    assert After(run) == Step(After([a, b, c]), d);
  }
}
