/** The pool of socket connections, step by step: one lock, two shared maps, and per user a goroutine
    that takes connection ids from an unbuffered channel. Map operations are atomic steps. */
module ConnectionPool {

  /** Where the goroutine of a user object is (runUpdateExchange). */
  datatype Pc =
    | Selecting             // waiting in the select
    | Closing(conn: nat)    // received conn, has not removed it yet
    | Removed               // removed conn, has not looked at the number of connections yet
    | WantsLock             // found no connections, asks for the lock to leave the pool
    | Exited

  /** A *SocketIOUser. */
  datatype Client = Client(userID: string, conns: set<nat>, pc: Pc)

  /** Who holds the lock of the pool. Holders that finish without waiting are single steps. */
  datatype Lock =
    | Free
    | Connecting(conn: nat, obj: nat)  // OnConnection: the user object is found or made
    | Sending(conn: nat, obj: nat)     // removeUserConn: sends conn to the goroutine of the object

  /** Objects are numbered in the order they are made; `used` are the connection ids seen so far. */
  datatype Pool = Pool(
    objs: seq<Client>,
    users: map<string, nat>,
    closeChByConnID: map<nat, nat>,
    lock: Lock,
    used: set<nat>)

  datatype Action =
    | Connect(conn: nat, userID: string)  // takes the lock and looks the user up
    | Register                            // stores the connection and releases the lock
    | Disconnect(conn: nat)               // takes the lock and looks the channel up
    | Rendezvous                          // the goroutine receives; the sender releases the lock
    | Close(obj: nat)                     // the goroutine closes and removes the connection
    | CheckEmpty(obj: nat)                // the goroutine looks whether connections are left
    | Leave(obj: nat)                     // the goroutine takes the lock, removes its user, exits

  predicate Enabled(p: Pool, a: Action) {
    match a
    case Connect(conn, _) => p.lock == Free && conn !in p.used
    case Register => p.lock.Connecting? && p.lock.obj < |p.objs|
    case Disconnect(_) => p.lock == Free
    case Rendezvous => p.lock.Sending? && p.lock.obj < |p.objs| && p.objs[p.lock.obj].pc == Selecting
    case Close(i) => i < |p.objs| && p.objs[i].pc.Closing?
    case CheckEmpty(i) => i < |p.objs| && p.objs[i].pc == Removed
    case Leave(i) => i < |p.objs| && p.objs[i].pc == WantsLock && p.lock == Free
  }

  function Next(p: Pool, a: Action): Pool
    requires Enabled(p, a)
  {
    match a
    case Connect(conn, userID) =>
      if userID in p.users then p.(lock := Connecting(conn, p.users[userID]), used := p.used + {conn})
      else
        p.(objs := p.objs + [Client(userID, {conn}, Selecting)],
           users := p.users[userID := |p.objs|],
           lock := Connecting(conn, |p.objs|),
           used := p.used + {conn})
    case Register =>
      var conn, i := p.lock.conn, p.lock.obj;
      p.(objs := p.objs[i := p.objs[i].(conns := p.objs[i].conns + {conn})],
         closeChByConnID := p.closeChByConnID[conn := i],
         lock := Free)
    case Disconnect(conn) =>
      if conn in p.closeChByConnID then
        p.(lock := Sending(conn, p.closeChByConnID[conn]), closeChByConnID := p.closeChByConnID - {conn})
      else p
    case Rendezvous =>
      p.(objs := p.objs[p.lock.obj := p.objs[p.lock.obj].(pc := Closing(p.lock.conn))], lock := Free)
    case Close(i) =>
      var o := p.objs[i];
      p.(objs := p.objs[i := if o.pc.conn in o.conns then o.(conns := o.conns - {o.pc.conn}, pc := Removed)
                             else o.(pc := Selecting)])
    case CheckEmpty(i) =>
      p.(objs := p.objs[i := p.objs[i].(pc := if p.objs[i].conns == {} then WantsLock else Selecting)])
    case Leave(i) =>
      p.(objs := p.objs[i := p.objs[i].(pc := Exited)], users := p.users - {p.objs[i].userID})
  }

  const EMPTY := Pool([], map[], map[], Free, {})

  // ---------------------------------------------------------------- safety

  /** A goroutine that is still able to receive, or will be after finishing its round. */
  predicate Alive(o: Client) { o.pc != WantsLock && o.pc != Exited }

  /** Connection c of object i is registered, or on its way into or out of the pool. */
  ghost predicate Accounted(p: Pool, i: nat, c: nat)
    requires i < |p.objs|
  {
    || (c in p.closeChByConnID && p.closeChByConnID[c] == i)
    || p.lock == Connecting(c, i)
    || p.lock == Sending(c, i)
    || p.objs[i].pc == Closing(c)
  }

  /** A registered connection belongs to one object, and that object can receive its id. */
  ghost predicate Registered(p: Pool) {
    && (forall c :: c in p.closeChByConnID ==>
          p.closeChByConnID[c] < |p.objs| && c in p.objs[p.closeChByConnID[c]].conns
            && Alive(p.objs[p.closeChByConnID[c]]))
    && (forall i, c {:trigger c in p.objs[i].conns} :: 0 <= i < |p.objs| && c in p.objs[i].conns ==>
          Accounted(p, i, c) && c in p.used)
  }

  ghost predicate OneObjectPerConnection(p: Pool) {
    forall i, j, c :: 0 <= i < |p.objs| && 0 <= j < |p.objs| && c in p.objs[i].conns && c in p.objs[j].conns ==> i == j
  }

  /** Whoever holds the lock while waiting waits for a goroutine that will receive; whoever is about to
      store a connection still has an object to store it in. */
  ghost predicate HolderOk(p: Pool) {
    && (p.lock.Sending? ==>
          p.lock.obj < |p.objs| && p.lock.conn in p.objs[p.lock.obj].conns && p.lock.conn !in p.closeChByConnID
          && Alive(p.objs[p.lock.obj]) && p.objs[p.lock.obj].pc != Closing(p.lock.conn))
    && (p.lock.Connecting? ==>
          p.lock.obj < |p.objs| && p.lock.conn in p.used && p.objs[p.lock.obj].pc != Exited
            && p.lock.conn !in p.closeChByConnID
          && (forall i :: 0 <= i < |p.objs| && p.lock.conn in p.objs[i].conns ==> i == p.lock.obj)
          && (forall i :: 0 <= i < |p.objs| ==> p.objs[i].pc != Closing(p.lock.conn)))
  }

  /** A goroutine that is leaving has no connections; one that closes a connection owns it. */
  ghost predicate GoroutinesOk(p: Pool) {
    && (forall i :: 0 <= i < |p.objs| && !Alive(p.objs[i]) ==> p.objs[i].conns == {})
    && (forall i :: 0 <= i < |p.objs| && p.objs[i].pc.Closing? ==>
          p.objs[i].pc.conn in p.objs[i].conns && p.objs[i].pc.conn !in p.closeChByConnID)
  }

  /** A user maps to his only object that has not left. */
  ghost predicate UsersOk(p: Pool) {
    && (forall u :: u in p.users ==>
           p.users[u] < |p.objs| && p.objs[p.users[u]].userID == u && p.objs[p.users[u]].pc != Exited)
    && (forall i :: 0 <= i < |p.objs| && p.objs[i].pc != Exited ==>
           p.objs[i].userID in p.users && p.users[p.objs[i].userID] == i)
  }

  ghost predicate Safe(p: Pool) {
    Registered(p) && OneObjectPerConnection(p) && HolderOk(p) && GoroutinesOk(p) && UsersOk(p)
  }

  /** The connection is stored in an object whose goroutine has already decided to leave. */
  ghost predicate TooLate(p: Pool, a: Action) {
    a == Register && p.lock.Connecting? && p.lock.obj < |p.objs| && p.objs[p.lock.obj].pc == WantsLock
  }

  // ---------------------------------------------------------------- every step but one keeps the pool safe

  lemma ConnectKnownUser(p: Pool, conn: nat, userID: string)
    requires Safe(p) && Enabled(p, Connect(conn, userID)) && userID in p.users
    ensures Safe(Next(p, Connect(conn, userID)))
  {
  }

  lemma ConnectNewUser(p: Pool, conn: nat, userID: string)
    requires Safe(p) && Enabled(p, Connect(conn, userID)) && userID !in p.users
    ensures Safe(Next(p, Connect(conn, userID)))
  {
    NewUserIsRegistered(p, conn, userID);
    NewUserIsServed(p, conn, userID);
  }

  lemma NewUserIsRegistered(p: Pool, conn: nat, userID: string)
    requires Safe(p) && Enabled(p, Connect(conn, userID)) && userID !in p.users
    ensures Registered(Next(p, Connect(conn, userID))) && OneObjectPerConnection(Next(p, Connect(conn, userID)))
  {
    var q := Next(p, Connect(conn, userID));
    assert forall i :: 0 <= i < |p.objs| ==> q.objs[i] == p.objs[i];
  }

  lemma NewUserIsServed(p: Pool, conn: nat, userID: string)
    requires Safe(p) && Enabled(p, Connect(conn, userID)) && userID !in p.users
    ensures HolderOk(Next(p, Connect(conn, userID)))
    ensures GoroutinesOk(Next(p, Connect(conn, userID))) && UsersOk(Next(p, Connect(conn, userID)))
  {
    var q := Next(p, Connect(conn, userID));
    assert forall i :: 0 <= i < |p.objs| ==> q.objs[i] == p.objs[i];
  }

  lemma RegisterKeepsSafe(p: Pool)
    requires Safe(p) && Enabled(p, Register) && !TooLate(p, Register)
    ensures Safe(Next(p, Register))
  {
    RegisterKeepsRegistered(p);
    RegisterKeepsOneObject(p);
    RegisterKeepsOthers(p);
  }

  lemma RegisterKeepsRegistered(p: Pool)
    requires Safe(p) && Enabled(p, Register) && !TooLate(p, Register)
    ensures Registered(Next(p, Register))
  {
  }

  lemma RegisterKeepsOneObject(p: Pool)
    requires Safe(p) && Enabled(p, Register)
    ensures OneObjectPerConnection(Next(p, Register))
  {
  }

  lemma RegisterKeepsOthers(p: Pool)
    requires Safe(p) && Enabled(p, Register) && !TooLate(p, Register)
    ensures HolderOk(Next(p, Register)) && GoroutinesOk(Next(p, Register)) && UsersOk(Next(p, Register))
  {
  }

  lemma RegisterTooLateBreaks(p: Pool)
    requires Safe(p) && Enabled(p, Register) && TooLate(p, Register)
    ensures !Safe(Next(p, Register))
  {
    assert p.lock.conn in Next(p, Register).closeChByConnID;
  }

  lemma DisconnectKeepsSafe(p: Pool, conn: nat)
    requires Safe(p) && Enabled(p, Disconnect(conn))
    ensures Safe(Next(p, Disconnect(conn)))
  {
  }

  lemma RendezvousKeepsSafe(p: Pool)
    requires Safe(p) && Enabled(p, Rendezvous)
    ensures Safe(Next(p, Rendezvous))
  {
  }

  lemma CloseKeepsSafe(p: Pool, i: nat)
    requires Safe(p) && Enabled(p, Close(i))
    ensures Safe(Next(p, Close(i)))
  {
    var q := Next(p, Close(i));
    var o := p.objs[i];
    assert q.objs == p.objs[i := o.(conns := o.conns - {o.pc.conn}, pc := Removed)];
    assert OneObjectPerConnection(q);
    CloseKeepsRegistered(p, i);
    assert UsersOk(q);
  }

  lemma CloseKeepsRegistered(p: Pool, i: nat)
    requires Safe(p) && Enabled(p, Close(i))
    ensures Registered(Next(p, Close(i)))
  {
  }

  lemma CheckEmptyKeepsSafe(p: Pool, i: nat)
    requires Safe(p) && Enabled(p, CheckEmpty(i))
    ensures Safe(Next(p, CheckEmpty(i)))
  {
    CheckEmptyKeepsConnections(p, i);
    CheckEmptyKeepsOthers(p, i);
  }

  lemma CheckEmptyKeepsConnections(p: Pool, i: nat)
    requires Safe(p) && Enabled(p, CheckEmpty(i))
    ensures Registered(Next(p, CheckEmpty(i))) && OneObjectPerConnection(Next(p, CheckEmpty(i)))
  {
    var q := Next(p, CheckEmpty(i));
    assert forall j :: 0 <= j < |p.objs| ==> q.objs[j].conns == p.objs[j].conns;
  }

  lemma CheckEmptyKeepsOthers(p: Pool, i: nat)
    requires Safe(p) && Enabled(p, CheckEmpty(i))
    ensures HolderOk(Next(p, CheckEmpty(i))) && GoroutinesOk(Next(p, CheckEmpty(i))) && UsersOk(Next(p, CheckEmpty(i)))
  {
    var q := Next(p, CheckEmpty(i));
    assert forall j :: 0 <= j < |p.objs| ==> q.objs[j].conns == p.objs[j].conns;
  }

  lemma LeaveKeepsSafe(p: Pool, i: nat)
    requires Safe(p) && Enabled(p, Leave(i))
    ensures Safe(Next(p, Leave(i)))
  {
  }

  /** A step keeps the pool safe exactly when it is not a registration that comes too late. */
  lemma StepKeepsSafeIff(p: Pool, a: Action)
    requires Safe(p) && Enabled(p, a)
    ensures Safe(Next(p, a)) <==> !TooLate(p, a)
  {
    match a
    case Connect(conn, userID) =>
      if userID in p.users { ConnectKnownUser(p, conn, userID); } else { ConnectNewUser(p, conn, userID); }
    case Register => if TooLate(p, a) { RegisterTooLateBreaks(p); } else { RegisterKeepsSafe(p); }
    case Disconnect(conn) => DisconnectKeepsSafe(p, conn);
    case Rendezvous => RendezvousKeepsSafe(p);
    case Close(i) => CloseKeepsSafe(p, i);
    case CheckEmpty(i) => CheckEmptyKeepsSafe(p, i);
    case Leave(i) => LeaveKeepsSafe(p, i);
  }

  // ---------------------------------------------------------------- runs

  ghost predicate Run(states: seq<Pool>, actions: seq<Action>) {
    && |states| == |actions| + 1 && states[0] == EMPTY
    && forall n {:trigger actions[n]} :: 0 <= n < |actions| ==>
         Enabled(states[n], actions[n]) && states[n + 1] == Next(states[n], actions[n])
  }

  lemma {:induction false} SafeUntilTooLate(states: seq<Pool>, actions: seq<Action>, n: nat)
    requires Run(states, actions) && n <= |actions|
    requires forall k :: 0 <= k < n ==> !TooLate(states[k], actions[k])
    ensures Safe(states[n])
  {
    if n > 0 {
      SafeUntilTooLate(states, actions, n - 1);
      StepKeepsSafeIff(states[n - 1], actions[n - 1]);
    }
  }

  /** Over every run, all states are safe exactly when no registration comes too late. */
  lemma RunIsSafeIff(states: seq<Pool>, actions: seq<Action>)
    requires Run(states, actions)
    ensures (forall n :: 0 <= n < |states| ==> Safe(states[n])) <==>
            (forall n :: 0 <= n < |actions| ==> !TooLate(states[n], actions[n]))
  {
    if forall n :: 0 <= n < |actions| ==> !TooLate(states[n], actions[n]) {
      forall n | 0 <= n < |states| ensures Safe(states[n]) { SafeUntilTooLate(states, actions, n); }
    }
    if forall n :: 0 <= n < |states| ==> Safe(states[n]) {
      forall n | 0 <= n < |actions| ensures !TooLate(states[n], actions[n]) {
        assert Safe(states[n]) && Safe(states[n + 1]);
        StepKeepsSafeIff(states[n], actions[n]);
      }
    }
  }

  // ---------------------------------------------------------------- what safety means to the lock holder

  /** In a safe state the holder of the lock never waits for a goroutine that has exited or asks for the
      same lock, every registered connection is stored in exactly one object, and a sender is served
      after at most two steps of the goroutine it waits for. */
  lemma SafeMeansNoDeadlock(p: Pool)
    requires Safe(p)
    ensures p.lock.Sending? ==> p.lock.obj < |p.objs| && p.objs[p.lock.obj].pc !in {WantsLock, Exited}
    ensures p.lock.Sending? ==>
              || Enabled(p, Rendezvous)
              || (Enabled(p, CheckEmpty(p.lock.obj)) && Enabled(Next(p, CheckEmpty(p.lock.obj)), Rendezvous))
              || (Enabled(p, Close(p.lock.obj)) && Enabled(Next(p, Close(p.lock.obj)), CheckEmpty(p.lock.obj))
                  && Enabled(Next(Next(p, Close(p.lock.obj)), CheckEmpty(p.lock.obj)), Rendezvous))
    ensures forall c :: c in p.closeChByConnID ==>
              exists i :: 0 <= i < |p.objs| && c in p.objs[i].conns && i == p.closeChByConnID[c]
                          && forall j :: 0 <= j < |p.objs| && c in p.objs[j].conns ==> j == i
  {
    if p.lock.Sending? {
      var i := p.lock.obj;
      if p.objs[i].pc.Closing? {
        var q := Next(p, Close(i));
        assert p.lock.conn in q.objs[i].conns;
      }
    }
  }

  // ---------------------------------------------------------------- the deadlock

  /** The holder of the lock sends to a goroutine that has exited. */
  ghost predicate Stuck(p: Pool) {
    p.lock.Sending? && p.lock.obj < |p.objs| && p.objs[p.lock.obj].pc in {WantsLock, Exited}
  }

  /** It stays that way for ever: in no continuation of a run does anybody release the lock, and nobody
      connects or disconnects any more. */
  lemma {:induction false} StuckForEver(states: seq<Pool>, actions: seq<Action>, m: nat, n: nat)
    requires Run(states, actions) && m <= n <= |actions| && Stuck(states[m])
    ensures Stuck(states[n]) && states[n].lock == states[m].lock
    ensures forall k :: m <= k < n ==> actions[k].Close? || actions[k].CheckEmpty?
  {
    if m < n {
      StuckForEver(states, actions, m, n - 1);
      assert Enabled(states[n - 1], actions[n - 1]) && states[n] == Next(states[n - 1], actions[n - 1]);
    }
  }

  /** Every registration that comes too late can lead there: when the new connection goes, its disconnect
      takes the lock and waits. */
  lemma TooLateLeadsToDeadlock(p: Pool)
    requires Enabled(p, Register) && TooLate(p, Register)
    ensures Enabled(Next(p, Register), Disconnect(p.lock.conn))
    ensures Stuck(Next(Next(p, Register), Disconnect(p.lock.conn)))
  {
  }

  /** A schedule that gets there: the only connection of a user closes, and a second one is stored
      between the goroutine's look at the connections and its leaving the pool. */
  function DeadlockRun(): seq<Action> {
    [Connect(1, "u"), Register, Disconnect(1), Rendezvous, Close(0), CheckEmpty(0),
     Connect(2, "u"), Register, Disconnect(2)]
  }

  function StateAfter(n: nat): Pool
    requires n <= 9
  {
    var u := map["u" := 0];
    match n
    case 0 => EMPTY
    case 1 => Pool([Client("u", {1}, Selecting)], u, map[], Connecting(1, 0), {1})
    case 2 => Pool([Client("u", {1}, Selecting)], u, map[1 := 0], Free, {1})
    case 3 => Pool([Client("u", {1}, Selecting)], u, map[], Sending(1, 0), {1})
    case 4 => Pool([Client("u", {1}, Closing(1))], u, map[], Free, {1})
    case 5 => Pool([Client("u", {}, Removed)], u, map[], Free, {1})
    case 6 => Pool([Client("u", {}, WantsLock)], u, map[], Free, {1})
    case 7 => Pool([Client("u", {}, WantsLock)], u, map[], Connecting(2, 0), {1, 2})
    case 8 => Pool([Client("u", {2}, WantsLock)], u, map[2 := 0], Free, {1, 2})
    case _ => Pool([Client("u", {2}, WantsLock)], u, map[], Sending(2, 0), {1, 2})
  }

  lemma DeadlockIsReachable()
    ensures Run(seq(10, n requires 0 <= n < 10 => StateAfter(n)), DeadlockRun())
    ensures TooLate(StateAfter(7), DeadlockRun()[7]) && Stuck(StateAfter(9))
  {
    var states := seq(10, n requires 0 <= n < 10 => StateAfter(n));
    var actions := DeadlockRun();
    forall n {:trigger actions[n]} | 0 <= n < 9
      ensures Enabled(StateAfter(n), actions[n]) && StateAfter(n + 1) == Next(StateAfter(n), actions[n])
    {
      DeadlockStep(n);
    }
  }

  lemma DeadlockStep(n: nat)
    requires n < 9
    ensures Enabled(StateAfter(n), DeadlockRun()[n]) && StateAfter(n + 1) == Next(StateAfter(n), DeadlockRun()[n])
  {
    var q := Next(StateAfter(n), DeadlockRun()[n]);
    var one, both: set<nat> := {1}, {1, 2};
    assert one - one == {} && {} + one == one && one + {2} == both && {} + {2} == {2};
    assert map[1 := 0] - one == map[] && map[2 := 0] - {2} == map[];
    match n
    case 0 => assert q == StateAfter(1);
    case 1 => assert q == StateAfter(2);
    case 2 => assert q == StateAfter(3);
    case 3 => assert q == StateAfter(4);
    case 4 => assert q == StateAfter(5);
    case 5 => assert q == StateAfter(6);
    case 6 => assert q == StateAfter(7);
    case 7 => assert q == StateAfter(8);
    case _ => assert q == StateAfter(9);
  }
}
