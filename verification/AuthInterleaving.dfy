/**
  Concurrent clients of the authentication store.

  Any number of clients run their transactions one statement at a time: wait for the file lock, read a
  row, test it, write to the open connection, commit, release.  A client may fail at any point, which closes
  its connection; what it has not committed by then is lost.  Writes are seen by nobody before the commit.

  A run is a list of actions; `Run` plays it from the empty store.  The file lock's mutual exclusion is
  the flag `locking`; with it every run refines the atomic store, and without it one run does not.
 */
module AuthInterleaving {
  import opened Wrappers
  import opened AuthStore
  import opened AuthHistories

  /** What a client asks for, before the store has read a clock or drawn an id. */
  datatype Call =
    | RedeemCall(token: string, username: string, passwordHash: string, role: Role)
    | QrCall(nonce: string, ip: string)
    | CodeCall(userId: string, hash: string)
    | WriteCall(txn: Txn)   // a transaction that writes without reading first

  predicate WritesOnly(t: Txn) {
    !t.RedeemInvite? && !t.ConsumeQrCode? && !t.ConsumeRecoveryCode?
  }

  /** Where a client is in its transaction. */
  datatype Local =
    | Idle
    | Waiting(call: Call, started: int)                            // `started`: the clock when the call began
    | Opened(call: Call, started: int)                             // lock held, nothing read yet
    | InviteFound(call: Call, started: int, row: Invite)           // invite read and found redeemable
    | NameFree(call: Call, started: int, row: Invite)              // username read and found free
    | UserWritten(call: Call, txn: Txn, row: Invite, work: Db)     // user inserted, not committed
    | QrFound(call: Call, now: int, qr: QrCode)                    // QR row read and found usable
    | CodeFound(call: Call, code: RecoveryCode)                    // unused recovery code read
    | Written(call: Call, txn: Txn, work: Db, outcome: Outcome)    // all statements run, not committed
    | Closing(call: Call, outcome: Outcome, at: nat)               // committed or refused; lock still held
    | Aborting                                                     // failed; connection closed; lock still held
    | Returned(call: Call, outcome: Outcome, at: nat)              // `at`: the call's place in the history
    | Failed

  /** Whether a transaction is one that answers a call: the call's own arguments, with clocks and id filled in. */
  predicate Serves(call: Call, t: Txn) {
    match call
    case RedeemCall(token, name, pw, role) =>
      t.RedeemInvite? && t.token == token && t.username == name && t.passwordHash == pw && t.role == role
    case QrCall(nonce, ip) => t.ConsumeQrCode? && t.nonce == nonce && t.ip == ip
    case CodeCall(user, hash) => t.ConsumeRecoveryCode? && t.userId == user && t.hash == hash
    case WriteCall(txn) => t == txn
  }

  predicate Inside(l: Local) {
    !l.Idle? && !l.Waiting? && !l.Returned? && !l.Failed?
  }

  datatype Sys = Sys(db: Db, clock: int, holder: Option<nat>, clients: map<nat, Local>, history: History)

  datatype Action =
    | Tick(to: int)
    | Begin(c: nat, call: Call)
    | Acquire(c: nat)
    | Read(c: nat)                 // the first SELECT and the tests on its row
    | CheckName(c: nat)            // redemption: the SELECT on users
    | Write(c: nat, id: string)    // the first write; `id` is the id a redemption draws
    | Mark(c: nat)                 // redemption: the UPDATE of the invite
    | Commit(c: nat)
    | Fail(c: nat)
    | Release(c: nat)

  const START := Sys(EMPTY_DB, 1, None, map[], [])

  function At(s: Sys, c: nat): Local {
    if c in s.clients then s.clients[c] else Idle
  }

  function Move(s: Sys, c: nat, l: Local): Sys {
    s.(clients := s.clients[c := l])
  }

  /** The call is decided: its transaction and outcome enter the history. */
  function Decide(s: Sys, c: nat, call: Call, t: Txn, o: Outcome): Sys {
    Move(s, c, Closing(call, o, |s.history|)).(history := s.history + [Event(t, o)])
  }

  function ReadStep(s: Sys, c: nat, call: Call, started: int): Option<Sys> {
    match call
    case RedeemCall(token, name, pw, role) =>
      var t := Txn.RedeemInvite(token, name, pw, role, started, "");
      var row := Lookup(s.db.invites, token);
      if row.None? then Some(Decide(s, c, call, t, NotFound))
      else if Truthy(row.value.usedAt) then Some(Decide(s, c, call, t, Used))
      else if PastExpiry(started, row.value.expiresAt) then Some(Decide(s, c, call, t, Expired))
      else Some(Move(s, c, InviteFound(call, started, row.value)))
    case QrCall(nonce, ip) =>
      var row := Lookup(s.db.qrCodes, nonce);
      if QrUsable(row, s.clock) then Some(Move(s, c, QrFound(call, s.clock, row.value)))
      else Some(Decide(s, c, call, ConsumeQrCode(nonce, ip, s.clock, s.clock), Login(None)))
    case CodeCall(user, hash) =>
      var row := Lookup(s.db.recovery, (user, hash));
      if row.Some? && row.value.usedAt.None? then Some(Move(s, c, CodeFound(call, row.value)))
      else Some(Decide(s, c, call, ConsumeRecoveryCode(user, hash, s.clock), Accepted(false)))
    case WriteCall(t) => None
  }

  function NameStep(s: Sys, c: nat, call: Call, started: int, row: Invite): Option<Sys>
    requires call.RedeemCall?
  {
    if NameTaken(s.db.users, call.username) then
      Some(Decide(s, c, call, Txn.RedeemInvite(call.token, call.username, call.passwordHash, call.role, started, ""),
                  UsernameTaken))
    else Some(Move(s, c, NameFree(call, started, row)))
  }

  /** The first write of a transaction.  What it writes comes from the rows read before, not from new reads. */
  function WriteStep(s: Sys, c: nat, id: string): Option<Sys> {
    match At(s, c)
    case NameFree(call, started, row) =>
      if !call.RedeemCall? then None
      else
        var t := Txn.RedeemInvite(call.token, call.username, call.passwordHash, call.role, started, id);
        var u := NewUser(id, call.username, call.passwordHash, call.role, started);
        if id in s.db.users then Some(Decide(s, c, call, t, IntegrityError))
        else Some(Move(s, c, UserWritten(call, t, row, s.db.(users := s.db.users[id := u]))))
    case QrFound(call, now, row) =>
      if !call.QrCall? then None
      else
        var used := row.(usedAt := Some(s.clock), usedIp := Some(call.ip));
        Some(Move(s, c, Written(call, ConsumeQrCode(call.nonce, call.ip, now, s.clock),
                                s.db.(qrCodes := s.db.qrCodes[call.nonce := used]),
                                Login(if row.userId == "" then None else Some(row.userId)))))
    case CodeFound(call, row) =>
      if !call.CodeCall? then None
      else
        var used := row.(usedAt := Some(s.clock));
        Some(Move(s, c, Written(call, ConsumeRecoveryCode(call.userId, call.hash, s.clock),
                                s.db.(recovery := s.db.recovery[(call.userId, call.hash) := used]),
                                Accepted(true))))
    case Opened(call, started) =>
      if !call.WriteCall? || !WritesOnly(call.txn) then None
      else
        var e := Exec(s.db, call.txn);
        if e.outcome.IntegrityError? then Some(Decide(s, c, call, call.txn, IntegrityError))
        else Some(Move(s, c, Written(call, call.txn, e.db, e.outcome)))
    case _ => None
  }

  /** One action; None when it is not enabled. */
  function Step(locking: bool, s: Sys, a: Action): Option<Sys> {
    match a
    case Tick(to) => if to < s.clock then None else Some(s.(clock := to))
    case Begin(c, call) =>
      if Inside(At(s, c)) || At(s, c).Waiting? then None else Some(Move(s, c, Waiting(call, s.clock)))
    case Acquire(c) =>
      if At(s, c).Waiting? && (locking ==> s.holder.None?) then
        Some(Move(s, c, Opened(At(s, c).call, At(s, c).started)).(holder := Some(c)))
      else None
    case Read(c) =>
      if At(s, c).Opened? then ReadStep(s, c, At(s, c).call, At(s, c).started) else None
    case CheckName(c) =>
      if At(s, c).InviteFound? && At(s, c).call.RedeemCall? then
        NameStep(s, c, At(s, c).call, At(s, c).started, At(s, c).row)
      else None
    case Write(c, id) => WriteStep(s, c, id)
    case Mark(c) =>
      var l := At(s, c);
      if !l.UserWritten? || !l.txn.RedeemInvite? then None
      else
        var row := MarkInvite(l.row, l.txn.now, l.txn.id);
        var u := NewUser(l.txn.id, l.txn.username, l.txn.passwordHash, l.txn.role, l.txn.now);
        Some(Move(s, c, Written(l.call, l.txn, l.work.(invites := l.work.invites[l.txn.token := row]), Created(u))))
    case Commit(c) =>
      if At(s, c).Written? then
        Some(Decide(s, c, At(s, c).call, At(s, c).txn, At(s, c).outcome).(db := At(s, c).work))
      else None
    case Fail(c) =>
      var l := At(s, c);
      if l.Waiting? then Some(Move(s, c, Failed))
      else if Inside(l) then Some(Move(s, c, Aborting))
      else None
    case Release(c) =>
      if At(s, c).Closing? then
        Some(Move(s, c, Returned(At(s, c).call, At(s, c).outcome, At(s, c).at)).(holder := None))
      else if At(s, c).Aborting? then Some(Move(s, c, Failed).(holder := None))
      else None
  }

  function Run(locking: bool, actions: seq<Action>): Option<Sys> {
    if actions == [] then Some(START)
    else
      var before := Run(locking, actions[..|actions| - 1]);
      if before.None? then None else Step(locking, before.value, actions[|actions| - 1])
  }

  // ----- the invariant -----

  /** What a client inside its transaction knows about the committed tables. */
  ghost predicate LocalOk(db: Db, h: History, l: Local) {
    match l
    case InviteFound(call, started, row) =>
      && call.RedeemCall? && started >= 1
      && Lookup(db.invites, call.token) == Some(row) && !Truthy(row.usedAt) && !PastExpiry(started, row.expiresAt)
    case NameFree(call, started, row) =>
      && call.RedeemCall? && started >= 1
      && Lookup(db.invites, call.token) == Some(row) && !Truthy(row.usedAt) && !PastExpiry(started, row.expiresAt)
      && !NameTaken(db.users, call.username)
    case UserWritten(call, t, row, work) =>
      && Serves(call, t) && t.RedeemInvite? && t.now >= 1
      && InviteRefusal(db, t.token, t.username, t.now) == None && db.invites[t.token] == row
      && t.id !in db.users
      && work == db.(users := db.users[t.id := NewUser(t.id, t.username, t.passwordHash, t.role, t.now)])
    case QrFound(call, now, row) =>
      && call.QrCall? && Lookup(db.qrCodes, call.nonce) == Some(row) && QrUsable(Some(row), now)
    case CodeFound(call, row) =>
      && call.CodeCall? && Lookup(db.recovery, (call.userId, call.hash)) == Some(row) && row.usedAt.None?
    case Written(call, t, work, o) =>
      && Serves(call, t) && Exec(db, t) == Effect(work, o)
      && UsedAtIsSet(t) && (t.RedeemInvite? ==> t.now >= 1)
    case Closing(call, o, at) => at < |h| && h[at].outcome == o && Serves(call, h[at].txn)
    case Returned(call, o, at) => at < |h| && h[at].outcome == o && Serves(call, h[at].txn)
    case Waiting(call, started) => started >= 1
    case Opened(call, started) => started >= 1
    case _ => true
  }

  /** The client's call has its place in the history. */
  predicate Placed(l: Local) {
    l.Closing? || l.Returned?
  }

  ghost predicate Inv(s: Sys) {
    && s.clock >= 1
    && s.db == After(s.history) && Valid(s.history) && ClockRuns(s.history)
    && (forall c :: c in s.clients && Inside(s.clients[c]) ==> s.holder == Some(c))
    && (forall c :: c in s.clients ==> LocalOk(s.db, s.history, s.clients[c]))
    && PlacesDiffer(s.clients)
  }

  /** No two clients are told about the same event. */
  ghost predicate PlacesDiffer(clients: map<nat, Local>) {
    forall c, d :: c in clients && d in clients && c != d && Placed(clients[c]) && Placed(clients[d]) ==>
      clients[c].at != clients[d].at
  }

  /** Adding the event of a transaction whose effect on the current tables is known keeps the history valid. */
  lemma {:induction false} Extend(h: History, e: Event)
    requires Valid(h) && ClockRuns(h)
    requires e.outcome == Exec(After(h), e.txn).outcome
    requires UsedAtIsSet(e.txn)
    ensures Valid(h + [e]) && ClockRuns(h + [e]) && After(h + [e]) == Exec(After(h), e.txn).db
  {
  }

  /** Moving the lock holder to a state it may be in keeps the invariant. */
  lemma {:induction false} MoveKeepsInv(s: Sys, c: nat, l: Local)
    requires Inv(s) && Inside(At(s, c)) && LocalOk(s.db, s.history, l) && !Placed(l)
    ensures Inv(Move(s, c, l))
  {
  }

  /** A decided call takes a place that no other client has. */
  lemma {:induction false} DecidePlacesDiffer(s: Sys, c: nat, l: Local)
    requires PlacesDiffer(s.clients) && l.Closing? && l.at == |s.history|
    requires forall d :: d in s.clients && Placed(s.clients[d]) ==> s.clients[d].at < |s.history|
    ensures PlacesDiffer(Move(s, c, l).clients)
  {
  }

  /** Deciding the holder's call, with the tables its transaction leads to, keeps the invariant. */
  lemma {:induction false} DecideKeepsInv(s: Sys, c: nat, call: Call, t: Txn, o: Outcome, db: Db)
    requires Inv(s) && Serves(call, t) && Inside(At(s, c)) && Exec(s.db, t) == Effect(db, o)
    requires UsedAtIsSet(t)
    ensures Inv(Decide(s, c, call, t, o).(db := db))
  {
    var s' := Decide(s, c, call, t, o).(db := db);
    Extend(s.history, Event(t, o));
    forall d | d in s'.clients
      ensures LocalOk(s'.db, s'.history, s'.clients[d])
    {
      if d != c {
        assert LocalOk(s.db, s.history, s.clients[d]) && !Inside(s.clients[d]);
      }
    }
    forall d | d in s.clients && Placed(s.clients[d])
      ensures s.clients[d].at < |s.history|
    {
      assert LocalOk(s.db, s.history, s.clients[d]);
    }
    DecidePlacesDiffer(s, c, Closing(call, o, |s.history|));
  }

  lemma {:induction false} ReadKeepsInv(s: Sys, c: nat)
    requires Inv(s) && At(s, c).Opened?
    ensures var r := ReadStep(s, c, At(s, c).call, At(s, c).started); r.Some? ==> Inv(r.value)
  {
    var call, started := At(s, c).call, At(s, c).started;
    assert LocalOk(s.db, s.history, At(s, c));
    var r := ReadStep(s, c, call, started);
    if r.Some? {
      var s' := r.value;
      if s'.clients[c].Closing? {
        var e := s'.history[|s.history|];
        RefusalIsRight(s, c, call, started);
        DecideKeepsInv(s, c, call, e.txn, e.outcome, s.db);
      } else {
        MoveKeepsInv(s, c, s'.clients[c]);
      }
    }
  }

  /** What the first read refuses, the whole transaction refuses. */
  lemma {:induction false} RefusalIsRight(s: Sys, c: nat, call: Call, started: int)
    requires started >= 1 && s.clock >= 1
    requires ReadStep(s, c, call, started).Some? && ReadStep(s, c, call, started).value.clients[c].Closing?
    ensures var s' := ReadStep(s, c, call, started).value;
            && |s'.history| == |s.history| + 1
            && s' == Decide(s, c, call, s'.history[|s.history|].txn, s'.history[|s.history|].outcome)
            && Serves(call, s'.history[|s.history|].txn) && UsedAtIsSet(s'.history[|s.history|].txn)
            && Exec(s.db, s'.history[|s.history|].txn) == Effect(s.db, s'.history[|s.history|].outcome)
  {
  }

  lemma {:induction false} WriteKeepsInv(s: Sys, c: nat, id: string)
    requires Inv(s)
    ensures var r := WriteStep(s, c, id); r.Some? ==> Inv(r.value)
  {
    var r, l := WriteStep(s, c, id), At(s, c);
    if r.Some? {
      var s' := r.value;
      assert c in s.clients && LocalOk(s.db, s.history, l) && Inside(l);
      if s'.clients[c].Closing? {
        var e := s'.history[|s.history|];
        WriteRefusal(s, c, id);
        DecideKeepsInv(s, c, At(s, c).call, e.txn, e.outcome, s.db);
      } else {
        WriteIsOk(s, c, id);
        MoveKeepsInv(s, c, s'.clients[c]);
      }
    }
  }

  /** What the first write refuses, the whole transaction refuses. */
  lemma {:induction false} WriteRefusal(s: Sys, c: nat, id: string)
    requires LocalOk(s.db, s.history, At(s, c)) && WriteStep(s, c, id).Some?
    requires WriteStep(s, c, id).value.clients[c].Closing?
    ensures var s' := WriteStep(s, c, id).value;
            && |s'.history| == |s.history| + 1
            && var e := s'.history[|s.history|];
            && s' == Decide(s, c, At(s, c).call, e.txn, e.outcome)
            && Serves(At(s, c).call, e.txn) && UsedAtIsSet(e.txn)
            && Exec(s.db, e.txn) == Effect(s.db, e.outcome)
  {
    var e := WriteStep(s, c, id).value.history[|s.history|];
    RefusalChangesNothing(s.db, e.txn);
  }

  /** What the first write prepares is what the whole transaction would do now. */
  lemma {:induction false} WriteIsOk(s: Sys, c: nat, id: string)
    requires LocalOk(s.db, s.history, At(s, c)) && s.clock >= 1
    requires WriteStep(s, c, id).Some? && !WriteStep(s, c, id).value.clients[c].Closing?
    ensures LocalOk(s.db, s.history, WriteStep(s, c, id).value.clients[c])
  {
  }

  lemma {:induction false} MarkKeepsInv(s: Sys, c: nat)
    requires Inv(s)
    ensures var r := Step(true, s, Mark(c)); r.Some? ==> Inv(r.value)
  {
    var r := Step(true, s, Mark(c));
    if r.Some? {
      assert c in s.clients && LocalOk(s.db, s.history, At(s, c));
      MoveKeepsInv(s, c, r.value.clients[c]);
    }
  }

  lemma {:induction false} QuietStepKeepsInv(s: Sys, a: Action)
    requires Inv(s) && (a.Tick? || a.Begin? || a.Acquire? || a.Fail? || a.Release?)
    ensures var r := Step(true, s, a); r.Some? ==> Inv(r.value)
  {
    var r := Step(true, s, a);
    if a.Tick? {
      assert r.Some? ==> r.value == s.(clock := a.to) && a.to >= s.clock;
    } else if r.Some? {
      var s' := r.value;
      assert a.c in s.clients ==> LocalOk(s.db, s.history, s.clients[a.c]);
      QuietLocal(s, a);
      QuietMove(s, a.c, s'.clients[a.c], s'.holder);
    }
  }

  /** Where such a step takes its client and the lock. */
  lemma {:induction false} QuietLocal(s: Sys, a: Action)
    requires a.Begin? || a.Acquire? || a.Fail? || a.Release?
    requires Step(true, s, a).Some? && s.clock >= 1
    requires a.c in s.clients ==> LocalOk(s.db, s.history, At(s, a.c))
    requires Inside(At(s, a.c)) ==> s.holder == Some(a.c)
    ensures var s' := Step(true, s, a).value;
            var l := At(s', a.c);
            && a.c in s'.clients && s' == Move(s, a.c, l).(holder := s'.holder) && LocalOk(s.db, s.history, l)
            && (Inside(l) ==> s'.holder == Some(a.c))
            && (s'.holder == s.holder || s.holder.None? || s.holder == Some(a.c))
            && (Placed(l) ==> a.c in s.clients && Placed(At(s, a.c)) && At(s, a.c).at == l.at)
  {
  }

  /** A client that waits, takes or releases the lock, or fails. */
  lemma {:induction false} QuietMove(s: Sys, c: nat, l: Local, holder: Option<nat>)
    requires Inv(s) && LocalOk(s.db, s.history, l)
    requires Inside(l) ==> holder == Some(c)
    requires forall d :: d in s.clients && d != c && Inside(s.clients[d]) ==> holder == Some(d)
    requires Placed(l) ==> c in s.clients && Placed(s.clients[c]) && s.clients[c].at == l.at
    ensures Inv(Move(s, c, l).(holder := holder))
  {
    PlaceKept(s.clients, c, l);
  }

  lemma {:induction false} PlaceKept(clients: map<nat, Local>, c: nat, l: Local)
    requires PlacesDiffer(clients)
    requires Placed(l) ==> c in clients && Placed(clients[c]) && clients[c].at == l.at
    ensures PlacesDiffer(clients[c := l])
  {
  }

  lemma {:induction false} NameKeepsInv(s: Sys, c: nat)
    requires Inv(s)
    ensures var r := Step(true, s, CheckName(c)); r.Some? ==> Inv(r.value)
  {
    var r := Step(true, s, CheckName(c));
    if r.Some? {
      var s' := r.value;
      assert LocalOk(s.db, s.history, At(s, c));
      if |s'.history| > |s.history| {
        DecideKeepsInv(s, c, At(s, c).call, s'.history[|s.history|].txn, UsernameTaken, s.db);
      } else {
        MoveKeepsInv(s, c, s'.clients[c]);
      }
    }
  }

  lemma {:induction false} CommitKeepsInv(s: Sys, c: nat)
    requires Inv(s)
    ensures var r := Step(true, s, Commit(c)); r.Some? ==> Inv(r.value)
  {
    if At(s, c).Written? {
      assert LocalOk(s.db, s.history, At(s, c));
      DecideKeepsInv(s, c, At(s, c).call, At(s, c).txn, At(s, c).outcome, At(s, c).work);
    }
  }

  lemma {:induction false} StepKeepsInv(s: Sys, a: Action)
    requires Inv(s) && Step(true, s, a).Some?
    ensures Inv(Step(true, s, a).value)
  {
    match a
    case Read(c) => ReadKeepsInv(s, c);
    case Write(c, id) => WriteKeepsInv(s, c, id);
    case Mark(c) => MarkKeepsInv(s, c);
    case CheckName(c) => NameKeepsInv(s, c);
    case Commit(c) => CommitKeepsInv(s, c);
    case _ => QuietStepKeepsInv(s, a);
  }

  lemma {:induction false} LockedRunsKeepInv(actions: seq<Action>)
    requires Run(true, actions).Some?
    ensures Inv(Run(true, actions).value)
  {
    if actions != [] {
      LockedRunsKeepInv(actions[..|actions| - 1]);
      StepKeepsInv(Run(true, actions[..|actions| - 1]).value, actions[|actions| - 1]);
    }
  }

  /**
    Refinement: after every run under the lock, whatever the interleaving and the failures, the committed
    tables are those of the atomic store after the same history, every outcome in the history is the one the
    atomic store gives, and every client that has returned was told the outcome recorded for its call, each
    for an event of its own.
   */
  lemma {:induction false} LockedRunsRefineAtomicStore(actions: seq<Action>)
    requires Run(true, actions).Some?
    ensures var s := Run(true, actions).value;
            && Inv(s)
            && s.db == After(s.history) && Valid(s.history) && ClockRuns(s.history)
            && forall c :: c in s.clients && s.clients[c].Returned? ==>
                 && s.clients[c].at < |s.history|
                 && s.history[s.clients[c].at].outcome == s.clients[c].outcome
                 && Serves(s.clients[c].call, s.history[s.clients[c].at].txn)
                 && forall d :: d in s.clients && s.clients[d].Returned? && d != c ==>
                     s.clients[d].at != s.clients[c].at
  {
    LockedRunsKeepInv(actions);
    var s := Run(true, actions).value;
    assert forall c :: c in s.clients && s.clients[c].Returned? ==> LocalOk(s.db, s.history, s.clients[c]);
  }

  /** A step changes the committed tables only by committing, and then by exactly the decided transaction. */
  lemma {:induction false} OnlyCommitChangesTables(actions: seq<Action>, a: Action)
    requires Run(true, actions + [a]).Some?
    ensures Run(true, actions).Some?
    ensures var s, s' := Run(true, actions).value, Run(true, actions + [a]).value;
            s'.db != s.db ==>
              && a.Commit? && |s'.history| == |s.history| + 1 && s'.history[..|s.history|] == s.history
              && Exec(s.db, s'.history[|s.history|].txn) == Effect(s'.db, s'.history[|s.history|].outcome)
              && !Refusal(s'.history[|s.history|].outcome)
  {
    assert (actions + [a])[..|actions|] == actions;
    var s := Run(true, actions).value;
    LockedRunsRefineAtomicStore(actions);
    if a.Commit? {
      assert LocalOk(s.db, s.history, At(s, a.c));
      RefusalChangesNothing(s.db, At(s, a.c).txn);
    } else {
      TablesKept(s, a);
    }
  }

  lemma {:induction false} TablesKept(s: Sys, a: Action)
    requires !a.Commit? && Step(true, s, a).Some?
    ensures Step(true, s, a).value.db == s.db
  {
  }

  // ----- what the refinement gives for every interleaving -----

  lemma {:induction false} HistoryGrows(actions: seq<Action>, n: nat)
    requires n <= |actions| && Run(true, actions).Some?
    ensures Run(true, actions[..n]).Some?
    ensures var h, h' := Run(true, actions[..n]).value.history, Run(true, actions).value.history;
            |h| <= |h'| && h == h'[..|h|]
  {
    if n == |actions| {
      assert actions[..n] == actions;
    } else {
      var p := actions[..|actions| - 1];
      assert p[..n] == actions[..n];
      HistoryGrows(p, n);
      StepExtendsHistory(Run(true, p).value, actions[|actions| - 1]);
    }
  }

  lemma {:induction false} StepExtendsHistory(s: Sys, a: Action)
    requires Step(true, s, a).Some?
    ensures var h' := Step(true, s, a).value.history; |s.history| <= |h'| && h'[..|s.history|] == s.history
  {
  }

  /**
    Invites, for every interleaving of redeemers, user creators and failures: as many used invites as
    redemptions, at most one per token, `used_by` injective into the existing users.
   */
  lemma {:induction false} InvitesUnderInterleaving(actions: seq<Action>, token: string)
    requires Run(true, actions).Some?
    ensures var s := Run(true, actions).value;
            && InvitesConsistent(s.db) && UsersConsistent(s.db.users)
            && |UsedInvites(s.db)| == Tally(s.history, Redemption) == |InvitedUsers(s.db)|
            && Tally(s.history, RedemptionOf(token)) <= 1
            && (token in UsedInvites(s.db) <==> Tally(s.history, RedemptionOf(token)) == 1)
  {
    LockedRunsRefineAtomicStore(actions);
    var h := Run(true, actions).value.history;
    InviteConservation(h);
    InvitedUsersAreDistinct(h);
    UsersStayConsistent(h);
  }

  /** Users under interleaving: what a user is called at any point of a run, it is called at every later point. */
  lemma {:induction false} UsersUnderInterleaving(actions: seq<Action>, n: nat)
    requires n <= |actions| && Run(true, actions).Some?
    ensures Run(true, actions[..n]).Some?
    ensures UsersKept(Run(true, actions[..n]).value.db.users, Run(true, actions).value.db.users)
  {
    HistoryGrows(actions, n);
    LockedRunsRefineAtomicStore(actions[..n]);
    LockedRunsRefineAtomicStore(actions);
    UsersAreForever(Run(true, actions).value.history, |Run(true, actions[..n]).value.history|);
  }

  /** One-time codes under interleaving: never more logins or acceptances than puts. */
  lemma {:induction false} CodesUnderInterleaving(actions: seq<Action>, nonce: string, userId: string, hash: string)
    requires Run(true, actions).Some?
    ensures var h := Run(true, actions).value.history;
            && Tally(h, QrLogin(nonce)) <= Tally(h, QrPut(nonce))
            && Tally(h, CodeAccepted(userId, hash)) <= Tally(h, CodePut(userId, hash))
  {
    LockedRunsRefineAtomicStore(actions);
    var h := Run(true, actions).value.history;
    QrLoginsBoundedByPuts(h, nonce);
    CodeAcceptancesBoundedByPuts(h, userId, hash);
  }

  /** A QR login in any interleaving is for the user of the latest put, and read the clock before that put's expiry. */
  lemma {:induction false} LoginsUnderInterleaving(actions: seq<Action>, i: nat)
    requires Run(true, actions).Some? && i < |Run(true, actions).value.history|
    requires var e := Run(true, actions).value.history[i];
             e.txn.ConsumeQrCode? && e.outcome.Login? && e.outcome.userId.Some?
    ensures var h := Run(true, actions).value.history;
            var put := LatestPut(h[..i], h[i].txn.nonce);
            && put.Some? && put.value.PutQrCode? && h[i].outcome.userId.value == put.value.userId
            && (put.value.expiresAt == 0 || h[i].txn.now <= put.value.expiresAt)
  {
    LockedRunsRefineAtomicStore(actions);
    QrLoginIsForLatestPut(Run(true, actions).value.history, i);
  }

  /** A redemption in any interleaving read the clock no later than the expiry its invite was made with. */
  lemma {:induction false} RedemptionsUnderInterleaving(actions: seq<Action>, i: nat)
    requires Run(true, actions).Some? && i < |Run(true, actions).value.history|
    requires Matches(Run(true, actions).value.history[i], Redemption)
    ensures var h := Run(true, actions).value.history;
            var made := InviteCreation(h[..i], h[i].txn.token);
            && made.Some? && made.value.CreateInvite? && !PastExpiry(h[i].txn.now, made.value.expiresAt)
  {
    LockedRunsRefineAtomicStore(actions);
    RedemptionReadClockInTime(Run(true, actions).value.history, i);
  }

  // ----- when a call takes effect, and what callers are told -----

  predicate NowIs(t: Txn, clock: int) {
    t.RedeemInvite? ==> t.now == clock
  }

  /** A client's state in a call that began at a clock reading, with `from` events in the history. */
  ghost predicate InCall(l: Local, h: History, call: Call, clock: int, from: nat) {
    match l
    case Idle => false
    case Waiting(k, started) => k == call && started == clock
    case Opened(k, started) => k == call && started == clock
    case InviteFound(k, started, row) => k == call && started == clock
    case NameFree(k, started, row) => k == call && started == clock
    case UserWritten(k, t, row, work) => k == call && NowIs(t, clock)
    case QrFound(k, now, row) => k == call
    case CodeFound(k, row) => k == call
    case Written(k, t, work, o) => k == call && NowIs(t, clock)
    case Closing(k, o, at) => k == call && from <= at < |h| && NowIs(h[at].txn, clock)
    case Returned(k, o, at) => k == call && from <= at < |h| && NowIs(h[at].txn, clock)
    case Aborting => true
    case Failed => true
  }

  lemma {:induction false} StepKeepsCall(s: Sys, a: Action, c: nat, call: Call, clock: int, from: nat)
    requires InCall(At(s, c), s.history, call, clock, from) && from <= |s.history|
    requires Step(true, s, a).Some? && !(a.Begin? && a.c == c)
    ensures var s' := Step(true, s, a).value; InCall(At(s', c), s'.history, call, clock, from)
  {
    StepExtendsHistory(s, a);
    if a.Tick? || a.c != c {
      OthersStay(s, a, c);
    } else {
      OwnStepKeepsCall(s, a, call, clock, from);
    }
  }

  lemma {:induction false} OthersStay(s: Sys, a: Action, c: nat)
    requires Step(true, s, a).Some? && (a.Tick? || a.c != c)
    ensures At(Step(true, s, a).value, c) == At(s, c)
  {
  }

  lemma {:induction false} OwnStepKeepsCall(s: Sys, a: Action, call: Call, clock: int, from: nat)
    requires !a.Tick? && !a.Begin? && Step(true, s, a).Some?
    requires InCall(At(s, a.c), s.history, call, clock, from) && from <= |s.history|
    ensures var s' := Step(true, s, a).value; InCall(At(s', a.c), s'.history, call, clock, from)
  {
    match a
    case Read(c) => OwnReadKeepsCall(s, c, call, clock, from);
    case Write(c, id) => OwnWriteKeepsCall(s, c, id, call, clock, from);
    case _ =>
  }

  lemma {:induction false} OwnReadKeepsCall(s: Sys, c: nat, call: Call, clock: int, from: nat)
    requires Step(true, s, Read(c)).Some?
    requires InCall(At(s, c), s.history, call, clock, from) && from <= |s.history|
    ensures var s' := Step(true, s, Read(c)).value; InCall(At(s', c), s'.history, call, clock, from)
  {
  }

  lemma {:induction false} OwnWriteKeepsCall(s: Sys, c: nat, id: string, call: Call, clock: int, from: nat)
    requires Step(true, s, Write(c, id)).Some?
    requires InCall(At(s, c), s.history, call, clock, from) && from <= |s.history|
    ensures var s' := Step(true, s, Write(c, id)).value; InCall(At(s', c), s'.history, call, clock, from)
  {
  }

  /** No other call of the client begins after action n. */
  predicate LastCall(actions: seq<Action>, n: nat, c: nat) {
    && n < |actions| && actions[n].Begin? && actions[n].c == c
    && forall i :: n < i < |actions| ==> !(actions[i].Begin? && actions[i].c == c)
  }

  /**
    Real-time order: a call takes its place in the history after everything that was there when it began,
    and a redemption carries the clock reading of that moment.
   */
  lemma {:induction false} CallsKeepRealTimeOrder(actions: seq<Action>, n: nat, c: nat)
    requires Run(true, actions).Some? && LastCall(actions, n, c)
    ensures Run(true, actions[..n]).Some?
    ensures var began, s := Run(true, actions[..n]).value, Run(true, actions).value;
            && InCall(At(s, c), s.history, actions[n].call, began.clock, |began.history|)
            && |began.history| <= |s.history|
  {
    var m := |actions| - 1;
    var p := actions[..m];
    HistoryGrows(actions, n);
    if n < m {
      assert p[..n] == actions[..n] && LastCall(p, n, c);
      CallsKeepRealTimeOrder(p, n, c);
      StepKeepsCall(Run(true, p).value, actions[m], c, actions[n].call,
                    Run(true, actions[..n]).value.clock, |Run(true, actions[..n]).value.history|);
    }
  }

  /** A caller who is told that the redemption succeeded had called before the invite expired. */
  lemma {:induction false} RedeemersCalledInTime(actions: seq<Action>, n: nat, c: nat)
    requires Run(true, actions).Some? && LastCall(actions, n, c)
    requires var l := At(Run(true, actions).value, c); l.Returned? && l.call.RedeemCall? && l.outcome.Created?
    ensures Run(true, actions[..n]).Some?
    ensures var s, began := Run(true, actions).value, Run(true, actions[..n]).value;
            var l := At(s, c);
            && l.at < |s.history|
            && var made := InviteCreation(s.history[..l.at], l.call.token);
            && made.Some? && made.value.CreateInvite? && !PastExpiry(began.clock, made.value.expiresAt)
  {
    LockedRunsRefineAtomicStore(actions);
    CallsKeepRealTimeOrder(actions, n, c);
    var s := Run(true, actions).value;
    RedemptionReadClockInTime(s.history, At(s, c).at);
  }

  /** What a client was told when it released the lock. */
  datatype Answer = Answer(call: Call, outcome: Outcome, at: nat)

  function Answers(actions: seq<Action>): seq<Answer> {
    if actions == [] then []
    else
      var p, a := actions[..|actions| - 1], actions[|actions| - 1];
      var before := Run(true, p);
      Answers(p) + if before.Some? then AnswerOf(before.value, a) else []
  }

  function AnswerOf(s: Sys, a: Action): seq<Answer> {
    if a.Release? && At(s, a.c).Closing? then [Answer(At(s, a.c).call, At(s, a.c).outcome, At(s, a.c).at)] else []
  }

  ghost predicate AnswersOk(s: Sys, answers: seq<Answer>) {
    && (forall i :: 0 <= i < |answers| ==>
          && answers[i].at < |s.history| && s.history[answers[i].at].outcome == answers[i].outcome
          && Serves(answers[i].call, s.history[answers[i].at].txn))
    && Apart(answers)
    && (forall i, c :: 0 <= i < |answers| && c in s.clients && s.clients[c].Closing? ==>
          s.clients[c].at != answers[i].at)
  }

  /** A step puts at most the acting client in a new place, which is the next one. */
  lemma {:induction false} StepPlaces(s: Sys, a: Action, c: nat)
    requires Step(true, s, a).Some?
    ensures var l, l' := At(s, c), At(Step(true, s, a).value, c);
            l'.Closing? ==> l' == l || l'.at == |s.history|
  {
  }

  /** Over a whole run, with clients calling any number of times, every answer is about an event of its own. */
  lemma {:induction false} AnswersAreEvents(actions: seq<Action>)
    requires Run(true, actions).Some?
    ensures AnswersOk(Run(true, actions).value, Answers(actions))
  {
    if actions != [] {
      var p, a := actions[..|actions| - 1], actions[|actions| - 1];
      AnswersAreEvents(p);
      LockedRunsRefineAtomicStore(p);
      StepAnswers(Run(true, p).value, a, Answers(p));
    }
  }

  lemma {:induction false} StepAnswers(s: Sys, a: Action, answers: seq<Answer>)
    requires Inv(s) && Step(true, s, a).Some? && AnswersOk(s, answers)
    ensures AnswersOk(Step(true, s, a).value, answers + AnswerOf(s, a))
  {
    var s', longer := Step(true, s, a).value, answers + AnswerOf(s, a);
    StepExtendsHistory(s, a);
    assert forall i :: 0 <= i < |s.history| ==> s'.history[i] == s.history[i];
    if a.Release? && At(s, a.c).Closing? {
      assert LocalOk(s.db, s.history, s.clients[a.c]);
    }
    forall c | c in s'.clients && s'.clients[c].Closing?
      ensures forall i :: 0 <= i < |longer| ==> s'.clients[c].at != longer[i].at
    {
      StepOpenPlaces(s, a, answers, c);
    }
  }

  /** A call that is still closing after a step has a place that no answer has. */
  lemma {:induction false} StepOpenPlaces(s: Sys, a: Action, answers: seq<Answer>, c: nat)
    requires Inv(s) && Step(true, s, a).Some? && AnswersOk(s, answers)
    requires At(Step(true, s, a).value, c).Closing?
    ensures var at, longer := At(Step(true, s, a).value, c).at, answers + AnswerOf(s, a);
            forall i :: 0 <= i < |longer| ==> at != longer[i].at
  {
    StepPlaces(s, a, c);
    if a.Release? && At(s, a.c).Closing? {
      assert LocalOk(s.db, s.history, s.clients[a.c]);
    }
  }

  /** In every interleaving whoever is told of a successful redemption got the user it asked for. */
  lemma {:induction false} RedeemersGetWhatTheyAsked(actions: seq<Action>, i: nat)
    requires Run(true, actions).Some? && i < |Answers(actions)|
    requires Answers(actions)[i].call.RedeemCall? && Answers(actions)[i].outcome.Created?
    ensures var call, u := Answers(actions)[i].call, Answers(actions)[i].outcome.user;
            && u.username == call.username && u.passwordHash == call.passwordHash && u.role == call.role
            && u.totpSecret == None && !u.totpEnabled
            && u.id in Run(true, actions).value.db.users
            && SameIdentity(Run(true, actions).value.db.users[u.id], u)
  {
    AnswersAreEvents(actions);
    LockedRunsRefineAtomicStore(actions);
    var h, at := Run(true, actions).value.history, Answers(actions)[i].at;
    RedeemedUserIsAsAsked(h, at);
    UsersAreForever(h, at + 1);
  }

  /** So did every client that has returned. */
  lemma {:induction false} ReturnedRedeemersGotWhatTheyAsked(actions: seq<Action>, c: nat)
    requires Run(true, actions).Some?
    requires var l := At(Run(true, actions).value, c); l.Returned? && l.call.RedeemCall? && l.outcome.Created?
    ensures var l := At(Run(true, actions).value, c);
            && l.outcome.user.username == l.call.username && l.outcome.user.passwordHash == l.call.passwordHash
            && l.outcome.user.role == l.call.role
  {
    LockedRunsRefineAtomicStore(actions);
    RedeemedUserIsAsAsked(Run(true, actions).value.history, At(Run(true, actions).value, c).at);
  }

  /** The answer reports an event of this kind. */
  predicate Told(a: Answer, k: Kind) {
    match k
    case Redemption => a.call.RedeemCall? && a.outcome.Created?
    case RedemptionOf(token) => a.call.RedeemCall? && a.call.token == token && a.outcome.Created?
    case QrLogin(nonce) => a.call.QrCall? && a.call.nonce == nonce && a.outcome.Login? && a.outcome.userId.Some?
    case CodeAccepted(u, c) => a.call == CodeCall(u, c) && a.outcome == Accepted(true)
    case QrPut(nonce) => a.call.WriteCall? && a.call.txn.PutQrCode? && a.call.txn.nonce == nonce
    case CodePut(u, c) =>
      a.call.WriteCall? && a.call.txn.PutRecoveryCodes? && a.call.txn.userId == u && c in a.call.txn.hashes
  }

  function Count(answers: seq<Answer>, k: Kind): nat {
    if answers == [] then 0
    else Count(answers[..|answers| - 1], k) + if Told(answers[|answers| - 1], k) then 1 else 0
  }

  /** Where in a history the events of a kind are. */
  function Positions(h: History, k: Kind): set<nat> {
    if h == [] then {}
    else Positions(h[..|h| - 1], k) + if Matches(h[|h| - 1], k) then {|h| - 1} else {}
  }

  lemma {:induction false} PositionsTally(h: History, k: Kind)
    ensures |Positions(h, k)| == Tally(h, k)
  {
    if h != [] {
      var before := Positions(h[..|h| - 1], k);
      PositionsTally(h[..|h| - 1], k);
      PositionsBelow(h[..|h| - 1], k);
      assert Positions(h, k) == before + if Matches(h[|h| - 1], k) then {|h| - 1} else {};
    }
  }

  lemma {:induction false} PositionsBelow(h: History, k: Kind)
    ensures forall p :: p in Positions(h, k) ==> p < |h|
  {
    if h != [] {
      PositionsBelow(h[..|h| - 1], k);
    }
  }

  lemma {:induction false} PositionOfEvent(h: History, k: Kind, p: nat)
    requires p < |h| && Matches(h[p], k)
    ensures p in Positions(h, k)
  {
    if p < |h| - 1 {
      PositionOfEvent(h[..|h| - 1], k, p);
    }
  }

  /** The places of the answers that report events of a kind. */
  function Places(answers: seq<Answer>, k: Kind): set<nat> {
    if answers == [] then {}
    else
      var a := answers[|answers| - 1];
      Places(answers[..|answers| - 1], k) + if Told(a, k) then {a.at} else {}
  }

  lemma {:induction false} PlaceOfAnswer(answers: seq<Answer>, k: Kind, p: nat)
    requires p in Places(answers, k)
    ensures exists i :: 0 <= i < |answers| && answers[i].at == p && Told(answers[i], k)
  {
    var n := |answers| - 1;
    if p in Places(answers[..n], k) {
      PlaceOfAnswer(answers[..n], k, p);
      var i :| 0 <= i < n && answers[..n][i].at == p && Told(answers[..n][i], k);
      assert answers[i] == answers[..n][i];
    }
  }

  lemma {:induction false} PlaceIsNew(answers: seq<Answer>, k: Kind, at: nat)
    requires forall i :: 0 <= i < |answers| ==> answers[i].at != at
    ensures at !in Places(answers, k)
  {
    if at in Places(answers, k) {
      PlaceOfAnswer(answers, k, at);
    }
  }

  ghost predicate Apart(answers: seq<Answer>) {
    forall i, j :: 0 <= i < j < |answers| ==> answers[i].at != answers[j].at
  }

  lemma {:induction false} ApartInit(answers: seq<Answer>, a: Answer)
    requires Apart(answers + [a])
    ensures Apart(answers) && forall i :: 0 <= i < |answers| ==> answers[i].at != a.at
  {
    var longer := answers + [a];
    assert longer[|answers|] == a && forall i :: 0 <= i < |answers| ==> longer[i] == answers[i];
  }

  lemma {:induction false} CountPlaces(answers: seq<Answer>, k: Kind)
    requires Apart(answers)
    ensures |Places(answers, k)| == Count(answers, k)
  {
    if answers != [] {
      var before, a := answers[..|answers| - 1], answers[|answers| - 1];
      assert answers == before + [a];
      ApartInit(before, a);
      CountPlaces(before, k);
      PlaceIsNew(before, k, a.at);
    }
  }

  /** Callers are never told of more events of a kind than there were. */
  lemma {:induction false} AnswersBoundedByEvents(actions: seq<Action>, k: Kind)
    requires Run(true, actions).Some?
    ensures Count(Answers(actions), k) <= Tally(Run(true, actions).value.history, k)
  {
    var answers, h := Answers(actions), Run(true, actions).value.history;
    AnswersAreEvents(actions);
    CountPlaces(answers, k);
    PositionsTally(h, k);
    forall p | p in Places(answers, k)
      ensures p in Positions(h, k)
    {
      PlaceOfAnswer(answers, k, p);
      PositionOfEvent(h, k, p);
    }
    SmallerSet(Places(answers, k), Positions(h, k));
  }

  /**
    In every interleaving at most one caller is ever told that it redeemed a given invite, and callers are
    told of no more logins or acceptances than there were puts.
   */
  lemma {:induction false} SuccessesToldAreBounded(actions: seq<Action>, token: string, nonce: string,
                                                   userId: string, hash: string)
    requires Run(true, actions).Some?
    ensures var told, h := Answers(actions), Run(true, actions).value.history;
            && Count(told, RedemptionOf(token)) <= 1
            && Count(told, QrLogin(nonce)) <= Tally(h, QrPut(nonce))
            && Count(told, CodeAccepted(userId, hash)) <= Tally(h, CodePut(userId, hash))
  {
    AnswersBoundedByEvents(actions, RedemptionOf(token));
    AnswersBoundedByEvents(actions, QrLogin(nonce));
    AnswersBoundedByEvents(actions, CodeAccepted(userId, hash));
    InvitesUnderInterleaving(actions, token);
    CodesUnderInterleaving(actions, nonce, userId, hash);
  }

  // ----- two runs that show what the hypotheses are for -----

  lemma {:induction false} Then(locking: bool, actions: seq<Action>, a: Action) returns (longer: seq<Action>, s: Sys)
    requires Run(locking, actions).Some? && Step(locking, Run(locking, actions).value, a).Some?
    ensures longer == actions + [a] && Run(locking, longer) == Some(s)
    ensures Some(s) == Step(locking, Run(locking, actions).value, a)
  {
    longer := actions + [a];
    assert longer[..|actions|] == actions;
    s := Step(locking, Run(locking, actions).value, a).value;
  }

  // ----- a call that runs alone -----

  /** The transaction that a call amounts to when it runs alone at a clock reading. */
  function TxnFor(call: Call, clock: int, id: string): Txn {
    match call
    case RedeemCall(token, name, pw, role) => Txn.RedeemInvite(token, name, pw, role, clock, id)
    case QrCall(nonce, ip) => ConsumeQrCode(nonce, ip, clock, clock)
    case CodeCall(user, hash) => ConsumeRecoveryCode(user, hash, clock)
    case WriteCall(t) => t
  }

  /** The client holds the lock and has read nothing. */
  ghost predicate Starts(s: Sys, c: nat, call: Call) {
    At(s, c) == Opened(call, s.clock) && s.holder == Some(c)
  }

  /** The call has been decided with a given effect on the tables of an earlier state. */
  ghost predicate Decided(s: Sys, before: Sys, c: nat, call: Call, e: Effect) {
    && At(s, c) == Closing(call, e.outcome, |before.history|) && s.db == e.db && s.clock == before.clock
    && |s.history| == |before.history| + 1 && s.history[..|before.history|] == before.history
  }

  lemma {:induction false} QrAlone(actions: seq<Action>, c: nat, call: Call) returns (longer: seq<Action>, s: Sys)
    requires Run(true, actions).Some? && call.QrCall? && Starts(Run(true, actions).value, c, call)
    ensures Run(true, longer) == Some(s)
    ensures var s0 := Run(true, actions).value;
            Decided(s, s0, c, call, Exec(s0.db, TxnFor(call, s0.clock, "")))
  {
    longer, s := Then(true, actions, Read(c));
    if At(s, c).QrFound? {
      longer, s := Then(true, longer, Write(c, ""));
      longer, s := Then(true, longer, Commit(c));
    }
  }

  lemma {:induction false} CodeAlone(actions: seq<Action>, c: nat, call: Call) returns (longer: seq<Action>, s: Sys)
    requires Run(true, actions).Some? && call.CodeCall? && Starts(Run(true, actions).value, c, call)
    ensures Run(true, longer) == Some(s)
    ensures var s0 := Run(true, actions).value;
            Decided(s, s0, c, call, Exec(s0.db, TxnFor(call, s0.clock, "")))
  {
    longer, s := Then(true, actions, Read(c));
    if At(s, c).CodeFound? {
      longer, s := Then(true, longer, Write(c, ""));
      longer, s := Then(true, longer, Commit(c));
    }
  }

  lemma {:induction false} WriteAlone(actions: seq<Action>, c: nat, call: Call) returns (longer: seq<Action>, s: Sys)
    requires Run(true, actions).Some? && call.WriteCall? && WritesOnly(call.txn)
    requires Starts(Run(true, actions).value, c, call)
    ensures Run(true, longer) == Some(s)
    ensures var s0 := Run(true, actions).value; Decided(s, s0, c, call, Exec(s0.db, call.txn))
  {
    RefusalChangesNothing(Run(true, actions).value.db, call.txn);
    longer, s := Then(true, actions, Write(c, ""));
    if At(s, c).Written? {
      longer, s := Then(true, longer, Commit(c));
    }
  }

  /** A redemption up to the point where it is refused or both reads have passed. */
  lemma {:induction false} RedeemReads(actions: seq<Action>, c: nat, call: Call, id: string)
    returns (longer: seq<Action>, s: Sys)
    requires Run(true, actions).Some? && call.RedeemCall? && Starts(Run(true, actions).value, c, call)
    ensures Run(true, longer) == Some(s)
    ensures var s0 := Run(true, actions).value;
            match InviteRefusal(s0.db, call.token, call.username, s0.clock)
            case Some(refusal) => Decided(s, s0, c, call, Effect(s0.db, refusal))
            case None =>
              && call.token in s0.db.invites
              && At(s, c) == NameFree(call, s0.clock, s0.db.invites[call.token])
              && s.db == s0.db && s.clock == s0.clock && s.history == s0.history
  {
    longer, s := Then(true, actions, Read(c));
    if At(s, c).InviteFound? {
      longer, s := Then(true, longer, CheckName(c));
    }
  }

  lemma {:induction false} RedeemWrites(actions: seq<Action>, c: nat, call: Call, clock: int, row: Invite, id: string)
    returns (longer: seq<Action>, s: Sys)
    requires Run(true, actions).Some? && call.RedeemCall?
    requires At(Run(true, actions).value, c) == NameFree(call, clock, row)
    ensures Run(true, longer) == Some(s)
    ensures var s0 := Run(true, actions).value;
            var u := NewUser(id, call.username, call.passwordHash, call.role, clock);
            if id in s0.db.users then Decided(s, s0, c, call, Effect(s0.db, IntegrityError))
            else
              Decided(s, s0, c, call,
                      Effect(s0.db.(users := s0.db.users[id := u],
                                    invites := s0.db.invites[call.token := MarkInvite(row, clock, id)]), Created(u)))
  {
    longer, s := Then(true, actions, Write(c, id));
    if At(s, c).UserWritten? {
      longer, s := Then(true, longer, Mark(c));
      longer, s := Then(true, longer, Commit(c));
    }
  }

  lemma {:induction false} RedeemAlone(actions: seq<Action>, c: nat, call: Call, id: string)
    returns (longer: seq<Action>, s: Sys)
    requires Run(true, actions).Some? && call.RedeemCall? && Starts(Run(true, actions).value, c, call)
    ensures Run(true, longer) == Some(s)
    ensures var s0 := Run(true, actions).value;
            Decided(s, s0, c, call, Exec(s0.db, TxnFor(call, s0.clock, id)))
  {
    var s0 := Run(true, actions).value;
    longer, s := RedeemReads(actions, c, call, id);
    if InviteRefusal(s0.db, call.token, call.username, s0.clock).None? {
      longer, s := RedeemWrites(longer, c, call, s0.clock, s0.db.invites[call.token], id);
    }
  }

  /**
    A client may fail at any point: what it had not committed is gone, what it had is kept, and the lock is
    free again.
   */
  lemma {:induction false} FailureRollsBack(actions: seq<Action>, c: nat) returns (longer: seq<Action>, s: Sys)
    requires Run(true, actions).Some? && Inside(At(Run(true, actions).value, c))
    ensures Run(true, longer) == Some(s)
    ensures var s0 := Run(true, actions).value;
            s.db == s0.db && s.history == s0.history && s.holder.None? && At(s, c) == Failed
  {
    longer, s := Then(true, actions, Fail(c));
    longer, s := Then(true, longer, Release(c));
  }

  /** Calls other than raw redemptions and consumptions, which have calls of their own. */
  predicate Callable(call: Call) {
    call.WriteCall? ==> WritesOnly(call.txn)
  }

  /**
    Nothing is lost by running statement by statement: from every reachable state with the lock free, every
    call can run to its end, and alone it has exactly the effect and the answer of its atomic transaction.
   */
  lemma {:induction false} CallRunsAlone(actions: seq<Action>, c: nat, call: Call, id: string)
    returns (longer: seq<Action>, s: Sys)
    requires Run(true, actions).Some? && Callable(call)
    requires Run(true, actions).value.holder.None? && !At(Run(true, actions).value, c).Waiting?
    ensures Run(true, longer) == Some(s) && s.holder.None?
    ensures var s0 := Run(true, actions).value;
            var e := Exec(s0.db, TxnFor(call, s0.clock, id));
            At(s, c) == Returned(call, e.outcome, |s0.history|) && s.db == e.db
  {
    LockedRunsRefineAtomicStore(actions);
    var s0 := Run(true, actions).value;
    assert !Inside(At(s0, c));
    longer, s := Then(true, actions, Begin(c, call));
    longer, s := Then(true, longer, Acquire(c));
    if call.RedeemCall? {
      longer, s := RedeemAlone(longer, c, call, id);
    } else if call.QrCall? {
      longer, s := QrAlone(longer, c, call);
    } else if call.CodeCall? {
      longer, s := CodeAlone(longer, c, call);
    } else {
      longer, s := WriteAlone(longer, c, call);
    }
    longer, s := Then(true, longer, Release(c));
  }

  /** Client 0 holds the lock with its write prepared. */
  lemma {:induction false} Prepares(locking: bool, t: Txn) returns (actions: seq<Action>, s: Sys)
    requires WritesOnly(t) && Exec(EMPTY_DB, t).outcome == Done
    ensures Run(locking, actions) == Some(s)
    ensures s == Sys(EMPTY_DB, 1, Some(0), map[0 := Written(WriteCall(t), t, Exec(EMPTY_DB, t).db, Done)], [])
  {
    actions, s := Then(locking, [], Begin(0, WriteCall(t)));
    actions, s := Then(locking, actions, Acquire(0));
    actions, s := Then(locking, actions, Write(0, ""));
  }

  /** Runs one transaction that only writes through client 0. */
  lemma {:induction false} Setup(locking: bool, t: Txn) returns (actions: seq<Action>, s: Sys)
    requires WritesOnly(t) && Exec(EMPTY_DB, t).outcome == Done
    ensures Run(locking, actions) == Some(s)
    ensures s.db == Exec(EMPTY_DB, t).db && s.history == [Event(t, Done)] && s.clock == 1 && s.holder.None?
    ensures forall c :: c != 0 ==> c !in s.clients
  {
    actions, s := Prepares(locking, t);
    actions, s := Then(locking, actions, Commit(0));
    actions, s := Then(locking, actions, Release(0));
  }

  /** Without the lock two clients can both read an unused QR row. */
  lemma {:induction false} TwoReaders(put: Txn, row: QrCode) returns (actions: seq<Action>, s: Sys)
    requires put == PutQrCode("n", "u", 1, 0, "ip") && row == QrCode("u", 1, 0, None, "ip", None)
    ensures Run(false, actions) == Some(s) && s.clock == 1
    ensures s.db.qrCodes == map["n" := row] && s.history == [Event(put, Done)]
    ensures At(s, 1) == At(s, 2) == QrFound(QrCall("n", "ip"), 1, row)
  {
    actions, s := Setup(false, put);
    actions, s := Then(false, actions, Begin(1, QrCall("n", "ip")));
    actions, s := Then(false, actions, Begin(2, QrCall("n", "ip")));
    actions, s := Then(false, actions, Acquire(1));
    actions, s := Then(false, actions, Acquire(2));
    assert Lookup(s.db.qrCodes, "n") == Some(row);
    actions, s := Then(false, actions, Read(1));
    actions, s := Then(false, actions, Read(2));
  }

  /**
    Without the lock one put of a QR code serves two logins: both clients read the row before either
    updates it.
   */
  lemma {:induction false} WithoutLockOnePutTwoLogins() returns (actions: seq<Action>, s: Sys)
    ensures Run(false, actions) == Some(s)
    ensures Tally(s.history, QrPut("n")) == 1 && Tally(s.history, QrLogin("n")) == 2
  {
    var put := PutQrCode("n", "u", 1, 0, "ip");
    var row := QrCode("u", 1, 0, None, "ip", None);
    actions, s := TwoReaders(put, row);
    actions, s := LogsIn(actions, 1, row);
    actions, s := LogsIn(actions, 2, row);
    TwoLogins(put, Event(ConsumeQrCode("n", "ip", 1, 1), Login(Some("u"))));
  }

  /** A client that has read the unused row marks it and commits, whatever has happened to the row since. */
  lemma {:induction false} LogsIn(actions: seq<Action>, c: nat, row: QrCode) returns (longer: seq<Action>, s: Sys)
    requires Run(false, actions).Some? && row.userId == "u"
    requires var s0 := Run(false, actions).value; s0.clock == 1 && At(s0, c) == QrFound(QrCall("n", "ip"), 1, row)
    ensures Run(false, longer) == Some(s) && s.clock == 1
    ensures var s0 := Run(false, actions).value;
            && s.history == s0.history + [Event(ConsumeQrCode("n", "ip", 1, 1), Login(Some("u")))]
            && forall d :: d != c ==> At(s, d) == At(s0, d)
  {
    longer, s := Then(false, actions, Write(c, ""));
    longer, s := Then(false, longer, Commit(c));
  }

  lemma {:induction false} TwoLogins(put: Txn, login: Event)
    requires put == PutQrCode("n", "u", 1, 0, "ip")
    requires login == Event(ConsumeQrCode("n", "ip", 1, 1), Login(Some("u")))
    ensures var h := [Event(put, Done)] + [login] + [login];
            Tally(h, QrPut("n")) == 1 && Tally(h, QrLogin("n")) == 2
  {
    var h0 := [Event(put, Done)];
    var h1 := h0 + [login];
    var h2 := h1 + [login];
    assert h0[..0] == [] && h1[..1] == h0 && h2[..2] == h1;
    assert Tally([], QrPut("n")) == 0 && Tally([], QrLogin("n")) == 0;
    assert Matches(h0[0], QrPut("n")) && !Matches(h0[0], QrLogin("n"));
    assert Matches(login, QrLogin("n")) && !Matches(login, QrPut("n"));
    assert Tally(h0, QrPut("n")) == 1 && Tally(h0, QrLogin("n")) == 0;
    assert Tally(h1, QrPut("n")) == 1 && Tally(h1, QrLogin("n")) == 1;
  }

  /** The lock is exactly what is needed: logins are bounded by puts in every run if and only if it excludes. */
  lemma {:induction false} LoginsBoundedIffLocking(locking: bool)
    ensures locking <==>
            forall actions, nonce :: Run(locking, actions).Some? ==>
              var h := Run(locking, actions).value.history;
              Tally(h, QrLogin(nonce)) <= Tally(h, QrPut(nonce))
  {
    if locking {
      forall actions, nonce | Run(locking, actions).Some?
        ensures var h := Run(locking, actions).value.history;
                Tally(h, QrLogin(nonce)) <= Tally(h, QrPut(nonce))
      {
        CodesUnderInterleaving(actions, nonce, "", "");
      }
    } else {
      var actions, s := WithoutLockOnePutTwoLogins();
    }
  }

  // ----- redemptions and expiry -----

  /** A redeemer that called at clock 1 and has read its invite after it expired. */
  lemma {:induction false} LateReader(e: int, row: Invite, call: Call) returns (actions: seq<Action>, s: Sys)
    requires e >= 1 && row == Invite("admin", 1, e, None, None) && call == RedeemCall("t", "name", "pw", Viewer)
    ensures Run(true, actions) == Some(s) && s.clock == e + 1
    ensures s.db == EMPTY_DB.(invites := map["t" := row])
    ensures At(s, 1) == InviteFound(call, 1, row)
  {
    actions, s := Setup(true, CreateInvite("t", "admin", 1, e));
    actions, s := Then(true, actions, Begin(1, call));
    actions, s := Then(true, actions, Tick(e + 1));
    actions, s := Then(true, actions, Acquire(1));
    assert Lookup(s.db.invites, "t") == Some(row);
    actions, s := Then(true, actions, Read(1));
  }

  /** The same redeemer with the new user written. */
  lemma {:induction false} LateWriter(e: int, row: Invite, call: Call) returns (actions: seq<Action>, s: Sys)
    requires e >= 1 && row == Invite("admin", 1, e, None, None) && call == RedeemCall("t", "name", "pw", Viewer)
    ensures Run(true, actions) == Some(s) && s.clock == e + 1 && s.db.invites == map["t" := row]
    ensures At(s, 1).UserWritten? && At(s, 1).row == row && At(s, 1).work.invites == map["t" := row]
    ensures At(s, 1).txn == Txn.RedeemInvite("t", "name", "pw", Viewer, 1, "u_1")
  {
    actions, s := LateReader(e, row, call);
    assert !NameTaken(s.db.users, "name");
    actions, s := Then(true, actions, CheckName(1));
    actions, s := Then(true, actions, Write(1, "u_1"));
  }

  /** After these actions a client is about to commit a redemption of an invite whose expiry `e` has passed. */
  ghost predicate LateCommit(actions: seq<Action>, c: nat, e: int) {
    Run(true, actions).Some? &&
    var s := Run(true, actions).value;
    && At(s, c).Written? && At(s, c).txn.RedeemInvite? && At(s, c).outcome.Created?
    && At(s, c).txn.token in s.db.invites && s.db.invites[At(s, c).txn.token].expiresAt == e
    && PastExpiry(s.clock, e)
  }

  /** A redemption tests expiry against the clock of its call, so it can commit after any later expiry. */
  lemma {:induction false} RedemptionMayCommitAfterExpiry(e: int) returns (actions: seq<Action>)
    requires e >= 1
    ensures LateCommit(actions, 1, e)
  {
    var s;
    actions, s := LateWriter(e, Invite("admin", 1, e, None, None), RedeemCall("t", "name", "pw", Viewer));
    actions, s := Then(true, actions, Mark(1));
  }

  /** The clock of the call was at least 1 and not past the expiry. */
  lemma {:induction false} LateExpiryIsPositive(actions: seq<Action>, c: nat, e: int)
    requires LateCommit(actions, c, e)
    ensures e >= 1
  {
    LockedRunsRefineAtomicStore(actions);
    var s := Run(true, actions).value;
    assert LocalOk(s.db, s.history, At(s, c));
  }

  /**
    Exactly when no redemption is late: for an invite with expiry `e`, no run commits a redemption with the
    clock past `e` if and only if `e` is below 1 - zero means never, and before the clock starts nobody redeems.
   */
  lemma {:induction false} NoLateCommitIff(e: int)
    ensures e < 1 <==> forall actions, c :: !LateCommit(actions, c, e)
  {
    if e < 1 {
      forall actions, c
        ensures !LateCommit(actions, c, e)
      {
        if LateCommit(actions, c, e) {
          LateExpiryIsPositive(actions, c, e);
        }
      }
    } else {
      var actions := RedemptionMayCommitAfterExpiry(e);
    }
  }
}
