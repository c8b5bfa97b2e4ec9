/**
  Concurrent calls of the refresh endpoint.

  A call reads the row of its token once, outside the write lock, and then runs the transactions that row
  calls for, one at a time; other clients' transactions come in between.  The flag `exclusive` keeps two
  calls with the same token from being under way together, which the program does not.
 */
module RefreshInterleaving {
  import opened Wrappers
  import opened AuthStore
  import opened AuthHistories
  import opened RefreshChains

  datatype Caller =
    | Storing(put: Txn, rotate: Txn)   // found its token active; nothing written yet
    | Rotating(rotate: Txn)            // new token stored, old one not yet revoked
    | Revoking(txn: Txn)
    | Over                             // answered or failed

  /** `used` holds every jti that was ever drawn. */
  datatype Sys = Sys(history: History, callers: map<nat, Caller>, used: set<string>)

  datatype Action =
    | Other(txn: Txn)            // any transaction of another client, a login's put included, but no rotation
    | Read(c: nat, q: Request)
    | Write(c: nat)
    | Fail(c: nat)               // a crash; what the call has committed stays

  const START := Sys([], map[], {})

  predicate Pending(l: Caller) {
    l.Storing? || l.Rotating?
  }

  /** The token has been drawn by a call that has not returned it yet, so nobody can present it. */
  predicate Unreturned(s: Sys, jti: string) {
    exists c :: c in s.callers && Pending(s.callers[c]) && s.callers[c].rotate.RotateToken? &&
                s.callers[c].rotate.newJti == jti
  }

  predicate UnderWay(s: Sys, jti: string) {
    exists c :: c in s.callers && Pending(s.callers[c]) && s.callers[c].rotate.RotateToken? &&
                s.callers[c].rotate.oldJti == jti
  }

  function Ran(s: Sys, t: Txn): Sys {
    s.(history := s.history + [Event(t, Exec(After(s.history), t).outcome)])
  }

  function Planned(ts: seq<Txn>): Caller {
    if |ts| == 2 then Storing(ts[0], ts[1]) else if |ts| == 1 then Revoking(ts[0]) else Over
  }

  function Step(exclusive: bool, s: Sys, a: Action): Option<Sys> {
    match a
    case Other(t) =>
      if t.RotateToken? || (t.PutToken? && t.jti in s.used) then None
      else Some(Ran(s, t).(used := if t.PutToken? then s.used + {t.jti} else s.used))
    case Read(c, q) =>
      if q.newJti in s.used || Unreturned(s, q.jti) || (c in s.callers && !s.callers[c].Over?) then None
      else if exclusive && UnderWay(s, q.jti) then None
      else
        Some(s.(callers := s.callers[c := Planned(Plan(After(s.history), q).1)], used := s.used + {q.newJti}))
    case Fail(c) =>
      if c in s.callers && !s.callers[c].Over? then Some(s.(callers := s.callers[c := Over])) else None
    case Write(c) =>
      if c !in s.callers then None
      else
        match s.callers[c]
        case Storing(put, rotate) => Some(Ran(s, put).(callers := s.callers[c := Rotating(rotate)]))
        case Rotating(rotate) => Some(Ran(s, rotate).(callers := s.callers[c := Over]))
        case Revoking(t) => Some(Ran(s, t).(callers := s.callers[c := Over]))
        case Over => None
  }

  function Run(exclusive: bool, actions: seq<Action>): Option<Sys> {
    if actions == [] then Some(START)
    else
      var before := Run(exclusive, actions[..|actions| - 1]);
      if before.None? then None else Step(exclusive, before.value, actions[|actions| - 1])
  }

  // ----- the invariant -----

  /** A call that is going to rotate has drawn a token of its own that nothing is linked to. */
  ghost predicate CallerOk(exclusive: bool, db: Db, used: set<string>, l: Caller) {
    && (Pending(l) ==>
          && l.rotate.RotateToken? && Unlinked(db, l.rotate.newJti) && l.rotate.newJti != l.rotate.oldJti
          && l.rotate.newJti in used && l.rotate.oldJti in used
          && (exclusive ==> Next(db, l.rotate.oldJti).None?))
    && (l.Storing? ==> l.put.PutToken? && l.put.jti == l.rotate.newJti && l.put.jti !in db.tokens)
    && (l.Revoking? ==> !l.txn.PutToken? && !l.txn.RotateToken?)
  }

  /** Two calls draw different tokens, and neither replaces the one the other has drawn. */
  ghost predicate Apart(exclusive: bool, l: Caller, m: Caller) {
    Pending(l) && Pending(m) && l.rotate.RotateToken? && m.rotate.RotateToken? ==>
      && l.rotate.newJti != m.rotate.newJti && l.rotate.newJti != m.rotate.oldJti
      && (exclusive ==> l.rotate.oldJti != m.rotate.oldJti)
  }

  ghost predicate UsedOk(db: Db, used: set<string>) {
    && (forall j :: j in db.tokens ==> j in used)
    && (forall j, k :: Edge(db, j, k) ==> k in used)
  }

  ghost predicate CallersOk(exclusive: bool, db: Db, s: Sys) {
    && (forall c :: c in s.callers ==> CallerOk(exclusive, db, s.used, s.callers[c]))
    && (forall c, d :: c in s.callers && d in s.callers && c != d ==> Apart(exclusive, s.callers[c], s.callers[d]))
  }

  ghost predicate Inv(exclusive: bool, s: Sys) {
    && Valid(s.history) && FreshlyLinked(s.history) && (exclusive ==> Guarded(s.history))
    && UsedOk(After(s.history), s.used) && CallersOk(exclusive, After(s.history), s)
  }

  /** What a step may do to the tables without disturbing a pending call. */
  ghost predicate Undisturbed(exclusive: bool, db: Db, db': Db, l: Caller) {
    Pending(l) && l.rotate.RotateToken? ==>
      && (Unlinked(db, l.rotate.newJti) ==> Unlinked(db', l.rotate.newJti))
      && (l.Storing? && l.put.PutToken? && l.put.jti !in db.tokens ==> l.put.jti !in db'.tokens)
      && (exclusive ==> Next(db', l.rotate.oldJti) == Next(db, l.rotate.oldJti))
  }

  lemma {:induction false} UndisturbedStaysOk(exclusive: bool, db: Db, db': Db, used: set<string>,
                                              used': set<string>, l: Caller)
    requires CallerOk(exclusive, db, used, l) && Undisturbed(exclusive, db, db', l) && used <= used'
    ensures CallerOk(exclusive, db', used', l)
  {
  }

  /** One more transaction with fresh links. */
  lemma {:induction false} RanKeeps(exclusive: bool, s: Sys, t: Txn)
    requires Valid(s.history) && FreshlyLinked(s.history) && (exclusive ==> Guarded(s.history))
    requires FreshLink(After(s.history), t) && (exclusive ==> NotReplacedOtherwise(After(s.history), t))
    ensures var h := Ran(s, t).history;
            && Valid(h) && FreshlyLinked(h) && (exclusive ==> Guarded(h)) && After(h) == Exec(After(s.history), t).db
  {
    var h := Ran(s, t).history;
    assert h[..|h| - 1] == s.history;
  }

  /** The token table has one more row at most, the put one. */
  lemma {:induction false} TokensGrowByPut(db: Db, t: Txn, j: string)
    requires j in Exec(db, t).db.tokens
    ensures j in db.tokens || (t.PutToken? && j == t.jti)
  {
    if !t.PutToken? && !t.RotateToken? && !t.RevokeToken? && !t.RevokeAllTokens? && !t.RevokeDevice? {
      OthersKeepTokens(db, t);
    }
  }

  /** A transaction other than a rotation leaves all edges alone. */
  lemma {:induction false} OtherTxnUndisturbing(exclusive: bool, db: Db, t: Txn, l: Caller)
    requires !t.RotateToken? && FreshPut(db, t)
    requires l.Storing? && l.put.PutToken? && t.PutToken? ==> l.put.jti != t.jti
    ensures Undisturbed(exclusive, db, Exec(db, t).db, l)
  {
    OtherStepsKeepEdges(db, t);
    if l.Storing? && l.put.PutToken? && l.put.jti in Exec(db, t).db.tokens {
      TokensGrowByPut(db, t, l.put.jti);
    }
    assert forall j, k :: Edge(Exec(db, t).db, j, k) ==> Edge(db, j, k);
  }

  /** A rotation between tokens that a call does not have to do with leaves it alone. */
  lemma {:induction false} RotationUndisturbing(exclusive: bool, db: Db, t: Txn, l: Caller)
    requires t.RotateToken?
    requires Pending(l) && l.rotate.RotateToken? ==>
               && l.rotate.newJti != t.newJti && l.rotate.newJti != t.oldJti
               && (exclusive ==> l.rotate.oldJti != t.oldJti)
    ensures Undisturbed(exclusive, db, Exec(db, t).db, l)
  {
    RotationEdges(db, t);
    if l.Storing? && l.put.PutToken? && l.put.jti in Exec(db, t).db.tokens {
      TokensGrowByPut(db, t, l.put.jti);
    }
    assert Pending(l) && l.rotate.RotateToken? ==>
           forall j :: Edge(Exec(db, t).db, j, l.rotate.newJti) ==> Edge(db, j, l.rotate.newJti);
  }

  lemma {:induction false} UsedStaysOk(db: Db, t: Txn, used: set<string>, used': set<string>)
    requires UsedOk(db, used) && used <= used' && FreshPut(db, t)
    requires (t.PutToken? ==> t.jti in used') && (t.RotateToken? ==> t.newJti in used')
    ensures UsedOk(Exec(db, t).db, used')
  {
    var after := Exec(db, t).db;
    forall j | j in after.tokens
      ensures j in used'
    {
      TokensGrowByPut(db, t, j);
    }
    forall j, k | Edge(after, j, k)
      ensures k in used'
    {
      if t.RotateToken? {
        RotationEdges(db, t);
        assert k == t.newJti || Edge(db, j, k);
      } else {
        OtherStepsKeepEdges(db, t);
        assert Edge(db, j, k);
      }
    }
  }

  /** All calls stay in order when one moves on and none of the others is disturbed. */
  lemma {:induction false} CallersStayOk(exclusive: bool, s: Sys, c: nat, l: Caller, db: Db, db': Db, used: set<string>)
    requires CallersOk(exclusive, db, s) && s.used <= used && CallerOk(exclusive, db', used, l)
    requires forall d :: d in s.callers && d != c ==>
               && Undisturbed(exclusive, db, db', s.callers[d])
               && Apart(exclusive, l, s.callers[d]) && Apart(exclusive, s.callers[d], l)
    ensures CallersOk(exclusive, db', s.(callers := s.callers[c := l], used := used))
  {
    var s' := s.(callers := s.callers[c := l], used := used);
    forall d | d in s'.callers
      ensures CallerOk(exclusive, db', used, s'.callers[d])
    {
      if d != c {
        UndisturbedStaysOk(exclusive, db, db', s.used, used, s.callers[d]);
      }
    }
  }

  lemma {:induction false} StoreKeepsInv(exclusive: bool, s: Sys, c: nat)
    requires Inv(exclusive, s) && c in s.callers && s.callers[c].Storing?
    ensures Inv(exclusive, Step(exclusive, s, Write(c)).value)
  {
    var l, db := s.callers[c], After(s.history);
    var db' := Exec(db, l.put).db;
    assert CallerOk(exclusive, db, s.used, l);
    RanKeeps(exclusive, s, l.put);
    UsedStaysOk(db, l.put, s.used, s.used);
    OtherTxnUndisturbing(exclusive, db, l.put, Rotating(l.rotate));
    forall d | d in s.callers && d != c
      ensures Undisturbed(exclusive, db, db', s.callers[d])
      ensures Apart(exclusive, Rotating(l.rotate), s.callers[d]) && Apart(exclusive, s.callers[d], Rotating(l.rotate))
    {
      assert Apart(exclusive, l, s.callers[d]) && Apart(exclusive, s.callers[d], l);
      assert CallerOk(exclusive, db, s.used, s.callers[d]);
      OtherTxnUndisturbing(exclusive, db, l.put, s.callers[d]);
    }
    CallersStayOk(exclusive, s, c, Rotating(l.rotate), db, db', s.used);
  }

  lemma {:induction false} RotateKeepsInv(exclusive: bool, s: Sys, c: nat)
    requires Inv(exclusive, s) && c in s.callers && s.callers[c].Rotating?
    ensures Inv(exclusive, Step(exclusive, s, Write(c)).value)
  {
    var l, db := s.callers[c], After(s.history);
    var db' := Exec(db, l.rotate).db;
    assert CallerOk(exclusive, db, s.used, l);
    RanKeeps(exclusive, s, l.rotate);
    UsedStaysOk(db, l.rotate, s.used, s.used);
    forall d | d in s.callers && d != c
      ensures Undisturbed(exclusive, db, db', s.callers[d])
    {
      assert Apart(exclusive, l, s.callers[d]) && Apart(exclusive, s.callers[d], l);
      RotationUndisturbing(exclusive, db, l.rotate, s.callers[d]);
    }
    CallersStayOk(exclusive, s, c, Over, db, db', s.used);
  }

  lemma {:induction false} RevokeKeepsInv(exclusive: bool, s: Sys, c: nat)
    requires Inv(exclusive, s) && c in s.callers && s.callers[c].Revoking?
    ensures Inv(exclusive, Step(exclusive, s, Write(c)).value)
  {
    var l, db := s.callers[c], After(s.history);
    var db' := Exec(db, l.txn).db;
    assert CallerOk(exclusive, db, s.used, l);
    RanKeeps(exclusive, s, l.txn);
    UsedStaysOk(db, l.txn, s.used, s.used);
    forall d | d in s.callers && d != c
      ensures Undisturbed(exclusive, db, db', s.callers[d])
    {
      OtherTxnUndisturbing(exclusive, db, l.txn, s.callers[d]);
    }
    CallersStayOk(exclusive, s, c, Over, db, db', s.used);
  }

  lemma {:induction false} OtherKeepsInv(exclusive: bool, s: Sys, t: Txn)
    requires Inv(exclusive, s) && Step(exclusive, s, Other(t)).Some?
    ensures Inv(exclusive, Step(exclusive, s, Other(t)).value)
  {
    var db, s' := After(s.history), Step(exclusive, s, Other(t)).value;
    var db' := Exec(db, t).db;
    RanKeeps(exclusive, s, t);
    UsedStaysOk(db, t, s.used, s'.used);
    forall d | d in s.callers
      ensures CallerOk(exclusive, db', s'.used, s.callers[d])
    {
      assert CallerOk(exclusive, db, s.used, s.callers[d]);
      OtherTxnUndisturbing(exclusive, db, t, s.callers[d]);
      UndisturbedStaysOk(exclusive, db, db', s.used, s'.used, s.callers[d]);
    }
  }

  /** A call that finds its token active has a new token that nothing is linked to. */
  lemma {:induction false} PlannedOk(exclusive: bool, s: Sys, q: Request)
    requires Inv(exclusive, s) && q.newJti !in s.used
    ensures var l := Planned(Plan(After(s.history), q).1);
            && CallerOk(exclusive, After(s.history), s.used + {q.newJti}, l)
            && (Pending(l) ==> l.rotate.newJti == q.newJti && l.rotate.oldJti == q.jti)
  {
    var db := After(s.history);
    ForestAfter(s.history);
    assert Unlinked(db, q.newJti) by {
      assert q.newJti !in db.tokens;
      assert forall j :: !Edge(db, j, q.newJti);
    }
  }

  lemma {:induction false} ReadKeepsInv(exclusive: bool, s: Sys, c: nat, q: Request)
    requires Inv(exclusive, s) && Step(exclusive, s, Read(c, q)).Some?
    ensures Inv(exclusive, Step(exclusive, s, Read(c, q)).value)
  {
    var db, l := After(s.history), Planned(Plan(After(s.history), q).1);
    PlannedOk(exclusive, s, q);
    forall d | d in s.callers && d != c
      ensures Undisturbed(exclusive, db, db, s.callers[d])
      ensures Apart(exclusive, l, s.callers[d]) && Apart(exclusive, s.callers[d], l)
    {
      assert CallerOk(exclusive, db, s.used, s.callers[d]);
    }
    CallersStayOk(exclusive, s, c, l, db, db, s.used + {q.newJti});
  }

  lemma {:induction false} FailKeepsInv(exclusive: bool, s: Sys, c: nat)
    requires Inv(exclusive, s) && Step(exclusive, s, Fail(c)).Some?
    ensures Inv(exclusive, Step(exclusive, s, Fail(c)).value)
  {
    var db := After(s.history);
    CallersStayOk(exclusive, s, c, Over, db, db, s.used);
  }

  lemma {:induction false} StepKeepsInv(exclusive: bool, s: Sys, a: Action)
    requires Inv(exclusive, s) && Step(exclusive, s, a).Some?
    ensures Inv(exclusive, Step(exclusive, s, a).value)
  {
    match a
    case Other(t) => OtherKeepsInv(exclusive, s, t);
    case Read(c, q) => ReadKeepsInv(exclusive, s, c, q);
    case Write(c) =>
      match s.callers[c] {
        case Storing(put, rotate) => StoreKeepsInv(exclusive, s, c);
        case Rotating(rotate) => RotateKeepsInv(exclusive, s, c);
        case Revoking(t) => RevokeKeepsInv(exclusive, s, c);
      }
    case Fail(c) => FailKeepsInv(exclusive, s, c);
  }

  lemma {:induction false} RunsKeepInv(exclusive: bool, actions: seq<Action>)
    requires Run(exclusive, actions).Some?
    ensures Inv(exclusive, Run(exclusive, actions).value)
  {
    if actions != [] {
      RunsKeepInv(exclusive, actions[..|actions| - 1]);
      StepKeepsInv(exclusive, Run(exclusive, actions[..|actions| - 1]).value, actions[|actions| - 1]);
    }
  }

  // ----- what holds of every interleaving of refresh calls -----

  /**
    However refresh calls and other transactions interleave, `replaced_by` stays injective and free of
    cycles, and every chain ends.
   */
  lemma {:induction false} RacingChainsEnd(exclusive: bool, actions: seq<Action>, jti: string, n: nat)
    requires Run(exclusive, actions).Some?
    ensures var db := After(Run(exclusive, actions).value.history);
            && Next(db, Follow(db, jti, |Replaced(db)|)).None?
            && (Next(db, jti).Some? && n > 0 ==> Follow(db, jti, n) != jti)
            && forall i, j, k :: Edge(db, i, k) && Edge(db, j, k) ==> i == j
  {
    RunsKeepInv(exclusive, actions);
    var h := Run(exclusive, actions).value.history;
    ChainsEnd(h, jti);
    if Next(After(h), jti).Some? && n > 0 {
      NoCycles(h, jti, n);
    }
  }

  // ----- ending all sessions of a user -----

  /** No token of the user is active, whatever the time. */
  ghost predicate SessionsEnded(db: Db, userId: string) {
    forall now :: ActiveSessions(db, userId, now) == {}
  }

  lemma {:induction false} EndedIffRevoked(db: Db, userId: string)
    ensures SessionsEnded(db, userId) <==>
            forall j :: j in db.tokens && db.tokens[j].userId == userId ==> db.tokens[j].revoked
  {
    if SessionsEnded(db, userId) {
      forall j | j in db.tokens && db.tokens[j].userId == userId
        ensures db.tokens[j].revoked
      {
        var now := db.tokens[j].expiresAt - 1;
        assert j !in ActiveSessions(db, userId, now);
      }
    }
  }

  /** A call is about to store a new token for the user. */
  predicate AboutToStore(s: Sys, userId: string) {
    exists c :: c in s.callers && s.callers[c].Storing? && s.callers[c].put.PutToken? &&
                s.callers[c].put.userId == userId
  }

  /** No login of the user; and a token whose hash is on record carries the user of its row. */
  predicate NoLogin(s: Sys, a: Action, userId: string) {
    && (a.Other? && a.txn.PutToken? ==> a.txn.userId != userId)
    && (a.Read? && a.q.sub == userId ==>
          var tokens := After(s.history).tokens;
          a.q.jti in tokens && tokens[a.q.jti].tokenHash == a.q.tokenHash ==> tokens[a.q.jti].userId == userId)
  }

  /** The actions can be played on from a state, without a login of the user. */
  ghost predicate Continues(exclusive: bool, s: Sys, more: seq<Action>, userId: string)
    decreases |more|
  {
    more == [] ||
    (NoLogin(s, more[0], userId) && Step(exclusive, s, more[0]).Some? &&
     Continues(exclusive, Step(exclusive, s, more[0]).value, more[1..], userId))
  }

  ghost function Continued(exclusive: bool, s: Sys, more: seq<Action>): Sys
    decreases |more|
  {
    if more == [] || Step(exclusive, s, more[0]).None? then s
    else Continued(exclusive, Step(exclusive, s, more[0]).value, more[1..])
  }

  /** A transaction that is no put for the user makes none of the user's tokens active. */
  lemma {:induction false} TxnKeepsEnded(db: Db, t: Txn, userId: string)
    requires SessionsEnded(db, userId) && (t.PutToken? ==> t.userId != userId)
    ensures SessionsEnded(Exec(db, t).db, userId)
  {
    EndedIffRevoked(db, userId);
    EndedIffRevoked(Exec(db, t).db, userId);
    TxnKeepsRevoked(db, t, userId);
  }

  lemma {:induction false} TxnKeepsRevoked(db: Db, t: Txn, userId: string)
    requires forall j :: j in db.tokens && db.tokens[j].userId == userId ==> db.tokens[j].revoked
    requires t.PutToken? ==> t.userId != userId
    ensures var tokens := Exec(db, t).db.tokens;
            forall j :: j in tokens && tokens[j].userId == userId ==> tokens[j].revoked
  {
    if !t.PutToken? && !t.RotateToken? && !t.RevokeToken? && !t.RevokeAllTokens? && !t.RevokeDevice? {
      OthersKeepTokens(db, t);
    }
  }

  /** Ended sessions stay ended at each step without a login, and no new call gets to store a token. */
  lemma {:induction false} StepKeepsEnded(exclusive: bool, s: Sys, a: Action, userId: string)
    requires Inv(exclusive, s) && SessionsEnded(After(s.history), userId) && !AboutToStore(s, userId)
    requires NoLogin(s, a, userId) && Step(exclusive, s, a).Some?
    ensures var s' := Step(exclusive, s, a).value;
            SessionsEnded(After(s'.history), userId) && !AboutToStore(s', userId)
  {
    match a
    case Other(t) => RanKeepsEnded(s, t, userId);
    case Read(c, q) => ReadStoresNothing(exclusive, s, c, q, userId);
    case Fail(c) =>
    case Write(c) =>
      assert CallerOk(exclusive, After(s.history), s.used, s.callers[c]);
      if s.callers[c].Storing? {
        RanKeepsEnded(s, s.callers[c].put, userId);
      } else if s.callers[c].Rotating? {
        RanKeepsEnded(s, s.callers[c].rotate, userId);
      } else {
        RanKeepsEnded(s, s.callers[c].txn, userId);
      }
  }

  lemma {:induction false} RanKeepsEnded(s: Sys, t: Txn, userId: string)
    requires SessionsEnded(After(s.history), userId) && (t.PutToken? ==> t.userId != userId)
    ensures SessionsEnded(After(Ran(s, t).history), userId)
  {
    TxnKeepsEnded(After(s.history), t, userId);
    assert Ran(s, t).history[..|s.history|] == s.history;
  }

  /** A call cannot find a token of the user active. */
  lemma {:induction false} ReadStoresNothing(exclusive: bool, s: Sys, c: nat, q: Request, userId: string)
    requires SessionsEnded(After(s.history), userId) && !AboutToStore(s, userId)
    requires NoLogin(s, Read(c, q), userId) && Step(exclusive, s, Read(c, q)).Some?
    ensures !AboutToStore(Step(exclusive, s, Read(c, q)).value, userId)
  {
    EndedIffRevoked(After(s.history), userId);
  }

  lemma {:induction false} EndedStayEnded(exclusive: bool, s: Sys, more: seq<Action>, userId: string)
    requires Inv(exclusive, s) && SessionsEnded(After(s.history), userId) && !AboutToStore(s, userId)
    requires Continues(exclusive, s, more, userId)
    ensures SessionsEnded(After(Continued(exclusive, s, more).history), userId)
    decreases |more|
  {
    if more != [] {
      StepKeepsInv(exclusive, s, more[0]);
      StepKeepsEnded(exclusive, s, more[0], userId);
      EndedStayEnded(exclusive, Step(exclusive, s, more[0]).value, more[1..], userId);
    }
  }

  /** A call that has found its token active stores the new one whatever has been revoked since. */
  lemma {:induction false} PendingCallRevives(exclusive: bool, s: Sys, userId: string) returns (more: seq<Action>)
    requires Inv(exclusive, s) && AboutToStore(s, userId)
    ensures Continues(exclusive, s, more, userId)
    ensures !SessionsEnded(After(Continued(exclusive, s, more).history), userId)
  {
    var c :| c in s.callers && s.callers[c].Storing? && s.callers[c].put.PutToken? && s.callers[c].put.userId == userId;
    var s' := Step(exclusive, s, Write(c)).value;
    more := [Write(c)];
    OneAction(exclusive, s, Write(c), userId);
    StoredIsActive(s.history, s'.history, s.callers[c].put, s.callers[c].put.expiresAt - 1);
  }

  lemma {:induction false} OneAction(exclusive: bool, s: Sys, a: Action, userId: string)
    requires NoLogin(s, a, userId) && Step(exclusive, s, a).Some?
    ensures Continues(exclusive, s, [a], userId) && Continued(exclusive, s, [a]) == Step(exclusive, s, a).value
  {
    assert [a][1..] == [];
  }

  /** A put makes its token active until it expires. */
  lemma {:induction false} StoredIsActive(h: History, g: History, put: Txn, now: int)
    requires |g| == |h| + 1 && g[..|h|] == h && g[|h|].txn == put && put.PutToken? && now < put.expiresAt
    ensures put.jti in ActiveSessions(After(g), put.userId, now)
  {
  }

  lemma {:induction false} RevokeAllEnds(h: History, userId: string)
    requires h != [] && h[|h| - 1].txn.RevokeAllTokens? && h[|h| - 1].txn.userId == userId
    ensures SessionsEnded(After(h), userId)
  {
    var before, t := After(h[..|h| - 1]), h[|h| - 1].txn;
    assert After(h).tokens == RevokeRows(before.tokens, TokensOf(before.tokens, userId), t.usedAt);
    EndedIffRevoked(After(h), userId);
  }

  /**
    Exactly when a revoke-all - a request for it, or a detected replay - ends a user's sessions until the next
    login, however refresh calls interleave: when no call is about to store a new token for the user.
   */
  lemma {:induction false} RevokeAllEndsSessionsIff(exclusive: bool, actions: seq<Action>, userId: string)
    requires Run(exclusive, actions).Some?
    requires var h := Run(exclusive, actions).value.history;
             h != [] && h[|h| - 1].txn.RevokeAllTokens? && h[|h| - 1].txn.userId == userId
    ensures var s := Run(exclusive, actions).value;
            !AboutToStore(s, userId) <==>
            forall more :: Continues(exclusive, s, more, userId) ==>
              SessionsEnded(After(Continued(exclusive, s, more).history), userId)
  {
    var s := Run(exclusive, actions).value;
    RunsKeepInv(exclusive, actions);
    RevokeAllEnds(s.history, userId);
    if AboutToStore(s, userId) {
      var more := PendingCallRevives(exclusive, s, userId);
    } else {
      forall more | Continues(exclusive, s, more, userId)
        ensures SessionsEnded(After(Continued(exclusive, s, more).history), userId)
      {
        EndedStayEnded(exclusive, s, more, userId);
      }
    }
  }

  // ----- a call that runs alone -----

  /** The call may begin: its new token is new, its own token has been returned to somebody, and the caller is free. */
  predicate MayRead(exclusive: bool, s: Sys, c: nat, q: Request) {
    && q.newJti !in s.used && !Unreturned(s, q.jti) && (c in s.callers ==> s.callers[c].Over?)
    && (exclusive ==> !UnderWay(s, q.jti))
  }

  function Writes(c: nat, n: nat): seq<Action> {
    seq(n, i requires 0 <= i < n => Write(c))
  }

  lemma {:induction false} WritesRun(exclusive: bool, s: Sys, c: nat, ts: seq<Txn>)
    requires |ts| <= 2 && c in s.callers
    requires s.callers[c] == if |ts| == 2 then Storing(ts[0], ts[1]) else if |ts| == 1 then Revoking(ts[0]) else Over
    ensures var s' := Continued(exclusive, s, Writes(c, |ts|));
            && After(s'.history) == ExecAll(After(s.history), ts) && s'.callers == s.callers[c := Over]
  {
    if |ts| == 1 {
      OneWrite(exclusive, s, c);
      assert Writes(c, 1) == [Write(c)] && ts[1..] == [];
    } else if |ts| == 2 {
      OneWrite(exclusive, s, c);
      var mid := Step(exclusive, s, Write(c)).value;
      OneWrite(exclusive, mid, c);
      var end := Step(exclusive, mid, Write(c)).value;
      ContinuedOnce(exclusive, mid, Write(c), []);
      ContinuedOnce(exclusive, s, Write(c), [Write(c)]);
      assert Writes(c, 2) == [Write(c)] + [Write(c)] && [Write(c)] + [] == [Write(c)];
      assert ts[1..] == [ts[1]] && ts[1..][1..] == [];
      assert ExecAll(Exec(After(s.history), ts[0]).db, ts[1..]) == Exec(Exec(After(s.history), ts[0]).db, ts[1]).db;
    }
  }

  lemma {:induction false} ContinuedOnce(exclusive: bool, s: Sys, a: Action, more: seq<Action>)
    requires Step(exclusive, s, a).Some?
    ensures Continued(exclusive, s, [a] + more) == Continued(exclusive, Step(exclusive, s, a).value, more)
  {
    assert ([a] + more)[1..] == more;
  }

  lemma {:induction false} OneWrite(exclusive: bool, s: Sys, c: nat)
    requires c in s.callers && !s.callers[c].Over?
    ensures var l, r := s.callers[c], Step(exclusive, s, Write(c));
            var t := if l.Storing? then l.put else if l.Rotating? then l.rotate else l.txn;
            && r.Some? && After(r.value.history) == Exec(After(s.history), t).db
            && r.value.callers == s.callers[c := if l.Storing? then Rotating(l.rotate) else Over]
  {
    var t := if s.callers[c].Storing? then s.callers[c].put
             else if s.callers[c].Rotating? then s.callers[c].rotate else s.callers[c].txn;
    assert Ran(s, t).history[..|s.history|] == s.history;
  }

  /** A call may fail at any point; what it has committed stays. */
  lemma {:induction false} CallMayFail(exclusive: bool, s: Sys, c: nat)
    requires c in s.callers && !s.callers[c].Over?
    ensures Step(exclusive, s, Fail(c)) == Some(s.(callers := s.callers[c := Over]))
  {
  }

  /** A call that nothing comes in between of has exactly the effect that the endpoint has alone. */
  lemma {:induction false} RefreshRunsAlone(exclusive: bool, s: Sys, c: nat, q: Request) returns (more: seq<Action>)
    requires MayRead(exclusive, s, c, q)
    ensures var s' := Continued(exclusive, s, more);
            && After(s'.history) == ExecAll(After(s.history), Plan(After(s.history), q).1)
            && c in s'.callers && s'.callers[c] == Over
  {
    var ts := Plan(After(s.history), q).1;
    var mid := Step(exclusive, s, Read(c, q)).value;
    WritesRun(exclusive, mid, c, ts);
    more := [Read(c, q)] + Writes(c, |ts|);
    assert more[1..] == Writes(c, |ts|);
  }

  // ----- two calls with one token -----

  lemma {:induction false} Then(actions: seq<Action>, a: Action) returns (longer: seq<Action>, s: Sys)
    requires Run(false, actions).Some? && Step(false, Run(false, actions).value, a).Some?
    ensures longer == actions + [a] && Run(false, longer) == Some(s)
    ensures Some(s) == Step(false, Run(false, actions).value, a)
  {
    longer := actions + [a];
    assert longer[..|actions|] == actions;
    s := Step(false, Run(false, actions).value, a).value;
  }

  const LOGIN := PutToken("j", "u", "hash", 1, 100, None, None, None, None, None)

  function Refresh(newJti: string): Request {
    Request("u", "j", "hash", newJti, "new", 100, 1, None)
  }

  lemma {:induction false} AfterLogin() returns (actions: seq<Action>, s: Sys, row: Token)
    ensures Run(false, actions) == Some(s) && s.callers == map[] && s.used == {"j"}
    ensures "j" in After(s.history).tokens && After(s.history).tokens["j"] == row
    ensures !row.revoked && row.tokenHash == "hash" && row.expiresAt == 100
  {
    actions, s := Then([], Other(LOGIN));
    assert s.history[..0] == [];
    row := After(s.history).tokens["j"];
  }

  /** A refresh that has found its token active, and then a revoke-all of its user's tokens. */
  lemma {:induction false} RevokedWhilePending() returns (actions: seq<Action>, s: Sys, put: Txn)
    ensures Run(false, actions) == Some(s) && s.history != []
    ensures s.history[|s.history| - 1].txn == RevokeAllTokens("u", 1)
    ensures s.callers == map[1 := Storing(put, RotateToken("j", "a", 1))]
    ensures put.PutToken? && put.jti == "a" && put.userId == "u" && put.expiresAt == 100
  {
    var row;
    actions, s, row := AfterLogin();
    put := PutFor(row, Refresh("a"));
    actions, s := Then(actions, Read(1, Refresh("a")));
    actions, s := Then(actions, Other(RevokeAllTokens("u", 1)));
  }

  /** The refresh then gives the user a session that the revoke-all has not ended. */
  lemma {:induction false} RevokeAllMissesPendingRefresh() returns (actions: seq<Action>, s: Sys)
    ensures Run(false, actions) == Some(s) && |s.history| >= 2
    ensures s.history[|s.history| - 2].txn == RevokeAllTokens("u", 1)
    ensures "a" in ActiveSessions(After(s.history), "u", 1)
  {
    var put;
    actions, s, put := RevokedWhilePending();
    var h := s.history;
    actions, s := Stores(actions, 1);
    StoredIsActive(h, s.history, put, 1);
  }

  /** A caller stores its new token. */
  lemma {:induction false} Stores(actions: seq<Action>, c: nat) returns (longer: seq<Action>, s: Sys)
    requires Run(false, actions).Some? && c in Run(false, actions).value.callers
    requires Run(false, actions).value.callers[c].Storing?
    ensures Run(false, longer) == Some(s)
    ensures var s0 := Run(false, actions).value;
            && s.callers == s0.callers[c := Rotating(s0.callers[c].rotate)] && |s.history| == |s0.history| + 1
            && s.history[..|s0.history|] == s0.history && s.history[|s0.history|].txn == s0.callers[c].put
  {
    longer, s := Then(actions, Write(c));
  }

  /** After a login, two calls have found its token active. */
  lemma {:induction false} TwoReaders() returns (actions: seq<Action>, s: Sys, row: Token)
    ensures Run(false, actions) == Some(s) && "j" in After(s.history).tokens
    ensures s.callers == map[1 := Storing(PutFor(row, Refresh("a")), RotateToken("j", "a", 1)),
                             2 := Storing(PutFor(row, Refresh("b")), RotateToken("j", "b", 1))]
  {
    actions, s, row := AfterLogin();
    actions, s := Then(actions, Read(1, Refresh("a")));
    actions, s := Then(actions, Read(2, Refresh("b")));
  }

  /** The same calls with their new tokens stored. */
  lemma {:induction false} TwoWriters() returns (actions: seq<Action>, s: Sys)
    ensures Run(false, actions) == Some(s) && "j" in After(s.history).tokens
    ensures s.callers == map[1 := Rotating(RotateToken("j", "a", 1)), 2 := Rotating(RotateToken("j", "b", 1))]
    ensures "a" in After(s.history).tokens && !After(s.history).tokens["a"].revoked && Unlinked(After(s.history), "a")
  {
    var row;
    actions, s, row := TwoReaders();
    var h := s.history;
    actions, s := Stores(actions, 1);
    assert s.history[..|h|] == h;
    var mid := s.history;
    actions, s := Stores(actions, 2);
    assert s.history[..|h|] == s.history[..|mid|][..|h|] == h;
    StoresTwo(h, s.history, row);
    NothingLinkedYet(actions, 1);
  }

  /** In any run nothing is linked to a token that its caller has not yet put in the old one's place. */
  lemma {:induction false} NothingLinkedYet(actions: seq<Action>, c: nat)
    requires Run(false, actions).Some? && c in Run(false, actions).value.callers
    requires Run(false, actions).value.callers[c].Rotating?
    ensures var s := Run(false, actions).value;
            s.callers[c].rotate.RotateToken? && Unlinked(After(s.history), s.callers[c].rotate.newJti)
  {
    RunsKeepInv(false, actions);
    var s := Run(false, actions).value;
    assert CallerOk(false, After(s.history), s.used, s.callers[c]);
  }

  lemma {:induction false} StoresTwo(h: History, g: History, row: Token)
    requires |g| == |h| + 2 && g[..|h|] == h && "j" in After(h).tokens
    requires g[|h|].txn == PutFor(row, Refresh("a")) && g[|h| + 1].txn == PutFor(row, Refresh("b"))
    ensures "j" in After(g).tokens && "a" in After(g).tokens && !After(g).tokens["a"].revoked
  {
    assert g[..|h| + 1][..|h|] == h;
  }

  /** A caller that has stored its new token rotates. */
  lemma {:induction false} Rotates(actions: seq<Action>, c: nat) returns (longer: seq<Action>, s: Sys)
    requires Run(false, actions).Some? && c in Run(false, actions).value.callers
    requires Run(false, actions).value.callers[c].Rotating?
    ensures Run(false, longer) == Some(s)
    ensures var s0 := Run(false, actions).value;
            && s.callers == s0.callers[c := Over] && |s.history| == |s0.history| + 1
            && s.history[..|s0.history|] == s0.history && s.history[|s0.history|].txn == s0.callers[c].rotate
  {
    longer, s := Then(actions, Write(c));
  }

  /** The edges after two rotations of one token. */
  lemma {:induction false} RotatesTwice(h: History, g: History, first: Txn, second: Txn)
    requires |g| == |h| + 2 && g[..|h|] == h && g[|h|].txn == first && g[|h| + 1].txn == second
    requires first.RotateToken? && second.RotateToken? && first.oldJti == second.oldJti
    requires first.oldJti in After(h).tokens && first.oldJti != first.newJti && first.newJti != second.newJti
    requires first.newJti in After(h).tokens && Unlinked(After(h), first.newJti)
    ensures !EdgesKept(g) && Edge(After(g), first.oldJti, second.newJti)
    ensures Lookup(After(g).tokens, first.newJti) == Lookup(After(h).tokens, first.newJti)
    ensures forall j :: !Edge(After(g), j, first.newJti)
  {
    var mid := g[..|h| + 1];
    assert mid[..|h|] == h && g[..|g|] == g && g[..|g| - 1] == mid;
    SecondRotationOverwrites(After(h), first, second);
    assert Edge(After(mid), first.oldJti, first.newJti) && !Edge(After(g), first.oldJti, first.newJti);
    assert !EdgesWithin(After(g[..|g| - 1]), After(g[..|g|]));
  }

  /**
    Two overlapping calls with one token: the second overwrites the edge that the first set, and the first
    call's new token stays active with nothing leading to it.
   */
  lemma {:induction false} RacingRotationsOverwrite() returns (actions: seq<Action>, s: Sys)
    ensures Run(false, actions) == Some(s) && !EdgesKept(s.history)
    ensures var db := After(s.history);
            && Edge(db, "j", "b") && "a" in db.tokens && !db.tokens["a"].revoked && forall j :: !Edge(db, j, "a")
  {
    actions, s := TwoWriters();
    var h := s.history;
    actions, s := Rotates(actions, 1);
    assert s.history[..|h|] == h;
    var mid := s.history;
    actions, s := Rotates(actions, 2);
    assert s.history[..|h|] == s.history[..|mid|][..|h|] == h;
    RotatesTwice(h, s.history, RotateToken("j", "a", 1), RotateToken("j", "b", 1));
  }

  /**
    Edges are set once in every run if and only if no two calls with the same token are under way
    together.
   */
  lemma {:induction false} EdgesKeptIffExclusive(exclusive: bool)
    ensures exclusive <==>
            forall actions :: Run(exclusive, actions).Some? ==> EdgesKept(Run(exclusive, actions).value.history)
  {
    if exclusive {
      forall actions | Run(true, actions).Some?
        ensures EdgesKept(Run(true, actions).value.history)
      {
        RunsKeepInv(true, actions);
        var h := Run(true, actions).value.history;
        FreshlyLinkedPuts(h);
        EdgesKeptIff(h);
      }
    } else {
      var actions, s := RacingRotationsOverwrite();
    }
  }
}
