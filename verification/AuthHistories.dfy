/**
  Whole histories of the authentication store.

  A history lists the transactions that completed, in order, each with the outcome its caller saw.
  The theorems hold of every valid history from the empty store; module AuthInterleaving shows that
  every interleaving of concurrent clients under the write lock produces such a history.
 */
module AuthHistories {
  import opened Wrappers
  import opened AuthStore

  datatype Event = Event(txn: Txn, outcome: Outcome)

  type History = seq<Event>

  /** The tables after a history. */
  function After(h: History): Db {
    if h == [] then EMPTY_DB else Exec(After(h[..|h| - 1]), h[|h| - 1].txn).db
  }

  /** Each caller saw the outcome that its transaction has in the state it ran in. */
  ghost predicate Valid(h: History) {
    h == [] ||
    (Valid(h[..|h| - 1]) && h[|h| - 1].outcome == Exec(After(h[..|h| - 1]), h[|h| - 1].txn).outcome)
  }

  /** No clock reading recorded as "used" is zero. */
  ghost predicate ClockRuns(h: History) {
    h == [] || (ClockRuns(h[..|h| - 1]) && UsedAtIsSet(h[|h| - 1].txn))
  }

  predicate UsedAtIsSet(t: Txn) {
    (t.RedeemInvite? ==> t.now != 0) && (t.ConsumeQrCode? ==> t.usedAt != 0)
  }

  /** The kinds of event that are counted below. */
  datatype Kind =
    | Redemption
    | RedemptionOf(token: string)
    | QrPut(nonce: string)
    | QrLogin(nonce: string)
    | CodePut(userId: string, hash: string)
    | CodeAccepted(userId: string, hash: string)

  predicate Matches(e: Event, k: Kind) {
    match k
    case Redemption => e.txn.RedeemInvite? && e.outcome.Created?
    case RedemptionOf(token) => e.txn.RedeemInvite? && e.outcome.Created? && e.txn.token == token
    case QrPut(nonce) => e.txn.PutQrCode? && e.txn.nonce == nonce
    case QrLogin(nonce) => e.txn.ConsumeQrCode? && e.txn.nonce == nonce && e.outcome.Login? && e.outcome.userId.Some?
    case CodePut(u, c) => e.txn.PutRecoveryCodes? && e.txn.userId == u && c in e.txn.hashes
    case CodeAccepted(u, c) =>
      e.txn.ConsumeRecoveryCode? && e.txn.userId == u && e.txn.hash == c && e.outcome == Accepted(true)
  }

  function Tally(h: History, k: Kind): nat {
    if h == [] then 0 else Tally(h[..|h| - 1], k) + if Matches(h[|h| - 1], k) then 1 else 0
  }

  /** Every event of a valid history had its outcome in the state it ran in, and every prefix is valid. */
  lemma {:induction false} ValidPrefix(h: History, n: nat)
    requires n <= |h|
    ensures Valid(h) ==> Valid(h[..n])
    ensures Valid(h) && n < |h| ==> h[n].outcome == Exec(After(h[..n]), h[n].txn).outcome
    ensures ClockRuns(h) ==> ClockRuns(h[..n])
    ensures ClockRuns(h) && n < |h| ==> UsedAtIsSet(h[n].txn)
    decreases |h|
  {
    if n < |h| - 1 {
      var p := h[..|h| - 1];
      ValidPrefix(p, n);
      assert p[..n] == h[..n] && p[n] == h[n];
    } else if n == |h| {
      assert h[..n] == h;
    }
  }

  // ----- which transactions touch which table -----

  lemma {:induction false} OthersKeepUsers(db: Db, t: Txn)
    requires !t.UpsertUser? && !t.SetTotp? && !t.CreateUser? && !t.RedeemInvite?
    ensures Exec(db, t).db.users == db.users
  {
  }

  lemma {:induction false} OthersKeepInvites(db: Db, t: Txn)
    requires !t.CreateInvite? && !t.RedeemInvite?
    ensures Exec(db, t).db.invites == db.invites
  {
  }

  lemma {:induction false} OthersKeepQrCodes(db: Db, t: Txn)
    requires !t.PutQrCode? && !t.ConsumeQrCode?
    ensures Exec(db, t).db.qrCodes == db.qrCodes
  {
  }

  lemma {:induction false} OthersKeepRecovery(db: Db, t: Txn)
    requires !t.PutRecoveryCodes? && !t.ConsumeRecoveryCode?
    ensures Exec(db, t).db.recovery == db.recovery
  {
  }

  lemma {:induction false} OthersKeepTokens(db: Db, t: Txn)
    requires !t.PutToken? && !t.RotateToken? && !t.RevokeToken? && !t.RevokeAllTokens? && !t.RevokeDevice?
    ensures Exec(db, t).db.tokens == db.tokens
  {
  }

  // ----- users -----

  /** Ids are the primary key, and no two users share a name. */
  ghost predicate UsersConsistent(users: map<string, User>) {
    && (forall id :: id in users ==> users[id].id == id)
    && (forall id, id' :: id in users && id' in users && users[id].username == users[id'].username ==> id == id')
  }

  ghost predicate SameIdentity(u: User, v: User) {
    u.id == v.id && u.username == v.username && u.createdAt == v.createdAt
  }

  ghost predicate UsersKept(before: map<string, User>, after: map<string, User>) {
    forall id :: id in before ==> id in after && SameIdentity(after[id], before[id])
  }

  /** How a transaction may change the users table. */
  lemma {:induction false} UsersStep(db: Db, t: Txn)
    ensures var users, after := db.users, Exec(db, t).db.users;
            || after == users
            || (t.UpsertUser? && NameTaken(users, t.user.username) && after == Upserted(users, t.user))
            || OneUserMore(users, after)
            || (t.SetTotp? && UsersKept(users, after) && after.Keys == users.Keys)
  {
    if t.UpsertUser? {
      UpsertStep(db, t.user);
    } else if t.CreateUser? || t.RedeemInvite? {
      InsertStep(db, t);
    } else if t.SetTotp? {
    } else {
      OthersKeepUsers(db, t);
    }
  }

  ghost predicate OneUserMore(before: map<string, User>, after: map<string, User>) {
    exists u: User :: u.id !in before && !NameTaken(before, u.username) && after == before[u.id := u]
  }

  lemma {:induction false} UpsertStep(db: Db, u: User)
    ensures var users, after := db.users, Upsert(db, u).db.users;
            || after == users || OneUserMore(users, after)
            || (NameTaken(users, u.username) && after == Upserted(users, u))
  {
  }

  lemma {:induction false} InsertStep(db: Db, t: Txn)
    requires t.CreateUser? || t.RedeemInvite?
    ensures Exec(db, t).db.users == db.users || OneUserMore(db.users, Exec(db, t).db.users)
  {
    if t.RedeemInvite? && Exec(db, t).outcome.Created? {
      var u := NewUser(t.id, t.username, t.passwordHash, t.role, t.now);
      assert Exec(db, t).db.users == db.users[u.id := u];
    }
  }

  /** No transaction removes a user or changes an id, a name or a creation time, nor lets two users share a name. */
  lemma {:induction false} StepKeepsUsers(db: Db, t: Txn)
    ensures UsersKept(db.users, Exec(db, t).db.users)
    ensures UsersConsistent(db.users) ==> UsersConsistent(Exec(db, t).db.users)
  {
    UsersStep(db, t);
    UsersStepKeeps(db.users, Exec(db, t).db.users, t);
  }

  lemma {:induction false} UsersStepKeeps(users: map<string, User>, after: map<string, User>, t: Txn)
    requires || after == users
             || (t.UpsertUser? && NameTaken(users, t.user.username) && after == Upserted(users, t.user))
             || OneUserMore(users, after)
             || (t.SetTotp? && UsersKept(users, after) && after.Keys == users.Keys)
    ensures UsersKept(users, after) && (UsersConsistent(users) ==> UsersConsistent(after))
  {
  }

  lemma {:induction false} UsersStayConsistent(h: History)
    ensures UsersConsistent(After(h).users)
  {
    if h != [] {
      UsersStayConsistent(h[..|h| - 1]);
      StepKeepsUsers(After(h[..|h| - 1]), h[|h| - 1].txn);
    }
  }

  /** A user once created exists for ever, under the same id and the same name. */
  lemma {:induction false} UsersAreForever(h: History, n: nat)
    requires n <= |h|
    ensures UsersKept(After(h[..n]).users, After(h).users)
    decreases |h|
  {
    if n == |h| {
      assert h[..n] == h;
    } else {
      var p := h[..|h| - 1];
      assert p[..n] == h[..n];
      UsersAreForever(p, n);
      StepKeepsUsers(After(p), h[|h| - 1].txn);
    }
  }

  // ----- invites -----

  function UsedInvites(db: Db): set<string> {
    set t | t in db.invites && Truthy(db.invites[t].usedAt)
  }

  /** The users that used invites name. */
  function InvitedUsers(db: Db): set<Option<string>> {
    set t | t in UsedInvites(db) :: db.invites[t].usedBy
  }

  ghost predicate InvitesConsistent(db: Db) {
    && (forall t :: t in UsedInvites(db) ==> db.invites[t].usedBy.Some? && db.invites[t].usedBy.value in db.users)
    && (forall t, t' :: t in UsedInvites(db) && t' in UsedInvites(db) && db.invites[t].usedBy == db.invites[t'].usedBy
                        ==> t == t')
  }

  /** A transaction other than a successful redemption leaves the used invites as they are. */
  lemma {:induction false} OnlyRedemptionUsesInvites(db: Db, t: Txn)
    requires !(t.RedeemInvite? && Exec(db, t).outcome.Created?)
    ensures UsedInvites(Exec(db, t).db) == UsedInvites(db)
    ensures forall k :: k in UsedInvites(db) ==> Exec(db, t).db.invites[k] == db.invites[k]
  {
    if t.RedeemInvite? {
      RefusalChangesNothing(db, t);
    } else if t.CreateInvite? {
    } else {
      OthersKeepInvites(db, t);
    }
  }

  /** A successful redemption uses one invite that was unused and creates the user it names. */
  lemma {:induction false} RedemptionUsesOneInvite(db: Db, t: Txn)
    requires t.RedeemInvite? && Exec(db, t).outcome.Created? && t.now != 0
    ensures t.token !in UsedInvites(db) && UsedInvites(Exec(db, t).db) == UsedInvites(db) + {t.token}
    ensures t.id !in db.users && t.id in Exec(db, t).db.users
    ensures Exec(db, t).db.invites[t.token].usedBy == Some(t.id)
    ensures forall k :: k in UsedInvites(db) ==> Exec(db, t).db.invites[k] == db.invites[k]
  {
  }

  /**
    Conservation of invites: in every history the number of used invites is the number of users made by
    redemption; a token is redeemed at most once, and exactly once when its row is marked; `used_by` is
    injective and names an existing user.
   */
  lemma {:induction false} InviteConservation(h: History)
    requires Valid(h) && ClockRuns(h)
    ensures InvitesConsistent(After(h))
    ensures |UsedInvites(After(h))| == Tally(h, Redemption)
    ensures forall token :: Tally(h, RedemptionOf(token)) == if token in UsedInvites(After(h)) then 1 else 0
  {
    if h != [] {
      var p, e := h[..|h| - 1], h[|h| - 1];
      InviteConservation(p);
      StepKeepsUsers(After(p), e.txn);
      if e.txn.RedeemInvite? && e.outcome.Created? {
        RedemptionUsesOneInvite(After(p), e.txn);
      } else {
        OnlyRedemptionUsesInvites(After(p), e.txn);
      }
    }
  }

  /** One invited user per used invite: the marks are as many as the users they name. */
  lemma {:induction false} InvitedUsersAreDistinct(h: History)
    requires Valid(h) && ClockRuns(h)
    ensures |InvitedUsers(After(h))| == Tally(h, Redemption)
  {
    InviteConservation(h);
    var db := After(h);
    InjectiveImage(UsedInvites(db), db.invites);
  }

  lemma {:induction false} InjectiveImage(s: set<string>, invites: map<string, Invite>)
    requires s <= invites.Keys
    requires forall t, t' :: t in s && t' in s && invites[t].usedBy == invites[t'].usedBy ==> t == t'
    ensures |set t | t in s :: invites[t].usedBy| == |s|
  {
    if s != {} {
      var x :| x in s;
      var r := s - {x};
      InjectiveImage(r, invites);
      assert (set t | t in s :: invites[t].usedBy) == (set t | t in r :: invites[t].usedBy) + {invites[x].usedBy};
    }
  }

  /** The row of a used invite never changes again. */
  lemma {:induction false} UsedInvitesAreForever(h: History, n: nat, token: string)
    requires n <= |h| && Valid(h) && ClockRuns(h) && token in UsedInvites(After(h[..n]))
    ensures token in UsedInvites(After(h)) && After(h).invites[token] == After(h[..n]).invites[token]
    decreases |h|
  {
    if n == |h| {
      assert h[..n] == h;
    } else {
      var p, e := h[..|h| - 1], h[|h| - 1];
      assert p[..n] == h[..n];
      UsedInvitesAreForever(p, n, token);
      if e.txn.RedeemInvite? && e.outcome.Created? {
        RedemptionUsesOneInvite(After(p), e.txn);
      } else {
        OnlyRedemptionUsesInvites(After(p), e.txn);
      }
    }
  }

  /** The tables just after event i. */
  lemma {:induction false} AfterEvent(h: History, i: nat)
    requires i < |h|
    ensures After(h[..i + 1]) == Exec(After(h[..i]), h[i].txn).db
  {
    var q := h[..i + 1];
    assert q[..|q| - 1] == h[..i] && q[|q| - 1] == h[i];
  }

  lemma {:induction false} RedeemedRows(h: History, i: nat)
    requires Valid(h) && ClockRuns(h) && i < |h| && Matches(h[i], Redemption)
    ensures var t, db := h[i].txn, After(h[..i + 1]);
            && t.token in UsedInvites(db) && db.invites[t.token].usedBy == Some(t.id)
            && db.invites[t.token].usedAt == Some(t.now)
            && t.id in db.users && db.users[t.id].id == t.id && db.users[t.id].username == t.username
  {
    ValidPrefix(h, i);
    AfterEvent(h, i);
    RedemptionUsesOneInvite(After(h[..i]), h[i].txn);
  }

  /** Right after a redemption the row of the new user holds what the caller asked for, with no second factor. */
  lemma {:induction false} RedeemedUserIsAsAsked(h: History, i: nat)
    requires Valid(h) && i < |h| && Matches(h[i], Redemption)
    ensures var t, users := h[i].txn, After(h[..i + 1]).users;
            && t.id in users && h[i].outcome == Created(users[t.id])
            && users[t.id].id == t.id && users[t.id].username == t.username
            && users[t.id].passwordHash == t.passwordHash && users[t.id].role == t.role
            && users[t.id].createdAt == t.now && users[t.id].totpSecret == None && !users[t.id].totpEnabled
  {
    ValidPrefix(h, i);
    AfterEvent(h, i);
  }

  /** A redemption is recorded for ever: its invite names its user, who keeps the id and the name asked for. */
  lemma {:induction false} RedemptionIsForever(h: History, i: nat)
    requires Valid(h) && ClockRuns(h) && i < |h| && Matches(h[i], Redemption)
    ensures var t := h[i].txn;
            && t.token in After(h).invites && After(h).invites[t.token].usedBy == Some(t.id)
            && After(h).invites[t.token].usedAt == Some(t.now)
            && t.id in After(h).users && After(h).users[t.id].id == t.id && After(h).users[t.id].username == t.username
  {
    var t := h[i].txn;
    RedeemedRows(h, i);
    UsedInvitesAreForever(h, i + 1, t.token);
    UsersAreForever(h, i + 1);
    assert SameIdentity(After(h).users[t.id], After(h[..i + 1]).users[t.id]);
  }

  /** The transaction that made an invite, if there was one. */
  function InviteCreation(h: History, token: string): Option<Txn> {
    if h == [] then None
    else
      var e := h[|h| - 1];
      if e.txn.CreateInvite? && e.outcome == Done && e.txn.token == token then Some(e.txn)
      else InviteCreation(h[..|h| - 1], token)
  }

  /** What one transaction does to the row of an invite. */
  lemma {:induction false} InviteStep(db: Db, t: Txn, token: string)
    ensures var row, after := Lookup(db.invites, token), Exec(db, t);
            var row' := Lookup(after.db.invites, token);
            if t.CreateInvite? && t.token == token && after.outcome == Done then
              row == None && row' == Some(Invite(t.createdBy, t.createdAt, t.expiresAt, None, None))
            else if t.RedeemInvite? && t.token == token && after.outcome.Created? then
              row.Some? && row' == Some(MarkInvite(row.value, t.now, t.id))
            else
              row' == row
  {
    if t.CreateInvite? {
    } else if t.RedeemInvite? {
    } else {
      OthersKeepInvites(db, t);
    }
  }

  /** An invite keeps the expiry it was made with, and there is an invite exactly where one was made. */
  lemma {:induction false} InviteRowsFollowCreation(h: History, token: string)
    requires Valid(h)
    ensures var db, made := After(h), InviteCreation(h, token);
            && (token in db.invites <==> made.Some?)
            && (made.Some? ==> made.value.CreateInvite? && db.invites[token].expiresAt == made.value.expiresAt)
  {
    if h != [] {
      InviteRowsFollowCreation(h[..|h| - 1], token);
      InviteStep(After(h[..|h| - 1]), h[|h| - 1].txn, token);
    }
  }

  /** Each redemption read the clock no later than the expiry its invite was made with, zero meaning none. */
  lemma {:induction false} RedemptionReadClockInTime(h: History, i: nat)
    requires Valid(h) && i < |h| && Matches(h[i], Redemption)
    ensures var made := InviteCreation(h[..i], h[i].txn.token);
            && made.Some? && made.value.CreateInvite? && !PastExpiry(h[i].txn.now, made.value.expiresAt)
  {
    ValidPrefix(h, i);
    InviteRowsFollowCreation(h[..i], h[i].txn.token);
  }

  /**
    The redemption test reads `used_at` by truthiness, so a redeemed invite refuses the next caller
    if and only if the clock did not read zero when it was redeemed.
   */
  lemma {:induction false} SecondRedemptionRefused(db: Db, first: Txn, second: Txn)
    requires first.RedeemInvite? && second.RedeemInvite? && first.token == second.token
    requires Exec(db, first).outcome.Created?
    requires !PastExpiry(second.now, db.invites[first.token].expiresAt)
    requires second.id !in Exec(db, first).db.users && !NameTaken(Exec(db, first).db.users, second.username)
    ensures Exec(Exec(db, first).db, second).outcome == Used <==> first.now != 0
    ensures Exec(Exec(db, first).db, second).outcome.Created? <==> first.now == 0
  {
  }

  // ----- QR login codes -----

  /** The latest put of a nonce, if there was one. */
  function LatestPut(h: History, nonce: string): Option<Txn> {
    if h == [] then None
    else if Matches(h[|h| - 1], QrPut(nonce)) then Some(h[|h| - 1].txn)
    else LatestPut(h[..|h| - 1], nonce)
  }

  /** What one transaction does to the row of a nonce. */
  lemma {:induction false} QrStep(db: Db, t: Txn, nonce: string)
    ensures var row, row' := Lookup(db.qrCodes, nonce), Lookup(Exec(db, t).db.qrCodes, nonce);
            if t.PutQrCode? && t.nonce == nonce then
              row' == Some(QrCode(t.userId, t.createdAt, t.expiresAt, None, t.ip, None))
            else if t.ConsumeQrCode? && t.nonce == nonce && QrUsable(row, t.now) then
              row' == Some(row.value.(usedAt := Some(t.usedAt), usedIp := Some(t.ip)))
            else
              row' == row && !Matches(Event(t, Exec(db, t).outcome), QrLogin(nonce))
  {
    if t.PutQrCode? {
    } else if t.ConsumeQrCode? {
    } else {
      OthersKeepQrCodes(db, t);
    }
  }

  /** The stored row is the latest put's, and an unused row is one put that has no login yet. */
  lemma {:induction false} QrRowsFollowPuts(h: History, nonce: string)
    requires Valid(h) && ClockRuns(h)
    ensures var db, put := After(h), LatestPut(h, nonce);
            && (nonce in db.qrCodes <==> put.Some?)
            && (put.Some? ==> put.value.PutQrCode? && db.qrCodes[nonce].userId == put.value.userId
                              && db.qrCodes[nonce].expiresAt == put.value.expiresAt)
            && Tally(h, QrLogin(nonce)) + (if nonce in db.qrCodes && !Truthy(db.qrCodes[nonce].usedAt) then 1 else 0)
               <= Tally(h, QrPut(nonce))
  {
    if h != [] {
      var p, e := h[..|h| - 1], h[|h| - 1];
      QrRowsFollowPuts(p, nonce);
      QrStep(After(p), e.txn, nonce);
    }
  }

  /** Logins with a nonce never exceed the number of times it was put. */
  lemma {:induction false} QrLoginsBoundedByPuts(h: History, nonce: string)
    requires Valid(h) && ClockRuns(h)
    ensures Tally(h, QrLogin(nonce)) <= Tally(h, QrPut(nonce))
  {
    QrRowsFollowPuts(h, nonce);
  }

  /** Each login returns the user of the latest put and reads the clock no later than that put's expiry. */
  lemma {:induction false} QrLoginIsForLatestPut(h: History, i: nat)
    requires Valid(h) && ClockRuns(h) && i < |h|
    requires h[i].txn.ConsumeQrCode? && h[i].outcome.Login? && h[i].outcome.userId.Some?
    ensures var put := LatestPut(h[..i], h[i].txn.nonce);
            && put.Some? && put.value.PutQrCode?
            && h[i].outcome.userId.value == put.value.userId
            && (put.value.expiresAt == 0 || h[i].txn.now <= put.value.expiresAt)
  {
    ValidPrefix(h, i);
    QrRowsFollowPuts(h[..i], h[i].txn.nonce);
  }

  // ----- recovery codes -----

  /** What one transaction does to the row of a user's recovery code. */
  lemma {:induction false} CodeStep(db: Db, t: Txn, userId: string, hash: string)
    ensures var key := (userId, hash);
            var after := Exec(db, t);
            if t.PutRecoveryCodes? && t.userId == userId && hash in t.hashes then
              CodeUsable(after.db, userId, hash)
            else if t.ConsumeRecoveryCode? && t.userId == userId && t.hash == hash then
              (after.outcome == Accepted(true) <==> CodeUsable(db, userId, hash)) && !CodeUsable(after.db, userId, hash)
            else
              Lookup(after.db.recovery, key) == Lookup(db.recovery, key)
  {
    match t
    case PutRecoveryCodes(user, hashes, at) => WithCodesRow(db.recovery, user, hashes, at, (userId, hash));
    case ConsumeRecoveryCode(user, c, usedAt) =>
    case _ => OthersKeepRecovery(db, t);
  }

  /** Acceptances of a user's recovery code never exceed the number of times it was put, at any clock. */
  lemma {:induction false} CodeAcceptancesBoundedByPuts(h: History, userId: string, hash: string)
    requires Valid(h)
    ensures Tally(h, CodeAccepted(userId, hash)) + (if CodeUsable(After(h), userId, hash) then 1 else 0)
            <= Tally(h, CodePut(userId, hash))
  {
    if h != [] {
      var p, e := h[..|h| - 1], h[|h| - 1];
      CodeAcceptancesBoundedByPuts(p, userId, hash);
      CodeStep(After(p), e.txn, userId, hash);
    }
  }

  // ----- refresh tokens -----

  /**
    Revoking all tokens, or those of one device, takes exactly the targeted rows out of the active lists, at
    every time, and touches no other row; the device form reports how many rows matched.
   */
  lemma {:induction false} RevocationIsExact(db: Db, userId: string, device: string, usedAt: int, other: string,
                                             now: int)
    ensures var all := Exec(db, RevokeAllTokens(userId, usedAt));
            && ActiveSessions(all.db, other, now) == (if other == userId then {} else ActiveSessions(db, other, now))
            && forall j :: j in db.tokens && db.tokens[j].userId != userId ==>
                 Lookup(all.db.tokens, j) == Lookup(db.tokens, j)
    ensures var dev, rows := Exec(db, RevokeDevice(userId, device, usedAt)), TokensOfDevice(db.tokens, userId, device);
            && ActiveSessions(dev.db, other, now) == ActiveSessions(db, other, now) - rows
            && dev.outcome == Count(|rows|)
            && forall j :: j in db.tokens && j !in rows ==> Lookup(dev.db.tokens, j) == Lookup(db.tokens, j)
  {
    RevokeAllIsExact(db, userId, usedAt, other, now);
    RevokedAreInactive(db, TokensOfDevice(db.tokens, userId, device), usedAt, other, now);
  }

  lemma {:induction false} RevokeAllIsExact(db: Db, userId: string, usedAt: int, other: string, now: int)
    ensures var all := Exec(db, RevokeAllTokens(userId, usedAt));
            && ActiveSessions(all.db, other, now) == (if other == userId then {} else ActiveSessions(db, other, now))
            && forall j :: j in db.tokens && db.tokens[j].userId != userId ==>
                 Lookup(all.db.tokens, j) == Lookup(db.tokens, j)
  {
    var rows := TokensOf(db.tokens, userId);
    RevokedAreInactive(db, rows, usedAt, other, now);
    assert ActiveSessions(db, other, now) - rows == if other == userId then {} else ActiveSessions(db, other, now);
  }

  lemma {:induction false} RevokedAreInactive(db: Db, rows: set<string>, usedAt: int, user: string, now: int)
    ensures var after := db.(tokens := RevokeRows(db.tokens, rows, usedAt));
            && ActiveSessions(after, user, now) == ActiveSessions(db, user, now) - rows
            && forall j :: j !in rows ==> Lookup(after.tokens, j) == Lookup(db.tokens, j)
  {
  }

  /** Each put of a refresh token uses a jti that has no row yet. */
  ghost predicate FreshPuts(h: History) {
    h == [] || (FreshPuts(h[..|h| - 1]) && FreshPut(After(h[..|h| - 1]), h[|h| - 1].txn))
  }

  predicate FreshPut(db: Db, t: Txn) {
    t.PutToken? ==> t.jti !in db.tokens
  }

  ghost predicate RevocationsKept(before: Db, after: Db) {
    forall j :: j in before.tokens ==>
      j in after.tokens && after.tokens[j].userId == before.tokens[j].userId &&
      after.tokens[j].expiresAt == before.tokens[j].expiresAt &&
      (before.tokens[j].revoked ==> after.tokens[j].revoked)
  }

  lemma {:induction false} StepKeepsRevocations(db: Db, t: Txn)
    requires FreshPut(db, t)
    ensures RevocationsKept(db, Exec(db, t).db)
  {
    if t.PutToken? {
    } else if t.RotateToken? || t.RevokeToken? {
      OneRowStep(db, t);
    } else if t.RevokeAllTokens? || t.RevokeDevice? {
      ManyRowsStep(db, t);
    } else {
      OthersKeepTokens(db, t);
    }
  }

  lemma {:induction false} OneRowStep(db: Db, t: Txn)
    requires t.RotateToken? || t.RevokeToken?
    ensures RevocationsKept(db, Exec(db, t).db)
  {
    var jti := if t.RotateToken? then t.oldJti else t.jti;
    if jti in db.tokens {
      RevokedRowKept(db, jti, Exec(db, t).db.tokens[jti]);
    }
  }

  lemma {:induction false} ManyRowsStep(db: Db, t: Txn)
    requires t.RevokeAllTokens? || t.RevokeDevice?
    ensures RevocationsKept(db, Exec(db, t).db)
  {
    var rows := if t.RevokeAllTokens? then TokensOf(db.tokens, t.userId)
                else TokensOfDevice(db.tokens, t.userId, t.device);
    RevokedRowsKept(db, rows, t.usedAt);
  }

  lemma {:induction false} RevokedRowKept(db: Db, jti: string, row: Token)
    requires jti in db.tokens && row.revoked
    requires row.userId == db.tokens[jti].userId && row.expiresAt == db.tokens[jti].expiresAt
    ensures RevocationsKept(db, db.(tokens := db.tokens[jti := row]))
  {
  }

  lemma {:induction false} RevokedRowsKept(db: Db, rows: set<string>, usedAt: int)
    ensures RevocationsKept(db, db.(tokens := RevokeRows(db.tokens, rows, usedAt)))
  {
  }

  lemma {:induction false} RevocationsKeptTwice(a: Db, b: Db, c: Db)
    requires RevocationsKept(a, b) && RevocationsKept(b, c)
    ensures RevocationsKept(a, c)
  {
  }

  /** Revocation is monotone over every stretch of history. */
  lemma {:induction false} RevocationIsForever(h: History, n: nat)
    requires n <= |h| && FreshPuts(h)
    ensures RevocationsKept(After(h[..n]), After(h))
    decreases |h|
  {
    if n == |h| {
      assert h[..n] == h;
    } else {
      var p := h[..|h| - 1];
      assert p[..n] == h[..n];
      RevocationIsForever(p, n);
      StepKeepsRevocations(After(p), h[|h| - 1].txn);
      RevocationsKeptTwice(After(h[..n]), After(p), After(h));
    }
  }

  /** A token that has left its owner's active list never returns to anyone's. */
  lemma {:induction false} InactiveStaysInactive(h: History, n: nat, jti: string, now: int, later: int, userId: string)
    requires n <= |h| && FreshPuts(h) && now <= later
    requires jti in After(h[..n]).tokens
    requires jti !in ActiveSessions(After(h[..n]), After(h[..n]).tokens[jti].userId, now)
    ensures jti !in ActiveSessions(After(h), userId, later)
  {
    RevocationIsForever(h, n);
  }
}
