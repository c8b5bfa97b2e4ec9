/**
  The authentication store: users, invites, QR login codes, recovery codes, refresh tokens and API keys.

  Each table is a map from primary key to row.  A transaction is a value of type `Txn`; `Exec` is its
  effect on the tables when it runs alone and commits.  The class at the end is the store in the form
  the program has it: methods that read rows, test them and then update the tables.
 */
module AuthStore {
  import opened Wrappers

  datatype Role = Admin | Operator | Editor | Viewer

  datatype User = User(
    id: string, username: string, passwordHash: string, role: Role,
    totpSecret: Option<string>, totpEnabled: bool, createdAt: int)

  datatype Invite = Invite(
    createdBy: string, createdAt: int, expiresAt: int, usedAt: Option<int>, usedBy: Option<string>)

  datatype QrCode = QrCode(
    userId: string, createdAt: int, expiresAt: int, usedAt: Option<int>,
    createdIp: string, usedIp: Option<string>)

  datatype RecoveryCode = RecoveryCode(createdAt: int, usedAt: Option<int>)

  datatype Token = Token(
    userId: string, tokenHash: string, createdAt: int, expiresAt: int, revoked: bool,
    replacedBy: Option<string>, lastUsedAt: Option<int>,
    deviceId: Option<string>, deviceName: Option<string>, createdIp: Option<string>,
    lastIp: Option<string>, userAgent: Option<string>)

  /** A salted hash; verification succeeds on the hashed text and on nothing else. */
  datatype Digest = Digest(plain: string)

  datatype ApiKey = ApiKey(
    prefix: string, keyHash: Digest, scopes: seq<string>, userId: string, createdAt: int, revoked: bool)

  datatype Db = Db(
    users: map<string, User>,
    invites: map<string, Invite>,
    qrCodes: map<string, QrCode>,
    recovery: map<(string, string), RecoveryCode>,
    tokens: map<string, Token>,
    apiKeys: map<string, ApiKey>)

  const EMPTY_DB := Db(map[], map[], map[], map[], map[], map[])

  datatype Txn =
    | UpsertUser(user: User)
    | SetTotp(userId: string, secret: Option<string>, enabled: bool)
    | CreateUser(id: string, username: string, passwordHash: string, role: Role, createdAt: int)
    | CreateInvite(token: string, createdBy: string, createdAt: int, expiresAt: int)
    | RedeemInvite(token: string, username: string, passwordHash: string, role: Role, now: int, id: string)
    | PutQrCode(nonce: string, userId: string, createdAt: int, expiresAt: int, ip: string)
    | ConsumeQrCode(nonce: string, ip: string, now: int, usedAt: int)
    | PutRecoveryCodes(userId: string, hashes: seq<string>, createdAt: int)
    | ConsumeRecoveryCode(userId: string, hash: string, usedAt: int)
    | PutToken(jti: string, userId: string, tokenHash: string, createdAt: int, expiresAt: int,
               deviceId: Option<string>, deviceName: Option<string>, createdIp: Option<string>,
               lastIp: Option<string>, userAgent: Option<string>)
    | RotateToken(oldJti: string, newJti: string, usedAt: int)
    | RevokeToken(jti: string, usedAt: int)
    | RevokeAllTokens(userId: string, usedAt: int)
    | RevokeDevice(userId: string, device: string, usedAt: int)
    | CreateKey(keyId: string, key: ApiKey)
    | RevokeKey(keyId: string)

  datatype Outcome =
    | Done
    | Created(user: User)
    | NotFound
    | Used
    | Expired
    | UsernameTaken
    | IntegrityError
    | Login(userId: Option<string>)
    | Accepted(yes: bool)
    | Count(rows: nat)

  datatype Effect = Effect(db: Db, outcome: Outcome)

  /** A stored timestamp counts as set when it is neither NULL nor zero. */
  predicate Truthy(t: Option<int>) {
    t.Some? && t.value != 0
  }

  /** An expiry of zero means "never". */
  predicate PastExpiry(now: int, expiresAt: int) {
    expiresAt != 0 && now > expiresAt
  }

  predicate NameTaken(users: map<string, User>, username: string) {
    exists id :: id in users && users[id].username == username
  }

  function NoneIfEmpty(s: Option<string>): Option<string> {
    if s == Some("") then None else s
  }

  function Clipped(s: Option<string>): Option<string> {
    match NoneIfEmpty(s)
    case None => None
    case Some(v) => Some(if |v| > 160 then v[..160] else v)
  }

  // ----- the effect of each transaction, run alone -----

  function NewUser(id: string, username: string, passwordHash: string, role: Role, at: int): User {
    User(id, username, passwordHash, role, None, false, at)
  }

  function InsertUser(db: Db, u: User): Effect {
    if u.id in db.users || NameTaken(db.users, u.username) then Effect(db, IntegrityError)
    else Effect(db.(users := db.users[u.id := u]), Created(u))
  }

  /** A row with the same username keeps its id, username and creation time; everything else is replaced. */
  function Upserted(users: map<string, User>, u: User): map<string, User> {
    map id | id in users ::
      if users[id].username == u.username then
        users[id].(passwordHash := u.passwordHash, role := u.role,
                   totpSecret := u.totpSecret, totpEnabled := u.totpEnabled)
      else users[id]
  }

  function Upsert(db: Db, u: User): Effect {
    if NameTaken(db.users, u.username) then Effect(db.(users := Upserted(db.users, u)), Done)
    else if u.id in db.users then Effect(db, IntegrityError)
    else Effect(db.(users := db.users[u.id := u]), Done)
  }

  /** None when the invite may be redeemed under this name at this time, otherwise the refusal. */
  function InviteRefusal(db: Db, token: string, username: string, now: int): Option<Outcome> {
    if token !in db.invites then Some(NotFound)
    else if Truthy(db.invites[token].usedAt) then Some(Used)
    else if PastExpiry(now, db.invites[token].expiresAt) then Some(Expired)
    else if NameTaken(db.users, username) then Some(UsernameTaken)
    else None
  }

  function MarkInvite(i: Invite, now: int, id: string): Invite {
    i.(usedAt := Some(now), usedBy := Some(id))
  }

  function Redeem(db: Db, token: string, u: User, now: int): Effect {
    match InviteRefusal(db, token, u.username, now)
    case Some(refusal) => Effect(db, refusal)
    case None =>
      if u.id in db.users then Effect(db, IntegrityError)
      else
        assert token in db.invites;
        Effect(db.(users := db.users[u.id := u],
                   invites := db.invites[token := MarkInvite(db.invites[token], now, u.id)]),
               Created(u))
  }

  function QrUsable(row: Option<QrCode>, now: int): bool {
    row.Some? && !Truthy(row.value.usedAt) && !PastExpiry(now, row.value.expiresAt)
  }

  function ConsumeQr(db: Db, nonce: string, ip: string, now: int, usedAt: int): Effect {
    if !QrUsable(Lookup(db.qrCodes, nonce), now) then Effect(db, Login(None))
    else
      var row := db.qrCodes[nonce];
      Effect(db.(qrCodes := db.qrCodes[nonce := row.(usedAt := Some(usedAt), usedIp := Some(ip))]),
             Login(if row.userId == "" then None else Some(row.userId)))
  }

  function WithCodes(table: map<(string, string), RecoveryCode>, userId: string, hashes: seq<string>, at: int)
    : map<(string, string), RecoveryCode>
  {
    if hashes == [] then table
    else
      var n := |hashes| - 1;
      WithCodes(table, userId, hashes[..n], at)[(userId, hashes[n]) := RecoveryCode(at, None)]
  }

  /** Every listed code becomes unused; every other row stays. */
  lemma {:induction false} WithCodesRow(
    table: map<(string, string), RecoveryCode>, userId: string, hashes: seq<string>, at: int, k: (string, string))
    ensures var t := WithCodes(table, userId, hashes, at);
            if k.0 == userId && k.1 in hashes then k in t && t[k] == RecoveryCode(at, None)
            else Lookup(t, k) == Lookup(table, k)
  {
    if hashes != [] {
      var n := |hashes| - 1;
      WithCodesRow(table, userId, hashes[..n], at, k);
      assert hashes == hashes[..n] + [hashes[n]];
    }
  }

  predicate CodeUsable(db: Db, userId: string, hash: string) {
    (userId, hash) in db.recovery && db.recovery[(userId, hash)].usedAt == None
  }

  function ConsumeCode(db: Db, userId: string, hash: string, usedAt: int): Effect {
    if !CodeUsable(db, userId, hash) then Effect(db, Accepted(false))
    else
      var row := db.recovery[(userId, hash)];
      Effect(db.(recovery := db.recovery[(userId, hash) := row.(usedAt := Some(usedAt))]), Accepted(true))
  }

  function Revoke(t: Token, usedAt: int): Token {
    t.(revoked := true, lastUsedAt := Some(usedAt))
  }

  function TokensOf(tokens: map<string, Token>, userId: string): set<string> {
    set j | j in tokens && tokens[j].userId == userId
  }

  function TokensOfDevice(tokens: map<string, Token>, userId: string, deviceId: string): set<string> {
    set j | j in tokens && tokens[j].userId == userId && tokens[j].deviceId == Some(deviceId)
  }

  /** UPDATE … SET revoked=1, last_used_at=? over a set of rows. */
  function RevokeRows(tokens: map<string, Token>, rows: set<string>, usedAt: int): map<string, Token> {
    map j | j in tokens :: if j in rows then Revoke(tokens[j], usedAt) else tokens[j]
  }

  function Exec(db: Db, t: Txn): Effect {
    match t
    case UpsertUser(u) => Upsert(db, u)
    case SetTotp(id, secret, enabled) =>
      if id !in db.users then Effect(db, Done)
      else
        Effect(db.(users := db.users[id := db.users[id].(totpSecret := secret, totpEnabled := enabled)]), Done)
    case CreateUser(id, name, pw, role, at) => InsertUser(db, NewUser(id, name, pw, role, at))
    case CreateInvite(token, creator, at, exp) =>
      if token in db.invites then Effect(db, IntegrityError)
      else Effect(db.(invites := db.invites[token := Invite(creator, at, exp, None, None)]), Done)
    case RedeemInvite(token, name, pw, role, now, id) => Redeem(db, token, NewUser(id, name, pw, role, now), now)
    case PutQrCode(nonce, user, at, exp, ip) =>
      Effect(db.(qrCodes := db.qrCodes[nonce := QrCode(user, at, exp, None, ip, None)]), Done)
    case ConsumeQrCode(nonce, ip, now, usedAt) => ConsumeQr(db, nonce, ip, now, usedAt)
    case PutRecoveryCodes(user, hashes, at) =>
      Effect(db.(recovery := WithCodes(db.recovery, user, hashes, at)), Done)
    case ConsumeRecoveryCode(user, hash, usedAt) => ConsumeCode(db, user, hash, usedAt)
    case PutToken(jti, user, hash, at, exp, dev, name, ip, lastIp, agent) =>
      var row := Token(user, hash, at, exp, false, None, None, NoneIfEmpty(dev), NoneIfEmpty(name),
                       NoneIfEmpty(ip), NoneIfEmpty(lastIp), Clipped(agent));
      Effect(db.(tokens := db.tokens[jti := row]), Done)
    case RotateToken(oldJti, newJti, usedAt) =>
      if oldJti !in db.tokens then Effect(db, Done)
      else
        Effect(db.(tokens := db.tokens[oldJti := Revoke(db.tokens[oldJti], usedAt).(replacedBy := Some(newJti))]), Done)
    case RevokeToken(jti, usedAt) =>
      if jti !in db.tokens then Effect(db, Done)
      else Effect(db.(tokens := db.tokens[jti := Revoke(db.tokens[jti], usedAt)]), Done)
    case RevokeAllTokens(user, usedAt) =>
      Effect(db.(tokens := RevokeRows(db.tokens, TokensOf(db.tokens, user), usedAt)), Done)
    case RevokeDevice(user, dev, usedAt) =>
      var rows := TokensOfDevice(db.tokens, user, dev);
      Effect(db.(tokens := RevokeRows(db.tokens, rows, usedAt)), Count(|rows|))
    case CreateKey(id, key) =>
      if id in db.apiKeys then Effect(db, IntegrityError)
      else Effect(db.(apiKeys := db.apiKeys[id := key]), Done)
    case RevokeKey(id) =>
      if id !in db.apiKeys then Effect(db, Done)
      else Effect(db.(apiKeys := db.apiKeys[id := db.apiKeys[id].(revoked := true)]), Done)
  }

  /** Refresh tokens of a user that are neither revoked nor past their expiry. */
  function ActiveSessions(db: Db, userId: string, now: int): set<string> {
    set j | j in db.tokens && db.tokens[j].userId == userId && !db.tokens[j].revoked && db.tokens[j].expiresAt > now
  }

  predicate Refusal(o: Outcome) {
    o.NotFound? || o.Used? || o.Expired? || o.UsernameTaken? || o.IntegrityError? || o == Accepted(false)
  }

  /** A refused transaction leaves all six tables as they were. */
  lemma {:induction false} RefusalChangesNothing(db: Db, t: Txn)
    ensures Refusal(Exec(db, t).outcome) ==> Exec(db, t).db == db
  {
  }

  /**
    The store itself.  Every method runs under the write lock on its own connection: it either commits
    what it wrote or leaves all tables alone.
   */
  class AuthStore {
    var users: map<string, User>
    var invites: map<string, Invite>
    var qrCodes: map<string, QrCode>
    var recovery: map<(string, string), RecoveryCode>
    var tokens: map<string, Token>
    var apiKeys: map<string, ApiKey>

    ghost function Tables(): Db
      reads this
    {
      Db(users, invites, qrCodes, recovery, tokens, apiKeys)
    }

    constructor ()
      ensures Tables() == EMPTY_DB
    {
      users, invites, qrCodes, recovery, tokens, apiKeys := map[], map[], map[], map[], map[], map[];
    }

    /** No user disappears or changes id, name or creation time; only the row of that name gets new contents. */
    method Upsert(user: User) returns (outcome: Outcome)
      modifies this`users
      ensures Effect(Tables(), outcome) == Exec(old(Tables()), UpsertUser(user))
      ensures outcome == IntegrityError <==> !NameTaken(old(users), user.username) && user.id in old(users)
      ensures outcome == IntegrityError || outcome == Done
      ensures outcome == IntegrityError ==> Tables() == old(Tables())
      ensures forall k :: k in old(users) ==>
                && k in users && users[k].id == old(users)[k].id
                && users[k].username == old(users)[k].username && users[k].createdAt == old(users)[k].createdAt
                && (users[k].username != user.username ==> users[k] == old(users)[k])
      ensures outcome == Done ==>
                && NameTaken(users, user.username)
                && forall k :: k in users && users[k].username == user.username ==>
                     && users[k].passwordHash == user.passwordHash && users[k].role == user.role
                     && users[k].totpSecret == user.totpSecret && users[k].totpEnabled == user.totpEnabled
      ensures !NameTaken(old(users), user.username) && user.id !in old(users) ==> users == old(users)[user.id := user]
    {
      if NameTaken(users, user.username) {
        ghost var k :| k in users && users[k].username == user.username;
        users := Upserted(users, user);
        assert users[k].username == user.username;
      } else if user.id in users {
        return IntegrityError;
      } else {
        users := users[user.id := user];
        assert users[user.id].username == user.username;
      }
      outcome := Done;
    }

    /** Sets the second factor of one user and touches nothing else. */
    method SetTotp(userId: string, secret: Option<string>, enabled: bool)
      modifies this`users
      ensures Effect(Tables(), Done) == Exec(old(Tables()), Txn.SetTotp(userId, secret, enabled))
      ensures userId in users ==>
                users[userId] == old(users)[userId].(totpSecret := secret, totpEnabled := enabled)
      ensures users.Keys == old(users).Keys
      ensures forall k :: k in users && k != userId ==> users[k] == old(users)[k]
    {
      if userId in users {
        users := users[userId := users[userId].(totpSecret := secret, totpEnabled := enabled)];
      }
    }

    method Create(id: string, username: string, passwordHash: string, role: Role, createdAt: int)
      returns (outcome: Outcome)
      modifies this`users
      ensures Effect(Tables(), outcome) == Exec(old(Tables()), CreateUser(id, username, passwordHash, role, createdAt))
      ensures outcome.Created? <==>
              id !in old(users) && forall k :: k in old(users) ==> old(users)[k].username != username
      ensures outcome.Created? ==>
                && users == old(users)[id := outcome.user]
                && outcome.user.id == id && outcome.user.username == username
                && outcome.user.passwordHash == passwordHash && outcome.user.role == role
                && outcome.user.createdAt == createdAt
                && outcome.user.totpSecret == None && !outcome.user.totpEnabled
      ensures !outcome.Created? ==> outcome == IntegrityError && Tables() == old(Tables())
      ensures forall k :: k in old(users) ==> k in users && users[k] == old(users)[k]
    {
      if id in users || NameTaken(users, username) {
        return IntegrityError;
      }
      var user := NewUser(id, username, passwordHash, role, createdAt);
      users := users[id := user];
      outcome := Created(user);
    }

    method NewInvite(token: string, createdBy: string, createdAt: int, expiresAt: int) returns (outcome: Outcome)
      modifies this`invites
      ensures Effect(Tables(), outcome) == Exec(old(Tables()), CreateInvite(token, createdBy, createdAt, expiresAt))
      ensures outcome == Done <==> token !in old(invites)
      ensures outcome == Done ==>
                && token in invites && invites[token].usedAt == None && invites[token].usedBy == None
                && invites[token].expiresAt == expiresAt && invites[token].createdAt == createdAt
                && invites[token].createdBy == createdBy
      ensures outcome != Done ==> outcome == IntegrityError && Tables() == old(Tables())
      ensures forall t :: t in old(invites) ==> t in invites && invites[t] == old(invites)[t]
    {
      if token in invites {
        return IntegrityError;
      }
      invites := invites[token := Invite(createdBy, createdAt, expiresAt, None, None)];
      outcome := Done;
    }

    /** Reads the invite, tests it, tests the username, inserts the user, then marks the invite. */
    method Redeem(token: string, username: string, passwordHash: string, role: Role, now: int, id: string)
      returns (outcome: Outcome)
      modifies this`users, this`invites
      ensures Effect(Tables(), outcome) ==
              Exec(old(Tables()), RedeemInvite(token, username, passwordHash, role, now, id))
      ensures outcome == NotFound <==> token !in old(invites)
      ensures token in old(invites) ==>
                var row := old(invites)[token];
                var used := row.usedAt.Some? && row.usedAt.value != 0;
                var late := row.expiresAt != 0 && now > row.expiresAt;
                var taken := exists k :: k in old(users) && old(users)[k].username == username;
                && (outcome == Used <==> used)
                && (outcome == Expired <==> !used && late)
                && (outcome == UsernameTaken <==> !used && !late && taken)
                && (outcome == IntegrityError <==> !used && !late && !taken && id in old(users))
                && (outcome.Created? <==> !used && !late && !taken && id !in old(users))
      ensures outcome.Created? ==>
                && users == old(users)[id := outcome.user] && token in old(invites)
                && invites == old(invites)[token := old(invites)[token].(usedAt := Some(now), usedBy := Some(id))]
                && outcome.user.id == id && outcome.user.username == username
                && outcome.user.passwordHash == passwordHash && outcome.user.role == role
                && outcome.user.createdAt == now
                && outcome.user.totpSecret == None && !outcome.user.totpEnabled
      ensures !outcome.Created? ==> Tables() == old(Tables())
    {
      var row := Lookup(invites, token);
      if row.None? {
        return NotFound;
      }
      if Truthy(row.value.usedAt) {
        return Used;
      }
      if PastExpiry(now, row.value.expiresAt) {
        return Expired;
      }
      if NameTaken(users, username) {
        return UsernameTaken;
      }
      if id in users {
        return IntegrityError;
      }
      var user := NewUser(id, username, passwordHash, role, now);
      users := users[id := user];
      invites := invites[token := MarkInvite(row.value, now, id)];
      outcome := Created(user);
    }

    method PutQr(nonce: string, userId: string, createdAt: int, expiresAt: int, ip: string)
      modifies this`qrCodes
      ensures Effect(Tables(), Done) == Exec(old(Tables()), PutQrCode(nonce, userId, createdAt, expiresAt, ip))
      ensures forall now :: QrUsable(Lookup(qrCodes, nonce), now) <==> !PastExpiry(now, expiresAt)
      ensures nonce in qrCodes && qrCodes[nonce].userId == userId && qrCodes[nonce].createdAt == createdAt
      ensures qrCodes[nonce].createdIp == ip && qrCodes[nonce].usedIp == None
      ensures forall n :: n != nonce ==> Lookup(qrCodes, n) == Lookup(old(qrCodes), n)
    {
      qrCodes := qrCodes[nonce := QrCode(userId, createdAt, expiresAt, None, ip, None)];
    }

    method ConsumeQr(nonce: string, ip: string, now: int, usedAt: int) returns (user: Option<string>)
      modifies this`qrCodes
      ensures Effect(Tables(), Login(user)) == Exec(old(Tables()), ConsumeQrCode(nonce, ip, now, usedAt))
      ensures var usable := nonce in old(qrCodes) &&
                            var row := old(qrCodes)[nonce];
                            && (row.usedAt == None || row.usedAt == Some(0))
                            && (row.expiresAt == 0 || now <= row.expiresAt);
              if usable then
                && qrCodes == old(qrCodes)[nonce := old(qrCodes)[nonce].(usedAt := Some(usedAt), usedIp := Some(ip))]
                && (user.Some? <==> old(qrCodes)[nonce].userId != "")
                && (user.Some? ==> user.value == old(qrCodes)[nonce].userId)
              else
                user == None && Tables() == old(Tables())
    {
      var row := Lookup(qrCodes, nonce);
      if row.None? {
        return None;
      }
      var rec := row.value;
      if Truthy(rec.usedAt) {
        return None;
      }
      if PastExpiry(now, rec.expiresAt) {
        return None;
      }
      qrCodes := qrCodes[nonce := rec.(usedAt := Some(usedAt), usedIp := Some(ip))];
      user := if rec.userId == "" then None else Some(rec.userId);
    }

    method PutCodes(userId: string, hashes: seq<string>, at: int)
      modifies this`recovery
      ensures Effect(Tables(), Done) == Exec(old(Tables()), PutRecoveryCodes(userId, hashes, at))
      ensures forall h :: h in hashes ==>
                (userId, h) in recovery && recovery[(userId, h)].usedAt == None && recovery[(userId, h)].createdAt == at
      ensures forall k: (string, string) :: k.0 != userId || k.1 !in hashes ==>
                Lookup(recovery, k) == Lookup(old(recovery), k)
    {
      for i := 0 to |hashes|
        invariant recovery == WithCodes(old(recovery), userId, hashes[..i], at)
      {
        recovery := recovery[(userId, hashes[i]) := RecoveryCode(at, None)];
        assert hashes[..i + 1][..i] == hashes[..i];
      }
      assert hashes[..|hashes|] == hashes;
      forall k: (string, string)
        ensures if k.0 == userId && k.1 in hashes then k in recovery && recovery[k] == RecoveryCode(at, None)
                else Lookup(recovery, k) == Lookup(old(recovery), k)
      {
        WithCodesRow(old(recovery), userId, hashes, at, k);
      }
    }

    method ConsumeCode(userId: string, hash: string, usedAt: int) returns (yes: bool)
      modifies this`recovery
      ensures Effect(Tables(), Accepted(yes)) == Exec(old(Tables()), ConsumeRecoveryCode(userId, hash, usedAt))
      ensures yes <==> (userId, hash) in old(recovery) && old(recovery)[(userId, hash)].usedAt == None
      ensures (userId, hash) in recovery ==> recovery[(userId, hash)].usedAt.Some?
      ensures yes ==> recovery == old(recovery)[(userId, hash) :=
                                    old(recovery)[(userId, hash)].(usedAt := Some(usedAt))]
      ensures !yes ==> Tables() == old(Tables())
    {
      var row := Lookup(recovery, (userId, hash));
      if row.None? || row.value.usedAt.Some? {
        return false;
      }
      recovery := recovery[(userId, hash) := row.value.(usedAt := Some(usedAt))];
      yes := true;
    }

    method PutRefreshToken(jti: string, userId: string, tokenHash: string, createdAt: int, expiresAt: int,
                           deviceId: Option<string>, deviceName: Option<string>, createdIp: Option<string>,
                           lastIp: Option<string>, userAgent: Option<string>)
      modifies this`tokens
      ensures Effect(Tables(), Done) == Exec(old(Tables()),
                PutToken(jti, userId, tokenHash, createdAt, expiresAt, deviceId, deviceName, createdIp, lastIp,
                  userAgent))
      ensures forall now :: jti in ActiveSessions(Tables(), userId, now) <==> expiresAt > now
      ensures jti in tokens &&
              var row := tokens[jti];
              && row.userId == userId && row.tokenHash == tokenHash
              && row.createdAt == createdAt && row.expiresAt == expiresAt
              && !row.revoked && row.replacedBy == None && row.lastUsedAt == None
              && row.deviceId == (if deviceId == Some("") then None else deviceId)
              && row.deviceName == (if deviceName == Some("") then None else deviceName)
              && row.createdIp == (if createdIp == Some("") then None else createdIp)
              && row.lastIp == (if lastIp == Some("") then None else lastIp)
      ensures var agent := tokens[jti].userAgent;
              && (agent.Some? <==> userAgent.Some? && userAgent.value != "")
              && (agent.Some? ==>
                    && agent.value <= userAgent.value
                    && |agent.value| == if |userAgent.value| < 160 then |userAgent.value| else 160)
      ensures forall j :: j != jti ==> Lookup(tokens, j) == Lookup(old(tokens), j)
    {
      tokens := tokens[jti := Token(userId, tokenHash, createdAt, expiresAt, false, None, None,
                                    NoneIfEmpty(deviceId), NoneIfEmpty(deviceName), NoneIfEmpty(createdIp),
                                    NoneIfEmpty(lastIp), Clipped(userAgent))];
    }

    method Rotate(oldJti: string, newJti: string, usedAt: int)
      modifies this`tokens
      ensures Effect(Tables(), Done) == Exec(old(Tables()), RotateToken(oldJti, newJti, usedAt))
      ensures oldJti in tokens ==>
                tokens[oldJti] ==
                old(tokens)[oldJti].(revoked := true, replacedBy := Some(newJti), lastUsedAt := Some(usedAt))
      ensures tokens.Keys == old(tokens).Keys
      ensures forall j :: j != oldJti ==> Lookup(tokens, j) == Lookup(old(tokens), j)
    {
      if oldJti in tokens {
        var row := tokens[oldJti];
        tokens := tokens[oldJti := row.(revoked := true, replacedBy := Some(newJti), lastUsedAt := Some(usedAt))];
      }
    }

    method RevokeOne(jti: string, usedAt: int)
      modifies this`tokens
      ensures Effect(Tables(), Done) == Exec(old(Tables()), RevokeToken(jti, usedAt))
      ensures forall user, now ::
                ActiveSessions(Tables(), user, now) == ActiveSessions(old(Tables()), user, now) - {jti}
      ensures jti in tokens ==> tokens[jti] == old(tokens)[jti].(revoked := true, lastUsedAt := Some(usedAt))
      ensures tokens.Keys == old(tokens).Keys
      ensures forall j :: j != jti ==> Lookup(tokens, j) == Lookup(old(tokens), j)
    {
      if jti in tokens {
        tokens := tokens[jti := Revoke(tokens[jti], usedAt)];
      }
    }

    /** Empties the user's active sessions, whatever the time, and leaves every other user's rows alone. */
    method RevokeAll(userId: string, usedAt: int)
      modifies this`tokens
      ensures Effect(Tables(), Done) == Exec(old(Tables()), RevokeAllTokens(userId, usedAt))
      ensures forall now :: ActiveSessions(Tables(), userId, now) == {}
      ensures tokens.Keys == old(tokens).Keys
      ensures forall j :: j in tokens ==>
                tokens[j] == if old(tokens)[j].userId == userId
                             then old(tokens)[j].(revoked := true, lastUsedAt := Some(usedAt)) else old(tokens)[j]
    {
      tokens := RevokeRows(tokens, TokensOf(tokens, userId), usedAt);
    }

    /** Revokes exactly the rows of one device of one user, and returns how many rows that is. */
    method RevokeByDevice(userId: string, deviceId: string, usedAt: int) returns (n: nat)
      modifies this`tokens
      ensures Effect(Tables(), Count(n)) == Exec(old(Tables()), RevokeDevice(userId, deviceId, usedAt))
      ensures n == |set j | j in old(tokens) && old(tokens)[j].userId == userId &&
                            old(tokens)[j].deviceId == Some(deviceId)|
      ensures tokens.Keys == old(tokens).Keys
      ensures forall j :: j in tokens ==>
                tokens[j] == if old(tokens)[j].userId == userId && old(tokens)[j].deviceId == Some(deviceId)
                             then old(tokens)[j].(revoked := true, lastUsedAt := Some(usedAt)) else old(tokens)[j]
    {
      var rows := TokensOfDevice(tokens, userId, deviceId);
      tokens := RevokeRows(tokens, rows, usedAt);
      n := |rows|;
    }

    method InsertKey(keyId: string, key: ApiKey) returns (outcome: Outcome)
      modifies this`apiKeys
      ensures Effect(Tables(), outcome) == Exec(old(Tables()), CreateKey(keyId, key))
      ensures outcome == Done || outcome == IntegrityError
      ensures outcome == Done <==> keyId !in old(apiKeys)
      ensures apiKeys == if outcome == Done then old(apiKeys)[keyId := key] else old(apiKeys)
    {
      if keyId in apiKeys {
        return IntegrityError;
      }
      apiKeys := apiKeys[keyId := key];
      outcome := Done;
    }

    method RevokeApiKey(keyId: string)
      modifies this`apiKeys
      ensures Effect(Tables(), Done) == Exec(old(Tables()), RevokeKey(keyId))
      ensures apiKeys.Keys == old(apiKeys).Keys
      ensures keyId in apiKeys ==> apiKeys[keyId] == old(apiKeys)[keyId].(revoked := true)
      ensures forall k :: k in apiKeys && k != keyId ==> apiKeys[k] == old(apiKeys)[k]
    {
      if keyId in apiKeys {
        apiKeys := apiKeys[keyId := apiKeys[keyId].(revoked := true)];
      }
    }
  }
}
