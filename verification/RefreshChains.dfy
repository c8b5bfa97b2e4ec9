/**
  Rotation chains of refresh tokens: the `replaced_by` edges between rows.
 */
module RefreshChains {
  import opened Wrappers
  import opened AuthStore
  import opened AuthHistories

  /** The token that replaced a token, if any. */
  function Next(db: Db, jti: string): Option<string> {
    if jti in db.tokens then db.tokens[jti].replacedBy else None
  }

  ghost predicate Edge(db: Db, from: string, to: string) {
    Next(db, from) == Some(to)
  }

  function Replaced(db: Db): set<string> {
    set j | j in db.tokens && db.tokens[j].replacedBy.Some?
  }

  /** Never part of a rotation so far. */
  ghost predicate Unlinked(db: Db, jti: string) {
    Next(db, jti).None? && forall j :: !Edge(db, j, jti)
  }

  /** A put uses a new jti; a rotation points to a token that no current rotation involves. */
  ghost predicate FreshLink(db: Db, t: Txn) {
    && FreshPut(db, t)
    && (t.RotateToken? ==> Unlinked(db, t.newJti) && t.newJti != t.oldJti)
  }

  /** Nothing is asked of the tokens that are replaced: they may be revoked or replaced already. */
  ghost predicate FreshlyLinked(h: History) {
    h == [] || (FreshlyLinked(h[..|h| - 1]) && FreshLink(After(h[..|h| - 1]), h[|h| - 1].txn))
  }

  /** How many rotations lead to a token. */
  ghost function Depths(h: History): map<string, nat> {
    if h == [] then map[]
    else
      var d, t := Depths(h[..|h| - 1]), h[|h| - 1].txn;
      if t.RotateToken? then d[t.newJti := Depth(d, t.oldJti) + 1] else d
  }

  ghost function Depth(d: map<string, nat>, jti: string): nat {
    if jti in d then d[jti] else 0
  }

  function Rotations(h: History): nat {
    if h == [] then 0 else Rotations(h[..|h| - 1]) + if h[|h| - 1].txn.RotateToken? then 1 else 0
  }

  /** An active token has not been replaced; edges are injective and go one rotation deeper; depth is bounded. */
  ghost predicate Forest(db: Db, d: map<string, nat>, rotations: nat) {
    && (forall j :: j in db.tokens && !db.tokens[j].revoked ==> db.tokens[j].replacedBy.None?)
    && (forall i, j, k :: Edge(db, i, k) && Edge(db, j, k) ==> i == j)
    && (forall j, k :: Edge(db, j, k) ==> Depth(d, k) == Depth(d, j) + 1)
    && (forall j :: Depth(d, j) <= rotations)
  }

  /** A rotation sets one edge, if its old token exists, and makes no token active. */
  lemma {:induction false} RotationEdges(db: Db, t: Txn)
    requires t.RotateToken?
    ensures var after := Exec(db, t).db;
            && (forall j :: Next(after, j) ==
                  if j == t.oldJti && j in db.tokens then Some(t.newJti) else Next(db, j))
            && (forall j :: j in after.tokens && !after.tokens[j].revoked ==>
                  j in db.tokens && !db.tokens[j].revoked && after.tokens[j] == db.tokens[j])
  {
  }

  lemma {:induction false} RotationKeepsForest(db: Db, t: Txn, d: map<string, nat>, n: nat)
    requires Forest(db, d, n) && t.RotateToken? && FreshLink(db, t)
    ensures Forest(Exec(db, t).db, d[t.newJti := Depth(d, t.oldJti) + 1], n + 1)
  {
    var after, d' := Exec(db, t).db, d[t.newJti := Depth(d, t.oldJti) + 1];
    RotationEdges(db, t);
    assert forall j :: j != t.newJti ==> Depth(d', j) == Depth(d, j);
    assert Depth(d', t.newJti) == Depth(d, t.oldJti) + 1;
    forall j | j in after.tokens && !after.tokens[j].revoked
      ensures after.tokens[j].replacedBy.None?
    {
    }
    forall j, k | Edge(after, j, k)
      ensures Depth(d', k) == Depth(d', j) + 1
    {
      if j != t.oldJti || j !in db.tokens {
        assert Edge(db, j, k) && j != t.newJti && k != t.newJti;
      }
    }
    forall i, j, k | Edge(after, i, k) && Edge(after, j, k)
      ensures i == j
    {
      assert i != t.oldJti ==> Edge(db, i, k);
      assert j != t.oldJti ==> Edge(db, j, k);
    }
  }

  lemma {:induction false} OtherStepsKeepForest(db: Db, t: Txn, d: map<string, nat>, n: nat)
    requires Forest(db, d, n) && !t.RotateToken? && FreshLink(db, t)
    ensures Forest(Exec(db, t).db, d, n)
  {
    var after := Exec(db, t).db;
    OtherStepsKeepEdges(db, t);
    assert forall j, k :: Edge(after, j, k) ==> Edge(db, j, k);
    forall j | j in after.tokens && !after.tokens[j].revoked
      ensures after.tokens[j].replacedBy.None?
    {
      assert Next(after, j) == Next(db, j);
    }
  }

  /** Only a rotation changes edges, and no transaction but a put makes a revoked or missing token active. */
  lemma {:induction false} OtherStepsKeepEdges(db: Db, t: Txn)
    requires !t.RotateToken? && FreshPut(db, t)
    ensures var after := Exec(db, t).db;
            forall j :: Next(after, j) == Next(db, j) &&
                        (j in after.tokens && !after.tokens[j].revoked && j in db.tokens ==> !db.tokens[j].revoked)
  {
    if t.PutToken? {
    } else if t.RevokeToken? {
    } else if t.RevokeAllTokens? {
    } else if t.RevokeDevice? {
    } else {
      OthersKeepTokens(db, t);
    }
  }

  lemma {:induction false} ForestAfter(h: History)
    requires FreshlyLinked(h)
    ensures Forest(After(h), Depths(h), Rotations(h))
  {
    if h != [] {
      var p, t := h[..|h| - 1], h[|h| - 1].txn;
      ForestAfter(p);
      if t.RotateToken? {
        RotationKeepsForest(After(p), t, Depths(p), Rotations(p));
      } else {
        OtherStepsKeepForest(After(p), t, Depths(p), Rotations(p));
      }
    }
  }

  // ----- when edges are set once -----

  /** What replaced a token at some point of the history replaces it ever after. */
  ghost predicate EdgesKept(h: History) {
    forall m, n :: 0 <= m <= n <= |h| ==> EdgesWithin(After(h[..m]), After(h[..n]))
  }

  ghost predicate EdgesWithin(before: Db, after: Db) {
    forall from, to :: Edge(before, from, to) ==> Edge(after, from, to)
  }

  /** The test that the UPDATE does not make: the old token has no other replacement yet. */
  predicate NotReplacedOtherwise(db: Db, t: Txn) {
    t.RotateToken? ==> Next(db, t.oldJti).None? || Next(db, t.oldJti) == Some(t.newJti)
  }

  ghost predicate Guarded(h: History) {
    h == [] || (Guarded(h[..|h| - 1]) && NotReplacedOtherwise(After(h[..|h| - 1]), h[|h| - 1].txn))
  }

  /** One step keeps every edge exactly when it is guarded. */
  lemma {:induction false} StepKeepsEdgesIff(db: Db, t: Txn)
    requires FreshPut(db, t)
    ensures EdgesWithin(db, Exec(db, t).db) <==> NotReplacedOtherwise(db, t)
  {
    if t.RotateToken? {
      RotationEdges(db, t);
      if Next(db, t.oldJti).Some? {
        assert Edge(db, t.oldJti, Next(db, t.oldJti).value);
      }
    } else {
      OtherStepsKeepEdges(db, t);
    }
  }

  lemma {:induction false} GuardedKeepsEdges(h: History, m: nat, n: nat)
    requires FreshPuts(h) && Guarded(h) && m <= n <= |h|
    ensures EdgesWithin(After(h[..m]), After(h[..n]))
    decreases |h|
  {
    if m < |h| {
      var p := h[..|h| - 1];
      assert p[..m] == h[..m];
      if n < |h| {
        assert p[..n] == h[..n];
        GuardedKeepsEdges(p, m, n);
      } else {
        assert h[..n] == h && p[..|p|] == p;
        GuardedKeepsEdges(p, m, |p|);
        StepKeepsEdgesIff(After(p), h[|h| - 1].txn);
      }
    }
  }

  lemma {:induction false} KeptBefore(h: History)
    requires h != [] && EdgesKept(h)
    ensures EdgesKept(h[..|h| - 1]) && EdgesWithin(After(h[..|h| - 1]), After(h))
  {
    var p := h[..|h| - 1];
    forall m, n | 0 <= m <= n <= |p|
      ensures EdgesWithin(After(p[..m]), After(p[..n]))
    {
      assert p[..m] == h[..m] && p[..n] == h[..n];
    }
    assert h[..|h|] == h;
  }

  lemma {:induction false} KeptIsGuarded(h: History)
    requires FreshPuts(h) && EdgesKept(h)
    ensures Guarded(h)
  {
    if h != [] {
      var p := h[..|h| - 1];
      KeptBefore(h);
      KeptIsGuarded(p);
      StepKeepsEdgesIff(After(p), h[|h| - 1].txn);
    }
  }

  /**
    Exactly when edges are set once, in histories with fresh puts: when every rotation finds its old token
    not replaced, or replaced by the same token.
   */
  lemma {:induction false} EdgesKeptIff(h: History)
    requires FreshPuts(h)
    ensures EdgesKept(h) <==> Guarded(h)
  {
    if Guarded(h) {
      forall m, n | 0 <= m <= n <= |h|
        ensures EdgesWithin(After(h[..m]), After(h[..n]))
      {
        GuardedKeepsEdges(h, m, n);
      }
    }
    if EdgesKept(h) {
      KeptIsGuarded(h);
    }
  }

  lemma {:induction false} FreshlyLinkedPuts(h: History)
    requires FreshlyLinked(h)
    ensures FreshPuts(h)
  {
    if h != [] {
      FreshlyLinkedPuts(h[..|h| - 1]);
    }
  }

  /** Each rotation names an active old token. */
  ghost predicate ReplacesActive(h: History) {
    h == [] ||
    var p, t := h[..|h| - 1], h[|h| - 1].txn;
    ReplacesActive(p) && (t.RotateToken? ==> t.oldJti in After(p).tokens && !After(p).tokens[t.oldJti].revoked)
  }

  lemma {:induction false} ActiveIsGuarded(h: History)
    requires FreshlyLinked(h) && ReplacesActive(h)
    ensures Guarded(h)
  {
    if h != [] {
      ActiveIsGuarded(h[..|h| - 1]);
      ForestAfter(h[..|h| - 1]);
    }
  }

  /** When each rotation names a still active token, edges are set once. */
  lemma {:induction false} EdgesAreSetOnce(h: History)
    requires FreshlyLinked(h) && ReplacesActive(h)
    ensures EdgesKept(h)
  {
    ActiveIsGuarded(h);
    FreshlyLinkedPuts(h);
    EdgesKeptIff(h);
  }

  // ----- following a chain -----

  /** The token reached from `jti` by at most n replacements. */
  function Follow(db: Db, jti: string, n: nat): string
    decreases n
  {
    match Next(db, jti)
    case Some(k) => if n == 0 then jti else Follow(db, k, n - 1)
    case None => jti
  }

  /** The measure of a chain walk: it drops by one at each step and is never negative. */
  ghost function StepsLeft(h: History, jti: string): int {
    Rotations(h) - Depth(Depths(h), jti)
  }

  lemma {:induction false} ChainMeasure(h: History, from: string, to: string)
    requires FreshlyLinked(h) && Edge(After(h), from, to)
    ensures 0 <= StepsLeft(h, to) == StepsLeft(h, from) - 1
  {
    ForestAfter(h);
  }

  /** The replaced tokens at least as deep as a given one. */
  ghost function Ahead(h: History, jti: string): set<string> {
    set j | j in Replaced(After(h)) && Depth(Depths(h), j) >= Depth(Depths(h), jti)
  }

  lemma {:induction false} AheadShrinks(h: History, from: string, to: string)
    requires FreshlyLinked(h) && Edge(After(h), from, to)
    ensures |Ahead(h, to)| < |Ahead(h, from)|
  {
    ChainMeasure(h, from, to);
    assert from in Ahead(h, from) && from !in Ahead(h, to);
    assert Ahead(h, to) <= Ahead(h, from) - {from};
    SmallerSet(Ahead(h, to), Ahead(h, from) - {from});
  }

  lemma {:induction false} FollowReachesTip(h: History, jti: string, n: nat)
    requires FreshlyLinked(h) && n >= |Ahead(h, jti)|
    ensures Next(After(h), Follow(After(h), jti, n)).None?
    decreases n
  {
    match Next(After(h), jti)
    case None =>
    case Some(k) =>
      AheadShrinks(h, jti, k);
      FollowReachesTip(h, k, n - 1);
  }

  /**
    In every history with fresh links `replaced_by` is injective and acyclic: from any token the chain
    reaches, within as many steps as there are replaced tokens, a tip that has not been replaced.
   */
  lemma {:induction false} ChainsEnd(h: History, jti: string)
    requires FreshlyLinked(h)
    ensures var db := After(h);
            && Next(db, Follow(db, jti, |Replaced(db)|)).None?
            && forall i, j, k :: Edge(db, i, k) && Edge(db, j, k) ==> i == j
  {
    ForestAfter(h);
    SmallerSet(Ahead(h, jti), Replaced(After(h)));
    FollowReachesTip(h, jti, |Replaced(After(h))|);
  }

  /** No chain returns to where it started. */
  lemma {:induction false} NoCycles(h: History, jti: string, n: nat)
    requires FreshlyLinked(h) && Next(After(h), jti).Some? && n > 0
    ensures Follow(After(h), jti, n) != jti
  {
    var k := Next(After(h), jti).value;
    ChainMeasure(h, jti, k);
    FollowDescends(h, k, n - 1);
  }

  lemma {:induction false} FollowDescends(h: History, jti: string, n: nat)
    requires FreshlyLinked(h)
    ensures StepsLeft(h, Follow(After(h), jti, n)) <= StepsLeft(h, jti)
    decreases n
  {
    match Next(After(h), jti)
    case None =>
    case Some(k) =>
      if n > 0 {
        ChainMeasure(h, jti, k);
        FollowDescends(h, k, n - 1);
      }
  }

  // ----- the service that rotates -----

  datatype RotateResult = Rotated(newJti: string) | Unknown | Replay | AlreadyRevoked | Mismatch | PastDue

  /** A call of the refresh endpoint, with the token it will draw and the clock. */
  datatype Request = Request(
    sub: string, jti: string, tokenHash: string, newJti: string, newHash: string, newExpiry: int, now: int,
    usedIp: Option<string>)

  function PutFor(rec: Token, q: Request): Txn {
    var ip := if NoneIfEmpty(q.usedIp).Some? then q.usedIp else rec.createdIp;
    PutToken(q.newJti, q.sub, q.newHash, q.now, q.newExpiry, rec.deviceId, rec.deviceName, ip, ip, rec.userAgent)
  }

  /** What a call answers and writes is settled by the one row it reads at its beginning. */
  function Plan(db: Db, q: Request): (RotateResult, seq<Txn>) {
    if q.jti !in db.tokens then (Unknown, [])
    else
      var rec := db.tokens[q.jti];
      if rec.revoked then
        if NoneIfEmpty(rec.replacedBy).Some? then (Replay, [RevokeAllTokens(q.sub, q.now)]) else (AlreadyRevoked, [])
      else if rec.tokenHash != q.tokenHash then (Mismatch, [RevokeAllTokens(q.sub, q.now)])
      else if PastExpiry(q.now, rec.expiresAt) then (PastDue, [RevokeToken(q.jti, q.now)])
      else (Rotated(q.newJti), [PutFor(rec, q), RotateToken(q.jti, q.newJti, q.now)])
  }

  /**
    The refresh endpoint run alone: refuse a token that is unknown, revoked, mismatched or expired
    (revoking the user's sessions on a replay or a mismatch), otherwise store a new token and rotate.
   */
  method RotateRefreshToken(store: AuthStore, q: Request) returns (r: RotateResult, ghost done: seq<Txn>)
    modifies store`tokens
    ensures (r, done) == Plan(old(store.Tables()), q) && store.Tables() == ExecAll(old(store.Tables()), done)
    ensures r.Unknown? <==> q.jti !in old(store.tokens)
    ensures q.jti in old(store.tokens) ==>
              var row := old(store.tokens)[q.jti];
              var replaced := row.replacedBy.Some? && row.replacedBy.value != "";
              var late := row.expiresAt != 0 && q.now > row.expiresAt;
              && (r.Replay? <==> row.revoked && replaced)
              && (r.AlreadyRevoked? <==> row.revoked && !replaced)
              && (r.Mismatch? <==> !row.revoked && row.tokenHash != q.tokenHash)
              && (r.PastDue? <==> !row.revoked && row.tokenHash == q.tokenHash && late)
              && (r.Rotated? <==> !row.revoked && row.tokenHash == q.tokenHash && !late)
    ensures r.Rotated? ==> r.newJti == q.newJti
    ensures r.Rotated? && q.newJti != q.jti ==>
              && q.newJti in store.tokens &&
              var row, was := store.tokens[q.newJti], old(store.tokens)[q.jti];
              && row.userId == q.sub && row.tokenHash == q.newHash
              && row.createdAt == q.now && row.expiresAt == q.newExpiry
              && !row.revoked && row.replacedBy == None && row.lastUsedAt == None
              && row.deviceId == (if was.deviceId == Some("") then None else was.deviceId)
              && row.deviceName == (if was.deviceName == Some("") then None else was.deviceName)
              && (was.userAgent.Some? && 0 < |was.userAgent.value| <= 160 ==> row.userAgent == was.userAgent)
              && row.lastIp == row.createdIp
              && row.createdIp == (if q.usedIp.Some? && q.usedIp.value != "" then q.usedIp
                                   else if was.createdIp == Some("") then None else was.createdIp)
              && Lookup(store.tokens, q.jti) ==
                 Some(was.(revoked := true, replacedBy := Some(q.newJti), lastUsedAt := Some(q.now)))
              && forall j :: j != q.jti && j != q.newJti ==> Lookup(store.tokens, j) == Lookup(old(store.tokens), j)
    ensures r.Replay? || r.Mismatch? ==>
              && store.tokens.Keys == old(store.tokens).Keys
              && forall j :: j in store.tokens ==>
                   store.tokens[j] == if old(store.tokens)[j].userId == q.sub
                                      then old(store.tokens)[j].(revoked := true, lastUsedAt := Some(q.now))
                                      else old(store.tokens)[j]
    ensures r.PastDue? ==>
              store.tokens ==
              old(store.tokens)[q.jti := old(store.tokens)[q.jti].(revoked := true, lastUsedAt := Some(q.now))]
    ensures r.Unknown? || r.AlreadyRevoked? ==> done == [] && store.Tables() == old(store.Tables())
    ensures q.newJti !in old(store.tokens) && Unlinked(old(store.Tables()), q.newJti) ==>
              AllFreshLinks(old(store.Tables()), done)
  {
    done := [];
    if q.jti !in store.tokens {
      return Unknown, [];
    }
    var rec := store.tokens[q.jti];
    if rec.revoked {
      if NoneIfEmpty(rec.replacedBy).Some? {
        store.RevokeAll(q.sub, q.now);
        return Replay, [RevokeAllTokens(q.sub, q.now)];
      }
      return AlreadyRevoked, [];
    }
    if rec.tokenHash != q.tokenHash {
      store.RevokeAll(q.sub, q.now);
      return Mismatch, [RevokeAllTokens(q.sub, q.now)];
    }
    if PastExpiry(q.now, rec.expiresAt) {
      store.RevokeOne(q.jti, q.now);
      return PastDue, [RevokeToken(q.jti, q.now)];
    }
    IssueAndRotate(store, q, rec);
    PutThenRotate(old(store.Tables()), PutFor(rec, q), RotateToken(q.jti, q.newJti, q.now));
    return Rotated(q.newJti), [PutFor(rec, q), RotateToken(q.jti, q.newJti, q.now)];
  }

  /** Stores a new token with the device of the old row, then marks the old row as replaced by it. */
  method IssueAndRotate(store: AuthStore, q: Request, rec: Token)
    requires q.jti in store.tokens && rec == store.tokens[q.jti]
    modifies store`tokens
    ensures var put, rotate := PutFor(rec, q), RotateToken(q.jti, q.newJti, q.now);
            store.Tables() == Exec(Exec(old(store.Tables()), put).db, rotate).db
    ensures q.newJti != q.jti ==>
              && q.newJti in store.tokens &&
              var row, was := store.tokens[q.newJti], rec;
              && row.userId == q.sub && row.tokenHash == q.newHash
              && row.createdAt == q.now && row.expiresAt == q.newExpiry
              && !row.revoked && row.replacedBy == None && row.lastUsedAt == None
              && row.deviceId == (if was.deviceId == Some("") then None else was.deviceId)
              && row.deviceName == (if was.deviceName == Some("") then None else was.deviceName)
              && (was.userAgent.Some? && 0 < |was.userAgent.value| <= 160 ==> row.userAgent == was.userAgent)
              && row.lastIp == row.createdIp
              && row.createdIp == (if q.usedIp.Some? && q.usedIp.value != "" then q.usedIp
                                   else if was.createdIp == Some("") then None else was.createdIp)
              && Lookup(store.tokens, q.jti) ==
                 Some(was.(revoked := true, replacedBy := Some(q.newJti), lastUsedAt := Some(q.now)))
              && forall j :: j != q.jti && j != q.newJti ==> Lookup(store.tokens, j) == Lookup(old(store.tokens), j)
  {
    var ip := if NoneIfEmpty(q.usedIp).Some? then q.usedIp else rec.createdIp;
    store.PutRefreshToken(q.newJti, q.sub, q.newHash, q.now, q.newExpiry, rec.deviceId, rec.deviceName, ip, ip,
                          rec.userAgent);
    store.Rotate(q.jti, q.newJti, q.now);
  }

  function ExecAll(db: Db, ts: seq<Txn>): Db
    decreases |ts|
  {
    if ts == [] then db else ExecAll(Exec(db, ts[0]).db, ts[1..])
  }

  ghost predicate AllFreshLinks(db: Db, ts: seq<Txn>)
    decreases |ts|
  {
    ts == [] || (FreshLink(db, ts[0]) && AllFreshLinks(Exec(db, ts[0]).db, ts[1..]))
  }

  lemma {:induction false} PutThenRotate(db: Db, put: Txn, rotate: Txn)
    requires put.PutToken? && rotate.RotateToken? && put.jti == rotate.newJti
    requires rotate.oldJti in db.tokens && !db.tokens[rotate.oldJti].revoked
    ensures ExecAll(db, [put, rotate]) == Exec(Exec(db, put).db, rotate).db
    ensures put.jti !in db.tokens && Unlinked(db, put.jti) ==> AllFreshLinks(db, [put, rotate])
  {
    var mid := Exec(db, put).db;
    assert [put, rotate][1..] == [rotate] && [rotate][1..] == [];
    assert ExecAll(mid, [rotate]) == Exec(mid, rotate).db;
    if put.jti !in db.tokens && Unlinked(db, put.jti) {
      forall j
        ensures !Edge(mid, j, put.jti)
      {
        assert !Edge(db, j, put.jti);
      }
      assert FreshLink(mid, rotate);
      assert AllFreshLinks(mid, [rotate]);
    }
  }

  /**
    The point of a rotation: whoever is given the new token can refresh with it next, until it expires, on
    whatever tables the first call left.
   */
  lemma {:induction false} NewTokenRefreshes(db: Db, q: Request, next: Request)
    requires Plan(db, q).0.Rotated? && q.newJti != q.jti
    requires next.jti == q.newJti && next.tokenHash == q.newHash && !PastExpiry(next.now, q.newExpiry)
    ensures Plan(ExecAll(db, Plan(db, q).1), next).0 == Rotated(next.newJti)
  {
    var put, rotate := Plan(db, q).1[0], Plan(db, q).1[1];
    PutThenRotate(db, put, rotate);
    assert Plan(db, q).1 == [put, rotate];
  }

  /** The old token is good for nothing any more: presenting it again is a replay. */
  lemma {:induction false} OldTokenIsReplay(db: Db, q: Request, again: Request)
    requires Plan(db, q).0.Rotated? && q.newJti != "" && again.jti == q.jti && q.newJti != q.jti
    ensures Plan(ExecAll(db, Plan(db, q).1), again) == (Replay, [RevokeAllTokens(again.sub, again.now)])
  {
    var put, rotate := Plan(db, q).1[0], Plan(db, q).1[1];
    PutThenRotate(db, put, rotate);
    assert Plan(db, q).1 == [put, rotate];
  }

  /** A history continued by transactions run one after the other. */
  function Extended(h: History, ts: seq<Txn>): History
    decreases |ts|
  {
    if ts == [] then h else Extended(h + [Event(ts[0], Exec(After(h), ts[0]).outcome)], ts[1..])
  }

  /** Whatever a call does with fresh links - see `RotateRefreshToken` - continues a history with fresh links. */
  lemma {:induction false} CallKeepsLinksFresh(h: History, done: seq<Txn>)
    requires Valid(h) && FreshlyLinked(h) && AllFreshLinks(After(h), done)
    ensures var g := Extended(h, done);
            Valid(g) && FreshlyLinked(g) && After(g) == ExecAll(After(h), done)
    decreases |done|
  {
    if done != [] {
      var longer := h + [Event(done[0], Exec(After(h), done[0]).outcome)];
      assert longer[..|longer| - 1] == h;
      CallKeepsLinksFresh(longer, done[1..]);
    }
  }

  /** The second of two rotations of one token overwrites the first edge and leaves the first new token unreachable. */
  lemma {:induction false} SecondRotationOverwrites(db: Db, first: Txn, second: Txn)
    requires first.RotateToken? && second.RotateToken? && first.oldJti == second.oldJti && first.oldJti in db.tokens
    requires first.newJti != second.newJti && Unlinked(db, first.newJti)
    ensures var mid := Exec(db, first).db;
            var end := Exec(mid, second).db;
            && Edge(mid, first.oldJti, first.newJti) && Edge(end, first.oldJti, second.newJti)
            && forall j :: !Edge(end, j, first.newJti)
  {
    RotationEdges(db, first);
    RotationEdges(Exec(db, first).db, second);
    forall j
      ensures !Edge(Exec(Exec(db, first).db, second).db, j, first.newJti)
    {
      assert !Edge(db, j, first.newJti);
    }
  }
}
