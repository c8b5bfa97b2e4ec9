/**
  API keys: minting, revoking, and recognising a presented key.
 */
module ApiKeys {
  import opened Wrappers
  import opened Text
  import opened AuthStore
  import opened AuthHistories

  const ALLOWED_SCOPES: set<string> := {"read:job", "submit:job", "edit:job", "admin:*"}

  function Plain(prefix: string, secret: string): string {
    "dp_" + prefix + "_" + secret
  }

  /** `api_key.split("_", 2)`: exactly three parts, or nothing. */
  function SplitKey(s: string): Option<(string, string, string)> {
    match SplitFirst(s, '_')
    case None => None
    case Some(p) =>
      match SplitFirst(p.1, '_')
      case None => None
      case Some(q) => Some((p.0, q.0, q.1))
  }

  /** Building a key and splitting it are inverse, even when the secret contains underscores. */
  lemma {:induction false} SplitPlain(prefix: string, secret: string)
    requires '_' !in prefix
    ensures SplitKey(Plain(prefix, secret)) == Some(("dp", prefix, secret))
  {
    SplitJoin("dp", '_', prefix + "_" + secret);
    assert Plain(prefix, secret) == "dp" + ['_'] + (prefix + "_" + secret);
    SplitJoin(prefix, '_', secret);
    assert prefix + "_" + secret == prefix + ['_'] + secret;
  }

  /** Splitting loses nothing. */
  lemma {:induction false} JoinSplit(s: string)
    requires SplitKey(s).Some?
    ensures var p := SplitKey(s).value; s == p.0 + "_" + p.1 + "_" + p.2
  {
    SplitInverse(s, '_');
    SplitInverse(SplitFirst(s, '_').value.1, '_');
  }

  function VerifySecret(hash: Digest, presented: string): bool {
    hash.plain == presented
  }

  datatype Verdict = Identity(user: User, scopes: seq<string>, prefix: string) | Unauthorized

  /** Unrevoked rows with a prefix. */
  function Candidates(db: Db, prefix: string): set<string> {
    set id | id in db.apiKeys && db.apiKeys[id].prefix == prefix && !db.apiKeys[id].revoked
  }

  /** The rows of a query, in the order the database happens to deliver them. */
  ghost predicate Lists(rows: seq<string>, ids: set<string>) {
    (forall id :: id in rows <==> id in ids) && forall i, j :: 0 <= i < j < |rows| ==> rows[i] != rows[j]
  }

  ghost predicate Verifies(db: Db, id: string, presented: string) {
    SplitKey(presented).Some? && id in Candidates(db, SplitKey(presented).value.1) &&
    VerifySecret(db.apiKeys[id].keyHash, presented)
  }

  /** The first row whose hash verifies the presented key. */
  function FirstMatch(db: Db, rows: seq<string>, presented: string): Option<string>
    requires forall id :: id in rows ==> id in db.apiKeys
  {
    if rows == [] then None
    else if VerifySecret(db.apiKeys[rows[0]].keyHash, presented) then Some(rows[0])
    else FirstMatch(db, rows[1..], presented)
  }

  lemma {:induction false} FirstMatchFinds(db: Db, rows: seq<string>, presented: string)
    requires forall id :: id in rows ==> id in db.apiKeys
    ensures match FirstMatch(db, rows, presented)
            case Some(id) => id in rows && VerifySecret(db.apiKeys[id].keyHash, presented)
            case None => forall id :: id in rows ==> !VerifySecret(db.apiKeys[id].keyHash, presented)
  {
    if rows != [] {
      FirstMatchFinds(db, rows[1..], presented);
    }
  }

  ghost predicate QueryResult(db: Db, presented: string, rows: seq<string>) {
    SplitKey(presented).Some? ==> Lists(rows, Candidates(db, SplitKey(presented).value.1))
  }

  /** What the API-key branch answers: the first candidate that verifies decides, and its user must exist. */
  function IdentityOf(db: Db, presented: string, rows: seq<string>): Verdict
    requires QueryResult(db, presented, rows)
  {
    if SplitKey(presented).None? then Unauthorized
    else
      match FirstMatch(db, rows, presented)
      case None => Unauthorized
      case Some(id) =>
        FirstMatchFinds(db, rows, presented);
        var k := db.apiKeys[id];
        if k.userId in db.users then Identity(db.users[k.userId], k.scopes, SplitKey(presented).value.1)
        else Unauthorized
  }

  /** The API-key branch of `current_identity`. */
  method CurrentIdentity(store: AuthStore, presented: string, rows: seq<string>) returns (v: Verdict)
    requires QueryResult(store.Tables(), presented, rows)
    ensures v == IdentityOf(store.Tables(), presented, rows)
  {
    var parts := SplitKey(presented);
    if parts.None? {
      return Unauthorized;
    }
    var prefix := parts.value.1;
    assert forall id :: id in rows ==> id in store.apiKeys;
    for i := 0 to |rows|
      invariant forall id :: id in rows[i..] ==> id in rows
      invariant FirstMatch(store.Tables(), rows, presented) == FirstMatch(store.Tables(), rows[i..], presented)
    {
      var k := store.apiKeys[rows[i]];
      if VerifySecret(k.keyHash, presented) {
        if k.userId !in store.users {
          return Unauthorized;
        }
        return Identity(store.users[k.userId], k.scopes, prefix);
      }
      assert rows[i..][1..] == rows[i + 1..];
    }
    v := Unauthorized;
  }

  // ----- minting -----

  function Cleaned(scopes: seq<string>): seq<string> {
    if scopes == [] then []
    else (if Strip(scopes[0]) == "" then [] else [Strip(scopes[0])]) + Cleaned(scopes[1..])
  }

  /** The scopes a request asks for, or None when one of them is not supported. */
  function ScopesOf(requested: Option<seq<string>>): Option<seq<string>> {
    var asked := if requested.None? || requested.value == [] then ["read:job"] else requested.value;
    var cleaned := Cleaned(asked);
    var scopes := if cleaned == [] then ["read:job"] else cleaned;
    if exists s :: s in scopes && s !in ALLOWED_SCOPES then None else Some(scopes)
  }

  /** A key is never minted without a scope or with an unsupported one. */
  lemma {:induction false} ScopesAreAllowed(requested: Option<seq<string>>)
    ensures ScopesOf(requested).Some? ==>
              ScopesOf(requested).value != [] && forall s :: s in ScopesOf(requested).value ==> s in ALLOWED_SCOPES
  {
  }

  /** What is left of a list of scopes after stripping: the non-blank ones, and nothing else. */
  lemma {:induction false} CleanedMembers(scopes: seq<string>)
    ensures forall s :: s in Cleaned(scopes) <==> s != "" && exists q :: q in scopes && Strip(q) == s
  {
    if scopes != [] {
      CleanedMembers(scopes[1..]);
      assert scopes == [scopes[0]] + scopes[1..];
    }
  }

  /** Something other than white space was asked for. */
  ghost predicate Asks(requested: Option<seq<string>>) {
    requested.Some? && exists q :: q in requested.value && Strip(q) != ""
  }

  /**
    Which scopes a request gets: none if it asks, anywhere, for an unsupported one; `read:job` if it asks for
    nothing; and otherwise exactly those it asks for.
   */
  lemma {:induction false} GrantedIsAsked(requested: Option<seq<string>>)
    ensures ScopesOf(requested).None? <==>
            requested.Some? && exists q :: q in requested.value && Strip(q) != "" &&
                                           Strip(q) !in {"read:job", "submit:job", "edit:job", "admin:*"}
    ensures !Asks(requested) ==> ScopesOf(requested) == Some(["read:job"])
    ensures Asks(requested) && ScopesOf(requested).Some? ==>
              forall s :: s in ScopesOf(requested).value <==>
                          s != "" && exists q :: q in requested.value && Strip(q) == s
  {
    var asked := if requested.None? || requested.value == [] then ["read:job"] else requested.value;
    CleanedMembers(asked);
    if requested.Some? && Asks(requested) {
      var q :| q in requested.value && Strip(q) != "";
      assert Strip(q) in Cleaned(asked);
      UnsupportedAreAsked(asked);
    } else if requested.None? || requested.value == [] {
      assert asked == ["read:job"] && StripLeft("read:job") == "read:job" && Strip("read:job") == "read:job";
      assert Cleaned(asked) == ["read:job"];
    } else {
      BlankIsCleanedAway(asked);
    }
  }

  lemma {:induction false} BlankIsCleanedAway(scopes: seq<string>)
    requires forall q :: q in scopes ==> Strip(q) == ""
    ensures Cleaned(scopes) == []
  {
    if scopes != [] {
      BlankIsCleanedAway(scopes[1..]);
    }
  }

  lemma {:induction false} UnsupportedAreAsked(asked: seq<string>)
    ensures (exists s :: s in Cleaned(asked) && s !in ALLOWED_SCOPES) <==>
            exists q :: q in asked && Strip(q) != "" && Strip(q) !in ALLOWED_SCOPES
  {
    CleanedMembers(asked);
    if q :| q in asked && Strip(q) != "" && Strip(q) !in ALLOWED_SCOPES {
      assert Strip(q) in Cleaned(asked);
    }
    if s :| s in Cleaned(asked) && s !in ALLOWED_SCOPES {
      var q :| q in asked && Strip(q) == s;
    }
  }

  datatype Minted = Minted(plain: string, scopes: seq<string>) | UnsupportedScope | Collision

  /** POST /keys: the prefix, secret and row id are drawn at random by the caller of this model. */
  method MintKey(store: AuthStore, userId: string, requested: Option<seq<string>>, keyId: string,
                 prefix: string, secret: string, now: int)
    returns (r: Minted)
    modifies store`apiKeys
    ensures r == UnsupportedScope <==>
            requested.Some? && exists q :: q in requested.value && Strip(q) != "" &&
                                           Strip(q) !in {"read:job", "submit:job", "edit:job", "admin:*"}
    ensures r == Collision <==> r != UnsupportedScope && keyId in old(store.apiKeys)
    ensures r.Minted? ==>
              && (Asks(requested) ==>
                    forall s :: s in r.scopes <==> s != "" && exists q :: q in requested.value && Strip(q) == s)
              && (!Asks(requested) ==> r.scopes == ["read:job"])
              && r.plain == "dp_" + prefix + "_" + secret
              && store.apiKeys ==
                 old(store.apiKeys)[keyId := ApiKey(prefix, Digest(r.plain), r.scopes, userId, now, false)]
    ensures !r.Minted? ==> store.Tables() == old(store.Tables())
    ensures r.Minted? ==>
              store.Tables() == Exec(old(store.Tables()), KeyTxn(keyId, prefix, secret, r.scopes, userId, now)).db
    ensures r.Minted? && '_' !in prefix ==> Verifies(store.Tables(), keyId, r.plain)
  {
    GrantedIsAsked(requested);
    var scopes := ScopesOf(requested);
    if scopes.None? {
      return UnsupportedScope;
    }
    var plain := Plain(prefix, secret);
    var key := ApiKey(prefix, Digest(plain), scopes.value, userId, now, false);
    var outcome := store.InsertKey(keyId, key);
    if outcome.IntegrityError? {
      return Collision;
    }
    if '_' !in prefix {
      SplitPlain(prefix, secret);
    }
    r := Minted(plain, scopes.value);
  }

  function KeyTxn(keyId: string, prefix: string, secret: string, scopes: seq<string>, userId: string, now: int): Txn {
    CreateKey(keyId, ApiKey(prefix, Digest(Plain(prefix, secret)), scopes, userId, now, false))
  }

  // ----- histories -----

  ghost predicate Mints(t: Txn, plain: string) {
    t.CreateKey? && t.key.keyHash.plain == plain
  }

  /** Keys are minted as the route mints them, and no plain key is minted twice. */
  ghost predicate KeysWellMinted(h: History) {
    && (forall i :: 0 <= i < |h| && h[i].txn.CreateKey? ==>
          var k := h[i].txn.key;
          !k.revoked && '_' !in k.prefix && exists secret :: k.keyHash.plain == Plain(k.prefix, secret))
    && (forall i, j :: 0 <= i < j < |h| && h[i].txn.CreateKey? && h[j].txn.CreateKey? ==>
          h[i].txn.key.keyHash != h[j].txn.key.keyHash)
  }

  /** Event i created key row `id`, and nothing since has revoked it. */
  ghost predicate Live(h: History, i: int, id: string) {
    && 0 <= i < |h| && h[i].txn.CreateKey? && h[i].txn.keyId == id && h[i].outcome == Done
    && forall j :: i < j < |h| ==> h[j].txn != RevokeKey(id)
  }

  lemma {:induction false} KeysWellMintedPrefix(h: History, n: nat)
    requires n <= |h| && KeysWellMinted(h)
    ensures KeysWellMinted(h[..n])
  {
  }

  /** What one transaction does to a key row. */
  lemma {:induction false} KeyStep(db: Db, t: Txn, id: string)
    ensures var row, after := Lookup(db.apiKeys, id), Exec(db, t);
            Lookup(after.db.apiKeys, id) ==
              if t.CreateKey? && t.keyId == id && after.outcome == Done then Some(t.key)
              else if t.RevokeKey? && t.keyId == id && row.Some? then Some(row.value.(revoked := true))
              else row
    ensures t.CreateKey? && t.keyId == id ==> (Exec(db, t).outcome == Done <==> id !in db.apiKeys)
  {
  }

  /** A row that some event created and none since revoked is there, unrevoked, and holds that event's key. */
  lemma {:induction false} LiveRowIsUnrevoked(h: History, i: int, id: string)
    requires Valid(h) && KeysWellMinted(h) && Live(h, i, id)
    ensures Lookup(After(h).apiKeys, id) == Some(h[i].txn.key) && !h[i].txn.key.revoked
  {
    var n := |h| - 1;
    var p := h[..n];
    KeyStep(After(p), h[n].txn, id);
    if i < n {
      KeysWellMintedPrefix(h, n);
      assert p[i] == h[i] && Live(p, i, id);
      LiveRowIsUnrevoked(p, i, id);
      assert h[n].txn != RevokeKey(id);
    }
  }

  /** An unrevoked row was created by some event and has not been revoked since. */
  lemma {:induction false} UnrevokedRowIsLive(h: History, id: string)
    requires Valid(h) && id in After(h).apiKeys && !After(h).apiKeys[id].revoked
    ensures exists i :: Live(h, i, id)
  {
    var n := |h| - 1;
    var p, t := h[..n], h[n].txn;
    KeyStep(After(p), t, id);
    if t.CreateKey? && t.keyId == id && h[n].outcome == Done {
      assert Live(h, n, id);
    } else {
      assert Lookup(After(p).apiKeys, id) == Lookup(After(h).apiKeys, id);
      UnrevokedRowIsLive(p, id);
      var i :| Live(p, i, id);
      LiveStays(h, i, id);
    }
  }

  /** A live creation stays live through an event that does not revoke it. */
  lemma {:induction false} LiveStays(h: History, i: int, id: string)
    requires h != [] && Live(h[..|h| - 1], i, id) && !(h[|h| - 1].txn.RevokeKey? && h[|h| - 1].txn.keyId == id)
    ensures Live(h, i, id)
  {
    var p := h[..|h| - 1];
    assert p[i] == h[i] && forall j :: i < j < |p| ==> h[j] == p[j];
  }

  ghost predicate Origin(h: History, i: int, id: string, hash: Digest) {
    0 <= i < |h| && h[i].txn.CreateKey? && h[i].txn.keyId == id && h[i].txn.key.keyHash == hash
  }

  /** Every row holds the key of the event that created it, so its hash belongs to one row only. */
  lemma {:induction false} RowsComeFromEvents(h: History, id: string)
    requires Valid(h) && KeysWellMinted(h) && id in After(h).apiKeys
    ensures exists i :: Origin(h, i, id, After(h).apiKeys[id].keyHash)
  {
    var n := |h| - 1;
    var p, t := h[..n], h[n].txn;
    KeysWellMintedPrefix(h, n);
    KeyStep(After(p), t, id);
    if t.CreateKey? && t.keyId == id && h[n].outcome == Done {
      assert Origin(h, n, id, After(h).apiKeys[id].keyHash);
    } else {
      RowsComeFromEvents(p, id);
      var i :| Origin(p, i, id, After(p).apiKeys[id].keyHash);
      assert Origin(h, i, id, After(h).apiKeys[id].keyHash);
    }
  }

  lemma {:induction false} OneRowPerKey(h: History, a: string, b: string)
    requires Valid(h) && KeysWellMinted(h) && a in After(h).apiKeys && b in After(h).apiKeys
    requires After(h).apiKeys[a].keyHash == After(h).apiKeys[b].keyHash
    ensures a == b
  {
    var hash := After(h).apiKeys[a].keyHash;
    RowsComeFromEvents(h, a);
    RowsComeFromEvents(h, b);
    var i :| Origin(h, i, a, hash);
    var j :| Origin(h, j, b, hash);
    assert i == j;
  }

  /** The key was minted, its row never revoked since, and its user exists. */
  ghost predicate Entitled(h: History, i: int, presented: string) {
    0 <= i < |h| && Mints(h[i].txn, presented) && Live(h, i, h[i].txn.keyId) && h[i].txn.key.userId in After(h).users
  }

  /** A stored key verifies a presented text exactly when the text is the one it was minted from. */
  lemma {:induction false} VerifiesIffMinted(h: History, i: int, presented: string)
    requires Valid(h) && KeysWellMinted(h) && 0 <= i < |h| && h[i].txn.CreateKey? && Live(h, i, h[i].txn.keyId)
    ensures Verifies(After(h), h[i].txn.keyId, presented) <==> Mints(h[i].txn, presented)
  {
    var k := h[i].txn.key;
    LiveRowIsUnrevoked(h, i, h[i].txn.keyId);
    if Mints(h[i].txn, presented) {
      var secret :| k.keyHash.plain == Plain(k.prefix, secret);
      SplitPlain(k.prefix, secret);
    }
  }

  /**
    After any run of mints and revocations with distinct keys, a presented key is accepted if and only if it
    was minted, never revoked and its user exists; it then yields exactly that user and those scopes.
   */
  lemma {:induction false} AcceptedIffEntitled(h: History, presented: string, rows: seq<string>)
    requires Valid(h) && KeysWellMinted(h) && QueryResult(After(h), presented, rows)
    ensures IdentityOf(After(h), presented, rows).Identity? <==> exists i :: Entitled(h, i, presented)
    ensures forall i :: Entitled(h, i, presented) ==>
              var k := h[i].txn.key;
              IdentityOf(After(h), presented, rows) == Identity(After(h).users[k.userId], k.scopes, k.prefix)
  {
    var db, v := After(h), IdentityOf(After(h), presented, rows);
    if SplitKey(presented).Some? {
      FirstMatchFinds(db, rows, presented);
    }
    if v.Identity? {
      var id := FirstMatch(db, rows, presented).value;
      UnrevokedRowIsLive(h, id);
      var i :| Live(h, i, id);
      LiveRowIsUnrevoked(h, i, id);
      assert Entitled(h, i, presented);
    }
    forall i | Entitled(h, i, presented)
      ensures v == Identity(db.users[h[i].txn.key.userId], h[i].txn.key.scopes, h[i].txn.key.prefix)
    {
      EntitledIsTheOnlyMatch(h, i, presented);
      assert h[i].txn.keyId in rows;
      assert Verifies(db, FirstMatch(db, rows, presented).value, presented);
    }
  }

  lemma {:induction false} EntitledIsTheOnlyMatch(h: History, i: int, presented: string)
    requires Valid(h) && KeysWellMinted(h) && Entitled(h, i, presented)
    ensures Verifies(After(h), h[i].txn.keyId, presented) && After(h).apiKeys[h[i].txn.keyId] == h[i].txn.key
    ensures forall id :: Verifies(After(h), id, presented) ==> id == h[i].txn.keyId
  {
    VerifiesIffMinted(h, i, presented);
    LiveRowIsUnrevoked(h, i, h[i].txn.keyId);
    forall id | Verifies(After(h), id, presented)
      ensures id == h[i].txn.keyId
    {
      OneRowPerKey(h, id, h[i].txn.keyId);
    }
  }
}
