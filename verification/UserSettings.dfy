/**
  Per-user settings: a file of nested dictionaries that must behave as a map in which, key by key, the last
  accepted value wins.
 */
module UserSettings {
  import opened Wrappers
  import opened Text

  datatype Key = Mode | Device | SrcLang | TgtLang | TtsLang | TtsSpeaker

  datatype Error =
    | MissingUserId | InvalidBody | InvalidMode | InvalidDevice | InvalidLanguage
    | TopicTooLong | TopicFormat | TopicRequired

  /** A request body, its values already turned into text as `str(v or "")` does. */
  datatype Body = NotAnObject | Object(defaults: Option<map<Key, string>>, notifications: Option<NotifyPatch>)

  datatype NotifyPatch = NotifyPatch(enabled: Option<bool>, topic: Option<string>)

  /** What an accepted body changes. */
  datatype Change = Change(defaults: map<Key, string>, enabled: Option<bool>, topic: Option<string>)

  // ----- validation -----

  function OneOf(v: string, allowed: set<string>, e: Error): Result<string, Error> {
    var vv := Lower(Strip(v));
    if vv in allowed then Ok(vv) else Err(e)
  }

  function ValidateLang(v: string): Result<string, Error> {
    var vv := Lower(Strip(v));
    if vv == "" || |vv| > 12 then Err(InvalidLanguage) else Ok(vv)
  }

  function Validate(k: Key, v: string): Result<string, Error> {
    match k
    case Mode => OneOf(v, {"high", "medium", "low"}, InvalidMode)
    case Device => OneOf(v, {"auto", "cpu", "cuda"}, InvalidDevice)
    case SrcLang => ValidateLang(v)
    case TgtLang => ValidateLang(v)
    case TtsLang => ValidateLang(v)
    case TtsSpeaker => Ok(if Strip(v) == "" then "default" else Strip(v))
  }

  predicate Alphanumeric(c: char) {
    'A' <= c <= 'Z' || 'a' <= c <= 'z' || '0' <= c <= '9'
  }

  predicate TopicShape(t: string) {
    && 1 <= |t| <= 64 && Alphanumeric(t[0])
    && forall i :: 1 <= i < |t| ==> Alphanumeric(t[i]) || t[i] == '.' || t[i] == '_' || t[i] == '-'
  }

  function ValidateTopic(v: string): Result<string, Error> {
    var vv := Strip(v);
    if vv == "" then Ok("")
    else if |vv| > 64 then Err(TopicTooLong)
    else if !TopicShape(vv) then Err(TopicFormat)
    else Ok(vv)
  }

  /** The domain of each setting. */
  predicate InDomain(k: Key, v: string) {
    match k
    case Mode => v in {"high", "medium", "low"}
    case Device => v in {"auto", "cpu", "cuda"}
    case TtsSpeaker => v != "" && Stripped(v)
    case _ => 1 <= |v| <= 12 && Stripped(v) && Lower(v) == v
  }

  predicate TopicInDomain(t: string) {
    t == "" || (TopicShape(t) && Stripped(t))
  }

  /** An accepted value is in its domain, and submitting it again gives it back. */
  lemma {:induction false} ValidatedIsCanonical(k: Key, v: string)
    requires Validate(k, v).Ok?
    ensures InDomain(k, Validate(k, v).value) && Validate(k, Validate(k, v).value) == Validate(k, v)
  {
    var vv := Validate(k, v).value;
    StripStrips(v);
    LowerKeepsStripped(Strip(v));
    LowerOfLower(Strip(v));
    assert Stripped("default");
    StripFixed(vv);
  }

  lemma {:induction false} ValidatedTopicIsCanonical(v: string)
    requires ValidateTopic(v).Ok?
    ensures TopicInDomain(ValidateTopic(v).value) && ValidateTopic(ValidateTopic(v).value) == ValidateTopic(v)
  {
  }

  /**
    Which values are accepted and what is stored: the value without outer white space, lower-cased, if that is
    in the domain; a speaker is kept as it is written, and a blank one is "default".
   */
  lemma {:induction false} AcceptedValues(k: Key, v: string)
    ensures k != TtsSpeaker ==>
              && (Validate(k, v).Ok? <==> InDomain(k, Lower(Strip(v))))
              && (Validate(k, v).Ok? ==> Validate(k, v).value == Lower(Strip(v)))
    ensures k == TtsSpeaker ==> Validate(k, v) == Ok(if Strip(v) == "" then "default" else Strip(v))
    ensures Validate(k, v).Err? ==>
              Validate(k, v).error == if k == Mode then InvalidMode else if k == Device then InvalidDevice
                                      else InvalidLanguage
  {
    StripStrips(v);
    LowerKeepsStripped(Strip(v));
    LowerOfLower(Strip(v));
    LowerMeaning(Strip(v));
  }

  lemma {:induction false} AcceptedTopics(v: string)
    ensures ValidateTopic(v).Ok? <==> TopicInDomain(Strip(v))
    ensures ValidateTopic(v).Ok? ==> ValidateTopic(v).value == Strip(v)
    ensures ValidateTopic(v).Err? ==> ValidateTopic(v).error == if |Strip(v)| > 64 then TopicTooLong else TopicFormat
  {
    StripStrips(v);
  }

  const KEYS := [Mode, Device, SrcLang, TgtLang, TtsLang, TtsSpeaker]

  /** Validates the first n keys in the program's order; the first bad value decides the error. */
  function ValidateKeys(d: map<Key, string>, n: nat): Result<map<Key, string>, Error>
    requires n <= |KEYS|
  {
    if n == 0 then Ok(map[])
    else
      match ValidateKeys(d, n - 1)
      case Err(e) => Err(e)
      case Ok(out) =>
        var k := KEYS[n - 1];
        if k !in d then Ok(out)
        else
          match Validate(k, d[k])
          case Err(e) => Err(e)
          case Ok(v) => Ok(out[k := v])
  }

  function ChangeOf(body: Body): Result<Change, Error> {
    if body.NotAnObject? then Err(InvalidBody)
    else
      match ValidateKeys(if body.defaults.Some? then body.defaults.value else map[], |KEYS|)
      case Err(e) => Err(e)
      case Ok(d) =>
        if body.notifications.None? then Ok(Change(d, None, None))
        else
          var n := body.notifications.value;
          match (if n.topic.None? then Ok(None) else MapTopic(ValidateTopic(n.topic.value)))
          case Err(e) => Err(e)
          case Ok(topic) =>
            if n.enabled == Some(true) && (topic.None? || Strip(topic.value) == "") then Err(TopicRequired)
            else Ok(Change(d, n.enabled, topic))
  }

  function MapTopic(r: Result<string, Error>): Result<Option<string>, Error> {
    match r
    case Ok(t) => Ok(Some(t))
    case Err(e) => Err(e)
  }

  // ----- the file -----

  /** A field that should hold a dictionary. */
  datatype Section<T> = Absent | Odd | Dict(value: T)

  datatype Notify = Notify(enabled: Option<bool>, topic: Option<string>)

  datatype Stored =
    | OddEntry
    | Entry(defaults: Section<map<Key, string>>, notifications: Section<Notify>, updatedAt: int)

  datatype File = Missing | Unreadable | Doc(users: map<string, Stored>)

  function LoadAll(f: File): map<string, Stored> {
    if f.Doc? then f.users else map[]
  }

  datatype Config = Config(ttsLang: string, ttsSpeaker: string)

  datatype Settings = Settings(defaults: map<Key, string>, enabled: bool, topic: string, updatedAt: int)

  function Defaults(cfg: Config): map<Key, string> {
    map[Mode := "medium", Device := "auto", SrcLang := "ja", TgtLang := "en",
        TtsLang := cfg.ttsLang, TtsSpeaker := cfg.ttsSpeaker]
  }

  function Default(k: Key, cfg: Config): string {
    match k
    case Mode => "medium"
    case Device => "auto"
    case SrcLang => "ja"
    case TgtLang => "en"
    case TtsLang => cfg.ttsLang
    case TtsSpeaker => cfg.ttsSpeaker
  }

  function OrElse<T>(o: Option<T>, d: T): T {
    if o.Some? then o.value else d
  }

  /** The settings a user sees: the stored values over the defaults. */
  function View(f: File, uid: string, cfg: Config, now: int): Settings {
    var base := Settings(Defaults(cfg), false, "", now);
    var row: Option<Stored> := Lookup(LoadAll(f), uid);
    match row
    case None => base
    case Some(OddEntry) => base
    case Some(Entry(d, n, at)) =>
      Settings(if d.Dict? then base.defaults + d.value else base.defaults,
               if n.Dict? then OrElse(n.value.enabled, false) else false,
               if n.Dict? then OrElse(n.value.topic, "") else "",
               if at != 0 then at else now)
  }

  function Changed(cur: Stored, c: Change, now: int): Stored {
    var e := if cur.Entry? then cur else Entry(Absent, Absent, 0);
    var d0 := if e.defaults.Absent? then Dict(map[]) else e.defaults;
    var d := if c.defaults == map[] then d0
             else if d0.Dict? then Dict(d0.value + c.defaults) else Dict(c.defaults);
    var n0 := if e.notifications.Dict? then e.notifications.value else Notify(None, None);
    var n := if c.enabled.None? && c.topic.None? then e.notifications
             else Dict(Notify(if c.enabled.Some? then c.enabled else n0.enabled,
                              if c.topic.Some? then c.topic else n0.topic));
    Entry(d, n, now)
  }

  function Saved(f: File, uid: string, c: Change, now: int): File {
    var users := LoadAll(f);
    var cur := if uid in users then users[uid] else Entry(Absent, Absent, 0);
    Doc(users[uid := Changed(cur, c, now)])
  }

  /** The store: its file is rewritten as a whole by each accepted update. */
  class UserSettingsStore {
    const cfg: Config
    var file: File

    constructor (cfg: Config)
      ensures file == Missing && this.cfg == cfg
    {
      this.cfg := cfg;
      file := Missing;
    }

    method GetUser(userId: string, now: int) returns (r: Result<Settings, Error>)
      ensures r == if Strip(userId) == "" then Err(MissingUserId) else Ok(View(file, Strip(userId), cfg, now))
    {
      var uid := Strip(userId);
      if uid == "" {
        return Err(MissingUserId);
      }
      var users := LoadAll(file);
      var base := Settings(Defaults(cfg), false, "", now);
      if uid in users && users[uid].Entry? {
        var cur := users[uid];
        if cur.defaults.Dict? {
          base := base.(defaults := base.defaults + cur.defaults.value);
        }
        if cur.notifications.Dict? {
          var n := cur.notifications.value;
          base := base.(enabled := OrElse(n.enabled, base.enabled), topic := OrElse(n.topic, base.topic));
        }
        if cur.updatedAt != 0 {
          base := base.(updatedAt := cur.updatedAt);
        }
      }
      r := Ok(base);
    }

    method UpdateUser(userId: string, body: Body, now: int) returns (r: Result<Settings, Error>)
      modifies this`file
      ensures r.Err? <==> Strip(userId) == "" || ChangeOf(body).Err?
      ensures r.Err? ==> file == old(file)
      ensures r.Err? ==> r.error == if Strip(userId) == "" then MissingUserId else ChangeOf(body).error
      ensures r.Ok? ==> file == Saved(old(file), Strip(userId), ChangeOf(body).value, now)
      ensures r.Ok? ==> r.value == View(file, Strip(userId), cfg, now)
      ensures forall us :: old(file) == FileAfter(us) ==> file == FileAfter(us + [Update(userId, body, now)])
    {
      forall us: seq<Update>
        ensures FileAfter(us + [Update(userId, body, now)]) ==
                if Strip(userId) != "" && ChangeOf(body).Ok?
                then Saved(FileAfter(us), Strip(userId), ChangeOf(body).value, now)
                else FileAfter(us)
      {
        FileAfterOneMore(us, Update(userId, body, now));
      }
      var uid := Strip(userId);
      if uid == "" {
        return Err(MissingUserId);
      }
      var change := ChangeOf(body);
      if change.Err? {
        return Err(change.error);
      }
      var c := change.value;
      var users := LoadAll(file);
      var cur := Entry(Absent, Absent, 0);
      if uid in users && users[uid].Entry? {
        cur := users[uid];
      }
      if cur.defaults.Absent? {
        cur := cur.(defaults := Dict(map[]));
      }
      if c.defaults != map[] {
        if !cur.defaults.Dict? {
          cur := cur.(defaults := Dict(map[]));
        }
        cur := cur.(defaults := Dict(cur.defaults.value + c.defaults));
        assert map[] + c.defaults == c.defaults;
      }
      if c.enabled.Some? || c.topic.Some? {
        if !cur.notifications.Dict? {
          cur := cur.(notifications := Dict(Notify(None, None)));
        }
        var n := cur.notifications.value;
        cur := cur.(notifications := Dict(Notify(if c.enabled.Some? then c.enabled else n.enabled,
                                                 if c.topic.Some? then c.topic else n.topic)));
      }
      cur := cur.(updatedAt := now);
      users := users[uid := cur];
      file := Doc(users);
      StripStrips(userId);
      StripFixed(uid);
      r := GetUser(uid, now);
    }
  }

  // ----- acceptance -----

  lemma {:induction false} ValidateKeysAccepts(d: map<Key, string>, n: nat)
    requires n <= |KEYS|
    ensures var r := ValidateKeys(d, n);
            && (r.Ok? <==> forall i :: 0 <= i < n && KEYS[i] in d ==> Validate(KEYS[i], d[KEYS[i]]).Ok?)
            && (r.Ok? ==> forall k :: k in r.value <==> k in d && k in KEYS[..n])
            && (r.Ok? ==> forall k :: k in r.value ==> Validate(k, d[k]) == Ok(r.value[k]))
  {
    if n > 0 {
      ValidateKeysAccepts(d, n - 1);
      assert KEYS[..n] == KEYS[..n - 1] + [KEYS[n - 1]];
    }
  }

  lemma {:induction false} AllKeys(k: Key)
    ensures k in KEYS
  {
  }

  /**
    A body is accepted if and only if it is an object, every value it gives is valid, and it does not switch
    notifications on without giving a topic; its change then holds exactly the normal forms of its values.
   */
  lemma {:induction false} AcceptedIffValid(body: Body)
    ensures ChangeOf(body).Ok? <==>
            && body.Object?
            && (body.defaults.Some? ==>
                  forall k :: k in body.defaults.value ==> Validate(k, body.defaults.value[k]).Ok?)
            && (body.notifications.Some? ==>
                  var n := body.notifications.value;
                  && (n.topic.Some? ==> ValidateTopic(n.topic.value).Ok?)
                  && (n.enabled == Some(true) ==> n.topic.Some? && Strip(n.topic.value) != ""))
    ensures ChangeOf(body).Ok? ==>
            var c := ChangeOf(body).value;
            && (forall k :: k in c.defaults <==> body.defaults.Some? && k in body.defaults.value)
            && (forall k :: k in c.defaults ==> Validate(k, body.defaults.value[k]) == Ok(c.defaults[k]))
            && c.enabled == (if body.notifications.Some? then body.notifications.value.enabled else None)
            && (c.topic.Some? <==> body.notifications.Some? && body.notifications.value.topic.Some?)
            && (c.topic.Some? ==> ValidateTopic(body.notifications.value.topic.value) == Ok(c.topic.value))
            && (c.topic.Some? ==> TopicInDomain(c.topic.value))
  {
    if body.Object? {
      var d := if body.defaults.Some? then body.defaults.value else map[];
      ValidateKeysAccepts(d, |KEYS|);
      assert KEYS[..|KEYS|] == KEYS;
      forall k: Key
        ensures k in KEYS
      {
        AllKeys(k);
      }
      if body.notifications.Some? && body.notifications.value.topic.Some? {
        var t := body.notifications.value.topic.value;
        StripStrips(t);
        StripFixed(Strip(t));
        if ValidateTopic(t).Ok? {
          ValidatedTopicIsCanonical(t);
        }
      }
    }
  }

  /** The first of these keys whose value is invalid. */
  ghost predicate FirstBad(d: map<Key, string>, i: int) {
    && 0 <= i < |KEYS| && KEYS[i] in d && Validate(KEYS[i], d[KEYS[i]]).Err?
    && forall j :: 0 <= j < i && KEYS[j] in d ==> Validate(KEYS[j], d[KEYS[j]]).Ok?
  }

  lemma {:induction false} ValidateKeysError(d: map<Key, string>, n: nat)
    requires n <= |KEYS| && ValidateKeys(d, n).Err?
    ensures exists i :: i < n && FirstBad(d, i) && Validate(KEYS[i], d[KEYS[i]]).error == ValidateKeys(d, n).error
  {
    if ValidateKeys(d, n - 1).Err? {
      ValidateKeysError(d, n - 1);
    } else {
      ValidateKeysAccepts(d, n - 1);
      assert FirstBad(d, n - 1);
    }
  }

  /** The defaults give this key a value that is not accepted. */
  predicate Bad(body: Body, k: Key) {
    body.Object? && body.defaults.Some? && k in body.defaults.value && Validate(k, body.defaults.value[k]).Err?
  }

  /**
    Which error a refused body gets: no object at all; else a bad mode; else a bad device; else a bad language;
    else the topic's error; else that a topic is missing.
   */
  lemma {:induction false} RefusedFor(body: Body)
    requires ChangeOf(body).Err?
    ensures var e := ChangeOf(body).error;
            if body.NotAnObject? then e == InvalidBody
            else if Bad(body, Mode) then e == InvalidMode
            else if Bad(body, Device) then e == InvalidDevice
            else if exists k :: Bad(body, k) then e == InvalidLanguage
            else
              && body.notifications.Some?
              && var n := body.notifications.value;
              if n.topic.Some? && ValidateTopic(n.topic.value).Err? then e == ValidateTopic(n.topic.value).error
              else e == TopicRequired && n.enabled == Some(true) && (n.topic.None? || Strip(n.topic.value) == "")
  {
    if body.Object? {
      var d := if body.defaults.Some? then body.defaults.value else map[];
      ValidateKeysAccepts(d, |KEYS|);
      assert KEYS[..|KEYS|] == KEYS;
      forall k: Key
        ensures k in KEYS
      {
        AllKeys(k);
      }
      if ValidateKeys(d, |KEYS|).Err? {
        ValidateKeysError(d, |KEYS|);
        var i :| FirstBad(d, i) && Validate(KEYS[i], d[KEYS[i]]).error == ChangeOf(body).error;
        FirstBadError(body, d, i);
      } else if body.notifications.Some? && body.notifications.value.topic.Some? {
        var t := body.notifications.value.topic.value;
        AcceptedTopics(t);
        StripStrips(t);
        StripFixed(Strip(t));
      }
    }
  }

  lemma {:induction false} FirstBadError(body: Body, d: map<Key, string>, i: int)
    requires body.Object? && body.defaults == Some(d) && FirstBad(d, i)
    ensures Bad(body, KEYS[i])
    ensures Validate(KEYS[i], d[KEYS[i]]).error ==
            if Bad(body, Mode) then InvalidMode else if Bad(body, Device) then InvalidDevice else InvalidLanguage
  {
    AcceptedValues(KEYS[i], d[KEYS[i]]);
    assert KEYS[0] == Mode && KEYS[1] == Device;
    assert i > 0 ==> !Bad(body, Mode);
    assert i > 1 ==> !Bad(body, Device);
  }

  // ----- last writer wins -----

  datatype Update = Update(userId: string, body: Body, now: int)

  predicate Accepted(u: Update) {
    Strip(u.userId) != "" && ChangeOf(u.body).Ok?
  }

  /** The file after a sequence of updates on a store that began empty. */
  function FileAfter(us: seq<Update>): File {
    if us == [] then Missing
    else
      var n := |us| - 1;
      if Accepted(us[n]) then Saved(FileAfter(us[..n]), Strip(us[n].userId), ChangeOf(us[n].body).value, us[n].now)
      else FileAfter(us[..n])
  }

  lemma {:induction false} FileAfterOneMore(us: seq<Update>, u: Update)
    ensures FileAfter(us + [u]) ==
            if Accepted(u) then Saved(FileAfter(us), Strip(u.userId), ChangeOf(u.body).value, u.now) else FileAfter(us)
  {
    assert (us + [u])[..|us|] == us;
  }

  /** The last value that an accepted update of this user gave a key. */
  function LastDefault(us: seq<Update>, uid: string, k: Key): Option<string> {
    if us == [] then None
    else
      var n := |us| - 1;
      if Accepted(us[n]) && Strip(us[n].userId) == uid && k in ChangeOf(us[n].body).value.defaults
      then Some(ChangeOf(us[n].body).value.defaults[k])
      else LastDefault(us[..n], uid, k)
  }

  function LastEnabled(us: seq<Update>, uid: string): Option<bool> {
    if us == [] then None
    else
      var n := |us| - 1;
      if Accepted(us[n]) && Strip(us[n].userId) == uid && ChangeOf(us[n].body).value.enabled.Some?
      then ChangeOf(us[n].body).value.enabled
      else LastEnabled(us[..n], uid)
  }

  function LastTopic(us: seq<Update>, uid: string): Option<string> {
    if us == [] then None
    else
      var n := |us| - 1;
      if Accepted(us[n]) && Strip(us[n].userId) == uid && ChangeOf(us[n].body).value.topic.Some?
      then ChangeOf(us[n].body).value.topic
      else LastTopic(us[..n], uid)
  }

  function LastTime(us: seq<Update>, uid: string): Option<int> {
    if us == [] then None
    else
      var n := |us| - 1;
      if Accepted(us[n]) && Strip(us[n].userId) == uid then Some(us[n].now) else LastTime(us[..n], uid)
  }

  /** The entry of a user, as this store writes entries. */
  ghost predicate EntryIs(s: Option<Stored>, us: seq<Update>, uid: string) {
    match s
    case None =>
      && (forall k :: LastDefault(us, uid, k).None?)
      && LastEnabled(us, uid).None? && LastTopic(us, uid).None? && LastTime(us, uid).None?
    case Some(OddEntry) => false
    case Some(Entry(d, n, at)) =>
      && d.Dict? && (forall k :: Lookup(d.value, k) == LastDefault(us, uid, k))
      && !n.Odd?
      && (if n.Dict? then n.value.enabled else None) == LastEnabled(us, uid)
      && (if n.Dict? then n.value.topic else None) == LastTopic(us, uid)
      && LastTime(us, uid) == Some(at)
  }

  lemma {:induction false} EntriesHoldLastValues(us: seq<Update>, uid: string)
    ensures EntryIs(Lookup(LoadAll(FileAfter(us)), uid), us, uid)
  {
    if us != [] {
      var n := |us| - 1;
      var u, f := us[n], FileAfter(us[..n]);
      EntriesHoldLastValues(us[..n], uid);
      if Accepted(u) && Strip(u.userId) == uid {
        SaveRecordsChange(us, f);
      } else {
        assert Lookup(LoadAll(FileAfter(us)), uid) == Lookup(LoadAll(f), uid);
        assert LastEnabled(us, uid) == LastEnabled(us[..n], uid) && LastTopic(us, uid) == LastTopic(us[..n], uid);
        assert LastTime(us, uid) == LastTime(us[..n], uid);
        assert forall k :: LastDefault(us, uid, k) == LastDefault(us[..n], uid, k);
      }
    }
  }

  lemma {:induction false} SaveRecordsChange(us: seq<Update>, f: File)
    requires us != [] && Accepted(us[|us| - 1]) && f == FileAfter(us[..|us| - 1])
    requires EntryIs(Lookup(LoadAll(f), Strip(us[|us| - 1].userId)), us[..|us| - 1], Strip(us[|us| - 1].userId))
    ensures EntryIs(Lookup(LoadAll(FileAfter(us)), Strip(us[|us| - 1].userId)), us, Strip(us[|us| - 1].userId))
  {
    var n := |us| - 1;
    var u := us[n];
    var uid, c := Strip(u.userId), ChangeOf(u.body).value;
    var cur := if uid in LoadAll(f) then LoadAll(f)[uid] else Entry(Absent, Absent, 0);
    var entry := Changed(cur, c, u.now);
    assert Lookup(LoadAll(FileAfter(us)), uid) == Some(entry);
    forall k
      ensures Lookup(entry.defaults.value, k) == LastDefault(us, uid, k)
    {
      assert k !in c.defaults ==> LastDefault(us, uid, k) == LastDefault(us[..n], uid, k);
    }
    assert c.enabled.None? ==> LastEnabled(us, uid) == LastEnabled(us[..n], uid);
    assert c.topic.None? ==> LastTopic(us, uid) == LastTopic(us[..n], uid);
  }

  /**
    After any sequence of updates by any users, a user sees for each key the last value an accepted update of
    that user gave it, in normal form, and otherwise the default.
   */
  lemma {:induction false} LastWriterWins(us: seq<Update>, uid: string, cfg: Config, now: int)
    ensures var v := View(FileAfter(us), uid, cfg, now);
            && (forall k :: k in v.defaults && v.defaults[k] == OrElse(LastDefault(us, uid, k), Default(k, cfg)))
            && v.enabled == OrElse(LastEnabled(us, uid), false)
            && v.topic == OrElse(LastTopic(us, uid), "")
            && v.updatedAt == (if OrElse(LastTime(us, uid), 0) != 0 then LastTime(us, uid).value else now)
  {
    EntriesHoldLastValues(us, uid);
    forall k: Key
      ensures k in Defaults(cfg) && Defaults(cfg)[k] == Default(k, cfg)
    {
      AllKeys(k);
    }
  }

  /** A user without accepted updates, or a file that cannot be read, shows the defaults. */
  lemma {:induction false} DefaultsShown(f: File, uid: string, cfg: Config, now: int)
    requires f.Doc? ==> uid !in f.users || f.users[uid].OddEntry?
    ensures var v := View(f, uid, cfg, now);
            && v.defaults == map[Mode := "medium", Device := "auto", SrcLang := "ja", TgtLang := "en",
                                 TtsLang := cfg.ttsLang, TtsSpeaker := cfg.ttsSpeaker]
            && !v.enabled && v.topic == "" && v.updatedAt == now
  {
  }

  /** What is stored for a user, section by section: a dictionary is shown over the defaults, anything else is not. */
  lemma {:induction false} StoredShown(f: File, uid: string, cfg: Config, now: int, k: Key)
    requires f.Doc? && uid in f.users && f.users[uid].Entry?
    ensures var e, v := f.users[uid], View(f, uid, cfg, now);
            && k in v.defaults
            && v.defaults[k] == (if e.defaults.Dict? && k in e.defaults.value then e.defaults.value[k]
                                 else Default(k, cfg))
            && v.enabled == (e.notifications.Dict? && e.notifications.value.enabled == Some(true))
            && v.topic == (if e.notifications.Dict? && e.notifications.value.topic.Some?
                           then e.notifications.value.topic.value else "")
            && v.updatedAt == (if e.updatedAt != 0 then e.updatedAt else now)
  {
  }

  /** On every file, whatever stands in it: after a save the user sees the change over what was seen before. */
  lemma {:induction false} SavedIsSeen(f: File, uid: string, c: Change, at: int, cfg: Config, now: int, k: Key)
    ensures var v, v' := View(f, uid, cfg, now), View(Saved(f, uid, c, at), uid, cfg, now);
            && k in v.defaults && k in v'.defaults
            && v'.defaults[k] == (if k in c.defaults then c.defaults[k] else v.defaults[k])
            && v'.enabled == OrElse(c.enabled, v.enabled) && v'.topic == OrElse(c.topic, v.topic)
            && v'.updatedAt == (if at != 0 then at else now)
  {
    SavedDefaults(f, uid, c, at, cfg, now, k);
    SavedNotifications(f, uid, c, at, cfg, now);
  }

  lemma {:induction false} SavedDefaults(f: File, uid: string, c: Change, at: int, cfg: Config, now: int, k: Key)
    ensures var v, v' := View(f, uid, cfg, now), View(Saved(f, uid, c, at), uid, cfg, now);
            && k in v.defaults && k in v'.defaults
            && v'.defaults[k] == (if k in c.defaults then c.defaults[k] else v.defaults[k])
  {
    var row := Lookup(LoadAll(f), uid);
    var cur := if uid in LoadAll(f) then LoadAll(f)[uid] else Entry(Absent, Absent, 0);
    ViewShows(f, uid, cfg, now, k);
    ViewShows(Saved(f, uid, c, at), uid, cfg, now, k);
    ChangedShows(cur, c, at, k);
    assert StoredDefault(Some(cur), k) == StoredDefault(row, k);
  }

  /** The value stored for a key, if the entry has a dictionary with that key. */
  function StoredDefault(row: Option<Stored>, k: Key): Option<string> {
    if row.Some? && row.value.Entry? && row.value.defaults.Dict? then Lookup(row.value.defaults.value, k) else None
  }

  lemma {:induction false} ViewShows(f: File, uid: string, cfg: Config, now: int, k: Key)
    ensures var v := View(f, uid, cfg, now);
            k in v.defaults && v.defaults[k] == OrElse(StoredDefault(Lookup(LoadAll(f), uid), k), Default(k, cfg))
  {
  }

  lemma {:induction false} ChangedShows(cur: Stored, c: Change, at: int, k: Key)
    ensures StoredDefault(Some(Changed(cur, c, at)), k) ==
            if k in c.defaults then Some(c.defaults[k]) else StoredDefault(Some(cur), k)
  {
  }

  lemma {:induction false} SavedNotifications(f: File, uid: string, c: Change, at: int, cfg: Config, now: int)
    ensures var v, v' := View(f, uid, cfg, now), View(Saved(f, uid, c, at), uid, cfg, now);
            && v'.enabled == OrElse(c.enabled, v.enabled) && v'.topic == OrElse(c.topic, v.topic)
            && v'.updatedAt == (if at != 0 then at else now)
  {
  }

  /** Saving keeps the entry of every other user of a file that could be read. */
  lemma {:induction false} SavedKeepsOthers(f: File, uid: string, c: Change, now: int, other: string)
    requires other != uid
    ensures Saved(f, uid, c, now).Doc?
    ensures Lookup(Saved(f, uid, c, now).users, other) == if f.Doc? then Lookup(f.users, other) else None
  {
  }

  /** Accepted values stay in their domains for ever. */
  lemma {:induction false} LastValuesInDomain(us: seq<Update>, uid: string, k: Key)
    ensures LastDefault(us, uid, k).Some? ==> InDomain(k, LastDefault(us, uid, k).value)
    ensures LastTopic(us, uid).Some? ==> TopicInDomain(LastTopic(us, uid).value)
  {
    if us != [] {
      var u := us[|us| - 1];
      LastValuesInDomain(us[..|us| - 1], uid, k);
      AcceptedIffValid(u.body);
      if Accepted(u) && k in ChangeOf(u.body).value.defaults {
        ValidatedIsCanonical(k, u.body.defaults.value[k]);
      }
    }
  }

  /** Another user's settings are untouched by an update, and a rejected one changes nothing for anybody. */
  lemma {:induction false} OthersUntouched(us: seq<Update>, u: Update, uid: string, cfg: Config, now: int)
    requires Strip(u.userId) != uid || !Accepted(u)
    ensures View(FileAfter(us + [u]), uid, cfg, now) == View(FileAfter(us), uid, cfg, now)
  {
  }

  /**
    "Enabled implies a topic" is tested on each body but is not kept by the store: from a user for whom it
    holds, an accepted update breaks it if and only if it blanks the topic of enabled notifications without
    mentioning `enabled`.
   */
  lemma {:induction false} EnabledWithoutTopicIff(f: File, uid: string, body: Body, cfg: Config, now: int)
    requires ChangeOf(body).Ok?
    requires var v := View(f, uid, cfg, now); v.enabled ==> v.topic != ""
    ensures var v, c := View(f, uid, cfg, now), ChangeOf(body).value;
            var v' := View(Saved(f, uid, c, now), uid, cfg, now);
            v'.enabled && v'.topic == "" <==> v.enabled && c.enabled.None? && c.topic == Some("")
  {
  }

  /** Such a state is reached: switch notifications on with a topic, then blank the topic. */
  lemma {:induction false} EnabledWithoutTopicReached(cfg: Config, now: int)
    ensures var on := Update("u", Object(None, Some(NotifyPatch(Some(true), Some("t")))), 1);
            var blank := Update("u", Object(None, Some(NotifyPatch(None, Some("")))), 2);
            var v := View(FileAfter([on, blank]), "u", cfg, now);
            Accepted(on) && Accepted(blank) && v.enabled && v.topic == ""
  {
    var on := Update("u", Object(None, Some(NotifyPatch(Some(true), Some("t")))), 1);
    var blank := Update("u", Object(None, Some(NotifyPatch(None, Some("")))), 2);
    StripFixed("u");
    StripFixed("t");
    StripFixed("");
    ValidateKeysAccepts(map[], |KEYS|);
    var us := [on, blank];
    assert us[..1] == [on] && [on][..0] == [];
    LastWriterWins(us, "u", cfg, now);
    assert LastEnabled([on], "u") == Some(true) && LastEnabled(us, "u") == Some(true);
    assert LastTopic(us, "u") == Some("");
  }
}
