/**
  The release packer and the release checker: two independent filters over path names, one by prefixes and
  globs, one by globs only.
 */
module ReleaseZip {
  import opened Wrappers

  // ----- globs -----

  /** `fnmatch` for patterns whose only wildcard is the star, which also matches slashes. */
  predicate Match(pat: string, s: string)
    decreases |pat| + |s|
  {
    if pat == "" then s == ""
    else if pat[0] == '*' then Match(pat[1..], s) || (s != "" && Match(pat, s[1..]))
    else s != "" && s[0] == pat[0] && Match(pat[1..], s[1..])
  }

  function Stars(pat: string): nat {
    if pat == "" then 0 else (if pat[0] == '*' then 1 else 0) + Stars(pat[1..])
  }

  /** The pattern with each star replaced by a given text. */
  function Fill(pat: string, fills: seq<string>): string
    requires |fills| == Stars(pat)
  {
    if pat == "" then ""
    else if pat[0] == '*' then fills[0] + Fill(pat[1..], fills[1..])
    else [pat[0]] + Fill(pat[1..], fills)
  }

  lemma {:induction false} FillMatches(pat: string, fills: seq<string>)
    requires |fills| == Stars(pat)
    ensures Match(pat, Fill(pat, fills))
    decreases |pat|, if fills == [] then 0 else |fills[0]|
  {
    if pat != "" {
      if pat[0] != '*' {
        FillMatches(pat[1..], fills);
        assert Fill(pat, fills)[1..] == Fill(pat[1..], fills);
      } else if fills[0] == "" {
        FillMatches(pat[1..], fills[1..]);
        assert Fill(pat, fills) == Fill(pat[1..], fills[1..]);
      } else {
        var shorter := [fills[0][1..]] + fills[1..];
        FillMatches(pat, shorter);
        assert shorter[1..] == fills[1..];
        assert Fill(pat, fills)[1..] == Fill(pat, shorter);
      }
    }
  }

  lemma {:induction false} MatchFills(pat: string, s: string) returns (fills: seq<string>)
    requires Match(pat, s)
    ensures |fills| == Stars(pat) && Fill(pat, fills) == s
    decreases |pat| + |s|
  {
    if pat == "" {
      fills := [];
    } else if pat[0] != '*' {
      fills := MatchFills(pat[1..], s[1..]);
      assert s == [s[0]] + s[1..];
    } else if Match(pat[1..], s) {
      var rest := MatchFills(pat[1..], s);
      fills := [""] + rest;
      assert fills[1..] == rest;
    } else {
      var rest := MatchFills(pat, s[1..]);
      fills := [[s[0]] + rest[0]] + rest[1..];
      assert fills[1..] == rest[1..];
      assert s == [s[0]] + s[1..];
    }
  }

  /** A text matches if and only if it is the pattern with some text for each star. */
  lemma {:induction false} MatchIffFilled(pat: string, s: string)
    ensures Match(pat, s) <==> exists fills :: |fills| == Stars(pat) && Fill(pat, fills) == s
  {
    if Match(pat, s) {
      var fills := MatchFills(pat, s);
    }
    if fills :| |fills| == Stars(pat) && Fill(pat, fills) == s {
      FillMatches(pat, fills);
    }
  }

  lemma {:induction false} StarMatchesAll(s: string)
    ensures Match("*", s)
  {
    if s != "" {
      StarMatchesAll(s[1..]);
    }
  }

  lemma {:induction false} TwoStarsMatchAll(s: string)
    ensures Match("**", s)
  {
    StarMatchesAll(s);
    assert "**"[1..] == "*";
  }

  /** A pattern that begins with literal text matches exactly the texts with that prefix whose rest matches. */
  lemma {:induction false} LiteralPrefix(lit: string, pat: string, s: string)
    requires '*' !in lit
    ensures Match(lit + pat, s) <==> lit <= s && Match(pat, s[|lit|..])
    decreases |lit|
  {
    if lit == "" {
      assert lit + pat == pat && s[0..] == s;
    } else {
      assert (lit + pat)[1..] == lit[1..] + pat;
      if s != "" {
        LiteralPrefix(lit[1..], pat, s[1..]);
        assert lit <= s <==> lit[0] == s[0] && lit[1..] <= s[1..] by {
          assert lit == [lit[0]] + lit[1..] && s == [s[0]] + s[1..];
        }
      }
    }
  }

  /** `prefix**` is the prefix test. */
  lemma {:induction false} PrefixGlob(lit: string, s: string)
    requires '*' !in lit
    ensures Match(lit + "**", s) <==> lit <= s
  {
    LiteralPrefix(lit, "**", s);
    if lit <= s {
      TwoStarsMatchAll(s[|lit|..]);
    }
  }

  // ----- names -----

  function StripSlashes(s: string): string {
    if s != "" && s[0] == '/' then StripSlashes(s[1..]) else s
  }

  function ForwardSlashes(s: string): string {
    seq(|s|, i requires 0 <= i < |s| => if s[i] == '\\' then '/' else s[i])
  }

  lemma {:induction false} ForwardSlashesFixed(s: string)
    requires '\\' !in s
    ensures ForwardSlashes(s) == s
  {
  }

  predicate AnyPrefix(prefixes: seq<string>, s: string) {
    exists i :: 0 <= i < |prefixes| && prefixes[i] <= s
  }

  predicate AnyMatch(pats: seq<string>, s: string) {
    exists i :: 0 <= i < |pats| && Match(pats[i], s)
  }

  // ----- the packer -----

  const FORBIDDEN_DIR_PREFIXES := [
    "build/", "dist/", "backups/", "_tmp", "__pycache__/", ".pytest_cache/", ".mypy_cache/", ".ruff_cache/",
    ".tox/", ".nox/", ".venv/", ".cache/", "logs/"]

  const FORBIDDEN_GLOBS := [
    "**/__pycache__/**", "**/*.pyc", "**/*.pyo", "**/*.db", "**/*.sqlite", "**/*.sqlite3", "**/*.log",
    "**/.pytest_cache/**", "**/.mypy_cache/**", "**/.ruff_cache/**", "**/.tox/**", "**/.nox/**", "**/.venv/**",
    "**/.cache/**", "**/.coverage", "**/.coverage.*", "**/*.zip", "**/*.tar.gz"]

  predicate IsForbiddenRel(name: string, includeLegacy: bool) {
    var rel := ForwardSlashes(StripSlashes(name));
    || ("Input/" <= rel && rel != "Input/.gitkeep")
    || ("Output/" <= rel && rel != "Output/.gitkeep")
    || "data/reports/" <= rel
    || "voices/embeddings/" <= rel
    || "tests/" <= rel
    || ("src/dubbing_pipeline_legacy/" <= rel && !includeLegacy)
    || AnyPrefix(FORBIDDEN_DIR_PREFIXES, rel)
    || AnyMatch(FORBIDDEN_GLOBS, rel)
  }

  /** `build_zip` leaves a file out. */
  predicate Skipped(rel: string, includeLegacy: bool) {
    "dist/" <= rel || "releases/" <= rel || IsForbiddenRel(rel, includeLegacy)
  }

  // ----- the name under which the archive stores a file -----

  /** The texts between the slashes. */
  function Components(s: string): (cs: seq<string>)
    ensures cs != []
  {
    if s == "" then [""]
    else
      var rest := Components(s[1..]);
      if s[0] == '/' then [""] + rest else [[s[0]] + rest[0]] + rest[1..]
  }

  function Joined(cs: seq<string>): string {
    if cs == [] then "" else if |cs| == 1 then cs[0] else cs[0] + "/" + Joined(cs[1..])
  }

  /** `os.path.normpath` at one component: `.` and empty ones vanish, `..` removes the component before it. */
  function Appended(done: seq<string>, c: string, rooted: bool): seq<string> {
    if c == "" || c == "." then done
    else if c != ".." || (!rooted && done == []) || (done != [] && done[|done| - 1] == "..") then done + [c]
    else if done != [] then done[..|done| - 1]
    else done
  }

  function Collapsed(cs: seq<string>, rooted: bool): seq<string> {
    if cs == [] then [] else Appended(Collapsed(cs[..|cs| - 1], rooted), cs[|cs| - 1], rooted)
  }

  predicate Rooted(rel: string) {
    rel != "" && rel[0] == '/'
  }

  /**
    The stored name: the normalised path without leading slashes.  A rooted path of which nothing remains
    has none: stripping its slashes fails, and the packer with it.
   */
  function MemberName(rel: string): Option<string> {
    var cs := Collapsed(Components(rel), Rooted(rel));
    if cs != [] then Some(Joined(cs)) else if Rooted(rel) then None else Some(".")
  }

  /** A letter before the first component. */
  function Lettered(c: char, cs: seq<string>): seq<string>
    requires cs != []
  {
    [[c] + cs[0]] + cs[1..]
  }

  lemma {:induction false} JoinedLettered(c: char, cs: seq<string>)
    requires cs != []
    ensures Joined(Lettered(c, cs)) == [c] + Joined(cs)
  {
    var longer := Lettered(c, cs);
    if |cs| > 1 {
      assert longer[1..] == cs[1..];
      assert [c] + cs[0] + "/" + Joined(cs[1..]) == [c] + (cs[0] + "/" + Joined(cs[1..]));
    }
  }

  lemma {:induction false} JoinedCons(c: string, cs: seq<string>)
    requires cs != []
    ensures Joined([c] + cs) == c + "/" + Joined(cs)
  {
    assert ([c] + cs)[1..] == cs;
  }

  lemma {:induction false} JoinedComponents(s: string)
    ensures Joined(Components(s)) == s
  {
    if s != "" {
      JoinedComponents(s[1..]);
      assert s == [s[0]] + s[1..];
      JoinedCons("", Components(s[1..]));
      JoinedLettered(s[0], Components(s[1..]));
    }
  }

  /** Splitting is inverse to joining texts that have no slash. */
  lemma {:induction false} ComponentsJoined(cs: seq<string>)
    requires cs != [] && forall i :: 0 <= i < |cs| ==> '/' !in cs[i]
    ensures Components(Joined(cs)) == cs
    decreases |cs|, |cs[0]|
  {
    if cs[0] != "" {
      var shorter := cs[0 := cs[0][1..]];
      ComponentsJoined(shorter);
      assert [cs[0][0]] + shorter[0] == cs[0] && shorter[1..] == cs[1..];
      assert cs == [cs[0]] + cs[1..];
      JoinedLettered(cs[0][0], shorter);
      ComponentsCons(cs[0][0], Joined(shorter));
    } else if |cs| > 1 {
      ComponentsJoined(cs[1..]);
      assert cs == [""] + cs[1..];
      JoinedCons("", cs[1..]);
      ComponentsCons('/', Joined(cs[1..]));
    }
  }

  lemma {:induction false} ComponentsCons(c: char, s: string)
    ensures Components([c] + s) == if c == '/' then [""] + Components(s) else Lettered(c, Components(s))
  {
    assert ([c] + s)[1..] == s;
  }

  ghost predicate AllClean(cs: seq<string>) {
    forall i :: 0 <= i < |cs| ==> cs[i] != "" && cs[i] != "." && cs[i] != ".." && '/' !in cs[i]
  }

  /** A relative name without empty, `.` and `..` components. */
  ghost predicate Clean(rel: string) {
    AllClean(Components(rel))
  }

  /** Clean components are kept, whatever comes before them. */
  lemma {:induction false} CollapsedThenClean(cs: seq<string>, clean: seq<string>, rooted: bool)
    requires AllClean(clean)
    ensures Collapsed(cs + clean, rooted) == Collapsed(cs, rooted) + clean
  {
    if clean == [] {
      assert cs + clean == cs;
    } else {
      var n := |clean| - 1;
      CollapsedThenClean(cs, clean[..n], rooted);
      assert cs + clean == cs + clean[..n] + [clean[n]];
      CollapsedSnoc(cs + clean[..n], clean[n], rooted);
      assert clean == clean[..n] + [clean[n]];
    }
  }

  lemma {:induction false} CollapsedSnoc(cs: seq<string>, c: string, rooted: bool)
    requires c != "" && c != "." && c != ".."
    ensures Collapsed(cs + [c], rooted) == Collapsed(cs, rooted) + [c]
  {
    assert (cs + [c])[..|cs|] == cs;
  }

  /** The archive stores a clean name as it is. */
  lemma {:induction false} CleanNameIsStored(rel: string)
    requires Clean(rel)
    ensures MemberName(rel) == Some(rel)
  {
    CollapsedThenClean([], Components(rel), Rooted(rel));
    assert [] + Components(rel) == Components(rel);
    JoinedComponents(rel);
  }

  /** One component further, from a folder given by the names on the way to it. */
  function Go(at: seq<string>, c: string): seq<string> {
    if c == "" || c == "." then at
    else if c != ".." then at + [c]
    else if at == [] then [] else at[..|at| - 1]
  }

  /** Where a path leads. */
  function Walk(from: seq<string>, cs: seq<string>): seq<string> {
    if cs == [] then from else Go(Walk(from, cs[..|cs| - 1]), cs[|cs| - 1])
  }

  lemma {:induction false} WalkSnoc(from: seq<string>, cs: seq<string>, c: string)
    ensures Walk(from, cs + [c]) == Go(Walk(from, cs), c)
  {
    assert (cs + [c])[..|cs|] == cs;
  }

  /** No empty or `.` component is left. */
  lemma {:induction false} CollapsedHasNoDots(cs: seq<string>, rooted: bool)
    ensures NoDots(Collapsed(cs, rooted))
  {
    if cs != [] {
      CollapsedHasNoDots(cs[..|cs| - 1], rooted);
    }
  }

  predicate NoDots(cs: seq<string>) {
    forall i :: 0 <= i < |cs| ==> cs[i] != "" && cs[i] != "."
  }

  /** Normalisation preserves meaning: from the root, or from any folder, the normal path leads to the same place. */
  lemma {:induction false} CollapsedLeadsToSamePlace(from: seq<string>, cs: seq<string>, rooted: bool)
    requires rooted ==> from == []
    ensures Walk(from, Collapsed(cs, rooted)) == Walk(from, cs)
  {
    if cs != [] {
      var n := |cs| - 1;
      CollapsedLeadsToSamePlace(from, cs[..n], rooted);
      CollapsedHasNoDots(cs[..n], rooted);
      AppendedLeadsOn(from, Collapsed(cs[..n], rooted), cs[n], rooted);
    }
  }

  lemma {:induction false} AppendedLeadsOn(from: seq<string>, done: seq<string>, c: string, rooted: bool)
    requires rooted ==> from == []
    requires NoDots(done)
    ensures Walk(from, Appended(done, c, rooted)) == Go(Walk(from, done), c)
  {
    WalkSnoc(from, done, c);
    if done != [] {
      WalkSnoc(from, done[..|done| - 1], done[|done| - 1]);
      assert done == done[..|done| - 1] + [done[|done| - 1]];
    }
  }

  /** Below the root no `..` is left; elsewhere they are left at the front only. */
  lemma {:induction false} CollapsedShape(cs: seq<string>, rooted: bool)
    ensures rooted ==> ".." !in Collapsed(cs, rooted)
    ensures UpsFirst(Collapsed(cs, rooted))
  {
    if cs != [] {
      CollapsedShape(cs[..|cs| - 1], rooted);
    }
  }

  predicate UpsFirst(cs: seq<string>) {
    forall i, j :: 0 <= i < j < |cs| && cs[j] == ".." ==> cs[i] == ".."
  }

  predicate Piece(c: string) {
    c != "" && '/' !in c && '\\' !in c
  }

  lemma {:induction false} ComponentsArePieces(s: string)
    requires '\\' !in s
    ensures forall c :: c in Components(s) ==> c == "" || Piece(c)
  {
    if s != "" {
      ComponentsArePieces(s[1..]);
      var rest := Components(s[1..]);
      assert rest[0] in rest;
      if s[0] != '/' {
        assert Piece([s[0]] + rest[0]);
      }
    }
  }

  lemma {:induction false} CollapsedPieces(cs: seq<string>, rooted: bool)
    requires forall c :: c in cs ==> c == "" || Piece(c)
    ensures forall c :: c in Collapsed(cs, rooted) ==> Piece(c)
  {
    if cs != [] {
      CollapsedPieces(cs[..|cs| - 1], rooted);
      assert cs[|cs| - 1] in cs;
    }
  }

  /** No slash at either end, and no backslash: what the checker's `_norm` leaves alone. */
  predicate Settled(m: string) {
    m != "" && m[0] != '/' && m[|m| - 1] != '/' && '\\' !in m
  }

  lemma {:induction false} JoinedIsSettled(cs: seq<string>)
    requires cs != [] && forall c :: c in cs ==> Piece(c)
    ensures Settled(Joined(cs))
  {
    assert Piece(cs[0]);
    if |cs| > 1 {
      JoinedIsSettled(cs[1..]);
    }
  }

  lemma {:induction false} MemberNameIsSettled(rel: string)
    requires '\\' !in rel && MemberName(rel).Some?
    ensures Settled(MemberName(rel).value)
  {
    var cs := Collapsed(Components(rel), Rooted(rel));
    ComponentsArePieces(rel);
    CollapsedPieces(Components(rel), Rooted(rel));
    if cs != [] {
      JoinedIsSettled(cs);
    }
  }

  // ----- packing -----

  /** The members in order; None when some file to be packed has no name in the archive. */
  function Packed(paths: seq<string>, includeLegacy: bool): Option<seq<string>> {
    if paths == [] then Some([])
    else
      var n := |paths| - 1;
      var rel := ForwardSlashes(paths[n]);
      var before := Packed(paths[..n], includeLegacy);
      if before.None? || Skipped(rel, includeLegacy) then before
      else if MemberName(rel).None? then None
      else Some(before.value + [MemberName(rel).value])
  }

  lemma {:induction false} PackedOneMore(paths: seq<string>, includeLegacy: bool, i: nat)
    requires i < |paths|
    ensures var rel, before := ForwardSlashes(paths[i]), Packed(paths[..i], includeLegacy);
            Packed(paths[..i + 1], includeLegacy) ==
            if before.None? || Skipped(rel, includeLegacy) then before
            else if MemberName(rel).None? then None
            else Some(before.value + [MemberName(rel).value])
  {
    assert paths[..i + 1][..i] == paths[..i];
  }

  lemma {:induction false} PackedPrefix(paths: seq<string>, includeLegacy: bool, n: nat)
    requires n <= |paths| && Packed(paths[..n], includeLegacy).None?
    ensures Packed(paths, includeLegacy).None?
    decreases |paths| - n
  {
    if n == |paths| {
      assert paths[..n] == paths;
    } else {
      PackedOneMore(paths, includeLegacy, n);
      PackedPrefix(paths, includeLegacy, n + 1);
    }
  }

  method BuildZip(paths: seq<string>, includeLegacy: bool) returns (archive: Option<seq<string>>)
    ensures archive == Packed(paths, includeLegacy)
  {
    var members: seq<string> := [];
    for i := 0 to |paths|
      invariant Packed(paths[..i], includeLegacy) == Some(members)
    {
      PackedOneMore(paths, includeLegacy, i);
      var rel := ForwardSlashes(paths[i]);
      if "dist/" <= rel || "releases/" <= rel {
        continue;
      }
      if IsForbiddenRel(rel, includeLegacy) {
        continue;
      }
      var name := MemberName(rel);
      if name.None? {
        PackedPrefix(paths, includeLegacy, i + 1);
        return None;
      }
      members := members + [name.value];
    }
    assert paths[..|paths|] == paths;
    archive := Some(members);
  }

  // ----- the checker -----

  const FORBIDDEN_PATTERNS := [
    "build/**", "dist/**", "releases/**", "backups/**", "_tmp*", "_tmp*/**", "**/__pycache__/**", "**/*.pyc",
    "**/*.pyo", "**/*.db", "**/*.sqlite", "**/*.sqlite3", "logs/**", "**/*.log"]

  function Norm(name: string): string {
    StripSlashes(ForwardSlashes(name))
  }

  predicate EndsWithSlash(m: string) {
    m != "" && m[|m| - 1] == '/'
  }

  predicate IsForbidden(member: string) {
    var m := Norm(member);
    && m != "" && !EndsWithSlash(m)
    && (|| ("Input/" <= m && m != "Input/.gitkeep")
        || ("Output/" <= m && m != "Output/.gitkeep")
        || AnyMatch(FORBIDDEN_PATTERNS, m))
  }

  function Offenders(members: seq<string>): seq<string> {
    if members == [] then []
    else
      var n := |members| - 1;
      var name := Norm(members[n]);
      Offenders(members[..n]) +
      if name != "" && !EndsWithSlash(name) && IsForbidden(name) then [name] else []
  }

  method VerifyZip(members: seq<string>) returns (offenders: seq<string>)
    ensures offenders == Offenders(members)
  {
    offenders := [];
    for i := 0 to |members|
      invariant offenders == Offenders(members[..i])
    {
      assert members[..i + 1][..i] == members[..i];
      var name := Norm(members[i]);
      if name == "" || EndsWithSlash(name) {
        continue;
      }
      if IsForbidden(name) {
        offenders := offenders + [name];
      }
    }
    assert members[..|members|] == members;
  }

  // ----- what the checker's patterns mean -----

  predicate Contains(s: string, part: string) {
    exists i :: 0 <= i <= |s| && part <= s[i..]
  }

  predicate EndsWith(s: string, end: string) {
    |end| <= |s| && s[|s| - |end|..] == end
  }

  const RUNTIME_PREFIXES := ["build/", "dist/", "releases/", "backups/", "logs/", "_tmp"]

  const RUNTIME_SUFFIXES := [".pyc", ".pyo", ".db", ".sqlite", ".sqlite3", ".log"]

  predicate InRuntimeFolder(m: string) {
    AnyPrefix(RUNTIME_PREFIXES, m)
  }

  /** The text ends in a suffix and has a slash somewhere before it. */
  predicate SuffixInFolder(m: string, end: string) {
    EndsWith(m, end) && '/' in m[..|m| - |end|]
  }

  predicate RuntimeFile(m: string) {
    exists i :: 0 <= i < |RUNTIME_SUFFIXES| && SuffixInFolder(m, RUNTIME_SUFFIXES[i])
  }

  /** The checker's rule without globs: a runtime folder or, in any folder, a cache or a file with a runtime suffix. */
  predicate Runtime(m: string) {
    || ("Input/" <= m && m != "Input/.gitkeep")
    || ("Output/" <= m && m != "Output/.gitkeep")
    || InRuntimeFolder(m)
    || Contains(m, "/__pycache__/")
    || RuntimeFile(m)
  }

  /** A star passes over any prefix. */
  lemma {:induction false} StarThen(pat: string, s: string)
    ensures Match("*" + pat, s) <==> exists i :: 0 <= i <= |s| && Match(pat, s[i..])
  {
    assert ("*" + pat)[1..] == pat && s[0..] == s;
    if s != "" {
      StarThen(pat, s[1..]);
      forall i | 0 <= i <= |s|
        ensures i > 0 ==> s[i..] == s[1..][i - 1..]
      {
      }
      if Match("*" + pat, s[1..]) {
        var j :| 0 <= j <= |s[1..]| && Match(pat, s[1..][j..]);
        assert s[j + 1..] == s[1..][j..];
      }
    }
  }

  /** Two stars and a slash: the rest of the pattern matches what follows some slash. */
  lemma {:induction false} FolderGlob(pat: string, s: string)
    ensures Match("**/" + pat, s) <==> exists i :: 0 <= i < |s| && s[i] == '/' && Match(pat, s[i + 1..])
  {
    assert "**/" + pat == "*" + ("*/" + pat) && "*/" + pat == "*" + ("/" + pat);
    assert ("/" + pat)[1..] == pat;
    StarThen("*/" + pat, s);
    if i :| 0 <= i <= |s| && Match("*/" + pat, s[i..]) {
      StarThen("/" + pat, s[i..]);
      var j :| 0 <= j <= |s[i..]| && Match("/" + pat, s[i..][j..]);
      assert s[i..][j..] == s[i + j..] && s[i + j..][1..] == s[i + j + 1..];
    }
    if i :| 0 <= i < |s| && s[i] == '/' && Match(pat, s[i + 1..]) {
      assert s[i..][1..] == s[i + 1..] && s[i..][0..] == s[i..] && s[0..] == s;
      StarThen("/" + pat, s);
      assert Match("*/" + pat, s[0..]);
    }
  }

  lemma {:induction false} LiteralOnly(lit: string, s: string)
    requires '*' !in lit
    ensures Match(lit, s) <==> s == lit
  {
    LiteralPrefix(lit, "", s);
    assert lit + "" == lit;
    if lit <= s && s[|lit|..] == "" {
      assert s == lit + s[|lit|..];
    }
  }

  /** A suffix glob: the suffix, with a slash somewhere before it. */
  lemma {:induction false} SuffixGlob(lit: string, s: string)
    requires '*' !in lit
    ensures Match("**/*" + lit, s) <==> SuffixInFolder(s, lit)
  {
    assert "**/*" + lit == "**/" + ("*" + lit);
    FolderGlob("*" + lit, s);
    forall i | 0 <= i < |s| && s[i] == '/'
      ensures Match("*" + lit, s[i + 1..]) <==> EndsWith(s, lit) && i < |s| - |lit|
    {
      SuffixMatch(lit, s, i + 1);
    }
  }

  lemma {:induction false} SuffixMatch(lit: string, s: string, from: nat)
    requires '*' !in lit && from <= |s|
    ensures Match("*" + lit, s[from..]) <==> EndsWith(s, lit) && from <= |s| - |lit|
  {
    StarThen(lit, s[from..]);
    forall j | 0 <= j <= |s[from..]|
      ensures Match(lit, s[from..][j..]) <==> s[from + j..] == lit
    {
      LiteralOnly(lit, s[from..][j..]);
      assert s[from..][j..] == s[from + j..];
    }
    if EndsWith(s, lit) && from <= |s| - |lit| {
      var j := |s| - |lit| - from;
      assert Match(lit, s[from..][j..]);
    }
  }

  lemma {:induction false} InsideAt(lit: string, s: string, i: nat)
    requires '*' !in lit && i < |s|
    ensures s[i] == '/' && Match(lit + "**", s[i + 1..]) <==> "/" + lit <= s[i..]
  {
    PrefixGlob(lit, s[i + 1..]);
    SlashedPrefix(lit, s[i], s[i + 1..]);
    assert s[i..] == [s[i]] + s[i + 1..];
  }

  lemma {:induction false} SlashedPrefix(lit: string, c: char, rest: string)
    ensures "/" + lit <= [c] + rest <==> c == '/' && lit <= rest
  {
    var s := [c] + rest;
    if "/" + lit <= s {
      assert s[0] == '/' && s[1..][..|lit|] == lit;
    }
  }

  lemma {:induction false} InsideGlob(lit: string, s: string)
    requires '*' !in lit
    ensures Match("**/" + lit + "**", s) <==> Contains(s, "/" + lit)
  {
    assert "**/" + lit + "**" == "**/" + (lit + "**");
    FolderGlob(lit + "**", s);
    forall i | 0 <= i < |s|
      ensures s[i] == '/' && Match(lit + "**", s[i + 1..]) <==> "/" + lit <= s[i..]
    {
      InsideAt(lit, s, i);
    }
    if Contains(s, "/" + lit) {
      var i :| 0 <= i <= |s| && "/" + lit <= s[i..];
      assert i < |s| && s[i] == '/';
    }
  }

  /** The checker patterns that test for a prefix. */
  lemma {:induction false} CheckerPrefixes(m: string)
    ensures var P := FORBIDDEN_PATTERNS;
            && (Match(P[0], m) <==> "build/" <= m) && (Match(P[1], m) <==> "dist/" <= m)
            && (Match(P[2], m) <==> "releases/" <= m) && (Match(P[3], m) <==> "backups/" <= m)
            && (Match(P[4], m) <==> "_tmp" <= m) && (Match(P[5], m) ==> "_tmp" <= m)
            && (Match(P[12], m) <==> "logs/" <= m)
  {
    PrefixGlob("build/", m);
    PrefixGlob("dist/", m);
    PrefixGlob("releases/", m);
    PrefixGlob("backups/", m);
    PrefixGlob("logs/", m);
    LiteralPrefix("_tmp", "*", m);
    LiteralPrefix("_tmp", "*/**", m);
    if "_tmp" <= m {
      StarMatchesAll(m[|"_tmp"|..]);
    }
    var P := FORBIDDEN_PATTERNS;
    assert "build/" + "**" == P[0] && "dist/" + "**" == P[1] && "releases/" + "**" == P[2];
    assert "backups/" + "**" == P[3] && "_tmp" + "*" == P[4] && "_tmp" + "*/**" == P[5] && "logs/" + "**" == P[12];
  }

  /** The checker patterns that look inside folders. */
  lemma {:induction false} CheckerFolders(m: string)
    ensures var P, S := FORBIDDEN_PATTERNS, RUNTIME_SUFFIXES;
            && (Match(P[6], m) <==> Contains(m, "/__pycache__/"))
            && (Match(P[7], m) <==> SuffixInFolder(m, S[0]))
            && (Match(P[8], m) <==> SuffixInFolder(m, S[1]))
            && (Match(P[9], m) <==> SuffixInFolder(m, S[2]))
            && (Match(P[10], m) <==> SuffixInFolder(m, S[3]))
            && (Match(P[11], m) <==> SuffixInFolder(m, S[4]))
            && (Match(P[13], m) <==> SuffixInFolder(m, S[5]))
  {
    CachePattern(FORBIDDEN_PATTERNS[6], "__pycache__/", "/__pycache__/", m);
    FirstSuffixes(m);
    OtherSuffixes(m);
  }

  lemma {:induction false} FirstSuffixes(m: string)
    ensures var P, S := FORBIDDEN_PATTERNS, RUNTIME_SUFFIXES;
            && (Match(P[7], m) <==> SuffixInFolder(m, S[0])) && (Match(P[8], m) <==> SuffixInFolder(m, S[1]))
            && (Match(P[9], m) <==> SuffixInFolder(m, S[2]))
  {
    var P, S := FORBIDDEN_PATTERNS, RUNTIME_SUFFIXES;
    SuffixPattern(P[7], S[0], m);
    SuffixPattern(P[8], S[1], m);
    SuffixPattern(P[9], S[2], m);
  }

  lemma {:induction false} OtherSuffixes(m: string)
    ensures var P, S := FORBIDDEN_PATTERNS, RUNTIME_SUFFIXES;
            && (Match(P[10], m) <==> SuffixInFolder(m, S[3])) && (Match(P[11], m) <==> SuffixInFolder(m, S[4]))
            && (Match(P[13], m) <==> SuffixInFolder(m, S[5]))
  {
    var P, S := FORBIDDEN_PATTERNS, RUNTIME_SUFFIXES;
    SuffixPattern(P[10], S[3], m);
    SuffixPattern(P[11], S[4], m);
    SuffixPattern(P[13], S[5], m);
  }

  lemma {:induction false} CachePattern(pat: string, lit: string, inside: string, m: string)
    requires pat == "**/" + lit + "**" && inside == "/" + lit && '*' !in lit
    ensures Match(pat, m) <==> Contains(m, inside)
  {
    InsideGlob(lit, m);
  }

  lemma {:induction false} SuffixPattern(pat: string, lit: string, m: string)
    requires pat == "**/*" + lit && '*' !in lit
    ensures Match(pat, m) <==> SuffixInFolder(m, lit)
  {
    SuffixGlob(lit, m);
  }

  /** The checker's patterns say exactly what `Runtime` says by prefixes and suffixes. */
  lemma {:induction false} PatternRule(m: string)
    ensures AnyMatch(FORBIDDEN_PATTERNS, m) <==> InRuntimeFolder(m) || Contains(m, "/__pycache__/") || RuntimeFile(m)
  {
    CheckerPrefixes(m);
    CheckerFolders(m);
    var P, R, S := FORBIDDEN_PATTERNS, RUNTIME_PREFIXES, RUNTIME_SUFFIXES;
    PatternsByIndex(m, P, R, S, Contains(m, "/__pycache__/"));
  }

  lemma {:induction false} PatternsByIndex(m: string, P: seq<string>, R: seq<string>, S: seq<string>, cache: bool)
    requires |P| == 14 && |R| == 6 && |S| == 6
    requires && (Match(P[0], m) <==> R[0] <= m) && (Match(P[1], m) <==> R[1] <= m) && (Match(P[2], m) <==> R[2] <= m)
             && (Match(P[3], m) <==> R[3] <= m) && (Match(P[12], m) <==> R[4] <= m)
             && (Match(P[4], m) <==> R[5] <= m) && (Match(P[5], m) ==> R[5] <= m) && (Match(P[6], m) <==> cache)
             && (Match(P[7], m) <==> SuffixInFolder(m, S[0])) && (Match(P[8], m) <==> SuffixInFolder(m, S[1]))
             && (Match(P[9], m) <==> SuffixInFolder(m, S[2])) && (Match(P[10], m) <==> SuffixInFolder(m, S[3]))
             && (Match(P[11], m) <==> SuffixInFolder(m, S[4])) && (Match(P[13], m) <==> SuffixInFolder(m, S[5]))
    ensures AnyMatch(P, m) <==>
            || AnyPrefix(R, m) || cache
            || (exists i :: 0 <= i < |S| && SuffixInFolder(m, S[i]))
  {
  }

  /** The checker reads a name with its backslashes as slashes and without its leading slashes. */
  lemma {:induction false} NormMeaning(name: string) returns (slashes: string)
    ensures |ForwardSlashes(name)| == |name|
    ensures forall i :: 0 <= i < |name| ==> ForwardSlashes(name)[i] == if name[i] == '\\' then '/' else name[i]
    ensures ForwardSlashes(name) == slashes + Norm(name) && forall c :: c in slashes ==> c == '/'
    ensures Norm(name) == "" || Norm(name)[0] != '/'
  {
    slashes := StrippedSlashes(ForwardSlashes(name));
  }

  lemma {:induction false} StrippedSlashes(s: string) returns (slashes: string)
    ensures s == slashes + StripSlashes(s) && forall c :: c in slashes ==> c == '/'
    ensures StripSlashes(s) == "" || StripSlashes(s)[0] != '/'
  {
    if s != "" && s[0] == '/' {
      slashes := StrippedSlashes(s[1..]);
      slashes := [s[0]] + slashes;
    } else {
      slashes := "";
    }
  }

  /** The checker's verdict on any name, in plain words. */
  lemma {:induction false} CheckerVerdict(name: string)
    ensures IsForbidden(name) <==> Norm(name) != "" && !EndsWithSlash(Norm(name)) && Runtime(Norm(name))
  {
    PatternRule(Norm(name));
  }

  lemma {:induction false} CheckerRule(m: string)
    requires Settled(m)
    ensures IsForbidden(m) <==> Runtime(m)
    ensures Norm(m) == m
  {
    ForwardSlashesFixed(m);
    PatternRule(m);
  }

  // ----- what the packer's filter means -----

  const PRIVATE_FOLDERS := ["data/reports/", "voices/embeddings/", "tests/"]

  const LEGACY := "src/dubbing_pipeline_legacy/"

  const CACHE_FOLDERS := [
    "__pycache__/", ".pytest_cache/", ".mypy_cache/", ".ruff_cache/", ".tox/", ".nox/", ".venv/", ".cache/"]

  const KEPT_OUT_SUFFIXES := [".pyc", ".pyo", ".db", ".sqlite", ".sqlite3", ".log", ".zip", ".tar.gz"]

  predicate InsideSome(m: string, folders: seq<string>) {
    exists i :: 0 <= i < |folders| && Contains(m, "/" + folders[i])
  }

  predicate SuffixOfSome(m: string, suffixes: seq<string>) {
    exists i :: 0 <= i < |suffixes| && SuffixInFolder(m, suffixes[i])
  }

  /** The packer's rule without globs. */
  predicate KeptOut(m: string, includeLegacy: bool) {
    || ("Input/" <= m && m != "Input/.gitkeep")
    || ("Output/" <= m && m != "Output/.gitkeep")
    || AnyPrefix(PRIVATE_FOLDERS, m)
    || (LEGACY <= m && !includeLegacy)
    || AnyPrefix(FORBIDDEN_DIR_PREFIXES, m)
    || InsideSome(m, CACHE_FOLDERS)
    || SuffixOfSome(m, KEPT_OUT_SUFFIXES)
    || EndsWith(m, "/.coverage") || Contains(m, "/.coverage.")
  }

  lemma {:induction false} PythonCaches(m: string)
    ensures Match(FORBIDDEN_GLOBS[0], m) <==> Contains(m, "/" + CACHE_FOLDERS[0])
  {
    FolderPattern(FORBIDDEN_GLOBS[0], CACHE_FOLDERS[0], m);
  }

  lemma {:induction false} PytestCaches(m: string)
    ensures Match(FORBIDDEN_GLOBS[7], m) <==> Contains(m, "/" + CACHE_FOLDERS[1])
  {
    FolderPattern(FORBIDDEN_GLOBS[7], CACHE_FOLDERS[1], m);
  }

  lemma {:induction false} MypyCaches(m: string)
    ensures Match(FORBIDDEN_GLOBS[8], m) <==> Contains(m, "/" + CACHE_FOLDERS[2])
  {
    FolderPattern(FORBIDDEN_GLOBS[8], CACHE_FOLDERS[2], m);
  }

  lemma {:induction false} RuffCaches(m: string)
    ensures Match(FORBIDDEN_GLOBS[9], m) <==> Contains(m, "/" + CACHE_FOLDERS[3])
  {
    FolderPattern(FORBIDDEN_GLOBS[9], CACHE_FOLDERS[3], m);
  }

  lemma {:induction false} TestCaches(m: string)
    ensures Match(FORBIDDEN_GLOBS[10], m) <==> Contains(m, "/" + CACHE_FOLDERS[4])
    ensures Match(FORBIDDEN_GLOBS[11], m) <==> Contains(m, "/" + CACHE_FOLDERS[5])
  {
    FolderPattern(FORBIDDEN_GLOBS[10], CACHE_FOLDERS[4], m);
    FolderPattern(FORBIDDEN_GLOBS[11], CACHE_FOLDERS[5], m);
  }

  lemma {:induction false} OtherCaches(m: string)
    ensures Match(FORBIDDEN_GLOBS[12], m) <==> Contains(m, "/" + CACHE_FOLDERS[6])
    ensures Match(FORBIDDEN_GLOBS[13], m) <==> Contains(m, "/" + CACHE_FOLDERS[7])
  {
    FolderPattern(FORBIDDEN_GLOBS[12], CACHE_FOLDERS[6], m);
    FolderPattern(FORBIDDEN_GLOBS[13], CACHE_FOLDERS[7], m);
  }

  lemma {:induction false} FolderPattern(pat: string, folder: string, m: string)
    requires pat == "**/" + folder + "**" && '*' !in folder
    ensures Match(pat, m) <==> Contains(m, "/" + folder)
  {
    InsideGlob(folder, m);
  }

  lemma {:induction false} FirstSuffixGlobs(m: string)
    ensures var G, S := FORBIDDEN_GLOBS, KEPT_OUT_SUFFIXES;
            && (Match(G[1], m) <==> SuffixInFolder(m, S[0])) && (Match(G[2], m) <==> SuffixInFolder(m, S[1]))
            && (Match(G[3], m) <==> SuffixInFolder(m, S[2])) && (Match(G[4], m) <==> SuffixInFolder(m, S[3]))
  {
    var G, S := FORBIDDEN_GLOBS, KEPT_OUT_SUFFIXES;
    SuffixPattern(G[1], S[0], m);
    SuffixPattern(G[2], S[1], m);
    SuffixPattern(G[3], S[2], m);
    SuffixPattern(G[4], S[3], m);
  }

  lemma {:induction false} OtherSuffixGlobs(m: string)
    ensures var G, S := FORBIDDEN_GLOBS, KEPT_OUT_SUFFIXES;
            && (Match(G[5], m) <==> SuffixInFolder(m, S[4])) && (Match(G[6], m) <==> SuffixInFolder(m, S[5]))
            && (Match(G[16], m) <==> SuffixInFolder(m, S[6])) && (Match(G[17], m) <==> SuffixInFolder(m, S[7]))
  {
    var G, S := FORBIDDEN_GLOBS, KEPT_OUT_SUFFIXES;
    SuffixPattern(G[5], S[4], m);
    SuffixPattern(G[6], S[5], m);
    SuffixPattern(G[16], S[6], m);
    SuffixPattern(G[17], S[7], m);
  }

  /** A glob for files of one name in any folder. */
  lemma {:induction false} NameGlob(pat: string, name: string, end: string, m: string)
    requires pat == "**/" + name && end == "/" + name && '*' !in name
    ensures Match(pat, m) <==> EndsWith(m, end)
  {
    FolderGlob(name, m);
    forall i | 0 <= i < |m|
      ensures m[i] == '/' && Match(name, m[i + 1..]) <==> m[i..] == end
    {
      LiteralOnly(name, m[i + 1..]);
      assert m[i..] == [m[i]] + m[i + 1..];
      if m[i..] == end {
        assert m[i + 1..] == end[1..] == name;
      }
    }
    if EndsWith(m, end) {
      var i := |m| - |end|;
      assert m[i..] == end && m[i] == end[0];
    }
  }

  /** A glob for files whose name begins in one way, in any folder. */
  lemma {:induction false} BeginningGlob(pat: string, name: string, inside: string, m: string)
    requires pat == "**/" + name + "*" && inside == "/" + name && '*' !in name
    ensures Match(pat, m) <==> Contains(m, inside)
  {
    assert pat == "**/" + (name + "*");
    FolderGlob(name + "*", m);
    forall i | 0 <= i < |m|
      ensures m[i] == '/' && Match(name + "*", m[i + 1..]) <==> inside <= m[i..]
    {
      BeginsAt(name, inside, m, i);
    }
    if Contains(m, inside) {
      var i :| 0 <= i <= |m| && inside <= m[i..];
      assert i < |m|;
    }
  }

  lemma {:induction false} BeginsAt(name: string, inside: string, m: string, i: nat)
    requires inside == "/" + name && '*' !in name && i < |m|
    ensures m[i] == '/' && Match(name + "*", m[i + 1..]) <==> inside <= m[i..]
  {
    StarredPrefix(name, m[i + 1..]);
    SlashedPrefix(name, m[i], m[i + 1..]);
    assert m[i..] == [m[i]] + m[i + 1..];
  }

  lemma {:induction false} StarredPrefix(name: string, s: string)
    requires '*' !in name
    ensures Match(name + "*", s) <==> name <= s
  {
    LiteralPrefix(name, "*", s);
    if name <= s {
      StarMatchesAll(s[|name|..]);
    }
  }

  lemma {:induction false} CoverageGlobs(m: string)
    ensures Match(FORBIDDEN_GLOBS[14], m) <==> EndsWith(m, "/.coverage")
    ensures Match(FORBIDDEN_GLOBS[15], m) <==> Contains(m, "/.coverage.")
  {
    NameGlob(FORBIDDEN_GLOBS[14], ".coverage", "/.coverage", m);
    BeginningGlob(FORBIDDEN_GLOBS[15], ".coverage.", "/.coverage.", m);
  }

  lemma {:induction false} GlobRule(m: string)
    ensures AnyMatch(FORBIDDEN_GLOBS, m) <==>
            || InsideSome(m, CACHE_FOLDERS) || SuffixOfSome(m, KEPT_OUT_SUFFIXES)
            || EndsWith(m, "/.coverage") || Contains(m, "/.coverage.")
  {
    PythonCaches(m);
    PytestCaches(m);
    MypyCaches(m);
    RuffCaches(m);
    TestCaches(m);
    OtherCaches(m);
    FirstSuffixGlobs(m);
    OtherSuffixGlobs(m);
    CoverageGlobs(m);
    GlobsByIndex(m, FORBIDDEN_GLOBS, CACHE_FOLDERS, KEPT_OUT_SUFFIXES, EndsWith(m, "/.coverage"),
                 Contains(m, "/.coverage."));
  }

  lemma {:induction false} GlobsByIndex(m: string, G: seq<string>, C: seq<string>, S: seq<string>, named: bool,
                                        begun: bool)
    requires |G| == 18 && |C| == 8 && |S| == 8
    requires && (Match(G[0], m) <==> Contains(m, "/" + C[0])) && (Match(G[7], m) <==> Contains(m, "/" + C[1]))
             && (Match(G[8], m) <==> Contains(m, "/" + C[2])) && (Match(G[9], m) <==> Contains(m, "/" + C[3]))
             && (Match(G[10], m) <==> Contains(m, "/" + C[4])) && (Match(G[11], m) <==> Contains(m, "/" + C[5]))
             && (Match(G[12], m) <==> Contains(m, "/" + C[6])) && (Match(G[13], m) <==> Contains(m, "/" + C[7]))
    requires && (Match(G[1], m) <==> SuffixInFolder(m, S[0])) && (Match(G[2], m) <==> SuffixInFolder(m, S[1]))
             && (Match(G[3], m) <==> SuffixInFolder(m, S[2])) && (Match(G[4], m) <==> SuffixInFolder(m, S[3]))
             && (Match(G[5], m) <==> SuffixInFolder(m, S[4])) && (Match(G[6], m) <==> SuffixInFolder(m, S[5]))
             && (Match(G[16], m) <==> SuffixInFolder(m, S[6])) && (Match(G[17], m) <==> SuffixInFolder(m, S[7]))
    requires (Match(G[14], m) <==> named) && (Match(G[15], m) <==> begun)
    ensures AnyMatch(G, m) <==> InsideSome(m, C) || SuffixOfSome(m, S) || named || begun
  {
  }

  lemma {:induction false} PrivateRule(m: string)
    ensures AnyPrefix(PRIVATE_FOLDERS, m) <==>
            "data/reports/" <= m || "voices/embeddings/" <= m || "tests/" <= m
  {
    var P := PRIVATE_FOLDERS;
    assert P[0] <= m ==> AnyPrefix(P, m);
    assert P[1] <= m ==> AnyPrefix(P, m);
    assert P[2] <= m ==> AnyPrefix(P, m);
  }

  /** What the packer leaves out, in plain words, over all names; backslashes count as slashes. */
  lemma {:induction false} PackerRule(rel: string, includeLegacy: bool)
    ensures Skipped(rel, includeLegacy) <==>
            || "dist/" <= rel || "releases/" <= rel
            || KeptOut(ForwardSlashes(StripSlashes(rel)), includeLegacy)
  {
    var m := ForwardSlashes(StripSlashes(rel));
    GlobRule(m);
    PrivateRule(m);
  }

  /** The file is not left out and is stored under this name. */
  predicate StoredAs(p: string, includeLegacy: bool, m: string) {
    !Skipped(ForwardSlashes(p), includeLegacy) && MemberName(ForwardSlashes(p)) == Some(m)
  }

  /** Every file that is not left out is packed under its stored name, and nothing else is. */
  lemma {:induction false} PackedMembers(paths: seq<string>, includeLegacy: bool, m: string)
    requires Packed(paths, includeLegacy).Some?
    ensures m in Packed(paths, includeLegacy).value <==> exists p :: p in paths && StoredAs(p, includeLegacy, m)
  {
    if paths != [] {
      var before, p := paths[..|paths| - 1], paths[|paths| - 1];
      assert paths == before + [p];
      PackedLast(before, p, includeLegacy, m);
      PackedMembers(before, includeLegacy, m);
      SomeStoredAs(before, p, includeLegacy, m);
    }
  }

  lemma {:induction false} SomeStoredAs(before: seq<string>, p: string, includeLegacy: bool, m: string)
    ensures (exists q :: q in before + [p] && StoredAs(q, includeLegacy, m)) <==>
            (exists q :: q in before && StoredAs(q, includeLegacy, m)) || StoredAs(p, includeLegacy, m)
  {
    assert p in before + [p];
  }

  lemma {:induction false} PackedLast(before: seq<string>, p: string, includeLegacy: bool, m: string)
    requires Packed(before + [p], includeLegacy).Some?
    ensures Packed(before, includeLegacy).Some?
    ensures m in Packed(before + [p], includeLegacy).value <==>
            m in Packed(before, includeLegacy).value || StoredAs(p, includeLegacy, m)
  {
    assert (before + [p])[..|before|] == before;
  }

  /**
    Ordinary files of the source tree are packed under their own names: clean paths below `src/` outside the
    legacy package, without hidden or cache folders, whose suffix is not kept out.
   */
  lemma {:induction false} SourceFilesArePacked(paths: seq<string>, p: string, includeLegacy: bool)
    requires p in paths && Packed(paths, includeLegacy).Some?
    requires '\\' !in p && Clean(p) && "src/" <= p && (LEGACY <= p ==> includeLegacy)
    requires !InsideSome(p, CACHE_FOLDERS) && !SuffixOfSome(p, KEPT_OUT_SUFFIXES)
    requires !EndsWith(p, "/.coverage") && !Contains(p, "/.coverage.")
    ensures p in Packed(paths, includeLegacy).value
  {
    ForwardSlashesFixed(p);
    assert p[0] == 's' && StripSlashes(p) == p;
    NoWorkPrefix(p);
    PrivateRule(p);
    PackerRule(p, includeLegacy);
    CleanNameIsStored(p);
    PackedMembers(paths, includeLegacy, p);
  }

  lemma {:induction false} NoWorkPrefix(p: string)
    requires p != "" && p[0] == 's'
    ensures !AnyPrefix(FORBIDDEN_DIR_PREFIXES, p)
  {
    forall i | 0 <= i < |FORBIDDEN_DIR_PREFIXES|
      ensures !(FORBIDDEN_DIR_PREFIXES[i] <= p)
    {
      assert FORBIDDEN_DIR_PREFIXES[i][0] != 's';
    }
  }

  /** The checker's offenders are exactly the forbidden members, by their normalised names. */
  lemma {:induction false} OffenderMembers(members: seq<string>, name: string)
    ensures name in Offenders(members) <==>
            exists m :: m in members && Norm(m) == name && IsForbidden(name)
  {
    if members != [] {
      var n := |members| - 1;
      OffenderMembers(members[..n], name);
      assert members == members[..n] + [members[n]];
      NormTwice(members[n]);
    }
  }

  lemma {:induction false} NormTwice(m: string)
    ensures Norm(Norm(m)) == Norm(m)
  {
    ForwardSlashesHasNoBackslash(m);
    StripSlashesKeeps(ForwardSlashes(m));
    ForwardSlashesFixed(Norm(m));
  }

  lemma {:induction false} StripSlashesKeeps(s: string)
    ensures StripSlashes(StripSlashes(s)) == StripSlashes(s) && forall c :: c in StripSlashes(s) ==> c in s
  {
    if s != "" && s[0] == '/' {
      StripSlashesKeeps(s[1..]);
    }
  }

  // ----- the packer satisfies the checker -----

  /** Each checker pattern is the releases prefix, implies a packer prefix, or is one of the packer's globs. */
  lemma {:induction false} CheckerPatterns(m: string)
    ensures AnyMatch(FORBIDDEN_PATTERNS, m) ==>
              "releases/" <= m || AnyPrefix(FORBIDDEN_DIR_PREFIXES, m) || AnyMatch(FORBIDDEN_GLOBS, m)
  {
    var P, D, G := FORBIDDEN_PATTERNS, FORBIDDEN_DIR_PREFIXES, FORBIDDEN_GLOBS;
    CheckerPrefixes(m);
    assert D[0] == "build/" && D[1] == "dist/" && D[2] == "backups/" && D[3] == "_tmp" && D[12] == "logs/";
    assert P[6] == G[0] && P[7] == G[1] && P[8] == G[2] && P[9] == G[3];
    assert P[10] == G[4] && P[11] == G[5] && P[13] == G[6];
  }

  /** A name the packer lets through is accepted by the checker if the archive stores it unchanged. */
  lemma {:induction false} UnchangedNameAccepted(rel: string, includeLegacy: bool)
    requires Settled(rel) && !Skipped(rel, includeLegacy)
    ensures !IsForbidden(rel)
  {
    ForwardSlashesFixed(rel);
    CheckerPatterns(rel);
  }

  /** The archive stores the file unchanged, or under a name that is not of the runtime kind. */
  predicate StoredSafely(rel: string) {
    var name := MemberName(rel);
    name.Some? && (name.value == rel || !Runtime(name.value))
  }

  /** The checker's verdict on what the packer stores for one file. */
  lemma {:induction false} MemberVerdict(rel: string, includeLegacy: bool)
    requires '\\' !in rel && !Skipped(rel, includeLegacy) && MemberName(rel).Some?
    ensures var m := MemberName(rel).value;
            && Norm(m) == m && m != "" && !EndsWithSlash(m)
            && (IsForbidden(m) <==> !StoredSafely(rel))
  {
    var m := MemberName(rel).value;
    MemberNameIsSettled(rel);
    CheckerRule(m);
    if m == rel {
      UnchangedNameAccepted(rel, includeLegacy);
    }
  }

  lemma {:induction false} ForwardSlashesHasNoBackslash(p: string)
    ensures '\\' !in ForwardSlashes(p)
  {
  }

  lemma {:induction false} OffendersSnoc(members: seq<string>, m: string)
    ensures Offenders(members + [m]) ==
            Offenders(members) +
            if Norm(m) != "" && !EndsWithSlash(Norm(m)) && IsForbidden(Norm(m)) then [Norm(m)] else []
  {
  }

  /** The archive is written and passes the checker. */
  predicate Verifies(archive: Option<seq<string>>) {
    archive.Some? && Offenders(archive.value) == []
  }

  /**
    Exactly when the packer's archive is written and passes the checker, over all path names: every packed
    file is stored under the name the packer tested, or under one that is not of the runtime kind.
   */
  lemma {:induction false} PackedVerifiesIff(paths: seq<string>, includeLegacy: bool)
    ensures Verifies(Packed(paths, includeLegacy)) <==>
            forall p :: p in paths ==> Skipped(ForwardSlashes(p), includeLegacy) || StoredSafely(ForwardSlashes(p))
  {
    if paths != [] {
      var n := |paths| - 1;
      var rel, before := ForwardSlashes(paths[n]), Packed(paths[..n], includeLegacy);
      PackedVerifiesIff(paths[..n], includeLegacy);
      assert paths == paths[..n] + [paths[n]];
      if before.Some? && !Skipped(rel, includeLegacy) && MemberName(rel).Some? {
        ForwardSlashesHasNoBackslash(paths[n]);
        MemberVerdict(rel, includeLegacy);
        OffendersSnoc(before.value, MemberName(rel).value);
      }
    }
  }

  /**
    For every list of paths that are clean once backslashes are read as slashes - so for all resolved relative paths
    without a backslash - the archive is written and every member passes the checker.
   */
  lemma {:induction false} PackedAlwaysVerifies(paths: seq<string>, includeLegacy: bool)
    requires forall p :: p in paths ==> Clean(ForwardSlashes(p))
    ensures Verifies(Packed(paths, includeLegacy))
  {
    forall p | p in paths
      ensures StoredSafely(ForwardSlashes(p))
    {
      CleanNameIsStored(ForwardSlashes(p));
    }
    PackedVerifiesIff(paths, includeLegacy);
  }

  // ----- names that are packed and then refused -----

  /** `folder/../rest` is stored as `rest`. */
  lemma {:induction false} DotDotIsCollapsed(folder: string, rest: seq<string>)
    requires AllClean([folder]) && AllClean(rest) && rest != []
    ensures MemberName(folder + "/" + (".." + "/" + Joined(rest))) == Some(Joined(rest))
  {
    var cs := [folder, ".."] + rest;
    ComponentsJoined(cs);
    assert cs == [folder] + ([".."] + rest);
    JoinedCons(folder, [".."] + rest);
    JoinedCons("..", rest);
    assert Joined(cs)[0] == folder[0];
    CollapsedThenClean([folder, ".."], rest, false);
    FolderUp(folder);
    assert [] + rest == rest;
    MemberOfJoined(cs, rest, false);
  }

  /** A relative path of which nothing remains is stored as a dot, a rooted one cannot be stored. */
  lemma {:induction false} NothingRemains(folder: string)
    requires AllClean([folder])
    ensures MemberName(folder + "/" + "..") == Some(".") && MemberName("/" + folder) == Some(folder)
    ensures MemberName("/") == None
  {
    var cs := [folder, ".."];
    ComponentsJoined(cs);
    assert cs == [folder] + [".."];
    JoinedCons(folder, [".."]);
    FolderUp(folder);
    assert Joined(cs)[0] == folder[0];
    LeadingSlashIsDropped([folder]);
    OnlySlash();
  }

  lemma {:induction false} OnlySlash()
    ensures MemberName("/") == None
  {
    ComponentsJoined(["", ""]);
    assert ["", ""] == [""] + [""];
    JoinedCons("", [""]);
    assert ["", ""][..1] == [""] && [""][..0] == [];
    assert Collapsed([""], true) == [] && Collapsed(["", ""], true) == [];
  }

  lemma {:induction false} MemberOfJoined(cs: seq<string>, kept: seq<string>, rooted: bool)
    requires Components(Joined(cs)) == cs && rooted == Rooted(Joined(cs))
    requires Collapsed(cs, rooted) == kept && kept != []
    ensures MemberName(Joined(cs)) == Some(Joined(kept))
  {
  }

  lemma {:induction false} FolderUp(folder: string)
    requires AllClean([folder])
    ensures Collapsed([folder, ".."], false) == []
  {
    assert [folder, ".."][..1] == [folder] && [folder][..0] == [];
    assert Collapsed([folder], false) == [folder];
  }

  /** `/rest` is stored as `rest`. */
  lemma {:induction false} LeadingSlashIsDropped(rest: seq<string>)
    requires AllClean(rest) && rest != []
    ensures MemberName("/" + Joined(rest)) == Some(Joined(rest))
  {
    var cs := [""] + rest;
    ComponentsJoined(cs);
    JoinedCons("", rest);
    assert Joined(cs) == "/" + Joined(rest);
    CollapsedThenClean([""], rest, true);
    assert [""][..0] == [] && Collapsed([""], true) == [];
    assert [] + rest == rest;
  }

  /** A file that passes the packer's filter and is stored below `releases/` is refused. */
  lemma {:induction false} StoredAsRelease(path: string, rel: string, m: string)
    requires rel == ForwardSlashes(path) && !Skipped(rel, false) && MemberName(rel) == Some(m)
    requires Settled(m) && "releases/" <= m
    ensures Packed([path], false) == Some([m]) && Offenders([m]) == [m]
  {
    assert [path][..0] == [] && Packed([], false) == Some([]);
    assert [] + [m] == [m];
    CheckerRule(m);
    assert RUNTIME_PREFIXES[2] <= m;
    OffendersSnoc([], m);
  }

  /** For each of the packer's globs a letter that none of the names below has. */
  const MISSING_LETTERS := "_ppdqqopmutnvhoozt"

  lemma {:induction false} GlobNeedsLetter(i: nat)
    requires i < |FORBIDDEN_GLOBS|
    ensures i < |MISSING_LETTERS| && MISSING_LETTERS[i] in FORBIDDEN_GLOBS[i] && MISSING_LETTERS[i] != '*'
  {
  }

  /** A name without those letters and without a runtime prefix passes the packer's filter. */
  lemma {:induction false} PassesFilter(rel: string, m: string)
    requires ForwardSlashes(StripSlashes(rel)) == m && m != ""
    requires !("dist/" <= rel) && !("releases/" <= rel) && (m[0] == 'r' || (m[0] == 's' && |m| > 4 && m[4] == '.'))
    requires forall i :: 0 <= i < |MISSING_LETTERS| ==> MISSING_LETTERS[i] !in m
    ensures !Skipped(rel, false)
  {
    forall i | 0 <= i < |FORBIDDEN_DIR_PREFIXES|
      ensures !(FORBIDDEN_DIR_PREFIXES[i] <= m)
    {
      assert FORBIDDEN_DIR_PREFIXES[i][0] != m[0];
    }
    forall i | 0 <= i < |FORBIDDEN_GLOBS|
      ensures !Match(FORBIDDEN_GLOBS[i], m)
    {
      GlobNeedsLetter(i);
      LiteralNeeded(FORBIDDEN_GLOBS[i], m, MISSING_LETTERS[i]);
    }
  }

  lemma {:induction false} ReleaseX() returns (rest: seq<string>, m: string)
    ensures m == "releases/x" && AllClean(rest) && rest != [] && Joined(rest) == m
    ensures Settled(m) && "releases/" <= m && forall i :: 0 <= i < |MISSING_LETTERS| ==> MISSING_LETTERS[i] !in m
  {
    rest, m := ["releases", "x"], "releases/x";
    assert rest[1..] == ["x"];
  }

  lemma {:induction false} SlashedName(path: string, m: string) returns (rel: string)
    requires path == "\\releases\\x" && m == "releases/x"
    ensures rel == ForwardSlashes(path) && rel == "/" + m
  {
    rel := "/releases/x";
  }

  lemma {:induction false} SlashedPasses(rel: string, m: string)
    requires Settled(m) && m[0] == 'r' && rel == "/" + m
    requires forall i :: 0 <= i < |MISSING_LETTERS| ==> MISSING_LETTERS[i] !in m
    ensures !Skipped(rel, false)
  {
    assert rel[1..] == m && StripSlashes(m) == m;
    ForwardSlashesFixed(m);
    PassesFilter(rel, m);
  }

  lemma {:induction false} SlashedIsStored(rel: string, rest: seq<string>, m: string)
    requires AllClean(rest) && rest != [] && Joined(rest) == m && rel == "/" + m
    ensures MemberName(rel) == Some(m)
  {
    LeadingSlashIsDropped(rest);
  }

  /** A file named backslash, "releases", backslash, "x" is packed and then refused. */
  lemma {:induction false} SlashedReleaseIsPacked(path: string) returns (m: string)
    requires path == "\\releases\\x"
    ensures m == "releases/x" && Packed([path], false) == Some([m]) && Offenders([m]) == [m]
  {
    var rest;
    rest, m := ReleaseX();
    var rel := SlashedName(path, m);
    SlashedIsStored(rel, rest, m);
    SlashedPasses(rel, m);
    StoredAsRelease(path, rel, m);
  }

  lemma {:induction false} DottedName(path: string, m: string) returns (rel: string)
    requires path == "src/..\\releases\\x" && m == "releases/x"
    ensures rel == ForwardSlashes(path) && rel == "src/../" + m
  {
    rel := "src/../releases/x";
  }

  lemma {:induction false} DottedPasses(rel: string, m: string)
    requires Settled(m) && rel == "src/../" + m
    requires forall i :: 0 <= i < |MISSING_LETTERS| ==> MISSING_LETTERS[i] !in m
    ensures !Skipped(rel, false)
  {
    ForwardSlashesFixed(rel);
    PassesFilter(rel, rel);
  }

  lemma {:induction false} DottedIsStored(rel: string, rest: seq<string>, m: string)
    requires AllClean(rest) && rest != [] && Joined(rest) == m && rel == "src/../" + m
    ensures MemberName(rel) == Some(m)
  {
    var src := "src";
    DotDotIsCollapsed(src, rest);
    assert rel == src + "/" + (".." + "/" + m);
  }

  /** So is a file in `src` whose own name begins with two dots and a backslash. */
  lemma {:induction false} DottedReleaseIsPacked(path: string) returns (m: string)
    requires path == "src/..\\releases\\x"
    ensures m == "releases/x" && Packed([path], false) == Some([m]) && Offenders([m]) == [m]
  {
    var rest;
    rest, m := ReleaseX();
    var rel := DottedName(path, m);
    DottedIsStored(rel, rest, m);
    DottedPasses(rel, m);
    StoredAsRelease(path, rel, m);
  }

  /** A text that lacks one of a pattern's literal characters does not match it. */
  lemma {:induction false} LiteralNeeded(pat: string, s: string, c: char)
    requires c != '*' && c in pat && c !in s
    ensures !Match(pat, s)
    decreases |pat| + |s|
  {
    if pat[0] == '*' {
      LiteralNeeded(pat[1..], s, c);
      if s != "" {
        LiteralNeeded(pat, s[1..], c);
      }
    } else if s != "" && s[0] == pat[0] {
      LiteralNeeded(pat[1..], s[1..], c);
    }
  }
}
