/**
  The cache of separated stems.

  A slot directory is named by a hash of the input bytes, the model and the device.  Its files are written
  one after the other and tested for existence by later callers, so a crash may leave any prefix of them.
  Sound files are terms: the conversion and the separation are deterministic but otherwise arbitrary.
 */
module StemCache {
  import opened Wrappers

  datatype Wav =
    | Input(bytes: string)
    | Converted(source: Wav)
    | Vocals(source: Wav, model: string, device: string)
    | NoVocals(source: Wav, model: string, device: string)
    | Truncated

  datatype Call = Call(content: string, model: string, device: string)

  // ----- the key -----

  /** How the settings are written behind the content. */
  function Settings(model: string, device: string): string {
    "|model=" + model + "|device=" + device
  }

  /** The bytes that are hashed; the hash itself is taken to be free of collisions. */
  function KeyOf(c: Call): string {
    c.content + Settings(c.model, c.device) + "|stems=vocals|v=1"
  }

  predicate NoBar(c: Call) {
    '|' !in c.model && '|' !in c.device
  }

  /** Text without the separator can be cut off after the last separator in only one way. */
  lemma {:induction false} LastSeparatorUnique(a: string, b: string, a': string, b': string, sep: char)
    requires a + [sep] + b == a' + [sep] + b' && sep !in b && sep !in b'
    ensures a == a' && b == b'
  {
    var s := a + [sep] + b;
    assert s[|a|] == sep && s[|a'|] == sep;
    assert |a| == |a'|;
    assert a == s[..|a|] && a' == s[..|a'|];
    assert b == s[|a| + 1..] && b' == s[|a'| + 1..];
  }

  lemma {:induction false} SuffixCancels(x: string, x': string, t: string)
    requires x + t == x' + t
    ensures x == x'
  {
    assert |x| == |x'|;
    assert x == (x + t)[..|x|] && x' == (x' + t)[..|x'|];
  }

  lemma {:induction false} PrefixCancels(t: string, x: string, x': string)
    requires t + x == t + x'
    ensures x == x'
  {
    assert x == (t + x)[|t|..] && x' == (t + x')[|t|..];
  }

  /** The hashed bytes determine content, model and device when model and device contain no bar. */
  lemma {:induction false} KeyDecodesUniquely(c: Call, d: Call)
    requires NoBar(c) && NoBar(d) && KeyOf(c) == KeyOf(d)
    ensures c == d
  {
    SuffixCancels(c.content + Settings(c.model, c.device), d.content + Settings(d.model, d.device),
                  "|stems=vocals|v=1");
    SettingsParts(c.content, c.model, c.device);
    SettingsParts(d.content, d.model, d.device);
    PartsUnique(c.content, "model=" + c.model, "device=" + c.device,
                d.content, "model=" + d.model, "device=" + d.device);
    PrefixCancels("model=", c.model, d.model);
    PrefixCancels("device=", c.device, d.device);
  }

  lemma {:induction false} SettingsParts(x: string, model: string, device: string)
    ensures x + Settings(model, device) == x + ['|'] + ("model=" + model) + ['|'] + ("device=" + device)
  {
  }

  lemma {:induction false} PartsUnique(x: string, m: string, d: string, x': string, m': string, d': string)
    requires x + ['|'] + m + ['|'] + d == x' + ['|'] + m' + ['|'] + d'
    requires '|' !in m && '|' !in d && '|' !in m' && '|' !in d'
    ensures x == x' && m == m' && d == d'
  {
    LastSeparatorUnique(x + ['|'] + m, d, x' + ['|'] + m', d', '|');
    LastSeparatorUnique(x, m, x', m', '|');
  }

  predicate IsSuffix(t: string, u: string) {
    |t| <= |u| && u[|u| - |t|..] == t
  }

  /** Exactly when two settings can meet in one slot: when one, as written, ends with the other. */
  lemma {:induction false} SettingsCollideIff(model: string, device: string, model': string, device': string)
    ensures (exists x, y :: KeyOf(Call(x, model, device)) == KeyOf(Call(y, model', device'))) <==>
            IsSuffix(Settings(model, device), Settings(model', device')) ||
            IsSuffix(Settings(model', device'), Settings(model, device))
  {
    var t, u := Settings(model, device), Settings(model', device');
    if x, y :| KeyOf(Call(x, model, device)) == KeyOf(Call(y, model', device')) {
      SuffixCancels(x + t, y + u, "|stems=vocals|v=1");
      SameEnd(x, t, y, u);
    }
    if IsSuffix(t, u) {
      assert u[..|u| - |t|] + t == "" + u;
      assert KeyOf(Call(u[..|u| - |t|], model, device)) == KeyOf(Call("", model', device'));
    } else if IsSuffix(u, t) {
      assert t[..|t| - |u|] + u == "" + t;
      assert KeyOf(Call("", model, device)) == KeyOf(Call(t[..|t| - |u|], model', device'));
    }
  }

  /** Of two ends of one text the shorter is an end of the longer. */
  lemma {:induction false} SameEnd(x: string, t: string, y: string, u: string)
    requires x + t == y + u
    ensures IsSuffix(t, u) || IsSuffix(u, t)
  {
    var s := x + t;
    assert t == s[|s| - |t|..] && u == s[|s| - |u|..];
    if |t| <= |u| {
      assert u[|u| - |t|..] == t;
    } else {
      assert t[|t| - |u|..] == u;
    }
  }

  /** With bars in the device every content shares its slot with another content under other settings. */
  lemma {:induction false} KeyWithBarIsAmbiguous(x: string, m: string, d: string, m': string, d': string)
    ensures KeyOf(Call(x, m, d + Settings(m', d'))) == KeyOf(Call(x + Settings(m, d), m', d'))
  {
  }

  // ----- what a fresh run produces -----

  function FreshDialogue(c: Call): Wav {
    Vocals(Converted(Input(c.content)), c.model, c.device)
  }

  function FreshBackground(c: Call): Wav {
    NoVocals(Converted(Input(c.content)), c.model, c.device)
  }

  /** The files of a slot directory. */
  datatype Slot = Slot(
    demucsIn: Option<Wav>, vocals: Option<Wav>, noVocals: Option<Wav>,
    dialogue: Option<Wav>, background: Option<Wav>, meta: bool)

  const EMPTY_SLOT := Slot(None, None, None, None, None, false)

  predicate Is(file: Option<Wav>, w: Wav) {
    file.None? || file == Some(w)
  }

  /** Every file that exists is the one a fresh run would have written. */
  predicate Good(s: Slot, c: Call) {
    && Is(s.demucsIn, Converted(Input(c.content)))
    && Is(s.vocals, FreshDialogue(c)) && Is(s.noVocals, FreshBackground(c))
    && Is(s.dialogue, FreshDialogue(c)) && Is(s.background, FreshBackground(c))
  }

  // ----- the program, run alone -----

  datatype Result = Stems(dialogue: Wav, background: Wav, cached: bool) | DemucsFailed

  class SlotDir {
    var files: Slot

    constructor ()
      ensures files == EMPTY_SLOT
    {
      files := EMPTY_SLOT;
    }

    /**
      One call on its own slot, whatever the slot holds.  It says "cached" exactly when all three published
      files are there, and then returns them; otherwise it separates the converted input that it finds or
      makes, and writes every file.  So its stems are fresh exactly when what it took from the slot was.
     */
    method SeparateDialogue(c: Call, demucsOk: bool) returns (r: Result)
      modifies this
      ensures var hit, was := old(files.dialogue.Some? && files.background.Some? && files.meta), old(files);
              var source := if was.demucsIn.Some? then was.demucsIn.value else Converted(Input(c.content));
              var vocals, noVocals := Vocals(source, c.model, c.device), NoVocals(source, c.model, c.device);
              if hit then files == was && r == Stems(was.dialogue.value, was.background.value, true)
              else if !demucsOk then files == was.(demucsIn := Some(source)) && r == DemucsFailed
              else
                && r == Stems(vocals, noVocals, false)
                && files == Slot(Some(source), Some(vocals), Some(noVocals), Some(vocals), Some(noVocals), true)
      ensures r.Stems? ==>
                (r.dialogue == FreshDialogue(c) && r.background == FreshBackground(c) <==>
                 if r.cached
                 then Is(old(files.dialogue), FreshDialogue(c)) && Is(old(files.background), FreshBackground(c))
                 else Is(old(files.demucsIn), Converted(Input(c.content))))
      ensures old(Good(files, c)) ==> Good(files, c)
    {
      if files.dialogue.Some? && files.background.Some? && files.meta {
        return Stems(files.dialogue.value, files.background.value, true);
      }
      if files.demucsIn.None? {
        files := files.(demucsIn := Some(Converted(Input(c.content))));
      }
      if !demucsOk {
        return DemucsFailed;
      }
      var source := files.demucsIn.value;
      files := files.(vocals := Some(Vocals(source, c.model, c.device)));
      files := files.(noVocals := Some(NoVocals(source, c.model, c.device)));
      files := files.(dialogue := files.vocals);
      files := files.(background := files.noVocals);
      files := files.(meta := true);
      r := Stems(files.dialogue.value, files.background.value, false);
    }
  }

  // ----- concurrent callers and crashes -----

  /** What the environment guarantees. */
  datatype Env = Env(
    atomicConvert: bool,   // the converter's output appears all at once
    atomicStems: bool,     // each stem Demucs writes appears all at once
    atomicCopies: bool,    // a published stem appears all at once
    stableInput: bool,     // the input file is not changed while a call uses it
    exclusive: bool)       // a call does not begin while another one of its slot is running

  /** What makes the cache right: either calls of a slot never overlap, or whatever they write appears all at once. */
  predicate Safe(env: Env) {
    env.atomicConvert && env.stableInput && (env.exclusive || (env.atomicStems && env.atomicCopies))
  }

  datatype Stage =
    | SeeDialogue | SeeBackground | SeeMeta
    | HitDialogue | HitBackground
    | NeedInput | Converting
    | Separate | WritingVocals | NextStem | WritingNoVocals | CheckStems
    | PublishDialogue | WritingDialogue | PublishBackground | WritingBackground | PublishMeta
    | TakeDialogue | TakeBackground

  datatype Proc =
    | Running(call: Call, stage: Stage, source: Option<Wav>, dialogue: Option<Wav>)
    | Returned(call: Call, cached: bool, dialogueOut: Wav, backgroundOut: Wav)
    | Dead

  datatype Sys = Sys(slots: map<string, Slot>, procs: map<nat, Proc>)

  datatype Action =
    | Begin(p: nat, call: Call)
    | Go(p: nat, read: string)   // the next file operation; `read` is what the input file holds now
    | Die(p: nat)                // a crash, a timeout, or a failed subprocess

  const START := Sys(map[], map[])

  function SlotAt(s: Sys, k: string): Slot {
    if k in s.slots then s.slots[k] else EMPTY_SLOT
  }

  /** What the step of a running call does to its slot. */
  function SlotStep(env: Env, slot: Slot, r: Proc, read: string): Slot
    requires r.Running?
  {
    var c := r.call;
    var source := if r.source.Some? then r.source.value else Truncated;
    match r.stage
    case NeedInput =>
      if slot.demucsIn.Some? then slot
      else slot.(demucsIn := Some(if env.atomicConvert then Converted(Input(read)) else Truncated))
    case Converting => slot.(demucsIn := Some(Converted(Input(read))))
    case Separate =>
      if slot.demucsIn.None? then slot
      else slot.(vocals := Some(if env.atomicStems then Vocals(slot.demucsIn.value, c.model, c.device) else Truncated))
    case WritingVocals => slot.(vocals := Some(Vocals(source, c.model, c.device)))
    case NextStem =>
      slot.(noVocals := Some(if env.atomicStems then NoVocals(source, c.model, c.device) else Truncated))
    case WritingNoVocals => slot.(noVocals := Some(NoVocals(source, c.model, c.device)))
    case PublishDialogue => slot.(dialogue := if env.atomicCopies then slot.vocals else Some(Truncated))
    case WritingDialogue => slot.(dialogue := slot.vocals)
    case PublishBackground => slot.(background := if env.atomicCopies then slot.noVocals else Some(Truncated))
    case WritingBackground => slot.(background := slot.noVocals)
    case PublishMeta => slot.(meta := true)
    case _ => slot
  }

  /** Where a running call is after its step. */
  function ProcStep(env: Env, slot: Slot, r: Proc): Proc
    requires r.Running?
  {
    match r.stage
    case SeeDialogue => r.(stage := if slot.dialogue.Some? then SeeBackground else NeedInput)
    case SeeBackground => r.(stage := if slot.background.Some? then SeeMeta else NeedInput)
    case SeeMeta => r.(stage := if slot.meta then HitDialogue else NeedInput)
    case HitDialogue => if slot.dialogue.None? then Dead else r.(stage := HitBackground, dialogue := slot.dialogue)
    case HitBackground =>
      if slot.background.None? || r.dialogue.None? then Dead
      else Returned(r.call, true, r.dialogue.value, slot.background.value)
    case NeedInput => r.(stage := if slot.demucsIn.Some? || env.atomicConvert then Separate else Converting)
    case Converting => r.(stage := Separate)
    case Separate =>
      if slot.demucsIn.None? then Dead
      else r.(stage := if env.atomicStems then NextStem else WritingVocals, source := slot.demucsIn)
    case WritingVocals => r.(stage := NextStem)
    case NextStem => r.(stage := if env.atomicStems then CheckStems else WritingNoVocals)
    case WritingNoVocals => r.(stage := CheckStems)
    case CheckStems => if slot.vocals.None? || slot.noVocals.None? then Dead else r.(stage := PublishDialogue)
    case PublishDialogue => r.(stage := if env.atomicCopies then PublishBackground else WritingDialogue)
    case WritingDialogue => r.(stage := PublishBackground)
    case PublishBackground => r.(stage := if env.atomicCopies then PublishMeta else WritingBackground)
    case WritingBackground => r.(stage := PublishMeta)
    case PublishMeta => r.(stage := TakeDialogue)
    case TakeDialogue => if slot.dialogue.None? then Dead else r.(stage := TakeBackground, dialogue := slot.dialogue)
    case TakeBackground =>
      if slot.background.None? || r.dialogue.None? then Dead
      else Returned(r.call, false, r.dialogue.value, slot.background.value)
  }

  predicate Busy(s: Sys, k: string) {
    exists p :: p in s.procs && s.procs[p].Running? && KeyOf(s.procs[p].call) == k
  }

  function Step(env: Env, s: Sys, a: Action): Option<Sys> {
    match a
    case Begin(p, call) =>
      if p in s.procs || (env.exclusive && Busy(s, KeyOf(call))) then None
      else Some(s.(procs := s.procs[p := Running(call, SeeDialogue, None, None)]))
    case Go(p, read) =>
      if p !in s.procs || !s.procs[p].Running? || (env.stableInput && read != s.procs[p].call.content) then None
      else
        var r, k := s.procs[p], KeyOf(s.procs[p].call);
        Some(Sys(s.slots[k := SlotStep(env, SlotAt(s, k), r, read)],
                 s.procs[p := ProcStep(env, SlotAt(s, k), r)]))
    case Die(p) =>
      if p !in s.procs || !s.procs[p].Running? then None else Some(s.(procs := s.procs[p := Dead]))
  }

  function Run(env: Env, actions: seq<Action>): Option<Sys> {
    if actions == [] then Some(START)
    else
      var before := Run(env, actions[..|actions| - 1]);
      if before.None? then None else Step(env, before.value, actions[|actions| - 1])
  }

  // ----- safety when files appear all at once -----

  /** Every file of every slot is right at all times; calls may overlap. */
  predicate Atomic(env: Env) {
    env.atomicConvert && env.stableInput && env.atomicStems && env.atomicCopies
  }

  ghost predicate ProcOk(r: Proc) {
    match r
    case Running(c, stage, source, dialogue) =>
      && NoBar(c) && Is(source, Converted(Input(c.content))) && Is(dialogue, FreshDialogue(c))
      && (stage.NextStem? || stage.WritingVocals? || stage.WritingNoVocals? ==> source.Some?)
    case Returned(c, cached, d, b) => d == FreshDialogue(c) && b == FreshBackground(c)
    case Dead => true
  }

  ghost predicate Inv(s: Sys) {
    && (forall c :: NoBar(c) ==> Good(SlotAt(s, KeyOf(c)), c))
    && (forall p :: p in s.procs ==> ProcOk(s.procs[p]))
  }

  /** A step of a call keeps its own slot good … */
  lemma {:induction false} SlotStepGood(env: Env, slot: Slot, r: Proc)
    requires Atomic(env) && r.Running? && ProcOk(r) && Good(slot, r.call)
    ensures Good(SlotStep(env, slot, r, r.call.content), r.call)
  {
    var c, files := r.call, SlotStep(env, slot, r, r.call.content);
    match r.stage
    case NeedInput => assert files == slot.(demucsIn := files.demucsIn);
    case Converting => assert files == slot.(demucsIn := files.demucsIn);
    case Separate => assert files == slot.(vocals := files.vocals);
    case WritingVocals => assert files == slot.(vocals := files.vocals);
    case NextStem => assert files == slot.(noVocals := files.noVocals);
    case WritingNoVocals => assert files == slot.(noVocals := files.noVocals);
    case _ =>
  }

  /** … and tells the call nothing wrong. */
  lemma {:induction false} ProcStepOk(env: Env, slot: Slot, r: Proc)
    requires Atomic(env) && r.Running? && ProcOk(r) && Good(slot, r.call)
    ensures ProcOk(ProcStep(env, slot, r))
  {
  }

  lemma {:induction false} StepKeepsInv(env: Env, s: Sys, a: Action)
    requires Atomic(env) && Inv(s) && Step(env, s, a).Some? && (a.Begin? ==> NoBar(a.call))
    ensures Inv(Step(env, s, a).value)
  {
    if a.Go? {
      var s', r := Step(env, s, a).value, s.procs[a.p];
      SlotStepGood(env, SlotAt(s, KeyOf(r.call)), r);
      ProcStepOk(env, SlotAt(s, KeyOf(r.call)), r);
      forall c | NoBar(c)
        ensures Good(SlotAt(s', KeyOf(c)), c)
      {
        if KeyOf(c) == KeyOf(r.call) {
          KeyDecodesUniquely(c, r.call);
        } else {
          assert SlotAt(s', KeyOf(c)) == SlotAt(s, KeyOf(c));
        }
      }
    }
  }

  /** No model or device given to a call contains a bar. */
  ghost predicate NoBars(actions: seq<Action>) {
    forall a :: a in actions && a.Begin? ==> NoBar(a.call)
  }

  lemma {:induction false} AtomicRunsKeepInv(env: Env, actions: seq<Action>)
    requires Atomic(env) && Run(env, actions).Some? && NoBars(actions)
    ensures Inv(Run(env, actions).value)
  {
    if actions == [] {
      forall c: Call
        ensures Good(SlotAt(START, KeyOf(c)), c)
      {
      }
    } else {
      AtomicRunsKeepInv(env, actions[..|actions| - 1]);
      StepKeepsInv(env, Run(env, actions[..|actions| - 1]).value, actions[|actions| - 1]);
    }
  }

  // ----- safety when calls of a slot do not overlap -----

  /** What holds of a slot between calls, however many crashed: `meta.json` vouches for the published stems. */
  predicate Vouched(slot: Slot, c: Call) {
    && Is(slot.demucsIn, Converted(Input(c.content)))
    && (slot.meta ==> slot.dialogue == Some(FreshDialogue(c)) && slot.background == Some(FreshBackground(c)))
  }

  predicate Looking(stage: Stage) {
    stage.SeeDialogue? || stage.SeeBackground? || stage.SeeMeta?
  }

  predicate Taking(stage: Stage) {
    stage.HitDialogue? || stage.HitBackground? || stage.TakeDialogue? || stage.TakeBackground?
  }

  /** Both stems that Demucs wrote are complete. */
  predicate Separated(stage: Stage) {
    || stage.CheckStems? || stage.PublishDialogue? || stage.WritingDialogue?
    || stage.PublishBackground? || stage.WritingBackground? || stage.PublishMeta?
  }

  /** The dialogue is complete where it is published. */
  predicate HalfPublished(stage: Stage) {
    stage.PublishBackground? || stage.WritingBackground? || stage.PublishMeta?
  }

  /** How far a call that runs alone on its slot has got: files are written in this order, `meta.json` last. */
  predicate Progress(slot: Slot, r: Proc)
    requires r.Running?
  {
    var c, stage := r.call, r.stage;
    && Is(r.source, Converted(Input(c.content))) && Is(r.dialogue, FreshDialogue(c))
    && (Taking(stage) ==> slot.meta)
    && (!Looking(stage) && !Taking(stage) ==> !slot.meta)
    && (stage.WritingVocals? || stage.NextStem? || stage.WritingNoVocals? ==> r.source.Some?)
    && (stage.NextStem? || stage.WritingNoVocals? || Separated(stage) ==> slot.vocals == Some(FreshDialogue(c)))
    && (Separated(stage) ==> slot.noVocals == Some(FreshBackground(c)))
    && (HalfPublished(stage) ==> slot.dialogue == Some(FreshDialogue(c)))
    && (stage.PublishMeta? ==> slot.background == Some(FreshBackground(c)))
  }

  ghost predicate AloneOk(s: Sys, p: nat)
    requires p in s.procs
  {
    match s.procs[p]
    case Running(c, stage, source, dialogue) => NoBar(c) && Progress(SlotAt(s, KeyOf(c)), s.procs[p])
    case Returned(c, cached, d, b) => d == FreshDialogue(c) && b == FreshBackground(c)
    case Dead => true
  }

  ghost predicate Alone(s: Sys) {
    forall p, q :: p in s.procs && q in s.procs && p != q && s.procs[p].Running? && s.procs[q].Running? ==>
      KeyOf(s.procs[p].call) != KeyOf(s.procs[q].call)
  }

  ghost predicate AloneInv(s: Sys) {
    && Alone(s)
    && (forall c :: NoBar(c) ==> Vouched(SlotAt(s, KeyOf(c)), c))
    && (forall p :: p in s.procs ==> AloneOk(s, p))
  }

  /** A step of a call that runs alone keeps its slot vouched for … */
  lemma {:induction false} AloneSlotStep(env: Env, slot: Slot, r: Proc)
    requires env.atomicConvert && r.Running? && Vouched(slot, r.call) && Progress(slot, r)
    ensures Vouched(SlotStep(env, slot, r, r.call.content), r.call)
  {
  }

  /** … and makes progress, whether or not stems and copies appear all at once. */
  lemma {:induction false} AloneProgress(env: Env, slot: Slot, r: Proc)
    requires env.atomicConvert && r.Running? && Vouched(slot, r.call) && Progress(slot, r)
    ensures var r' := ProcStep(env, slot, r);
            r'.Running? ==> r'.call == r.call && Progress(SlotStep(env, slot, r, r.call.content), r')
  {
    var c, stage := r.call, r.stage;
    if Looking(stage) || Taking(stage) {
      LookingProgress(env, slot, r);
    } else if stage.NeedInput? || stage.Converting? || stage.Separate? {
    } else if stage.WritingVocals? || stage.NextStem? || stage.WritingNoVocals? || stage.CheckStems? {
    } else {
    }
  }

  lemma {:induction false} LookingProgress(env: Env, slot: Slot, r: Proc)
    requires r.Running? && Vouched(slot, r.call) && Progress(slot, r) && (Looking(r.stage) || Taking(r.stage))
    ensures var r' := ProcStep(env, slot, r);
            r'.Running? ==> r'.call == r.call && Progress(SlotStep(env, slot, r, r.call.content), r')
  {
  }

  lemma {:induction false} AloneStep(env: Env, slot: Slot, r: Proc)
    requires env.atomicConvert && r.Running? && Vouched(slot, r.call) && Progress(slot, r)
    ensures var slot', r' := SlotStep(env, slot, r, r.call.content), ProcStep(env, slot, r);
            && Vouched(slot', r.call)
            && (r'.Running? ==> r'.call == r.call && Progress(slot', r'))
            && (r'.Returned? ==>
                  r'.call == r.call && r'.dialogueOut == FreshDialogue(r.call) &&
                  r'.backgroundOut == FreshBackground(r.call))
  {
    AloneSlotStep(env, slot, r);
    AloneProgress(env, slot, r);
  }

  lemma {:induction false} AloneGo(env: Env, s: Sys, p: nat, read: string)
    requires env.atomicConvert && env.stableInput && AloneInv(s) && Step(env, s, Go(p, read)).Some?
    ensures AloneInv(Step(env, s, Go(p, read)).value)
  {
    var s', r := Step(env, s, Go(p, read)).value, s.procs[p];
    assert AloneOk(s, p);
    AloneStep(env, SlotAt(s, KeyOf(r.call)), r);
    forall c | NoBar(c)
      ensures Vouched(SlotAt(s', KeyOf(c)), c)
    {
      if KeyOf(c) == KeyOf(r.call) {
        KeyDecodesUniquely(c, r.call);
      } else {
        assert SlotAt(s', KeyOf(c)) == SlotAt(s, KeyOf(c));
      }
    }
    forall q | q in s'.procs
      ensures AloneOk(s', q)
    {
      if q != p {
        assert AloneOk(s, q);
        assert s.procs[q].Running? ==> SlotAt(s', KeyOf(s.procs[q].call)) == SlotAt(s, KeyOf(s.procs[q].call));
      }
    }
  }

  lemma {:induction false} AloneStepKeepsInv(env: Env, s: Sys, a: Action)
    requires env.atomicConvert && env.stableInput && env.exclusive
    requires AloneInv(s) && Step(env, s, a).Some? && (a.Begin? ==> NoBar(a.call))
    ensures AloneInv(Step(env, s, a).value)
  {
    if a.Go? {
      AloneGo(env, s, a.p, a.read);
    } else {
      var s' := Step(env, s, a).value;
      assert forall k :: SlotAt(s', k) == SlotAt(s, k);
      forall q | q in s'.procs
        ensures AloneOk(s', q)
      {
        assert q != a.p ==> AloneOk(s, q);
      }
    }
  }

  lemma {:induction false} ExclusiveRunsKeepInv(env: Env, actions: seq<Action>)
    requires env.atomicConvert && env.stableInput && env.exclusive && Run(env, actions).Some? && NoBars(actions)
    ensures AloneInv(Run(env, actions).value)
  {
    if actions != [] {
      ExclusiveRunsKeepInv(env, actions[..|actions| - 1]);
      AloneStepKeepsInv(env, Run(env, actions[..|actions| - 1]).value, actions[|actions| - 1]);
    }
  }

  ghost predicate AllFresh(s: Sys) {
    forall p :: p in s.procs && s.procs[p].Returned? ==>
      && s.procs[p].dialogueOut == FreshDialogue(s.procs[p].call)
      && s.procs[p].backgroundOut == FreshBackground(s.procs[p].call)
  }

  /**
    With an atomic converter, unchanging inputs and no bars in model or device, in every run with crashes at
    any step: a call that returns, cached or not, returns exactly the stems of a fresh run on the same input
    bytes, model and device, provided that calls of one slot do not overlap, or that stems and copies are
    atomic.
   */
  lemma {:induction false} EveryReturnIsFresh(env: Env, actions: seq<Action>)
    requires Safe(env) && Run(env, actions).Some? && NoBars(actions)
    ensures AllFresh(Run(env, actions).value)
  {
    var s := Run(env, actions).value;
    if env.exclusive {
      ExclusiveRunsKeepInv(env, actions);
      assert forall p :: p in s.procs ==> AloneOk(s, p);
    } else {
      AtomicRunsKeepInv(env, actions);
      assert forall p :: p in s.procs ==> ProcOk(s.procs[p]);
    }
  }

  // ----- each guarantee of the environment is needed -----

  const SAMPLE := Call("sound", "htdemucs", "auto")

  /** All calls are the same ordinary call, and it was possible to play the actions. */
  ghost predicate Sampled(env: Env, actions: seq<Action>) {
    Run(env, actions).Some? && forall a :: a in actions && a.Begin? ==> a.call == SAMPLE
  }

  function After(env: Env, actions: seq<Action>): Sys {
    if Run(env, actions).Some? then Run(env, actions).value else START
  }

  function SampleSlot(s: Sys): Slot {
    SlotAt(s, KeyOf(SAMPLE))
  }

  lemma {:induction false} Then(env: Env, actions: seq<Action>, a: Action) returns (longer: seq<Action>, s: Sys)
    requires Sampled(env, actions) && (a.Begin? ==> a.call == SAMPLE)
    requires Step(env, After(env, actions), a).Some?
    ensures longer == actions + [a] && Sampled(env, longer) && s == After(env, longer)
    ensures Some(s) == Step(env, After(env, actions), a)
  {
    longer := actions + [a];
    assert longer[..|actions|] == actions;
    s := Step(env, After(env, actions), a).value;
  }

  /** A new call of the sample may begin. */
  ghost predicate MayBegin(env: Env, s: Sys, p: nat) {
    p !in s.procs && (env.exclusive ==> forall q :: q in s.procs ==> !s.procs[q].Running?)
  }

  /** A cached call that did not return what a fresh run would. */
  ghost predicate StaleHit(s: Sys) {
    exists p :: p in s.procs && s.procs[p].Returned? && s.procs[p].cached &&
                s.procs[p].dialogueOut != FreshDialogue(s.procs[p].call)
  }

  /** A new caller misses an unpublished slot and gets as far as needing the converted input. */
  lemma {:induction false} Misses(env: Env, actions: seq<Action>, p: nat) returns (longer: seq<Action>, s: Sys)
    requires Sampled(env, actions) && MayBegin(env, After(env, actions), p)
    requires SampleSlot(After(env, actions)).dialogue.None?
    ensures Sampled(env, longer) && s == After(env, longer)
    ensures var s0 := After(env, actions);
            s.procs == s0.procs[p := Running(SAMPLE, NeedInput, None, None)] && SampleSlot(s) == SampleSlot(s0)
  {
    longer, s := Then(env, actions, Begin(p, SAMPLE));
    longer, s := Then(env, longer, Go(p, "sound"));
  }

  /** A caller separates what the slot holds, whether or not its stems appear all at once. */
  lemma {:induction false} Separates(env: Env, actions: seq<Action>, p: nat) returns (longer: seq<Action>, s: Sys)
    requires Sampled(env, actions)
    requires var s0 := After(env, actions);
             p in s0.procs && s0.procs[p] == Running(SAMPLE, Separate, None, None) && SampleSlot(s0).demucsIn.Some?
    ensures Sampled(env, longer) && s == After(env, longer)
    ensures var s0 := After(env, actions);
            && p in s.procs && s.procs[p].Running? && s.procs[p].call == SAMPLE && s.procs[p].stage == PublishDialogue
            && s.procs == s0.procs[p := s.procs[p]]
            && SampleSlot(s).demucsIn == SampleSlot(s0).demucsIn
            && SampleSlot(s).vocals == Some(Vocals(SampleSlot(s0).demucsIn.value, "htdemucs", "auto"))
            && SampleSlot(s).noVocals == Some(NoVocals(SampleSlot(s0).demucsIn.value, "htdemucs", "auto"))
  {
    longer, s := WritesFirstStem(env, actions, p);
    longer, s := SecondStem(env, longer, p);
  }

  /** The first stem, written in one or two steps. */
  lemma {:induction false} WritesFirstStem(env: Env, actions: seq<Action>, p: nat)
    returns (longer: seq<Action>, s: Sys)
    requires Sampled(env, actions)
    requires var s0 := After(env, actions);
             p in s0.procs && s0.procs[p] == Running(SAMPLE, Separate, None, None) && SampleSlot(s0).demucsIn.Some?
    ensures Sampled(env, longer) && s == After(env, longer)
    ensures var s0 := After(env, actions);
            && s.procs == s0.procs[p := Running(SAMPLE, NextStem, SampleSlot(s0).demucsIn, None)]
            && SampleSlot(s) ==
               SampleSlot(s0).(vocals := Some(Vocals(SampleSlot(s0).demucsIn.value, "htdemucs", "auto")))
  {
    longer, s := Then(env, actions, Go(p, "sound"));
    if !env.atomicStems {
      longer, s := Then(env, longer, Go(p, "sound"));
    }
  }

  /** The second stem, written in one or two steps. */
  lemma {:induction false} WritesSecondStem(env: Env, actions: seq<Action>, p: nat)
    returns (longer: seq<Action>, s: Sys)
    requires Sampled(env, actions)
    requires var s0 := After(env, actions);
             && p in s0.procs && s0.procs[p].Running? && s0.procs[p].call == SAMPLE && s0.procs[p].stage == NextStem
             && s0.procs[p].source.Some?
    ensures Sampled(env, longer) && s == After(env, longer)
    ensures var s0 := After(env, actions);
            && s.procs == s0.procs[p := s0.procs[p].(stage := CheckStems)]
            && SampleSlot(s) ==
               SampleSlot(s0).(noVocals := Some(NoVocals(s0.procs[p].source.value, "htdemucs", "auto")))
  {
    longer, s := Then(env, actions, Go(p, "sound"));
    if !env.atomicStems {
      longer, s := Then(env, longer, Go(p, "sound"));
    }
  }

  lemma {:induction false} SecondStem(env: Env, actions: seq<Action>, p: nat) returns (longer: seq<Action>, s: Sys)
    requires Sampled(env, actions)
    requires var s0 := After(env, actions);
             && p in s0.procs && s0.procs[p].Running? && s0.procs[p].call == SAMPLE && s0.procs[p].stage == NextStem
             && s0.procs[p].source.Some? && SampleSlot(s0).vocals.Some?
    ensures Sampled(env, longer) && s == After(env, longer)
    ensures var s0 := After(env, actions);
            && s.procs == s0.procs[p := s0.procs[p].(stage := PublishDialogue)]
            && SampleSlot(s) ==
               SampleSlot(s0).(noVocals := Some(NoVocals(s0.procs[p].source.value, "htdemucs", "auto")))
  {
    longer, s := WritesSecondStem(env, actions, p);
    longer, s := Then(env, longer, Go(p, "sound"));
  }

  /** A caller whose stems both exist publishes one of them, in one or two steps. */
  lemma {:induction false} PublishesOne(env: Env, actions: seq<Action>, p: nat, stage: Stage)
    returns (longer: seq<Action>, s: Sys)
    requires Sampled(env, actions) && (stage == PublishDialogue || stage == PublishBackground)
    requires var s0 := After(env, actions);
             && p in s0.procs && s0.procs[p].Running? && s0.procs[p].call == SAMPLE && s0.procs[p].stage == stage
    ensures Sampled(env, longer) && s == After(env, longer)
    ensures var s0 := After(env, actions);
            var next := if stage == PublishDialogue then PublishBackground else PublishMeta;
            && s.procs == s0.procs[p := s0.procs[p].(stage := next)]
            && SampleSlot(s) == if stage == PublishDialogue
                                then SampleSlot(s0).(dialogue := SampleSlot(s0).vocals)
                                else SampleSlot(s0).(background := SampleSlot(s0).noVocals)
  {
    longer, s := Then(env, actions, Go(p, "sound"));
    if !env.atomicCopies {
      longer, s := Then(env, longer, Go(p, "sound"));
    }
  }

  /** A caller whose stems both exist publishes them. */
  lemma {:induction false} Publishes(env: Env, actions: seq<Action>, p: nat) returns (longer: seq<Action>, s: Sys)
    requires Sampled(env, actions)
    requires var s0 := After(env, actions);
             && p in s0.procs && s0.procs[p].Running? && s0.procs[p].call == SAMPLE
             && s0.procs[p].stage == PublishDialogue
             && SampleSlot(s0).vocals.Some? && SampleSlot(s0).noVocals.Some?
    ensures Sampled(env, longer) && s == After(env, longer)
    ensures var before, after := SampleSlot(After(env, actions)), SampleSlot(s);
            && after.dialogue == before.vocals && after.background == before.noVocals && after.meta
            && after.vocals == before.vocals
    ensures var s0 := After(env, actions); s.procs == s0.procs[p := s0.procs[p].(stage := TakeDialogue)]
  {
    longer, s := PublishesOne(env, actions, p, PublishDialogue);
    longer, s := PublishesOne(env, longer, p, PublishBackground);
    longer, s := Then(env, longer, Go(p, "sound"));
  }

  ghost predicate Published(s: Sys) {
    SampleSlot(s).dialogue.Some? && SampleSlot(s).background.Some? && SampleSlot(s).meta
  }

  /** A step that finds a published file moves the caller on and leaves the slot alone. */
  lemma {:induction false} Sees(env: Env, actions: seq<Action>, p: nat, stage: Stage)
    returns (longer: seq<Action>, s: Sys)
    requires Sampled(env, actions) && p in After(env, actions).procs && Published(After(env, actions))
    requires stage.SeeDialogue? || stage.SeeBackground? || stage.SeeMeta?
    requires After(env, actions).procs[p] == Running(SAMPLE, stage, None, None)
    ensures Sampled(env, longer) && s == After(env, longer) && SampleSlot(s) == SampleSlot(After(env, actions))
    ensures var next :=
              if stage.SeeDialogue? then SeeBackground else if stage.SeeBackground? then SeeMeta else HitDialogue;
            s.procs == After(env, actions).procs[p := Running(SAMPLE, next, None, None)]
  {
    longer, s := Then(env, actions, Go(p, "sound"));
  }

  /** A new caller sees the three published files. */
  lemma {:induction false} Hits(env: Env, actions: seq<Action>, p: nat) returns (longer: seq<Action>, s: Sys)
    requires Sampled(env, actions) && MayBegin(env, After(env, actions), p) && Published(After(env, actions))
    ensures Sampled(env, longer) && s == After(env, longer)
    ensures s.procs == After(env, actions).procs[p := Running(SAMPLE, HitDialogue, None, None)]
    ensures SampleSlot(s) == SampleSlot(After(env, actions))
  {
    longer, s := Then(env, actions, Begin(p, SAMPLE));
    longer, s := Sees(env, longer, p, SeeDialogue);
    longer, s := Sees(env, longer, p, SeeBackground);
    longer, s := Sees(env, longer, p, SeeMeta);
  }

  /** A new caller hits a published slot and returns its files. */
  lemma {:induction false} HitReturns(env: Env, actions: seq<Action>, p: nat) returns (longer: seq<Action>, s: Sys)
    requires Sampled(env, actions) && MayBegin(env, After(env, actions), p) && Published(After(env, actions))
    ensures Sampled(env, longer) && s == After(env, longer)
    ensures var slot := SampleSlot(After(env, actions));
            s.procs ==
            After(env, actions).procs[p := Returned(SAMPLE, true, slot.dialogue.value, slot.background.value)]
  {
    longer, s := Hits(env, actions, p);
    longer, s := Then(env, longer, Go(p, "sound"));
    longer, s := Then(env, longer, Go(p, "sound"));
  }

  /** A caller about to separate a wrong input publishes wrong stems, and a later caller gets them. */
  lemma {:induction false} WrongInputIsHit(env: Env, actions: seq<Action>, p: nat, q: nat)
    returns (longer: seq<Action>, s: Sys)
    requires Sampled(env, actions) && p != q && q !in After(env, actions).procs
    requires forall o :: o in After(env, actions).procs && o != p ==> !After(env, actions).procs[o].Running?
    requires var s0 := After(env, actions);
             && p in s0.procs && s0.procs[p] == Running(SAMPLE, Separate, None, None)
             && SampleSlot(s0).demucsIn.Some? && SampleSlot(s0).demucsIn.value != Converted(Input("sound"))
    ensures Sampled(env, longer) && s == After(env, longer) && StaleHit(s)
  {
    longer, s := Separates(env, actions, p);
    longer, s := Publishes(env, longer, p);
    longer, s := Then(env, longer, Die(p));
    longer, s := HitReturns(env, longer, q);
    assert s.procs[q].dialogueOut != FreshDialogue(SAMPLE);
  }

  /**
    A converter that writes in place: a crash half way leaves a truncated file, whose existence makes the
    next call skip the conversion.
   */
  lemma {:induction false} TruncatedConversionPoisonsCache(env: Env) returns (actions: seq<Action>, s: Sys)
    requires !env.atomicConvert
    ensures Sampled(env, actions) && s == After(env, actions) && StaleHit(s)
  {
    actions, s := Misses(env, [], 0);
    actions, s := Then(env, actions, Go(0, "sound"));
    actions, s := Then(env, actions, Die(0));
    actions, s := Misses(env, actions, 1);
    actions, s := Then(env, actions, Go(1, "sound"));
    actions, s := WrongInputIsHit(env, actions, 1, 2);
  }

  /** An input file replaced between hashing and conversion: the stems are cached under the wrong key. */
  lemma {:induction false} ChangedInputPoisonsCache(env: Env) returns (actions: seq<Action>, s: Sys)
    requires env.atomicConvert && !env.stableInput
    ensures Sampled(env, actions) && s == After(env, actions) && StaleHit(s)
  {
    actions, s := Misses(env, [], 0);
    actions, s := Then(env, actions, Go(0, "other"));
    actions, s := WrongInputIsHit(env, actions, 0, 1);
  }

  /** Two callers that both missed, with the input converted. */
  lemma {:induction false} TwoMisses(env: Env) returns (actions: seq<Action>, s: Sys)
    requires env.atomicConvert && !env.exclusive
    ensures Sampled(env, actions) && s == After(env, actions) && SampleSlot(s).demucsIn.Some?
    ensures s.procs == map[0 := Running(SAMPLE, Separate, None, None), 1 := Running(SAMPLE, Separate, None, None)]
  {
    actions, s := Misses(env, [], 0);
    actions, s := Misses(env, actions, 1);
    actions, s := Then(env, actions, Go(0, "sound"));
    actions, s := Then(env, actions, Go(1, "sound"));
  }

  /** Stems written in place: a second caller's Demucs truncates the stem that the first one then publishes. */
  lemma {:induction false} OverwrittenStemPoisonsCache(env: Env) returns (actions: seq<Action>, s: Sys)
    requires env.atomicConvert && !env.atomicStems && !env.exclusive
    ensures Sampled(env, actions) && s == After(env, actions) && StaleHit(s)
  {
    actions, s := TwoMisses(env);
    actions, s := Separates(env, actions, 0);
    actions, s := Then(env, actions, Go(1, "sound"));
    actions, s := Publishes(env, actions, 0);
    actions, s := HitReturns(env, actions, 2);
    assert s.procs[2].dialogueOut != FreshDialogue(SAMPLE);
  }

  /** Copies written in place: a second caller is half way through publishing when a third one hits. */
  lemma {:induction false} HalfCopiedStemIsHit(env: Env) returns (actions: seq<Action>, s: Sys)
    requires env.atomicConvert && env.atomicStems && !env.atomicCopies && !env.exclusive
    ensures Sampled(env, actions) && s == After(env, actions) && StaleHit(s)
  {
    actions, s := TwoMisses(env);
    actions, s := Separates(env, actions, 0);
    actions, s := Separates(env, actions, 1);
    actions, s := Publishes(env, actions, 0);
    actions, s := Then(env, actions, Go(1, "sound"));
    actions, s := HitReturns(env, actions, 2);
    assert s.procs[2].dialogueOut != FreshDialogue(SAMPLE);
  }

  /** A caller that needs its input converted converts it, in one or two steps. */
  lemma {:induction false} Converts(env: Env, actions: seq<Action>, p: nat) returns (longer: seq<Action>, s: Sys)
    requires Sampled(env, actions)
    requires var s0 := After(env, actions);
             p in s0.procs && s0.procs[p] == Running(SAMPLE, NeedInput, None, None) && SampleSlot(s0).demucsIn.None?
    ensures Sampled(env, longer) && s == After(env, longer)
    ensures var s0 := After(env, actions);
            && s.procs == s0.procs[p := Running(SAMPLE, Separate, None, None)]
            && SampleSlot(s) == SampleSlot(s0).(demucsIn := Some(Converted(Input("sound"))))
  {
    longer, s := Then(env, actions, Go(p, "sound"));
    if !env.atomicConvert {
      longer, s := Then(env, longer, Go(p, "sound"));
    }
  }

  /** A caller that has published takes its stems and returns. */
  lemma {:induction false} TakesStems(env: Env, actions: seq<Action>, p: nat) returns (longer: seq<Action>, s: Sys)
    requires Sampled(env, actions) && Published(After(env, actions))
    requires var s0 := After(env, actions);
             p in s0.procs && s0.procs[p].Running? && s0.procs[p].call == SAMPLE && s0.procs[p].stage == TakeDialogue
    ensures Sampled(env, longer) && s == After(env, longer) && SampleSlot(s) == SampleSlot(After(env, actions))
    ensures var slot := SampleSlot(After(env, actions));
            s.procs ==
            After(env, actions).procs[p := Returned(SAMPLE, false, slot.dialogue.value, slot.background.value)]
  {
    longer, s := Then(env, actions, Go(p, "sound"));
    longer, s := Then(env, longer, Go(p, "sound"));
  }

  /**
    What the cache is for, in every environment: a first call that nothing disturbs separates and returns the
    fresh stems, and the next call returns the same stems from the cache.
   */
  lemma {:induction false} SecondCallIsServedFromCache(env: Env) returns (actions: seq<Action>, s: Sys)
    ensures Sampled(env, actions) && s == After(env, actions) && 0 in s.procs && 1 in s.procs
    ensures s.procs[0] == Returned(SAMPLE, false, FreshDialogue(SAMPLE), FreshBackground(SAMPLE))
    ensures s.procs[1] == Returned(SAMPLE, true, FreshDialogue(SAMPLE), FreshBackground(SAMPLE))
  {
    actions, s := Misses(env, [], 0);
    actions, s := Converts(env, actions, 0);
    actions, s := Separates(env, actions, 0);
    actions, s := Publishes(env, actions, 0);
    actions, s := TakesStems(env, actions, 0);
    actions, s := HitReturns(env, actions, 1);
  }

  /**
    Exactly when the cache is right: every return of every run is fresh if and only if conversion is atomic,
    inputs do not change while they are used and, unless calls of one slot never overlap, stems and copies are
    atomic too.
   */
  lemma {:induction false} FreshIffSafe(env: Env)
    ensures Safe(env) <==>
            forall actions :: NoBars(actions) && Run(env, actions).Some? ==> AllFresh(Run(env, actions).value)
  {
    if Safe(env) {
      forall actions | NoBars(actions) && Run(env, actions).Some?
        ensures AllFresh(Run(env, actions).value)
      {
        EveryReturnIsFresh(env, actions);
      }
    } else {
      var actions, s;
      if !env.atomicConvert {
        actions, s := TruncatedConversionPoisonsCache(env);
      } else if !env.stableInput {
        actions, s := ChangedInputPoisonsCache(env);
      } else if !env.atomicStems {
        actions, s := OverwrittenStemPoisonsCache(env);
      } else {
        actions, s := HalfCopiedStemIsHit(env);
      }
      assert NoBars(actions) && !AllFresh(Run(env, actions).value);
    }
  }
}
