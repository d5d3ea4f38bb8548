/** The two-bank save protocol of os/kernel/fs.c as a state machine: what is on
    disk, what the kernel remembers, and what saves, interrupted saves, loads and
    reboots do to them. */
module LpstProtocol {
  import opened BitOps
  import opened Bytes
  import opened LpstFormat
  import LpstChecks

  const BANK_SECTORS: nat := 64
  const SECTOR: nat := 512

  type Bank = b: seq<byte> | |b| == BANK_BYTES witness Zeros(BANK_BYTES)

  type Torn = b: seq<byte> | |b| == SECTOR witness Zeros(SECTOR)

  /** active is -1 until a bank has been saved or loaded. */
  datatype State = State(bank0: Bank, bank1: Bank, files: seq<File>, generation: word, active: int)
  {
    predicate Known() {
      -1 <= active <= 1
    }

    function BankAt(i: int): Bank {
      if i == 0 then bank0 else bank1
    }
  }

  function Target(active: int): (t: int)
    ensures 0 <= t <= 1 && t != active
  {
    if active == 0 then 1 else 0
  }

  function NextGeneration(g: word): word {
    if g + 1 == NO_WRAP then 1 else g + 1
  }

  /** Generations go up by one, and 0, which stands for an image without one, never comes. */
  lemma GenerationsGoUp(g: word)
    ensures 1 <= NextGeneration(g) && NextGeneration(g) == (if g == 0xFFFF_FFFF then 1 else g + 1)
  {
  }

  function PutBank(s: State, i: int, b: Bank): State {
    if i == 0 then s.(bank0 := b) else s.(bank1 := b)
  }

  /** The first n sectors of img have reached the bank, sector n was being written. */
  function PartlyWritten(was: Bank, img: Bank, n: nat, torn: Torn): Bank
    requires n < BANK_SECTORS
  {
    img[..SECTOR * n] + torn + was[SECTOR * n + SECTOR..]
  }

  /** fs_persist_save when the write of sector n fails (n == 64: none does). */
  function Save(s: State, n: nat, torn: Torn): State
    requires n <= BANK_SECTORS
  {
    if !Fits(s.files, |s.files|) then s
    else
      var t, g := Target(s.active), NextGeneration(s.generation);
      var img := Image(s.files, g);
      if n < BANK_SECTORS then PutBank(s, t, PartlyWritten(s.BankAt(t), img, n, torn))
      else PutBank(s, t, img).(generation := g, active := t)
  }

  /** The bank fs_persist_load settles on, or -1; r0 and r1 say which could be read. */
  function Best(bank0: Bank, bank1: Bank, r0: bool, r1: bool): (b: int)
    ensures -1 <= b <= 1
  {
    var v0, v1 := Validate(bank0), Validate(bank1);
    if r0 && v0.Good? then (if r1 && v1.Good? && v1.generation >= v0.generation then 1 else 0)
    else if r1 && v1.Good? then 1
    else -1
  }

  /** fs_persist_load; again says whether the chosen bank could be read a second time. */
  function Load(s: State, r0: bool, r1: bool, again: bool): State {
    var b := Best(s.bank0, s.bank1, r0, r1);
    if b < 0 || !again then s
    else
      var v := Validate(s.BankAt(b));
      s.(files := LoadEntries(s.files, s.BankAt(b), v.header, v.total, v.count), generation := v.generation,
          active := b)
  }

  /** A restart: the kernel comes up with its built-in files and loads; the result
      of that load is thrown away, whatever it is. */
  function Boot(s: State, builtin: seq<File>, r0: bool, r1: bool, again: bool): State {
    Load(s.(files := builtin, generation := 0, active := -1), r0, r1, again)
  }

  datatype Event =
    | Saving(sectors: nat, torn: Torn)
    | Loading(r0: bool, r1: bool, again: bool)
    | Booting(builtin: seq<File>, r0: bool, r1: bool, again: bool)
    | Editing(files: seq<File>)

  function Step(s: State, e: Event): State {
    match e
    case Saving(n, torn) => Save(s, if n < BANK_SECTORS then n else BANK_SECTORS, torn)
    case Loading(r0, r1, again) => Load(s, r0, r1, again)
    case Booting(builtin, r0, r1, again) => Boot(s, builtin, r0, r1, again)
    case Editing(files) => s.(files := files)
  }

  function Run(s: State, es: seq<Event>): State {
    if es == [] then s else Step(Run(s, es[..|es| - 1]), es[|es| - 1])
  }

  // ---- What every step keeps ----

  /** If the bank the kernel believes in validates, it has the generation the
      kernel remembers. */
  ghost predicate Inv(s: State) {
    && s.Known()
    && (s.active < 0 ==> s.generation == 0)
    && (s.active >= 0 && Validate(s.BankAt(s.active)).Good? ==> Validate(s.BankAt(s.active)).generation == s.generation)
  }

  /** The bank the kernel believes in does validate. */
  ghost predicate Trusted(s: State) {
    Inv(s) && (s.active >= 0 ==> Validate(s.BankAt(s.active)).Good?)
  }

  ghost predicate SmallFiles(s: State) {
    |s.files| <= MAX_ENTRIES
  }

  /** A completed save of a table with more entries than the validator accepts. */
  ghost predicate Oversaves(s: State, e: Event) {
    e.Saving? && e.sectors >= BANK_SECTORS && !SmallFiles(s) && Fits(s.files, |s.files|)
  }

  lemma SavedBank(s: State, torn: Torn)
    requires s.Known() && Fits(s.files, |s.files|)
    ensures var s' := Save(s, BANK_SECTORS, torn);
            && s'.active == Target(s.active) && s'.files == s.files && s'.generation == NextGeneration(s.generation)
            && s'.BankAt(s'.active) == Image(s.files, s'.generation)
            && Validate(s'.BankAt(s'.active))
                == (if SmallFiles(s) then Good(HEADER, |s.files|, Total(s.files), s'.generation) else Bad(-3))
            && s'.BankAt(1 - s'.active) == s.BankAt(1 - s'.active)
  {
    ValidatesIffSmall(s.files, NextGeneration(s.generation));
    hide Validate, Image, Fits;
  }

  /** Whatever prefix of its sectors a save writes, the active bank and the
      kernel's memory of it stay as they were. */
  lemma InterruptedSaveKeepsActive(s: State, n: nat, torn: Torn)
    requires s.Known() && n < BANK_SECTORS
    ensures var s' := Save(s, n, torn);
            && s'.active == s.active && s'.generation == s.generation && s'.files == s.files
            && s'.BankAt(1 - Target(s.active)) == s.BankAt(1 - Target(s.active))
            && (s.active >= 0 ==> s'.BankAt(s.active) == s.BankAt(s.active))
  {
  }

  lemma LoadPicksValid(s: State, r0: bool, r1: bool, again: bool)
    requires s.Known()
    ensures var s' := Load(s, r0, r1, again);
            s' == s || (s'.active >= 0 && Trusted(s') && s'.active == Best(s.bank0, s.bank1, r0, r1)
                        && s'.bank0 == s.bank0 && s'.bank1 == s.bank1 && |s'.files| == |s.files|)
  {
    hide LoadEntries, Validate;
  }

  /** Every step keeps the invariant; and it keeps the kernel's trust in its bank
      exactly unless it is a completed save of too large a table. */
  lemma StepKeepsInv(s: State, e: Event)
    requires Inv(s)
    ensures Inv(Step(s, e))
    ensures Trusted(s) ==> (Trusted(Step(s, e)) <==> !Oversaves(s, e))
  {
    hide LoadEntries, Validate, Image, PartlyWritten, Fits;
    match e
    case Saving(n, torn) =>
      if n < BANK_SECTORS {
        InterruptedSaveKeepsActive(s, n, torn);
      } else if Fits(s.files, |s.files|) {
        SavedBank(s, torn);
      }
    case Loading(r0, r1, again) =>
      LoadPicksValid(s, r0, r1, again);
    case Booting(builtin, r0, r1, again) =>
      LoadPicksValid(s.(files := builtin, generation := 0, active := -1), r0, r1, again);
    case Editing(files) =>
  }

  /** The bank the kernel believes in is valid after every step of the run. */
  ghost predicate AlwaysTrusted(s: State, es: seq<Event>) {
    Trusted(Run(s, es)) && (es == [] || AlwaysTrusted(s, es[..|es| - 1]))
  }

  /** No step of the run saves too large a table. */
  ghost predicate NeverOversaves(s: State, es: seq<Event>) {
    es == [] || (NeverOversaves(s, es[..|es| - 1]) && !Oversaves(Run(s, es[..|es| - 1]), es[|es| - 1]))
  }

  /** No run at all of saves, interruptions, read failures, loads and restarts
      breaks the invariant; and the kernel trusts a valid bank all the way
      through exactly when no step saves too large a table. */
  lemma {:induction false} RunKeepsInv(s: State, es: seq<Event>)
    requires Inv(s)
    ensures Inv(Run(s, es))
    ensures Trusted(s) ==> (AlwaysTrusted(s, es) <==> NeverOversaves(s, es))
  {
    hide Inv, Trusted, Oversaves, Step;
    if es != [] {
      var n := |es| - 1;
      RunKeepsInv(s, es[..n]);
      StepKeepsInv(Run(s, es[..n]), es[n]);
    }
  }

  // ---- A completed save, and what the restart after it finds ----

  predicate Readable(i: int, r0: bool, r1: bool) {
    if i == 0 then r0 else r1
  }

  /** The bank the next save leaves alone. */
  function Kept(s: State): int {
    1 - Target(s.active)
  }

  /** The next save outranks the bank it leaves alone: with a bank active the
      generation counter does not wrap, with none bank 1 holds no image that
      carries a generation of its own. */
  ghost predicate Newest(s: State) {
    Validate(s.BankAt(Kept(s))).Good? ==>
      if s.active >= 0 then s.generation + 1 < NO_WRAP else Validate(s.bank1).generation == 0
  }

  lemma NewestOutranks(s: State)
    requires Inv(s) && Validate(s.BankAt(Kept(s))).Good?
    ensures Newest(s) <==> Validate(s.BankAt(Kept(s))).generation < NextGeneration(s.generation)
    ensures Validate(s.BankAt(Kept(s))).generation != NextGeneration(s.generation) || Kept(s) == 1
  {
    hide Validate;
  }

  /** What a restart finds after a completed save: the saved files, exactly when
      the table is small enough, the bank can be read twice and the other bank
      cannot be read or is outranked; else the other bank if that is valid; else
      nothing. */
  lemma SaveThenBoot(s: State, torn: Torn, builtin: seq<File>, r0: bool, r1: bool, again: bool)
    requires Inv(s) && Fits(s.files, |s.files|)
    ensures var t, k := Target(s.active), Kept(s);
            var picked := SmallFiles(s) && Readable(t, r0, r1) && (Readable(k, r0, r1) ==> Newest(s));
            var s' := Boot(Save(s, BANK_SECTORS, torn), builtin, r0, r1, again);
            && (s'.active == t <==> again && picked)
            && (s'.active == t ==> s'.generation == NextGeneration(s.generation)
                                   && (DistinctNames(s.files) ==>
                                       (s'.files == s.files <==> Restorable(builtin, s.files))))
            && (s'.active == k <==> again && !picked && Readable(k, r0, r1) && Validate(s.BankAt(k)).Good?)
            && (s'.active == k ==> s'.BankAt(k) == s.BankAt(k) && s'.generation == Validate(s.BankAt(k)).generation)
            && (s'.active < 0 ==> s'.files == builtin && s'.generation == 0)
  {
    hide Validate, Image, Fits, Restorable, LoadEntries, Newest, SmallFiles, Total, Save;
    SavedBank(s, torn);
    if Validate(s.BankAt(Kept(s))).Good? {
      NewestOutranks(s);
    } else {
      OldIsBad(s);
    }
    var s1 := Save(s, BANK_SECTORS, torn);
    BootLoads(s1, builtin, r0, r1, again);
    if Boot(s1, builtin, r0, r1, again).active == Target(s.active) && DistinctNames(s.files) {
      Restores(builtin, s.files, s1.generation);
    }
  }

  lemma OldIsBad(s: State)
    requires Validate(s.BankAt(Kept(s))).Bad?
    ensures Newest(s)
  {
    hide Validate;
  }

  lemma BootLoads(s: State, builtin: seq<File>, r0: bool, r1: bool, again: bool)
    ensures var b := Best(s.bank0, s.bank1, r0, r1);
            var s' := Boot(s, builtin, r0, r1, again);
            if b < 0 || !again then s' == s.(files := builtin, generation := 0, active := -1)
            else
              var v := Validate(s.BankAt(b));
              && v.Good? && v.header + ENTRY * v.count <= v.total <= BANK_BYTES
              && s' == s.(files := LoadEntries(builtin, s.BankAt(b), v.header, v.total, v.count),
                  generation := v.generation, active := b)
  {
    hide LoadEntries;
  }

  /** A restart that could not read bank 1 twice. */
  predicate Blind(e: Event) {
    e.Booting? && !(e.r1 && e.again)
  }

  /** With no bank active there is nothing on disk that would outrank a save. */
  ghost predicate Sighted(s: State) {
    s.Known() && (s.active < 0 ==> Validate(s.bank1).Bad?)
  }

  lemma {:induction false} RunKeepsSight(s: State, es: seq<Event>)
    requires Inv(s) && Sighted(s) && forall i | 0 <= i < |es| :: !Blind(es[i])
    ensures Sighted(Run(s, es))
  {
    if es != [] {
      var n := |es| - 1;
      RunKeepsInv(s, es[..n]);
      RunKeepsSight(s, es[..n]);
      StepKeepsSight(Run(s, es[..n]), es[n]);
    }
  }

  lemma StepKeepsSight(s: State, e: Event)
    requires Inv(s) && Sighted(s) && !Blind(e)
    ensures Sighted(Step(s, e))
  {
    hide LoadEntries, Validate, Image, PartlyWritten, Fits;
  }

  /** The main promise over whole runs, with any number of restarts, read failures,
      interrupted and oversized saves in them: the next completed save of a table
      of at most 32 entries is what a restart picks exactly when it outranks the
      bank it leaves alone; and if every restart on the way could read bank 1,
      that is exactly unless the generation counter wraps. */
  lemma SaveAfterAnyRun(s: State, es: seq<Event>, torn: Torn, builtin: seq<File>)
    requires Inv(s)
    requires var m := Run(s, es); SmallFiles(m) && Fits(m.files, |m.files|)
    ensures var m := Run(s, es);
            var s' := Boot(Save(m, BANK_SECTORS, torn), builtin, true, true, true);
            && (s'.active == Target(m.active) <==> Newest(m))
            && (Newest(m) && DistinctNames(m.files) ==> (s'.files == m.files <==> Restorable(builtin, m.files)))
            && (!Newest(m) ==> s'.active == Kept(m) && s'.BankAt(Kept(m)) == m.BankAt(Kept(m)))
            && (Sighted(s) && Trusted(m) && (forall i | 0 <= i < |es| :: !Blind(es[i])) ==>
                (Newest(m) <==> m.generation + 1 < NO_WRAP))
  {
    var m := Run(s, es);
    RunKeepsInv(s, es);
    SaveThenBoot(m, torn, builtin, true, true, true);
    if Sighted(s) && forall i | 0 <= i < |es| :: !Blind(es[i]) {
      RunKeepsSight(s, es);
    }
    hide Validate, Image, Fits, Restorable, LoadEntries, Save, Boot, Total, Run;
  }

  // ---- A save that is interrupted ----

  /** A crash in the middle of a save: the restart finds the bank the save left
      alone, or a bank that validates with no lower generation; it finds nothing
      exactly if neither that bank nor the torn one can be read and validates. The torn
      bank is found only if the bytes behind its header hash to the sum in the header;
      when they do not, the bank left alone is found whenever it can be read and
      validates. */
  lemma CrashIsSafe(s: State, n: nat, torn: Torn, builtin: seq<File>, r0: bool, r1: bool, again: bool)
    requires Inv(s) && n < BANK_SECTORS
    ensures var t, k := Target(s.active), Kept(s);
            var s1 := Save(s, n, torn);
            var s' := Boot(s1, builtin, r0, r1, again);
            var kv := Validate(s.BankAt(k));
            && Trusted(s') && s'.BankAt(k) == s.BankAt(k)
            && (s'.active >= 0 <==> again && ((Readable(k, r0, r1) && kv.Good?)
                                              || (Readable(t, r0, r1) && Validate(s1.BankAt(t)).Good?)))
            && (s'.active >= 0 && Readable(k, r0, r1) && kv.Good? ==> s'.generation >= kv.generation)
            && (s'.active == k ==> s'.generation == kv.generation)
            && (s'.active < 0 ==> s'.files == builtin)
            && (s.active >= 0 ==> k == s.active) && (s.active < 0 ==> k == 1)
            && (s'.active == t ==> LpstChecks.SumMatches(s1.BankAt(t)))
            && (!LpstChecks.SumMatches(s1.BankAt(t)) && again && Readable(k, r0, r1) && kv.Good? ==> s'.active == k)
  {
    hide LoadEntries, Validate, Image, PartlyWritten, Fits, LpstChecks.SumMatches;
    InterruptedSaveKeepsActive(s, n, torn);
    AcceptedMatches(Save(s, n, torn).BankAt(Target(s.active)));
  }

  lemma AcceptedMatches(b: Bank)
    ensures Validate(b).Good? ==> LpstChecks.SumMatches(b)
  {
    hide Validate, LpstChecks.SumMatches;
    LpstChecks.ValidExactly(b);
  }

  // ---- What lasts while saves keep being interrupted ----

  /** Nothing but the active bank can win a load. */
  ghost predicate Settled(s: State) {
    && Trusted(s) && s.active >= 0
    && var o := Validate(s.BankAt(1 - s.active));
       o.Good? ==> o.generation < s.generation || (o.generation == s.generation && s.active == 1)
  }

  /** Saves are interrupted, loads and restarts can read both banks. */
  ghost predicate Interrupted(e: Event) {
    match e
    case Saving(n, torn) => n < BANK_SECTORS
    case Loading(r0, r1, again) => r0 && r1
    case Booting(builtin, r0, r1, again) => r0 && r1 && again
    case Editing(files) => true
  }

  /** As long as what interrupted saves leave behind does not pass for a newer
      image, the last completed save stays on disk and stays the one loaded. */
  lemma {:induction false} LastSaveLasts(s: State, es: seq<Event>)
    requires Settled(s) && NeverNewer(s, es) && forall i | 0 <= i < |es| :: Interrupted(es[i])
    ensures var s' := Run(s, es);
            Settled(s') && s'.active == s.active && s'.generation == s.generation
              && s'.BankAt(s.active) == s.BankAt(s.active)
  {
    hide Settled, NotNewer, Interrupted, Step;
    SettledKnows(s);
    if es != [] {
      var n := |es| - 1;
      LastSaveLasts(s, es[..n]);
      SettledKnows(Run(s, es[..n]));
      StepLasts(s, Run(s, es[..n]), es[n]);
    }
  }

  /** The bank that was not active at s0 does not win over the one that was. */
  ghost predicate NotNewer(s: State, s0: State) {
    var o := Validate(s.BankAt(1 - s0.active));
    o.Good? ==> o.generation < s0.generation || (o.generation == s0.generation && s0.active == 1)
  }

  /** After no step of the run does the other bank win. */
  ghost predicate NeverNewer(s: State, es: seq<Event>) {
    es == [] || (NeverNewer(s, es[..|es| - 1]) && NotNewer(Run(s, es), s))
  }

  /** After no step of the run does the sum of the other bank match. */
  ghost predicate NeverMatches(s: State, es: seq<Event>) {
    es == [] || (NeverMatches(s, es[..|es| - 1]) && !LpstChecks.SumMatches(Run(s, es).BankAt(1 - s.active)))
  }

  /** Torn banks whose bytes do not hash to the sum in their header never pass for a newer
      image, whatever generation stands there. */
  lemma {:induction false} TornNeverNewer(s: State, es: seq<Event>)
    requires NeverMatches(s, es)
    ensures NeverNewer(s, es)
  {
    hide Run, LpstChecks.SumMatches, Validate;
    if es != [] {
      TornNeverNewer(s, es[..|es| - 1]);
      AcceptedMatches(Run(s, es).BankAt(1 - s.active));
    }
  }

  lemma SettledKnows(s: State)
    requires Settled(s)
    ensures s.Known() && 0 <= s.active <= 1
  {
  }

  lemma StepLasts(s0: State, s: State, e: Event)
    requires Settled(s) && s0.active == s.active && s0.generation == s.generation && Interrupted(e)
    requires s.BankAt(s.active) == s0.BankAt(s.active)
    requires NotNewer(Step(s, e), s0)
    ensures var s' := Step(s, e);
            Settled(s') && s'.active == s.active && s'.generation == s.generation
              && s'.BankAt(s.active) == s.BankAt(s.active)
  {
    hide LoadEntries, Validate, Image, PartlyWritten, Fits;
  }

  /** The promise as a whole: a save that completes and outranks the other bank, then
      any number of interrupted saves, edits, loads and restarts, then a restart:
      it brings back what that save saved, exactly if the table can take it. */
  lemma LastSaveComesBack(s: State, torn: Torn, es: seq<Event>, builtin: seq<File>)
    requires Inv(s) && SmallFiles(s) && Fits(s.files, |s.files|) && DistinctNames(s.files) && Newest(s)
    requires forall i | 0 <= i < |es| :: Interrupted(es[i])
    requires NeverNewer(Save(s, BANK_SECTORS, torn), es)
    ensures var s' := Boot(Run(Save(s, BANK_SECTORS, torn), es), builtin, true, true, true);
            && s'.active == Target(s.active) && s'.generation == NextGeneration(s.generation)
            && (s'.files == s.files <==> Restorable(builtin, s.files))
  {
    hide Validate, Image, Fits, Restorable, LoadEntries, Total, Save, Run, NotNewer, DistinctNames, Newest;
    var saved := Save(s, BANK_SECTORS, torn);
    SavedBank(s, torn);
    SavedSettles(s, torn);
    LastSaveLasts(saved, es);
    BootLoads(Run(saved, es), builtin, true, true, true);
    Restores(builtin, s.files, saved.generation);
  }

  lemma SavedSettles(s: State, torn: Torn)
    requires Inv(s) && SmallFiles(s) && Fits(s.files, |s.files|) && Newest(s)
    ensures Settled(Save(s, BANK_SECTORS, torn))
  {
    hide Validate, Image, Fits, Total, Save;
    SavedBank(s, torn);
    if Validate(s.BankAt(Kept(s))).Good? {
      NewestOutranks(s);
    }
  }

  // ---- More files than the validator accepts ----

  /** With more than 32 entries a completed save leaves a bank that no load accepts. */
  lemma LargeSaveIsLost(s: State, torn: Torn)
    requires s.Known() && Fits(s.files, |s.files|)
    ensures var s' := Save(s, BANK_SECTORS, torn);
            Validate(s'.BankAt(s'.active)).Good? <==> |s.files| <= MAX_ENTRIES
  {
    SavedBank(s, torn);
    hide Validate, Image, Fits;
  }

  /** Two completed saves of such a table leave nothing to load: the restart
      comes up with the built-in files. */
  lemma TwoLargeSavesLoseAll(s: State, torn: Torn, builtin: seq<File>, r0: bool, r1: bool, again: bool)
    requires s.Known() && Fits(s.files, |s.files|) && |s.files| > MAX_ENTRIES
    ensures Boot(Save(Save(s, BANK_SECTORS, torn), BANK_SECTORS, torn), builtin, r0, r1, again).files == builtin
  {
    LargeSaveIsLost(s, torn);
    LargeSaveIsLost(Save(s, BANK_SECTORS, torn), torn);
    hide Validate, Image, Fits, LoadEntries;
  }

  // ---- A restart whose load fails ----

  function Blank(files: seq<File>): State {
    State(Zeros(BANK_BYTES), Zeros(BANK_BYTES), files, 0, -1)
  }

  lemma BlankIsBad()
    ensures Validate(Zeros(BANK_BYTES)).Bad?
  {
  }

  /** Two saves that a new disk takes, in bank 0 and in bank 1. */
  lemma TwoSaves(first: seq<File>, second: seq<File>, torn: Torn)
    requires |first| <= MAX_ENTRIES && Fits(first, |first|) && |second| <= MAX_ENTRIES && Fits(second, |second|)
    ensures var s := Save(Save(Blank(first), BANK_SECTORS, torn).(files := second), BANK_SECTORS, torn);
            Inv(s) && s.active == 1 && s.generation == 2 && s.bank1 == Image(second, 2)
            && Validate(s.bank1) == Good(HEADER, |second|, Total(second), 2)
  {
    hide Validate, Image, Fits;
    var s0 := Blank(first);
    SavedBank(s0, torn);
    SavedBank(Save(s0, BANK_SECTORS, torn).(files := second), torn);
  }

  /** A restart that cannot read starts over with generation 0 and no bank. The
      next save is reported complete, and the restart after it brings back what
      was saved before: a history from a new disk. */
  lemma BlindRestartLosesSave(first: seq<File>, second: seq<File>, third: seq<File>, builtin: seq<File>, torn: Torn)
    requires |first| <= MAX_ENTRIES && Fits(first, |first|) && |second| <= MAX_ENTRIES && Fits(second, |second|)
    requires |third| <= MAX_ENTRIES && Fits(third, |third|) && DistinctNames(second) && Restorable(builtin, second)
    ensures var es := [Saving(BANK_SECTORS, torn), Editing(second), Saving(BANK_SECTORS, torn),
                       Booting(builtin, false, false, false), Editing(third)];
            var m := Run(Blank(first), es);
            var saved := Save(m, BANK_SECTORS, torn);
            && !Newest(m) && saved.active == 0 && saved.bank0 == Image(third, 1)
            && Boot(saved, builtin, true, true, true).files == second
  {
    hide Validate, Image, Fits, Restorable, LoadEntries, Total, Save;
    var s1 := Save(Blank(first), BANK_SECTORS, torn);
    var s2 := Save(s1.(files := second), BANK_SECTORS, torn);
    var es := [Saving(BANK_SECTORS, torn), Editing(second), Saving(BANK_SECTORS, torn),
               Booting(builtin, false, false, false), Editing(third)];
    FiveSteps(Blank(first), es);
    TwoSaves(first, second, torn);
    var m := s2.(files := third, generation := 0, active := -1);
    assert Run(Blank(first), es) == m;
    SavedBank(m, torn);
    BootLoads(Save(m, BANK_SECTORS, torn), builtin, true, true, true);
    Restores(builtin, second, 2);
  }

  lemma FiveSteps(s: State, es: seq<Event>)
    requires |es| == 5
    ensures Run(s, es) == Step(Step(Step(Step(Step(s, es[0]), es[1]), es[2]), es[3]), es[4])
  {
    hide Step;
    assert es[..4][..3] == es[..3] && es[..3][..2] == es[..2] && es[..2][..1] == es[..1] && es[..1][..0] == [];
    assert Run(s, es[..1]) == Step(s, es[0]);
    assert Run(s, es[..2]) == Step(Step(s, es[0]), es[1]);
    assert Run(s, es[..3]) == Step(Step(Step(s, es[0]), es[1]), es[2]);
    assert Run(s, es[..4]) == Step(Step(Step(Step(s, es[0]), es[1]), es[2]), es[3]);
  }

  /** And a save that is interrupted after such a restart can destroy the only
      bank there is: the next restart comes up with the built-in files. */
  lemma BlindCrashLosesAll(files: seq<File>, builtin: seq<File>, torn: Torn)
    requires |files| <= MAX_ENTRIES && Fits(files, |files|) && Fits(builtin, |builtin|)
    requires R32(torn, 0) != MAGIC
    ensures var s := Save(Blank(files), BANK_SECTORS, torn);
            var s' := Boot(Save(Boot(s, builtin, false, false, false), 0, torn), builtin, true, true, true);
            && (DistinctNames(files) && Restorable(builtin, files) ==>
                Boot(s, builtin, true, true, true).files == files)
            && s'.active < 0 && s'.files == builtin
  {
    hide Image, Fits, Restorable, LoadEntries, Total, Validate;
    var s := Save(Blank(files), BANK_SECTORS, torn);
    BlankIsBad();
    SavedBank(Blank(files), torn);
    if DistinctNames(files) {
      SaveThenBoot(Blank(files), torn, builtin, true, true, true);
      OldIsBad(Blank(files));
    }
    TornHeadIsBad(s.bank0, Image(builtin, 1), torn);
  }

  lemma TornHeadIsBad(was: Bank, img: Bank, torn: Torn)
    requires R32(torn, 0) != MAGIC
    ensures Validate(PartlyWritten(was, img, 0, torn)).Bad?
  {
    var b := PartlyWritten(was, img, 0, torn);
    assert b[0] == torn[0] && b[1] == torn[1] && b[2] == torn[2] && b[3] == torn[3];
  }
}
