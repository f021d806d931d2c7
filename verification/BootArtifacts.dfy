/** Copying the discovery kernel, initrd and bootloader entry into the boot folder.

    A run skips everything if it finds all three files; otherwise it prepares (folders, download,
    bootloader text, space) and copies kernel, initrd and entry in this order, each created, written,
    given its permissions and synced before the next. Runs do not overlap. Any step may fail, the
    process may be killed at any step, and the machine may lose power, in which case a file that has
    not been synced may come back missing or with any content.

    A file whose stat fails counts as not there. A stat can fail for other reasons than that, and then
    the run copies over files that exist. The discipline says whether that happens; the promises about
    the order of the copies hold exactly if it does not.
 */
module BootArtifacts {
  import opened Common

  datatype Artifact = Kernel | Initrd | Entry

  datatype File = Missing | Present(content: seq<int>, synced: bool)

  datatype Folder = Folder(kernel: File, initrd: File, entry: File)
  {
    function Get(a: Artifact): File {
      match a case Kernel => kernel case Initrd => initrd case Entry => entry
    }

    function Set(a: Artifact, f: File): Folder {
      match a case Kernel => this.(kernel := f) case Initrd => this.(initrd := f) case Entry => this.(entry := f)
    }
  }

  /** What a run has downloaded and generated, and is to copy. */
  datatype Payload = Payload(kernel: seq<int>, initrd: seq<int>, entry: seq<int>)
  {
    function Get(a: Artifact): seq<int> {
      match a case Kernel => kernel case Initrd => initrd case Entry => entry
    }

    /** The folder with all three files copied and synced. */
    function Installed(): Folder {
      Folder(Present(kernel, true), Present(initrd, true), Present(entry, true))
    }
  }

  datatype CopyPc = Creating | Writing | Permissions | Syncing

  datatype Pc =
    | Idle
    | Checking(payload: Payload)
    | Preparing(payload: Payload, stage: nat)
    | Copying(payload: Payload, artifact: Artifact, copy: CopyPc)

  const PREPARATIONS := 4

  /** `origin` is the payload of the run that created the bootloader entry, `written` how much of the
      entry that run wrote, and `shaken` whether the power failed before it had synced the entry. */
  datatype State = State(folder: Folder, pc: Pc, origin: Option<Payload>, written: nat, shaken: bool)

  /** `misread`: the stat of some file fails although the file exists. */
  datatype Event =
    | Start(payload: Payload)
    | Check(misread: bool)
    | Prepare
    | Create
    | Write(count: nat)
    | WriteEnd
    | Chmod
    | Sync
    | Fail
    | Kill
    | PowerLoss(folder: Folder)

  /** What may happen: whether the stat of an existing file may fail. */
  datatype Discipline = Discipline(statErrors: bool)

  function Init(): State {
    State(Folder(Missing, Missing, Missing), Idle, None, 0, false)
  }

  predicate NothingPresent(f: Folder) {
    f.kernel.Missing? && f.initrd.Missing? && f.entry.Missing?
  }

  predicate AllPresent(f: Folder) {
    f.kernel.Present? && f.initrd.Present? && f.entry.Present?
  }

  /** What may become of a file when the power fails. */
  predicate Survives(before: File, after: File) {
    match before
    case Missing => after == Missing
    case Present(_, true) => after == before
    case Present(_, false) => after.Present? ==> after.synced
  }

  predicate Enabled(d: Discipline, s: State, e: Event) {
    match e
    case Start(_) => s.pc.Idle?
    case Check(misread) => s.pc.Checking? && (misread ==> d.statErrors && !NothingPresent(s.folder))
    case Prepare => s.pc.Preparing?
    case Create => s.pc.Copying? && s.pc.copy == Creating
    case Write(count) =>
      && s.pc.Copying? && s.pc.copy == Writing
      && var f := s.folder.Get(s.pc.artifact);
         f.Present? && |f.content| + count <= |s.pc.payload.Get(s.pc.artifact)|
    case WriteEnd =>
      && s.pc.Copying? && s.pc.copy == Writing
      && var f := s.folder.Get(s.pc.artifact);
         f.Present? && f.content == s.pc.payload.Get(s.pc.artifact)
    case Chmod => s.pc.Copying? && s.pc.copy == Permissions
    case Sync => s.pc.Copying? && s.pc.copy == Syncing && s.folder.Get(s.pc.artifact).Present?
    case Fail => !s.pc.Idle? && !s.pc.Checking?
    case Kill => !s.pc.Idle?
    case PowerLoss(f) =>
      && Survives(s.folder.kernel, f.kernel) && Survives(s.folder.initrd, f.initrd) && Survives(s.folder.entry, f.entry)
  }

  function Apply(d: Discipline, s: State, e: Event): State
    requires Enabled(d, s, e)
  {
    match e
    case Start(payload) => s.(pc := Checking(payload))
    case Check(misread) => s.(pc := if AllPresent(s.folder) && !misread then Idle else Preparing(s.pc.payload, 0))
    case Prepare =>
      s.(pc := if s.pc.stage + 1 < PREPARATIONS then Preparing(s.pc.payload, s.pc.stage + 1)
               else Copying(s.pc.payload, Kernel, Creating))
    case Create =>
      s.(folder := s.folder.Set(s.pc.artifact, Present([], false)),
         pc := Copying(s.pc.payload, s.pc.artifact, Writing),
         origin := if s.pc.artifact == Entry then Some(s.pc.payload) else s.origin,
         written := if s.pc.artifact == Entry then 0 else s.written,
         shaken := if s.pc.artifact == Entry then false else s.shaken)
    case Write(count) =>
      var f, source := s.folder.Get(s.pc.artifact), s.pc.payload.Get(s.pc.artifact);
      s.(folder := s.folder.Set(s.pc.artifact, Present(f.content + source[|f.content|..|f.content| + count], false)),
         written := if s.pc.artifact == Entry then s.written + count else s.written)
    case WriteEnd => s.(pc := Copying(s.pc.payload, s.pc.artifact, Permissions))
    case Chmod => s.(pc := Copying(s.pc.payload, s.pc.artifact, Syncing))
    case Sync =>
      s.(folder := s.folder.Set(s.pc.artifact, s.folder.Get(s.pc.artifact).(synced := true)),
         pc := match s.pc.artifact
               case Kernel => Copying(s.pc.payload, Initrd, Creating)
               case Initrd => Copying(s.pc.payload, Entry, Creating)
               case Entry => Idle)
    case Fail => s.(pc := Idle)
    case Kill => s.(pc := Idle)
    case PowerLoss(folder) =>
      s.(folder := folder, pc := Idle,
         shaken := s.shaken || (s.folder.entry.Present? && !s.folder.entry.synced))
  }

  ghost predicate Valid(d: Discipline, s: State, events: seq<Event>)
    decreases |events|
  {
    events == [] || (Enabled(d, s, events[0]) && Valid(d, Apply(d, s, events[0]), events[1..]))
  }

  ghost function After(d: Discipline, s: State, events: seq<Event>): State
    requires Valid(d, s, events)
    decreases |events|
  {
    if events == [] then s else After(d, Apply(d, s, events[0]), events[1..])
  }

  ghost predicate Reachable(d: Discipline, s: State) {
    exists events :: Valid(d, Init(), events) && After(d, Init(), events) == s
  }

  // ----- the invariants -----

  /** A file is a full copy of its source and has reached the disk. */
  predicate Copied(s: State, payload: Payload, a: Artifact) {
    s.folder.Get(a) == Present(payload.Get(a), true)
  }

  predicate Prefix(content: seq<int>, source: seq<int>, count: nat) {
    count <= |source| && content == source[..count]
  }

  /** The entry is as much of its source as the run that created it wrote, whatever stats say. */
  predicate EntryInv(s: State) {
    && (s.folder.entry.Present? ==>
          s.origin.Some? && (s.shaken || Prefix(s.folder.entry.content, s.origin.value.entry, s.written)))
    && (s.pc.Copying? && s.pc.artifact == Entry && s.pc.copy != Creating ==>
          s.folder.entry.Present? && s.origin == Some(s.pc.payload) && !s.shaken)
  }

  lemma EntryInvKept(d: Discipline, s: State, e: Event)
    requires EntryInv(s) && Enabled(d, s, e)
    ensures EntryInv(Apply(d, s, e))
  {
    if e.Write? && s.pc.artifact == Entry {
      var f, source := s.folder.entry, s.pc.payload.entry;
      assert f.content + source[|f.content|..|f.content| + e.count] == source[..|f.content| + e.count];
    }
  }

  /** How far the file being copied is. */
  predicate Progress(f: File, source: seq<int>, copy: CopyPc) {
    match copy
    case Creating => true
    case Writing => f.Present? && f.content <= source
    case Permissions => f.Present? && f.content == source
    case Syncing => f.Present? && f.content == source
  }

  /** The order of the copies, as long as no stat of an existing file fails. */
  predicate Inv(s: State) {
    && (s.folder.entry.Present? ==>
          s.origin.Some? && Copied(s, s.origin.value, Kernel) && Copied(s, s.origin.value, Initrd))
    && match s.pc
       case Idle => true
       case Checking(_) => true
       case Preparing(_, stage) => stage < PREPARATIONS && s.folder.entry.Missing?
       case Copying(payload, artifact, copy) =>
         && Progress(s.folder.Get(artifact), payload.Get(artifact), copy)
         && (artifact == Entry && copy != Creating ==> s.origin == Some(payload))
         && (artifact != Entry || copy == Creating ==> s.folder.entry.Missing?)
         && (artifact != Kernel ==> Copied(s, payload, Kernel))
         && (artifact == Entry ==> Copied(s, payload, Initrd))
  }

  lemma InvKept(d: Discipline, s: State, e: Event)
    requires !d.statErrors && Inv(s) && Enabled(d, s, e)
    ensures Inv(Apply(d, s, e))
  {
    if e.Write? {
      var f, source := s.folder.Get(s.pc.artifact), s.pc.payload.Get(s.pc.artifact);
      assert f.content + source[|f.content|..|f.content| + e.count] == source[..|f.content| + e.count];
    }
  }

  lemma {:induction false} InvAlways(d: Discipline, s: State, events: seq<Event>)
    requires EntryInv(s) && Valid(d, s, events)
    ensures EntryInv(After(d, s, events))
    ensures !d.statErrors && Inv(s) ==> Inv(After(d, s, events))
    decreases |events|
  {
    if events != [] {
      EntryInvKept(d, s, events[0]);
      if !d.statErrors && Inv(s) { InvKept(d, s, events[0]); }
      InvAlways(d, Apply(d, s, events[0]), events[1..]);
    }
  }

  lemma ReachableInv(d: Discipline, s: State)
    requires Reachable(d, s)
    ensures EntryInv(s)
    ensures !d.statErrors ==> Inv(s)
  {
    var events :| Valid(d, Init(), events) && After(d, Init(), events) == s;
    InvAlways(d, Init(), events);
  }

  // ----- the order of the copies -----

  /** Whatever runs, failures, kills and power losses came before, a bootloader entry exists only
      beside a kernel and an initrd that are full, synced copies of what the same run downloaded. */
  lemma EntryComesLast(d: Discipline, s: State)
    requires !d.statErrors && Reachable(d, s) && s.folder.entry.Present?
    ensures s.origin.Some?
    ensures s.folder.kernel == Present(s.origin.value.kernel, true)
    ensures s.folder.initrd == Present(s.origin.value.initrd, true)
  {
    ReachableInv(d, s);
  }

  /** The "already present" shortcut never skips over an incomplete kernel or initrd, and is taken
      exactly when the bootloader entry exists. */
  lemma ShortcutIsSafe(d: Discipline, s: State)
    requires !d.statErrors && Reachable(d, s)
    ensures AllPresent(s.folder) <==> s.folder.entry.Present?
    ensures AllPresent(s.folder) ==>
              s.origin.Some? && Copied(s, s.origin.value, Kernel) && Copied(s, s.origin.value, Initrd)
  {
    ReachableInv(d, s);
  }

  // ----- what a run achieves -----

  lemma NothingYet(d: Discipline, s: State)
    ensures Valid(d, s, []) && After(d, s, []) == s
  {
  }

  lemma Step(d: Discipline, s: State, events: seq<Event>, t: State, e: Event)
    returns (longer: seq<Event>, u: State)
    requires Valid(d, s, events) && After(d, s, events) == t && Enabled(d, t, e)
    ensures u == Apply(d, t, e) && Valid(d, s, longer) && After(d, s, longer) == u
    ensures longer == events + [e]
    decreases |events|
  {
    longer, u := events + [e], Apply(d, t, e);
    if events == [] {
      assert longer == [e] && longer[1..] == [];
    } else {
      var tail, _ := Step(d, Apply(d, s, events[0]), events[1..], t, e);
      assert longer[1..] == tail;
    }
  }

  function CopyEvents(size: nat): seq<Event> {
    [Create, Write(size), WriteEnd, Chmod, Sync]
  }

  /** The uninterrupted, successful copying of one file. */
  lemma CopyFile(d: Discipline, s: State, events: seq<Event>, t: State) returns (longer: seq<Event>, u: State)
    requires Valid(d, s, events) && After(d, s, events) == t
    requires t.pc.Copying? && t.pc.copy == Creating
    ensures Valid(d, s, longer) && After(d, s, longer) == u
    ensures longer == events + CopyEvents(|t.pc.payload.Get(t.pc.artifact)|)
    ensures u.folder == t.folder.Set(t.pc.artifact, Present(t.pc.payload.Get(t.pc.artifact), true))
    ensures u.pc == match t.pc.artifact
                    case Kernel => Copying(t.pc.payload, Initrd, Creating)
                    case Initrd => Copying(t.pc.payload, Entry, Creating)
                    case Entry => Idle
  {
    hide Valid, After;
    var source := t.pc.payload.Get(t.pc.artifact);
    longer, u := Step(d, s, events, t, Create);
    longer, u := Step(d, s, longer, u, Write(|source|));
    assert [] + source[0..|source|] == source;
    longer, u := Step(d, s, longer, u, WriteEnd);
    longer, u := Step(d, s, longer, u, Chmod);
    longer, u := Step(d, s, longer, u, Sync);
  }

  /** A run up to its first copy, taken when not all files are there or one is misread. */
  lemma BeginCopying(d: Discipline, s: State, events: seq<Event>, t: State, payload: Payload, misread: bool)
    returns (longer: seq<Event>, u: State)
    requires Valid(d, s, events) && After(d, s, events) == t && t.pc.Idle?
    requires misread ==> d.statErrors && !NothingPresent(t.folder)
    requires misread || !AllPresent(t.folder)
    ensures Valid(d, s, longer) && After(d, s, longer) == u
    ensures longer == events + ([Start(payload)] + Preparation(misread))
    ensures u == t.(pc := Copying(payload, Kernel, Creating))
  {
    hide Valid, After;
    longer, u := Step(d, s, events, t, Start(payload));
    longer, u := Step(d, s, longer, u, Check(misread));
    longer, u := Step(d, s, longer, u, Prepare);
    longer, u := Step(d, s, longer, u, Prepare);
    longer, u := Step(d, s, longer, u, Prepare);
    longer, u := Step(d, s, longer, u, Prepare);
  }

  function Preparation(misread: bool): seq<Event> {
    [Check(misread), Prepare, Prepare, Prepare, Prepare]
  }

  /** The events after the start of a run that nothing interrupts and that does not take the shortcut. */
  function FullRun(payload: Payload, misread: bool): seq<Event> {
    Preparation(misread)
    + CopyEvents(|payload.kernel|) + CopyEvents(|payload.initrd|) + CopyEvents(|payload.entry|)
  }

  /** An uninterrupted run that does not take the shortcut installs its payload, whatever earlier runs
      left behind. */
  lemma RunInstalls(d: Discipline, s: State, payload: Payload, misread: bool)
    requires s.pc.Idle? && (misread ==> d.statErrors && !NothingPresent(s.folder))
    requires misread || s.folder.kernel.Missing? || s.folder.initrd.Missing? || s.folder.entry.Missing?
    ensures var run := [Start(payload)] + FullRun(payload, misread);
            && Valid(d, s, run) && After(d, s, run).folder == payload.Installed() && After(d, s, run).pc.Idle?
  {
    hide Valid, After, CopyEvents, Preparation;
    NothingYet(d, s);
    var events: seq<Event>, t := [], s;
    events, t := BeginCopying(d, s, events, t, payload, misread);
    events, t := CopyFile(d, s, events, t);
    events, t := CopyFile(d, s, events, t);
    events, t := CopyFile(d, s, events, t);
    assert events == [Start(payload)] + FullRun(payload, misread);
  }

  ghost predicate NoPowerLoss(events: seq<Event>) {
    forall i | 0 <= i < |events| :: !events[i].PowerLoss?
  }

  /** A run that finds all three files, and misreads none, ends there and then. */
  lemma ShortcutTaken(d: Discipline, s: State, payload: Payload)
    requires s.pc.Idle? && s.folder.kernel.Present? && s.folder.initrd.Present? && s.folder.entry.Present?
    ensures Valid(d, s, [Start(payload), Check(false)]) && After(d, s, [Start(payload), Check(false)]) == s
  {
    var a, b := Start(payload), Check(false);
    var s1 := Apply(d, s, a);
    assert [a, b][1..] == [b] && [b][1..] == [];
    assert Enabled(d, s1, b) && Apply(d, s1, b) == s;
    NothingYet(d, s);
    assert Valid(d, s1, [b]) && After(d, s1, [b]) == s;
  }

  /** A run that fails or is killed leaves the folder as it is, and as long as it has not created the entry
      a later run can start over and install its payload. */
  lemma InterruptedCanRetry(d: Discipline, s: State, payload: Payload)
    requires s.pc.Preparing? || s.pc.Copying?
    ensures Enabled(d, s, Fail) && Enabled(d, s, Kill)
    ensures Apply(d, s, Fail).folder == s.folder && Apply(d, s, Kill).folder == s.folder
    ensures s.folder.entry.Missing? ==>
              var run := [Start(payload)] + FullRun(payload, false);
              && Valid(d, Apply(d, s, Fail), run) && After(d, Apply(d, s, Fail), run).folder == payload.Installed()
              && Valid(d, Apply(d, s, Kill), run) && After(d, Apply(d, s, Kill), run).folder == payload.Installed()
  {
    hide Valid, After, FullRun;
    if s.folder.entry.Missing? {
      RunInstalls(d, Apply(d, s, Fail), payload, false);
      RunInstalls(d, Apply(d, s, Kill), payload, false);
    }
  }

  lemma FullRunKeepsPower(payload: Payload, misread: bool)
    ensures NoPowerLoss(FullRun(payload, misread))
  {
    var a, b := Preparation(misread), CopyEvents(|payload.kernel|);
    var c, e := CopyEvents(|payload.initrd|), CopyEvents(|payload.entry|);
    assert NoPowerLoss(a) && NoPowerLoss(b) && NoPowerLoss(c) && NoPowerLoss(e);
    hide Preparation, CopyEvents;
    assert FullRun(payload, misread) == a + b + c + e;
  }

  /** Once a bootloader entry exists and no copy is under way, no run touches the folder again: every
      later run takes the shortcut. */
  lemma {:induction false} EntryFreezesFolder(d: Discipline, s: State, events: seq<Event>)
    requires !d.statErrors && Inv(s) && s.folder.entry.Present? && (s.pc.Idle? || s.pc.Checking?)
    requires Valid(d, s, events) && NoPowerLoss(events)
    ensures After(d, s, events).folder == s.folder
    decreases |events|
  {
    if events != [] {
      InvKept(d, s, events[0]);
      assert !events[0].PowerLoss?;
      assert forall i | 0 <= i < |events[1..]| :: events[1..][i] == events[i + 1];
      EntryFreezesFolder(d, Apply(d, s, events[0]), events[1..]);
    }
  }

  /** Some run of the payload, followed by any number of others, leaves it in the folder. */
  ghost predicate CanInstall(d: Discipline, s: State, payload: Payload) {
    exists events :: Valid(d, s, [Start(payload)] + events) && NoPowerLoss(events)
                     && After(d, s, [Start(payload)] + events).folder == payload.Installed()
  }

  /** A payload can get into the folder exactly if there is no bootloader entry, or the folder already
      holds that payload, or a stat of an existing file may fail. */
  lemma RunInstallsIff(d: Discipline, s: State, payload: Payload)
    requires Reachable(d, s) && s.pc.Idle?
    ensures CanInstall(d, s, payload)
            <==> s.folder.entry.Missing? || s.folder == payload.Installed() || d.statErrors
  {
    hide Valid, After, FullRun, NoPowerLoss;
    ReachableInv(d, s);
    if s.folder.entry.Missing? || d.statErrors {
      var misread := s.folder.entry.Present?;
      RunInstalls(d, s, payload, misread);
      FullRunKeepsPower(payload, misread);
    } else {
      FrozenInstalls(d, s, payload);
    }
  }

  lemma FrozenInstalls(d: Discipline, s: State, payload: Payload)
    requires !d.statErrors && Inv(s) && s.pc.Idle? && s.folder.entry.Present?
    ensures CanInstall(d, s, payload) <==> s.folder == payload.Installed()
  {
    var first := [Start(payload)];
    forall events | Valid(d, s, first + events) && NoPowerLoss(events)
      ensures After(d, s, first + events).folder == s.folder
    {
      forall i | 0 <= i < |first + events|
        ensures !(first + events)[i].PowerLoss?
      {
        if i >= 1 { assert (first + events)[i] == events[i - 1]; }
      }
      EntryFreezesFolder(d, s, first + events);
    }
    assert first + [] == first && first[1..] == [];
    assert Valid(d, s, first + []) && NoPowerLoss([]);
  }

  // ----- stats that fail -----

  /** The entry comes last in every run. */
  ghost predicate OrderHolds(d: Discipline) {
    forall s | Reachable(d, s) && s.folder.entry.Present? ::
      s.origin.Some? && Copied(s, s.origin.value, Kernel) && Copied(s, s.origin.value, Initrd)
  }

  /** A failing stat lets a run copy over an installed folder; if it is killed right after it created the
      kernel, the entry and the old initrd are there beside an empty kernel, and the next run takes the
      shortcut over it. */
  lemma MisreadBreaksOrder(d: Discipline, payload: Payload)
    requires d.statErrors
    ensures exists s :: Reachable(d, s) && s.pc.Idle? && AllPresent(s.folder) && s.origin == Some(payload)
                        && s.folder == payload.Installed().(kernel := Present([], false))
  {
    var events, t := EntryCreated(d, payload);
    events, t := FinishEntry(d, payload, events, t);
    events, t := BeginCopying(d, Init(), events, t, payload, true);
    events, t := Step(d, Init(), events, t, Create);
    events, t := Step(d, Init(), events, t, Kill);
    assert Reachable(d, t);
  }

  /** The entry comes last, and the shortcut is safe, in every run exactly if no stat of an existing file
      fails. */
  lemma OrderHoldsIff(d: Discipline)
    ensures OrderHolds(d) <==> !d.statErrors
  {
    if d.statErrors {
      MisreadBreaksOrder(d, Payload([0], [], []));
    } else {
      forall s | Reachable(d, s) && s.folder.entry.Present?
        ensures s.origin.Some? && Copied(s, s.origin.value, Kernel) && Copied(s, s.origin.value, Initrd)
      {
        ReachableInv(d, s);
      }
    }
  }

  // ----- the entry itself -----

  /** What the shortcut accepts need not have a complete bootloader entry. Unless the power failed while
      the entry was on its way to the disk, the entry is as much of its source as the run that created
      it wrote, and so complete exactly if that run wrote all of it. */
  lemma EntryCompleteIff(d: Discipline, s: State)
    requires Reachable(d, s) && s.folder.entry.Present? && !s.shaken
    ensures s.origin.Some? && s.written <= |s.origin.value.entry|
    ensures s.folder.entry.content == s.origin.value.entry[..s.written]
    ensures s.folder.entry.content == s.origin.value.entry <==> s.written == |s.origin.value.entry|
  {
    ReachableInv(d, s);
    if s.written == |s.origin.value.entry| {
      assert s.origin.value.entry[..s.written] == s.origin.value.entry;
    }
  }

  /** Where the records of a state come from: the origin of the entry started a run, and the entry is
      shaken only if the power failed while it was there and not synced. */
  lemma {:induction false} RecordsMean(d: Discipline, s: State, events: seq<Event>)
    requires Valid(d, s, events)
    ensures var t := After(d, s, events);
            && (t.origin.Some? ==> t.origin == s.origin || Started(s, events, t.origin.value))
            && (!t.pc.Idle? ==> Started(s, events, t.pc.payload))
            && (t.shaken ==> s.shaken || PowerLostAtEntry(d, s, events))
    decreases |events|
  {
    if events != [] {
      var e, u := events[0], Apply(d, s, events[0]);
      RecordsMean(d, u, events[1..]);
      assert events == [e] + events[1..];
      StartedEarlier(s, e, u, events[1..]);
    }
  }

  /** A run of the payload is under way, or starts among the events. */
  ghost predicate Started(s: State, events: seq<Event>, payload: Payload) {
    (!s.pc.Idle? && s.pc.payload == payload) || Start(payload) in events
  }

  lemma StartedEarlier(s: State, e: Event, u: State, rest: seq<Event>)
    requires !u.pc.Idle? ==> (!s.pc.Idle? && s.pc.payload == u.pc.payload) || e == Start(u.pc.payload)
    ensures forall p | Started(u, rest, p) :: Started(s, [e] + rest, p)
  {
  }

  ghost predicate PowerLostAtEntry(d: Discipline, s: State, events: seq<Event>)
    requires Valid(d, s, events)
    decreases |events|
  {
    events != [] &&
    ( || (events[0].PowerLoss? && s.folder.entry.Present? && !s.folder.entry.synced)
      || PowerLostAtEntry(d, Apply(d, s, events[0]), events[1..]))
  }

  /** The entry of this payload is empty, everything else is in place, and no later run changes that. */
  ghost predicate TornForGood(d: Discipline, s: State, payload: Payload) {
    && s.pc.Idle? && s.origin == Some(payload) && s.written == 0 && !s.shaken
    && Copied(s, payload, Kernel) && Copied(s, payload, Initrd) && s.folder.entry == Present([], false)
    && forall later | Valid(d, s, later) && NoPowerLoss(later) :: After(d, s, later).folder == s.folder
  }

  /** The start of a run from the empty folder, up to the creation of the entry. */
  lemma EntryCreated(d: Discipline, payload: Payload) returns (events: seq<Event>, t: State)
    ensures Valid(d, Init(), events) && After(d, Init(), events) == t
    ensures t.folder == payload.Installed().(entry := Present([], false))
    ensures t.pc == Copying(payload, Entry, Writing) && t.origin == Some(payload) && t.written == 0 && !t.shaken
  {
    hide Valid, After;
    NothingYet(d, Init());
    events, t := [], Init();
    events, t := BeginCopying(d, Init(), events, t, payload, false);
    events, t := CopyFile(d, Init(), events, t);
    events, t := CopyFile(d, Init(), events, t);
    events, t := Step(d, Init(), events, t, Create);
  }

  /** The rest of that run. */
  lemma FinishEntry(d: Discipline, payload: Payload, events: seq<Event>, t: State)
    returns (longer: seq<Event>, u: State)
    requires Valid(d, Init(), events) && After(d, Init(), events) == t
    requires t.folder == payload.Installed().(entry := Present([], false))
    requires t.pc == Copying(payload, Entry, Writing) && t.origin == Some(payload)
    ensures Valid(d, Init(), longer) && After(d, Init(), longer) == u
    ensures u.folder == payload.Installed() && u.pc.Idle? && u.origin == Some(payload)
  {
    hide Valid, After;
    longer, u := Step(d, Init(), events, t, Write(|payload.entry|));
    assert [] + payload.entry[0..|payload.entry|] == payload.entry;
    longer, u := Step(d, Init(), longer, u, WriteEnd);
    longer, u := Step(d, Init(), longer, u, Chmod);
    longer, u := Step(d, Init(), longer, u, Sync);
  }

  /** A run killed right after it created the bootloader entry leaves an empty entry behind that all
      later runs accept without repairing it. */
  lemma TornEntryStays(d: Discipline, payload: Payload)
    requires !d.statErrors
    ensures exists events :: Valid(d, Init(), events) && TornForGood(d, After(d, Init(), events), payload)
  {
    var events, t := EntryCreated(d, payload);
    events, t := Step(d, Init(), events, t, Kill);
    InvAlways(d, Init(), events);
    forall later | Valid(d, t, later) && NoPowerLoss(later)
      ensures After(d, t, later).folder == t.folder
    {
      EntryFreezesFolder(d, t, later);
    }
    assert TornForGood(d, t, payload);
  }

  /** If the power fails then, nothing can be said of the entry: it may come back with any content. */
  lemma ShakenEntryIsAnything(d: Discipline, payload: Payload, content: seq<int>)
    ensures exists s :: Reachable(d, s) && s.shaken && s.pc.Idle? && s.origin == Some(payload)
                        && s.folder == payload.Installed().(entry := Present(content, true))
  {
    var events, t := EntryCreated(d, payload);
    var folder := payload.Installed().(entry := Present(content, true));
    events, t := Step(d, Init(), events, t, PowerLoss(folder));
    assert Reachable(d, t);
  }
}
