/** Where the app keeps a secret note until the user has saved it: one browser-storage entry per note.

  Several tabs share the storage and each storage call is atomic, so a tab is a program of storage calls
  interleaved with every other tab's. Any call may fail and any tab may disappear between two calls.
*/
module NoteVault {
  import opened Field
  import NoteCodec

  predicate IsNoteText(s: string) { NoteCodec.NOTE_PREFIX <= s }

  lemma NoteTextsBegin(s: string)
    ensures IsNoteText(s) <==> |s| >= 5 && s[..5] == "sndo_"
  {
    var prefix := "sndo_";
    assert |prefix| == 5;
  }

  /** Every note the app generates passes the vault's own test. */
  lemma EncodedNotesAreNotes<A>(b58: NoteCodec.Base58<A>, note: NoteCodec.Note<A>)
    ensures IsNoteText(NoteCodec.EncodeNote(b58, note))
  {}

  datatype Status = Unsent | Sent | Confirmed

  datatype PendingNote = PendingNote(
    note: string, poolAddress: string, denominationSol: real, signature: Option<string>,
    status: Status, createdAt: nat, sentAt: Option<nat>, session: Option<string>)
  {
    predicate IsNote() { IsNoteText(note) }
  }

  /** What a per-note key holds: something that does not parse to an entry, or an entry. */
  datatype Content = Junk | Entry(entry: PendingNote)

  /** The two keys under which earlier builds kept all notes in one array. */
  datatype ArrayKey = Legacy | Array

  /** What an array key holds; `None` items are not notes. */
  datatype Raw = Unparsable | NotAnArray | Items(items: seq<Option<PendingNote>>)

  datatype Storage = Storage(own: map<string, Content>, arrays: map<ArrayKey, Raw>)
  {
    function Put(n: PendingNote): Storage { this.(own := own[n.note := Entry(n)]) }
    function Drop(note: string): Storage { this.(own := own - {note}) }
    function DropArray(key: ArrayKey): Storage { this.(arrays := arrays - {key}) }

    /** The note can be read back from its own key. */
    predicate Filed(note: string) {
      note in own && own[note].Entry? && own[note].entry.note == note && IsNoteText(note)
    }

    predicate InArray(key: ArrayKey, note: string) {
      key in arrays && arrays[key].Items? && Mentions(Notes(arrays[key].items), note)
    }

    /** The note is somewhere in storage: under its own key or in an array yet to be carried over. */
    predicate Stored(note: string) { Filed(note) || InArray(Legacy, note) || InArray(Array, note) }
  }

  predicate Mentions(notes: seq<PendingNote>, note: string) { exists i :: 0 <= i < |notes| && notes[i].note == note }

  /** The items of an array that are notes. */
  function Notes(items: seq<Option<PendingNote>>): seq<PendingNote> {
    if items == [] then []
    else if items[0].Some? && items[0].value.IsNote() then [items[0].value] + Notes(items[1..])
    else Notes(items[1..])
  }

  lemma {:induction false} NotesAreNotes(items: seq<Option<PendingNote>>)
    ensures forall i :: 0 <= i < |Notes(items)| ==> Notes(items)[i].IsNote()
  {
    if items != [] { NotesAreNotes(items[1..]); }
  }

  // ---------------------------------------------------------------- status updates

  datatype Update = Update(status: Status, signature: Option<string>, now: nat)

  /** `markNoteStatus` applied to the entry it read. */
  function Marked(n: PendingNote, u: Update): PendingNote {
    n.(status := u.status,
       signature := if u.signature.Some? then u.signature else n.signature,
       sentAt := if u.status == Unsent || n.sentAt.Some? then n.sentAt else Some(u.now))
  }

  function MarkedAll(n: PendingNote, updates: seq<Update>): PendingNote {
    if updates == [] then n
    else
      Marked(MarkedAll(n, updates[..|updates| - 1]), updates[|updates| - 1])
  }

  ghost predicate FirstSend(updates: seq<Update>, k: nat) {
    k < |updates| && updates[k].status != Unsent && forall i :: 0 <= i < k ==> updates[i].status == Unsent
  }

  /** The clock that decides when a deposit is overdue starts at the first transition out of `unsent` and no
    later update moves it; a known signature is never forgotten; the status is that of the last update; nothing
    else about the note changes. */
  lemma {:induction false} ClockStartsAtFirstSend(n: PendingNote, updates: seq<Update>)
    ensures var m := MarkedAll(n, updates);
      && m.note == n.note && m.createdAt == n.createdAt && m.poolAddress == n.poolAddress && m.session == n.session
      && m.denominationSol == n.denominationSol
      && (n.sentAt.Some? ==> m.sentAt == n.sentAt)
      && (n.sentAt.None? ==> forall k: nat :: FirstSend(updates, k) ==> m.sentAt == Some(updates[k].now))
      && (n.sentAt.None? && (forall i :: 0 <= i < |updates| ==> updates[i].status == Unsent) ==> m.sentAt.None?)
      && (n.signature.Some? ==> m.signature.Some?)
      && (updates != [] ==> m.status == updates[|updates| - 1].status)
  {
    if updates != [] {
      var init, last := updates[..|updates| - 1], updates[|updates| - 1];
      ClockStartsAtFirstSend(n, init);
      forall k: nat | FirstSend(updates, k) && k < |init|
        ensures FirstSend(init, k)
      {}
    }
  }

  ghost predicate LastSigned(updates: seq<Update>, k: nat) {
    k < |updates| && updates[k].signature.Some? && forall i :: k < i < |updates| ==> updates[i].signature.None?
  }

  /** The signature is the last one given, or the note's own if none was. */
  lemma {:induction false} SignatureIsLastGiven(n: PendingNote, updates: seq<Update>)
    ensures forall k: nat :: LastSigned(updates, k) ==> MarkedAll(n, updates).signature == updates[k].signature
    ensures (forall i :: 0 <= i < |updates| ==> updates[i].signature.None?) ==>
      MarkedAll(n, updates).signature == n.signature
  {
    if updates != [] {
      var init := updates[..|updates| - 1];
      SignatureIsLastGiven(n, init);
      assert forall i :: 0 <= i < |init| ==> init[i] == updates[i];
      forall k: nat | LastSigned(updates, k) && k < |init|
        ensures LastSigned(init, k)
      {}
    }
  }

  // ---------------------------------------------------------------- tabs

  datatype Task =
    | Look
    | Stage(entry: PendingNote)
    | Mark(note: string, update: Update)
    | Clear(note: string)

  /** Where a tab is. `Between`: it has array keys left to look at before its task goes on. `Carrying`: it has
    read the array under `key` and has `todo` left to carry over; `absent` once it has seen that the first of
    them has no entry of its own. */
  datatype Tab =
    | Idle
    | Between(keys: seq<ArrayKey>, task: Task)
    | Carrying(key: ArrayKey, todo: seq<PendingNote>, absent: bool, keys: seq<ArrayKey>, task: Task)
    | Saving(entry: PendingNote)
    | Removing(note: string)

  function Begin(task: Task): Tab {
    match task
    case Look => Between([Legacy, Array], task)
    case Mark(_, _) => Between([Legacy, Array], task)
    case Stage(entry) => Saving(entry)
    case Clear(note) => Removing(note)
  }

  /** One storage call of a tab; `ok` is whether the call succeeds. */
  function Advance(s: Storage, tab: Tab, ok: bool): (Storage, Tab) {
    match tab
    case Idle => (s, Idle)
    case Between(keys, task) =>
      if keys != [] then (s, if ok then ReadArray(s, keys[0], keys[1..], task) else Between(keys[1..], task))
      else if ok && task.Mark? && task.note in s.own && s.own[task.note].Entry? && s.own[task.note].entry.IsNote() then
        (s, Saving(Marked(s.own[task.note].entry, task.update)))
      else (s, Idle)
    case Carrying(key, todo, absent, keys, task) =>
      if !ok then (s, Between(keys, task))
      else if todo == [] then (s.DropArray(key), Between(keys, task))
      else if absent then (s.Put(todo[0]), Carrying(key, todo[1..], false, keys, task))
      else if todo[0].note in s.own then (s, Carrying(key, todo[1..], false, keys, task))
      else (s, Carrying(key, todo, true, keys, task))
    case Saving(entry) => (if ok then s.Put(entry) else s, Idle)
    case Removing(note) => (if ok then s.Drop(note) else s, Idle)
  }

  function ReadArray(s: Storage, key: ArrayKey, keys: seq<ArrayKey>, task: Task): Tab {
    if key !in s.arrays then Between(keys, task)
    else match s.arrays[key]
      case Unparsable => Between(keys, task)
      case NotAnArray => Carrying(key, [], false, keys, task)
      case Items(items) => Carrying(key, Notes(items), false, keys, task)
  }

  datatype State = State(storage: Storage, tabs: map<nat, Tab>)
  {
    function TabOf(t: nat): Tab { if t in tabs then tabs[t] else Idle }
  }

  /** `Start`: an idle tab takes up a task; a busy one runs to completion first, so nothing happens. */
  datatype Step = Start(t: nat, task: Task) | Call(t: nat, ok: bool) | Crash(t: nat)

  function Next(s: State, step: Step): State {
    match step
    case Start(t, task) => if s.TabOf(t).Idle? then s.(tabs := s.tabs[t := Begin(task)]) else s
    case Call(t, ok) =>
      var (storage, tab) := Advance(s.storage, s.TabOf(t), ok);
      State(storage, s.tabs[t := tab])
    case Crash(t) => s.(tabs := s.tabs[t := Idle])
  }

  function Run(s: State, steps: seq<Step>): State
    decreases |steps|
  {
    if steps == [] then s else Run(Next(s, steps[0]), steps[1..])
  }

  // ---------------------------------------------------------------- no note is lost

  /** A tab that carries over an array still holding the note either has it left to do or has filed it; and no
    tab is about to remove it. */
  predicate TabIsSafe(s: Storage, tab: Tab, note: string) {
    && tab != Removing(note)
    && (tab.Carrying? && s.InArray(tab.key, note) && !s.Filed(note) ==> Mentions(tab.todo, note))
  }

  /** What every step keeps for a note nobody clears. */
  ghost predicate Safe(s: State, note: string) {
    && s.storage.Stored(note)
    && IsNoteText(note) && (note in s.storage.own ==> s.storage.Filed(note))
    && forall t :: TabIsSafe(s.storage, s.TabOf(t), note)
  }

  lemma DropFirst(todo: seq<PendingNote>, note: string)
    requires todo != [] && Mentions(todo, note) && todo[0].note != note
    ensures Mentions(todo[1..], note)
  {
    var i :| 0 <= i < |todo| && todo[i].note == note;
    assert todo[1..][i - 1] == todo[i];
  }

  /** One storage call of one tab keeps the note, and what it does cannot endanger it in another tab. */
  lemma CallKeeps(s: Storage, tab: Tab, ok: bool, note: string)
    requires s.Stored(note) && IsNoteText(note) && (note in s.own ==> s.Filed(note)) && TabIsSafe(s, tab, note)
    ensures var (after, next) := Advance(s, tab, ok);
      && after.Stored(note) && (note in after.own ==> after.Filed(note)) && TabIsSafe(after, next, note)
      && (s.Filed(note) ==> after.Filed(note))
      && (forall key :: after.InArray(key, note) ==> s.InArray(key, note))
  {
    if tab.Carrying? && ok && tab.todo != [] && s.InArray(tab.key, note) && !s.Filed(note) && tab.todo[0].note != note {
      DropFirst(tab.todo, note);
    }
  }

  lemma NextKeeps(s: State, step: Step, note: string)
    requires Safe(s, note) && !(step.Start? && step.task == Clear(note))
    ensures Safe(Next(s, step), note)
  {
    var next := Next(s, step);
    match step
    case Call(t, ok) =>
      CallKeeps(s.storage, s.TabOf(t), ok, note);
      forall u
        ensures TabIsSafe(next.storage, next.TabOf(u), note)
      {
        if u != t { assert TabIsSafe(s.storage, s.TabOf(u), note); }
      }
    case Start(t, task) =>
      forall u
        ensures TabIsSafe(next.storage, next.TabOf(u), note)
      {
        assert TabIsSafe(s.storage, s.TabOf(u), note);
      }
    case Crash(t) =>
      forall u
        ensures TabIsSafe(next.storage, next.TabOf(u), note)
      {
        assert TabIsSafe(s.storage, s.TabOf(u), note);
      }
  }

  ghost predicate Clears(steps: seq<Step>, note: string) { exists t :: Start(t, Clear(note)) in steps }

  /** No lost note: over every interleaving of any tabs' storage calls, with any of them failing and any tab
    crashing anywhere, a safe note stays stored until some tab is told to clear that very note. */
  lemma {:induction false} NoLostNote(s: State, steps: seq<Step>, note: string)
    requires Safe(s, note) && !Clears(steps, note)
    ensures Safe(Run(s, steps), note)
    decreases |steps|
  {
    if steps != [] {
      assert forall x :: x in steps[1..] ==> x in steps;
      assert steps[0] in steps;
      NextKeeps(s, steps[0], note);
      NoLostNote(Next(s, steps[0]), steps[1..], note);
    }
  }

  /** When `stageNote` reports success the note is safe, whatever every other tab is in the middle of, unless
    one of them is removing that note. */
  lemma StagedNoteIsSafe(s: State, t: nat, entry: PendingNote)
    requires s.TabOf(t) == Saving(entry) && entry.IsNote()
    requires forall u :: s.TabOf(u) != Removing(entry.note)
    ensures Safe(Next(s, Call(t, true)), entry.note)
  {
    var next := Next(s, Call(t, true));
    forall u
      ensures TabIsSafe(next.storage, next.TabOf(u), entry.note)
    {
      assert u != t ==> next.TabOf(u) == s.TabOf(u);
    }
  }

  /** Before any tab is open, a stored note is safe if its own key does not hold something else. */
  lemma AtRestIsSafe(s: State, note: string)
    requires s.storage.Stored(note) && s.tabs == map[] && (note in s.storage.own ==> s.storage.Filed(note))
    ensures Safe(s, note)
  {
    forall key | s.storage.InArray(key, note)
      ensures IsNoteText(note)
    {
      var items := s.storage.arrays[key].items;
      NotesAreNotes(items);
      var i :| 0 <= i < |Notes(items)| && Notes(items)[i].note == note;
      assert Notes(items)[i].IsNote();
    }
  }

  // ---------------------------------------------------------------- one tab on its own

  /** Whether a write succeeds, given what is stored. */
  type Quota = (Storage, PendingNote) -> bool

  /** Carrying notes over without interruption, and whether all of them could be written. */
  function Carried(s: Storage, todo: seq<PendingNote>, quota: Quota): (Storage, bool)
    decreases |todo|
  {
    if todo == [] then (s, true)
    else if todo[0].note in s.own then Carried(s, todo[1..], quota)
    else if quota(s, todo[0]) then Carried(s.Put(todo[0]), todo[1..], quota)
    else (s, false)
  }

  function MigratedArray(s: Storage, key: ArrayKey, quota: Quota): Storage {
    if key !in s.arrays then s
    else match s.arrays[key]
      case Unparsable => s
      case NotAnArray => s.DropArray(key)
      case Items(items) =>
        var (carried, complete) := Carried(s, Notes(items), quota);
        if complete then carried.DropArray(key) else carried
  }

  function Migrated(s: Storage, quota: Quota): Storage {
    MigratedArray(MigratedArray(s, Legacy, quota), Array, quota)
  }

  lemma {:induction false} RunConcat(s: State, a: seq<Step>, b: seq<Step>)
    ensures Run(s, a + b) == Run(Run(s, a), b)
    decreases |a|
  {
    if a == [] {
      assert a + b == b;
    } else {
      RunConcat(Next(s, a[0]), a[1..], b);
      assert (a + b)[1..] == a[1..] + b;
    }
  }

  ghost predicate CallsOf(steps: seq<Step>, t: nat) { forall step :: step in steps ==> step.Call? && step.t == t }

  /** The tab alone, in the state machine, carries over what `Carried` says. */
  lemma {:induction false} CarriesAlone(s: State, t: nat, key: ArrayKey, todo: seq<PendingNote>, keys: seq<ArrayKey>,
                                        task: Task, quota: Quota)
    returns (steps: seq<Step>)
    requires s.TabOf(t) == Carrying(key, todo, false, keys, task)
    ensures CallsOf(steps, t)
    ensures var (carried, complete) := Carried(s.storage, todo, quota);
      Run(s, steps) == State(if complete then carried.DropArray(key) else carried, s.tabs[t := Between(keys, task)])
    decreases |todo|
  {
    var rest;
    var call, refused := Call(t, true), Call(t, false);
    if todo == [] {
      steps := [call];
      assert Run(s, steps) == Next(s, call);
    } else if todo[0].note in s.storage.own {
      rest := CarriesAlone(Next(s, call), t, key, todo[1..], keys, task, quota);
      steps := [call] + rest;
    } else {
      var seen := Next(s, call);
      assert seen.TabOf(t) == Carrying(key, todo, true, keys, task);
      if quota(s.storage, todo[0]) {
        rest := CarriesAlone(Next(seen, call), t, key, todo[1..], keys, task, quota);
        steps := [call] + ([call] + rest);
      } else {
        steps := [call] + [refused];
        assert Run(seen, [refused]) == Next(seen, refused);
      }
    }
  }

  lemma MigratesArrayAlone(s: State, t: nat, key: ArrayKey, keys: seq<ArrayKey>, task: Task, quota: Quota)
    returns (steps: seq<Step>)
    requires s.TabOf(t) == Between([key] + keys, task)
    ensures CallsOf(steps, t)
    ensures Run(s, steps) == State(MigratedArray(s.storage, key, quota), s.tabs[t := Between(keys, task)])
  {
    var call := Call(t, true);
    var next := Next(s, call);
    assert ([key] + keys)[1..] == keys;
    if next.TabOf(t).Carrying? {
      var todo := next.TabOf(t).todo;
      var rest := CarriesAlone(next, t, key, todo, keys, task, quota);
      steps := [call] + rest;
    } else {
      steps := [call];
      assert Run(s, steps) == next;
    }
  }

  lemma MigratesAlone(s: State, t: nat, task: Task, quota: Quota) returns (steps: seq<Step>)
    requires s.TabOf(t) == Between([Legacy, Array], task)
    ensures CallsOf(steps, t)
    ensures Run(s, steps) == State(Migrated(s.storage, quota), s.tabs[t := Between([], task)])
  {
    assert [Legacy, Array] == [Legacy] + [Array] && [Array] == [Array] + [];
    var first := MigratesArrayAlone(s, t, Legacy, [Array], task, quota);
    var middle := Run(s, first);
    var second := MigratesArrayAlone(middle, t, Array, [], task, quota);
    RunConcat(s, first, second);
    steps := first + second;
  }

  /** What a task leaves in storage when no other tab gets in between. */
  function Done(s: Storage, task: Task, quota: Quota): Storage {
    match task
    case Look => Migrated(s, quota)
    case Stage(entry) => if quota(s, entry) then s.Put(entry) else s
    case Mark(note, update) =>
      var m := Migrated(s, quota);
      if note in m.own && m.own[note].Entry? && m.own[note].entry.IsNote()
        && quota(m, Marked(m.own[note].entry, update))
      then m.Put(Marked(m.own[note].entry, update))
      else m
    case Clear(note) => s.Drop(note)
  }

  /** The tab alone, in the state machine, does what the vault's methods do. */
  lemma TaskAlone(s: State, t: nat, task: Task, quota: Quota) returns (calls: seq<Step>)
    requires s.TabOf(t).Idle?
    ensures CallsOf(calls, t)
    ensures Run(Next(s, Start(t, task)), calls) == State(Done(s.storage, task, quota), s.tabs[t := Idle])
  {
    var begun := Next(s, Start(t, task));
    match task
    case Look =>
      calls := ReadingAlone(begun, t, task, quota);
    case Mark(_, _) =>
      calls := ReadingAlone(begun, t, task, quota);
    case Stage(entry) =>
      calls := [Call(t, quota(s.storage, entry))];
      RunOne(begun, calls[0]);
    case Clear(note) =>
      calls := [Call(t, true)];
      RunOne(begun, calls[0]);
  }

  lemma RunOne(s: State, step: Step)
    ensures Run(s, [step]) == Next(s, step)
  {
    assert [step][1..] == [];
  }

  lemma ReadingAlone(s: State, t: nat, task: Task, quota: Quota) returns (calls: seq<Step>)
    requires s.TabOf(t) == Between([Legacy, Array], task) && (task.Look? || task.Mark?)
    ensures CallsOf(calls, t)
    ensures Run(s, calls) == State(Done(s.storage, task, quota), s.tabs[t := Idle])
  {
    var first := MigratesAlone(s, t, task, quota);
    var migrated := Run(s, first);
    var read := Call(t, true);
    var after := Next(migrated, read);
    RunOne(migrated, read);
    RunConcat(s, first, [read]);
    calls := first + [read];
    if after.TabOf(t).Saving? {
      var write := Call(t, quota(after.storage, after.TabOf(t).entry));
      RunOne(after, write);
      RunConcat(s, calls, [write]);
      calls := calls + [write];
    }
  }

  /** Nobody before position `i` of the list is the same note. */
  ghost predicate FirstOf(notes: seq<PendingNote>, i: nat) {
    i < |notes| && forall j :: 0 <= j < i ==> notes[j].note != notes[i].note
  }

  /** With room to write, carrying over files every note that had no entry, as it stood in the array. */
  lemma {:induction false} CarriedFiles(s: Storage, todo: seq<PendingNote>, quota: Quota, i: nat)
    requires FirstOf(todo, i) && todo[i].note !in s.own && forall at, n :: quota(at, n)
    ensures var own := Carried(s, todo, quota).0.own;
      todo[i].note in own && own[todo[i].note] == Entry(todo[i])
    decreases |todo|
  {
    var next := if todo[0].note in s.own then s else s.Put(todo[0]);
    if i == 0 {
      CarriedKeeps(next, todo[1..], quota);
    } else {
      assert todo[1..][i - 1] == todo[i] && todo[0].note != todo[i].note;
      assert forall j :: 0 <= j < i - 1 ==> todo[1..][j] == todo[j + 1];
      CarriedFiles(next, todo[1..], quota, i - 1);
    }
  }

  /** A note of the older array that had no entry is filed by migration exactly as it stood there. */
  lemma LegacyNoteIsFiled(s: Storage, quota: Quota, i: nat)
    requires Legacy in s.arrays && s.arrays[Legacy].Items? && FirstOf(Notes(s.arrays[Legacy].items), i)
    requires Notes(s.arrays[Legacy].items)[i].note !in s.own && forall at, n :: quota(at, n)
    ensures var n := Notes(s.arrays[Legacy].items)[i];
      n.note in Migrated(s, quota).own && Migrated(s, quota).own[n.note] == Entry(n)
  {
    CarriedFiles(s, Notes(s.arrays[Legacy].items), quota, i);
    MigrationRunsOnce(MigratedArray(s, Legacy, quota), quota);
    var half := MigratedArray(s, Legacy, quota);
    if Array in half.arrays && half.arrays[Array].Items? { CarriedKeeps(half, Notes(half.arrays[Array].items), quota); }
  }

  /** What carrying over leaves alone, and that it ends with every note under its own key. */
  lemma {:induction false} CarriedKeeps(s: Storage, todo: seq<PendingNote>, quota: Quota)
    ensures var (carried, complete) := Carried(s, todo, quota);
      && carried.arrays == s.arrays
      && (forall note :: note in s.own ==> note in carried.own && carried.own[note] == s.own[note])
      && (complete ==> forall i :: 0 <= i < |todo| ==> todo[i].note in carried.own)
      && ((forall at, n :: quota(at, n)) ==> complete)
    decreases |todo|
  {
    if todo != [] {
      CarriedKeeps(s, todo[1..], quota);
      CarriedKeeps(s.Put(todo[0]), todo[1..], quota);
      assert forall i :: 0 < i < |todo| ==> todo[i] == todo[1..][i - 1];
    }
  }

  /** Migration changes no note that already has an entry, and with room for every write it leaves no array of
    notes behind: it runs once. */
  lemma MigrationRunsOnce(s: Storage, quota: Quota)
    ensures var own := Migrated(s, quota).own;
      forall note :: note in s.own ==> note in own && own[note] == s.own[note]
    ensures (forall at, n :: quota(at, n)) ==>
      && (forall key :: key in Migrated(s, quota).arrays ==> Migrated(s, quota).arrays[key] == Unparsable)
      && Migrated(Migrated(s, quota), quota) == Migrated(s, quota)
  {
    var half := MigratedArray(s, Legacy, quota);
    if Legacy in s.arrays && s.arrays[Legacy].Items? { CarriedKeeps(s, Notes(s.arrays[Legacy].items), quota); }
    if Array in half.arrays && half.arrays[Array].Items? { CarriedKeeps(half, Notes(half.arrays[Array].items), quota); }
    var after := Migrated(s, quota);
    if forall at, n :: quota(at, n) {
      forall key | key in after.arrays
        ensures after.arrays[key] == Unparsable
      {
        match key
        case Legacy =>
        case Array =>
      }
    }
  }

  /** The condition under which a note at rest is never lost, exactly: an unreadable entry under the note's own
    key makes migration skip it and then remove its only good copy. */
  lemma KeptExactlyWhenReadable(s: State, note: string)
    requires s.storage.Stored(note) && s.tabs == map[]
    ensures (forall steps :: !Clears(steps, note) ==> Run(s, steps).storage.Stored(note)) <==>
      (note in s.storage.own ==> s.storage.Filed(note))
  {
    if note in s.storage.own ==> s.storage.Filed(note) {
      AtRestIsSafe(s, note);
      forall steps | !Clears(steps, note)
        ensures Run(s, steps).storage.Stored(note)
      {
        NoLostNote(s, steps, note);
      }
    } else {
      var quota: Quota := (at, n) => true;
      var open := Start(0, Look);
      assert Begin(Look) == Between([Legacy, Array], Look);
      var rest := MigratesAlone(Next(s, open), 0, Look, quota);
      MigrationRunsOnce(s.storage, quota);
      var steps := [open] + rest;
      assert !Clears(steps, note);
      assert !Run(s, steps).storage.Stored(note);
    }
  }

  // ---------------------------------------------------------------- the vault as a tab sees it

  class Vault {
    var storage: Storage
    const quota: Quota
    const available: bool
    const session: string

    constructor (storage: Storage, quota: Quota, available: bool, session: string)
      ensures this.storage == storage && this.quota == quota && this.available == available && this.session == session
    {
      this.storage := storage;
      this.quota := quota;
      this.available := available;
      this.session := session;
    }

    /** `localStorage.setItem` under the note's own key. */
    method SetItem(n: PendingNote) returns (ok: bool)
      modifies this
      ensures ok == (available && quota(old(storage), n))
      ensures storage == if ok then old(storage).Put(n) else old(storage)
    {
      ok := available && quota(storage, n);
      if ok { storage := storage.Put(n); }
    }

    method CarryOver(key: ArrayKey)
      requires available
      modifies this
      ensures storage == MigratedArray(old(storage), key, quota)
    {
      if key !in storage.arrays || storage.arrays[key].Unparsable? { return; }
      if storage.arrays[key].Items? {
        var items := storage.arrays[key].items;
        ghost var goal := Carried(storage, Notes(items), quota);
        for i := 0 to |items|
          invariant Carried(storage, Notes(items[i..]), quota) == goal
        {
          var item := items[i];
          assert items[i..][0] == item && items[i..][1..] == items[i + 1..];
          if item.Some? && item.value.IsNote() {
            assert Notes(items[i..])[0] == item.value && Notes(items[i..])[1..] == Notes(items[i + 1..]);
            if item.value.note !in storage.own {
              var ok := SetItem(item.value);
              if !ok { return; }
            }
          }
        }
      }
      storage := storage.DropArray(key);
    }

    method MigrateArrays()
      modifies this
      ensures storage == if available then Migrated(old(storage), quota) else old(storage)
    {
      if available {
        CarryOver(Legacy);
        CarryOver(Array);
      }
    }

    /** Every note that has a readable entry under its own key, once each; corrupt entries hide nothing else. */
    method ReadAll() returns (notes: seq<PendingNote>)
      modifies this
      ensures storage == if available then Migrated(old(storage), quota) else old(storage)
      ensures forall n :: n in notes <==> available && storage.Filed(n.note) && storage.own[n.note] == Entry(n)
      ensures forall i, j :: 0 <= i < j < |notes| ==> notes[i].note != notes[j].note
    {
      MigrateArrays();
      notes := [];
      if !available { return; }
      var keys := storage.own.Keys;
      while keys != {}
        invariant keys <= storage.own.Keys
        invariant forall n :: n in notes <==>
          (n.note !in keys && storage.Filed(n.note) && storage.own[n.note] == Entry(n))
        invariant forall i, j :: 0 <= i < j < |notes| ==> notes[i].note != notes[j].note
      {
        var key :| key in keys;
        keys := keys - {key};
        var content := storage.own[key];
        if content.Entry? && content.entry.IsNote() && content.entry.note == key {
          assert forall n :: n in notes ==> n.note != key;
          notes := notes + [content.entry];
        }
      }
    }

    method StageNote(note: string, poolAddress: string, denominationSol: real, now: nat) returns (ok: bool)
      modifies this
      ensures var entry := PendingNote(note, poolAddress, denominationSol, None, Unsent, now, None, Some(session));
        && ok == (available && quota(old(storage), entry))
        && storage == if ok then old(storage).Put(entry) else old(storage)
      ensures var entry := PendingNote(note, poolAddress, denominationSol, None, Unsent, now, None, Some(session));
        available ==> storage == Done(old(storage), Stage(entry), quota)
      ensures ok && IsNoteText(note) ==> storage.Filed(note)
      ensures forall other :: other != note ==> storage.Filed(other) == old(storage).Filed(other)
    {
      ok := SetItem(PendingNote(note, poolAddress, denominationSol, None, Unsent, now, None, Some(session)));
    }

    method MarkNoteStatus(note: string, update: Update)
      modifies this
      ensures var s := if available then Migrated(old(storage), quota) else old(storage);
        if available && note in s.own && s.own[note].Entry? && s.own[note].entry.IsNote()
            && quota(s, Marked(s.own[note].entry, update))
        then storage == s.Put(Marked(s.own[note].entry, update))
        else storage == s
      ensures available ==> storage == Done(old(storage), Mark(note, update), quota)
    {
      MigrateArrays();
      if !available || note !in storage.own || !storage.own[note].Entry? { return; }
      var n := storage.own[note].entry;
      if !n.IsNote() { return; }
      var ok := SetItem(Marked(n, update));
    }

    method ClearNote(note: string)
      modifies this
      ensures storage == if available then old(storage).Drop(note) else old(storage)
      ensures available ==> storage == Done(old(storage), Clear(note), quota)
    {
      if available { storage := storage.Drop(note); }
    }
  }
}
