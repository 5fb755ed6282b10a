/** Many deposit pages over one storage: whatever tabs do, crash or fail at, a broadcast note is kept until the
  wallet itself refused it or the user said it is saved. */
module DepositRuns {
  import opened Field
  import opened NoteVault
  import opened DepositFlow

  /** Where a tab's deposit page is. `Ready`: the note is stored and the wallet is about to be asked.
    `Sending`: the transaction is with the wallet. */
  datatype Page =
    | Editing
    | Staging(entry: PendingNote)
    | Ready(note: string)
    | Sending(note: string)
    | Confirming(note: string, signature: string)
    | Showing(note: string)

  /** `broadcast`: the notes handed to a wallet. `released`: those the wallet refused or the user acknowledged. */
  datatype Site = Site(vault: State, pages: map<nat, Page>, broadcast: set<string>, released: set<string>)
  {
    function PageOf(t: nat): Page { if t in pages then pages[t] else Editing }

    /** The page moves on and its tab takes up a storage task. */
    function Go(t: nat, page: Page, task: Task): Site {
      this.(vault := Next(vault, Start(t, task)), pages := pages[t := page])
    }

    function Release(t: nat, note: string): Site {
      Go(t, Editing, Clear(note)).(released := released + {note})
    }
  }

  datatype Action =
    | Attempt(entry: PendingNote)
    | StorageCall(ok: bool)
    | Send
    | Answer(outcome: Outcome<string>, now: nat)
    | Confirmation(seen: bool, now: nat)
    | Acknowledge
    | Discard(note: string)
    | Reopen
    | Reconcile(note: string, now: nat)
    | Close

  datatype Move = Move(t: nat, action: Action)

  /** One step of one tab. Page code runs only while its tab has no storage call outstanding. */
  function Moved(s: Site, move: Move): Site {
    var t, page := move.t, s.PageOf(move.t);
    if move.action.StorageCall? then
      s.(vault := Next(s.vault, Call(t, move.action.ok)),
         pages :=
           if page.Staging? then s.pages[t := if move.action.ok then Ready(page.entry.note) else Editing] else s.pages)
    else if move.action.Close? then
      s.(vault := Next(s.vault, Crash(t)), pages := s.pages[t := Editing])
    else if !s.vault.TabOf(t).Idle? then s
    else match move.action
      case Attempt(entry) =>
        if page.Editing? && entry.IsNote() then s.Go(t, Staging(entry), Stage(entry)) else s
      case Send =>
        if page.Ready? then s.(pages := s.pages[t := Sending(page.note)], broadcast := s.broadcast + {page.note}) else s
      case Answer(outcome, now) =>
        if !page.Sending? then s
        else (match outcome
          case Returned(signature) =>
            s.Go(t, Confirming(page.note, signature), Mark(page.note, Update(Sent, Some(signature), now)))
          case Threw(error) =>
            if IsWalletRejection(error) then s.Release(t, page.note)
            else if ProvesNotBroadcast(error) then s.(pages := s.pages[t := Editing])
            else s.Go(t, Showing(page.note), Mark(page.note, Update(Sent, None, now))))
      case Confirmation(seen, now) =>
        if !page.Confirming? then s
        else if seen then s.Go(t, Showing(page.note), Mark(page.note, Update(Confirmed, Some(page.signature), now)))
        else s.(pages := s.pages[t := Showing(page.note)])
      case Acknowledge => if page.Showing? then s.Release(t, page.note) else s
      case Discard(note) => s.Release(t, note).(pages := s.pages)
      case Reopen => s.Go(t, page, Look)
      case Reconcile(note, now) => s.Go(t, page, Mark(note, Update(Confirmed, None, now)))
  }

  function Runs(s: Site, moves: seq<Move>): Site
    decreases |moves|
  {
    if moves == [] then s else Runs(Moved(s, moves[0]), moves[1..])
  }

  ghost predicate Kept(s: Site, note: string) { note in s.released || Safe(s.vault, note) }

  /** The note a page will broadcast, once its entry is stored. */
  ghost predicate PageKept(s: Site, t: nat) {
    match s.PageOf(t)
    case Staging(entry) => s.vault.TabOf(t) == Saving(entry) && entry.IsNote()
    case Ready(note) => Kept(s, note)
    case _ => true
  }

  ghost predicate TabReleases(s: Site, t: nat) {
    s.vault.TabOf(t).Removing? ==> s.vault.TabOf(t).note in s.released
  }

  ghost predicate Inv(s: Site) {
    && (forall note :: note in s.broadcast ==> Kept(s, note))
    && (forall t :: PageKept(s, t))
    && (forall t :: TabReleases(s, t))
  }

  /** The vault's step behind a move, if any. */
  ghost predicate VaultMoves(before: Site, after: Site, step: Step) {
    && (after.vault == before.vault || after.vault == Next(before.vault, step))
    && before.released <= after.released
    && (step.Start? && step.task.Clear? && after.vault != before.vault ==> step.task.note in after.released)
  }

  function StepOf(s: Site, move: Move): Step {
    var page := s.PageOf(move.t);
    var note := if page.Sending? || page.Showing? || page.Confirming? then page.note else "";
    var signature := if page.Confirming? then Some(page.signature) else None;
    match move.action
    case StorageCall(ok) => Call(move.t, ok)
    case Close => Crash(move.t)
    case Attempt(entry) => Start(move.t, Stage(entry))
    case Answer(Returned(signature), now) => Start(move.t, Mark(note, Update(Sent, Some(signature), now)))
    case Answer(Threw(error), now) =>
      Start(move.t, if IsWalletRejection(error) then Clear(note) else Mark(note, Update(Sent, None, now)))
    case Confirmation(_, now) =>
      Start(move.t, Mark(note, Update(Confirmed, signature, now)))
    case Acknowledge => Start(move.t, Clear(note))
    case Discard(n) => Start(move.t, Clear(n))
    case Reconcile(n, now) => Start(move.t, Mark(n, Update(Confirmed, None, now)))
    case _ => Start(move.t, Look)
  }

  lemma MoveIsVaultStep(s: Site, move: Move)
    ensures VaultMoves(s, Moved(s, move), StepOf(s, move))
  {}

  lemma KeptByMove(s: Site, move: Move, note: string)
    requires Kept(s, note)
    ensures Kept(Moved(s, move), note)
  {
    MoveIsVaultStep(s, move);
    var step, after := StepOf(s, move), Moved(s, move);
    if note !in after.released && after.vault != s.vault {
      NextKeeps(s.vault, step, note);
    }
  }

  lemma TabReleasesMoved(s: Site, move: Move, t: nat)
    requires Inv(s)
    ensures TabReleases(Moved(s, move), t)
  {
    MoveIsVaultStep(s, move);
    assert TabReleases(s, t);
  }

  lemma StagingEnds(s: Site, move: Move)
    requires Inv(s) && move.action == StorageCall(true) && s.PageOf(move.t).Staging?
    ensures Kept(Moved(s, move), s.PageOf(move.t).entry.note)
  {
    var note := s.PageOf(move.t).entry.note;
    assert PageKept(s, move.t);
    if note !in s.released {
      forall u
        ensures s.vault.TabOf(u) != Removing(note)
      {
        assert TabReleases(s, u);
      }
      StagedNoteIsSafe(s.vault, move.t, s.PageOf(move.t).entry);
    }
  }

  lemma PageKeptMoved(s: Site, move: Move, t: nat)
    requires Inv(s)
    ensures PageKept(Moved(s, move), t)
  {
    var after := Moved(s, move);
    assert PageKept(s, t);
    MoveIsVaultStep(s, move);
    if t == move.t && move.action == StorageCall(true) && s.PageOf(t).Staging? {
      StagingEnds(s, move);
    } else if after.PageOf(t).Ready? {
      assert after.PageOf(t) == s.PageOf(t);
      KeptByMove(s, move, after.PageOf(t).note);
    }
  }

  lemma InvMoved(s: Site, move: Move)
    requires Inv(s)
    ensures Inv(Moved(s, move))
  {
    var after := Moved(s, move);
    forall note | note in after.broadcast
      ensures Kept(after, note)
    {
      if note !in s.broadcast { assert PageKept(s, move.t); }
      KeptByMove(s, move, note);
    }
    forall t
      ensures PageKept(after, t)
    {
      PageKeptMoved(s, move, t);
    }
    forall t
      ensures TabReleases(after, t)
    {
      TabReleasesMoved(s, move, t);
    }
  }

  /** Why a note may be let go: the wallet refused its transaction, or the user said it is saved. */
  ghost predicate Justifies(s: Site, move: Move, note: string) {
    match move.action
    case Answer(Threw(error), _) => WalletRefused(error) && s.PageOf(move.t) == Sending(note)
    case Acknowledge => s.PageOf(move.t) == Showing(note)
    case Discard(n) => n == note
    case _ => false
  }

  ghost predicate Justified(s: Site, moves: seq<Move>, note: string)
    decreases |moves|
  {
    moves != [] && (Justifies(s, moves[0], note) || Justified(Moved(s, moves[0]), moves[1..], note))
  }

  ghost predicate Opening(s: Site) {
    s.vault.tabs == map[] && s.pages == map[] && s.broadcast == {} && s.released == {}
  }

  lemma {:induction false} RunKeeps(s: Site, moves: seq<Move>)
    requires Inv(s)
    ensures Inv(Runs(s, moves))
    ensures forall note :: note in Runs(s, moves).released ==> note in s.released || Justified(s, moves, note)
    decreases |moves|
  {
    if moves != [] {
      InvMoved(s, moves[0]);
      RunKeeps(Moved(s, moves[0]), moves[1..]);
    }
  }

  /** Over every run of every number of tabs, from any storage: a note whose transaction was handed to a wallet
    is in storage, or some step of the run was a refusal of that note's transaction by the wallet itself or
    the user's word that it is saved. */
  lemma BroadcastNotesAreKept(s: Site, moves: seq<Move>, note: string)
    requires Opening(s) && note in Runs(s, moves).broadcast
    ensures Runs(s, moves).vault.storage.Stored(note) || Justified(s, moves, note)
  {
    RunKeeps(s, moves);
  }

  /** And it was already so when the wallet was asked: what is about to be broadcast is stored. */
  lemma NothingUnstoredIsSent(s: Site, moves: seq<Move>, t: nat)
    requires Opening(s) && Runs(s, moves).PageOf(t).Ready?
    ensures var note := Runs(s, moves).PageOf(t).note;
      Runs(s, moves).vault.storage.Stored(note) || Justified(s, moves, note)
  {
    RunKeeps(s, moves);
    assert PageKept(Runs(s, moves), t);
  }

  // ---------------------------------------------------------------- one page on its own

  lemma {:induction false} RunsConcat(s: Site, a: seq<Move>, b: seq<Move>)
    ensures Runs(s, a + b) == Runs(Runs(s, a), b)
    decreases |a|
  {
    if a == [] {
      assert a + b == b;
    } else {
      RunsConcat(Moved(s, a[0]), a[1..], b);
      assert (a + b)[1..] == a[1..] + b;
    }
  }

  lemma RunsOne(s: Site, move: Move)
    ensures Runs(s, [move]) == Moved(s, move)
  {
    assert [move][1..] == [];
  }

  /** The same storage calls as moves of the site. */
  function AsMoves(calls: seq<Step>, t: nat): (moves: seq<Move>)
    requires CallsOf(calls, t)
    ensures |moves| == |calls|
  {
    seq(|calls|, i requires 0 <= i < |calls| => assert calls[i] in calls; Move(t, StorageCall(calls[i].ok)))
  }

  lemma {:induction false} CallsMoveOnlyVault(s: Site, t: nat, calls: seq<Step>)
    requires CallsOf(calls, t) && !s.PageOf(t).Staging?
    ensures Runs(s, AsMoves(calls, t)) == s.(vault := Run(s.vault, calls))
    decreases |calls|
  {
    if calls != [] {
      assert calls[0] in calls && forall x :: x in calls[1..] ==> x in calls;
      var next := Moved(s, Move(t, StorageCall(calls[0].ok)));
      assert next == s.(vault := Next(s.vault, calls[0]));
      CallsMoveOnlyVault(next, t, calls[1..]);
      assert AsMoves(calls, t)[1..] == AsMoves(calls[1..], t);
    }
  }

  /** A page moves on and its tab finishes the task that goes with it. */
  lemma TaskOnPage(s: Site, t: nat, page: Page, task: Task, quota: Quota) returns (moves: seq<Move>)
    requires s.vault.TabOf(t).Idle? && !page.Staging?
    ensures Runs(s.Go(t, page, task), moves) ==
      s.(vault := State(Done(s.vault.storage, task, quota), s.vault.tabs[t := Idle]), pages := s.pages[t := page])
  {
    var calls := TaskAlone(s.vault, t, task, quota);
    CallsMoveOnlyVault(s.Go(t, page, task), t, calls);
    moves := AsMoves(calls, t);
  }

  /** The page's steps, taken without another tab in between, are what `HandleDeposit` does: the same storage
    is left, and the transaction is handed to the wallet exactly if the note was stored. */
  lemma AttemptAlone(s: Site, t: nat, entry: PendingNote, world: World, quota: Quota) returns (moves: seq<Move>)
    requires s.vault.TabOf(t).Idle? && s.PageOf(t).Editing? && entry.IsNote() && world.prepared.Returned?
    ensures Runs(s, moves).vault.storage == Left(s.vault.storage, quota, entry, world)
    ensures Runs(s, moves).broadcast == s.broadcast + (if quota(s.vault.storage, entry) then {entry.note} else {})
  {
    var ok := quota(s.vault.storage, entry);
    moves := [Move(t, Attempt(entry)), Move(t, StorageCall(ok))];
    var staged := Moved(Moved(s, moves[0]), moves[1]);
    RunsConcat(s, [moves[0]], [moves[1]]);
    RunsOne(s, moves[0]);
    RunsOne(Moved(s, moves[0]), moves[1]);
    assert moves == [moves[0]] + [moves[1]];
    if ok {
      var send := Move(t, Send);
      var sending := Moved(staged, send);
      RunsOne(staged, send);
      RunsConcat(s, moves, [send]);
      var rest := AnswerAlone(sending, t, entry.note, world, quota);
      RunsConcat(s, moves + [send], rest);
      moves := moves + [send] + rest;
    }
  }

  /** What the user acknowledges or discards is dropped and counted as released. */
  lemma LetGoAlone(s: Site, t: nat, note: string, action: Action, quota: Quota) returns (moves: seq<Move>)
    requires s.vault.TabOf(t).Idle? && !s.PageOf(t).Staging?
    requires action == Discard(note) || (action == Acknowledge && s.PageOf(t) == Showing(note))
    ensures var after := Runs(s, moves);
      after.vault.storage == s.vault.storage.Drop(note) && after.released == s.released + {note}
  {
    var move := Move(t, action);
    var calls := TaskAlone(s.vault, t, Clear(note), quota);
    CallsMoveOnlyVault(Moved(s, move), t, calls);
    RunsOne(s, move);
    RunsConcat(s, [move], AsMoves(calls, t));
    moves := [move] + AsMoves(calls, t);
  }

  /** What is found on-chain is confirmed, and stays. */
  lemma ReconcileAlone(s: Site, t: nat, note: string, now: nat, quota: Quota) returns (moves: seq<Move>)
    requires s.vault.TabOf(t).Idle? && !s.PageOf(t).Staging?
    ensures var after := Runs(s, moves);
      && after.vault.storage == Done(s.vault.storage, Mark(note, Update(Confirmed, None, now)), quota)
      && after.released == s.released
  {
    var move := Move(t, Reconcile(note, now));
    var calls := TaskAlone(s.vault, t, Mark(note, Update(Confirmed, None, now)), quota);
    CallsMoveOnlyVault(Moved(s, move), t, calls);
    RunsOne(s, move);
    RunsConcat(s, [move], AsMoves(calls, t));
    moves := [move] + AsMoves(calls, t);
  }

  lemma AnswerAlone(s: Site, t: nat, note: string, world: World, quota: Quota) returns (moves: seq<Move>)
    requires s.vault.TabOf(t).Idle? && s.PageOf(t) == Sending(note)
    ensures Runs(s, moves).vault.storage == Answered(s.vault.storage, quota, note, world)
    ensures Runs(s, moves).broadcast == s.broadcast
  {
    var answer := Move(t, Answer(world.send, world.sent));
    var next := Moved(s, answer);
    RunsOne(s, answer);
    match world.send
    case Threw(error) =>
      RejectionIsWalletRefusal(error);
      OnlySimulationProves(error);
      if WalletRefused(error) {
        var rest := TaskOnPage(s.(released := s.released + {note}), t, Editing, Clear(note), quota);
        RunsConcat(s, [answer], rest);
        moves := [answer] + rest;
      } else if SimulationFailed(error) {
        moves := [answer];
      } else {
        var rest := TaskOnPage(s, t, Showing(note), Mark(note, Update(Sent, None, world.sent)), quota);
        RunsConcat(s, [answer], rest);
        moves := [answer] + rest;
      }
    case Returned(signature) =>
      var first := Update(Sent, Some(signature), world.sent);
      var marking := TaskOnPage(s, t, Confirming(note, signature), Mark(note, first), quota);
      RunsConcat(s, [answer], marking);
      var marked := Runs(next, marking);
      var confirm := Move(t, Confirmation(world.confirms, world.confirmed));
      RunsOne(marked, confirm);
      RunsConcat(s, [answer] + marking, [confirm]);
      moves := [answer] + marking + [confirm];
      if world.confirms {
        var update := Update(Confirmed, Some(signature), world.confirmed);
        var rest := TaskOnPage(marked, t, Showing(note), Mark(note, update), quota);
        RunsConcat(s, moves, rest);
        moves := moves + rest;
      }
  }
}
