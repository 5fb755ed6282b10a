/** The deposit page: the order in which it stages a note, broadcasts a transaction and lets the note go. */
module DepositFlow {
  import opened Field
  import opened NoteVault

  // ---------------------------------------------------------------- what an error proves

  /** Which class of the RPC library raised an error, if any. */
  datatype ErrorClass = SendTransactionError | SolanaJSONRPCError | OtherClass

  /** `logs` are the program logs a simulation failure carries. `gate` marks the two errors of the checks made
    before anything is generated. */
  datatype JsError = JsError(
    name: string, code: Option<int>, class_: ErrorClass, message: string, logs: string, gate: bool,
    cause: Option<JsError>)

  const SIGN_ERROR: string := "WalletSignTransactionError"
  const SEND_ERROR: string := "WalletSendTransactionError"
  const USER_REJECTED: int := 4001

  predicate FromRpc(e: JsError) {
    e.class_ != OtherClass || e.name == "SendTransactionError" || e.name == "SolanaJSONRPCError"
  }

  predicate IsWalletOriginRejection(e: Option<JsError>) {
    e.Some? && !FromRpc(e.value) && e.value.code == Some(USER_REJECTED)
  }

  predicate IsWalletRejection(e: Option<JsError>) {
    e.Some? &&
    if e.value.name == SIGN_ERROR then true
    else if e.value.name == SEND_ERROR then IsWalletOriginRejection(e.value.cause)
    else IsWalletOriginRejection(e)
  }

  /** The error a wallet adapter may have wrapped. */
  function Unwrapped(e: Option<JsError>): Option<JsError> {
    if e.Some? && e.value.name == SEND_ERROR then e.value.cause else e
  }

  predicate ProvesNotBroadcast(e: Option<JsError>) {
    var inner := Unwrapped(e);
    inner.Some? && inner.value.class_ == SendTransactionError && "Simulation failed" <= inner.value.message
  }

  /** The wallet itself reported that its user refused, in the wallets' own standard: EIP-1193, code 4001. */
  predicate UserSaidNo(e: JsError) {
    && e.code == Some(4001) && e.class_ == OtherClass
    && e.name != "SendTransactionError" && e.name != "SolanaJSONRPCError"
  }

  /** The transaction was refused by the wallet: signing failed, or the user said no, in an error that reached
    the page as it is or inside the adapter's sending error. */
  predicate WalletRefused(e: Option<JsError>) {
    && e.Some?
    && (|| e.value.name == "WalletSignTransactionError"
        || (e.value.name != "WalletSendTransactionError" && UserSaidNo(e.value))
        || (e.value.name == "WalletSendTransactionError" && e.value.cause.Some? && UserSaidNo(e.value.cause.value)))
  }

  /** That is exactly what the page takes for a refusal: no other code, and nothing the RPC library raised. */
  lemma RejectionIsWalletRefusal(e: Option<JsError>)
    ensures IsWalletRejection(e) <==> WalletRefused(e)
  {}

  /** A preflight simulation failed, as the RPC library reports it, bare or inside the adapter's sending error. */
  predicate SimulationFailed(e: Option<JsError>) {
    && e.Some?
    && var inner := if e.value.name == "WalletSendTransactionError" then e.value.cause else e;
    && inner.Some? && inner.value.class_ == SendTransactionError
    && |inner.value.message| >= 17 && inner.value.message[..17] == "Simulation failed"
  }

  lemma OnlySimulationProves(e: Option<JsError>)
    ensures ProvesNotBroadcast(e) <==> SimulationFailed(e)
  {
    var prefix := "Simulation failed";
    assert |prefix| == 17;
  }

  /** An answer of an RPC, whatever its code and text, is never taken for the wallet's refusal when the adapter
    wraps it, and bare exactly when its object carries one of the adapter's own names: the signing failure's,
    or the sending failure's around a refusal. */
  lemma RpcCannotRejectForTheWallet(e: JsError, wrapper: JsError, text: string)
    requires wrapper.name == SEND_ERROR && wrapper.cause == Some(e) && FromRpc(e)
    ensures !IsWalletRejection(Some(wrapper))
    ensures IsWalletRejection(Some(e)) <==>
      (e.name == SIGN_ERROR || (e.name == SEND_ERROR && IsWalletOriginRejection(e.cause)))
    ensures IsWalletRejection(Some(e)) == IsWalletRejection(Some(e.(message := text)))
  {}

  /** The two verdicts that end an attempt exclude each other, except for an error that names itself a signing
    failure while being of the RPC library's class. */
  lemma VerdictsExclude(e: Option<JsError>)
    ensures IsWalletRejection(e) && ProvesNotBroadcast(e) ==>
      e.value.name == SIGN_ERROR && e.value.class_ == SendTransactionError
  {}

  // ---------------------------------------------------------------- one attempt

  predicate Contains(s: string, t: string) {
    exists i :: 0 <= i <= |s| && t <= s[i..]
  }

  datatype Message = StorageUnavailable | Plain | Cancelled | NotEnough | Paused | Full | NeverSent | NoteSaved

  /** The screen the user is left on: back at the form with a message, or shown the note. */
  datatype Screen = Form(message: Message) | ShowNote(confirmed: bool)

  /** What is searched for a known cause: the message, and the logs of a failed simulation. */
  function Reason(e: Option<JsError>): string {
    var inner := Unwrapped(e);
    var message := if e.Some? then e.value.message else "Transaction failed";
    var logs := if inner.Some? && inner.value.class_ == SendTransactionError then inner.value.logs else "";
    message + " " + logs
  }

  /** What the catch-all branch tells the user. */
  function Told(e: Option<JsError>): Message {
    var reason := Reason(e);
    if e.Some? && e.value.gate then Plain
    else if IsWalletRejection(e) then Cancelled
    else if Contains(reason, "insufficient") || Contains(reason, "not enough") then NotEnough
    else if Contains(reason, "PoolPaused") then Paused
    else if Contains(reason, "PoolSaturated") || Contains(reason, "TreeFull") then Full
    else if ProvesNotBroadcast(e) then NeverSent
    else NoteSaved
  }

  predicate NamesCause(reason: string) {
    || Contains(reason, "insufficient") || Contains(reason, "not enough")
    || Contains(reason, "PoolPaused") || Contains(reason, "PoolSaturated") || Contains(reason, "TreeFull")
  }

  /** Nothing about the error is recognised: no gate refused, no wallet rejected, no cause is named, and it does
    not prove that nothing was broadcast. */
  predicate Unrecognised(e: Option<JsError>) {
    && !(e.Some? && e.value.gate)
    && !IsWalletRejection(e) && !ProvesNotBroadcast(e) && !NamesCause(Reason(e))
  }

  /** What each message tells is so. */
  lemma MessagesAreTrue(e: Option<JsError>)
    ensures var reason, told := Reason(e), Told(e);
      && (told == Plain <==> e.Some? && e.value.gate)
      && (told == Cancelled <==> WalletRefused(e) && !e.value.gate)
      && (told == NotEnough ==> Contains(reason, "insufficient") || Contains(reason, "not enough"))
      && (told == Paused ==> Contains(reason, "PoolPaused"))
      && (told == Full ==> Contains(reason, "PoolSaturated") || Contains(reason, "TreeFull"))
      && (told == NeverSent ==> SimulationFailed(e) && !NamesCause(reason))
      && (told == NoteSaved <==> Unrecognised(e))
      && told != StorageUnavailable
  {
    RejectionIsWalletRefusal(e);
    OnlySimulationProves(e);
  }

  lemma ContainsIsSubstring(s: string, t: string)
    ensures Contains(s, t) <==> exists a, b :: s == a + t + b
  {
    if i :| 0 <= i <= |s| && t <= s[i..] {
      assert s == s[..i] + t + s[i + |t|..];
    }
    if a, b :| s == a + t + b {
      assert s[|a|..] == t + b;
    }
  }

  lemma ContainsInEither(a: string, b: string, t: string)
    requires Contains(a, t) || Contains(b, t)
    ensures Contains(a + " " + b, t)
  {
    var whole := a + " " + b;
    ContainsIsSubstring(a, t);
    ContainsIsSubstring(b, t);
    ContainsIsSubstring(whole, t);
    if Contains(a, t) {
      var x, y :| a == x + t + y;
      assert whole == x + t + (y + " " + b);
    } else {
      var x, y :| b == x + t + y;
      assert whole == (a + " " + x) + t + y;
    }
  }

  /** A cause named in the message or in the logs of a failed simulation is seen. */
  lemma CausesAreSeen(e: JsError, t: string)
    requires Contains(e.message, t) || (e.class_ == SendTransactionError && e.name != SEND_ERROR && Contains(e.logs, t))
    ensures Contains(Reason(Some(e)), t)
  {
    ContainsInEither(e.message, if e.class_ == SendTransactionError && e.name != SEND_ERROR then e.logs else "", t);
    if e.name == SEND_ERROR && e.cause.Some? { ContainsInEither(e.message, e.cause.value.logs, t); }
  }

  /** An ordinary failure to build the transaction is unrecognised, so that the message occurs. */
  lemma OrdinaryFailureIsUnrecognised()
    ensures var e := Some(JsError("Error", None, OtherClass, "x", "", false, None));
      Unrecognised(e) && Told(e) == NoteSaved
  {
    assert Reason(Some(JsError("Error", None, OtherClass, "x", "", false, None))) == "x ";
  }

  datatype Outcome<T> = Returned(value: T) | Threw(error: Option<JsError>)

  /** How the world answers one attempt: the gates and the building of the transaction, the wallet, and the
    wait for confirmation; and the clock at each step. */
  datatype World = World(
    prepared: Outcome<()>, send: Outcome<string>, confirms: bool, staged: nat, sent: nat, confirmed: nat)

  /** The status updates a broadcast attempt makes unless it proves that nothing was sent. */
  function Updates(world: World): seq<Update> {
    match world.send
    case Threw(_) => [Update(Sent, None, world.sent)]
    case Returned(signature) =>
      if world.confirms
      then [Update(Sent, Some(signature), world.sent), Update(Confirmed, Some(signature), world.confirmed)]
      else [Update(Sent, Some(signature), world.sent)]
  }

  /** What the wallet's answer leaves in a storage nobody else touches. */
  function Answered(s: Storage, quota: Quota, note: string, world: World): Storage {
    match world.send
    case Threw(error) =>
      if WalletRefused(error) then s.Drop(note)
      else if SimulationFailed(error) then s
      else Done(s, Mark(note, Update(Sent, None, world.sent)), quota)
    case Returned(signature) =>
      var sent := Done(s, Mark(note, Update(Sent, Some(signature), world.sent)), quota);
      if world.confirms
      then Done(sent, Mark(note, Update(Confirmed, Some(signature), world.confirmed)), quota)
      else sent
  }

  /** And one whole attempt. */
  function Left(s: Storage, quota: Quota, entry: PendingNote, world: World): Storage {
    if world.prepared.Threw? || !quota(s, entry) then s else Answered(s.Put(entry), quota, entry.note, world)
  }

  /** A note is broadcast only when it can be read back from storage, and is let go only on the wallet's own
    refusal. In every other case it is still there at the end, whatever the RPC and the clock did.
    `atSend` is the storage at the moment of broadcast. */
  method HandleDeposit(vault: Vault, note: string, poolAddress: string, denominationSol: real, world: World)
    returns (screen: Screen, sent: bool, ghost atSend: Storage)
    requires IsNoteText(note)
    modifies vault
    ensures sent ==> atSend.Filed(note) && atSend.own[note].entry.status == Unsent
    ensures sent ==> forall other :: other != note && old(vault.storage).Filed(other) ==> atSend.Filed(other)
    ensures var session := Some(vault.session);
      var entry := PendingNote(note, poolAddress, denominationSol, None, Unsent, world.staged, None, session);
      sent <==> (world.prepared.Returned? && vault.available && vault.quota(old(vault.storage), entry))
    ensures !sent ==> vault.storage == old(vault.storage) && screen.Form?
    ensures sent ==> (vault.storage.Filed(note) <==> !(world.send.Threw? && WalletRefused(world.send.error)))
    ensures sent && world.send.Threw? && WalletRefused(world.send.error) ==>
      vault.storage == atSend.Drop(note) && screen.Form?
    ensures sent && world.send.Threw? && SimulationFailed(world.send.error) ==>
      world.send.error.value.name != "WalletSignTransactionError" ==>
      vault.storage == atSend && screen.Form?
    ensures vault.available ==>
      var session := Some(vault.session);
      var entry := PendingNote(note, poolAddress, denominationSol, None, Unsent, world.staged, None, session);
      vault.storage == Left(old(vault.storage), vault.quota, entry, world)
    ensures screen.ShowNote? ==> sent && vault.storage.Filed(note)
    ensures screen.ShowNote? && (forall at, n :: vault.quota(at, n)) ==>
      vault.storage.own[note].entry == MarkedAll(atSend.own[note].entry, Updates(world))
    ensures screen.ShowNote? && (forall at, n :: vault.quota(at, n)) ==>
      var final := vault.storage.own[note].entry;
      && final.sentAt == Some(world.sent) && final.createdAt == world.staged && final.poolAddress == poolAddress
      && final.status == (if world.send.Returned? && world.confirms then Confirmed else Sent)
      && final.signature == (if world.send.Returned? then Some(world.send.value) else None)
    ensures screen == ShowNote(true) <==> sent && world.send.Returned? && world.confirms
    ensures sent && world.send.Returned? ==> screen == ShowNote(world.confirms)
    ensures sent && world.send.Threw? && !WalletRefused(world.send.error) && !SimulationFailed(world.send.error) ==>
      screen == ShowNote(false)
    ensures screen == Form(NoteSaved) <==> world.prepared.Threw? && Unrecognised(world.prepared.error)
    ensures !sent && world.prepared.Returned? ==> screen == Form(StorageUnavailable)
    ensures sent && screen.Form? && world.send.Threw? && world.send.error.Some? && !world.send.error.value.gate ==>
      if WalletRefused(world.send.error) then screen == Form(Cancelled)
      else screen.message in {NotEnough, Paused, Full, NeverSent}
  {
    sent, atSend := false, vault.storage;
    if world.prepared.Threw? {
      MessagesAreTrue(world.prepared.error);
      return Form(Told(world.prepared.error)), sent, atSend;
    }
    var staged := vault.StageNote(note, poolAddress, denominationSol, world.staged);
    if !staged {
      return Form(StorageUnavailable), sent, atSend;
    }
    sent, atSend := true, vault.storage;
    UpdatesSay(vault.storage.own[note].entry, world);
    if world.send.Threw? { MessagesAreTrue(world.send.error); }
    screen := HandleAnswer(vault, note, world);
  }

  /** What the updates make of a note that was just staged. */
  lemma UpdatesSay(n: PendingNote, world: World)
    requires n.sentAt.None? && n.signature.None?
    ensures var m := MarkedAll(n, Updates(world));
      && m.sentAt == Some(world.sent) && m.createdAt == n.createdAt && m.poolAddress == n.poolAddress
      && m.status == (if world.send.Returned? && world.confirms then Confirmed else Sent)
      && m.signature == (if world.send.Returned? then Some(world.send.value) else None)
  {
    var us := Updates(world);
    MarkedTwice(n, us[0], us[|us| - 1]);
    assert |us| == 1 ==> us == [us[0]];
    assert |us| == 2 ==> us == [us[0], us[1]];
  }

  /** What follows the wallet's answer, the note being stored. */
  method HandleAnswer(vault: Vault, note: string, world: World) returns (screen: Screen)
    requires vault.available && vault.storage.Filed(note) && vault.storage.own[note].entry.note == note
    modifies vault
    ensures vault.storage == Answered(old(vault.storage), vault.quota, note, world)
    ensures vault.storage.Filed(note) <==> !(world.send.Threw? && WalletRefused(world.send.error))
    ensures screen == match world.send
      case Threw(error) =>
        if WalletRefused(error) || SimulationFailed(error) then Form(Told(error)) else ShowNote(false)
      case Returned(_) => ShowNote(world.confirms)
    ensures screen.ShowNote? && (forall at, n :: vault.quota(at, n)) ==>
      vault.storage.own[note].entry == MarkedAll(old(vault.storage).own[note].entry, Updates(world))
  {
    ghost var atSend := vault.storage;
    match world.send
    case Threw(error) =>
      VerdictsExclude(error);
      RejectionIsWalletRefusal(error);
      OnlySimulationProves(error);
      if IsWalletRejection(error) {
        vault.ClearNote(note);
        return Form(Told(error));
      }
      if ProvesNotBroadcast(error) {
        return Form(Told(error));
      }
      var update := Update(Sent, None, world.sent);
      MarkedTwice(vault.storage.own[note].entry, update, update);
      vault.MarkNoteStatus(note, update);
      MigrationRunsOnce(atSend, vault.quota);
      screen := ShowNote(false);
    case Returned(signature) =>
      var first := Update(Sent, Some(signature), world.sent);
      var second := Update(Confirmed, Some(signature), world.confirmed);
      MarkedTwice(vault.storage.own[note].entry, first, second);
      vault.MarkNoteStatus(note, first);
      MigrationRunsOnce(atSend, vault.quota);
      screen := ShowNote(world.confirms);
      if world.confirms {
        ghost var middle := vault.storage;
        vault.MarkNoteStatus(note, second);
        MigrationRunsOnce(middle, vault.quota);
      }
  }

  lemma MarkedTwice(n: PendingNote, a: Update, b: Update)
    ensures MarkedAll(n, [a]) == Marked(n, a) && MarkedAll(n, [a, b]) == Marked(Marked(n, a), b)
  {
    assert [a][..0] == [] && [a, b][..1] == [a];
  }
}
