/** A pool's transaction history, and how the client reads deposits out of it.

  Deposits come from the instructions of each transaction; events add the leaf index, and only a prefix of
  a transaction's events survives in its log. `Record` is what the chain did; `Scan` is what the client
  recovers.
*/
module History {
  import opened Field
  import opened Words
  import opened Sequences

  type Key = string
  type Signature = string

  const DEPOSIT_DISCRIMINATOR_LEN: nat := 8

  datatype Instruction = Instruction(programIdIndex: nat, accounts: seq<nat>, data: seq<Byte>)

  /** A deposit event of a transaction's log; `index` is absent when the log line had no usable one. */
  datatype Event = Event(leaf: nat, index: Option<nat>)

  datatype Tx = Tx(
    slot: nat, signature: Signature, failed: bool,
    accountKeys: seq<Key>, writable: seq<Key>, readonly: seq<Key>,
    instructions: seq<Instruction>, inner: map<nat, seq<Instruction>>,
    events: seq<Event>)
  {
    function Keys(): seq<Key> { accountKeys + writable + readonly }
    function Inner(i: nat): seq<Instruction> { if i in inner then inner[i] else [] }
  }

  datatype Deposit = Deposit(pool: Key, leaf: nat)

  /** The program whose deposits are looked for. */
  datatype Program = Program(key: Key, discriminator: seq<Byte>)
  {
    predicate Valid() { |discriminator| == DEPOSIT_DISCRIMINATOR_LEN }
  }

  // ---------------------------------------------------------------- deposit instructions

  /** A deposit of this program: its discriminator, a 32-byte commitment, and a pool account. */
  function AsDeposit(p: Program, keys: seq<Key>, ix: Instruction): Option<Deposit>
  {
    if ix.programIdIndex >= |keys| || keys[ix.programIdIndex] != p.key then None
    else if |ix.data| < 40 || ix.data[..8] != p.discriminator then None
    else if |ix.accounts| == 0 || ix.accounts[0] >= |keys| then None
    else Some(Deposit(keys[ix.accounts[0]], BeValue(ix.data[8..40])))
  }

  function DepositsAmong(p: Program, keys: seq<Key>, ixs: seq<Instruction>): seq<Deposit>
  {
    if ixs == [] then []
    else
      var rest := DepositsAmong(p, keys, ixs[..|ixs| - 1]);
      var d := AsDeposit(p, keys, ixs[|ixs| - 1]);
      if d.Some? then rest + [d.value] else rest
  }

  /** Execution order: each top-level instruction followed by the inner instructions it invoked. */
  function Executed(tx: Tx, n: nat): seq<Instruction>
    requires n <= |tx.instructions|
  {
    if n == 0 then [] else Executed(tx, n - 1) + [tx.instructions[n - 1]] + tx.Inner(n - 1)
  }

  /** The transaction's deposits in execution order. */
  function Deposits(p: Program, tx: Tx): seq<Deposit>
  {
    DepositsAmong(p, tx.Keys(), Executed(tx, |tx.instructions|))
  }

  /** A deposit into `pool` is found exactly where the program was called with its discriminator, the leaf in 32
    big-endian bytes, and the pool as first account; whatever follows. */
  lemma DepositIsItsEncoding(p: Program, keys: seq<Key>, ix: Instruction, pool: Key, leaf: Word)
    requires p.Valid()
    ensures AsDeposit(p, keys, ix) == Some(Deposit(pool, leaf)) <==>
      && ix.programIdIndex < |keys| && keys[ix.programIdIndex] == p.key
      && p.discriminator + ToBe(leaf, 32) <= ix.data
      && |ix.accounts| > 0 && ix.accounts[0] < |keys| && keys[ix.accounts[0]] == pool
  {
    Pow256Of32();
    BeRoundTrip(leaf, 32);
    if |ix.data| >= 40 {
      var code := ix.data[..8] + ix.data[8..40];
      assert code == ix.data[..40];
      if BeValue(ix.data[8..40]) == leaf {
        EqualValuesEqualBytes(ix.data[8..40], ToBe(leaf, 32));
      }
      if p.discriminator + ToBe(leaf, 32) <= ix.data {
        assert ix.data[..40] == p.discriminator + ToBe(leaf, 32);
        assert ix.data[8..40] == ix.data[..40][8..];
        assert ix.data[..8] == ix.data[..40][..8];
      }
    }
  }

  /** Deposits are found in the order their instructions ran. */
  lemma {:induction false} DepositsConcat(p: Program, keys: seq<Key>, a: seq<Instruction>, b: seq<Instruction>)
    ensures DepositsAmong(p, keys, a + b) == DepositsAmong(p, keys, a) + DepositsAmong(p, keys, b)
  {
    if b == [] {
      assert a + b == a;
    } else {
      var init := b[..|b| - 1];
      DepositsConcat(p, keys, a, init);
      assert (a + b)[..|a + b| - 1] == a + init;
    }
  }

  /** And an instruction ran before what it invoked, which ran before every later instruction. */
  lemma {:induction false} ExecutedInOrder(tx: Tx, i: nat, n: nat)
    requires i < n <= |tx.instructions|
    ensures Executed(tx, i) + [tx.instructions[i]] + tx.Inner(i) <= Executed(tx, n)
  {
    if i < n - 1 { ExecutedInOrder(tx, i, n - 1); }
  }

  method Consider(p: Program, keys: seq<Key>, ix: Instruction, found: seq<Deposit>) returns (r: seq<Deposit>)
    requires p.Valid()
    ensures r == if AsDeposit(p, keys, ix).Some? then found + [AsDeposit(p, keys, ix).value] else found
  {
    r := found;
    if ix.programIdIndex >= |keys| || keys[ix.programIdIndex] != p.key { return; }
    if |ix.data| < 40 { return; }
    for i := 0 to 8
      invariant ix.data[..i] == p.discriminator[..i]
    {
      if ix.data[i] != p.discriminator[i] {
        assert ix.data[..8][i] != p.discriminator[i];
        return;
      }
      TakeOneMore(ix.data, i);
      TakeOneMore(p.discriminator, i);
    }
    assert p.discriminator[..8] == p.discriminator;
    if |ix.accounts| == 0 || ix.accounts[0] >= |keys| { return; }
    r := found + [Deposit(keys[ix.accounts[0]], BeValue(ix.data[8..40]))];
  }

  method ConsiderAll(p: Program, keys: seq<Key>, ghost done: seq<Instruction>, ixs: seq<Instruction>,
                     found: seq<Deposit>)
    returns (r: seq<Deposit>)
    requires p.Valid() && found == DepositsAmong(p, keys, done)
    ensures r == DepositsAmong(p, keys, done + ixs)
  {
    r := found;
    assert done + ixs[..0] == done;
    for k := 0 to |ixs|
      invariant r == DepositsAmong(p, keys, done + ixs[..k])
    {
      ghost var next := done + ixs[..k + 1];
      assert next[..|next| - 1] == done + ixs[..k];
      r := Consider(p, keys, ixs[k], r);
    }
    assert ixs[..|ixs|] == ixs;
  }

  method DepositInstructions(p: Program, tx: Tx) returns (found: seq<Deposit>)
    requires p.Valid()
    ensures found == Deposits(p, tx)
  {
    var keys := tx.Keys();
    found := [];
    for i := 0 to |tx.instructions|
      invariant found == DepositsAmong(p, keys, Executed(tx, i))
    {
      ghost var done := Executed(tx, i) + [tx.instructions[i]];
      assert done[..|done| - 1] == Executed(tx, i);
      found := Consider(p, keys, tx.instructions[i], found);
      found := ConsiderAll(p, keys, done, tx.Inner(i), found);
    }
  }

  // ---------------------------------------------------------------- pairing with events

  /** A deposit with no index, and what orders it: slot, transaction, position in the transaction. */
  datatype Entry = Entry(leaf: nat, slot: nat, signature: Signature, order: nat)

  datatype Placed = Placed(leaf: nat, index: nat)

  predicate Usable(tx: Tx) { forall e :: e in tx.events ==> e.index.Some? }

  /** The events can be attributed: no more of them than deposits, and leaf by leaf the same. */
  predicate Aligned(ds: seq<Deposit>, events: seq<Event>) {
    && |events| <= |ds|
    && forall k :: 0 <= k < |events| ==> events[k].leaf == ds[k].leaf
  }

  /** Among a transaction's first `n` deposits, those into the pool that have an index, when the first
    `paired` of them kept their event. */
  function IndexedUpTo(ds: seq<Deposit>, events: seq<Event>, paired: nat, pool: Key, n: nat): seq<Placed>
    requires n <= |ds| && paired <= |events|
  {
    if n == 0 then []
    else
      var before := IndexedUpTo(ds, events, paired, pool, n - 1);
      if ds[n - 1].pool == pool && n - 1 < paired && events[n - 1].index.Some?
      then before + [Placed(ds[n - 1].leaf, events[n - 1].index.value)]
      else before
  }

  /** ... and those that have none. */
  function UnindexedUpTo(ds: seq<Deposit>, slot: nat, signature: Signature, paired: nat, pool: Key, n: nat): seq<Entry>
    requires n <= |ds|
  {
    if n == 0 then []
    else
      var before := UnindexedUpTo(ds, slot, signature, paired, pool, n - 1);
      if ds[n - 1].pool == pool && n - 1 >= paired
      then before + [Entry(ds[n - 1].leaf, slot, signature, n - 1)]
      else before
  }

  function IndexedIn(p: Program, tx: Tx, pool: Key): seq<Placed> {
    var ds := Deposits(p, tx);
    if tx.failed then []
    else IndexedUpTo(ds, tx.events, if Aligned(ds, tx.events) then |tx.events| else 0, pool, |ds|)
  }

  function UnindexedIn(p: Program, tx: Tx, pool: Key): seq<Entry> {
    var ds := Deposits(p, tx);
    if tx.failed then []
    else UnindexedUpTo(ds, tx.slot, tx.signature, if Aligned(ds, tx.events) then |tx.events| else 0, pool, |ds|)
  }

  /** Every leaf placed at an index was deposited into the pool by the transaction and has an event that names
    both; nothing is placed if any event disagrees with its deposit. */
  lemma {:induction false} PlacedHasEvent(ds: seq<Deposit>, events: seq<Event>, paired: nat, pool: Key, n: nat,
                                          x: Placed)
    requires n <= |ds| && paired <= |events| && x in IndexedUpTo(ds, events, paired, pool, n)
    ensures exists k :: 0 <= k < n && k < paired && ds[k] == Deposit(pool, x.leaf) && events[k].index == Some(x.index)
  {
    var before := IndexedUpTo(ds, events, paired, pool, n - 1);
    if x in before { PlacedHasEvent(ds, events, paired, pool, n - 1, x); }
  }

  lemma PlacedIsWitnessed(p: Program, tx: Tx, pool: Key, x: Placed)
    requires x in IndexedIn(p, tx, pool)
    ensures var ds := Deposits(p, tx);
      && |tx.events| <= |ds|
      && (forall k :: 0 <= k < |tx.events| ==> tx.events[k].leaf == ds[k].leaf)
      && exists k ::
           0 <= k < |tx.events| && ds[k] == Deposit(pool, x.leaf) && tx.events[k] == Event(x.leaf, Some(x.index))
  {
    var ds := Deposits(p, tx);
    var paired := if Aligned(ds, tx.events) then |tx.events| else 0;
    PlacedHasEvent(ds, tx.events, paired, pool, |ds|, x);
    var k :| 0 <= k < |ds| && k < paired && ds[k] == Deposit(pool, x.leaf) && tx.events[k].index == Some(x.index);
    assert tx.events[k] == Event(x.leaf, Some(x.index));
  }

  /** No deposit into the pool is lost: it is placed at its event's index, or kept with its position. */
  lemma {:induction false} PairingLosesNothing(ds: seq<Deposit>, tx: Tx, paired: nat, pool: Key, n: nat, k: nat)
    requires k < n <= |ds| && paired <= |tx.events| && Usable(tx) && ds[k].pool == pool
    ensures if k < paired
      then Placed(ds[k].leaf, tx.events[k].index.value) in IndexedUpTo(ds, tx.events, paired, pool, n)
      else Entry(ds[k].leaf, tx.slot, tx.signature, k) in UnindexedUpTo(ds, tx.slot, tx.signature, paired, pool, n)
  {
    if k < n - 1 { PairingLosesNothing(ds, tx, paired, pool, n - 1, k); }
  }

  predicate AllUsable(txs: seq<Tx>) { forall tx :: tx in txs && !tx.failed ==> Usable(tx) }

  function Indexed(p: Program, txs: seq<Tx>, pool: Key): seq<Placed> {
    Flat(tx => IndexedIn(p, tx, pool), txs)
  }

  function Unindexed(p: Program, txs: seq<Tx>, pool: Key): seq<Entry> {
    Flat(tx => UnindexedIn(p, tx, pool), txs)
  }

  /** What one transaction contributes. Fails on an event with an unusable index. */
  method PairTransaction(p: Program, tx: Tx, pool: Key) returns (ok: bool, indexed: seq<Placed>, unindexed: seq<Entry>)
    requires p.Valid() && !tx.failed
    ensures ok <==> Usable(tx)
    ensures ok ==> indexed == IndexedIn(p, tx, pool) && unindexed == UnindexedIn(p, tx, pool)
  {
    indexed, unindexed := [], [];
    var deposits := DepositInstructions(p, tx);
    for e := 0 to |tx.events|
      invariant forall i :: 0 <= i < e ==> tx.events[i].index.Some?
    {
      if tx.events[e].index.None? { return false, [], []; }
    }
    var aligned := |tx.events| <= |deposits|
      && forall k :: 0 <= k < |tx.events| ==> tx.events[k].leaf == deposits[k].leaf;
    ghost var paired := if aligned then |tx.events| else 0;
    for k := 0 to |deposits|
      invariant indexed == IndexedUpTo(deposits, tx.events, paired, pool, k)
      invariant unindexed == UnindexedUpTo(deposits, tx.slot, tx.signature, paired, pool, k)
    {
      if deposits[k].pool == pool {
        if aligned && k < |tx.events| {
          indexed := indexed + [Placed(deposits[k].leaf, tx.events[k].index.value)];
        } else {
          unindexed := unindexed + [Entry(deposits[k].leaf, tx.slot, tx.signature, k)];
        }
      }
    }
    ok := true;
  }

  /** The pairing loop of a scan, over every transaction of the listing that did not fail. */
  method PairDeposits(p: Program, txs: seq<Tx>, pool: Key)
    returns (ok: bool, indexed: seq<Placed>, unindexed: seq<Entry>)
    requires p.Valid()
    ensures ok <==> AllUsable(txs)
    ensures ok ==> indexed == Indexed(p, txs, pool) && unindexed == Unindexed(p, txs, pool)
  {
    indexed, unindexed := [], [];
    for t := 0 to |txs|
      invariant AllUsable(txs[..t])
      invariant indexed == Indexed(p, txs[..t], pool) && unindexed == Unindexed(p, txs[..t], pool)
    {
      assert txs[..t + 1][..t] == txs[..t];
      if !txs[t].failed {
        var usable, placed, entries := PairTransaction(p, txs[t], pool);
        if !usable {
          assert txs[t] in txs;
          return false, [], [];
        }
        indexed, unindexed := indexed + placed, unindexed + entries;
      }
    }
    assert txs[..|txs|] == txs;
    ok := true;
  }
}
