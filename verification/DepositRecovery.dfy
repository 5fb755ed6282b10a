/** Deposit reconstruction: from an honest history, whose logs may have lost any tail of any transaction's
  events and which may mix several pools, the client recovers the pool's own leaves. */
module DepositRecovery {
  import opened Field
  import opened History
  import opened Chronology
  import opened Assembly
  import opened Sequences

  // ---------------------------------------------------------------- what the chain did

  /** One deposit into the pool: where it was found, the leaf index the chain gave it, and whether its
    event survived. */
  datatype Record = Record(entry: Entry, index: nat, known: bool)

  function RecordAt(ds: seq<Deposit>, slot: nat, signature: Signature, kept: nat, index: nat, k: nat): Record
    requires k < |ds|
  {
    Record(Entry(ds[k].leaf, slot, signature, k), index, k < kept)
  }

  /** Among a transaction's first `n` deposits, those into the pool; `kept` of the events survived. */
  function RecordsUpTo(ds: seq<Deposit>, slot: nat, signature: Signature, kept: nat, pool: Key, start: nat,
                       n: nat): seq<Record>
    requires n <= |ds|
  {
    if n == 0 then []
    else
      var before := RecordsUpTo(ds, slot, signature, kept, pool, start, n - 1);
      if ds[n - 1].pool == pool then before + [RecordAt(ds, slot, signature, kept, start + |before|, n - 1)] else before
  }

  function RecordsIn(p: Program, tx: Tx, pool: Key, start: nat): seq<Record> {
    var ds := Deposits(p, tx);
    if tx.failed then [] else RecordsUpTo(ds, tx.slot, tx.signature, |tx.events|, pool, start, |ds|)
  }

  /** The pool's deposits over a stretch of history in execution order; the first gets index `start`. */
  function Records(p: Program, txs: seq<Tx>, pool: Key, start: nat): seq<Record>
  {
    if txs == [] then []
    else
      var before := Records(p, txs[..|txs| - 1], pool, start);
      before + RecordsIn(p, txs[|txs| - 1], pool, start + |before|)
  }

  /** The surviving events are a prefix of the deposits, and each names its deposit's leaf and, for this
    pool, its index. Events of other pools may carry any index. */
  ghost predicate HonestEvents(ds: seq<Deposit>, tx: Tx, pool: Key, start: nat) {
    && Aligned(ds, tx.events)
    && forall k: nat :: k < |tx.events| ==> HonestIndex(ds, tx, pool, start, k)
  }

  ghost predicate HonestIndex(ds: seq<Deposit>, tx: Tx, pool: Key, start: nat, k: nat)
    requires k < |tx.events| <= |ds|
  {
    && tx.events[k].index.Some?
    && (ds[k].pool == pool ==>
          tx.events[k].index.value == start + |RecordsUpTo(ds, tx.slot, tx.signature, |tx.events|, pool, start, k)|)
  }

  ghost predicate HonestHistory(p: Program, txs: seq<Tx>, pool: Key, start: nat)
  {
    txs == [] ||
    var init, last := txs[..|txs| - 1], txs[|txs| - 1];
    && HonestHistory(p, init, pool, start)
    && (last.failed || HonestEvents(Deposits(p, last), last, pool, start + |Records(p, init, pool, start)|))
  }

  /** Transactions in execution order: distinct signatures, slots ascending, and each block listing its
    transactions in the order they ran. */
  ghost predicate Ordered(blocks: Blocks, txs: seq<Tx>) {
    forall i, j :: 0 <= i < j < |txs| ==>
      && txs[i].signature != txs[j].signature
      && txs[i].slot <= txs[j].slot
      && (txs[i].slot == txs[j].slot ==>
            var block := BlockOf(blocks, txs[i].slot);
            var a, b := FirstIndex(block, txs[i].signature), FirstIndex(block, txs[j].signature);
            a.Some? && b.Some? && a.value < b.value)
  }

  // ---------------------------------------------------------------- known and unknown deposits

  /** The known among the first `n` records, as the scan places them. */
  function KnownUpTo(rs: seq<Record>, n: nat): seq<Placed>
    requires n <= |rs|
  {
    if n == 0 then []
    else
      var before, r := KnownUpTo(rs, n - 1), rs[n - 1];
      if r.known then before + [Placed(r.entry.leaf, r.index)] else before
  }

  /** The unknown among them. */
  function UnknownUpTo(rs: seq<Record>, n: nat): seq<Record>
    requires n <= |rs|
  {
    if n == 0 then []
    else
      var before, r := UnknownUpTo(rs, n - 1), rs[n - 1];
      if r.known then before else before + [r]
  }

  function Known(rs: seq<Record>): seq<Placed> { KnownUpTo(rs, |rs|) }

  function Unknown(rs: seq<Record>): seq<Record> { UnknownUpTo(rs, |rs|) }

  function Entries(rs: seq<Record>): (es: seq<Entry>)
    ensures |es| == |rs|
  {
    seq(|rs|, i requires 0 <= i < |rs| => rs[i].entry)
  }

  /** Only the records counted matter. */
  lemma {:induction false} KnownLocal(a: seq<Record>, b: seq<Record>, n: nat)
    requires n <= |a|
    ensures KnownUpTo(a + b, n) == KnownUpTo(a, n) && UnknownUpTo(a + b, n) == UnknownUpTo(a, n)
  {
    if n > 0 {
      KnownLocal(a, b, n - 1);
      assert (a + b)[n - 1] == a[n - 1];
    }
  }

  lemma {:induction false} KnownAcross(a: seq<Record>, b: seq<Record>, n: nat)
    requires n <= |b|
    ensures KnownUpTo(a + b, |a| + n) == Known(a) + KnownUpTo(b, n)
  {
    if n == 0 {
      KnownLocal(a, b, |a|);
    } else {
      var r := b[n - 1];
      KnownAcross(a, b, n - 1);
      assert (a + b)[|a| + n - 1] == r;
      SnocAcross(Known(a), KnownUpTo(b, n - 1), Placed(r.entry.leaf, r.index));
    }
  }

  lemma {:induction false} UnknownAcross(a: seq<Record>, b: seq<Record>, n: nat)
    requires n <= |b|
    ensures UnknownUpTo(a + b, |a| + n) == Unknown(a) + UnknownUpTo(b, n)
  {
    if n == 0 {
      KnownLocal(a, b, |a|);
    } else {
      var r := b[n - 1];
      UnknownAcross(a, b, n - 1);
      assert (a + b)[|a| + n - 1] == r;
      SnocAcross(Unknown(a), UnknownUpTo(b, n - 1), r);
    }
  }

  lemma KnownConcat(a: seq<Record>, b: seq<Record>)
    ensures Known(a + b) == Known(a) + Known(b) && Unknown(a + b) == Unknown(a) + Unknown(b)
  {
    KnownAcross(a, b, |b|);
    UnknownAcross(a, b, |b|);
  }

  lemma KnownSnoc(rs: seq<Record>, r: Record)
    ensures Known(rs + [r]) == if r.known then Known(rs) + [Placed(r.entry.leaf, r.index)] else Known(rs)
    ensures Unknown(rs + [r]) == if r.known then Unknown(rs) else Unknown(rs) + [r]
  {
    KnownLocal(rs, [r], |rs|);
    assert (rs + [r])[|rs|] == r;
  }

  lemma EntriesConcat(a: seq<Record>, b: seq<Record>)
    ensures Entries(a + b) == Entries(a) + Entries(b)
  {}

  /** Indices count up from `start`. */
  ghost predicate Consecutive(rs: seq<Record>, start: nat) {
    forall i :: 0 <= i < |rs| ==> rs[i].index == start + i
  }

  lemma ConsecutiveConcat(a: seq<Record>, b: seq<Record>, start: nat)
    requires Consecutive(a, start) && Consecutive(b, start + |a|)
    ensures Consecutive(a + b, start)
  {
    forall i | 0 <= i < |a + b|
      ensures (a + b)[i].index == start + i
    {
      if i >= |a| {
        assert (a + b)[i] == b[i - |a|];
      }
    }
  }

  lemma {:induction false} IndicesUpTo(ds: seq<Deposit>, slot: nat, signature: Signature, kept: nat, pool: Key,
                                       start: nat, n: nat)
    requires n <= |ds|
    ensures Consecutive(RecordsUpTo(ds, slot, signature, kept, pool, start, n), start)
  {
    if n > 0 {
      IndicesUpTo(ds, slot, signature, kept, pool, start, n - 1);
      var before := RecordsUpTo(ds, slot, signature, kept, pool, start, n - 1);
      ConsecutiveConcat(before, [RecordAt(ds, slot, signature, kept, start + |before|, n - 1)], start);
    }
  }

  lemma {:induction false} Indices(p: Program, txs: seq<Tx>, pool: Key, start: nat)
    ensures Consecutive(Records(p, txs, pool, start), start)
  {
    if txs != [] {
      var init, last := txs[..|txs| - 1], txs[|txs| - 1];
      Indices(p, init, pool, start);
      var before, ds := Records(p, init, pool, start), Deposits(p, last);
      IndicesUpTo(ds, last.slot, last.signature, |last.events|, pool, start + |before|, |ds|);
      ConsecutiveConcat(before, RecordsIn(p, last, pool, start + |before|), start);
    }
  }

  /** Pairing finds exactly the known and the unknown deposits of an honest transaction. */
  lemma {:induction false} IndexedAreKnown(ds: seq<Deposit>, tx: Tx, pool: Key, start: nat, n: nat)
    requires HonestEvents(ds, tx, pool, start) && n <= |ds|
    ensures IndexedUpTo(ds, tx.events, |tx.events|, pool, n)
         == Known(RecordsUpTo(ds, tx.slot, tx.signature, |tx.events|, pool, start, n))
  {
    if n > 0 {
      IndexedAreKnown(ds, tx, pool, start, n - 1);
      var before := RecordsUpTo(ds, tx.slot, tx.signature, |tx.events|, pool, start, n - 1);
      IndexOfEvent(ds, tx, pool, start, n - 1, before);
      KnownSnoc(before, RecordAt(ds, tx.slot, tx.signature, |tx.events|, start + |before|, n - 1));
    }
  }

  lemma IndexOfEvent(ds: seq<Deposit>, tx: Tx, pool: Key, start: nat, k: nat, before: seq<Record>)
    requires HonestEvents(ds, tx, pool, start) && k < |ds|
    requires before == RecordsUpTo(ds, tx.slot, tx.signature, |tx.events|, pool, start, k)
    ensures k < |tx.events| && ds[k].pool == pool ==> tx.events[k].index == Some(start + |before|)
  {
    if k < |tx.events| {
      assert HonestIndex(ds, tx, pool, start, k);
    }
  }

  lemma {:induction false} UnindexedAreUnknown(ds: seq<Deposit>, slot: nat, signature: Signature, kept: nat, pool: Key,
                                               start: nat, n: nat)
    requires n <= |ds|
    ensures UnindexedUpTo(ds, slot, signature, kept, pool, n)
         == Entries(Unknown(RecordsUpTo(ds, slot, signature, kept, pool, start, n)))
  {
    if n > 0 {
      UnindexedAreUnknown(ds, slot, signature, kept, pool, start, n - 1);
      var before := RecordsUpTo(ds, slot, signature, kept, pool, start, n - 1);
      var r := RecordAt(ds, slot, signature, kept, start + |before|, n - 1);
      UnknownEntriesSnoc(before, r);
    }
  }

  lemma UnknownEntriesSnoc(rs: seq<Record>, r: Record)
    ensures Entries(Unknown(rs + [r])) == if r.known then Entries(Unknown(rs)) else Entries(Unknown(rs)) + [r.entry]
  {
    KnownSnoc(rs, r);
    EntriesConcat(Unknown(rs), [r]);
  }

  lemma PairingIn(p: Program, tx: Tx, pool: Key, start: nat)
    requires !tx.failed ==> HonestEvents(Deposits(p, tx), tx, pool, start)
    ensures !tx.failed ==> Usable(tx)
    ensures IndexedIn(p, tx, pool) == Known(RecordsIn(p, tx, pool, start))
    ensures UnindexedIn(p, tx, pool) == Entries(Unknown(RecordsIn(p, tx, pool, start)))
  {
    if !tx.failed {
      var ds := Deposits(p, tx);
      IndexedAreKnown(ds, tx, pool, start, |ds|);
      UnindexedAreUnknown(ds, tx.slot, tx.signature, |tx.events|, pool, start, |ds|);
      forall e | e in tx.events
        ensures e.index.Some?
      {
        var k: nat :| k < |tx.events| && tx.events[k] == e;
        assert HonestIndex(ds, tx, pool, start, k);
      }
    }
  }

  lemma ScanOneMore(p: Program, txs: seq<Tx>, pool: Key)
    requires txs != []
    ensures Indexed(p, txs, pool) == Indexed(p, txs[..|txs| - 1], pool) + IndexedIn(p, txs[|txs| - 1], pool)
    ensures Unindexed(p, txs, pool) == Unindexed(p, txs[..|txs| - 1], pool) + UnindexedIn(p, txs[|txs| - 1], pool)
    ensures AllUsable(txs) <==> AllUsable(txs[..|txs| - 1]) && (txs[|txs| - 1].failed || Usable(txs[|txs| - 1]))
  {
    assert forall tx :: tx in txs <==> tx in txs[..|txs| - 1] || tx == txs[|txs| - 1];
  }

  /** Pairing recovers the known deposits with their indices and the unknown ones in order of execution. */
  lemma Pairing(p: Program, txs: seq<Tx>, pool: Key, start: nat)
    requires HonestHistory(p, txs, pool, start)
    ensures AllUsable(txs)
    ensures Indexed(p, txs, pool) == Known(Records(p, txs, pool, start))
    ensures Unindexed(p, txs, pool) == Entries(Unknown(Records(p, txs, pool, start)))
  {
    PairingIndexed(p, txs, pool, start);
    PairingUnindexed(p, txs, pool, start);
  }

  lemma {:induction false} PairingIndexed(p: Program, txs: seq<Tx>, pool: Key, start: nat)
    requires HonestHistory(p, txs, pool, start)
    ensures AllUsable(txs) && Indexed(p, txs, pool) == Known(Records(p, txs, pool, start))
  {
    if txs != [] {
      var init, last := txs[..|txs| - 1], txs[|txs| - 1];
      PairingIndexed(p, init, pool, start);
      var before := Records(p, init, pool, start);
      ScanOneMore(p, txs, pool);
      PairingIn(p, last, pool, start + |before|);
      KnownConcat(before, RecordsIn(p, last, pool, start + |before|));
    }
  }

  lemma {:induction false} PairingUnindexed(p: Program, txs: seq<Tx>, pool: Key, start: nat)
    requires HonestHistory(p, txs, pool, start)
    ensures Unindexed(p, txs, pool) == Entries(Unknown(Records(p, txs, pool, start)))
  {
    if txs != [] {
      var init, last := txs[..|txs| - 1], txs[|txs| - 1];
      PairingUnindexed(p, init, pool, start);
      var before := Records(p, init, pool, start);
      var added := RecordsIn(p, last, pool, start + |before|);
      ScanOneMore(p, txs, pool);
      PairingIn(p, last, pool, start + |before|);
      KnownConcat(before, added);
      EntriesConcat(Unknown(before), Unknown(added));
    }
  }

  // ---------------------------------------------------------------- indexless deposits in chain order

  lemma {:induction false} EntriesOfTransaction(ds: seq<Deposit>, slot: nat, signature: Signature, paired: nat,
                                                pool: Key, n: nat)
    requires n <= |ds|
    ensures var es := UnindexedUpTo(ds, slot, signature, paired, pool, n);
      && (forall e :: e in es ==> e.slot == slot && e.signature == signature && e.order < n)
      && (forall i, j :: 0 <= i < j < |es| ==> es[i].order < es[j].order)
  {
    if n > 0 {
      EntriesOfTransaction(ds, slot, signature, paired, pool, n - 1);
    }
  }

  ghost predicate FromTransaction(txs: seq<Tx>, e: Entry) {
    exists i :: 0 <= i < |txs| && txs[i].slot == e.slot && txs[i].signature == e.signature
  }

  lemma {:induction false} ExecutionIsChainOrder(p: Program, blocks: Blocks, txs: seq<Tx>, pool: Key)
    requires Ordered(blocks, txs)
    ensures InChainOrder(blocks, Unindexed(p, txs, pool))
    ensures forall e :: e in Unindexed(p, txs, pool) ==> FromTransaction(txs, e)
  {
    if txs != [] {
      var init, last := txs[..|txs| - 1], txs[|txs| - 1];
      assert Ordered(blocks, init);
      ExecutionIsChainOrder(p, blocks, init, pool);
      ScanOneMore(p, txs, pool);
      var ds := Deposits(p, last);
      EntriesOfTransaction(ds, last.slot, last.signature, if Aligned(ds, last.events) then |last.events| else 0, pool,
                           |ds|);
      var es, added := Unindexed(p, init, pool), UnindexedIn(p, last, pool);
      forall e, f | e in es && f in added
        ensures ChainBefore(blocks, e, f) && e.signature != f.signature
      {
        EarlierIsBefore(blocks, txs, e, f);
      }
      forall e | e in es + added
        ensures FromTransaction(txs, e)
      {
        StillFromTransaction(txs, e);
      }
      OrderedConcat(blocks, es, added);
    }
  }

  lemma StillFromTransaction(txs: seq<Tx>, e: Entry)
    requires txs != []
    requires var init, last := txs[..|txs| - 1], txs[|txs| - 1];
      FromTransaction(init, e) || (e.slot == last.slot && e.signature == last.signature)
    ensures FromTransaction(txs, e)
  {
    var init := txs[..|txs| - 1];
    if FromTransaction(init, e) {
      var i :| 0 <= i < |init| && init[i].slot == e.slot && init[i].signature == e.signature;
      assert txs[i] == init[i];
    }
  }

  /** A deposit of an earlier transaction comes before one of the last. */
  lemma EarlierIsBefore(blocks: Blocks, txs: seq<Tx>, e: Entry, f: Entry)
    requires txs != [] && Ordered(blocks, txs) && FromTransaction(txs[..|txs| - 1], e)
    requires f.slot == txs[|txs| - 1].slot && f.signature == txs[|txs| - 1].signature
    ensures ChainBefore(blocks, e, f) && e.signature != f.signature
  {
    var init := txs[..|txs| - 1];
    var i :| 0 <= i < |init| && init[i].slot == e.slot && init[i].signature == e.signature;
    assert txs[i] == init[i];
  }

  lemma OrderedConcat(blocks: Blocks, a: seq<Entry>, b: seq<Entry>)
    requires InChainOrder(blocks, a)
    requires forall i, j :: 0 <= i < j < |b| ==> ChainBefore(blocks, b[i], b[j])
    requires forall e, f :: e in b && f in b ==> e.slot == f.slot && e.signature == f.signature
    requires forall e, f :: e in a && f in b ==> ChainBefore(blocks, e, f) && e.signature != f.signature
    ensures InChainOrder(blocks, a + b)
  {
    var c := a + b;
    forall i, j | 0 <= i < j < |c|
      ensures ChainBefore(blocks, c[i], c[j])
    {
      if i < |a| <= j {
        assert c[i] in a && c[j] in b;
      }
    }
    assert forall e :: e in c <==> e in a || e in b;
  }
}
