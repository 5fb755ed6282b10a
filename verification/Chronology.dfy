/** Ordering the deposits that carried no index, oldest first. */
module Chronology {
  import opened Field
  import opened History
  import opened Sequences

  type Blocks = map<nat, seq<Signature>>

  function BlockOf(blocks: Blocks, slot: nat): seq<Signature> {
    if slot in blocks then blocks[slot] else []
  }

  function FirstIndex(s: seq<Signature>, x: Signature): (i: Option<nat>)
    ensures i.Some? <==> x in s
    ensures i.Some? ==> i.value < |s| && s[i.value] == x
  {
    if s == [] then None
    else if s[0] == x then Some(0)
    else
      var rest := FirstIndex(s[1..], x);
      if rest.None? then None else Some(rest.value + 1)
  }

  /** Two deposits without an index share this slot but not their transaction. */
  ghost predicate Shared(entries: seq<Entry>, slot: nat) {
    exists e, f :: e in entries && f in entries && e.slot == slot == f.slot && e.signature != f.signature
  }

  /** A transaction's place in its block, where the block had to be asked for. */
  ghost predicate Positions(entries: seq<Entry>, blocks: Blocks, positions: map<Signature, nat>) {
    && (forall e :: e in entries && Shared(entries, e.slot) ==> e.signature in positions)
    && (forall x :: x in positions ==> Located(entries, blocks, x, positions[x]))
  }

  ghost predicate Located(entries: seq<Entry>, blocks: Blocks, x: Signature, at: nat) {
    exists e :: e in entries && e.signature == x && Shared(entries, e.slot)
      && FirstIndex(BlockOf(blocks, e.slot), x) == Some(at)
  }

  function PositionOf(positions: map<Signature, nat>, e: Entry): nat {
    if e.signature in positions then positions[e.signature] else 0
  }

  /** Slot first, then place in the block, then place in the transaction. */
  predicate Before(positions: map<Signature, nat>, a: Entry, b: Entry) {
    || a.slot < b.slot
    || (a.slot == b.slot &&
         (|| PositionOf(positions, a) < PositionOf(positions, b)
          || (PositionOf(positions, a) == PositionOf(positions, b) && a.order < b.order)))
  }

  ghost predicate Sorted(positions: map<Signature, nat>, es: seq<Entry>) {
    forall i, j :: 0 <= i < j < |es| ==> !Before(positions, es[j], es[i])
  }

  function LeavesOf(es: seq<Entry>): (leaves: seq<nat>)
    ensures |leaves| == |es|
  {
    seq(|es|, i requires 0 <= i < |es| => es[i].leaf)
  }

  /** The transaction has an indexless deposit in the slot. */
  ghost predicate Deposited(entries: seq<Entry>, slot: nat, x: Signature) {
    exists e :: e in entries && e.slot == slot && e.signature == x
  }

  /** An indexless deposit whose slot the RPC did not report. */
  ghost predicate AnySlotless(entries: seq<Entry>, slotless: set<Signature>) {
    exists e :: e in entries && e.signature in slotless
  }

  /** Which transactions the indexless deposits of each slot came from; refuses one whose slot is not known. */
  method SignaturesBySlot(entries: seq<Entry>, slotless: set<Signature>)
    returns (ok: bool, bySlot: map<nat, set<Signature>>)
    ensures ok <==> !AnySlotless(entries, slotless)
    ensures ok ==> forall slot, x :: (slot in bySlot && x in bySlot[slot]) <==> Deposited(entries, slot, x)
    ensures ok ==> forall e :: e in entries ==> e.slot in bySlot
  {
    bySlot := map[];
    for i := 0 to |entries|
      invariant !AnySlotless(entries[..i], slotless)
      invariant forall slot, x :: (slot in bySlot && x in bySlot[slot]) <==> Deposited(entries[..i], slot, x)
      invariant forall e :: e in entries[..i] ==> e.slot in bySlot
    {
      var e := entries[i];
      if e.signature in slotless {
        assert e in entries;
        return false, bySlot;
      }
      var known := if e.slot in bySlot then bySlot[e.slot] else {};
      bySlot := bySlot[e.slot := known + {e.signature}];
      assert forall f :: f in entries[..i + 1] <==> f in entries[..i] || f == e;
    }
    assert entries[..|entries|] == entries;
    ok := true;
  }

  /** A block that settles the order of two indexless deposits does not list one of them. */
  ghost predicate AnyUnlisted(entries: seq<Entry>, blocks: Blocks) {
    exists e :: e in entries && Shared(entries, e.slot) && e.signature !in BlockOf(blocks, e.slot)
  }

  /** The block positions of the slots that need them; fails when a block does not list a transaction. */
  method BlockPositions(entries: seq<Entry>, blocks: Blocks, slotless: set<Signature>)
    returns (ok: bool, positions: map<Signature, nat>)
    ensures ok ==> !AnySlotless(entries, slotless) && Positions(entries, blocks, positions)
    ensures !ok ==> AnySlotless(entries, slotless) || AnyUnlisted(entries, blocks)
  {
    var slotted, bySlot := SignaturesBySlot(entries, slotless);
    positions := map[];
    if !slotted { return false, positions; }
    var slots := bySlot.Keys;
    while slots != {}
      invariant slots <= bySlot.Keys
      invariant forall e :: e in entries && e.slot !in slots && Shared(entries, e.slot) ==> e.signature in positions
      invariant forall x :: x in positions ==> Located(entries, blocks, x, positions[x])
      decreases slots
    {
      var slot :| slot in slots;
      slots := slots - {slot};
      var signatures := bySlot[slot];
      if |signatures| < 2 {
        NotShared(entries, slot, signatures);
        continue;
      }
      SharedBySize(entries, slot, signatures);
      var todo := signatures;
      while todo != {}
        invariant todo <= signatures
        invariant forall e :: e in entries && e.slot !in slots + {slot} && Shared(entries, e.slot) ==>
          e.signature in positions
        invariant forall x :: x in signatures - todo ==> x in positions
        invariant forall x :: x in positions ==> Located(entries, blocks, x, positions[x])
        decreases todo
      {
        var x :| x in todo;
        todo := todo - {x};
        var at := FirstIndex(BlockOf(blocks, slot), x);
        if at.None? { return false, map[]; }
        positions := positions[x := at.value];
        assert Located(entries, blocks, x, at.value);
      }
    }
    ok := true;
  }

  lemma NotShared(entries: seq<Entry>, slot: nat, signatures: set<Signature>)
    requires forall x :: x in signatures <==> Deposited(entries, slot, x)
    requires |signatures| < 2
    ensures !Shared(entries, slot)
  {
    forall e, f | e in entries && f in entries && e.slot == slot == f.slot
      ensures e.signature == f.signature
    {
      if e.signature != f.signature {
        assert {e.signature, f.signature} <= signatures;
        SubsetSize({e.signature, f.signature}, signatures);
      }
    }
  }

  lemma SharedBySize(entries: seq<Entry>, slot: nat, signatures: set<Signature>)
    requires forall x :: x in signatures <==> Deposited(entries, slot, x)
    requires |signatures| >= 2
    ensures Shared(entries, slot)
  {
    var x :| x in signatures;
    assert |signatures - {x}| == |signatures| - 1;
    var y :| y in signatures - {x};
    var e :| e in entries && e.slot == slot && e.signature == x;
    var f :| f in entries && f.slot == slot && f.signature == y;
  }

  lemma {:induction false} SubsetSize<T>(a: set<T>, b: set<T>)
    requires a <= b
    ensures |a| <= |b|
  {
    if a != {} {
      var x :| x in a;
      SubsetSize(a - {x}, b - {x});
    }
  }

  lemma NotBeforeIsTransitive(positions: map<Signature, nat>, a: Entry, b: Entry, c: Entry)
    requires !Before(positions, a, b) && !Before(positions, b, c)
    ensures !Before(positions, a, c)
  {}

  /** Insert an entry after the ones that are not after it. */
  method InsertEntry(es: seq<Entry>, e: Entry, positions: map<Signature, nat>) returns (r: seq<Entry>)
    requires Sorted(positions, es)
    ensures multiset(r) == multiset(es) + multiset{e}
    ensures Sorted(positions, r)
  {
    var k := |es|;
    while k > 0 && Before(positions, e, es[k - 1])
      invariant 0 <= k <= |es|
      invariant forall j :: k <= j < |es| ==> Before(positions, e, es[j])
    {
      k := k - 1;
    }
    r := es[..k] + [e] + es[k..];
    assert es == es[..k] + es[k..];
    forall i | 0 <= i < k
      ensures !Before(positions, e, es[i])
    {
      if i < k - 1 {
        NotBeforeIsTransitive(positions, e, es[k - 1], es[i]);
      }
    }
    InsertedIsSorted(positions, es, e, k);
  }

  lemma InsertedIsSorted(positions: map<Signature, nat>, es: seq<Entry>, e: Entry, k: nat)
    requires Sorted(positions, es) && k <= |es|
    requires forall i :: 0 <= i < k ==> !Before(positions, e, es[i])
    requires forall i :: k <= i < |es| ==> Before(positions, e, es[i])
    ensures Sorted(positions, es[..k] + [e] + es[k..])
  {
    var r := es[..k] + [e] + es[k..];
    forall i, j | 0 <= i < j < |r|
      ensures !Before(positions, r[j], r[i])
    {
      var x, y := if i < k then i else i - 1, if j < k then j else j - 1;
      assert i != k ==> r[i] == es[x];
      assert j != k ==> r[j] == es[y];
      if i != k && j != k {
        assert !Before(positions, es[y], es[x]);
      }
    }
  }

  method SortEntries(entries: seq<Entry>, positions: map<Signature, nat>) returns (sorted: seq<Entry>)
    ensures multiset(sorted) == multiset(entries)
    ensures Sorted(positions, sorted)
  {
    sorted := [];
    for i := 0 to |entries|
      invariant multiset(sorted) == multiset(entries[..i])
      invariant Sorted(positions, sorted)
    {
      assert entries[..i + 1] == entries[..i] + [entries[i]];
      sorted := InsertEntry(sorted, entries[i], positions);
    }
    assert entries[..|entries|] == entries;
  }

  /** `chronological`: the leaves in the order the program assigned their indices, or a refusal when a slot is
    not known or a block does not settle it. The witnesses of what was sorted come back as ghosts. */
  method Chronological(entries: seq<Entry>, blocks: Blocks, slotless: set<Signature>)
    returns (leaves: Option<seq<nat>>, ghost sorted: seq<Entry>, ghost positions: map<Signature, nat>)
    ensures leaves.Some? ==> leaves.value == LeavesOf(sorted) && multiset(sorted) == multiset(entries)
    ensures leaves.Some? ==> Positions(entries, blocks, positions) && Sorted(positions, sorted)
    ensures leaves.Some? ==> !AnySlotless(entries, slotless)
    ensures leaves.None? ==> AnySlotless(entries, slotless) || AnyUnlisted(entries, blocks)
  {
    var ok, at := BlockPositions(entries, blocks, slotless);
    positions := at;
    if !ok { return None, [], positions; }
    var inOrder := SortEntries(entries, at);
    sorted := inOrder;
    leaves := Some(LeavesOf(inOrder));
  }

  // ---------------------------------------------------------------- uniqueness of the order

  /** The order the chain executed them in. */
  predicate ChainBefore(blocks: Blocks, a: Entry, b: Entry) {
    || a.slot < b.slot
    || (a.slot == b.slot && a.signature == b.signature && a.order < b.order)
    || (a.slot == b.slot && a.signature != b.signature
        && var block := BlockOf(blocks, a.slot);
        var i, j := FirstIndex(block, a.signature), FirstIndex(block, b.signature);
        i.Some? && j.Some? && i.value < j.value)
  }

  ghost predicate InChainOrder(blocks: Blocks, es: seq<Entry>) {
    && (forall i, j :: 0 <= i < j < |es| ==> ChainBefore(blocks, es[i], es[j]))
    && (forall e, f :: e in es && f in es && e.signature == f.signature ==> e.slot == f.slot)
  }

  /** Whatever order the entries were found in, sorting them gives back the order of execution. */
  lemma SortingRecoversChainOrder(blocks: Blocks, executed: seq<Entry>, entries: seq<Entry>, sorted: seq<Entry>,
                                  positions: map<Signature, nat>)
    requires InChainOrder(blocks, executed)
    requires multiset(entries) == multiset(executed) == multiset(sorted)
    requires Positions(entries, blocks, positions) && Sorted(positions, sorted)
    ensures sorted == executed
  {
    SameMembers(entries, executed);
    var less := (x: Entry, y: Entry) => Before(positions, x, y);
    forall i, j | 0 <= i < j < |executed|
      ensures less(executed[i], executed[j])
    {
      KeyFollowsChain(blocks, executed, entries, positions, executed[i], executed[j]);
    }
    SortedIsUnique(less, executed, sorted);
  }

  lemma PositionIsBlockIndex(blocks: Blocks, executed: seq<Entry>, entries: seq<Entry>, positions: map<Signature, nat>,
                             a: Entry)
    requires InChainOrder(blocks, executed) && Positions(entries, blocks, positions)
    requires forall e :: e in entries <==> e in executed
    requires a in entries && Shared(entries, a.slot)
    ensures FirstIndex(BlockOf(blocks, a.slot), a.signature) == Some(PositionOf(positions, a))
  {
    assert a.signature in positions;
    assert Located(entries, blocks, a.signature, positions[a.signature]);
  }

  lemma KeyFollowsChain(blocks: Blocks, executed: seq<Entry>, entries: seq<Entry>, positions: map<Signature, nat>,
                        a: Entry, b: Entry)
    requires InChainOrder(blocks, executed) && Positions(entries, blocks, positions)
    requires forall e :: e in entries <==> e in executed
    requires a in executed && b in executed && ChainBefore(blocks, a, b)
    ensures Before(positions, a, b)
  {
    if a.slot == b.slot && a.signature != b.signature {
      assert Shared(entries, a.slot);
      PositionIsBlockIndex(blocks, executed, entries, positions, a);
      PositionIsBlockIndex(blocks, executed, entries, positions, b);
    }
  }
}
