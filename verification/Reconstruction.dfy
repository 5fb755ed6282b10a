/** From a faithful scan to the pool's leaves: hole filling always gives a correct prefix, and the whole of
  it when no indexless deposit lies beyond the wanted count. */
module Reconstruction {
  import opened Field
  import opened History
  import opened Chronology
  import opened Assembly
  import opened DepositRecovery
  import opened Sequences

  // ---------------------------------------------------------------- the scan is faithful

  /** The blocks that have to be asked for do list the transactions. */
  lemma SharedBlocksListThem(p: Program, blocks: Blocks, txs: seq<Tx>, pool: Key, entries: seq<Entry>, e: Entry)
    requires Ordered(blocks, txs)
    requires forall x :: x in entries <==> x in Unindexed(p, txs, pool)
    requires e in entries && Shared(entries, e.slot)
    ensures e.signature in BlockOf(blocks, e.slot)
  {
    ExecutionIsChainOrder(p, blocks, txs, pool);
    var a, b :| a in entries && b in entries && a.slot == e.slot == b.slot && a.signature != b.signature;
    var f := if a.signature != e.signature then a else b;
    assert FromTransaction(txs, e) && FromTransaction(txs, f);
    NeighboursAreListed(blocks, txs, e, f);
  }

  lemma NeighboursAreListed(blocks: Blocks, txs: seq<Tx>, e: Entry, f: Entry)
    requires Ordered(blocks, txs) && FromTransaction(txs, e) && FromTransaction(txs, f)
    requires e.slot == f.slot && e.signature != f.signature
    ensures e.signature in BlockOf(blocks, e.slot)
  {
    var i :| 0 <= i < |txs| && txs[i].slot == e.slot && txs[i].signature == e.signature;
    var j :| 0 <= j < |txs| && txs[j].slot == f.slot && txs[j].signature == f.signature;
    assert i < j || j < i;
  }

  lemma SameIndexed(p: Program, listing: seq<Tx>, txs: seq<Tx>, pool: Key, x: Placed)
    requires multiset(listing) == multiset(txs)
    ensures x in Indexed(p, listing, pool) <==> x in Indexed(p, txs, pool)
  {
    var f := tx => IndexedIn(p, tx, pool);
    SameMembers(listing, txs);
    FlatMembers(f, listing, x);
    FlatMembers(f, txs, x);
  }

  /** Whatever order the listing came in, the scan finds the known deposits at their indices and the unknown
    ones in order of execution. */
  lemma ScanIsFaithful(p: Program, blocks: Blocks, txs: seq<Tx>, listing: seq<Tx>, pool: Key, start: nat,
                       sorted: seq<Entry>, positions: map<Signature, nat>)
    requires HonestHistory(p, txs, pool, start) && Ordered(blocks, txs) && multiset(listing) == multiset(txs)
    requires multiset(sorted) == multiset(Unindexed(p, listing, pool))
    requires Positions(Unindexed(p, listing, pool), blocks, positions) && Sorted(positions, sorted)
    ensures sorted == Entries(Unknown(Records(p, txs, pool, start)))
    ensures forall x :: x in Indexed(p, listing, pool) <==> x in Known(Records(p, txs, pool, start))
  {
    Pairing(p, txs, pool, start);
    FlatRearranged(tx => UnindexedIn(p, tx, pool), listing, txs);
    ExecutionIsChainOrder(p, blocks, txs, pool);
    SortingRecoversChainOrder(blocks, Unindexed(p, txs, pool), Unindexed(p, listing, pool), sorted, positions);
    forall x
      ensures x in Indexed(p, listing, pool) <==> x in Indexed(p, txs, pool)
    {
      SameIndexed(p, listing, txs, pool, x);
    }
  }

  // ---------------------------------------------------------------- assembling it

  /** The records are those of a stretch of the pool's leaves beginning at `start`. */
  ghost predicate Recorded(rs: seq<Record>, start: nat, leaves: seq<nat>) {
    && Consecutive(rs, start) && |leaves| == start + |rs|
    && forall i :: 0 <= i < |rs| ==> rs[i].entry.leaf == leaves[start + i]
  }

  ghost predicate PlacesKnown(placed: seq<Placed>, rs: seq<Record>) {
    forall x :: x in placed <==> x in Known(rs)
  }

  lemma {:induction false} KnownMembersUpTo(rs: seq<Record>, n: nat, x: Placed)
    requires n <= |rs|
    ensures x in KnownUpTo(rs, n) <==>
      exists i :: 0 <= i < n && rs[i].known && x == Placed(rs[i].entry.leaf, rs[i].index)
  {
    if n > 0 { KnownMembersUpTo(rs, n - 1, x); }
  }

  lemma KnownMembers(rs: seq<Record>, x: Placed)
    ensures x in Known(rs) <==> exists r :: r in rs && r.known && x == Placed(r.entry.leaf, r.index)
  {
    KnownMembersUpTo(rs, |rs|, x);
  }

  lemma {:induction false} UnknownMembersUpTo(rs: seq<Record>, n: nat, r: Record)
    requires n <= |rs|
    ensures r in UnknownUpTo(rs, n) <==> exists i :: 0 <= i < n && rs[i] == r && !r.known
  {
    if n > 0 { UnknownMembersUpTo(rs, n - 1, r); }
  }

  lemma UnknownMembers(rs: seq<Record>, r: Record)
    ensures r in Unknown(rs) <==> r in rs && !r.known
  {
    UnknownMembersUpTo(rs, |rs|, r);
  }

  lemma UnknownLeaf(rs: seq<Record>, start: nat, leaves: seq<nat>, r: Record)
    requires Recorded(rs, start, leaves) && r in Unknown(rs)
    ensures start <= r.index < |leaves| && r.entry.leaf == leaves[r.index]
  {
    UnknownMembers(rs, r);
    var i :| 0 <= i < |rs| && rs[i] == r;
  }

  /** The positions the merged map knows: those of the base and those of the known records. */
  lemma OverlaidKeys(base: seq<nat>, placed: seq<Placed>, rs: seq<Record>, start: nat, leaves: seq<nat>, i: nat)
    requires Recorded(rs, start, leaves) && PlacesKnown(placed, rs)
    ensures i in Overlay(FromBase(base), placed) <==> i < |base| || (start <= i < |leaves| && rs[i - start].known)
  {
    OverlayKeys(FromBase(base), placed);
    forall x | x in placed && x.index == i
      ensures start <= i < |leaves| && rs[i - start].known
    {
      KnownMembers(rs, x);
      var r :| r in rs && r.known && x == Placed(r.entry.leaf, r.index);
      var k :| 0 <= k < |rs| && rs[k] == r;
    }
    if start <= i < |leaves| && rs[i - start].known {
      var r := rs[i - start];
      KnownMembers(rs, Placed(r.entry.leaf, r.index));
      assert Placed(r.entry.leaf, r.index) in placed;
    }
  }

  /** The merged map agrees with any first part of the leaves that the base agrees with. */
  lemma OverlaidAgrees(base: seq<nat>, placed: seq<Placed>, rs: seq<Record>, start: nat, leaves: seq<nat>,
                      part: seq<nat>)
    requires Recorded(rs, start, leaves) && PlacesKnown(placed, rs) && part <= leaves
    requires Comparable(base, part)
    ensures Agrees(Overlay(FromBase(base), placed), part)
  {
    forall x | x in placed && x.index < |part|
      ensures x.leaf == part[x.index]
    {
      KnownMembers(rs, x);
      var r :| r in rs && r.known && x == Placed(r.entry.leaf, r.index);
      var k :| 0 <= k < |rs| && rs[k] == r;
    }
    OverlayAgrees(FromBase(base), placed, part);
  }

  function IndicesOf(rs: seq<Record>): (indices: seq<nat>)
    ensures |indices| == |rs|
  {
    seq(|rs|, i requires 0 <= i < |rs| => rs[i].index)
  }

  /** The map knows the positions below `b` and those of the known records, which begin at `start`. */
  ghost predicate KeysAre(m: map<nat, nat>, b: nat, rs: seq<Record>, start: nat) {
    forall i: nat :: i in m <==> IsKey(b, rs, start, i)
  }

  predicate IsKey(b: nat, rs: seq<Record>, start: nat, i: nat) {
    i < b || (start <= i < start + |rs| && rs[i - start].known)
  }

  lemma OverlaidKeysAre(base: seq<nat>, placed: seq<Placed>, rs: seq<Record>, start: nat, leaves: seq<nat>)
    requires Recorded(rs, start, leaves) && PlacesKnown(placed, rs)
    ensures KeysAre(Overlay(FromBase(base), placed), |base|, rs, start)
  {
    forall i: nat
      ensures i in Overlay(FromBase(base), placed) <==> IsKey(|base|, rs, start, i)
    {
      OverlaidKeys(base, placed, rs, start, leaves, i);
    }
  }

  lemma KeyAt(m: map<nat, nat>, b: nat, rs: seq<Record>, start: nat, i: nat)
    requires KeysAre(m, b, rs, start)
    ensures i in m <==> IsKey(b, rs, start, i)
  {}

  lemma UpToIsPrefix(rs: seq<Record>, k: nat)
    requires k <= |rs|
    ensures UnknownUpTo(rs, k) == Unknown(rs[..k])
  {
    Cut(rs, k);
    KnownLocal(rs[..k], rs[k..], k);
  }

  /** How many holes there are: everything between the base and the records, then the unknown records. */
  lemma {:induction false} HolesCounted(m: map<nat, nat>, b: nat, rs: seq<Record>, start: nat, n: nat)
    requires KeysAre(m, b, rs, start) && b <= start && n <= start + |rs|
    ensures n <= b ==> Holes(m, n) == []
    ensures b <= n <= start ==> |Holes(m, n)| == n - b
    ensures start <= n ==> |Holes(m, n)| == start - b + |UnknownUpTo(rs, n - start)|
    decreases n
  {
    if n > 0 {
      HolesCounted(m, b, rs, start, n - 1);
      KeyAt(m, b, rs, start, n - 1);
    }
  }

  /** Behind the exact base the holes are the unknown records, in order. */
  lemma {:induction false} HolesAreUnknown(m: map<nat, nat>, rs: seq<Record>, start: nat, k: nat)
    requires KeysAre(m, start, rs, start) && Consecutive(rs, start) && k <= |rs|
    ensures Holes(m, start + k) == IndicesOf(UnknownUpTo(rs, k))
  {
    if k == 0 {
      HolesCounted(m, start, rs, start, start + k);
    } else {
      HolesAreUnknown(m, rs, start, k - 1);
      KeyOfRecord(m, rs, start, k - 1);
      NextHole(m, start + k - 1, UnknownUpTo(rs, k - 1), rs[k - 1], UnknownUpTo(rs, k));
    }
  }

  lemma KeyOfRecord(m: map<nat, nat>, rs: seq<Record>, start: nat, k: nat)
    requires KeysAre(m, start, rs, start) && Consecutive(rs, start) && k < |rs|
    ensures rs[k].index == start + k && (start + k in m <==> rs[k].known)
  {
    assert start + k in m <==> IsKey(start, rs, start, start + k);
  }

  lemma NextHole(m: map<nat, nat>, n: nat, before: seq<Record>, r: Record, after: seq<Record>)
    requires Holes(m, n) == IndicesOf(before) && r.index == n && (n in m <==> r.known)
    requires after == if r.known then before else before + [r]
    ensures Holes(m, n + 1) == IndicesOf(after)
  {
    assert IndicesOf(before + [r]) == IndicesOf(before) + [r.index];
  }

  lemma UnknownSplit(rs: seq<Record>, k: nat)
    requires k <= |rs|
    ensures Unknown(rs) == Unknown(rs[..k]) + Unknown(rs[k..])
  {
    Cut(rs, k);
    SplitParts(rs, rs[..k], rs[k..]);
  }

  lemma SplitParts(rs: seq<Record>, a: seq<Record>, b: seq<Record>)
    requires a + b == rs
    ensures Unknown(rs) == Unknown(a) + Unknown(b)
  {
    KnownConcat(a, b);
  }

  lemma BeyondIsLate(rs: seq<Record>, start: nat, k: nat, r: Record)
    requires Consecutive(rs, start) && k <= |rs| && r in Unknown(rs[k..])
    ensures r in Unknown(rs) && start + k <= r.index
  {
    var beyond := rs[k..];
    UnknownSplit(rs, k);
    UnknownMembers(beyond, r);
    var i :| 0 <= i < |beyond| && beyond[i] == r;
    assert rs[k + i].index == start + k + i;
  }

  lemma NoneBeyond(rs: seq<Record>, start: nat, leaves: seq<nat>, n: nat)
    requires Recorded(rs, start, leaves) && start <= n <= |leaves|
    requires forall r :: r in Unknown(rs) ==> r.index < n
    ensures Unknown(rs[n - start..]) == []
  {
    var beyond := Unknown(rs[n - start..]);
    forall r | r in beyond
      ensures r in Unknown(rs) && n <= r.index
    {
      BeyondIsLate(rs, start, n - start, r);
    }
    if beyond != [] { HasMember(beyond); }
  }

  function Recovered(base: seq<nat>, placed: seq<Placed>, rs: seq<Record>, n: nat): seq<nat> {
    Assembled(base, placed, LeavesOf(Entries(Unknown(rs))), n)
  }

  /** When the holes are as many as the unknown records they are the unknown records. */
  lemma FillingIsRight(m: map<nat, nat>, rs: seq<Record>, start: nat, leaves: seq<nat>, n: nat)
    requires Recorded(rs, start, leaves) && KeysAre(m, start, rs, start) && Agrees(m, leaves) && start <= n <= |leaves|
    requires UnknownUpTo(rs, n - start) == Unknown(rs)
    ensures var holes, filling := Holes(m, n), LeavesOf(Entries(Unknown(rs)));
      |holes| == |filling| && Agrees(Fill(m, holes, filling), leaves)
      && forall i: nat :: i < n ==> i in Fill(m, holes, filling)
  {
    var holes, filling := Holes(m, n), LeavesOf(Entries(Unknown(rs)));
    HolesAreUnknown(m, rs, start, n - start);
    forall k | 0 <= k < |holes|
      ensures holes[k] < |leaves| && filling[k] == leaves[holes[k]]
    {
      UnknownLeaf(rs, start, leaves, Unknown(rs)[k]);
    }
    FillAgrees(m, holes, filling, leaves);
    HolesAre(m, n);
  }

  /** Deposit reconstruction. With the exact leaves before the scanned part as base, the result is a
    correct prefix of the pool's leaves whatever events were lost; and it is exactly the first `n` when no
    indexless deposit lies at or beyond `n`. */
  lemma RecoversPrefix(placed: seq<Placed>, rs: seq<Record>, start: nat, leaves: seq<nat>, n: nat)
    requires Recorded(rs, start, leaves) && PlacesKnown(placed, rs) && n <= |leaves|
    ensures Recovered(leaves[..start], placed, rs, n) <= leaves[..n]
    ensures (forall r :: r in Unknown(rs) ==> r.index < n) ==> Recovered(leaves[..start], placed, rs, n) == leaves[..n]
  {
    var base := leaves[..start];
    var m := Overlay(FromBase(base), placed);
    var holes, filling := Holes(m, n), LeavesOf(Entries(Unknown(rs)));
    OverlaidKeysAre(base, placed, rs, start, leaves);
    HolesCounted(m, start, rs, start, n);
    OverlaidAgrees(base, placed, rs, start, leaves, leaves);
    HolesAre(m, n);
    PrefixAgrees(m, n, leaves);
    if start <= n {
      CountsMatch(rs, start, leaves, n);
      if |holes| == |filling| {
        FillingIsRight(m, rs, start, leaves, n);
        PrefixAgrees(Fill(m, holes, filling), n, leaves);
      }
    }
    if holes == [] {
      assert forall i: nat :: i < n ==> i in m;
    }
  }

  // ---------------------------------------------------------------- any correct base

  /** Filling the holes over any base of correct leaves shorter than wanted fills them correctly. */
  lemma FillOverBase(base: seq<nat>, placed: seq<Placed>, rs: seq<Record>, start: nat, leaves: seq<nat>, n: nat)
    requires Recorded(rs, start, leaves) && PlacesKnown(placed, rs) && base <= leaves && |base| < n <= |leaves|
    requires forall r :: r in Unknown(rs) ==> r.index < n
    ensures var m := Overlay(FromBase(base), placed);
      var holes, filling := Holes(m, n), LeavesOf(Entries(Unknown(rs)));
      |holes| == |filling| ==> Agrees(Fill(m, holes, filling), leaves)
  {
    var m := Overlay(FromBase(base), placed);
    OverlaidKeysAre(base, placed, rs, start, leaves);
    OverlaidAgrees(base, placed, rs, start, leaves, leaves);
    if |base| <= start {
      FillBeforeRecords(m, |base|, rs, start, leaves, n);
    } else {
      FillInsideRecords(m, |base|, rs, start, leaves, n);
    }
  }

  /** A base that ends at or before the records: a gap before them would be too many holes. */
  lemma FillBeforeRecords(m: map<nat, nat>, b: nat, rs: seq<Record>, start: nat, leaves: seq<nat>, n: nat)
    requires Recorded(rs, start, leaves) && KeysAre(m, b, rs, start) && Agrees(m, leaves)
    requires b <= start && b < n <= |leaves|
    requires forall r :: r in Unknown(rs) ==> r.index < n
    ensures var holes, filling := Holes(m, n), LeavesOf(Entries(Unknown(rs)));
      |holes| == |filling| ==> Agrees(Fill(m, holes, filling), leaves)
  {
    HolesCounted(m, b, rs, start, n);
    if start < n {
      CountsMatch(rs, start, leaves, n);
      if b == start { FillingIsRight(m, rs, start, leaves, n); }
    } else {
      NoneBefore(rs, start, leaves, n);
    }
  }

  lemma NoneBefore(rs: seq<Record>, start: nat, leaves: seq<nat>, n: nat)
    requires Recorded(rs, start, leaves) && n <= start
    requires forall r :: r in Unknown(rs) ==> r.index < n
    ensures Unknown(rs) == []
  {
    if Unknown(rs) != [] {
      HasMember(Unknown(rs));
      UnknownLeaf(rs, start, leaves, Unknown(rs)[0]);
    }
  }

  /** A base that reaches into the records: those it covers are not holes, so that as many holes as unknown
    records means that none of these is covered. */
  lemma FillInsideRecords(m: map<nat, nat>, b: nat, rs: seq<Record>, start: nat, leaves: seq<nat>, n: nat)
    requires Recorded(rs, start, leaves) && KeysAre(m, b, rs, start) && Agrees(m, leaves)
    requires start < b < n <= |leaves|
    requires forall r :: r in Unknown(rs) ==> r.index < n
    ensures var holes, filling := Holes(m, n), LeavesOf(Entries(Unknown(rs)));
      |holes| == |filling| ==> Agrees(Fill(m, holes, filling), leaves)
  {
    var beyond := rs[b - start..];
    KeysBeyond(m, b, rs, start);
    assert Recorded(beyond, b, leaves);
    UnknownSplit(rs, b - start);
    forall r | r in Unknown(beyond)
      ensures r.index < n
    {
      assert r in Unknown(rs);
    }
    HolesCounted(m, b, beyond, b, n);
    CountsMatch(beyond, b, leaves, n);
    if |Holes(m, n)| == |Unknown(rs)| {
      assert Unknown(rs) == Unknown(beyond);
      FillingIsRight(m, beyond, b, leaves, n);
    }
  }

  lemma KeysBeyond(m: map<nat, nat>, b: nat, rs: seq<Record>, start: nat)
    requires KeysAre(m, b, rs, start) && start < b <= start + |rs|
    ensures KeysAre(m, b, rs[b - start..], b)
  {
    var beyond := rs[b - start..];
    forall i: nat
      ensures i in m <==> IsKey(b, beyond, b, i)
    {
      assert i in m <==> IsKey(b, rs, start, i);
      assert b <= i < start + |rs| ==> beyond[i - b] == rs[i - start];
    }
  }

  /** Whatever correct leaves are at hand before a scan, short, overlapping the scanned part or running past
    the wanted count, a result that is complete is right. */
  lemma CompleteIsRight(base: seq<nat>, placed: seq<Placed>, rs: seq<Record>, start: nat, leaves: seq<nat>,
                        onchain: seq<nat>)
    requires Recorded(rs, start, leaves) && PlacesKnown(placed, rs) && onchain <= leaves && Comparable(base, onchain)
    requires forall r :: r in Unknown(rs) ==> r.index < |onchain|
    ensures var dense := Recovered(base, placed, rs, |onchain|);
      |dense| == |onchain| ==> dense == onchain
  {
    var n := |onchain|;
    var m := Overlay(FromBase(base), placed);
    var holes, filling := Holes(m, n), LeavesOf(Entries(Unknown(rs)));
    OverlaidAgrees(base, placed, rs, start, leaves, onchain);
    PrefixAgrees(m, n, onchain);
    assert onchain[..n] == onchain;
    if |base| < n {
      FillOverBase(base, placed, rs, start, leaves, n);
      if |holes| == |filling| {
        assert Agrees(Fill(m, holes, filling), onchain);
        PrefixAgrees(Fill(m, holes, filling), n, onchain);
      }
    } else {
      OverlaidKeysAre(base, placed, rs, start, leaves);
      NoHoles(m, |base|, rs, start, n);
    }
  }

  lemma NoHoles(m: map<nat, nat>, b: nat, rs: seq<Record>, start: nat, n: nat)
    requires KeysAre(m, b, rs, start) && n <= b
    ensures Holes(m, n) == []
  {
    HolesAre(m, n);
    forall i: nat | i < n
      ensures i in m
    {
      assert IsKey(b, rs, start, i);
    }
    if Holes(m, n) != [] { HasMember(Holes(m, n)); }
  }

  /** The unknown records below `n` are all of them when none lies beyond. */
  lemma CountsMatch(rs: seq<Record>, start: nat, leaves: seq<nat>, n: nat)
    requires Recorded(rs, start, leaves) && start <= n <= |leaves|
    ensures (forall r :: r in Unknown(rs) ==> r.index < n) ==> UnknownUpTo(rs, n - start) == Unknown(rs)
    ensures |UnknownUpTo(rs, n - start)| == |Unknown(rs)| ==> UnknownUpTo(rs, n - start) == Unknown(rs)
  {
    UpToIsPrefix(rs, n - start);
    UnknownSplit(rs, n - start);
    if forall r :: r in Unknown(rs) ==> r.index < n {
      NoneBeyond(rs, start, leaves, n);
    }
  }

  /** A scan that starts too late recovers nothing without its base, so it is never mistaken for a whole. */
  lemma LateScanFindsNothing(placed: seq<Placed>, rs: seq<Record>, start: nat, leaves: seq<nat>, n: nat)
    requires Recorded(rs, start, leaves) && PlacesKnown(placed, rs) && 0 < n <= |leaves| && 0 < start
    requires forall r :: r in Unknown(rs) ==> r.index < n
    ensures Recovered([], placed, rs, n) == []
  {
    var none: seq<nat> := [];
    var m := Overlay(FromBase(none), placed);
    OverlaidKeysAre(none, placed, rs, start, leaves);
    HolesCounted(m, 0, rs, start, n);
    OverlaidKeys(none, placed, rs, start, leaves, 0);
    PrefixWithoutFirst(m, n);
    if start <= n {
      CountsMatch(rs, start, leaves, n);
    } else {
      NoneBefore(rs, start, leaves, n);
    }
  }
}
