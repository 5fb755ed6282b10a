/** Rebuilding a pool's tree from its transaction history, an untrusted cache, and a check against the chain.

  The RPC is a parameter: what it answers to the k-th scan of the rebuild, for a given lower bound.
*/
module Rebuild {
  import opened Field
  import opened Words
  import opened MerkleSpec
  import opened PoolState
  import opened SdkTree
  import opened PoolLayout
  import opened TreeAgreement
  import opened Sequences
  import opened History
  import opened Chronology
  import opened Assembly
  import opened DepositRecovery
  import opened Reconstruction
  import opened LeafCache

  /** What one scan gets from the RPC: a refusal, or the transactions listed after the bound, the blocks' own
    order, the newest signature, and the transactions reported without a slot. */
  datatype Response =
    | Refused
    | Response(listing: seq<Tx>, blocks: Blocks, newest: Option<Signature>, slotless: set<Signature>)

  type Rpc = (nat, Option<Signature>) -> Response

  datatype Scan = Scan(indexed: seq<Placed>, unindexed: seq<nat>, newestSignature: Option<Signature>)

  // ---------------------------------------------------------------- scanning

  /** Scan the listed transactions. Fails when the RPC does, when an event has no usable index, and when an
    order cannot be settled. */
  method ScanDeposits(p: Program, pool: Key, response: Response)
    returns (scan: Option<Scan>, ghost sorted: seq<Entry>, ghost positions: map<Signature, nat>)
    requires p.Valid()
    ensures scan.Some? ==>
      && response.Response?
      && scan.value.indexed == Indexed(p, response.listing, pool)
      && scan.value.unindexed == LeavesOf(sorted)
      && scan.value.newestSignature == response.newest
      && multiset(sorted) == multiset(Unindexed(p, response.listing, pool))
      && Positions(Unindexed(p, response.listing, pool), response.blocks, positions) && Sorted(positions, sorted)
    ensures scan.None? ==> response.Refused? || !AllUsable(response.listing) || Unsettled(p, pool, response)
  {
    sorted, positions := [], map[];
    if response.Refused? { return None, sorted, positions; }
    var ok, indexed, entries := PairDeposits(p, response.listing, pool);
    if !ok { return None, sorted, positions; }
    var leaves;
    leaves, sorted, positions := Chronological(entries, response.blocks, response.slotless);
    if leaves.None? { return None, sorted, positions; }
    scan := Some(Scan(indexed, leaves.value, response.newest));
  }

  /** The order of two indexless deposits cannot be settled: a slot is missing, or a block does not list one. */
  ghost predicate Unsettled(p: Program, pool: Key, response: Response)
    requires response.Response?
  {
    var entries := Unindexed(p, response.listing, pool);
    AnySlotless(entries, response.slotless) || AnyUnlisted(entries, response.blocks)
  }

  // ---------------------------------------------------------------- an honest RPC

  /** The listing is, in any order, a stretch of the pool's history whose first deposit has leaf index `start`;
    the leaves up to its end begin with the on-chain ones, and no deposit that lost its index lies beyond
    those. */
  ghost predicate Covers(p: Program, pool: Key, response: Response, onchain: seq<nat>, part: seq<Tx>, start: nat,
                         leaves: seq<nat>) {
    response.Response? &&
    var rs := Records(p, part, pool, start);
    && response.slotless == {}
    && multiset(response.listing) == multiset(part)
    && HonestHistory(p, part, pool, start) && Ordered(response.blocks, part)
    && Recorded(rs, start, leaves) && onchain <= leaves
    && (forall r :: r in Unknown(rs) ==> r.index < |onchain|)
  }

  /** Without a lower bound the stretch begins with the pool's first deposit. */
  ghost predicate HonestResponse(p: Program, pool: Key, response: Response, unbounded: bool, onchain: seq<nat>) {
    exists part, start, leaves :: Covers(p, pool, response, onchain, part, start, leaves) && (unbounded ==> start == 0)
  }

  /** An RPC that answers honestly when it is asked without a bound or with one it accepts, and refuses to
    answer for any other. `accepts` is what it takes for a signature, which the ones it reports are. */
  ghost predicate HonestRpc(p: Program, pool: Key, rpc: Rpc, accepts: Signature -> bool, onchain: seq<nat>) {
    forall attempt, until ::
      if BoundAccepted(accepts, until)
      then HonestResponse(p, pool, rpc(attempt, until), until.None?, onchain)
        && BoundAccepted(accepts, rpc(attempt, until).newest)
      else rpc(attempt, until).Refused?
  }

  predicate BoundAccepted(accepts: Signature -> bool, until: Option<Signature>) {
    until.None? || accepts(until.value)
  }

  /** An honest scan does not fail. */
  lemma HonestScan(p: Program, pool: Key, response: Response, unbounded: bool, onchain: seq<nat>)
    requires HonestResponse(p, pool, response, unbounded, onchain)
    ensures response.Response? && AllUsable(response.listing) && !Unsettled(p, pool, response)
  {
    var part, start, leaves :| Covers(p, pool, response, onchain, part, start, leaves) && (unbounded ==> start == 0);
    Pairing(p, part, pool, start);
    SameMembers(response.listing, part);
    var entries := Unindexed(p, response.listing, pool);
    FlatRearranged(tx => UnindexedIn(p, tx, pool), response.listing, part);
    SameMembers(entries, Unindexed(p, part, pool));
    forall e | e in entries && Shared(entries, e.slot)
      ensures e.signature in BlockOf(response.blocks, e.slot)
    {
      SharedBlocksListThem(p, response.blocks, part, pool, entries, e);
    }
  }

  /** What an honest scan is worth over a base that is a prefix of the chain's leaves, or runs past them: if the
    result is complete it is the chain's leaves. Without base and bound it is complete. */
  lemma HonestAssembly(p: Program, pool: Key, response: Response, unbounded: bool, base: seq<nat>, onchain: seq<nat>,
                       sorted: seq<Entry>, positions: map<Signature, nat>)
    requires response.Response? && HonestResponse(p, pool, response, unbounded, onchain) && Comparable(base, onchain)
    requires multiset(sorted) == multiset(Unindexed(p, response.listing, pool))
    requires Positions(Unindexed(p, response.listing, pool), response.blocks, positions) && Sorted(positions, sorted)
    ensures var dense := Assembled(base, Indexed(p, response.listing, pool), LeavesOf(sorted), |onchain|);
      (unbounded && base == []) || |dense| == |onchain| ==> dense == onchain
  {
    var part, start, leaves :| Covers(p, pool, response, onchain, part, start, leaves) && (unbounded ==> start == 0);
    var placed, rs := Indexed(p, response.listing, pool), Records(p, part, pool, start);
    ScanIsFaithful(p, response.blocks, part, response.listing, pool, start, sorted, positions);
    CompleteIsRight(base, placed, rs, start, leaves, onchain);
    if unbounded && base == [] {
      RecoversPrefix(placed, rs, start, leaves, |onchain|);
      assert leaves[..start] == base;
    }
  }

  // ---------------------------------------------------------------- the rebuild

  method BuildTree(poseidon: Poseidon, leaves: seq<nat>) returns (tree: MerkleTree)
    ensures fresh(tree) && tree.Valid() && tree.depth == DEPTH && tree.poseidon == poseidon
    ensures tree.Leaves() == leaves
  {
    tree := new MerkleTree(poseidon, DEPTH);
    for i := 0 to |leaves|
      invariant fresh(tree) && tree.Valid()
      invariant tree.Leaves() == leaves[..i]
    {
      var index := tree.Insert(leaves[i]);
    }
    assert leaves[..|leaves|] == leaves;
  }

  /** A scan of the whole history, assembled from nothing. */
  method FullRescan(p: Program, pool: Key, response: Response, nextIndex: nat, ghost onchain: seq<nat>)
    returns (leaves: Option<seq<nat>>)
    requires p.Valid()
    ensures HonestResponse(p, pool, response, true, onchain) && nextIndex == |onchain| ==> leaves == Some(onchain)
  {
    var scan, sorted, positions := ScanDeposits(p, pool, response);
    if HonestResponse(p, pool, response, true, onchain) {
      HonestScan(p, pool, response, true, onchain);
    }
    if scan.None? { return None; }
    var dense := Assemble([], scan.value.indexed, scan.value.unindexed, nextIndex);
    if HonestResponse(p, pool, response, true, onchain) {
      HonestAssembly(p, pool, response, true, [], onchain, sorted, positions);
    }
    leaves := Some(dense);
  }

  /** The rebuild gets past its first scan: the cache already has the chain's count, or its bound is one the
    RPC accepts. A cold cache has no bound. */
  predicate BoundUsable(cached: Cached, nextIndex: nat, accepts: Signature -> bool) {
    |cached.leaves| == nextIndex || BoundAccepted(accepts, cached.lastSignature)
  }

  /** The newest signature a scan reported, and what becomes of the bound after one. */
  function NewestOf(response: Response): Option<Signature> {
    if response.Response? then response.newest else None
  }

  function Later(response: Response, bound: Option<Signature>): Option<Signature> {
    if NewestOf(response).Some? then NewestOf(response) else bound
  }

  /** The leaves to try first: the cache's, extended by an incremental scan, or a full rescan's when that is
    not complete. A cache that holds a prefix of the chain's leaves, or runs past them, gives the chain's. */
  method GatherLeaves(p: Program, pool: Key, rpc: Rpc, nextIndex: nat, cached: Cached, cache: Cache,
                      ghost accepts: Signature -> bool, ghost onchain: seq<nat>)
    returns (leaves: Option<seq<nat>>, newest: Option<Signature>)
    requires p.Valid()
    modifies cache
    ensures |cached.leaves| == nextIndex ==> leaves == Some(cached.leaves) && cache.stored == old(cache.stored)
    ensures |cached.leaves| == nextIndex ==> newest == cached.lastSignature
    ensures leaves.Some? && |cached.leaves| != nextIndex ==>
      newest == Later(rpc(0, cached.lastSignature), cached.lastSignature) || newest == NewestOf(rpc(1, None))
    ensures cache.stored == old(cache.stored) || cache.stored == Absent
    ensures HonestRpc(p, pool, rpc, accepts, onchain) && nextIndex == |onchain| ==>
      && (leaves.Some? <==> BoundUsable(cached, nextIndex, accepts))
      && (leaves.Some? && Comparable(cached.leaves, onchain) ==> leaves.value == onchain)
      && (leaves.None? ==> cache.stored == old(cache.stored))
      && (BoundAccepted(accepts, cached.lastSignature) ==> BoundAccepted(accepts, newest))
  {
    newest := cached.lastSignature;
    if |cached.leaves| == nextIndex {
      return Some(cached.leaves), newest;
    }
    var response := rpc(0, cached.lastSignature);
    var scan, sorted, positions := ScanDeposits(p, pool, response);
    ghost var honest := HonestRpc(p, pool, rpc, accepts, onchain) && nextIndex == |onchain|;
    if honest && BoundAccepted(accepts, cached.lastSignature) {
      HonestScan(p, pool, response, cached.lastSignature.None?, onchain);
    }
    if scan.None? { return None, newest; }
    newest := if scan.value.newestSignature.Some? then scan.value.newestSignature else cached.lastSignature;
    var dense := Assemble(cached.leaves, scan.value.indexed, scan.value.unindexed, nextIndex);
    if |dense| != nextIndex {
      cache.Clear();
      var full := rpc(1, None);
      leaves := FullRescan(p, pool, full, nextIndex, onchain);
      newest := if full.Response? then full.newest else None;
    } else {
      if honest && Comparable(cached.leaves, onchain) {
        HonestAssembly(p, pool, response, cached.lastSignature.None?, cached.leaves, onchain, sorted, positions);
      }
      leaves := Some(dense);
    }
  }

  /** The cache as found is what a rebuild would return: it has the chain's count and a root in the ring. */
  ghost predicate Stands(h: Compress, stored: Stored, data: seq<Byte>) { MatchesPool(h, Loaded(stored).leaves, data) }

  /** What a rebuild with an honest RPC makes of the cached contents it found: whether it returns, and which
    leaves. They are the chain's for every cache that is a prefix of them or runs past them, and for a cache
    of the right length that does not pass verification. */
  ghost predicate RightFor(h: Compress, data: seq<Byte>, found: Cached, accepts: Signature -> bool, onchain: seq<nat>,
                           result: Option<seq<nat>>)
  {
    && (result.Some? <==> BoundUsable(found, |onchain|, accepts))
    && (result.Some? && Comparable(found.leaves, onchain) ==> result.value == onchain)
    && (|found.leaves| == |onchain| ==>
          result.value == if MatchesPool(h, found.leaves, data) then found.leaves else onchain)
  }

  /** The bound saved with the leaves is the newest signature of the scan they came from: the cached one if no
    scan was needed, that of the incremental scan or the old one if it reported none, or a full rescan's. */
  ghost predicate SavedBound(rpc: Rpc, found: Cached, leaves: seq<nat>, bound: Option<Signature>) {
    || (|found.leaves| == |leaves| && found.leaves == leaves && bound == found.lastSignature)
    || (|found.leaves| != |leaves| && bound == Later(rpc(0, found.lastSignature), found.lastSignature))
    || (|found.leaves| != |leaves| && bound == NewestOf(rpc(1, None)))
    || (found.leaves != [] && bound == NewestOf(rpc(2, None)))
  }

  /** What it leaves in the cache: on failure what was there; on success that, nothing, or what it returned. A
    bound the RPC accepts is never replaced by one that it does not. */
  ghost predicate CacheAfter(before: Stored, after: Stored, found: Cached, accepts: Signature -> bool,
                             result: Option<seq<nat>>)
  {
    && (result.None? ==> after == before)
    && (result.Some? ==> after == before || after == Absent || after == Written(result.value, BoundIn(after)))
    && (BoundAccepted(accepts, found.lastSignature) && after != before ==> BoundAccepted(accepts, BoundIn(after)))
  }

  function BoundIn(stored: Stored): Option<Signature> {
    if stored.Saved? then stored.lastSignature else None
  }

  function LeavesIn(r: Option<MerkleTree>): Option<seq<nat>>
    requires r.Some? ==> r.value.Valid()
    reads if r.Some? then {r.value} else {}
  {
    if r.Some? then Some(r.value.Leaves()) else None
  }

  /** `rebuildMerkleTree`. Whatever the cache holds and whatever the RPC answers, a tree is returned only if it
    passes verification, and a cache that passes is returned as it is. With an honest RPC a tree is returned
    exactly when the first scan's bound is usable, otherwise the cache stays, and `RightFor` says for which
    caches its leaves are the chain's own. */
  method RebuildMerkleTree(poseidon: Poseidon, p: Program, pool: Key, poolData: seq<Byte>, rpc: Rpc, cache: Cache,
                           ghost accepts: Signature -> bool, ghost onchain: seq<Element>)
    returns (r: Option<MerkleTree>)
    requires p.Valid()
    modifies cache
    ensures r.Some? ==> fresh(r.value) && r.value.Valid() && r.value.depth == DEPTH && r.value.poseidon == poseidon
    ensures r.Some? ==> MatchesPool(poseidon.two, r.value.Leaves(), poolData)
    ensures cache.available && Stands(poseidon.two, old(cache.stored), poolData) ==>
      r.Some? && r.value.Leaves() == Loaded(old(cache.stored)).leaves
    ensures Describes(poseidon.two, poolData, onchain) && HonestRpc(p, pool, rpc, accepts, onchain) ==>
      && RightFor(poseidon.two, poolData, old(cache.Content()), accepts, onchain, LeavesIn(r))
      && CacheAfter(old(cache.stored), cache.stored, old(cache.Content()), accepts, LeavesIn(r))
    ensures r.Some? && cache.available && cache.writable && |r.value.Leaves()| <= MAX_CACHED_LEAVES ==>
      && cache.stored.Saved? && cache.stored == Written(r.value.Leaves(), cache.stored.lastSignature)
      && SavedBound(rpc, old(cache.Content()), r.value.Leaves(), cache.stored.lastSignature)
  {
    var onChain := ReadPoolTreeState(poolData);
    if onChain.None? { return None; }
    var nextIndex := onChain.value.nextIndex;
    var cached := cache.Load();
    var gathered, newest := GatherLeaves(p, pool, rpc, nextIndex, cached, cache, accepts, onchain);
    if gathered.None? { return None; }
    r, newest := VerifyOrRescan(poseidon, p, pool, poolData, rpc, cache, cached, gathered.value, newest, accepts,
                                onchain);
    if r.Some? { cache.Save(r.value.Leaves(), newest); }
  }

  /** A tree over the gathered leaves, or when they fail and a cache was used, over a rescan of everything. */
  method VerifyOrRescan(poseidon: Poseidon, p: Program, pool: Key, poolData: seq<Byte>, rpc: Rpc, cache: Cache,
                        cached: Cached, gathered: seq<nat>, found: Option<Signature>,
                        ghost accepts: Signature -> bool, ghost onchain: seq<Element>)
    returns (r: Option<MerkleTree>, newest: Option<Signature>)
    requires p.Valid() && RING_END <= |poolData|
    modifies cache
    ensures r.Some? ==> fresh(r.value) && r.value.Valid() && r.value.depth == DEPTH && r.value.poseidon == poseidon
    ensures r.Some? ==> MatchesPool(poseidon.two, r.value.Leaves(), poolData)
    ensures cache.stored == old(cache.stored) || cache.stored == Absent
    ensures MatchesPool(poseidon.two, gathered, poolData) ==> r.Some? && r.value.Leaves() == gathered && newest == found
    ensures r.Some? && !MatchesPool(poseidon.two, gathered, poolData) ==>
      cached.leaves != [] && newest == NewestOf(rpc(2, None))
    ensures Describes(poseidon.two, poolData, onchain) && gathered == onchain ==> r.Some? && r.value.Leaves() == onchain
    ensures Describes(poseidon.two, poolData, onchain) && HonestRpc(p, pool, rpc, accepts, onchain) ==>
      && (cached.leaves != [] ==> r.Some?)
      && (!MatchesPool(poseidon.two, gathered, poolData) && r.Some? ==> r.value.Leaves() == onchain)
      && (BoundAccepted(accepts, found) ==> BoundAccepted(accepts, newest))
  {
    newest := found;
    r := VerifiedTree(poseidon, gathered, poolData);
    if Describes(poseidon.two, poolData, onchain) {
      TrueLeavesMatch(poseidon.two, onchain, poolData);
    }
    if r.None? && |cached.leaves| != 0 {
      cache.Clear();
      var full := rpc(2, None);
      r := FromHistory(poseidon, p, pool, poolData, full, U64At(poolData, OFF_NEXT_INDEX), onchain);
      newest := if full.Response? then full.newest else None;
    }
  }

  /** The last resort: a tree over what a scan of the whole history assembles to, if it passes verification. */
  method FromHistory(poseidon: Poseidon, p: Program, pool: Key, poolData: seq<Byte>, response: Response, nextIndex: nat,
                     ghost onchain: seq<Element>) returns (r: Option<MerkleTree>)
    requires p.Valid()
    ensures r.Some? ==> fresh(r.value) && r.value.Valid() && r.value.depth == DEPTH && r.value.poseidon == poseidon
    ensures r.Some? ==> MatchesPool(poseidon.two, r.value.Leaves(), poolData)
    ensures HonestResponse(p, pool, response, true, onchain) && MatchesPool(poseidon.two, onchain, poolData) ==>
      nextIndex == |onchain| ==> r.Some? && r.value.Leaves() == onchain
  {
    var rescanned := FullRescan(p, pool, response, nextIndex, onchain);
    if rescanned.None? { return None; }
    r := VerifiedTree(poseidon, rescanned.value, poolData);
  }

  /** A tree over the leaves, if it passes verification. */
  method VerifiedTree(poseidon: Poseidon, leaves: seq<nat>, poolData: seq<Byte>) returns (r: Option<MerkleTree>)
    ensures r.Some? <==> MatchesPool(poseidon.two, leaves, poolData)
    ensures r.Some? ==> fresh(r.value) && r.value.Valid() && r.value.depth == DEPTH && r.value.poseidon == poseidon
    ensures r.Some? ==> r.value.Leaves() == leaves
  {
    var tree := BuildTree(poseidon, leaves);
    var v := VerifyTreeMatchesPool(tree, poolData);
    r := if v.Verified? then Some(tree) else None;
  }

  /** The chain's own leaves pass verification. */
  lemma TrueLeavesMatch(h: Compress, onchain: seq<Element>, data: seq<Byte>)
    requires Describes(h, data, onchain)
    ensures MatchesPool(h, onchain, data)
  {
    ReduceCanonical(onchain);
    CurrentRootIsKnown(h, onchain);
  }

  /** Two rebuilds of one pool agree leaf for leaf, modulo the prime, exactly when they found the same root. */
  lemma RebuildsAgreeOnEqualRoots(h: Compress, a: seq<nat>, b: seq<nat>, onchain: seq<Element>, data: seq<Byte>)
    requires Describes(h, data, onchain) && MatchesPool(h, a, data) && MatchesPool(h, b, data)
    requires !TreeClash(h, ReduceAll(a), ReduceAll(b))
    ensures ReduceAll(a) == ReduceAll(b) <==> Root(h, ReduceAll(a)) == Root(h, ReduceAll(b))
  {
    CapacityIsPow2();
    if Root(h, ReduceAll(a)) == Root(h, ReduceAll(b)) {
      EqualRootsEqualLeaves(h, ReduceAll(a), ReduceAll(b));
    }
  }

  // ---------------------------------------------------------------- caches that change the answer

  /** Caches that are returned though they are not the chain's leaves: one leaf raised by the prime, or any of
    the last 255 leaves and all after it replaced by zeros. */
  lemma WrongCachesStand(h: Compress, onchain: seq<Element>, k: nat, data: seq<Byte>, bound: Option<Signature>)
    requires Describes(h, data, onchain) && k < |onchain| < k + ROOT_HISTORY_SIZE && onchain[k] != 0
    ensures var raised: seq<nat> := onchain[..k] + [onchain[k] + FR] + onchain[k + 1..];
      Stands(h, Written(raised, bound), data) && Loaded(Written(raised, bound)).leaves == raised != onchain
    ensures var zeroed := ZeroTail(onchain, k);
      Stands(h, Written(zeroed, bound), data) && Loaded(Written(zeroed, bound)).leaves == zeroed != onchain
  {
    NonCanonicalLeafPasses(h, onchain, k, data);
    ZeroTailPasses(h, onchain, k, data);
    var raised: seq<nat> := onchain[..k] + [onchain[k] + FR] + onchain[k + 1..];
    LoadUndoesSave(raised, bound);
    LoadUndoesSave(ZeroTail(onchain, k), bound);
  }

  /** A cache that blocks every rebuild: no leaves and a bound the RPC does not accept, for any pool with a
    deposit. The loader does not look at the bound. */
  lemma UnacceptedBoundBlocks(accepts: Signature -> bool, garbage: Signature, nextIndex: nat)
    requires !accepts(garbage)
    ensures var stored := Saved([], Some(garbage));
      && Loaded(stored) == Cached([], Some(garbage))
      && (BoundUsable(Loaded(stored), nextIndex, accepts) <==> nextIndex == 0)
  {}

  /** Such a cache fails the rebuild and survives it. */
  method RebuildIsBlocked(poseidon: Poseidon, p: Program, pool: Key, poolData: seq<Byte>, rpc: Rpc, cache: Cache,
                          garbage: Signature, ghost accepts: Signature -> bool, ghost onchain: seq<Element>)
    returns (r: Option<MerkleTree>)
    requires p.Valid() && cache.available && cache.stored == Saved([], Some(garbage)) && !accepts(garbage)
    requires Describes(poseidon.two, poolData, onchain) && onchain != []
    requires HonestRpc(p, pool, rpc, accepts, onchain)
    modifies cache
    ensures r == None && cache.stored == old(cache.stored)
  {
    UnacceptedBoundBlocks(accepts, garbage, |onchain|);
    r := RebuildMerkleTree(poseidon, p, pool, poolData, rpc, cache, accepts, onchain);
  }
}
