/** Rebuild after rebuild, each leaving its cache to the next. */
module RebuildRuns {
  import opened Field
  import opened Words
  import opened Sequences
  import opened TreeAgreement
  import opened History
  import opened LeafCache
  import opened Rebuild

  /** One rebuild: the account it read and the leaves behind it, the cache before and after, and its result. */
  datatype Session = Session(
    data: seq<Byte>, onchain: seq<Element>, before: Stored, after: Stored, result: Option<seq<nat>>)

  /** What `RebuildMerkleTree` ensures of a session with an honest RPC. */
  ghost predicate Honest(h: Compress, available: bool, accepts: Signature -> bool, s: Session) {
    var found := ContentOf(available, s.before);
    && Describes(h, s.data, s.onchain)
    && RightFor(h, s.data, found, accepts, s.onchain, s.result)
    && CacheAfter(s.before, s.after, found, accepts, s.result)
  }

  /** Each session finds the cache the one before it left, and reads some earlier or later state of one chain:
    the RPC of one session may lag behind that of another. */
  ghost predicate InOneBrowser(h: Compress, available: bool, accepts: Signature -> bool, chain: seq<Element>,
                               sessions: seq<Session>)
  {
    && (forall k :: 0 <= k < |sessions| ==> Honest(h, available, accepts, sessions[k]) && sessions[k].onchain <= chain)
    && (forall k :: 0 < k < |sessions| ==> sessions[k].before == sessions[k - 1].after)
  }

  /** The cache holds the first leaves of the chain and a bound the RPC accepts. A cold cache does. */
  ghost predicate Trustworthy(available: bool, accepts: Signature -> bool, chain: seq<nat>, stored: Stored) {
    ContentOf(available, stored).leaves <= chain && BoundAccepted(accepts, ContentOf(available, stored).lastSignature)
  }

  /** A session that starts from a trustworthy cache returns the chain's leaves and leaves such a cache. */
  lemma SessionIsRight(h: Compress, available: bool, accepts: Signature -> bool, chain: seq<Element>, s: Session)
    requires Honest(h, available, accepts, s) && s.onchain <= chain && Trustworthy(available, accepts, chain, s.before)
    ensures s.result == Some(s.onchain)
    ensures Trustworthy(available, accepts, chain, s.after)
  {
    var found := ContentOf(available, s.before);
    PrefixesCompare(found.leaves, s.onchain, chain);
    if s.after == Written(s.onchain, BoundIn(s.after)) {
      LoadUndoesSave(s.onchain, BoundIn(s.after));
    }
  }

  lemma PrefixesCompare(a: seq<nat>, b: seq<nat>, whole: seq<nat>)
    requires a <= whole && b <= whole
    ensures Comparable(a, b)
  {
    if |a| <= |b| {
      assert a == b[..|a|];
    } else {
      assert b == a[..|b|];
    }
  }

  /** Every rebuild of a browser that starts with a trustworthy cache, a cold one above all, returns the
    chain's own leaves, however often it rebuilds and whatever states of the chain it sees. */
  lemma {:induction false} EveryRebuildIsRight(h: Compress, available: bool, accepts: Signature -> bool,
                                               chain: seq<Element>, sessions: seq<Session>)
    requires InOneBrowser(h, available, accepts, chain, sessions)
    requires sessions != [] ==> Trustworthy(available, accepts, chain, sessions[0].before)
    ensures forall k :: 0 <= k < |sessions| ==> sessions[k].result == Some(sessions[k].onchain)
    ensures sessions != [] ==> Trustworthy(available, accepts, chain, sessions[|sessions| - 1].after)
  {
    if sessions != [] {
      var init, last := sessions[..|sessions| - 1], sessions[|sessions| - 1];
      EveryRebuildIsRight(h, available, accepts, chain, init);
      SessionIsRight(h, available, accepts, chain, last);
    }
  }

  /** In particular one that starts with no cache at all. */
  lemma EveryRebuildFromColdIsRight(h: Compress, available: bool, accepts: Signature -> bool,
                                    chain: seq<Element>, sessions: seq<Session>)
    requires InOneBrowser(h, available, accepts, chain, sessions)
    requires sessions != [] ==> sessions[0].before == Absent
    ensures forall k :: 0 <= k < |sessions| ==> sessions[k].result == Some(sessions[k].onchain)
  {
    EveryRebuildIsRight(h, available, accepts, chain, sessions);
  }
}
