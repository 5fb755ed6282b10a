/** The client's persistent cache of a pool's leaves. Nothing in it is trusted. */
module LeafCache {
  import opened Field
  import opened Hex
  import opened History

  const MAX_CACHED_LEAVES: nat := 20_000

  /** What a storage key can hold: nothing, something that does not parse to the expected shape, or an entry
    of strings. */
  datatype Stored = Absent | Corrupt | Saved(leaves: seq<string>, lastSignature: Option<Signature>)

  datatype Cached = Cached(leaves: seq<nat>, lastSignature: Option<Signature>)

  predicate WellFormedLeaf(s: string) { |s| == 64 && AllHex(s) }

  function LeafToNumber(s: string): nat
    requires WellFormedLeaf(s)
  {
    FromHex(s)
  }

  /** One malformed leaf makes the whole entry a cold cache. */
  function Loaded(stored: Stored): Cached {
    if stored.Saved? && forall i :: 0 <= i < |stored.leaves| ==> WellFormedLeaf(stored.leaves[i])
    then
      var leaves := seq(|stored.leaves|, i requires 0 <= i < |stored.leaves| => LeafToNumber(stored.leaves[i]));
      Cached(leaves, stored.lastSignature)
    else Cached([], None)
  }

  /** What the client gets when the storage is available, and when it is not. */
  function ContentOf(available: bool, stored: Stored): Cached {
    if available then Loaded(stored) else Cached([], None)
  }

  function Written(leaves: seq<nat>, lastSignature: Option<Signature>): Stored {
    Saved(seq(|leaves|, i requires 0 <= i < |leaves| => Fixed(leaves[i], 64)), lastSignature)
  }

  /** Anything but 64 lower-case hexadecimal digits in one leaf empties the cache. */
  lemma MalformedIsCold(stored: Stored, i: nat)
    requires stored.Saved? && i < |stored.leaves|
    requires var s := stored.leaves[i];
      |s| != 64 || exists k :: 0 <= k < |s| && !('0' <= s[k] <= '9' || 'a' <= s[k] <= 'f')
    ensures Loaded(stored) == Cached([], None)
  {}

  /** What is saved is what is loaded, for leaves of 32 bytes. */
  lemma LoadUndoesSave(leaves: seq<nat>, lastSignature: Option<Signature>)
    requires forall i :: 0 <= i < |leaves| ==> leaves[i] < WORD_LIMIT
    ensures Loaded(Written(leaves, lastSignature)) == Cached(leaves, lastSignature)
  {
    Pow16Values();
    forall i | 0 <= i < |leaves|
      ensures WellFormedLeaf(Fixed(leaves[i], 64)) && FromHex(Fixed(leaves[i], 64)) == leaves[i]
    {
      FixedIsBijective(leaves[i], "", 64);
    }
  }

  class Cache {
    var stored: Stored
    /** Whether the browser's storage can be used, and whether a write fits in its quota. */
    const available: bool
    const writable: bool

    constructor (stored: Stored, available: bool, writable: bool)
      ensures this.stored == stored && this.available == available && this.writable == writable
    {
      this.stored := stored;
      this.available := available;
      this.writable := writable;
    }

    /** What the client gets out of the cache. */
    function Content(): Cached
      reads this
    {
      ContentOf(available, stored)
    }

    method Load() returns (c: Cached)
      ensures c == Content()
    {
      if !available || !stored.Saved? { return Cached([], None); }
      var leaves: seq<nat> := [];
      for i := 0 to |stored.leaves|
        invariant |leaves| == i
        invariant forall k :: 0 <= k < i ==>
          WellFormedLeaf(stored.leaves[k]) && leaves[k] == LeafToNumber(stored.leaves[k])
      {
        if !WellFormedLeaf(stored.leaves[i]) { return Cached([], None); }
        leaves := leaves + [LeafToNumber(stored.leaves[i])];
      }
      c := Cached(leaves, stored.lastSignature);
    }

    method Save(leaves: seq<nat>, lastSignature: Option<Signature>)
      modifies this
      ensures stored ==
        if |leaves| <= 20_000 && available && writable then Written(leaves, lastSignature) else old(stored)
    {
      if |leaves| > MAX_CACHED_LEAVES { return; }
      if available && writable {
        stored := Written(leaves, lastSignature);
      }
    }

    method Clear()
      modifies this
      ensures stored == if available then Absent else old(stored)
    {
      if available {
        stored := Absent;
      }
    }
  }
}
