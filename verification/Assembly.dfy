/** Merging a scan into the leaves already known. */
module Assembly {
  import opened Field
  import opened History

  function FromBase(base: seq<nat>): map<nat, nat> {
    map i: nat | i < |base| :: base[i]
  }

  /** Indexed deposits go where their event says, the later one winning. */
  function Overlay(m: map<nat, nat>, placed: seq<Placed>): map<nat, nat> {
    if placed == [] then m
    else
      var last := placed[|placed| - 1];
      Overlay(m, placed[..|placed| - 1])[last.index := last.leaf]
  }

  /** The positions below `n` nothing is known for, ascending. */
  function Holes(m: map<nat, nat>, n: nat): seq<nat> {
    if n == 0 then [] else Holes(m, n - 1) + if n - 1 in m then [] else [n - 1]
  }

  function Fill(m: map<nat, nat>, holes: seq<nat>, leaves: seq<nat>): map<nat, nat>
    requires |holes| == |leaves|
  {
    if holes == [] then m
    else Fill(m, holes[..|holes| - 1], leaves[..|leaves| - 1])[holes[|holes| - 1] := leaves[|leaves| - 1]]
  }

  /** The leaves from position 0 up to the first gap, at most `n` of them. */
  function DensePrefix(m: map<nat, nat>, n: nat): (d: seq<nat>)
    ensures |d| <= n
  {
    if n == 0 then []
    else
      var d := DensePrefix(m, n - 1);
      if |d| == n - 1 && n - 1 in m then d + [m[n - 1]] else d
  }

  /** Holes are filled only when there are exactly as many indexless deposits as holes. */
  function Assembled(base: seq<nat>, placed: seq<Placed>, unindexed: seq<nat>, nextIndex: nat): seq<nat> {
    var m := Overlay(FromBase(base), placed);
    var holes := Holes(m, nextIndex);
    DensePrefix(if |holes| > 0 && |holes| == |unindexed| then Fill(m, holes, unindexed) else m, nextIndex)
  }

  method IndexLeaves(base: seq<nat>, placed: seq<Placed>) returns (byIndex: map<nat, nat>)
    ensures byIndex == Overlay(FromBase(base), placed)
  {
    byIndex := map[];
    for i := 0 to |base|
      invariant byIndex == FromBase(base[..i])
    {
      byIndex := byIndex[i := base[i]];
    }
    assert base[..|base|] == base;
    for i := 0 to |placed|
      invariant byIndex == Overlay(FromBase(base), placed[..i])
    {
      assert placed[..i + 1][..i] == placed[..i];
      byIndex := byIndex[placed[i].index := placed[i].leaf];
    }
    assert placed[..|placed|] == placed;
  }

  method Assemble(base: seq<nat>, placed: seq<Placed>, unindexed: seq<nat>, nextIndex: nat) returns (dense: seq<nat>)
    ensures dense == Assembled(base, placed, unindexed, nextIndex)
  {
    var byIndex := IndexLeaves(base, placed);
    var holes := FindHoles(byIndex, nextIndex);
    if |holes| > 0 && |holes| == |unindexed| {
      byIndex := FillHoles(byIndex, holes, unindexed);
    }
    dense := TakeDense(byIndex, nextIndex);
  }

  method FindHoles(byIndex: map<nat, nat>, nextIndex: nat) returns (holes: seq<nat>)
    ensures holes == Holes(byIndex, nextIndex)
  {
    holes := [];
    for i := 0 to nextIndex
      invariant holes == Holes(byIndex, i)
    {
      if i !in byIndex { holes := holes + [i]; }
    }
  }

  method FillHoles(known: map<nat, nat>, holes: seq<nat>, unindexed: seq<nat>) returns (byIndex: map<nat, nat>)
    requires |holes| == |unindexed|
    ensures byIndex == Fill(known, holes, unindexed)
  {
    byIndex := known;
    for k := 0 to |holes|
      invariant byIndex == Fill(known, holes[..k], unindexed[..k])
    {
      FillOne(known, holes, unindexed, k);
      byIndex := byIndex[holes[k] := unindexed[k]];
    }
    assert holes[..|holes|] == holes && unindexed[..|unindexed|] == unindexed;
  }

  lemma FillOne(m: map<nat, nat>, holes: seq<nat>, leaves: seq<nat>, k: nat)
    requires |holes| == |leaves| && k < |holes|
    ensures Fill(m, holes[..k + 1], leaves[..k + 1]) == Fill(m, holes[..k], leaves[..k])[holes[k] := leaves[k]]
  {
    assert holes[..k + 1][..k] == holes[..k] && leaves[..k + 1][..k] == leaves[..k];
  }

  method TakeDense(byIndex: map<nat, nat>, nextIndex: nat) returns (dense: seq<nat>)
    ensures dense == DensePrefix(byIndex, nextIndex)
  {
    dense := [];
    var i := 0;
    while i < nextIndex && i in byIndex
      invariant 0 <= i <= nextIndex
      invariant |dense| == i && dense == DensePrefix(byIndex, i)
    {
      dense := dense + [byIndex[i]];
      i := i + 1;
    }
    PrefixStopsAtGap(byIndex, i, nextIndex);
  }

  lemma {:induction false} PrefixStopsAtGap(m: map<nat, nat>, i: nat, n: nat)
    requires i <= n && (i < n ==> i !in m) && |DensePrefix(m, i)| == i
    ensures DensePrefix(m, n) == DensePrefix(m, i)
    decreases n - i
  {
    if i < n {
      var k := i;
      while k < n
        invariant i <= k <= n
        invariant DensePrefix(m, k) == DensePrefix(m, i)
      {
        k := k + 1;
      }
    }
  }

  // ---------------------------------------------------------------- correctness against the true leaves

  /** Everything the map knows is what the chain inserted. */
  ghost predicate Agrees(m: map<nat, nat>, leaves: seq<nat>) {
    forall i :: i in m && i < |leaves| ==> m[i] == leaves[i]
  }

  lemma {:induction false} OverlayKeys(m: map<nat, nat>, placed: seq<Placed>)
    ensures forall i :: i in Overlay(m, placed) <==> i in m || exists pl :: pl in placed && pl.index == i
  {
    if placed != [] {
      var init, last := placed[..|placed| - 1], placed[|placed| - 1];
      OverlayKeys(m, init);
      assert forall pl :: pl in placed <==> pl in init || pl == last;
    }
  }

  lemma {:induction false} OverlayAgrees(m: map<nat, nat>, placed: seq<Placed>, leaves: seq<nat>)
    requires Agrees(m, leaves)
    requires forall pl :: pl in placed && pl.index < |leaves| ==> pl.leaf == leaves[pl.index]
    ensures Agrees(Overlay(m, placed), leaves)
  {
    if placed != [] {
      assert placed[|placed| - 1] in placed;
      OverlayAgrees(m, placed[..|placed| - 1], leaves);
    }
  }

  lemma {:induction false} FillAgrees(m: map<nat, nat>, holes: seq<nat>, filling: seq<nat>, leaves: seq<nat>)
    requires Agrees(m, leaves) && |holes| == |filling|
    requires forall k :: 0 <= k < |holes| && holes[k] < |leaves| ==> filling[k] == leaves[holes[k]]
    ensures Agrees(Fill(m, holes, filling), leaves)
    ensures Fill(m, holes, filling).Keys == m.Keys + (set h | h in holes)
  {
    if holes != [] {
      var n := |holes| - 1;
      FillAgrees(m, holes[..n], filling[..n], leaves);
      assert forall h :: h in holes <==> h in holes[..n] || h == holes[n];
    }
  }

  lemma {:induction false} HolesAre(m: map<nat, nat>, n: nat)
    ensures forall i: nat :: i in Holes(m, n) <==> i < n && i !in m
  {
    if n > 0 {
      HolesAre(m, n - 1);
    }
  }

  /** The dense prefix of an agreeing map is a prefix of the leaves, all of it if nothing is missing. */
  lemma {:induction false} PrefixAgrees(m: map<nat, nat>, n: nat, leaves: seq<nat>)
    requires Agrees(m, leaves) && n <= |leaves|
    ensures DensePrefix(m, n) <= leaves[..n]
    ensures (forall i: nat :: i < n ==> i in m) <==> DensePrefix(m, n) == leaves[..n]
  {
    if n > 0 {
      PrefixAgrees(m, n - 1, leaves);
      assert leaves[..n] == leaves[..n - 1] + [leaves[n - 1]];
      if n - 1 !in m {
        assert |DensePrefix(m, n)| <= n - 1;
      }
    }
  }

  lemma {:induction false} PrefixWithoutFirst(m: map<nat, nat>, n: nat)
    requires 0 !in m
    ensures DensePrefix(m, n) == []
  {
    if n > 0 {
      PrefixWithoutFirst(m, n - 1);
    }
  }
}
