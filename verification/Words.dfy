/** Byte strings and the numbers they stand for. */
module Words {
  import opened Field
  import opened Arith

  type Byte = n: nat | n < 256
  type Bytes32 = s: seq<Byte> | |s| == 32 witness seq(32, _ => 0)

  function Pow256(k: nat): (p: nat)
    ensures p >= 1
  {
    if k == 0 then 1 else 256 * Pow256(k - 1)
  }

  /** Big-endian value. */
  function BeValue(s: seq<Byte>): nat {
    if s == [] then 0 else 256 * BeValue(s[..|s| - 1]) + s[|s| - 1]
  }

  /** The last `k` big-endian base-256 digits. */
  function ToBe(n: nat, k: nat): (s: seq<Byte>)
    ensures |s| == k
  {
    if k == 0 then [] else ToBe(n / 256, k - 1) + [n % 256]
  }

  /** Little-endian value. */
  function LeValue(s: seq<Byte>): nat {
    if s == [] then 0 else s[0] + 256 * LeValue(s[1..])
  }

  function ToLe(n: nat, k: nat): (s: seq<Byte>)
    ensures |s| == k
  {
    if k == 0 then [] else [n % 256] + ToLe(n / 256, k - 1)
  }

  lemma {:induction false} BeValueIsBounded(s: seq<Byte>)
    ensures BeValue(s) < Pow256(|s|)
  {
    if s != [] {
      BeValueIsBounded(s[..|s| - 1]);
    }
  }

  lemma {:induction false} EqualValuesEqualBytes(s: seq<Byte>, t: seq<Byte>)
    requires |s| == |t| && BeValue(s) == BeValue(t)
    ensures s == t
  {
    if s != [] {
      var n := |s| - 1;
      EqualValuesEqualBytes(s[..n], t[..n]);
      assert s == s[..n] + [s[n]] && t == t[..n] + [t[n]];
    }
  }

  lemma {:induction false} BeRoundTrip(n: nat, k: nat)
    requires n < Pow256(k)
    ensures BeValue(ToBe(n, k)) == n
  {
    if k > 0 {
      BeRoundTrip(n / 256, k - 1);
      var s := ToBe(n, k);
      assert s[..|s| - 1] == ToBe(n / 256, k - 1);
    }
  }

  lemma {:induction false} LeRoundTrip(n: nat, k: nat)
    requires n < Pow256(k)
    ensures LeValue(ToLe(n, k)) == n
  {
    if k > 0 {
      LeRoundTrip(n / 256, k - 1);
    }
  }

  lemma {:induction false} FirstDifferenceDecides(s: seq<Byte>, t: seq<Byte>, i: nat)
    requires i < |s| == |t| && s[..i] == t[..i] && s[i] < t[i]
    ensures BeValue(s) < BeValue(t)
    decreases |s|
  {
    var n := |s| - 1;
    if i < n {
      assert s[..n][..i] == s[..i] && t[..n][..i] == t[..i];
      FirstDifferenceDecides(s[..n], t[..n], i);
    }
  }

  lemma {:induction false} LeadingZeros(zeros: nat, s: seq<Byte>)
    ensures BeValue(seq(zeros, _ => 0) + s) == BeValue(s)
    decreases zeros + |s|
  {
    var padded := seq(zeros, _ => 0) + s;
    if s != [] {
      assert padded[..|padded| - 1] == seq(zeros, _ => 0) + s[..|s| - 1];
      LeadingZeros(zeros, s[..|s| - 1]);
    } else if zeros > 0 {
      assert padded[..|padded| - 1] == seq(zeros - 1, _ => 0) + [];
      LeadingZeros(zeros - 1, []);
    }
  }

  lemma WordFits(s: Bytes32)
    ensures BeValue(s) < WORD_LIMIT
  {
    BeValueIsBounded(s);
    Pow256Of32();
  }

  lemma {:induction false} Pow256Sum(a: nat, b: nat)
    ensures Pow256(a + b) == Pow256(a) * Pow256(b)
  {
    if a > 0 {
      Pow256Sum(a - 1, b);
      Reassociate(256, Pow256(a - 1), Pow256(b));
    }
  }

  lemma Pow256Of32()
    ensures Pow256(8) == U64_MAX + 1
    ensures Pow256(16) == 0x1_0000000000000000_0000000000000000 < FR
    ensures Pow256(32) == WORD_LIMIT
  {
    assert Pow256(4) == 0x1_0000_0000;
    Pow256Sum(4, 4);
    Pow256Sum(8, 8);
    Pow256Sum(16, 16);
  }

  lemma {:induction false} BeConcat(s: seq<Byte>, t: seq<Byte>)
    ensures BeValue(s + t) == BeValue(s) * Pow256(|t|) + BeValue(t)
  {
    if t == [] {
      assert s + t == s;
    } else {
      var u := t[..|t| - 1];
      BeConcat(s, u);
      assert (s + t)[..|s + t| - 1] == s + u;
      assert 256 * (BeValue(s) * Pow256(|u|)) == BeValue(s) * Pow256(|t|);
    }
  }

  function Quad(a: nat, b: nat, c: nat, d: nat): nat {
    0x100_0000 * a + 0x1_0000 * b + 0x100 * c + d
  }

  // ---------------------------------------------------------------- canonical field elements

  const FR_ROW0: seq<Byte> := [0x30, 0x64, 0x4e, 0x72, 0xe1, 0x31, 0xa0, 0x29]
  const FR_ROW1: seq<Byte> := [0xb8, 0x50, 0x45, 0xb6, 0x81, 0x81, 0x58, 0x5d]
  const FR_ROW2: seq<Byte> := [0x28, 0x33, 0xe8, 0x48, 0x79, 0xb9, 0x70, 0x91]
  const FR_ROW3: seq<Byte> := [0x43, 0xe1, 0xf5, 0x93, 0xf0, 0x00, 0x00, 0x01]
  const BN254_FR: Bytes32 := (FR_ROW0 + FR_ROW1) + (FR_ROW2 + FR_ROW3)

  lemma PrefixStep(row: seq<Byte>, k: nat)
    requires k < |row|
    ensures BeValue(row[..k + 1]) == 256 * BeValue(row[..k]) + row[k]
  {
    assert row[..k + 1][..k] == row[..k];
  }

  lemma HalfRow(row: seq<Byte>, k: nat)
    requires k + 4 <= |row|
    ensures BeValue(row[..k + 4]) ==
      0x1_0000_0000 * BeValue(row[..k]) + Quad(row[k], row[k + 1], row[k + 2], row[k + 3])
  {
    PrefixStep(row, k);
    PrefixStep(row, k + 1);
    PrefixStep(row, k + 2);
    PrefixStep(row, k + 3);
  }

  lemma RowValue(row: seq<Byte>)
    requires |row| == 8
    ensures BeValue(row) == 0x1_0000_0000 * Quad(row[0], row[1], row[2], row[3]) + Quad(row[4], row[5], row[6], row[7])
  {
    HalfRow(row, 0);
    HalfRow(row, 4);
    assert row[..0] == [] && row[..8] == row;
  }

  lemma PrimeRows()
    ensures BeValue(FR_ROW0) == 0x30644e72e131a029 && BeValue(FR_ROW1) == 0xb85045b68181585d
    ensures BeValue(FR_ROW2) == 0x2833e84879b97091 && BeValue(FR_ROW3) == 0x43e1f593f0000001
  {
    RowValue(FR_ROW0);
    RowValue(FR_ROW1);
    RowValue(FR_ROW2);
    RowValue(FR_ROW3);
  }

  lemma JoinedValue(s: seq<Byte>, t: seq<Byte>, vs: nat, vt: nat, p: nat)
    requires BeValue(s) == vs && BeValue(t) == vt && Pow256(|t|) == p
    ensures BeValue(s + t) == vs * p + vt
  {
    BeConcat(s, t);
  }

  lemma PrimeBytes()
    ensures BeValue(BN254_FR) == FR
  {
    PrimeRows();
    Pow256Of32();
    JoinedValue(FR_ROW0, FR_ROW1, 0x30644e72e131a029, 0xb85045b68181585d, 0x1_0000000000000000);
    JoinedValue(FR_ROW2, FR_ROW3, 0x2833e84879b97091, 0x43e1f593f0000001, 0x1_0000000000000000);
    JoinedValue(FR_ROW0 + FR_ROW1, FR_ROW2 + FR_ROW3,
                0x30644e72e131a029b85045b68181585d, 0x2833e84879b9709143e1f593f0000001,
                0x1_00000000000000000000000000000000);
  }

  /** The byte loop accepts exactly the big-endian values below the prime. */
  method IsCanonicalFr(be: Bytes32) returns (canonical: bool)
    ensures canonical <==> BeValue(be) < FR
  {
    PrimeBytes();
    var i := 0;
    while i < 32
      invariant 0 <= i <= 32
      invariant forall k :: 0 <= k < i ==> be[k] == BN254_FR[k]
    {
      assert be[..i] == BN254_FR[..i];
      if be[i] < BN254_FR[i] {
        FirstDifferenceDecides(be, BN254_FR, i);
        return true;
      }
      if be[i] > BN254_FR[i] {
        FirstDifferenceDecides(BN254_FR, be, i);
        return false;
      }
      i := i + 1;
    }
    assert be == BN254_FR;
    return false;
  }

  /** Two accepted values the verifier cannot tell apart are the same 32 bytes, hence the same seed. */
  lemma AcceptedAliasesAreEqual(a: Bytes32, b: Bytes32)
    requires BeValue(a) < FR && BeValue(b) < FR
    requires Reduce(BeValue(a)) == Reduce(BeValue(b))
    ensures a == b
  {
    EqualValuesEqualBytes(a, b);
  }

  // ---------------------------------------------------------------- public keys

  /** A key's two 128-bit halves. */
  function Halves(key: Bytes32): (halves: (nat, nat)) {
    (BeValue(key[..16]), BeValue(key[16..]))
  }

  lemma HalvesAreCanonical(key: Bytes32)
    ensures Halves(key).0 < FR && Halves(key).1 < FR
  {
    BeValueIsBounded(key[..16]);
    BeValueIsBounded(key[16..]);
    Pow256Of32();
  }

  lemma HalvesDetermineKey(a: Bytes32, b: Bytes32)
    requires Halves(a) == Halves(b)
    ensures a == b
  {
    EqualValuesEqualBytes(a[..16], b[..16]);
    EqualValuesEqualBytes(a[16..], b[16..]);
    assert a == a[..16] + a[16..] && b == b[..16] + b[16..];
  }

  /** The field element a key is bound by, which three programs must compute alike. */
  function KeyToField(poseidon: Poseidon, key: Bytes32): Element {
    HalvesAreCanonical(key);
    poseidon.two(Halves(key).0, Halves(key).1)
  }

  /** On-chain: each half right-aligned in a 32-byte buffer, then hashed. */
  method PubkeyToFieldOnChain(poseidon: Poseidon, key: Bytes32) returns (r: Option<Element>)
    ensures r == Some(KeyToField(poseidon, key))
  {
    var hi: seq<Byte> := seq(16, _ => 0) + key[..16];
    var lo: seq<Byte> := seq(16, _ => 0) + key[16..];
    LeadingZeros(16, key[..16]);
    LeadingZeros(16, key[16..]);
    HalvesAreCanonical(key);
    if BeValue(hi) < FR && BeValue(lo) < FR {
      r := Some(poseidon.two(BeValue(hi), BeValue(lo)));
    } else {
      r := None;
    }
  }

  /** In the client library and in the relayer: the halves are accumulated byte by byte. */
  method PubkeyToField(poseidon: Poseidon, key: Bytes32) returns (e: Element)
    ensures e == KeyToField(poseidon, key)
  {
    var hi: nat, lo: nat := 0, 0;
    for i := 0 to 16
      invariant hi == BeValue(key[..i])
    {
      assert key[..i + 1][..i] == key[..i];
      hi := hi * 256 + key[i];
    }
    for i := 16 to 32
      invariant lo == BeValue(key[16..i])
    {
      assert key[16..i + 1][..i - 16] == key[16..i];
      lo := lo * 256 + key[i];
    }
    assert key[16..32] == key[16..];
    HalvesAreCanonical(key);
    e := poseidon.two(Reduce(hi), Reduce(lo));
  }

  /** Two keys with the same field element exhibit a collision of the hash. */
  lemma KeyEncodingBinds(poseidon: Poseidon, a: Bytes32, b: Bytes32)
    requires KeyToField(poseidon, a) == KeyToField(poseidon, b) && a != b
    ensures Halves(a) != Halves(b) && Halves(a).0 < FR && Halves(a).1 < FR && Halves(b).0 < FR && Halves(b).1 < FR
    ensures poseidon.two(Halves(a).0, Halves(a).1) == poseidon.two(Halves(b).0, Halves(b).1)
  {
    HalvesAreCanonical(a);
    HalvesAreCanonical(b);
    if Halves(a) == Halves(b) {
      HalvesDetermineKey(a, b);
    }
  }
}
