/** The BN254 scalar field, as the values the hash works on.

  A 32-byte value is a `Word`, read big-endian. Poseidon works on `Element`s, the words below
  the field prime; the on-chain syscall refuses anything else and the client library reduces it.
  The hash itself is a parameter: nothing below depends on which function it is.
*/
module Field {

  const FR: nat := 0x30644e72e131a029b85045b68181585d2833e84879b9709143e1f593f0000001
  const WORD_LIMIT: nat := 0x1_0000000000000000000000000000000000000000000000000000000000000000
  const U64_MAX: nat := 0xffff_ffff_ffff_ffff

  type Element = n: nat | n < FR
  type Word = n: nat | n < WORD_LIMIT
  type U64 = n: nat | n <= U64_MAX

  type Compress = (Element, Element) -> Element

  /** The three arities of Poseidon the protocol uses. */
  datatype Poseidon = Poseidon(
    one: Element -> Element,
    two: Compress,
    three: (Element, Element, Element) -> Element)

  datatype Option<+T> = None | Some(value: T)

  /** The client library's conversion of a big integer to a field element. */
  function Reduce(x: nat): (e: Element)
    ensures x < FR ==> e == x
  {
    x % FR
  }

  function ReduceAll(xs: seq<nat>): (es: seq<Element>)
    ensures |es| == |xs|
  {
    seq(|xs|, i requires 0 <= i < |xs| => Reduce(xs[i]))
  }
}
