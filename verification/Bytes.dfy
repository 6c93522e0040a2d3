/**
 Bytes, outcomes, and the fixed-width integers the loader reads (big-endian, from
 the object file) and writes (little-endian, into the module heap).
 */
module Bytes {

  type byte = b: int | 0 <= b < 256

  const TWO_TO_THE_32: nat := 0x1_0000_0000

  /** `Fail` stands for a panic, or for an access outside the mapped region. */
  datatype Result<+T> = Ok(value: T) | Fail {
    predicate IsFailure() {
      Fail?
    }

    function PropagateFailure<U>(): Result<U>
      requires Fail?
    {
      Fail
    }

    function Extract(): T
      requires Ok?
    {
      value
    }
  }

  function Pow256(n: nat): (p: nat)
    ensures p >= 1
  {
    if n == 0 then 1 else 256 * Pow256(n - 1)
  }

  /** The `n` low-order bytes of `v` in two's complement, least significant first. */
  function LE(v: int, n: nat): (bs: seq<byte>)
    ensures |bs| == n
    decreases n
  {
    if n == 0 then [] else [v % 256] + LE(v / 256, n - 1)
  }

  function FromLE(bs: seq<byte>): (v: nat)
    ensures v < Pow256(|bs|)
  {
    if bs == [] then 0 else bs[0] + 256 * FromLE(bs[1..])
  }

  /** The `n` low-order bytes of `v` in two's complement, most significant first. */
  function BE(v: int, n: nat): (bs: seq<byte>)
    ensures |bs| == n
    decreases n
  {
    if n == 0 then [] else BE(v / 256, n - 1) + [v % 256]
  }

  function FromBE(bs: seq<byte>): (v: nat)
    ensures v < Pow256(|bs|)
  {
    if bs == [] then 0 else 256 * FromBE(bs[..|bs| - 1]) + bs[|bs| - 1]
  }

  lemma {:induction false} FromLEOfLE(v: int, n: nat)
    requires 0 <= v + Pow256(n) < 2 * Pow256(n)
    ensures FromLE(LE(v, n)) == Unsigned(v, n)
    decreases n
  {
    if n > 0 {
      FromLEOfLE(v / 256, n - 1);
      assert LE(v, n)[1..] == LE(v / 256, n - 1);
    }
  }

  lemma {:induction false} FromBEOfBE(v: int, n: nat)
    requires 0 <= v + Pow256(n) < 2 * Pow256(n)
    ensures FromBE(BE(v, n)) == Unsigned(v, n)
    decreases n
  {
    if n > 0 {
      FromBEOfBE(v / 256, n - 1);
      assert BE(v, n)[..n - 1] == BE(v / 256, n - 1);
    }
  }

  /** The file has the high byte first, the region the low one. */
  lemma WordOrder(a: byte, b: byte, c: byte, d: byte)
    ensures FromBE([a, b, c, d]) == 0x100_0000 * a + 0x1_0000 * b + 0x100 * c + d
    ensures FromLE([a, b, c, d]) == a + 0x100 * b + 0x1_0000 * c + 0x100_0000 * d
  {
    var s := [a, b, c, d];
    assert s[..3] == [a, b, c] && [a, b, c][..2] == [a, b] && [a, b][..1] == [a] && [a][..0] == [];
    assert FromBE([a, b]) == 0x100 * a + b;
    assert s[1..] == [b, c, d] && [b, c, d][1..] == [c, d] && [c, d][1..] == [d] && [d][1..] == [];
    assert FromLE([c, d]) == c + 0x100 * d;
  }

  /** Two's complement: the pattern of a signed value and back. */
  function Unsigned(v: int, width: nat): int {
    if v < 0 then v + Pow256(width) else v
  }

  function Signed(u: int, width: nat): int {
    if 2 * u >= Pow256(width) then u - Pow256(width) else u
  }

  predicate InSigned(v: int, width: nat) {
    0 <= 2 * v + Pow256(width) < 2 * Pow256(width)
  }

  lemma Widths()
    ensures Pow256(1) == 0x100 && Pow256(2) == 0x1_0000 && Pow256(4) == TWO_TO_THE_32
    ensures Pow256(8) == 0x1_0000_0000_0000_0000
  {
  }

  /** `m` with the bytes from `i` on replaced by `bs`. */
  function Splice(m: seq<byte>, i: nat, bs: seq<byte>): (r: seq<byte>)
    requires i + |bs| <= |m|
    ensures |r| == |m|
    ensures forall j :: 0 <= j < |m| ==> r[j] == if i <= j < i + |bs| then bs[j - i] else m[j]
  {
    m[..i] + bs + m[i + |bs|..]
  }

  /** A splice followed by an adjacent one is one splice. */
  lemma SpliceAppend(m: seq<byte>, i: nat, bs: seq<byte>, cs: seq<byte>)
    requires i + |bs| + |cs| <= |m|
    ensures Splice(Splice(m, i, bs), i + |bs|, cs) == Splice(m, i, bs + cs)
  {
  }

  /** `b` holds the bytes `e` at offset `o`. */
  predicate Has(b: seq<byte>, o: nat, e: seq<byte>): (h: bool)
    ensures h ==> o + |e| <= |b|
  {
    o + |e| <= |b| && b[o..o + |e|] == e
  }

  lemma HasConcat(b: seq<byte>, o: nat, e: seq<byte>, f: seq<byte>)
    ensures Has(b, o, e + f) <==> Has(b, o, e) && Has(b, o + |e|, f)
  {
    if o + |e + f| <= |b| {
      assert b[o..o + |e + f|] == b[o..o + |e|] + b[o + |e|..o + |e| + |f|];
      assert (e + f)[..|e|] == e && (e + f)[|e|..] == f;
    }
  }

  lemma HasByte(b: seq<byte>, o: nat, c: byte)
    requires Has(b, o, [c])
    ensures b[o] == c
  {
  }
}
