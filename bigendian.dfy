/** Byte values and the fixed big-endian byte order used for on-disc metadata fields. */
module BigEndian {

  /** One byte of a blob (`u8`). */
  newtype uint8 = x: int | 0 <= x < 256

  /** 256 to the power `n`: the number of values an `n`-byte field can hold. */
  function Pow256(n: nat): (r: nat)
    ensures r >= 1
  {
    if n == 0 then 1 else 256 * Pow256(n - 1)
  }

  /** The value of `s` read as an unsigned integer, most significant byte first. */
  function FromBigEndian(s: seq<uint8>): (v: nat)
    ensures v < Pow256(|s|)
  {
    if s == [] then 0 else FromBigEndian(s[..|s| - 1]) * 256 + s[|s| - 1] as nat
  }

  /** The `n`-byte big-endian representation of `v` (for `v` below `256^n`). */
  function ToBigEndian(v: nat, n: nat): (s: seq<uint8>)
    requires v < Pow256(n)
    ensures |s| == n
  {
    if n == 0 then [] else ToBigEndian(v / 256, n - 1) + [(v % 256) as uint8]
  }

  /** The first byte is the most significant one: it weighs `256^(|s|-1)`. */
  lemma {:induction false} MostSignificantFirst(s: seq<uint8>)
    requires |s| > 0
    ensures FromBigEndian(s) == s[0] as nat * Pow256(|s| - 1) + FromBigEndian(s[1..])
  {
    if |s| == 1 {
      assert s[..0] == [] && s[1..] == [];
    } else {
      var init, t := s[..|s| - 1], s[1..];
      MostSignificantFirst(init);
      assert init[0] == s[0];
      assert init[1..] == t[..|t| - 1];
      assert t[|t| - 1] == s[|s| - 1];
      var a, p, x, c := s[0] as nat, Pow256(|s| - 2), FromBigEndian(init[1..]), s[|s| - 1] as nat;
      assert FromBigEndian(init) == a * p + x;
      assert FromBigEndian(t) == x * 256 + c;
      assert Pow256(|s| - 1) == 256 * p;
      Regroup(a, p, x, c);
    }
  }

  lemma Regroup(a: nat, p: nat, x: nat, c: nat)
    ensures (a * p + x) * 256 + c == a * (256 * p) + (x * 256 + c)
  {}

  /** Encoding a value and decoding it again gives the value back. */
  lemma {:induction false} DecodeEncode(v: nat, n: nat)
    requires v < Pow256(n)
    ensures FromBigEndian(ToBigEndian(v, n)) == v
  {
    if n > 0 {
      var s := ToBigEndian(v, n);
      DecodeEncode(v / 256, n - 1);
      assert s[..|s| - 1] == ToBigEndian(v / 256, n - 1);
    }
  }

  /** Decoding `n` bytes and encoding the value in `n` bytes gives the bytes back. */
  lemma {:induction false} EncodeDecode(s: seq<uint8>)
    ensures ToBigEndian(FromBigEndian(s), |s|) == s
  {
    if s != [] {
      var init := s[..|s| - 1];
      var v := FromBigEndian(s);
      assert v / 256 == FromBigEndian(init);
      assert v % 256 == s[|s| - 1] as nat;
      EncodeDecode(init);
      assert s == init + [s[|s| - 1]];
    }
  }

  /** Two byte strings of the same width decode to the same value only when they are equal. */
  lemma DecodeInjective(s: seq<uint8>, t: seq<uint8>)
    requires |s| == |t| && FromBigEndian(s) == FromBigEndian(t)
    ensures s == t
  {
    EncodeDecode(s);
    EncodeDecode(t);
  }
}
