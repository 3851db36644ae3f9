/** The integer kernel of the Kafka Connect decimal codec: two's complement, big endian. */
module DecimalCodec {
  newtype byte = x: int | 0 <= x < 256

  function Pow256(n: nat): nat
    ensures Pow256(n) > 0
  {
    if n == 0 then 1 else 256 * Pow256(n - 1)
  }

  /** `new(big.Int).SetBytes` */
  function Unsigned(s: seq<byte>): nat {
    if s == [] then 0 else 256 * Unsigned(s[..|s| - 1]) + s[|s| - 1] as nat
  }

  /** `big.Int.Bytes`: the shortest big-endian form of the absolute value. */
  function Bytes(n: nat): seq<byte> {
    if n == 0 then [] else Bytes(n / 256) + [(n % 256) as byte]
  }

  predicate TopBit(s: seq<byte>) {
    s != [] && s[0] >= 0x80
  }

  /** The two's-complement reading of a byte string. */
  function Signed(s: seq<byte>): int {
    if TopBit(s) then Unsigned(s) - Pow256(|s|) else Unsigned(s)
  }

  function Inverted(s: seq<byte>): seq<byte> {
    seq(|s|, i requires 0 <= i < |s| => 255 - s[i])
  }

  // ---------------------------------------------------------------------------------------------
  // Byte strings and numbers

  lemma {:induction false} UnsignedBound(s: seq<byte>)
    ensures Unsigned(s) < Pow256(|s|)
  {
    if s != [] { UnsignedBound(s[..|s| - 1]); }
  }

  lemma {:induction false} UnsignedOfBytes(n: nat)
    ensures Unsigned(Bytes(n)) == n
  {
    if n != 0 {
      UnsignedOfBytes(n / 256);
      assert Bytes(n)[..|Bytes(n)| - 1] == Bytes(n / 256);
    }
  }

  lemma {:induction false} BytesBound(n: nat)
    requires n > 0
    ensures Bytes(n) != [] && Bytes(n)[0] != 0
    ensures Pow256(|Bytes(n)| - 1) <= n < Pow256(|Bytes(n)|)
  {
    if n >= 256 {
      BytesBound(n / 256);
    } else {
      assert Bytes(n / 256) == [];
    }
  }

  lemma {:induction false} PowMonotone(a: nat, b: nat)
    requires a <= b
    ensures Pow256(a) <= Pow256(b)
  {
    if a < b { PowMonotone(a, b - 1); }
  }

  lemma PowInjective(a: nat, b: nat)
    ensures Pow256(a) == Pow256(b) <==> a == b
  {
    if a < b { PowMonotone(a, b - 1); }
    if b < a { PowMonotone(b, a - 1); }
  }

  /** The length of the shortest form is fixed by the power range. */
  lemma BytesLength(n: nat, len: nat)
    requires len > 0
    ensures |Bytes(n)| == len <==> Pow256(len - 1) <= n < Pow256(len)
  {
    if n > 0 {
      BytesBound(n);
      if |Bytes(n)| < len { PowMonotone(|Bytes(n)|, len - 1); }
      if |Bytes(n)| > len { PowMonotone(len, |Bytes(n)| - 1); }
    }
  }

  lemma {:induction false} UnsignedPrefix(b: byte, s: seq<byte>)
    ensures Unsigned([b] + s) == b as nat * Pow256(|s|) + Unsigned(s)
  {
    var t := [b] + s;
    if s == [] {
      assert t[..0] == [];
    } else {
      UnsignedPrefix(b, s[..|s| - 1]);
      assert t[..|t| - 1] == [b] + s[..|s| - 1];
      assert 256 * (b as nat * Pow256(|s| - 1)) == b as nat * Pow256(|s|);
    }
  }

  /** Inverting every byte subtracts from the largest value of that length. */
  lemma {:induction false} InvertedValue(s: seq<byte>)
    ensures Unsigned(Inverted(s)) == Pow256(|s|) - 1 - Unsigned(s)
  {
    if s != [] {
      InvertedValue(s[..|s| - 1]);
      assert Inverted(s)[..|s| - 1] == Inverted(s[..|s| - 1]);
    }
  }

  // ---------------------------------------------------------------------------------------------
  // The codec

  /** The two's complement of a negative number over the length of its absolute value. */
  function Complement(n: nat): nat
    requires n > 0
  {
    BytesBound(n);
    Pow256(|Bytes(n)|) - n
  }

  function Encode(n: int): seq<byte> {
    if n < 0 then
      var data := Bytes(Complement(-n));
      if TopBit(data) then data else [255] + data
    else if TopBit(Bytes(n)) then [0] + Bytes(n) else Bytes(n)
  }

  method InvertInPlace(data: array<byte>)
    modifies data
    ensures data[..] == Inverted(old(data[..]))
  {
    for i := 0 to data.Length
      invariant forall k :: 0 <= k < i ==> data[k] == 255 - old(data[k])
      invariant forall k :: i <= k < data.Length ==> data[k] == old(data[k])
    {
      data[i] := 255 - data[i];
    }
  }

  method EncodeInteger(n: int) returns (data: seq<byte>)
    ensures data == Encode(n)
  {
    if n < 0 {
      var absolute := Bytes(-n);
      var buffer := new byte[|absolute|](i requires 0 <= i < |absolute| => absolute[i]);
      assert buffer[..] == absolute;
      InvertInPlace(buffer);
      var twoComplement := Unsigned(buffer[..]) + 1;
      InvertedValue(absolute);
      UnsignedOfBytes(-n);
      assert twoComplement == Complement(-n);
      data := Bytes(twoComplement);
      BytesBound(twoComplement);
      if data[0] < 0x80 { data := [255] + data; }
    } else {
      data := Bytes(n);
      if |data| > 0 && data[0] >= 0x80 { data := [0] + data; }
    }
  }

  /** Decodes every byte string to its signed value, and leaves the caller's bytes inverted if it is negative. */
  method DecodeInteger(data: array<byte>) returns (n: int)
    modifies data
    ensures n == Signed(old(data[..]))
    ensures data[..] == if TopBit(old(data[..])) then Inverted(old(data[..])) else old(data[..])
  {
    if data.Length > 0 && data[0] >= 0x80 {
      InvertInPlace(data);
      n := Unsigned(data[..]);
      InvertedValue(old(data[..]));
      n := -(n + 1);
    } else {
      n := Unsigned(data[..]);
    }
  }

  /** Decoding the same slice again does not give the number again but its bitwise complement. */
  lemma SecondDecodeDiffers(s: seq<byte>)
    requires TopBit(s)
    ensures Signed(Inverted(s)) == -Signed(s) - 1 && Signed(Inverted(s)) != Signed(s)
  {
    InvertedValue(s);
    UnsignedBound(s);
  }

  /** A leading sign byte does not change the value. */
  lemma SignExtension(s: seq<byte>)
    ensures !TopBit(s) ==> Signed([255] + s) == Unsigned(s) - Pow256(|s|)
    ensures Signed([0] + s) == Unsigned(s)
  {
    UnsignedPrefix(255, s);
    UnsignedPrefix(0, s);
  }

  lemma NonNegativeRoundTrip(n: nat)
    ensures Signed(Encode(n)) == n
  {
    UnsignedOfBytes(n);
    SignExtension(Bytes(n));
  }

  /**
   * What decoding an encoded negative number gives: leading zero bytes of the complement are
   * dropped, so the value is taken over a shorter length.
   */
  lemma NegativeDecoded(n: int)
    requires n > 0
    ensures Signed(Encode(-n)) == Complement(n) - Pow256(|Bytes(Complement(n))|)
  {
    var data := Bytes(Complement(n));
    UnsignedOfBytes(Complement(n));
    SignExtension(data);
  }

  /** A negative number comes back exactly when its absolute value is at most 255 * 256^(L-1), L its byte length. */
  lemma NegativeRoundTripExact(n: int)
    requires n > 0
    ensures Bytes(n) != []
    ensures Signed(Encode(-n)) == -n <==> n <= 255 * Pow256(|Bytes(n)| - 1)
  {
    var len := |Bytes(n)|;
    BytesBound(n);
    NegativeDecoded(n);
    var c := Complement(n);
    BytesLength(c, len);
    PowInjective(|Bytes(c)|, len);
    assert Pow256(len) == 256 * Pow256(len - 1);
  }

  /** The first number outside the fence of two bytes: it decodes as -1. */
  lemma FenceExample()
    ensures Encode(-65281) == [255] && Signed(Encode(-65281)) == -1
  {
    assert Bytes(65281) == Bytes(255) + [1] && Bytes(255) == Bytes(0) + [255];
    assert |Bytes(65281)| == 2;
    assert Pow256(2) == 65536 by { assert Pow256(1) == 256 * Pow256(0); }
    assert Complement(65281) == 255;
    assert Unsigned([255]) == 255 by { assert [255 as byte][..0] == []; }
    assert Pow256(1) == 256 * Pow256(0);
  }
}
