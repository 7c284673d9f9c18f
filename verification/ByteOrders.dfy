/** Numbers as bytes in either byte order. */
module ByteOrders {
  import opened Storage

  datatype ByteOrder = LittleEndian | BigEndian

  /** One more than the largest number of that many bytes. */
  function Limit(width: nat): (n: nat)
    ensures 0 < n
  {
    if width == 0 then 1 else 256 * Limit(width - 1)
  }

  /** The low bytes of n, in the given order. */
  function Encode(order: ByteOrder, width: nat, n: nat): (b: seq<byte>)
    ensures |b| == width
  {
    if width == 0 then []
    else match order
      case LittleEndian => [n % 256] + Encode(order, width - 1, n / 256)
      case BigEndian => Encode(order, width - 1, n / 256) + [n % 256]
  }

  function Decode(order: ByteOrder, b: seq<byte>): (n: nat)
    ensures n < Limit(|b|)
  {
    if b == [] then 0
    else match order
      case LittleEndian => b[0] + 256 * Decode(order, b[1..])
      case BigEndian => b[|b| - 1] + 256 * Decode(order, b[..|b| - 1])
  }

  lemma {:induction false} DecodeOfEncode(order: ByteOrder, width: nat, n: nat)
    requires n < Limit(width)
    ensures Decode(order, Encode(order, width, n)) == n
  {
    if width != 0 {
      DecodeOfEncode(order, width - 1, n / 256);
      var b := Encode(order, width, n);
      match order
      case LittleEndian => assert b[1..] == Encode(order, width - 1, n / 256);
      case BigEndian => assert b[..|b| - 1] == Encode(order, width - 1, n / 256);
    }
  }

  /** The bytes in the opposite order, as byteSwap leaves them. */
  function Swapped(b: seq<byte>): (r: seq<byte>)
    ensures |r| == |b|
  {
    if b == [] then [] else Swapped(b[1..]) + [b[0]]
  }

  function Other(order: ByteOrder): ByteOrder
  {
    if order == LittleEndian then BigEndian else LittleEndian
  }

  lemma {:induction false} SwappedEnds(b: seq<byte>)
    requires b != []
    ensures Swapped(b) == [b[|b| - 1]] + Swapped(b[..|b| - 1])
  {
    if |b| > 1 {
      SwappedEnds(b[1..]);
      assert b[1..][..|b| - 2] == b[..|b| - 1][1..];
    }
  }

  /** Swapping the bytes of a number turns one byte order into the other. */
  lemma {:induction false} EncodeSwapped(order: ByteOrder, width: nat, n: nat)
    ensures Swapped(Encode(order, width, n)) == Encode(Other(order), width, n)
  {
    if width != 0 {
      EncodeSwapped(order, width - 1, n / 256);
      var b := Encode(order, width, n);
      match order
      case LittleEndian => assert b[1..] == Encode(order, width - 1, n / 256);
      case BigEndian =>
        SwappedEnds(b);
        assert b[..|b| - 1] == Encode(order, width - 1, n / 256);
    }
  }

  lemma TwoBytes(order: ByteOrder, n: nat)
    ensures Encode(order, 2, n) == if order == LittleEndian then [n % 256, n / 256 % 256] else [n / 256 % 256, n % 256]
  {
    assert Encode(order, 0, n / 256 / 256) == [];
    assert Encode(order, 1, n / 256) == [n / 256 % 256];
  }

  lemma FourBytes(order: ByteOrder, n: nat)
    ensures var b := Encode(order, 4, n);
            var lowest, low, high, highest := n % 256, n / 256 % 256, n / 256 / 256 % 256, n / 256 / 256 / 256 % 256;
            b == if order == LittleEndian then [lowest, low, high, highest] else [highest, high, low, lowest]
  {
    assert Encode(order, 0, n / 256 / 256 / 256 / 256) == [];
    assert Encode(order, 1, n / 256 / 256 / 256) == [n / 256 / 256 / 256 % 256];
    TwoBytes(order, n / 256 / 256);
  }

  lemma DecodeTwo(order: ByteOrder, a: byte, b: byte)
    ensures Decode(order, [a, b]) == if order == LittleEndian then a + 256 * b else b + 256 * a
  {
    assert [a, b][1..] == [b] && [a, b][..1] == [a];
    assert Decode(order, [b]) == b && Decode(order, [a]) == a;
  }

  lemma DecodeFour(order: ByteOrder, a: byte, b: byte, c: byte, e: byte)
    ensures Decode(order, [a, b, c, e])
         == if order == LittleEndian then a + 256 * (b + 256 * (c + 256 * e)) else e + 256 * (c + 256 * (b + 256 * a))
  {
    if order == LittleEndian {
      assert [a, b, c, e][1..] == [b, c, e] && [b, c, e][1..] == [c, e];
      DecodeTwo(order, c, e);
    } else {
      assert [a, b, c, e][..3] == [a, b, c] && [a, b, c][..2] == [a, b];
      DecodeTwo(order, a, b);
    }
  }
}
