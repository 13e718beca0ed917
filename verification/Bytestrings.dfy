/** The P4Runtime representation of numbers: big-endian byte strings padded to the width. */
module Bytestrings {
  import opened BigInt
  import opened Wrappers

  newtype byte = x: int | 0 <= x < 256

  /** The number a byte string stands for. */
  ghost function Decode(bs: seq<byte>): nat {
    if bs == [] then 0 else 256 * Decode(bs[..|bs| - 1]) + bs[|bs| - 1] as nat
  }

  lemma {:induction false} ShiftRightTwice(n: int, a: nat, b: nat)
    ensures ShiftRight(n, a + b) == ShiftRight(ShiftRight(n, a), b)
    decreases a
  {
    if a > 0 {
      ShiftRightTwice(n / 2, a - 1, b);
    }
  }

  lemma {:induction false} ShiftedOut(n: nat, k: nat)
    requires n < Pow2(k)
    ensures ShiftRight(n, k) == 0
    decreases k
  {
    if k > 0 {
      ShiftedOut(n / 2, k - 1);
    }
  }

  /** ... for one byte. */
  lemma LowByte(n: nat)
    ensures n == 256 * ShiftRight(n, 8) + And(n, 0xff)
    ensures 0 <= And(n, 0xff) < 256
  {
    ShiftAndMask(n, 8);
    assert Pow2(4) == 16;
    assert Pow2(8) == 256 by { assert Pow2(6) == 64; }
  }

  /** The last byte has the lowest eight bits, the one before it the next eight. */
  ghost predicate BigEndian(bs: seq<byte>, n: nat) {
    forall i | 0 <= i < |bs| :: HasBitsFrom(bs[i] as int, n, 8 * (|bs| - 1 - i))
  }

  ghost predicate HasBitsFrom(b: nat, n: nat, k: nat) {
    forall j: nat | j < 8 :: Bit(b, j) == Bit(n, k + j)
  }

  lemma {:induction false} DecodesBigEndian(bs: seq<byte>)
    ensures BigEndian(bs, Decode(bs))
  {
    if bs != [] {
      var front, last := bs[..|bs| - 1], bs[|bs| - 1] as int;
      DecodesBigEndian(front);
      forall i | 0 <= i < |bs| ensures HasBitsFrom(bs[i] as int, Decode(bs), 8 * (|bs| - 1 - i)) {
        var b: nat := bs[i] as int;
        forall j: nat | j < 8 ensures Bit(b, j) == Bit(Decode(bs), 8 * (|bs| - 1 - i) + j) {
          BitOfByte(Decode(front), last, 8 * (|bs| - 1 - i) + j);
          if i < |front| {
            assert HasBitsFrom(front[i] as int, Decode(front), 8 * (|front| - 1 - i));
            assert front[i] == bs[i];
          }
        }
      }
    }
  }

  lemma BitOfByte(n: nat, b: nat, i: nat)
    requires b < 256
    ensures Bit(256 * n + b, i) == if i < 8 then Bit(b, i) else Bit(n, i - 8)
  {
    BitOfEight(n, b, i, 8);
  }

  lemma {:induction false} BitOfEight(n: nat, b: nat, i: nat, k: nat)
    requires b < Pow2(k)
    ensures Bit(Pow2(k) * n + b, i) == if i < k then Bit(b, i) else Bit(n, i - k)
    decreases k
  {
    if k > 0 {
      var p := Pow2(k - 1);
      assert Pow2(k) * n + b == 2 * (p * n) + b by { assert 2 * p * n == 2 * (p * n); }
      assert (2 * (p * n) + b) / 2 == p * n + b / 2 && (2 * (p * n) + b) % 2 == b % 2;
      if i > 0 {
        BitOfEight(n, b / 2, i - 1, k - 1);
      }
    }
  }

  /** `stringReprConstant`. A value that is not negative has to fit the width. */
  method StringReprConstant(value: int, width: int) returns (r: Option<seq<byte>>)
    requires value >= 0 ==> width > 0 && value < Pow2(width)
    ensures value < 0 ==> r == None
    ensures value >= 0 ==> r.Some? && |r.value| == (width + 7) / 8 && Decode(r.value) == value
    ensures value >= 0 ==> BigEndian(r.value, value)
  {
    if value < 0 {
      return None;
    }
    var bitsRequired := FloorLog2(value);
    bitsRequired := bitsRequired + 1;
    assert width >= bitsRequired by {
      if bitsRequired > width {
        Pow2Grows(width, bitsRequired - 1);
      }
    }
    var bytes := (width + 7) / 8;
    var data := new byte[bytes];
    Pow2Grows(width, 8 * bytes);
    ShiftedOut(value, 8 * bytes);
    var i := 0;
    while i < data.Length
      invariant 0 <= i <= data.Length && bytes == data.Length - i
      invariant Decode(data[..i]) == ShiftRight(value, 8 * bytes)
    {
      bytes := bytes - 1;
      ShiftRightTwice(value, 8 * bytes, 8);
      ShiftRightKeepsSign(value, 8 * bytes);
      LowByte(ShiftRight(value, 8 * bytes));
      var v := And(ShiftRight(value, 8 * bytes), 0xff);
      data[i] := v as byte;
      assert data[..i + 1] == data[..i] + [data[i]];
      i := i + 1;
    }
    assert data[..] == data[..i];
    r := Some(data[..]);
    DecodesBigEndian(data[..]);
  }
}
