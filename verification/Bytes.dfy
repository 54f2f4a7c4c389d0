/** Bytes of a compiled pattern and the two-byte numbers stored in it. */
module Bytes {

  type byte = x: int | 0 <= x < 256

  /** The two bytes STORE_NUMBER writes: low byte first, then `number >> 8`, each cut to a byte. */
  function Store(n: int): (s: seq<byte>)
    ensures |s| == 2
  {
    [n % 256, (n / 256) % 256]
  }

  /** EXTRACT_NUMBER: the second byte is sign extended. */
  function Extract(s: seq<byte>, i: nat): int
    requires i + 1 < |s|
  {
    (s[i] as int) + 256 * (if s[i + 1] < 128 then s[i + 1] as int else s[i + 1] as int - 256)
  }

  /** A number survives being stored and read back exactly when it fits 16 signed bits. */
  lemma ExtractStore(n: int)
    ensures Extract(Store(n), 0) == n <==> -32768 <= n < 32768
  {
    var lo, h := n % 256, n / 256;
    assert n == 256 * h + lo;
    if -32768 <= n < 32768 {
      assert -128 <= h < 128;
      if h < 0 {
        assert h % 256 == h + 256;
      }
    }
  }

  /** Reading a stored number back from inside a longer program. */
  lemma ExtractAt(code: seq<byte>, i: nat, n: int)
    requires i + 2 <= |code| && code[i..i + 2] == Store(n)
    requires -32768 <= n < 32768
    ensures Extract(code, i) == n
  {
    ExtractStore(n);
    assert code[i] == code[i..i + 2][0] && code[i + 1] == code[i..i + 2][1];
  }

  /** Bit `i` of `b`: `(b >> i) & 1`. */
  predicate HasBit(b: nat, i: nat)
  {
    if i == 0 then b % 2 == 1 else HasBit(b / 2, i - 1)
  }

  /** `b | (1 << i)`. */
  function OrBit(b: nat, i: nat): nat
  {
    if i == 0 then if b % 2 == 1 then b else b + 1
    else 2 * OrBit(b / 2, i - 1) + b % 2
  }

  lemma OrBitHasBit(b: nat, i: nat, j: nat)
    ensures HasBit(OrBit(b, i), j) <==> j == i || HasBit(b, j)
  {
    if i > 0 && j > 0 {
      OrBitHasBit(b / 2, i - 1, j - 1);
      assert OrBit(b, i) / 2 == OrBit(b / 2, i - 1);
    }
  }

  function Pow2(k: nat): nat {
    if k == 0 then 1 else 2 * Pow2(k - 1)
  }

  lemma OrBitBound(b: nat, i: nat, k: nat)
    requires b < Pow2(k) && i < k
    ensures OrBit(b, i) < Pow2(k)
  {
    if i > 0 {
      OrBitBound(b / 2, i - 1, k - 1);
    }
  }

  lemma NoBits(j: nat)
    ensures !HasBit(0, j)
  {}

  /** Setting a bit of a byte gives a byte with that bit and the old ones. */
  function OrByte(b: byte, i: nat): (r: byte)
    requires i < 8
    ensures forall j: nat :: HasBit(r, j) <==> j == i || HasBit(b, j)
  {
    assert Pow2(8) == 256 by {
      assert Pow2(4) == 16;
    }
    OrBitBound(b, i, 8);
    assert forall j: nat :: HasBit(OrBit(b, i), j) <==> j == i || HasBit(b, j) by {
      forall j: nat ensures HasBit(OrBit(b, i), j) <==> j == i || HasBit(b, j) {
        OrBitHasBit(b, i, j);
      }
    }
    OrBit(b, i)
  }
}

/** The command codes of compiled patterns that the model covers. */
module Opcodes {
  import opened Bytes

  const NO_OP: byte := 0
  const EXACTN: byte := 1
  const ANYCHAR: byte := 2
  const CHARSET: byte := 3
  const CHARSET_NOT: byte := 4
  const START_MEMORY: byte := 5
  const STOP_MEMORY: byte := 6
  const JUMP: byte := 12
  const JUMP_PAST_ALT: byte := 13
  const ON_FAILURE_JUMP: byte := 14
  const POP_FAILURE_JUMP: byte := 16
  const MAYBE_POP_JUMP: byte := 17
  const DUMMY_FAILURE_JUMP: byte := 18
  const PUSH_DUMMY_FAILURE: byte := 19
  const SUCCEED_N: byte := 20
  const JUMP_N: byte := 21
  const SET_NUMBER_AT: byte := 22
}
