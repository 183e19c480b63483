/** Numbers as bytes, least significant first. */
module LittleEndian {
  import opened PrimeField

  type Byte = x: int | 0 <= x < 256

  /** `int.to_bytes(n, length, "little")` for a number that fits. */
  function ToBytes(n: nat, length: nat): (bytes: seq<Byte>)
    ensures |bytes| == length
    decreases length
  {
    if length == 0 then [] else [n % 256] + ToBytes(n / 256, length - 1)
  }

  /** `int.from_bytes(bytes, "little")`. */
  function FromBytes(bytes: seq<Byte>): nat {
    if bytes == [] then 0 else bytes[0] + 256 * FromBytes(bytes[1..])
  }

  lemma {:induction false} FromBytesIsBounded(bytes: seq<Byte>)
    ensures FromBytes(bytes) < Pow(256, |bytes|)
  {
    if bytes != [] {
      FromBytesIsBounded(bytes[1..]);
    }
  }

  lemma {:induction false} ToBytesInvertsFromBytes(bytes: seq<Byte>)
    ensures ToBytes(FromBytes(bytes), |bytes|) == bytes
  {
    if bytes != [] {
      ToBytesInvertsFromBytes(bytes[1..]);
      assert FromBytes(bytes) / 256 == FromBytes(bytes[1..]) && FromBytes(bytes) % 256 == bytes[0];
    }
  }

  lemma {:induction false} FromBytesInvertsToBytes(n: nat, length: nat)
    requires n < Pow(256, length)
    ensures FromBytes(ToBytes(n, length)) == n
    decreases length
  {
    if length > 0 {
      FromBytesInvertsToBytes(n / 256, length - 1);
      assert ToBytes(n, length)[1..] == ToBytes(n / 256, length - 1);
    }
  }

  lemma {:induction false} PowIsPositive(base: int, n: nat)
    requires base > 0
    ensures Pow(base, n) > 0
    decreases n
  {
    if n > 0 {
      PowIsPositive(base, n - 1);
      assert base * Pow(base, n - 1) > 0;
    }
  }

  /** 256^n = 2^(8n). */
  lemma {:induction false} PowersOf256(n: nat)
    ensures Pow(256, n) == Pow(2, 8 * n)
    decreases n
  {
    if n > 0 {
      PowersOf256(n - 1);
      PowSum(2, 8, 8 * (n - 1));
      assert Pow(2, 8) == 256;
    }
  }
}
