// Short prime keys: eight 16-bit digest words rendered in a 62-letter
// alphabet, and ASCII lowercasing of a byte array.

module PrimeKey {
  import opened Bytes

  const MAX_DIGEST_SHORT_SIZE: nat := 8
  const MAX_BASE62_SET_SIZE: nat := 62

  /** The alphabet: upper-case letters, then the digits 1..9 and 0, then lower-case letters. */
  const BASE62_SET: string := "ABCDEFGHIJKLMNOPQRSTUVWXYZ" + "1234567890" + "abcdefghijklmnopqrstuvwxyz"

  /** A value of C++'s unsigned short. */
  predicate IsU16(x: int) { 0 <= x < 0x10000 }

  predicate IsAsciiAlnum(c: char) { 'A' <= c <= 'Z' || 'a' <= c <= 'z' || '0' <= c <= '9' }

  /** Where each letter sits in the alphabet. */
  lemma Base62Position(i: nat)
    requires i < MAX_BASE62_SET_SIZE
    ensures i < 26 ==> BASE62_SET[i] == ('A' as int + i) as char
    ensures 26 <= i < 35 ==> BASE62_SET[i] == ('1' as int + (i - 26)) as char
    ensures i == 35 ==> BASE62_SET[i] == '0'
    ensures 36 <= i ==> BASE62_SET[i] == ('a' as int + (i - 36)) as char
  {
  }

  /** The letter for digest word w. */
  function Base62Char(w: nat): (c: char)
    ensures IsAsciiAlnum(c)
    ensures c == BASE62_SET[w % MAX_BASE62_SET_SIZE]
  {
    Base62Position(w % MAX_BASE62_SET_SIZE);
    BASE62_SET[w % MAX_BASE62_SET_SIZE]
  }

  /** The key of an eight-word digest: one letter per word, in order. */
  function ShortDigestToPrimeKey(digest: seq<nat>): (key: string)
    requires |digest| == MAX_DIGEST_SHORT_SIZE && forall i :: 0 <= i < |digest| ==> IsU16(digest[i])
    ensures |key| == MAX_DIGEST_SHORT_SIZE
    ensures forall i :: 0 <= i < |key| ==> key[i] == BASE62_SET[digest[i] % MAX_BASE62_SET_SIZE]
    ensures forall i :: 0 <= i < |key| ==> IsAsciiAlnum(key[i])
  {
    seq(MAX_DIGEST_SHORT_SIZE, i requires 0 <= i < MAX_DIGEST_SHORT_SIZE => Base62Char(digest[i]))
  }

  /** Words that agree modulo 62 give the same key: the key keeps only the residues. */
  lemma KeyDependsOnResidues(d1: seq<nat>, d2: seq<nat>)
    requires |d1| == MAX_DIGEST_SHORT_SIZE && forall i :: 0 <= i < |d1| ==> IsU16(d1[i])
    requires |d2| == MAX_DIGEST_SHORT_SIZE && forall i :: 0 <= i < |d2| ==> IsU16(d2[i])
    ensures (forall i :: 0 <= i < MAX_DIGEST_SHORT_SIZE ==> d1[i] % 62 == d2[i] % 62) <==>
            ShortDigestToPrimeKey(d1) == ShortDigestToPrimeKey(d2)
  {
    var k1, k2 := ShortDigestToPrimeKey(d1), ShortDigestToPrimeKey(d2);
    if k1 == k2 {
      forall i | 0 <= i < MAX_DIGEST_SHORT_SIZE
        ensures d1[i] % 62 == d2[i] % 62
      {
        assert k1[i] == k2[i];
        Base62Injective(d1[i] % 62, d2[i] % 62);
      }
    }
  }

  /** Distinct positions of the alphabet hold distinct letters. */
  lemma Base62Injective(i: nat, j: nat)
    requires i < MAX_BASE62_SET_SIZE && j < MAX_BASE62_SET_SIZE && BASE62_SET[i] == BASE62_SET[j]
    ensures i == j
  {
    Base62Position(i);
    Base62Position(j);
  }

  /**
   * The offset 'Z' - 'z' stored in an unsigned char: -32 wraps to 224, and
   * subtracting it modulo 256 adds 32.
   */
  const LOWERCASE_OFFSET: byte := (('Z' as int - 'z' as int) % 0x100) as byte

  /** One byte as ToLowercase maps it, with the unsigned-char subtraction written out. */
  function LowerByte(b: byte): byte
  {
    if '0' as byte <= b <= '9' as byte then b
    else if 'A' as byte <= b <= 'Z' as byte then ((b as int - LOWERCASE_OFFSET as int) % 0x100) as byte
    else b
  }

  /** The byte-level meaning of LowerByte: upper-case ASCII letters move to their lower-case twins, all else stays. */
  lemma LowerByteMeaning(b: byte)
    ensures 'A' as byte <= b <= 'Z' as byte ==> LowerByte(b) as int == b as int + 32
    ensures !('A' as byte <= b <= 'Z' as byte) ==> LowerByte(b) == b
    ensures !('A' as byte <= LowerByte(b) <= 'Z' as byte)
    ensures LowerByte(LowerByte(b)) == LowerByte(b)
  {
  }

  /**
   * Writes the lowercased first inSize bytes of inData into outData, index by
   * index; inData and outData may be the same array. A negative inSize
   * writes nothing.
   */
  method ToLowercase(inData: array<byte>, inSize: int, outData: array<byte>)
    requires inSize <= inData.Length && inSize <= outData.Length
    modifies outData
    ensures forall i :: 0 <= i < inSize ==> outData[i] == LowerByte(old(inData[i]))
    ensures 0 <= inSize ==> outData[..inSize] == Lowered(old(inData[..inSize]))
    ensures forall i :: (if inSize < 0 then 0 else inSize) <= i < outData.Length ==> outData[i] == old(outData[i])
  {
    ghost var src := inData[..];
    var i := 0;
    while i < inSize
      invariant 0 <= i <= (if inSize < 0 then 0 else inSize)
      invariant forall k :: 0 <= k < i ==> outData[k] == LowerByte(src[k])
      invariant forall k :: i <= k < inSize ==> inData[k] == src[k]
      invariant forall k :: (if inSize < 0 then 0 else inSize) <= k < outData.Length ==> outData[k] == old(outData[k])
    {
      outData[i] := LowerByte(inData[i]);
      i := i + 1;
    }
  }

  /** Applying ToLowercase's byte map twice is applying it once. */
  lemma {:induction false} LowercaseIdempotent(s: seq<byte>)
    ensures Lowered(Lowered(s)) == Lowered(s)
    ensures |Lowered(s)| == |s|
  {
    forall i | 0 <= i < |s|
      ensures Lowered(Lowered(s))[i] == Lowered(s)[i]
    {
      LowerByteMeaning(s[i]);
    }
  }

  /** The bytes ToLowercase produces from s. */
  function Lowered(s: seq<byte>): (r: seq<byte>)
    ensures |r| == |s| && forall i :: 0 <= i < |s| ==> r[i] == LowerByte(s[i])
  {
    seq(|s|, i requires 0 <= i < |s| => LowerByte(s[i]))
  }
}
