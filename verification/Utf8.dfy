/** UTF-8 (section 3 of RFC 3629) and the byte positions at which a text can be cut. */
module Utf8 {

  type Byte = b: int | 0 <= b < 256

  function EncodeChar(c: char): (bytes: seq<Byte>)
    ensures 1 <= |bytes| <= 4
    ensures !IsContinuation(bytes[0])
    ensures forall i | 0 < i < |bytes| :: IsContinuation(bytes[i])
  {
    var n := c as int;
    if n < 0x80 then [n]
    else if n < 0x800 then [0xC0 + n / 0x40, 0x80 + n % 0x40]
    else if n < 0x1_0000 then [0xE0 + n / 0x1000, 0x80 + (n / 0x40) % 0x40, 0x80 + n % 0x40]
    else [0xF0 + n / 0x4_0000, 0x80 + (n / 0x1000) % 0x40, 0x80 + (n / 0x40) % 0x40, 0x80 + n % 0x40]
  }

  /** A byte's value above the bits that mark its place. */
  function Above(b: Byte, mark: int): int {
    var n: int := b;
    n - mark
  }

  /** The number a sequence of bytes spells, by the bits section 3 of RFC 3629 gives to each. */
  function Spelled(bytes: seq<Byte>): int {
    if |bytes| == 1 then Above(bytes[0], 0)
    else if |bytes| == 2 then Above(bytes[0], 0xC0) * 0x40 + Above(bytes[1], 0x80)
    else if |bytes| == 3 then (Above(bytes[0], 0xE0) * 0x40 + Above(bytes[1], 0x80)) * 0x40 + Above(bytes[2], 0x80)
    else if |bytes| == 4 then
      ((Above(bytes[0], 0xF0) * 0x40 + Above(bytes[1], 0x80)) * 0x40 + Above(bytes[2], 0x80)) * 0x40
      + Above(bytes[3], 0x80)
    else -1
  }

  lemma SixBits(n: nat)
    ensures n == n / 0x40 * 0x40 + n % 0x40
    ensures n / 0x40 / 0x40 == n / 0x1000
    ensures n / 0x1000 / 0x40 == n / 0x4_0000
  {
  }

  /** The bytes of a character spell its code point, and are as few as that allows. */
  lemma EncodedSpellsTheCharacter(c: char)
    ensures Spelled(EncodeChar(c)) == c as int
    ensures |EncodeChar(c)| == if c as int < 0x80 then 1 else if c as int < 0x800 then 2
                               else if c as int < 0x1_0000 then 3 else 4
  {
    var n := c as int;
    SixBits(n);
    SixBits(n / 0x40);
    SixBits(n / 0x1000);
  }

  function Encode(s: string): seq<Byte> {
    if s == [] then [] else Encode(s[..|s| - 1]) + EncodeChar(s[|s| - 1])
  }

  /** `str::len`. */
  function ByteLen(s: string): nat {
    |Encode(s)|
  }

  predicate IsContinuation(b: Byte) {
    0x80 <= b < 0xC0
  }

  /** `str::is_char_boundary`, decided by one byte. */
  predicate IsCharBoundary(bytes: seq<Byte>, i: nat) {
    i == 0 || i == |bytes| || (i < |bytes| && !IsContinuation(bytes[i]))
  }

  predicate EndsAt(s: string, i: nat) {
    exists k | 0 <= k <= |s| :: ByteLen(s[..k]) == i
  }

  /** One more character ends where it ends, and moves no earlier end. */
  lemma EndsAfterOneMore(front: string, c: char, i: nat)
    ensures EndsAt(front + [c], i) <==> EndsAt(front, i) || i == ByteLen(front + [c])
  {
    var s := front + [c];
    assert s[..|s|] == s;
    assert forall k | 0 <= k <= |front| :: s[..k] == front[..k];
    if k :| 0 <= k <= |s| && ByteLen(s[..k]) == i {
      assert k <= |front| ==> ByteLen(front[..k]) == i;
    }
    if k :| 0 <= k <= |front| && ByteLen(front[..k]) == i {
      assert ByteLen(s[..k]) == i;
    }
  }

  lemma EndsWithin(s: string, i: nat)
    requires i > ByteLen(s)
    ensures !EndsAt(s, i)
  {
    forall k | 0 <= k <= |s| ensures ByteLen(s[..k]) <= ByteLen(s) {
      PrefixesGrow(s, k, |s|);
      assert s[..|s|] == s;
    }
  }

  lemma EndsAtLength(s: string)
    ensures EndsAt(s, ByteLen(s))
  {
    assert s[..|s|] == s;
  }

  /** A byte position is a boundary exactly when whole characters end there. */
  lemma {:induction false} BoundariesAreCharEnds(s: string, i: nat)
    ensures IsCharBoundary(Encode(s), i) <==> EndsAt(s, i)
  {
    if s == [] {
      assert s[..0] == [];
    } else {
      var n := |s| - 1;
      var front, last := s[..n], EncodeChar(s[n]);
      assert s == front + [s[n]];
      BoundariesAreCharEnds(front, i);
      EndsAfterOneMore(front, s[n], i);
      EndsAtLength(front);
      if i < ByteLen(front) {
        assert Encode(s)[i] == Encode(front)[i];
      } else if i > ByteLen(front) {
        EndsWithin(front, i);
        assert i < ByteLen(s) ==> Encode(s)[i] == last[i - ByteLen(front)];
      } else {
        assert Encode(s)[i] == last[0];
      }
    }
  }

  /** More characters, more bytes: up to four for each. */
  lemma {:induction false} PrefixesGrow(s: string, j: nat, k: nat)
    requires j <= |s| && k <= |s|
    ensures j <= k ==> ByteLen(s[..j]) + (k - j) <= ByteLen(s[..k])
    ensures k == j + 1 ==> ByteLen(s[..k]) <= ByteLen(s[..j]) + 4
    decreases k
  {
    if j < k {
      PrefixesGrow(s, j, k - 1);
      assert s[..k][..k - 1] == s[..k - 1];
    }
  }
}
