/**
 The word-at-a-time string routines of the kernel's C library.
 Memory is one array of bytes and an address is an index into it, so the alignment of a pointer is
 its address modulo the word size.
 */
module Strings {
  import opened Bytes

  const WORD := 8
  const ONES: bv64 := 0x0101010101010101
  const HIGHS: bv64 := 0x8080808080808080

  // ---------------------------------------------------------------- words

  /** The zero-byte test on a whole word. */
  function HasZero(x: bv64): bv64 {
    (x - ONES) & !x & HIGHS
  }

  function Join(b0: bv8, b1: bv8, b2: bv8, b3: bv8, b4: bv8, b5: bv8, b6: bv8, b7: bv8): bv64 {
    (b0 as bv64) | ((b1 as bv64) << 8) | ((b2 as bv64) << 16) | ((b3 as bv64) << 24) |
    ((b4 as bv64) << 32) | ((b5 as bv64) << 40) | ((b6 as bv64) << 48) | ((b7 as bv64) << 56)
  }

  /** Eight bits, the lowest first. */
  function Pack(b0: bool, b1: bool, b2: bool, b3: bool, b4: bool, b5: bool, b6: bool, b7: bool): bv8 {
    (if b0 then 1 else 0) | (if b1 then 2 else 0) | (if b2 then 4 else 0) | (if b3 then 8 else 0) |
    (if b4 then 16 else 0) | (if b5 then 32 else 0) | (if b6 then 64 else 0) | (if b7 then 128 else 0)
  }

  /** What the lower bits have to make up. */
  function Below(b: nat, power: nat): nat {
    if b >= power then b - power else b
  }

  /** A byte as bits, and bits as a byte. */
  function Bits(b: Byte): bv8 {
    var r6 := Below(b, 128);
    var r5 := Below(r6, 64);
    var r4 := Below(r5, 32);
    var r3 := Below(r4, 16);
    var r2 := Below(r3, 8);
    var r1 := Below(r2, 4);
    var r0 := Below(r1, 2);
    Pack(r0 >= 1, r1 >= 2, r2 >= 4, r3 >= 8, r4 >= 16, r5 >= 32, r6 >= 64, b >= 128)
  }

  function Place(bit: bool, power: nat): (r: nat)
    ensures r <= power
  {
    if bit then power else 0
  }

  function Sum(b0: bool, b1: bool, b2: bool, b3: bool, b4: bool, b5: bool, b6: bool, b7: bool): Byte {
    Place(b0, 1) + Place(b1, 2) + Place(b2, 4) + Place(b3, 8) + Place(b4, 16) + Place(b5, 32) + Place(b6, 64) +
    Place(b7, 128)
  }

  function Value(x: bv8): Byte {
    Sum(x & 1 != 0, x & 2 != 0, x & 4 != 0, x & 8 != 0, x & 16 != 0, x & 32 != 0, x & 64 != 0, x & 128 != 0)
  }

  lemma Unpack(b0: bool, b1: bool, b2: bool, b3: bool, b4: bool, b5: bool, b6: bool, b7: bool, x: bv8)
    requires x == Pack(b0, b1, b2, b3, b4, b5, b6, b7)
    ensures (x & 1 != 0) == b0 && (x & 2 != 0) == b1 && (x & 4 != 0) == b2 && (x & 8 != 0) == b3
    ensures (x & 16 != 0) == b4 && (x & 32 != 0) == b5 && (x & 64 != 0) == b6 && (x & 128 != 0) == b7
    ensures x == 0 <==> !(b0 || b1 || b2 || b3 || b4 || b5 || b6 || b7)
  {
  }

  lemma SumOfBits(b: Byte, r0: nat, r1: nat, r2: nat, r3: nat, r4: nat, r5: nat, r6: nat)
    requires r6 == Below(b, 128) && r5 == Below(r6, 64) && r4 == Below(r5, 32) && r3 == Below(r4, 16)
    requires r2 == Below(r3, 8) && r1 == Below(r2, 4) && r0 == Below(r1, 2)
    ensures Sum(r0 >= 1, r1 >= 2, r2 >= 4, r3 >= 8, r4 >= 16, r5 >= 32, r6 >= 64, b >= 128) == b
  {
    hide Below, Place;
    Lowered(b, 128, r6);
    Lowered(r6, 64, r5);
    Lowered(r5, 32, r4);
    Lowered(r4, 16, r3);
    Lowered(r3, 8, r2);
    Lowered(r2, 4, r1);
    Lowered(r1, 2, r0);
    Lowered(r0, 1, Below(r0, 1));
  }

  lemma Lowered(b: nat, power: nat, r: nat)
    requires b < 2 * power && r == Below(b, power)
    ensures power > 0 && r < power && b == r + Place(b >= power, power)
  {
  }

  lemma SameByte(b: Byte)
    ensures Value(Bits(b)) == b && (Bits(b) == 0 <==> b == 0)
  {
    hide Pack, Sum, Below;
    var r6 := Below(b, 128);
    var r5 := Below(r6, 64);
    var r4 := Below(r5, 32);
    var r3 := Below(r4, 16);
    var r2 := Below(r3, 8);
    var r1 := Below(r2, 4);
    var r0 := Below(r1, 2);
    Unpack(r0 >= 1, r1 >= 2, r2 >= 4, r3 >= 8, r4 >= 16, r5 >= 32, r6 >= 64, b >= 128, Bits(b));
    SumOfBits(b, r0, r1, r2, r3, r4, r5, r6);
    NoBits(r0 >= 1, r1 >= 2, r2 >= 4, r3 >= 8, r4 >= 16, r5 >= 32, r6 >= 64, b >= 128);
  }

  lemma NoBits(b0: bool, b1: bool, b2: bool, b3: bool, b4: bool, b5: bool, b6: bool, b7: bool)
    ensures Sum(b0, b1, b2, b3, b4, b5, b6, b7) == 0 <==> !(b0 || b1 || b2 || b3 || b4 || b5 || b6 || b7)
  {
  }

  /** The little-endian word held by eight bytes. */
  function Load(b: seq<Byte>): bv64
    requires |b| == WORD
  {
    Join(Bits(b[0]), Bits(b[1]), Bits(b[2]), Bits(b[3]), Bits(b[4]), Bits(b[5]), Bits(b[6]), Bits(b[7]))
  }

  function Octet(x: bv64, shift: bv7): bv8
    requires shift <= 56
  {
    ((x >> shift) & 0xFF) as bv8
  }

  /** The eight bytes a word is stored as. */
  function Store(x: bv64): (b: seq<Byte>) {
    [Value(Octet(x, 0)), Value(Octet(x, 8)), Value(Octet(x, 16)), Value(Octet(x, 24)),
     Value(Octet(x, 32)), Value(Octet(x, 40)), Value(Octet(x, 48)), Value(Octet(x, 56))]
  }

  lemma JoinedBytes(b0: bv8, b1: bv8, b2: bv8, b3: bv8, b4: bv8, b5: bv8, b6: bv8, b7: bv8, x: bv64)
    requires x == Join(b0, b1, b2, b3, b4, b5, b6, b7)
    ensures Octet(x, 0) == b0 && Octet(x, 8) == b1 && Octet(x, 16) == b2 && Octet(x, 24) == b3
    ensures Octet(x, 32) == b4 && Octet(x, 40) == b5 && Octet(x, 48) == b6 && Octet(x, 56) == b7
  {
  }

  lemma LoadedOctets(b: seq<Byte>)
    requires |b| == WORD
    ensures var x := Load(b);
            && Octet(x, 0) == Bits(b[0]) && Octet(x, 8) == Bits(b[1]) && Octet(x, 16) == Bits(b[2])
            && Octet(x, 24) == Bits(b[3]) && Octet(x, 32) == Bits(b[4]) && Octet(x, 40) == Bits(b[5])
            && Octet(x, 48) == Bits(b[6]) && Octet(x, 56) == Bits(b[7])
    ensures forall i :: 0 <= i < WORD ==> Value(Bits(b[i])) == b[i] && (Bits(b[i]) == 0 <==> b[i] == 0)
  {
    hide Join, Octet, Bits, Value;
    JoinedBytes(Bits(b[0]), Bits(b[1]), Bits(b[2]), Bits(b[3]),
                Bits(b[4]), Bits(b[5]), Bits(b[6]), Bits(b[7]), Load(b));
    forall i | 0 <= i < WORD ensures Value(Bits(b[i])) == b[i] && (Bits(b[i]) == 0 <==> b[i] == 0) {
      SameByte(b[i]);
    }
  }

  lemma HasZeroWord(x: bv64)
    ensures HasZero(x) == 0 <==>
              && Octet(x, 0) != 0 && Octet(x, 8) != 0 && Octet(x, 16) != 0 && Octet(x, 24) != 0
              && Octet(x, 32) != 0 && Octet(x, 40) != 0 && Octet(x, 48) != 0 && Octet(x, 56) != 0
  {
  }

  /** The word test is non-zero exactly when one of the eight bytes is zero. */
  lemma HasZeroExactly(b: seq<Byte>)
    requires |b| == WORD
    ensures HasZero(Load(b)) != 0 <==> 0 in b
  {
    hide HasZero, Join, Octet, Bits, Value;
    HasZeroWord(Load(b));
    LoadedOctets(b);
    assert 0 in b <==> exists i :: 0 <= i < WORD && b[i] == 0;
  }

  /** Storing a loaded word writes the bytes it was loaded from. */
  lemma StoreLoad(b: seq<Byte>)
    requires |b| == WORD
    ensures Store(Load(b)) == b
  {
    hide Join, Octet, Bits, Value;
    LoadedOctets(b);
  }

  // ---------------------------------------------------------------- strlen

  /** The string at an address ends inside memory. */
  ghost predicate Terminated(m: seq<Byte>, a: nat) {
    exists z :: a <= z < |m| && m[z] == 0
  }

  /** strlen; memory is a whole number of words, so that the aligned word of the terminator exists. */
  method StrLen(m: array<Byte>, a: nat) returns (n: nat)
    requires m.Length % WORD == 0 && Terminated(m[..], a)
    ensures a + n < m.Length && m[a + n] == 0
    ensures forall i :: a <= i < a + n ==> m[i] != 0
  {
    hide HasZero, Load;
    ghost var z :| a <= z < m.Length && m[..][z] == 0;
    var s := a;
    while s % WORD != 0
      invariant a <= s <= z && forall i :: a <= i < s ==> m[i] != 0
      decreases z - s
    {
      if m[s] == 0 {
        return s - a;
      }
      s := s + 1;
    }
    WordFits(s, z, m.Length);
    while HasZero(Load(m[s..s + WORD])) == 0
      invariant a <= s <= z && s % WORD == 0 && s + WORD <= m.Length
      invariant forall i :: a <= i < s ==> m[i] != 0
      decreases z - s
    {
      HasZeroExactly(m[s..s + WORD]);
      NoZeroAhead(m[..], s, z);
      s := s + WORD;
      WordFits(s, z, m.Length);
    }
    while m[s] != 0
      invariant a <= s <= z && forall i :: a <= i < s ==> m[i] != 0
      decreases z - s
    {
      s := s + 1;
    }
    return s - a;
  }

  lemma WordFits(s: nat, z: nat, length: nat)
    requires s <= z < length && s % WORD == 0 && length % WORD == 0
    ensures s + WORD <= length
  {
  }

  lemma NoZeroAhead(m: seq<Byte>, s: nat, z: nat)
    requires s <= z < |m| && s + WORD <= |m| && m[z] == 0 && 0 !in m[s..s + WORD]
    ensures s + WORD <= z && forall i :: s <= i < s + WORD ==> m[i] != 0
  {
    forall i | s <= i < s + WORD ensures m[i] != 0 {
      assert m[s..s + WORD][i - s] == m[i];
    }
  }

  // ---------------------------------------------------------------- strncpy

  /** How many of at most n bytes at an address come before the first zero byte. */
  function StrNLen(m: seq<Byte>, s: nat, n: nat): (r: nat)
    ensures r <= n && (n > 0 && s < |m| ==> s + r <= |m|)
    ensures forall i :: s <= i < s + r && i < |m| ==> m[i] != 0
    ensures r < n && s + r < |m| ==> m[s + r] == 0
    decreases n
  {
    if n == 0 || s >= |m| || m[s] == 0 then 0 else 1 + StrNLen(m, s + 1, n - 1)
  }

  /** With the string's length for the bound, or less, the prefix is exactly the bound. */
  lemma {:induction false} StrNLenIsStrLen(m: seq<Byte>, s: nat, n: nat, len: nat)
    requires s + len < |m| && m[s + len] == 0 && forall i :: s <= i < s + len ==> m[i] != 0
    ensures StrNLen(m, s, n) == if n < len then n else len
    decreases n
  {
    if n != 0 && len != 0 {
      StrNLenIsStrLen(m, s + 1, n - 1, len - 1);
    }
  }

  /** The source is n bytes, or a string with a word of memory behind its end. */
  predicate Readable(m: seq<Byte>, s: nat, n: nat) {
    s + n <= |m| || s + StrNLen(m, s, n) + WORD <= |m|
  }

  /** The destination does not overlap the bytes of the string that are copied, its zero byte included. */
  predicate Apart(m: seq<Byte>, d: nat, s: nat, n: nat) {
    var l := StrNLen(m, s, n);
    d + n <= s || s + (if l < n then l + 1 else n) <= d
  }

  /** k bytes have been copied and nothing outside the destination has changed. */
  ghost predicate Copied(m: seq<Byte>, was: seq<Byte>, d: nat, s: nat, n: nat, k: nat) {
    && |m| == |was| && d + n <= |m| && k <= StrNLen(was, s, n) && Readable(was, s, n) && Apart(was, d, s, n)
    && (forall i :: d <= i < d + k ==> m[i] == was[i - d + s])
    && (forall i :: 0 <= i < |m| && !(d <= i < d + n) ==> m[i] == was[i])
  }

  method MemSet(m: array<Byte>, d: nat, val: Byte, n: nat)
    requires d + n <= m.Length
    modifies m
    ensures forall i :: 0 <= i < m.Length ==> m[i] == if d <= i < d + n then val else old(m[i])
  {
    var k := 0;
    while k < n
      invariant k <= n
      invariant forall i :: 0 <= i < m.Length ==> m[i] == if d <= i < d + k then val else old(m[i])
    {
      m[d + k] := val;
      k := k + 1;
    }
  }

  method StoreWord(m: array<Byte>, d: nat, x: bv64)
    requires d + WORD <= m.Length
    modifies m
    ensures m[..] == old(m[..d]) + Store(x) + old(m[d + WORD..])
  {
    var b := Store(x);
    forall i | 0 <= i < WORD {
      m[d + i] := b[i];
    }
  }

  lemma StartCopy(m: seq<Byte>, d: nat, s: nat, n: nat)
    requires d + n <= |m| && Readable(m, s, n) && Apart(m, d, s, n)
    ensures Copied(m, m, d, s, n, 0)
  {
  }

  /** Copying one more byte: either the string goes on, or it ends exactly here. */
  lemma ByteStep(m: seq<Byte>, was: seq<Byte>, d: nat, s: nat, n: nat, k: nat)
    requires Copied(m, was, d, s, n, k) && k < n
    ensures d + k < |m| && s + k < |m|
    ensures m[s + k] != 0 ==> Copied(m[d + k := m[s + k]], was, d, s, n, k + 1)
    ensures m[s + k] == 0 ==> Copied(m[d + k := m[s + k]], was, d, s, n, k) && k == StrNLen(was, s, n)
  {
    hide StrNLen;
    assert m[s + k] == was[s + k];
  }

  /** Copying one more word of the string. */
  lemma WordStep(m: seq<Byte>, was: seq<Byte>, d: nat, s: nat, n: nat, k: nat)
    requires Copied(m, was, d, s, n, k) && k + WORD <= n
    ensures d + k + WORD <= |m| && s + k + WORD <= |m|
    ensures var w := m[s + k..s + k + WORD];
            0 !in w ==> Copied(m[..d + k] + w + m[d + k + WORD..], was, d, s, n, k + WORD)
  {
    hide StrNLen;
    var w, l := m[s + k..s + k + WORD], StrNLen(was, s, n);
    if 0 !in w {
      if l < k + WORD {
        assert false;
      }
      assert forall i :: 0 <= i < WORD ==> w[i] == was[s + k + i];
    }
  }

  /** Bit 3 of an address, which is what masking with the word size looks at. */
  predicate Bit3(a: nat) {
    a / WORD % 2 == 1
  }

  /**
   strncpy: the string is copied byte for byte, the rest of the destination is zeroed and nothing
   else changes. The result is the address behind the copied bytes.
   */
  method StrNCpy(m: array<Byte>, dest: nat, src: nat, count: nat) returns (end: nat)
    requires dest + count <= m.Length && Readable(m[..], src, count) && Apart(m[..], dest, src, count)
    modifies m
    ensures end == dest + StrNLen(old(m[..]), src, count)
    ensures forall i :: dest <= i < end ==> m[i] == old(m[..])[i - dest + src]
    ensures forall i :: end <= i < dest + count ==> m[i] == 0
    ensures forall i :: 0 <= i < m.Length && !(dest <= i < dest + count) ==> m[i] == old(m[i])
  {
    var d, n := CopyString(m, dest, src, count);
    MemSet(m, d, 0, n);
    end := d;
  }

  /** Copy byte k, and report whether it was the end of the string. */
  method CopyByte(m: array<Byte>, d: nat, s: nat, ghost was: seq<Byte>, ghost n: nat, ghost k: nat) returns (ends: bool)
    requires k <= d && k <= s && k < n && Copied(m[..], was, d - k, s - k, n, k)
    modifies m
    ensures Copied(m[..], was, d - k, s - k, n, if ends then k else k + 1)
    ensures ends ==> k == StrNLen(was, s - k, n)
  {
    hide StrNLen, Copied;
    ByteStep(m[..], was, d - k, s - k, n, k);
    ghost var next := m[..][d := m[s]];
    m[d] := m[s];
    assert m[..] == next;
    ends := m[d] == 0;
  }

  /** Copy whole words until fewer than eight bytes are left or a word holds the end of the string. */
  method CopyWords(m: array<Byte>, d0: nat, s0: nat, n0: nat, ghost was: seq<Byte>, ghost n: nat, ghost k0: nat)
    returns (words: nat)
    requires k0 <= d0 && k0 <= s0 && n0 + k0 == n && Copied(m[..], was, d0 - k0, s0 - k0, n, k0)
    modifies m
    ensures words * WORD <= n0 && Copied(m[..], was, d0 - k0, s0 - k0, n, k0 + words * WORD)
  {
    hide HasZero, Load, Store, StrNLen, Copied;
    var wd, ws, left: nat := d0, s0, n0;
    words := 0;
    while left >= WORD
      invariant wd == d0 + words * WORD && ws == s0 + words * WORD && left == n0 - words * WORD
      invariant Copied(m[..], was, d0 - k0, s0 - k0, n, k0 + words * WORD)
    {
      WordStep(m[..], was, d0 - k0, s0 - k0, n, k0 + words * WORD);
      ghost var w := m[ws..ws + WORD];
      HasZeroExactly(w);
      StoreLoad(w);
      if HasZero(Load(m[ws..ws + WORD])) != 0 {
        break;
      }
      StoreWord(m, wd, Load(m[ws..ws + WORD]));
      left, ws, wd, words := left - WORD, ws + WORD, wd + WORD, words + 1;
    }
  }

  /** strncpy up to its tail: where the cursors stand and what has been copied. */
  method CopyString(m: array<Byte>, dest: nat, src: nat, count: nat) returns (d: nat, n: nat)
    requires dest + count <= m.Length && Readable(m[..], src, count) && Apart(m[..], dest, src, count)
    modifies m
    ensures n == count - StrNLen(old(m[..]), src, count) && d == dest + count - n
    ensures Copied(m[..], old(m[..]), dest, src, count, count - n)
  {
    hide StrNLen, Copied, Readable, Apart, Bit3;
    var s := src;
    d, n := dest, count;
    ghost var was, k := m[..], 0;
    StartCopy(was, dest, src, count);
    var ends := false;
    if Bit3(s) == Bit3(d) {
      while Bit3(s) && n != 0 && !ends
        invariant d == dest + k && s == src + k && n == count - k && Copied(m[..], was, dest, src, count, k)
        invariant ends ==> k == StrNLen(was, src, count)
        decreases n, !ends
      {
        ends := CopyByte(m, d, s, was, count, k);
        if !ends {
          n, s, d, k := n - 1, s + 1, d + 1, k + 1;
        }
      }
      if n != 0 {
        ByteStep(m[..], was, dest, src, count, k);
        ends := m[s] == 0;
      }
      if n != 0 && !ends {
        var words := CopyWords(m, d, s, n, was, count, k);
        n, s, d, k := n - words * WORD, s + words * WORD, d + words * WORD, k + words * WORD;
      }
    }
    while n != 0 && !ends
      invariant d == dest + k && s == src + k && n == count - k && Copied(m[..], was, dest, src, count, k)
      invariant ends ==> k == StrNLen(was, src, count)
      decreases n, !ends
    {
      ends := CopyByte(m, d, s, was, count, k);
      if !ends {
        n, s, d, k := n - 1, s + 1, d + 1, k + 1;
      }
    }
    if n == 0 {
      WholeCopied(m[..], was, dest, src, count);
    }
  }

  lemma WholeCopied(m: seq<Byte>, was: seq<Byte>, d: nat, s: nat, n: nat)
    requires Copied(m, was, d, s, n, n)
    ensures StrNLen(was, s, n) == n
  {
  }

  /**
   Copying a string the way the boot code does: strlen, a zeroed block of one byte more, and strncpy
   of the length. The copy is the string again, its terminator included.
   */
  method DuplicateString(m: array<Byte>, from: nat, to: nat) returns (n: nat)
    requires m.Length % WORD == 0 && Terminated(m[..], from)
    requires var len := StrNLen(m[..], from, m.Length);
             && to + len + 1 <= m.Length && (to + len <= from || from + len <= to)
             && forall i :: to <= i < to + len + 1 ==> m[i] == 0
    modifies m
    ensures n == StrNLen(old(m[..]), from, m.Length)
    ensures CString(m[..], to) == CString(old(m[..]), from) && |CString(m[..], to)| == n
    ensures forall i :: 0 <= i < m.Length && !(to <= i < to + n) ==> m[i] == old(m[i])
  {
    n := StrLen(m, from);
    ghost var s := m[from..from + n];
    CStringIs(m[..], from, s);
    StrNLenIsStrLen(m[..], from, m.Length, n);
    StrNLenIsStrLen(m[..], from, n, n);
    var _ := StrNCpy(m, to, from, n);
    assert m[..][to..to + n] == s;
    CStringIs(m[..], to, s);
  }
}
