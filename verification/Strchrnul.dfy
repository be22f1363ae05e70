/** __strchrnul of glibc-compatibility/glibc-compatibility.c: the word-at-a-time search, on little-endian words of
    eight bytes. */
module Strchrnul {

  // ---------------------------------------------------------------- the bit tricks

  /** One more byte at the low end. */
  function Join(x: bv64, b: bv8): bv64 {
    (x << 8) | (b as bv64)
  }

  function Pack(b0: bv8, b1: bv8, b2: bv8, b3: bv8, b4: bv8, b5: bv8, b6: bv8, b7: bv8): bv64 {
    Join(Join(Join(Join(Join(Join(Join(b7 as bv64, b6), b5), b4), b3), b2), b1), b0)
  }

  /** HASZERO, with ONES and HIGHS written out. */
  function HasZero(x: bv64): bv64 {
    (x - 0x0101_0101_0101_0101) & !x & 0x8080_8080_8080_8080
  }

  /** ONES * c */
  function Repeated(c: bv8): bv64 {
    0x0101_0101_0101_0101 * (c as bv64)
  }

  function Xor(x: bv64, y: bv64): bv64 {
    x ^ y
  }

  /** HASZERO is non-zero exactly when some byte is. */
  lemma {:induction false} HasZeroFindsZeros(b0: bv8, b1: bv8, b2: bv8, b3: bv8, b4: bv8, b5: bv8, b6: bv8, b7: bv8)
    ensures HasZero(Pack(b0, b1, b2, b3, b4, b5, b6, b7)) != 0
        <==> b0 == 0 || b1 == 0 || b2 == 0 || b3 == 0 || b4 == 0 || b5 == 0 || b6 == 0 || b7 == 0
  {
  }

  /** The multiplication puts `c` into every byte. */
  lemma {:induction false} RepeatedIsEverywhere(c: bv8)
    ensures Repeated(c) == Pack(c, c, c, c, c, c, c, c)
  {
  }

  lemma {:induction false} XorJoins(x: bv64, y: bv64, b: bv8, c: bv8)
    ensures Xor(Join(x, b), Join(y, c)) == Join(Xor(x, y), b ^ c)
  {
  }

  lemma {:induction false} XorByteByByte(b0: bv8, b1: bv8, b2: bv8, b3: bv8, b4: bv8, b5: bv8, b6: bv8, b7: bv8, c: bv8)
    ensures Xor(Pack(b0, b1, b2, b3, b4, b5, b6, b7), Pack(c, c, c, c, c, c, c, c))
         == Pack(b0 ^ c, b1 ^ c, b2 ^ c, b3 ^ c, b4 ^ c, b5 ^ c, b6 ^ c, b7 ^ c)
  {
    hide Join, Xor;
    var x, y := b7 as bv64, c as bv64;
    XorTop(b7, c);
    XorJoins(x, y, b6, c);
    x, y := Join(x, b6), Join(y, c);
    XorJoins(x, y, b5, c);
    x, y := Join(x, b5), Join(y, c);
    XorJoins(x, y, b4, c);
    x, y := Join(x, b4), Join(y, c);
    XorJoins(x, y, b3, c);
    x, y := Join(x, b3), Join(y, c);
    XorJoins(x, y, b2, c);
    x, y := Join(x, b2), Join(y, c);
    XorJoins(x, y, b1, c);
    x, y := Join(x, b1), Join(y, c);
    XorJoins(x, y, b0, c);
  }

  lemma {:induction false} XorTop(b: bv8, c: bv8)
    ensures Xor(b as bv64, c as bv64) == (b ^ c) as bv64
  {
  }

  lemma {:induction false} XorIsZero(b: bv8, c: bv8)
    ensures b ^ c == 0 <==> b == c
  {
  }

  /** HASZERO of the word xored with ONES * c is non-zero exactly when some byte is `c`. */
  lemma {:induction false} HasZeroFindsByte(b0: bv8, b1: bv8, b2: bv8, b3: bv8, b4: bv8, b5: bv8, b6: bv8, b7: bv8,
                                            c: bv8)
    ensures HasZero(Xor(Pack(b0, b1, b2, b3, b4, b5, b6, b7), Repeated(c))) != 0
        <==> b0 == c || b1 == c || b2 == c || b3 == c || b4 == c || b5 == c || b6 == c || b7 == c
  {
    hide Pack, Xor, Repeated, HasZero;
    RepeatedIsEverywhere(c);
    XorByteByByte(b0, b1, b2, b3, b4, b5, b6, b7, c);
    HasZeroFindsZeros(b0 ^ c, b1 ^ c, b2 ^ c, b3 ^ c, b4 ^ c, b5 ^ c, b6 ^ c, b7 ^ c);
    XorIsZero(b0, c);
    XorIsZero(b1, c);
    XorIsZero(b2, c);
    XorIsZero(b3, c);
    XorIsZero(b4, c);
    XorIsZero(b5, c);
    XorIsZero(b6, c);
    XorIsZero(b7, c);
  }

  // ---------------------------------------------------------------- the search

  /** *w: only whole aligned words are read. */
  function WordAt(mem: seq<bv8>, w: nat): bv64
    requires w % 8 == 0 && w + 8 <= |mem|
  {
    Pack(mem[w], mem[w + 1], mem[w + 2], mem[w + 3], mem[w + 4], mem[w + 5], mem[w + 6], mem[w + 7])
  }

  /** The byte ends the search for `c`. */
  predicate Stops(b: bv8, c: bv8) {
    b == 0 || b == c
  }

  /** (unsigned char)c */
  function AsByte(c: int): bv8 {
    (c % 256) as bv8
  }

  /** Neither test on the word fires exactly when none of its bytes ends the search. */
  lemma {:induction false} WordTest(mem: seq<bv8>, w: nat, c: bv8)
    requires w % 8 == 0 && w + 8 <= |mem|
    ensures HasZero(WordAt(mem, w)) == 0 && HasZero(Xor(WordAt(mem, w), Repeated(c))) == 0
        <==> forall i :: w <= i < w + 8 ==> !Stops(mem[i], c)
  {
    hide Pack, Xor, Repeated, HasZero;
    HasZeroFindsZeros(mem[w], mem[w + 1], mem[w + 2], mem[w + 3], mem[w + 4], mem[w + 5], mem[w + 6], mem[w + 7]);
    HasZeroFindsByte(mem[w], mem[w + 1], mem[w + 2], mem[w + 3], mem[w + 4], mem[w + 5], mem[w + 6], mem[w + 7], c);
  }

  method StrLen(mem: seq<bv8>, s: nat) returns (n: nat)
    requires exists z :: s <= z < |mem| && mem[z] == 0
    ensures s + n < |mem| && mem[s + n] == 0 && forall i :: s <= i < s + n ==> mem[i] != 0
  {
    ghost var z :| s <= z < |mem| && mem[z] == 0;
    n := 0;
    while mem[s + n] != 0
      invariant s + n <= z
      invariant forall i :: s <= i < s + n ==> mem[i] != 0
      decreases z - n
    {
      n := n + 1;
    }
  }

  /** __strchrnul: the first position holding NUL or the character, for every NUL-terminated string, start address and
      character. Memory is readable in whole words. */
  method StrChrNul(mem: seq<bv8>, s0: nat, c0: int) returns (s: nat)
    requires |mem| % 8 == 0 && exists z :: s0 <= z < |mem| && mem[z] == 0
    ensures s0 <= s < |mem| && Stops(mem[s], AsByte(c0))
    ensures forall i :: s0 <= i < s ==> !Stops(mem[i], AsByte(c0))
  {
    hide Pack, Xor, Repeated, HasZero, WordAt;
    ghost var z :| s0 <= z < |mem| && mem[z] == 0;
    var c := AsByte(c0);
    if c == 0 {
      var n := StrLen(mem, s0);
      return s0 + n;
    }
    s := s0;
    while s % 8 != 0
      invariant s0 <= s <= z
      invariant forall i :: s0 <= i < s ==> !Stops(mem[i], c)
      decreases z - s
    {
      if mem[s] == 0 || mem[s] == c {
        return;
      }
      s := s + 1;
    }
    var k := Repeated(c);
    var w := s;
    while HasZero(WordAt(mem, w)) == 0 && HasZero(Xor(WordAt(mem, w), k)) == 0
      invariant s0 <= w <= z && w % 8 == 0 && w + 8 <= |mem|
      invariant forall i :: s0 <= i < w ==> !Stops(mem[i], c)
      decreases z - w
    {
      WordTest(mem, w, c);
      w := w + 8;
    }
    s := w;
    while mem[s] != 0 && mem[s] != c
      invariant s0 <= s <= z
      invariant forall i :: s0 <= i < s ==> !Stops(mem[i], c)
      decreases z - s
    {
      s := s + 1;
    }
  }
}
