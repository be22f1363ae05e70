/** inline_memcpy of glibc-compatibility/memcpy/memcpy_x86_64.cpp: one memory, addresses as numbers, chunks
    moved with possibly overlapping loads and stores, and the jump back to the tail as a loop. */
module Memcpy {

  newtype Byte = b: int | 0 <= b < 256

  /** A buffer handed over by the caller. */
  datatype Span = Span(start: nat, size: nat) {
    predicate Has(at: nat, n: nat) {
      start <= at && at + n <= start + size
    }

    predicate Disjoint(other: Span) {
      start + size <= other.start || other.start + other.size <= start
    }

    predicate In(mem: seq<Byte>) {
      start + size <= |mem|
    }
  }

  /** The memory with `chunk` at address `at`. */
  function Written(mem: seq<Byte>, at: nat, chunk: seq<Byte>): (r: seq<Byte>)
    requires at + |chunk| <= |mem|
    ensures |r| == |mem|
    ensures forall i :: 0 <= i < |mem| ==> r[i] == if at <= i < at + |chunk| then chunk[i - at] else mem[i]
  {
    mem[..at] + chunk + mem[at + |chunk|..]
  }

  /** A load of `n` bytes at any address; it may only touch the buffer to be read. */
  method Load(mem: array<Byte>, at: nat, n: nat, ghost from: Span) returns (chunk: seq<Byte>)
    requires from.In(mem[..]) && from.Has(at, n)
    ensures chunk == mem[..][at..at + n]
  {
    chunk := mem[at..at + n];
  }

  /** A store at any address; it may only touch the buffer to be written. */
  method Store(mem: array<Byte>, at: nat, chunk: seq<Byte>, ghost to: Span)
    requires to.In(mem[..]) && to.Has(at, |chunk|)
    modifies mem
    ensures mem[..] == Written(old(mem[..]), at, chunk)
  {
    forall i | 0 <= i < |chunk| {
      mem[at + i] := chunk[i];
    }
  }

  /** _mm_store_si128: the address must be a multiple of 16. */
  method StoreAligned(mem: array<Byte>, at: nat, chunk: seq<Byte>, ghost to: Span)
    requires at % 16 == 0 && |chunk| == 16
    requires to.In(mem[..]) && to.Has(at, 16)
    modifies mem
    ensures mem[..] == Written(old(mem[..]), at, chunk)
  {
    Store(mem, at, chunk, to);
  }

  /** Only `to` was written since the memory was `was`. */
  ghost predicate Framed(mem: seq<Byte>, was: seq<Byte>, to: Span)
    requires |mem| == |was|
  {
    forall a :: 0 <= a < |was| && !to.Has(a, 1) ==> mem[a] == was[a]
  }

  /** Bytes [lo, hi) of `to` are those that `from` held in the memory `was`. */
  ghost predicate Copied(mem: seq<Byte>, was: seq<Byte>, to: Span, from: Span, lo: nat, hi: nat)
    requires |mem| == |was| && to.In(was) && from.In(was)
    requires lo <= hi <= to.size == from.size
  {
    mem[to.start + lo..to.start + hi] == was[from.start + lo..from.start + hi]
  }

  lemma {:induction false} MoveKeeps(mem: seq<Byte>, was: seq<Byte>, to: Span, from: Span, k: nat, n: nat, lo: nat,
                                     hi: nat)
    requires |mem| == |was| && to.In(was) && from.In(was)
    requires to.Disjoint(from) && k + n <= to.size == from.size && lo <= hi <= to.size
    requires Framed(mem, was, to) && Copied(mem, was, to, from, lo, hi)
    ensures var next := Written(mem, to.start + k, mem[from.start + k..from.start + k + n]);
      && Framed(next, was, to) && Copied(next, was, to, from, lo, hi) && Copied(next, was, to, from, k, k + n)
  {
    var chunk := mem[from.start + k..from.start + k + n];
    var next := Written(mem, to.start + k, chunk);
    assert chunk == was[from.start + k..from.start + k + n];
    assert next[to.start + k..to.start + k + n] == chunk;
    var here, there := mem[to.start + lo..to.start + hi], was[from.start + lo..from.start + hi];
    var copied := next[to.start + lo..to.start + hi];
    forall i | 0 <= i < hi - lo
      ensures copied[i] == there[i]
    {
      assert here[i] == there[i];
      if k <= lo + i < k + n {
        assert chunk[lo + i - k] == was[from.start + lo + i];
      }
    }
  }

  /** Adjacent or overlapping copies make one. */
  lemma {:induction false} Joined(mem: seq<Byte>, was: seq<Byte>, to: Span, from: Span, a: nat, b: nat, c: nat, d: nat)
    requires |mem| == |was| && to.In(was) && from.In(was)
    requires a <= c <= b <= d <= to.size == from.size
    requires Copied(mem, was, to, from, a, b) && Copied(mem, was, to, from, c, d)
    ensures Copied(mem, was, to, from, a, d)
  {
    var here, there := mem[to.start + a..to.start + d], was[from.start + a..from.start + d];
    forall i | 0 <= i < d - a
      ensures here[i] == there[i]
    {
      if i < b - a {
        assert mem[to.start + a..to.start + b][i] == was[from.start + a..from.start + b][i];
      } else {
        assert mem[to.start + c..to.start + d][a + i - c] == was[from.start + c..from.start + d][a + i - c];
      }
    }
  }

  lemma {:induction false} Shorter(mem: seq<Byte>, was: seq<Byte>, to: Span, from: Span, hi: nat, mid: nat)
    requires |mem| == |was| && to.In(was) && from.In(was)
    requires mid <= hi <= to.size == from.size && Copied(mem, was, to, from, 0, hi)
    ensures Copied(mem, was, to, from, 0, mid)
  {
    var here, there := mem[to.start + 0..to.start + hi], was[from.start + 0..from.start + hi];
    var left, right := mem[to.start + 0..to.start + mid], was[from.start + 0..from.start + mid];
    forall i | 0 <= i < mid
      ensures left[i] == right[i]
    {
      assert here[i] == there[i];
    }
  }

  /** `size` bytes are left: `dst` and `src` have advanced past the bytes copied from the front, and the last
      bytes, from position `end` on, are already in place. */
  ghost predicate Left(mem: seq<Byte>, was: seq<Byte>, to: Span, from: Span, dst: nat, src: nat, size: nat, end: nat) {
    && |mem| == |was| && to.In(was) && from.In(was) && to.Disjoint(from) && size <= to.size == from.size
    && end <= to.size
    && dst == to.start + (to.size - size) && src == from.start + (to.size - size)
    && Framed(mem, was, to)
    && Copied(mem, was, to, from, 0, to.size - size) && Copied(mem, was, to, from, end, to.size)
  }

  ghost predicate Finished(mem: seq<Byte>, was: seq<Byte>, to: Span, from: Span) {
    && |mem| == |was| && to.In(was) && from.In(was) && to.size == from.size
    && Framed(mem, was, to) && Copied(mem, was, to, from, 0, to.size)
  }

  lemma {:induction false} MoveFits(mem: seq<Byte>, dst: nat, src: nat, skip: nat, n: nat, was: seq<Byte>, to: Span,
                                    from: Span, size: nat, end: nat)
    requires Left(mem, was, to, from, dst, src, size, end) && skip + n <= size
    ensures from.Has(src + skip, n) && to.Has(dst + skip, n)
    ensures var next := Written(mem, dst + skip, mem[src + skip..src + skip + n]);
      && Left(next, was, to, from, dst, src, size, end)
      && Copied(next, was, to, from, to.size - size + skip, to.size - size + skip + n)
  {
    hide Copied, Framed;
    var k := to.size - size;
    MoveKeeps(mem, was, to, from, k + skip, n, 0, k);
    MoveKeeps(mem, was, to, from, k + skip, n, end, to.size);
    assert src + skip == from.start + (k + skip) && dst + skip == to.start + (k + skip);
  }

  /** Loads `n` bytes `skip` bytes further on and stores them as far on in the destination. */
  method Move(mem: array<Byte>, dst: nat, src: nat, skip: nat, n: nat, ghost was: seq<Byte>, ghost to: Span,
              ghost from: Span, ghost size: nat, ghost end: nat)
    requires Left(mem[..], was, to, from, dst, src, size, end) && skip + n <= size
    modifies mem
    ensures Left(mem[..], was, to, from, dst, src, size, end)
    ensures Copied(mem[..], was, to, from, to.size - size + skip, to.size - size + skip + n)
  {
    hide Copied, Framed;
    MoveFits(mem[..], dst, src, skip, n, was, to, from, size, end);
    var chunk := Load(mem, src + skip, n, from);
    assert chunk == mem[..][src + skip..src + skip + n];
    Store(mem, dst + skip, chunk, to);
  }

  /** Two overlapping moves of `w` bytes, the last ones first. */
  method MoveBothEnds(mem: array<Byte>, dst: nat, src: nat, size: nat, w: nat,
                      ghost was: seq<Byte>, ghost to: Span, ghost from: Span)
    requires Left(mem[..], was, to, from, dst, src, size, to.size) && w <= size <= 2 * w
    modifies mem
    ensures Finished(mem[..], was, to, from)
  {
    hide Framed, Copied;
    ghost var k, n := to.size - size, to.size;
    Move(mem, dst, src, size - w, w, was, to, from, size, n);
    Move(mem, dst, src, 0, w, was, to, from, size, n - w);
    Joined(mem[..], was, to, from, 0, k, k, k + w);
    Joined(mem[..], was, to, from, 0, k + w, n - w, n);
  }

  /** Sizes up to 16. */
  method CopySmall(mem: array<Byte>, dst: nat, src: nat, size: nat, ghost was: seq<Byte>, ghost to: Span,
                   ghost from: Span)
    requires Left(mem[..], was, to, from, dst, src, size, to.size) && size <= 16
    modifies mem
    ensures Finished(mem[..], was, to, from)
  {
    hide Framed, Copied;
    if size >= 8 {
      MoveBothEnds(mem, dst, src, size, 8, was, to, from);
    } else if size >= 4 {
      MoveBothEnds(mem, dst, src, size, 4, was, to, from);
    } else if size >= 2 {
      MoveBothEnds(mem, dst, src, size, 2, was, to, from);
    } else if size >= 1 {
      Move(mem, dst, src, 0, 1, was, to, from, size, to.size);
      Joined(mem[..], was, to, from, 0, to.size - 1, to.size - 1, to.size);
    }
  }

  /** Sizes 17 to 128: the last 16 bytes, then 16 at a time from the front. */
  method CopyMedium(mem: array<Byte>, dst0: nat, src0: nat, size0: nat, ghost was: seq<Byte>, ghost to: Span,
                    ghost from: Span)
    requires Left(mem[..], was, to, from, dst0, src0, size0, to.size) && size0 > 16
    modifies mem
    ensures Finished(mem[..], was, to, from)
  {
    hide Framed, Copied;
    var dst, src, size := dst0, src0, size0;
    ghost var n := to.size;
    Move(mem, dst, src, size - 16, 16, was, to, from, size, n);
    while size > 16
      invariant Left(mem[..], was, to, from, dst, src, size, n - 16)
    {
      Move(mem, dst, src, 0, 16, was, to, from, size, n - 16);
      Joined(mem[..], was, to, from, 0, n - size, n - size, n - size + 16);
      dst := dst + 16;
      src := src + 16;
      size := size - 16;
    }
    Joined(mem[..], was, to, from, 0, n - size, n - 16, n);
  }

  /** One more chunk behind the bytes already written. */
  lemma {:induction false} WrittenOn(mem: seq<Byte>, dst: nat, src: nat, k: nat)
    requires dst + k + 16 <= |mem| && src + k + 16 <= |mem|
    ensures Written(Written(mem, dst, mem[src..src + k]), dst + k, mem[src + k..src + k + 16])
         == Written(mem, dst, mem[src..src + k + 16])
  {
  }

  /** The first `k` bytes of the block are in place. */
  ghost predicate Upto(mem: seq<Byte>, m: seq<Byte>, dst: nat, src: nat, k: nat) {
    dst + k <= |m| && src + k <= |m| && mem == Written(m, dst, m[src..src + k])
  }

  lemma {:induction false} WrittenNothing(m: seq<Byte>, dst: nat, src: nat)
    requires dst <= |m| && src <= |m|
    ensures Upto(m, m, dst, src, 0)
  {
  }

  /** A register holding the 16 bytes at `at`. */
  ghost predicate Part(chunk: seq<Byte>, m: seq<Byte>, at: nat) {
    at + 16 <= |m| && chunk == m[at..at + 16]
  }

  method LoadPart(mem: array<Byte>, at: nat, ghost from: Span) returns (chunk: seq<Byte>)
    requires from.In(mem[..]) && from.Has(at, 16)
    ensures Part(chunk, mem[..], at)
  {
    chunk := Load(mem, at, 16, from);
  }

  method StorePart(mem: array<Byte>, at: nat, chunk: seq<Byte>, ghost m: seq<Byte>, ghost dst: nat, ghost src: nat,
                   ghost k: nat, ghost to: Span)
    requires to.In(mem[..]) && to.Has(at, 16) && at % 16 == 0 && at == dst + k
    requires Upto(mem[..], m, dst, src, k) && Part(chunk, m, src + k)
    modifies mem
    ensures Upto(mem[..], m, dst, src, k + 16)
  {
    hide Written;
    WrittenOn(m, dst, src, k);
    StoreAligned(mem, at, chunk, to);
  }

  /** Four of the eight stores. */
  method StoreFour(mem: array<Byte>, a: seq<Byte>, b: seq<Byte>, c: seq<Byte>, d: seq<Byte>, ghost m: seq<Byte>,
                   dst: nat, ghost src: nat, k: nat, ghost to: Span)
    requires to.In(mem[..]) && to.Has(dst + k, 64) && (dst + k) % 16 == 0 && Upto(mem[..], m, dst, src, k)
    requires Part(a, m, src + k) && Part(b, m, src + k + 16) && Part(c, m, src + k + 32) && Part(d, m, src + k + 48)
    modifies mem
    ensures Upto(mem[..], m, dst, src, k + 64)
  {
    hide Written, Upto, Part;
    StorePart(mem, dst + k, a, m, dst, src, k, to);
    StorePart(mem, dst + k + 16, b, m, dst, src, k + 16, to);
    StorePart(mem, dst + k + 32, c, m, dst, src, k + 32, to);
    StorePart(mem, dst + k + 48, d, m, dst, src, k + 48, to);
  }

  /** The body of the unrolled loop: eight loads, then eight aligned stores. */
  method CopyBlock(mem: array<Byte>, dst: nat, src: nat, ghost to: Span, ghost from: Span)
    requires to.In(mem[..]) && from.In(mem[..]) && to.Has(dst, 128) && from.Has(src, 128) && dst % 16 == 0
    modifies mem
    ensures Upto(mem[..], old(mem[..]), dst, src, 128)
  {
    hide Written, Upto, Part;
    ghost var m := mem[..];
    WrittenNothing(m, dst, src);
    var c0 := LoadPart(mem, src, from);
    var c1 := LoadPart(mem, src + 16, from);
    var c2 := LoadPart(mem, src + 32, from);
    var c3 := LoadPart(mem, src + 48, from);
    var c4 := LoadPart(mem, src + 64, from);
    var c5 := LoadPart(mem, src + 80, from);
    var c6 := LoadPart(mem, src + 96, from);
    var c7 := LoadPart(mem, src + 112, from);
    StoreFour(mem, c0, c1, c2, c3, m, dst, src, 0, to);
    StoreFour(mem, c4, c5, c6, c7, m, dst, src, 64, to);
  }

  /** Skipping over bytes already copied. */
  lemma {:induction false} Advance(mem: seq<Byte>, was: seq<Byte>, to: Span, from: Span, dst: nat, src: nat, size: nat,
                                   n: nat, w: nat)
    requires Left(mem, was, to, from, dst, src, size, to.size) && n <= w <= size
    requires Copied(mem, was, to, from, to.size - size, to.size - size + w)
    ensures Left(mem, was, to, from, dst + n, src + n, size - n, to.size)
  {
    hide Copied, Framed;
    var k := to.size - size;
    Joined(mem, was, to, from, 0, k, k, k + w);
    Shorter(mem, was, to, from, k + w, k + n);
  }

  /** Sizes above 128: the destination is brought to a multiple of 16, then 128 bytes at a time with aligned
      stores. What is left goes back to the tail. */
  method CopyLarge(mem: array<Byte>, dst0: nat, src0: nat, size0: nat, ghost was: seq<Byte>, ghost to: Span,
                   ghost from: Span)
    returns (dst: nat, src: nat, size: nat)
    requires Left(mem[..], was, to, from, dst0, src0, size0, to.size) && size0 > 128
    modifies mem
    ensures Left(mem[..], was, to, from, dst, src, size, to.size) && size < 128
  {
    hide Framed, Copied, Written;
    dst, src, size := dst0, src0, size0;
    ghost var n := to.size;
    var padding := (16 - dst % 16) % 16;
    if padding > 0 {
      Move(mem, dst, src, 0, 16, was, to, from, size, n);
      Advance(mem[..], was, to, from, dst, src, size, padding, 16);
      dst := dst + padding;
      src := src + padding;
      size := size - padding;
    }
    while size >= 128
      invariant Left(mem[..], was, to, from, dst, src, size, n) && dst % 16 == 0
    {
      MoveFits(mem[..], dst, src, 0, 128, was, to, from, size, n);
      CopyBlock(mem, dst, src, to, from);
      Advance(mem[..], was, to, from, dst, src, size, 128, 128);
      dst := dst + 128;
      src := src + 128;
      size := size - 128;
    }
  }

  /** inline_memcpy: for every size and alignment of disjoint buffers, the destination receives the source, not
      a byte outside the destination changes, and the destination is returned. */
  method InlineMemcpy(mem: array<Byte>, dst0: nat, src0: nat, size0: nat) returns (ret: nat)
    requires var to, from := Span(dst0, size0), Span(src0, size0);
      to.In(mem[..]) && from.In(mem[..]) && to.Disjoint(from)
    modifies mem
    ensures mem[..] == Written(old(mem[..]), dst0, old(mem[src0..src0 + size0]))
    ensures ret == dst0
  {
    hide Framed, Copied, Written;
    ghost var was, to, from := mem[..], Span(dst0, size0), Span(src0, size0);
    var dst, src, size := dst0, src0, size0;
    ret := dst;
    NothingCopied(was, to, from);
    var tail := true;
    while tail
      invariant if tail then Left(mem[..], was, to, from, dst, src, size, size0) else Finished(mem[..], was, to, from)
      decreases tail, size
    {
      tail := false;
      if size <= 16 {
        CopySmall(mem, dst, src, size, was, to, from);
      } else if size <= 128 {
        CopyMedium(mem, dst, src, size, was, to, from);
      } else {
        dst, src, size := CopyLarge(mem, dst, src, size, was, to, from);
        tail := true;
      }
    }
    AllCopied(mem[..], was, to, from);
  }

  lemma {:induction false} NothingCopied(mem: seq<Byte>, to: Span, from: Span)
    requires to.In(mem) && from.In(mem) && to.Disjoint(from) && to.size == from.size
    ensures Left(mem, mem, to, from, to.start, from.start, to.size, to.size)
  {
  }

  lemma {:induction false} AllCopied(mem: seq<Byte>, was: seq<Byte>, to: Span, from: Span)
    requires Finished(mem, was, to, from)
    ensures mem == Written(was, to.start, was[from.start..from.start + from.size])
  {
    var here := mem[to.start + 0..to.start + to.size];
    forall a | 0 <= a < |mem|
      ensures mem[a] == Written(was, to.start, was[from.start..from.start + from.size])[a]
    {
      if to.Has(a, 1) {
        assert mem[a] == here[a - to.start];
      }
    }
  }
}
