/** Small reads of another process's memory through a cache of whole pages. */
module PageCache {
  import opened DwarfMemory

  const PAGE := 4096
  const SMALL := 64

  // The bytes that can be read, by address. The memory does not change while it is cached.
  type Mem = map<nat, Byte>

  /** What a read returns: the longest part that can be read from `addr` on, up to `size` bytes. */
  function Prefix(mem: Mem, addr: nat, size: nat): (r: seq<Byte>)
    ensures |r| <= size
    decreases size
  {
    if size == 0 || addr !in mem then [] else [mem[addr]] + Prefix(mem, addr + 1, size - 1)
  }

  lemma {:induction false} PrefixAt(mem: Mem, addr: nat, size: nat, i: nat)
    requires i < |Prefix(mem, addr, size)|
    ensures addr + i in mem && Prefix(mem, addr, size)[i] == mem[addr + i]
    decreases size
  {
    if i > 0 {
      PrefixAt(mem, addr + 1, size - 1, i - 1);
    }
  }

  /** A read whose first part can be read in full goes on with a read of the rest. */
  lemma {:induction false} PrefixSplits(mem: Mem, addr: nat, a: nat, b: nat)
    requires |Prefix(mem, addr, a)| == a
    ensures Prefix(mem, addr, a + b) == Prefix(mem, addr, a) + Prefix(mem, addr + a, b)
    decreases a
  {
    if a > 0 {
      PrefixSplits(mem, addr + 1, a - 1, b);
      var first := [mem[addr]];
      assert first + (Prefix(mem, addr + 1, a - 1) + Prefix(mem, addr + a, b)) == Prefix(mem, addr, a) + Prefix(mem, addr + a, b);
    } else {
      assert Prefix(mem, addr, 0) + Prefix(mem, addr, b) == Prefix(mem, addr, b);
    }
  }

  /** A read inside a stretch that can be read in full is that part of the stretch. */
  lemma PrefixWithin(mem: Mem, start: nat, total: nat, from: nat, size: nat)
    requires |Prefix(mem, start, total)| == total && from + size <= total
    ensures Prefix(mem, start + from, size) == Prefix(mem, start, total)[from..from + size]
  {
    hide Prefix;
    FullStart(mem, start, from, total - from);
    PrefixSplits(mem, start, from, total - from);
    var rest := total - from;
    assert |Prefix(mem, start + from, rest)| == rest;
    FullStart(mem, start + from, size, rest - size);
    PrefixSplits(mem, start + from, size, rest - size);
    var part, whole := Prefix(mem, start + from, size), Prefix(mem, start, total);
    forall i | 0 <= i < |part|
      ensures part[i] == whole[from + i]
    {
      PrefixAt(mem, start + from, size, i);
      PrefixAt(mem, start, total, from + i);
    }
  }

  lemma {:induction false} FullStart(mem: Mem, addr: nat, a: nat, b: nat)
    requires |Prefix(mem, addr, a + b)| == a + b
    ensures |Prefix(mem, addr, a)| == a
    decreases a
  {
    if a > 0 {
      FullStart(mem, addr + 1, a - 1, b);
    }
  }

  lemma PrefixGrows(mem: Mem, addr: nat, n: nat)
    requires |Prefix(mem, addr, n)| == n && addr + n in mem
    ensures Prefix(mem, addr, n + 1) == Prefix(mem, addr, n) + [mem[addr + n]]
  {
    PrefixSplits(mem, addr, n, 1);
    assert Prefix(mem, addr + n, 1) == [mem[addr + n]];
  }

  lemma PrefixEnds(mem: Mem, addr: nat, size: nat)
    requires size == 0 || addr !in mem
    ensures Prefix(mem, addr, size) == []
  {
  }

  function PageStart(page: nat): nat {
    page * PAGE % W64
  }

  /** The page of an address, and the next page, which begins where the rest of the read does. */
  lemma PagesOf(addr: nat, size: nat)
    requires addr < W64 && size <= SMALL
    ensures var left := (addr / PAGE + 1) * PAGE - addr;
            && PageStart(addr / PAGE) + addr % PAGE == addr && left == PAGE - addr % PAGE
            && (left < size && addr + size <= W64 ==> PageStart(addr / PAGE + 1) == addr + left)
  {
  }

  /** The buffer with the bytes from `at` on replaced. */
  function Spliced(buffer: seq<Byte>, at: nat, bytes: seq<Byte>): (r: seq<Byte>)
    requires at + |bytes| <= |buffer|
    ensures |r| == |buffer|
  {
    buffer[..at] + bytes + buffer[at + |bytes|..]
  }

  lemma SplicedNothing(buffer: seq<Byte>, at: nat)
    requires at <= |buffer|
    ensures Spliced(buffer, at, []) == buffer
  {
  }

  lemma SplicedGrows(buffer: seq<Byte>, at: nat, bytes: seq<Byte>, b: Byte)
    requires at + |bytes| < |buffer|
    ensures Spliced(buffer, at, bytes)[at + |bytes| := b] == Spliced(buffer, at, bytes + [b])
  {
  }

  /** Two parts copied after each other. */
  lemma SplicedTwice(buffer: seq<Byte>, a: seq<Byte>, b: seq<Byte>)
    requires |a| + |b| <= |buffer|
    ensures Spliced(Spliced(buffer, 0, a), |a|, b) == Spliced(buffer, 0, a + b)
  {
  }

  lemma SplicedAll(buffer: seq<Byte>, bytes: seq<Byte>)
    requires |bytes| == |buffer|
    ensures Spliced(buffer, 0, bytes) == bytes
  {
  }

  class MemoryCache {
    const mem: Mem
    var cache: map<nat, seq<Byte>>

    /** Every cached page holds the memory of the page, all of which can be read. */
    ghost predicate Valid()
      reads this
    {
      forall p :: p in cache ==> |cache[p]| == PAGE && cache[p] == Prefix(mem, PageStart(p), PAGE)
    }

    constructor (mem: Mem)
      ensures Valid() && this.mem == mem && cache == map[]
    {
      this.mem := mem;
      cache := map[];
    }

    method Clear()
      modifies this
      ensures Valid() && cache == map[]
    {
      cache := map[];
    }

    /** Reads directly into the destination from `at` on. */
    method ReadImpl(addr: nat, dst: array<Byte>, at: nat, size: nat) returns (n: nat)
      requires at + size <= dst.Length
      modifies dst
      ensures n == |Prefix(mem, addr, size)| && dst[..] == Spliced(old(dst[..]), at, Prefix(mem, addr, size))
    {
      hide Prefix, Spliced;
      ghost var before := dst[..];
      n := 0;
      SplicedNothing(before, at);
      PrefixEnds(mem, addr, 0);
      while n < size && addr + n in mem
        invariant n <= size && |Prefix(mem, addr, n)| == n
        invariant dst[..] == Spliced(before, at, Prefix(mem, addr, n))
        decreases size - n
      {
        PrefixGrows(mem, addr, n);
        SplicedGrows(before, at, Prefix(mem, addr, n), mem[addr + n]);
        dst[at + n] := mem[addr + n];
        n := n + 1;
      }
      PrefixSplits(mem, addr, n, size - n);
      PrefixEnds(mem, addr + n, size - n);
      assert Prefix(mem, addr, n) + [] == Prefix(mem, addr, n);
    }

    method Copy(bytes: seq<Byte>, dst: array<Byte>, at: nat)
      requires at + |bytes| <= dst.Length
      modifies dst
      ensures dst[..] == Spliced(old(dst[..]), at, bytes)
    {
      hide Spliced;
      ghost var before := dst[..];
      var i := 0;
      SplicedNothing(before, at);
      while i < |bytes|
        invariant i <= |bytes| && dst[..] == Spliced(before, at, bytes[..i])
      {
        SplicedGrows(before, at, bytes[..i], bytes[i]);
        assert bytes[..i] + [bytes[i]] == bytes[..i + 1];
        dst[at + i] := bytes[i];
        i := i + 1;
      }
      assert bytes[..i] == bytes;
    }

    /** The page, from the cache if it is there, and put there if all of it can be read. */
    method Fetch(page: nat) returns (bytes: seq<Byte>)
      requires Valid()
      modifies this
      ensures Valid() && (bytes != [] ==> |bytes| == PAGE && bytes == Prefix(mem, PageStart(page), PAGE))
      ensures bytes == [] <==> |Prefix(mem, PageStart(page), PAGE)| < PAGE
    {
      hide Prefix, PageStart, Spliced;
      if page in cache {
        return cache[page];
      }
      var buffer := new Byte[PAGE](_ => 0);
      cache := cache[page := buffer[..]];
      ghost var filled := buffer[..];
      var n := ReadImpl(PageStart(page), buffer, 0, PAGE);
      if n < PAGE {
        cache := cache - {page};
        return [];
      }
      SplicedAll(filled, Prefix(mem, PageStart(page), PAGE));
      bytes := buffer[..];
      cache := cache[page := bytes];
    }

    /** Reads at most 64 bytes through the cache. As long as the range does not wrap around, it returns what reading
        directly returns, whatever has been cached before. */
    method CachedRead(addr: nat, dst: array<Byte>, size: nat) returns (n: nat)
      requires Valid() && addr < W64 && size <= SMALL && size <= dst.Length
      modifies this, dst
      ensures Valid() && n <= size
      ensures addr + size <= W64 ==> n == |Prefix(mem, addr, size)| && dst[..] == Spliced(old(dst[..]), 0, Prefix(mem, addr, size))
    {
      hide Prefix, PageStart, Spliced;
      var page := addr / PAGE;
      PagesOf(addr, size);
      var bytes := Fetch(page);
      if bytes == [] {
        n := ReadImpl(addr, dst, 0, size);
        return;
      }
      var from: nat, maxRead: nat := addr % PAGE, (page + 1) * PAGE - addr;
      if size <= maxRead {
        PrefixWithin(mem, PageStart(page), PAGE, from, size);
        Copy(bytes[from..from + size], dst, 0);
        return size;
      }
      PrefixWithin(mem, PageStart(page), PAGE, from, maxRead);
      assert bytes[from..] == bytes[from..from + maxRead];
      n := ReadAcross(page, bytes[from..], dst, size);
      if addr + size <= W64 {
        PrefixSplits(mem, addr, maxRead, size - maxRead);
      }
    }

    /** A read whose first part is the end of a page. */
    method ReadAcross(page: nat, part: seq<Byte>, dst: array<Byte>, size: nat) returns (n: nat)
      requires Valid() && |part| < size <= SMALL && size <= dst.Length
      modifies this, dst
      ensures Valid() && n == |part| + |Prefix(mem, PageStart(page + 1), size - |part|)|
      ensures dst[..] == Spliced(old(dst[..]), 0, part + Prefix(mem, PageStart(page + 1), size - |part|))
    {
      hide Prefix, PageStart, Spliced;
      Copy(part, dst, 0);
      n := ReadStart(page + 1, dst, |part|, size - |part|);
      SplicedTwice(old(dst[..]), part, Prefix(mem, PageStart(page + 1), size - |part|));
      n := n + |part|;
    }

    /** The rest of a read that crosses into a page, through the cache as well. */
    method ReadStart(page: nat, dst: array<Byte>, at: nat, size: nat) returns (n: nat)
      requires Valid() && size <= SMALL && at + size <= dst.Length
      modifies this, dst
      ensures Valid() && n == |Prefix(mem, PageStart(page), size)|
      ensures dst[..] == Spliced(old(dst[..]), at, Prefix(mem, PageStart(page), size))
    {
      hide Prefix, PageStart, Spliced;
      var bytes := Fetch(page);
      if bytes == [] {
        n := ReadImpl(PageStart(page), dst, at, size);
      } else {
        PrefixWithin(mem, PageStart(page), PAGE, 0, size);
        Copy(bytes[..size], dst, at);
        n := size;
      }
    }

    /** Reads of any size and any number of clears give what reading directly gives. */
    method Read(addr: nat, dst: array<Byte>, size: nat) returns (n: nat)
      requires Valid() && addr < W64 && size <= dst.Length
      modifies this, dst
      ensures Valid() && n <= size
      ensures addr + size <= W64 ==> n == |Prefix(mem, addr, size)| && dst[..] == Spliced(old(dst[..]), 0, Prefix(mem, addr, size))
    {
      if size > SMALL {
        n := ReadImpl(addr, dst, 0, size);
      } else {
        n := CachedRead(addr, dst, size);
      }
    }
  }
}
