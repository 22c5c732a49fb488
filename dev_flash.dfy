/**
 * The SPI NOR flash driver (`dev_flash.c`) over an abstract flash array.
 * Writes and erases work in 4 KiB sectors through one static sector
 * buffer: a sector is read into the buffer, patched, erased and
 * programmed back page by page. The flash contents are a sequence of
 * bytes indexed by address; the SPI transfers that move them are
 * assignments.
 */
module FlashDevice {
  import opened Common

  const PAGE_LENGTH: nat := 0x100
  const SECTOR_LENGTH: nat := 0x1000
  const PAGES_PER_SECTOR: nat := 0x10
  /** An erased flash byte. */
  const ERASED: Byte := 0xFF
  /** `(int32_t)len < 0` holds for the lengths from here up. */
  const INT32_LIMIT: nat := 0x8000_0000

  /** The flash contents with `data` written at `at`. */
  function Splice(mem: seq<Byte>, at: nat, data: seq<Byte>): (r: seq<Byte>)
    requires at + |data| <= |mem|
    ensures |r| == |mem|
  {
    mem[..at] + data + mem[at + |data|..]
  }

  /** `n` erased bytes. */
  function Fill(n: nat): (r: seq<Byte>)
    ensures |r| == n
  {
    seq(n, _ => ERASED)
  }

  /** Writing `a` and then `b` right after it writes `a + b`. */
  lemma SpliceTwice(mem: seq<Byte>, at: nat, a: seq<Byte>, b: seq<Byte>)
    requires at + |a| + |b| <= |mem|
    ensures Splice(Splice(mem, at, a), at + |a|, b) == Splice(mem, at, a + b)
  {
    var m1 := Splice(mem, at, a);
    assert m1[..at + |a|] == mem[..at] + a;
    assert m1[at + |a| + |b|..] == mem[at + |a| + |b|..];
  }

  /** A write over a region of the same size replaces it entirely. */
  lemma SpliceOver(mem: seq<Byte>, at: nat, a: seq<Byte>, b: seq<Byte>)
    requires at + |a| <= |mem| && |a| == |b|
    ensures Splice(Splice(mem, at, a), at, b) == Splice(mem, at, b)
  {
    var m1 := Splice(mem, at, a);
    assert m1[..at] == mem[..at];
    assert m1[at + |b|..] == mem[at + |b|..];
  }

  /** Erased runs laid end to end are one erased run. */
  lemma FillAppend(a: nat, b: nat)
    ensures Fill(a) + Fill(b) == Fill(a + b)
  {
  }

  /** Erasing p bytes and then `len` more right after them erases p + `len` bytes. */
  lemma EraseMore(mem: seq<Byte>, address: nat, p: nat, len: nat)
    requires address + p + len <= |mem|
    ensures Splice(Splice(mem, address, Fill(p)), address + p, Fill(len)) == Splice(mem, address, Fill(p + len))
  {
    SpliceTwice(mem, address, Fill(p), Fill(len));
    FillAppend(p, len);
  }

  /** Rewriting the middle part of a write leaves its two ends in place. */
  lemma SpliceInner(mem: seq<Byte>, at: nat, a: seq<Byte>, b: seq<Byte>, c: seq<Byte>, b2: seq<Byte>)
    requires |b| == |b2| && at + |a| + |b| + |c| <= |mem|
    ensures Splice(mem, at, a + b + c)[at + |a|..at + |a| + |b|] == b
    ensures Splice(Splice(mem, at, a + b + c), at + |a|, b2) == Splice(mem, at, a + b2 + c)
  {
    var m1 := Splice(mem, at, a + b + c);
    assert m1[at + |a|..at + |a| + |b|] == b;
    var l := Splice(m1, at + |a|, b2);
    var r := Splice(mem, at, a + b2 + c);
    assert forall i :: 0 <= i < |mem| ==> l[i] == r[i];
  }

  /** The flash part-way through `_sector_write`: the first i pages programmed, the rest still erased. */
  function PagesWritten(m0: seq<Byte>, address: nat, data: seq<Byte>, i: nat): (m: seq<Byte>)
    requires |data| == SECTOR_LENGTH && address + SECTOR_LENGTH <= |m0| && i <= PAGES_PER_SECTOR
    ensures |m| == |m0|
  {
    Splice(m0, address, data[..PAGE_LENGTH * i] + Fill(SECTOR_LENGTH - PAGE_LENGTH * i))
  }

  /** Page i is still erased, and programming it gives the flash with i + 1 pages written. */
  lemma ProgramNextPage(m0: seq<Byte>, address: nat, data: seq<Byte>, i: nat)
    requires |data| == SECTOR_LENGTH && address + SECTOR_LENGTH <= |m0| && i < PAGES_PER_SECTOR
    ensures var at := address + PAGE_LENGTH * i;
      && at + PAGE_LENGTH <= |m0|
      && PagesWritten(m0, address, data, i)[at..at + PAGE_LENGTH] == Fill(PAGE_LENGTH)
      && Splice(PagesWritten(m0, address, data, i), at, data[PAGE_LENGTH * i..PAGE_LENGTH * (i + 1)])
         == PagesWritten(m0, address, data, i + 1)
  {
    var page := data[PAGE_LENGTH * i..PAGE_LENGTH * (i + 1)];
    var done, rest := data[..PAGE_LENGTH * i], Fill(SECTOR_LENGTH - PAGE_LENGTH * (i + 1));
    assert Fill(SECTOR_LENGTH - PAGE_LENGTH * i) == Fill(PAGE_LENGTH) + rest;
    assert done + Fill(SECTOR_LENGTH - PAGE_LENGTH * i) == done + Fill(PAGE_LENGTH) + rest;
    SpliceInner(m0, address, done, Fill(PAGE_LENGTH), rest, page);
    assert done + page == data[..PAGE_LENGTH * (i + 1)];
    assert done + page + rest == data[..PAGE_LENGTH * (i + 1)] + rest;
  }

  /** With every page programmed, the sector holds the data. */
  lemma AllPagesWritten(m0: seq<Byte>, address: nat, data: seq<Byte>)
    requires |data| == SECTOR_LENGTH && address + SECTOR_LENGTH <= |m0|
    ensures PagesWritten(m0, address, data, PAGES_PER_SECTOR) == Splice(m0, address, data)
  {
    assert data[..PAGE_LENGTH * PAGES_PER_SECTOR] + Fill(0) == data;
  }

  /** Writing back a sector patched at `offset` is writing the patch alone. */
  lemma SplicePatch(mem: seq<Byte>, base: nat, offset: nat, part: seq<Byte>)
    requires base + SECTOR_LENGTH <= |mem| && offset + |part| <= SECTOR_LENGTH
    ensures Splice(mem, base, Splice(mem[base..base + SECTOR_LENGTH], offset, part)) == Splice(mem, base + offset, part)
  {
    var sector := mem[base..base + SECTOR_LENGTH];
    var lhs := Splice(mem, base, Splice(sector, offset, part));
    var rhs := Splice(mem, base + offset, part);
    assert forall i :: 0 <= i < |mem| ==> lhs[i] == rhs[i];
  }

  /** Writing the flash's own bytes back changes nothing. */
  lemma SpliceSame(mem: seq<Byte>, at: nat, n: nat)
    requires at + n <= |mem|
    ensures Splice(mem, at, mem[at..at + n]) == mem
  {
    assert mem[..at] + mem[at..at + n] + mem[at + n..] == mem;
  }

  /** The bytes the head of an unaligned `flash_write` or `flash_erase` covers: to the end of the sector. */
  function HeadLength(address: nat): (n: nat)
    ensures address % SECTOR_LENGTH != 0 ==> 0 < n < SECTOR_LENGTH
    ensures address % SECTOR_LENGTH != 0 ==> (address + n) % SECTOR_LENGTH == 0
  {
    DivAddMultiple(address % SECTOR_LENGTH, SECTOR_LENGTH, address / SECTOR_LENGTH);
    DivAddMultiple(0, SECTOR_LENGTH, address / SECTOR_LENGTH + 1);
    SECTOR_LENGTH - address % SECTOR_LENGTH
  }

  /** `len -= copy_length`, then the clamp of a result that is negative as an `int32_t`. */
  function RestAfterHead(len: nat, copy: nat): (rest: nat)
    ensures rest <= len
    ensures len >= copy && len - copy < INT32_LIMIT ==> rest == len - copy
  {
    if len >= copy && len - copy < INT32_LIMIT then len - copy else 0
  }

  /** Flash contents a whole number of sectors long, inside the 32-bit address space. */
  predicate ValidFlash(mem: seq<Byte>) {
    |mem| % SECTOR_LENGTH == 0 && |mem| <= TWO_32
  }

  /**
   * `flash_write` as written: an unaligned head copies the rest of its
   * sector from the source whatever `len` is, then the remaining length,
   * clamped at 0, is written from the next sector on.
   */
  function WriteAsWritten(mem: seq<Byte>, dest: nat, src: seq<Byte>, len: nat): (r: seq<Byte>)
    requires ValidFlash(mem) && dest + len <= |mem| && len <= |src|
    requires dest % SECTOR_LENGTH != 0 ==> HeadLength(dest) <= |src|
    ensures |r| == |mem|
  {
    if dest % SECTOR_LENGTH == 0 then Splice(mem, dest, src[..len])
    else
      var copy := HeadLength(dest);
      SectorEnd(mem, dest);
      var head := Splice(mem, dest, src[..copy]);
      var rest := RestAfterHead(len, copy);
      Splice(head, dest + copy, src[copy..copy + rest])
  }

  /** An unaligned address inside a flash of whole sectors lies in a sector that is wholly inside it. */
  lemma SectorEnd(mem: seq<Byte>, address: nat)
    requires ValidFlash(mem) && address <= |mem| && address % SECTOR_LENGTH != 0
    ensures address + HeadLength(address) <= |mem|
  {
    var q := address / SECTOR_LENGTH;
    var n := |mem| / SECTOR_LENGTH;
    assert address == q * SECTOR_LENGTH + address % SECTOR_LENGTH;
    assert |mem| == n * SECTOR_LENGTH;
    assert q < n;
    assert (q + 1) * SECTOR_LENGTH <= n * SECTOR_LENGTH;
  }

  /** Unless the head outruns `len`, `flash_write` as written stores exactly `src[..len]` at `dest`. */
  lemma WriteAsWrittenStores(mem: seq<Byte>, dest: nat, src: seq<Byte>, len: nat)
    requires ValidFlash(mem) && dest + len <= |mem| && len <= |src| && len < INT32_LIMIT
    requires dest % SECTOR_LENGTH != 0 ==> HeadLength(dest) <= len
    ensures WriteAsWritten(mem, dest, src, len) == Splice(mem, dest, src[..len])
  {
    if dest % SECTOR_LENGTH != 0 {
      var copy := HeadLength(dest);
      SpliceTwice(mem, dest, src[..copy], src[copy..len]);
      assert src[..copy] + src[copy..len] == src[..len];
    }
  }

  /**
   * When `len` ends before the sector does, `flash_write` as written also
   * overwrites the flash after `dest + len`, up to the end of the sector,
   * with whatever follows the source buffer in memory.
   */
  lemma WriteAsWrittenOverruns(mem: seq<Byte>, dest: nat, src: seq<Byte>, len: nat)
    requires ValidFlash(mem) && dest + len <= |mem| && len <= |src|
    requires dest % SECTOR_LENGTH != 0 && len < HeadLength(dest) <= |src|
    ensures var r := WriteAsWritten(mem, dest, src, len);
      r[dest..dest + len] == src[..len]
      && r[dest + len..dest + HeadLength(dest)] == src[len..HeadLength(dest)]
  {
    SectorEnd(mem, dest);
    var copy := HeadLength(dest);
    var head := Splice(mem, dest, src[..copy]);
    assert WriteAsWritten(mem, dest, src, len) == Splice(head, dest + copy, []);
    assert Splice(head, dest + copy, []) == head;
    assert head[dest..dest + copy] == src[..copy];
  }

  /** One byte written at 1 of an erased flash also programs byte 2 from the source's next byte. */
  lemma WriteOneByteOverruns(mem: seq<Byte>, src: seq<Byte>)
    requires ValidFlash(mem) && |mem| >= SECTOR_LENGTH && |src| >= SECTOR_LENGTH - 1
    ensures WriteAsWritten(mem, 1, src, 1)[2] == src[1]
  {
    WriteAsWrittenOverruns(mem, 1, src, 1);
    assert WriteAsWritten(mem, 1, src, 1)[2] == WriteAsWritten(mem, 1, src, 1)[2..SECTOR_LENGTH][0];
  }

  /**
   * The number of sectors the full-sector loop of `flash_erase` erases: it
   * runs while the 32-bit address is at or above the first sector, so
   * only the address, and not the length, decides when it stops.
   */
  function EraseLoopCount(address: nat): (n: nat)
    requires address < TWO_32
    ensures n == 0 <==> address < SECTOR_LENGTH
    ensures n <= (TWO_32 - address) / SECTOR_LENGTH + 1
    decreases if address < SECTOR_LENGTH then 0 else TWO_32 + 1 - address
  {
    if address / SECTOR_LENGTH == 0 then 0
    else
      var next := (address + SECTOR_LENGTH) % TWO_32;
      if address + SECTOR_LENGTH < TWO_32 then
        DivAddMultiple(TWO_32 - address - SECTOR_LENGTH, SECTOR_LENGTH, 1);
        1 + EraseLoopCount(next)
      else
        1 + EraseLoopCount(next)
  }

  /** From an aligned address, the loop erases every sector up to the top of the 32-bit address space. */
  lemma {:induction false} EraseLoopToTop(address: nat)
    requires SECTOR_LENGTH <= address < TWO_32 && address % SECTOR_LENGTH == 0
    ensures EraseLoopCount(address) == (TWO_32 - address) / SECTOR_LENGTH
    decreases TWO_32 - address
  {
    var next := address + SECTOR_LENGTH;
    assert address / SECTOR_LENGTH != 0;
    DivAddMultiple(TWO_32 - next, SECTOR_LENGTH, 1);
    if next < TWO_32 {
      assert EraseLoopCount(address) == 1 + EraseLoopCount(next) by { assert next % TWO_32 == next; }
      DivAddMultiple(address, SECTOR_LENGTH, 1);
      EraseLoopToTop(next);
    } else {
      assert next == TWO_32 by {
        DivUnique(address, SECTOR_LENGTH, address / SECTOR_LENGTH, 0);
        assert address / SECTOR_LENGTH < TWO_32 / SECTOR_LENGTH;
      }
    }
  }

  /**
   * Erasing one sector at 0x1000 runs the loop over all 0xFFFFF sectors
   * from there to the top of the address space, and erasing two sectors at
   * 0 runs it not at all.
   */
  lemma EraseLoopIgnoresLength()
    ensures EraseLoopCount(SECTOR_LENGTH) == 0xF_FFFF
    ensures EraseLoopCount(0) == 0
  {
    EraseLoopToTop(SECTOR_LENGTH);
  }

  /**
   * The length the final `memset` of `flash_erase` is given when the erase
   * starts at an aligned address: the full-sector loop takes a sector's
   * length off the 32-bit `len` on every turn, however many turns the
   * address makes it run.
   */
  function EraseTailLengthAsWritten(address: nat, len: nat): (n: nat)
    requires address < TWO_32 && len < TWO_32
    ensures n < TWO_32
    ensures (n + SECTOR_LENGTH * EraseLoopCount(address) - len) % TWO_32 == 0
  {
    U32(len - SECTOR_LENGTH * EraseLoopCount(address))
  }

  /**
   * The final `memset` writes past the one-sector buffer: from address 0
   * the loop does not run and the whole `len` is left for it, and erasing
   * one sector at 0x1000 wraps the length round to two sectors.
   */
  lemma EraseTailOverflowsBuffer(len: nat)
    ensures SECTOR_LENGTH < len < TWO_32 ==> EraseTailLengthAsWritten(0, len) == len > SECTOR_LENGTH
    ensures EraseTailLengthAsWritten(SECTOR_LENGTH, SECTOR_LENGTH) == 2 * SECTOR_LENGTH > SECTOR_LENGTH
  {
    EraseLoopToTop(SECTOR_LENGTH);
  }

  /** The head of `flash_erase` as written: the rest of the sector is erased, whatever `len` is. */
  function EraseHeadAsWritten(mem: seq<Byte>, address: nat): (r: seq<Byte>)
    requires ValidFlash(mem) && address <= |mem| && address % SECTOR_LENGTH != 0
    ensures |r| == |mem|
  {
    SectorEnd(mem, address);
    Splice(mem, address, Fill(HeadLength(address)))
  }

  /** When `len` ends before the sector does, the head erases bytes past `address + len`. */
  lemma EraseHeadOverruns(mem: seq<Byte>, address: nat, len: nat)
    requires ValidFlash(mem) && address + len <= |mem| && address % SECTOR_LENGTH != 0
    requires len < HeadLength(address)
    ensures EraseHeadAsWritten(mem, address)[address + len] == ERASED
  {
    SectorEnd(mem, address);
    assert EraseHeadAsWritten(mem, address)[address + len] == Fill(HeadLength(address))[len];
  }

  /** The flash chip and the driver's static sector buffer. */
  class Flash {
    var mem: seq<Byte>
    const sectorBuffer: array<Byte>

    predicate Valid()
      reads this
    {
      ValidFlash(mem) && sectorBuffer.Length == SECTOR_LENGTH
    }

    /** A chip of `sectors` erased sectors, and a cleared sector buffer. */
    constructor (sectors: nat)
      requires sectors * SECTOR_LENGTH <= TWO_32
      ensures Valid() && mem == Fill(sectors * SECTOR_LENGTH) && fresh(sectorBuffer)
    {
      mem := Fill(sectors * SECTOR_LENGTH);
      sectorBuffer := new Byte[SECTOR_LENGTH](_ => 0);
      new;
      assert |mem| % SECTOR_LENGTH == 0 by {
        DivAddMultiple(0, SECTOR_LENGTH, sectors);
      }
    }

    /** `flash_read` into the sector buffer. */
    method ReadIntoBuffer(src: nat, len: nat)
      requires Valid() && src + len <= |mem| && len <= SECTOR_LENGTH
      modifies sectorBuffer
      ensures sectorBuffer[..len] == mem[src..src + len]
      ensures sectorBuffer[len..] == old(sectorBuffer[len..])
    {
      forall i | 0 <= i < len {
        sectorBuffer[i] := mem[src + i];
      }
    }

    /** `memcpy` or `memset` into the sector buffer at `offset`. */
    method PatchBuffer(offset: nat, data: seq<Byte>)
      requires Valid() && offset + |data| <= SECTOR_LENGTH
      modifies sectorBuffer
      ensures sectorBuffer[..] == Splice(old(sectorBuffer[..]), offset, data)
    {
      forall i | 0 <= i < |data| {
        sectorBuffer[offset + i] := data[i];
      }
      assert sectorBuffer[..] == Splice(old(sectorBuffer[..]), offset, data);
    }

    /** `_sector_erase`: the sector at `address` reads erased. */
    method SectorErase(address: nat)
      requires Valid() && address + SECTOR_LENGTH <= |mem|
      modifies this
      ensures Valid() && mem == Splice(old(mem), address, Fill(SECTOR_LENGTH))
    {
      mem := Splice(mem, address, Fill(SECTOR_LENGTH));
    }

    /** `_page_program` of an erased page: programming clears bits, so an erased page takes the data. */
    method PageProgram(address: nat, data: seq<Byte>)
      requires Valid() && |data| == PAGE_LENGTH && address + PAGE_LENGTH <= |mem|
      requires mem[address..address + PAGE_LENGTH] == Fill(PAGE_LENGTH)
      modifies this
      ensures Valid() && mem == Splice(old(mem), address, data)
    {
      mem := Splice(mem, address, data);
    }

    /** `_sector_write`: an erased sector programmed page by page. */
    method SectorWrite(address: nat, data: seq<Byte>)
      requires Valid() && |data| == SECTOR_LENGTH && address + SECTOR_LENGTH <= |mem|
      requires mem[address..address + SECTOR_LENGTH] == Fill(SECTOR_LENGTH)
      modifies this
      ensures Valid() && mem == Splice(old(mem), address, data)
    {
      ghost var m0 := mem;
      var i := 0;
      while i < PAGES_PER_SECTOR
        invariant i <= PAGES_PER_SECTOR && Valid()
        invariant mem == PagesWritten(m0, address, data, i)
      {
        ProgramNextPage(m0, address, data, i);
        PageProgram(address + PAGE_LENGTH * i, data[PAGE_LENGTH * i..PAGE_LENGTH * (i + 1)]);
        i := i + 1;
      }
      AllPagesWritten(m0, address, data);
    }

    /** Read a sector, patch it at `offset`, erase it and program it back. */
    method RewriteSector(base: nat, offset: nat, part: seq<Byte>)
      requires Valid() && base + SECTOR_LENGTH <= |mem| && offset + |part| <= SECTOR_LENGTH
      modifies this, sectorBuffer
      ensures Valid() && mem == Splice(old(mem), base + offset, part)
    {
      ReadIntoBuffer(base, SECTOR_LENGTH);
      PatchBuffer(offset, part);
      ghost var before := mem;
      SectorErase(base);
      SectorWrite(base, sectorBuffer[..]);
      SpliceOver(before, base, Fill(SECTOR_LENGTH), sectorBuffer[..]);
      SplicePatch(before, base, offset, part);
    }

    /**
     * `flash_write`, with the head copy limited to `len`: exactly
     * `src[..len]` is stored at `dest` and the rest of the flash keeps its
     * contents.
     */
    method Write(dest: nat, src: seq<Byte>, len: nat)
      requires Valid() && dest + len <= |mem| && len <= |src|
      modifies this, sectorBuffer
      ensures Valid() && mem == Splice(old(mem), dest, src[..len])
    {
      var d: nat, p: nat, n: nat := WriteHead(dest, src, len);
      while n >= SECTOR_LENGTH
        invariant Valid() && p + n == len && |mem| == |old(mem)|
        invariant p <= len && dest + len <= |old(mem)| && len <= |src|
        invariant n > 0 ==> d == dest + p && d % SECTOR_LENGTH == 0
        invariant mem == Splice(old(mem), dest, src[..p])
      {
        StoreSector(old(mem), dest, src, p, src[p..p + SECTOR_LENGTH]);
        p, d, n := p + SECTOR_LENGTH, d + SECTOR_LENGTH, n - SECTOR_LENGTH;
        DivAddMultiple(d - SECTOR_LENGTH, SECTOR_LENGTH, 1);
      }
      WriteTail(old(mem), dest, src, d, p, n);
    }

    /** The partial final sector of `flash_write`: its first n bytes taken from the source. */
    method WriteTail(ghost m0: seq<Byte>, dest: nat, src: seq<Byte>, d: nat, p: nat, n: nat)
      requires Valid() && n < SECTOR_LENGTH && dest + p + n <= |m0| && p + n <= |src| && |mem| == |m0|
      requires n > 0 ==> d == dest + p && d % SECTOR_LENGTH == 0
      requires mem == Splice(m0, dest, src[..p])
      modifies this, sectorBuffer
      ensures Valid() && mem == Splice(m0, dest, src[..p + n])
    {
      if n > 0 {
        SectorEnd(mem, d + 1);
        RewriteSector(d, 0, src[p..p + n]);
      }
      SpliceTwice(m0, dest, src[..p], src[p..p + n]);
      assert src[..p] + src[p..p + n] == src[..p + n];
    }

    /** The unaligned head of `flash_write`: the sector holding `dest` patched from `dest` on. */
    method WriteHead(dest: nat, src: seq<Byte>, len: nat) returns (d: nat, p: nat, n: nat)
      requires Valid() && dest + len <= |mem| && len <= |src|
      modifies this, sectorBuffer
      ensures Valid() && p + n == len && |mem| == |old(mem)|
      ensures n > 0 ==> d == dest + p && d % SECTOR_LENGTH == 0
      ensures mem == Splice(old(mem), dest, src[..p])
    {
      d, p, n := dest, 0, len;
      if d % SECTOR_LENGTH != 0 {
        var offset := d % SECTOR_LENGTH;
        var copy := HeadLength(d);
        var take := Min(n, copy);
        SectorEnd(mem, dest);
        RewriteSector(d - offset, offset, src[..take]);
        p, d, n := take, d - offset + SECTOR_LENGTH, n - take;
      } else {
        SpliceSame(mem, dest, 0);
      }
    }

    /** One full sector of data stored right after the `p` bytes already written at `dest`. */
    method StoreSector(ghost m0: seq<Byte>, dest: nat, src: seq<Byte>, p: nat, data: seq<Byte>)
      requires Valid() && |data| == SECTOR_LENGTH && p + SECTOR_LENGTH <= |src| && data == src[p..p + SECTOR_LENGTH]
      requires dest + p + SECTOR_LENGTH <= |m0| && mem == Splice(m0, dest, src[..p])
      modifies this
      ensures Valid() && mem == Splice(m0, dest, src[..p + SECTOR_LENGTH])
    {
      SectorErase(dest + p);
      SectorWrite(dest + p, data);
      SpliceOver(Splice(m0, dest, src[..p]), dest + p, Fill(SECTOR_LENGTH), data);
      SpliceTwice(m0, dest, src[..p], data);
      assert src[..p] + data == src[..p + SECTOR_LENGTH];
    }

    /** `flash_verify`: true exactly when the `len` flash bytes at `address` equal `ram[..len]`. */
    method Verify(address: nat, ram: seq<Byte>, len: nat) returns (verified: bool)
      requires Valid() && address + len <= |mem| && len <= |ram|
      modifies sectorBuffer
      ensures verified <==> mem[address..address + len] == ram[..len]
    {
      verified := true;
      var a: nat, p: nat, n: nat := address, 0, len;
      while n > SECTOR_LENGTH
        invariant p + n == len && a == address + p
        invariant verified <==> mem[address..a] == ram[..p]
      {
        ReadIntoBuffer(a, SECTOR_LENGTH);
        verified := CompareBuffer(verified, ram[p..p + SECTOR_LENGTH]);
        assert mem[address..a + SECTOR_LENGTH] == mem[address..a] + mem[a..a + SECTOR_LENGTH];
        assert ram[..p + SECTOR_LENGTH] == ram[..p] + ram[p..p + SECTOR_LENGTH];
        p, a, n := p + SECTOR_LENGTH, a + SECTOR_LENGTH, n - SECTOR_LENGTH;
      }
      ReadIntoBuffer(a, n);
      verified := CompareBuffer(verified, ram[p..p + n]);
      assert mem[address..a + n] == mem[address..a] + mem[a..a + n];
      assert ram[..p + n] == ram[..p] + ram[p..p + n];
    }

    /** The comparison loop of `flash_verify`: any differing byte clears the flag. */
    method CompareBuffer(verifiedIn: bool, ram: seq<Byte>) returns (verified: bool)
      requires |ram| <= sectorBuffer.Length
      ensures verified <==> verifiedIn && sectorBuffer[..|ram|] == ram
    {
      verified := verifiedIn;
      var i := 0;
      while i < |ram|
        invariant i <= |ram|
        invariant verified <==> verifiedIn && sectorBuffer[..i] == ram[..i]
      {
        if sectorBuffer[i] != ram[i] {
          verified := false;
        }
        assert sectorBuffer[..i + 1] == sectorBuffer[..i] + [sectorBuffer[i]];
        assert ram[..i + 1] == ram[..i] + [ram[i]];
        i := i + 1;
      }
      assert sectorBuffer[..|ram|] == sectorBuffer[..i];
    }

    /**
     * `flash_erase`, with the head limited to `len` and the full-sector
     * loop counting down the length: exactly the `len` bytes at `address`
     * read erased afterwards and the rest of the flash keeps its contents.
     */
    method Erase(address: nat, len: nat)
      requires Valid() && address + len <= |mem|
      modifies this, sectorBuffer
      ensures Valid() && mem == Splice(old(mem), address, Fill(len))
    {
      var a: nat, p: nat, n: nat := EraseHead(address, len);
      while n >= SECTOR_LENGTH
        invariant Valid() && p + n == len && |mem| == |old(mem)|
        invariant p <= len && address + len <= |old(mem)|
        invariant n > 0 ==> a == address + p && a % SECTOR_LENGTH == 0
        invariant mem == Splice(old(mem), address, Fill(p))
      {
        SectorErase(a);
        EraseMore(old(mem), address, p, SECTOR_LENGTH);
        p, a, n := p + SECTOR_LENGTH, a + SECTOR_LENGTH, n - SECTOR_LENGTH;
        DivAddMultiple(a - SECTOR_LENGTH, SECTOR_LENGTH, 1);
      }
      EraseTail(old(mem), address, a, p, n);
    }

    /** The partial final sector of `flash_erase`: its first n bytes erased. */
    method EraseTail(ghost m0: seq<Byte>, address: nat, a: nat, p: nat, n: nat)
      requires Valid() && n < SECTOR_LENGTH && address + p + n <= |m0| && |mem| == |m0|
      requires n > 0 ==> a == address + p && a % SECTOR_LENGTH == 0
      requires mem == Splice(m0, address, Fill(p))
      modifies this, sectorBuffer
      ensures Valid() && mem == Splice(m0, address, Fill(p + n))
    {
      if n > 0 {
        SectorEnd(mem, a + 1);
        RewriteSector(a, 0, Fill(n));
      }
      EraseMore(m0, address, p, n);
    }

    /** The unaligned head of `flash_erase`: the sector holding `address` erased from `address` on. */
    method EraseHead(address: nat, len: nat) returns (a: nat, p: nat, n: nat)
      requires Valid() && address + len <= |mem|
      modifies this, sectorBuffer
      ensures Valid() && p + n == len && |mem| == |old(mem)|
      ensures n > 0 ==> a == address + p && a % SECTOR_LENGTH == 0
      ensures mem == Splice(old(mem), address, Fill(p))
    {
      a, p, n := address, 0, len;
      if a % SECTOR_LENGTH != 0 {
        var offset := a % SECTOR_LENGTH;
        var setLength := Min(n, HeadLength(a));
        SectorEnd(mem, address);
        RewriteSector(a - offset, offset, Fill(setLength));
        p, a, n := setLength, a - offset + SECTOR_LENGTH, n - setLength;
      } else {
        SpliceSame(mem, address, 0);
      }
    }
  }
}
