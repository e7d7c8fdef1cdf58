/**
 * Streaming an application image into flash: sectors are erased just before the
 * first byte reaches them, and with flash encryption data is written in blocks
 * of 16 bytes with the rest held in a cache.
 */
module OtaWriter {
  import opened Arith
  import opened Common

  type cell = bv8

  // ----- sector arithmetic ------------------------------------------------------

  /** The end of the sector that holds offset x. */
  function SectorEnd(x: nat, sector: nat): nat
    requires sector > 0
  {
    (x / sector + 1) * sector
  }

  /** Two offsets in the same aligned 16-byte block lie in the same sector. */
  lemma SameBlock(x: nat, d: nat, sector: nat)
    requires sector > 0 && sector % 16 == 0 && x % 16 == 0 && d < 16
    ensures (x + d) / sector == x / sector
  {
    var e, w := sector / 16, x / 16;
    var q, r := w / e, w % e;
    assert w == q * e + r;
    assert 16 * w == q * sector + 16 * r by {
      assert 16 * (q * e) == q * (16 * e);
    }
    DivUnique(x, sector, q, 16 * r);
    DivUnique(x + d, sector, q, 16 * r + d);
  }

  /** Around a block boundary x, the sector just written ends at x or holds x. */
  lemma EndBefore(x: nat, sector: nat)
    requires sector > 0 && 0 < x
    ensures SectorEnd(x - 1, sector) == if x % sector == 0 then x else SectorEnd(x, sector)
  {
    var q, r := x / sector, x % sector;
    assert x == q * sector + r;
    if r == 0 {
      assert (q - 1) * sector == q * sector - sector;
      DivUnique(x - 1, sector, q - 1, sector - 1);
    } else {
      DivUnique(x - 1, sector, q, r - 1);
    }
  }

  lemma SectorBounds(x: nat, sector: nat)
    requires sector > 0
    ensures x < SectorEnd(x, sector) <= x + sector
    ensures SectorEnd(x, sector) == x / sector * sector + sector
    ensures x % sector == 0 ==> SectorEnd(x, sector) == x + sector && x / sector * sector == x
  {
    assert x == x / sector * sector + x % sector;
  }

  lemma SectorEndMonotone(x: nat, y: nat, sector: nat)
    requires sector > 0 && x <= y
    ensures SectorEnd(x, sector) <= SectorEnd(y, sector)
  {
    DivMonotone(x, y, sector);
    SectorBounds(x, sector);
    SectorBounds(y, sector);
    if x / sector < y / sector {
      MulStep(x / sector, y / sector, sector);
    }
  }

  /**
   * The last sector erased for a write that moved the write position to w and left p bytes
   * cached, with p0 cached before: it ends at w, or at the end of the sector that holds w.
   */
  lemma LastErased(w: nat, p0: nat, p: nat, sector: nat)
    requires sector > 0 && 0 <= w + p - p0 - 1
    requires p0 == p == 0 || (w % 16 == 0 && sector % 16 == 0 && p0 < 16 && p < 16)
    ensures SectorEnd(w + p - p0 - 1, sector) ==
            if w % sector != 0 || p > p0 then SectorEnd(w, sector) else w
  {
    if p > p0 {
      SameBlock(w, p - p0 - 1, sector);
    } else if p0 == p == 0 {
      EndBefore(w, sector);
    } else {
      assert 16 <= w;
      SameBlock(w - 16, 16 + p - p0 - 1, sector);
      SameBlock(w - 16, 15, sector);
      EndBefore(w, sector);
    }
  }

  // ----- flash ------------------------------------------------------------------

  /** Programming clears bits; it is exact on an erased cell. */
  function Cleared(was: cell, data: cell): (r: cell)
    ensures was == 0xFF ==> r == data
    ensures was == 0 ==> r == 0
  {
    was & data
  }

  /** No bit is set, and ones leave the cell as it was. */
  lemma ClearedBits(was: cell, data: cell)
    ensures Cleared(was, data) & was == Cleared(was, data) && Cleared(was, 0xFF) == was
    ensures Cleared(was, data) == Cleared(data, was)
  {
  }

  /** The flags with those of cells lo..hi-1 set to v. */
  ghost function Marked(flags: seq<bool>, lo: nat, hi: nat, v: bool): (r: seq<bool>)
    ensures |r| == |flags|
    ensures forall i :: 0 <= i < |r| ==> r[i] == if lo <= i < hi then v else flags[i]
  {
    seq(|flags|, i requires 0 <= i < |flags| => if lo <= i < hi then v else flags[i])
  }

  /** Erased flash reads as ones; programming can only clear bits. */
  class Flash {
    const sector: nat
    const cells: array<cell>
    /** Which cells were erased and not programmed since. */
    ghost var clean: seq<bool>
    /** Some byte was programmed onto a cell that was not erased. */
    ghost var clobbered: bool
    /** What the cells held at first, and from where on they still hold it. */
    ghost const stale: seq<cell>
    ghost var touched: nat

    ghost predicate Valid()
      reads this, cells
    {
      && sector > 0
      && |clean| == cells.Length
      && (forall i :: 0 <= i < |clean| && clean[i] ==> cells[i] == 0xFF)
      && |stale| == cells.Length
      && forall i :: touched <= i < |stale| ==> cells[i] == stale[i]
    }

    /** Exactly the cells lo..hi-1 are clean. */
    ghost predicate CleanIs(lo: nat, hi: nat)
      reads this
    {
      hi <= |clean| && forall i :: 0 <= i < |clean| ==> (clean[i] <==> lo <= i < hi)
    }

    ghost predicate AllClean(lo: nat, hi: nat)
      reads this
    {
      hi <= |clean| && forall i :: lo <= i < hi ==> clean[i]
    }

    /** A partition whose cells still hold whatever was written there before. */
    constructor (sector: nat, stale: seq<cell>)
      requires sector > 0
      ensures Valid() && fresh(cells) && cells[..] == stale && this.sector == sector
      ensures CleanIs(0, 0) && !clobbered && this.stale == stale && touched == 0
    {
      this.stale := stale;
      touched := 0;
      this.sector := sector;
      cells := new cell[|stale|](i requires 0 <= i < |stale| => stale[i]);
      clean := seq(|stale|, i => false);
      clobbered := false;
    }

    method Erase(off: nat, len: nat) returns (ok: bool)
      requires Valid()
      modifies `clean, `touched, cells
      ensures Valid()
      ensures touched == if ok then Max(old(touched), off + len) else old(touched)
      ensures ok <==> off + len <= cells.Length && off % sector == 0 && len % sector == 0
      ensures !ok ==> clean == old(clean) && cells[..] == old(cells[..])
      ensures ok ==> forall i :: 0 <= i < cells.Length ==>
                                   && cells[i] == (if off <= i < off + len then 0xFF else old(cells[i]))
                                   && clean[i] == (off <= i < off + len || old(clean[i]))
    {
      ok := off + len <= cells.Length && off % sector == 0 && len % sector == 0;
      if ok {
        forall i | off <= i < off + len {
          cells[i] := 0xFF;
        }
        clean := Marked(clean, off, off + len, true);
        touched := Max(touched, off + len);
      }
    }

    /** Programming is exact where, and only said to be exact where, the cells are clean. */
    method Program(off: nat, src: seq<cell>) returns (ok: bool)
      requires Valid()
      modifies `clean, `clobbered, `touched, cells
      ensures Valid()
      ensures touched == if ok then Max(old(touched), off + |src|) else old(touched)
      ensures ok <==> off + |src| <= cells.Length
      ensures !ok ==> clean == old(clean) && cells[..] == old(cells[..]) && clobbered == old(clobbered)
      ensures ok ==> (clobbered <==> old(clobbered) || !old(AllClean(off, off + |src|)))
      ensures ok ==> forall i :: 0 <= i < cells.Length ==>
                                   && cells[i] == (if off <= i < off + |src|
                                                   then Cleared(old(cells[i]), src[i - off]) else old(cells[i]))
                                   && clean[i] == (old(clean[i]) && !(off <= i < off + |src|))
      ensures ok && old(AllClean(off, off + |src|)) ==> cells[..][off..off + |src|] == src
    {
      hide Cleared;
      ok := off + |src| <= cells.Length;
      if ok {
        clobbered := clobbered || !AllClean(off, off + |src|);
        forall i | off <= i < off + |src| {
          cells[i] := Cleared(cells[i], src[i - off]);
        }
        clean := Marked(clean, off, off + |src|, false);
        touched := Max(touched, off + |src|);
      }
    }
  }

  // ----- the writer -------------------------------------------------------------

  datatype Err = Ok | InvalidArg | InvalidSize | InvalidState | ValidateFailed

  const IMAGE_MAGIC: cell := 0xE9

  /** One update in sequential mode: sectors are erased as the image reaches them. */
  class Handle {
    const flash: Flash
    const encrypted: bool
    const isApp: bool  // the final partition holds an application or a bootloader
    const partialData: array<cell>
    var wroteSize: nat
    var partialBytes: nat
    /** Every byte accepted so far. */
    ghost var received: seq<cell>
    /** How many bytes were cached when the last write began. */
    ghost var lastPartial: nat
    /** What the unused part of the cache holds. */
    ghost var pad: cell
    /** Where the erased cells in front of the write position end. */
    ghost var cleanTo: nat
    /** How far sectors were erased for data that was then turned down for its first byte. */
    ghost var rejectedTo: nat

    /** The flash up to the write position, followed by the cache, is the data passed in. */
    ghost predicate Sound()
      reads `wroteSize, `partialBytes, `received, `pad, flash, flash.cells, partialData
    {
      && flash.Valid()
      && partialData != flash.cells
      && partialData.Length == 16
      && flash.sector % 16 == 0
      && wroteSize <= flash.cells.Length
      && partialBytes < 16
      && (if encrypted then wroteSize % 16 == 0 else partialBytes == 0)
      && received == flash.cells[..][..wroteSize] + partialData[..][..partialBytes]
      && (pad == 0 || pad == 0xFF)
      && forall k :: partialBytes <= k < 16 ==> partialData[k] == pad
    }

    /** How far the cells in front of the write position are erased by the writes accepted so far. */
    ghost function CleanEnd(): nat
      requires flash.sector > 0
      reads this
    {
      if wroteSize % flash.sector != 0 || partialBytes > lastPartial
      then SectorEnd(wroteSize, flash.sector) else wroteSize
    }

    ghost predicate Valid()
      reads this, flash, flash.cells, partialData
    {
      && Sound()
      && flash.CleanIs(wroteSize, cleanTo)
      && rejectedTo % flash.sector == 0
      && cleanTo == Max(CleanEnd(), rejectedTo)
      && flash.touched <= cleanTo
    }

    /**
     * The cached tail would be programmed onto a sector that no write has erased: the write
     * position stands at a sector boundary, the last write left no more bytes in the cache than it
     * found there, and no longer write was turned down before.
     */
    ghost predicate StaleTail()
      requires flash.sector > 0
      reads this
    {
      0 < partialBytes <= lastPartial && wroteSize % flash.sector == 0 && rejectedTo <= wroteSize
    }

    constructor (flash: Flash, encrypted: bool, isApp: bool)
      requires flash.Valid() && flash.sector % 16 == 0 && flash.CleanIs(0, 0) && flash.touched == 0
      ensures Valid() && fresh(partialData)
      ensures this.flash == flash && this.encrypted == encrypted && this.isApp == isApp
      ensures received == [] && wroteSize == 0 && partialBytes == 0 && pad == 0 && rejectedTo == 0
    {
      this.flash := flash;
      this.encrypted := encrypted;
      this.isApp := isApp;
      partialData := new cell[16](_ => 0);
      wroteSize := 0;
      partialBytes := 0;
      received := [];
      lastPartial := 0;
      pad := 0;
      cleanTo := 0;
      rejectedTo := 0;
    }

    /** Erases a range that continues the erased cells in front of the write position. */
    method EraseRange(off: nat, len: nat) returns (ok: bool)
      requires Sound() && flash.CleanIs(wroteSize, cleanTo) && wroteSize <= off <= Max(wroteSize, cleanTo)
      requires off % flash.sector == 0 && len % flash.sector == 0 && flash.touched <= cleanTo
      modifies `cleanTo, flash`clean, flash`touched, flash.cells
      ensures Sound() && flash.CleanIs(wroteSize, cleanTo) && flash.touched <= cleanTo
      ensures ok <==> off + len <= flash.cells.Length
      ensures cleanTo == if ok then Max(old(cleanTo), off + len) else old(cleanTo)
    {
      ghost var mem := flash.cells[..];
      ok := flash.Erase(off, len);
      assert flash.cells[..][..wroteSize] == mem[..wroteSize];
      if ok {
        cleanTo := Max(cleanTo, off + len);
      }
    }

    /** The sector that the write position is in the middle of lies within the partition. */
    lemma CleanFits()
      requires Valid()
      ensures wroteSize % flash.sector != 0 ==> SectorEnd(wroteSize, flash.sector) <= flash.cells.Length
    {
      hide SectorEnd, Sound;
      Bounds();
    }

    /** Erases every sector that n more bytes reach first, and nothing below the write position. */
    method EraseAhead(n: nat) returns (ok: bool)
      requires Valid() && n > 0
      modifies `cleanTo, flash`clean, flash`touched, flash.cells
      ensures Sound() && flash.CleanIs(wroteSize, cleanTo) && flash.touched <= cleanTo
      ensures !ok ==> Valid()
      ensures ok ==>
                cleanTo == Max(SectorEnd(wroteSize + n - 1, flash.sector), rejectedTo)
      ensures ok <==> SectorEnd(wroteSize + n - 1, flash.sector) <= flash.cells.Length
    {
      hide SectorEnd, Flash.CleanIs, Sound;
      Bounds();
      CleanFits();
      var sector := flash.sector;
      var first := wroteSize / sector;
      var last := (wroteSize + n - 1) / sector;
      ErasePlan(wroteSize, n, sector);
      ok := true;
      if wroteSize % sector == 0 {
        var len := (last - first + 1) * sector;
        ok := EraseRange(wroteSize, len);
      } else if first != last {
        var off, len := (first + 1) * sector, (last - first) * sector;
        ok := EraseRange(off, len);
      }
    }

    /** Bytes that do not complete a block go into the cache. */
    method FillCache(src: seq<cell>)
      requires Sound() && encrypted && partialBytes + |src| < 16
      modifies `partialBytes, `received, partialData
      ensures Sound()
      ensures received == old(received) + src && partialBytes == old(partialBytes) + |src|
    {
      ghost var front, was := flash.cells[..][..wroteSize], partialData[..];
      ghost var k := partialBytes;
      forall i | 0 <= i < |src| {
        partialData[partialBytes + i] := src[i];
      }
      partialBytes := partialBytes + |src|;
      assert partialData[..][..partialBytes] == was[..k] + src;
      Assoc(front, was[..k], src);
      received := received + src;
    }

    /** A completed block is programmed and the cache is reset to ones. */
    method FlushCache(src: seq<cell>, ghost end: nat)
      requires Sound() && encrypted && partialBytes + |src| == 16
      requires flash.touched <= end
      requires flash.CleanIs(wroteSize, end) && wroteSize + 16 <= end
      modifies `wroteSize, `partialBytes, `received, `pad, partialData, flash, flash.cells
      ensures Sound()
      ensures received == old(received) + src && partialBytes == 0 && wroteSize == old(wroteSize) + 16
      ensures pad == 0xFF
      ensures flash.touched <= end
      ensures flash.CleanIs(wroteSize, end) && flash.clobbered == old(flash.clobbered)
    {
      hide Cleared;
      ghost var mem, was := flash.cells[..], partialData[..];
      ghost var k := partialBytes;
      forall i | 0 <= i < |src| {
        partialData[partialBytes + i] := src[i];
      }
      assert partialData[..] == was[..k] + src;
      var ok := flash.Program(wroteSize, partialData[..]);
      Programmed(mem, flash.cells[..], wroteSize, was[..k] + src);
      Assoc(mem[..wroteSize], was[..k], src);
      forall i | 0 <= i < 16 {
        partialData[i] := 0xFF;
      }
      pad := 0xFF;
      partialBytes := 0;
      wroteSize := wroteSize + 16;
      received := received + src;
    }

    /** Whole blocks, or anything without encryption, are programmed directly. */
    method ProgramDirect(src: seq<cell>, ghost end: nat)
      requires Sound() && partialBytes == 0 && (encrypted ==> |src| % 16 == 0)
      requires flash.touched <= end
      requires flash.CleanIs(wroteSize, end) && wroteSize + |src| <= end
      modifies `wroteSize, `received, flash, flash.cells
      ensures Sound()
      ensures received == old(received) + src && wroteSize == old(wroteSize) + |src|
      ensures flash.touched <= end
      ensures flash.CleanIs(wroteSize, end) && flash.clobbered == old(flash.clobbered)
    {
      hide Cleared;
      ghost var mem := flash.cells[..];
      var ok := flash.Program(wroteSize, src);
      Programmed(mem, flash.cells[..], wroteSize, src);
      wroteSize := wroteSize + |src|;
      received := received + src;
    }

    /** With an empty cache: whole blocks are programmed, the tail is cached. */
    method StoreBlocks(rest: seq<cell>, ghost end: nat)
      requires Sound() && encrypted && partialBytes == 0
      requires flash.touched <= end
      requires flash.CleanIs(wroteSize, end) && wroteSize + |rest| - |rest| % 16 <= end
      modifies `wroteSize, `partialBytes, `received, partialData, flash, flash.cells
      ensures Sound()
      ensures received == old(received) + rest
      ensures partialBytes == |rest| % 16 && wroteSize == old(wroteSize) + |rest| - |rest| % 16
      ensures flash.touched <= end
      ensures flash.CleanIs(wroteSize, end) && flash.clobbered == old(flash.clobbered)
    {
      hide Flash.CleanIs, Sound;
      var whole := |rest| - |rest| % 16;
      ghost var before := received;
      ProgramDirect(rest[..whole], end);
      FillCache(rest[whole..]);
      SplitAt(rest, whole);
      Assoc(before, rest[..whole], rest[whole..]);
    }

    /** The cache first, then `StoreBlocks` for what is left. */
    method StoreCached(data: seq<cell>, ghost end: nat)
      requires flash.touched <= end
      requires Sound() && encrypted && data != [] && flash.CleanIs(wroteSize, end)
      requires var sum := wroteSize + partialBytes + |data|; sum - sum % 16 <= end
      modifies `wroteSize, `partialBytes, `received, `pad, partialData, flash, flash.cells
      ensures Sound()
      ensures received == old(received) + data
      ensures var sum := old(wroteSize) + old(partialBytes) + |data|;
              partialBytes == sum % 16 && wroteSize == sum - sum % 16
      ensures pad == if old(partialBytes) != 0 && old(partialBytes) + |data| >= 16 then 0xFF else old(pad)
      ensures flash.touched <= end
      ensures flash.CleanIs(wroteSize, end) && flash.clobbered == old(flash.clobbered)
    {
      hide Flash.CleanIs, Sound;
      Bounds();
      CacheArithmetic(wroteSize, partialBytes, |data|);
      var rest := data;
      if partialBytes != 0 {
        var copyLen := Min(16 - partialBytes, |data|);
        if partialBytes + copyLen != 16 {
          FillCache(data);
          return;
        }
        ghost var before := received;
        FlushCache(data[..copyLen], end);
        rest := data[copyLen..];
        SplitAt(data, copyLen);
        Assoc(before, data[..copyLen], rest);
      }
      StoreBlocks(rest, end);
    }

    /**
     * The data goes into the cache and the flash.  Every byte is programmed onto an erased cell,
     * and the erased cells left are those `CleanEnd` predicts.  (The tail is saved in the cache
     * after the whole blocks are programmed; both succeed, so the order does not show.)
     */
    method Store(data: seq<cell>)
      requires Sound() && data != [] && flash.CleanIs(wroteSize, cleanTo) && flash.touched <= cleanTo
      requires cleanTo == Max(SectorEnd(wroteSize + |data| - 1, flash.sector), rejectedTo)
      requires rejectedTo % flash.sector == 0
      modifies `wroteSize, `partialBytes, `received, `lastPartial, `pad, partialData, flash, flash.cells
      ensures Valid()
      ensures received == old(received) + data && lastPartial == old(partialBytes)
      ensures pad == if encrypted && old(partialBytes) != 0 && old(partialBytes) + |data| >= 16 then 0xFF else old(pad)
      ensures flash.clobbered == old(flash.clobbered)
    {
      hide SectorEnd, Flash.CleanIs, Sound;
      Bounds();
      lastPartial := partialBytes;
      if encrypted {
        ErasedCached(wroteSize, partialBytes, |data|, flash.sector);
        StoreCached(data, cleanTo);
      } else {
        ErasedFor(wroteSize + |data|, 0, 0, |data|, flash.sector);
        ProgramDirect(data, cleanTo);
      }
    }

    /**
     * One call of the writer.  What it accepts extends the image by exactly its bytes and never
     * programs a cell that is not erased; what it turns down leaves the image as it was.  The unused
     * part of the cache holds zeros until a cached block has been completed for the first time, and
     * ones from then on.
     */
    method Write(data: seq<cell>) returns (r: Err)
      requires Valid()
      modifies this, partialData, flash, flash.cells
      ensures Valid()
      ensures r == Ok ==> received == old(received) + data
      ensures r == Ok && data != [] ==> lastPartial == old(partialBytes)
      ensures pad == if r == Ok && encrypted && old(partialBytes) != 0 && old(partialBytes) + |data| >= 16 then 0xFF
                     else old(pad)
      ensures r != Ok ==> received == old(received) && wroteSize == old(wroteSize) && partialBytes == old(partialBytes)
      ensures flash.clobbered == old(flash.clobbered)
      ensures r ==
              if data == [] then Ok
              else if SectorEnd(old(wroteSize) + |data| - 1, flash.sector) > flash.cells.Length then InvalidSize
              else if old(received) == [] && isApp && data[0] != IMAGE_MAGIC then ValidateFailed
              else Ok
      ensures rejectedTo == if r == ValidateFailed then Max(old(rejectedTo), SectorEnd(|data| - 1, flash.sector))
                            else old(rejectedTo)
    {
      hide SectorEnd, Flash.CleanIs;
      if data == [] {
        return Ok;
      }
      var erased := EraseAhead(|data|);
      if !erased {
        return InvalidSize;
      }
      if wroteSize == 0 && partialBytes == 0 && isApp && data[0] != IMAGE_MAGIC {
        SectorEndAligned(|data| - 1, flash.sector);
        rejectedTo := Max(rejectedTo, SectorEnd(|data| - 1, flash.sector));
        return ValidateFailed;
      }
      Store(data);
      return Ok;
    }

    /** The cached tail and its padding, programmed as one block. */
    method ProgramTail() returns (ok: bool)
      requires Valid() && partialBytes > 0
      modifies flash, flash.cells
      ensures ok <==> wroteSize + 16 <= flash.cells.Length
      ensures ok ==> (flash.clobbered <==> old(flash.clobbered) || StaleTail())
      ensures !StaleTail() ==>
                && ok
                && flash.cells[..][..wroteSize + 16] == received + Padding(pad, 16 - partialBytes)
      ensures StaleTail() && ok ==>
                && flash.cells[..][..wroteSize] == received[..wroteSize]
                && (forall k :: wroteSize <= k < wroteSize + 16 ==>
                      flash.cells[k] == Cleared(flash.stale[k], partialData[k - wroteSize]))
    {
      hide SectorEnd, Flash.CleanIs, Flash.AllClean, Flash.Valid, StaleTail, Valid, Cleared;
      CleanTail();
      TailBlock();
      ghost var mem := flash.cells[..];
      ghost var tail, fill := partialData[..][..partialBytes], Padding(pad, 16 - partialBytes);
      ok := flash.Program(wroteSize, partialData[..]);
      if !StaleTail() {
        Programmed(mem, flash.cells[..], wroteSize, tail + fill);
        Assoc(mem[..wroteSize], tail, fill);
      } else {
        assert flash.cells[..][..wroteSize] == mem[..wroteSize] == received[..wroteSize];
      }
    }

    /** What the cache and the flash hold when a tail is cached. */
    lemma TailBlock()
      requires Valid() && partialBytes > 0
      ensures flash.Valid() && partialData != flash.cells && wroteSize <= flash.cells.Length
      ensures partialBytes < 16 == partialData.Length
      ensures partialData[..] == partialData[..][..partialBytes] + Padding(pad, 16 - partialBytes)
      ensures received == flash.cells[..][..wroteSize] + partialData[..][..partialBytes]
    {
    }

    /** Exactly when the cells of the tail block are erased. */
    lemma CleanTail()
      requires Valid() && partialBytes > 0
      ensures flash.AllClean(wroteSize, wroteSize + 16) <==> !StaleTail()
      ensures !StaleTail() ==> wroteSize + 16 <= flash.cells.Length
      ensures StaleTail() && wroteSize + 16 <= flash.cells.Length ==>
                && |flash.stale| == flash.cells.Length
                && forall k :: wroteSize <= k < wroteSize + 16 ==> flash.cells[k] == flash.stale[k]
    {
      hide SectorEnd;
      TailRoom(wroteSize, partialBytes, lastPartial, rejectedTo, flash.sector);
      assert if StaleTail() then cleanTo == wroteSize else wroteSize + 16 <= cleanTo;
      if StaleTail() && wroteSize + 16 <= flash.cells.Length {
        assert !flash.clean[wroteSize];
      }
    }

    /**
     * Finishes the update.  The cached tail, padded to a whole block, is programmed exactly unless
     * it falls on the sector that `StaleTail` describes; then it lands on cells nobody erased, and
     * the image is intact only if none of its bits needs to be set there.  An image for an
     * application or bootloader partition is verified as it is in flash, others are not looked at.
     */
    method End(imageOk: seq<cell> -> bool) returns (r: Err)
      requires Valid()
      modifies `wroteSize, `partialBytes, flash, flash.cells
      ensures r == InvalidArg <==> old(wroteSize) == 0
      ensures r == InvalidArg ==> flash.cells[..] == old(flash.cells[..])
      ensures r == InvalidState <==>
                old(wroteSize) > 0 && old(StaleTail()) && old(wroteSize) + 16 > flash.cells.Length
      ensures r !in {InvalidArg, InvalidState} ==>
                && r == (if isApp && !imageOk(flash.cells[..]) then ValidateFailed else Ok)
                && (flash.clobbered <==> old(flash.clobbered) || old(StaleTail()))
                && wroteSize <= flash.cells.Length
                && 0 <= wroteSize - |received| < 16
                && (if encrypted then wroteSize % 16 == 0 else wroteSize == |received|)
      ensures r !in {InvalidArg, InvalidState} && !old(StaleTail()) ==>
                flash.cells[..][..wroteSize] == received + Padding(pad, wroteSize - |received|)
      ensures r !in {InvalidArg, InvalidState} && old(StaleTail()) ==>
                && old(wroteSize) <= |received| <= flash.cells.Length
                && flash.cells[..][..old(wroteSize)] == received[..old(wroteSize)]
                && forall k :: old(wroteSize) <= k < |received| ==>
                                 flash.cells[k] == Cleared(flash.stale[k], received[k])
    {
      hide SectorEnd, Flash.CleanIs, Flash.Valid, Cleared;
      if wroteSize == 0 {
        return InvalidArg;
      }
      assert partialBytes == 0 ==> flash.cells[..][..wroteSize] + [] == received;
      if partialBytes > 0 {
        var ok := ProgramTail();
        if !ok {
          return InvalidState;
        }
        wroteSize := wroteSize + 16;
        partialBytes := 0;
      }
      r := if isApp && !imageOk(flash.cells[..]) then ValidateFailed else Ok;
    }

    /** The image in flash and cache; the positions follow from the number of bytes. */
    lemma Image()
      requires Valid()
      ensures received == flash.cells[..][..wroteSize] + partialData[..][..partialBytes]
      ensures partialBytes == (if encrypted then |received| % 16 else 0)
      ensures wroteSize == |received| - partialBytes
    {
    }

    lemma Bounds()
      requires Sound()
      ensures flash.Valid() && flash.sector > 0 && flash.sector % 16 == 0 && partialBytes < 16
      ensures if encrypted then wroteSize % 16 == 0 else partialBytes == 0
    {
    }
  }

  lemma Programmed(mem: seq<cell>, mem': seq<cell>, off: nat, src: seq<cell>)
    requires off + |src| <= |mem| == |mem'|
    requires forall i :: 0 <= i < off ==> mem'[i] == mem[i]
    requires mem'[off..off + |src|] == src
    ensures mem'[..off + |src|] == mem[..off] + src
  {
    assert mem'[..off] == mem[..off];
    assert mem'[..off + |src|] == mem'[..off] + mem'[off..off + |src|];
  }

  function Padding(v: cell, n: int): (s: seq<cell>)
    ensures |s| == if n < 0 then 0 else n
  {
    seq(if n < 0 then 0 else n, _ => v)
  }

  /** A sector boundary is a block boundary. */
  lemma BlockAligned(x: nat, sector: nat)
    requires sector > 0 && sector % 16 == 0 && x % sector == 0
    ensures x % 16 == 0
  {
    var q, e := x / sector, sector / 16;
    assert x == q * sector && sector == 16 * e;
    assert q * (16 * e) == (q * e) * 16;
    DivUnique(x, 16, q * e, 0);
  }

  lemma SectorEndAligned(x: nat, sector: nat)
    requires sector > 0
    ensures SectorEnd(x, sector) % sector == 0 && x < SectorEnd(x, sector)
  {
    SectorBounds(x, sector);
    DivUnique(SectorEnd(x, sector), sector, x / sector + 1, 0);
  }

  /** The last sector erased for n bytes, seen from the new write position sum - p. */
  lemma ErasedFor(sum: nat, p: nat, p0: nat, n: nat, sector: nat)
    requires sector > 0 && n > 0 && p <= sum && p0 + n <= sum
    requires p0 == p == 0 || ((sum - p) % 16 == 0 && sector % 16 == 0 && p0 < 16 && p < 16)
    ensures var w, end := sum - p, SectorEnd(sum - p0 - 1, sector);
            && w <= end
            && end == if w % sector != 0 || p > p0 then SectorEnd(w, sector) else w
  {
    LastErased(sum - p, p0, p, sector);
    SectorBounds(sum - p, sector);
  }

  /** The same with the cache in use. */
  lemma ErasedCached(w: nat, p: nat, n: nat, sector: nat)
    requires sector > 0 && sector % 16 == 0 && n > 0 && w % 16 == 0 && p < 16
    ensures var p' := (w + p + n) % 16;
            var w' := w + p + n - p';
            var end := SectorEnd(w + n - 1, sector);
            && w' <= end
            && end == if w' % sector != 0 || p' > p then SectorEnd(w', sector) else w'
  {
    hide SectorEnd;
    ErasedFor(w + p + n, (w + p + n) % 16, p, n, sector);
  }

  /** A block boundary inside a sector leaves room for a whole block in it. */
  lemma TailFits(w: nat, sector: nat)
    requires sector > 0 && sector % 16 == 0
    ensures w % 16 == 0 ==> w + 16 <= SectorEnd(w, sector)
  {
    if w % 16 == 0 {
      SameBlock(w, 15, sector);
      SectorBounds(w + 15, sector);
    }
  }

  /** The erased cells end at the write position, or behind the next whole block. */
  lemma TailRoom(w: nat, p: nat, last: nat, rejectedTo: nat, sector: nat)
    requires sector > 0 && sector % 16 == 0 && w % 16 == 0 && rejectedTo % sector == 0
    ensures var end := Max(if w % sector != 0 || p > last then SectorEnd(w, sector) else w, rejectedTo);
            if p <= last && w % sector == 0 && rejectedTo <= w then end == w else w + 16 <= end
  {
    hide SectorEnd;
    TailFits(w, sector);
    BlockAligned(rejectedTo, sector);
  }

  /** n bytes behind w whole blocks and p cached bytes. */
  lemma CacheArithmetic(w: nat, p: nat, n: nat)
    requires w % 16 == 0 && p < 16
    ensures var sum := w + p + n;
            && (p == 0 ==> sum % 16 == n % 16)
            && (p + n < 16 ==> sum % 16 == p + n)
            && (p + n >= 16 ==> sum % 16 == (n - (16 - p)) % 16 && w + 16 <= sum - sum % 16)
  {
  }

  /** The ranges erased before n bytes are written at w reach from the old to the new end. */
  lemma ErasePlan(w: nat, n: nat, sector: nat)
    requires n > 0 && sector > 0
    ensures var first, last, end := w / sector, (w + n - 1) / sector, SectorEnd(w + n - 1, sector);
            && first <= last
            && w < SectorEnd(w, sector) <= end
            && (w % sector == 0 ==>
                  w + (last - first + 1) * sector == end && (last - first + 1) * sector % sector == 0)
            && (first + 1) * sector == SectorEnd(w, sector)
            && (first + 1) * sector % sector == 0
            && (first == last ==> end == SectorEnd(w, sector))
            && (first + 1) * sector + (last - first) * sector == end
            && (last - first) * sector % sector == 0
  {
    SectorBounds(w, sector);
    SectorEndMonotone(w, w + n - 1, sector);
    DivMonotone(w, w + n - 1, sector);
    Spans(w / sector, (w + n - 1) / sector, sector);
  }

  lemma Spans(first: nat, last: nat, sector: nat)
    requires first <= last && sector > 0
    ensures first * sector + (last - first + 1) * sector == (last + 1) * sector
    ensures (first + 1) * sector + (last - first) * sector == (last + 1) * sector
    ensures (last - first + 1) * sector % sector == 0
    ensures (first + 1) * sector % sector == 0 && (last - first) * sector % sector == 0
  {
    DivUnique((last - first + 1) * sector, sector, last - first + 1, 0);
    DivUnique((last - first) * sector, sector, last - first, 0);
    DivUnique((first + 1) * sector, sector, first + 1, 0);
  }

  /**
   * Every run of writes: the flash and the cache together hold the accepted data, end to end,
   * and no byte was ever programmed onto a cell that was not erased.
   */
  method RunWrites(h: Handle, calls: seq<seq<cell>>) returns (accepted: seq<seq<cell>>)
    requires h.Valid() && h.received == [] && !h.flash.clobbered
    modifies h, h.partialData, h.flash, h.flash.cells
    ensures h.Valid() && !h.flash.clobbered
    ensures h.flash.cells[..][..h.wroteSize] + h.partialData[..][..h.partialBytes] == Flatten(accepted)
  {
    hide Handle.Valid;
    accepted := [];
    for i := 0 to |calls|
      invariant h.Valid() && !h.flash.clobbered
      invariant h.received == Flatten(accepted)
    {
      var r := h.Write(calls[i]);
      if r == Ok {
        FlattenAppend(accepted, calls[i]);
        accepted := accepted + [calls[i]];
      }
    }
    h.Image();
  }

  /**
   * A run that meets the bad case: 4095 bytes and then 2 more into a data partition of two
   * 4096-byte sectors of stale zeros.  The last byte is programmed onto a sector nobody erased and
   * reads back as zero, though every call succeeds.  The cells here are what is read back: flash
   * encryption is on, which makes the writer use its cache, but the partition itself is not marked
   * as encrypted.  On one that is, the block read back would be garbage instead.
   */
  method StaleTailRun() returns (h: Handle, w1: Err, w2: Err, e: Err)
    ensures w1 == w2 == e == Ok
    ensures |h.received| == 4097 && h.received[4096] == 0x5A
    ensures h.flash.cells.Length == 8192 && h.flash.cells[4096] == 0
  {
    hide SectorEnd, Cleared, Flash.CleanIs, Flash.Valid, Handle.Valid;
    var stale := seq(8192, _ => 0);
    var flash := new Flash(4096, stale);
    h := new Handle(flash, true, false);
    var first := seq(4095, _ => 0x33);
    SectorBounds(4094, 4096);
    w1 := h.Write(first);
    h.Image();
    assert h.wroteSize == 4080 && h.partialBytes == 15;
    SectorBounds(4081, 4096);
    w2 := h.Write([0x11, 0x5A]);
    h.Image();
    assert h.wroteSize == 4096 && h.partialBytes == 1;
    e := h.End(_ => false);
  }
}
