/**
 Writing an OTA image: esp_ota_begin, esp_ota_write and esp_ota_end of components/app_update/esp_ota_ops.c,
 for one handle, over NOR flash: erasing sets all bits of whole sectors, writing can only clear bits.
 With flash encryption only whole 16-byte blocks can be written, so the handle buffers the rest.
 */
module OtaWrite {
  import opened Common

  const BLOCK: nat := 16
  const MAGIC: bv8 := 0xE9

  // ---------------------------------------------------------------- sector arithmetic

  /** The sector of address a is d, in terms of the sector's bounds. */
  lemma SectorIs(a: nat, es: nat, d: nat)
    requires es > 0
    ensures a < (d + 1) * es ==> a / es <= d
    ensures d * es <= a ==> d <= a / es
    ensures a / es * es <= a < (a / es + 1) * es
  {
    MulGap(es, d, a / es);
    MulGap(es, a / es, d);
  }

  lemma SectorsAreBlocks(d: nat, es: nat)
    requires es % BLOCK == 0
    ensures (d * es) % BLOCK == 0
  {
    var k := es / BLOCK;
    assert d * es == BLOCK * (d * k);
  }

  /** The next sector boundary at or behind a. */
  function RoundUp(a: nat, es: nat): nat
    requires es > 0
  {
    if a % es == 0 then a else (a / es + 1) * es
  }

  /** An address up to the boundary of sector d rounds up to at most that boundary. */
  lemma RoundUpBelow(a: nat, d: nat, es: nat)
    requires es > 0 && a <= d * es
    ensures RoundUp(a, es) <= d * es
    ensures a % es != 0 ==> a < d * es
  {
    assert a / es <= d by {
      SectorIs(a, es, d);
      MulGap(es, d + 1, a / es);
    }
    assert a % es == 0 ==> a == a / es * es;
    assert a % es != 0 ==> a / es < d && (a / es + 1) * es <= d * es by {
      assert a / es == d ==> a % es == a - d * es;
      MulGap(es, a / es + 1, d);
    }
    assert a % es != 0 ==> a < (a / es + 1) * es by {
      SectorIs(a, es, d);
    }
  }

  /** Multiples of 16 that are less than 16 apart. */
  lemma BlockOrder(end: nat, x: nat, top: nat)
    requires end % BLOCK == 0 && top % BLOCK == 0 && x < top && end <= x + BLOCK
    ensures end <= top
  {
  }

  /** For the last byte x of a write, by the code's reckoning, and the true end of the write. */
  ghost predicate Near(end: nat, x: nat) {
    end == x + 1 || (end % BLOCK == 0 && end <= x + BLOCK && x < end + BLOCK)
  }

  lemma EndBelowTop(end: nat, x: nat, es: nat)
    requires es > 0 && es % BLOCK == 0 && Near(end, x)
    ensures end <= (x / es + 1) * es
  {
    SectorIs(x, es, x / es);
    SectorsAreBlocks(x / es + 1, es);
    if end != x + 1 {
      BlockOrder(end, x, (x / es + 1) * es);
    }
  }

  lemma LastNotBeyondNext(end: nat, x: nat, es: nat)
    requires es > 0 && es % BLOCK == 0 && Near(end, x)
    ensures x / es <= end / es
  {
    SectorIs(end, es, end / es);
    SectorsAreBlocks(end / es + 1, es);
    if end != x + 1 {
      BlockOrder(end + BLOCK, end, (end / es + 1) * es);
    }
    SectorIs(x, es, end / es);
  }

  lemma TopOrder(end: nat, x: nat, es: nat)
    requires es > 0 && es % BLOCK == 0 && Near(end, x)
    ensures RoundUp(end, es) <= (x / es + 1) * es <= (end / es + 1) * es
  {
    EndBelowTop(end, x, es);
    RoundUpBelow(end, x / es + 1, es);
    LastNotBeyondNext(end, x, es);
    MulGap(es, x / es + 1, end / es + 1);
  }

  lemma TopReached(end: nat, x: nat, es: nat)
    requires es > 0 && end <= (x / es + 1) * es
    ensures end < (x / es + 1) * es <==> end % es != 0 || end <= x
  {
    if end % es != 0 {
      RoundUpBelow(end, x / es + 1, es);
    } else {
      assert end == end / es * es;
      SectorIs(x, es, end / es);
      MulGap(es, x / es + 1, end / es);
      MulGap(es, end / es, x / es + 1);
    }
  }

  /** The bytes of one esp_ota_write call that reach flash end here. */
  function WriteEnd(encrypted: bool, wrote: nat, partial: nat, size: nat): nat {
    wrote + if encrypted then (partial + size) / BLOCK * BLOCK else size
  }

  /** The sector of the last byte of one esp_ota_write call, by the code's reckoning, which ignores the partial bytes. */
  function LastSector(wrote: nat, size: nat, es: nat): nat
    requires es > 0 && size > 0
  {
    (wrote + size - 1) / es
  }

  /** The end of the sectors that the call makes sure are erased. */
  function EraseEnd(wrote: nat, size: nat, es: nat): nat
    requires es > 0 && size > 0
  {
    (LastSector(wrote, size, es) + 1) * es
  }

  /** The end of the sector of a. */
  function SectorEnd(a: nat, es: nat): nat
    requires es > 0
  {
    (a / es + 1) * es
  }

  /** What holds before every esp_ota_write call, for sector sizes that are a multiple of 16. */
  ghost predicate Aligned(encrypted: bool, wrote: nat, partial: nat, es: nat) {
    es > 0 && es % BLOCK == 0 && if encrypted then wrote % BLOCK == 0 && partial < BLOCK else partial == 0
  }

  /** Completing the buffered block first does not change where the write ends. */
  lemma TopUpArithmetic(wrote: nat, partial: nat, size: nat)
    requires partial <= BLOCK
    ensures partial + size >= BLOCK ==>
              && WriteEnd(true, wrote + BLOCK, 0, partial + size - BLOCK) == WriteEnd(true, wrote, partial, size)
              && (partial + size - BLOCK) % BLOCK == (partial + size) % BLOCK
              && wrote + BLOCK <= WriteEnd(true, wrote, partial, size)
    ensures partial + size < BLOCK ==> WriteEnd(true, wrote, partial + size, 0) == WriteEnd(true, wrote, partial, size)
  {
  }

  lemma EndIsNear(encrypted: bool, wrote: nat, partial: nat, size: nat)
    requires size > 0 && if encrypted then wrote % BLOCK == 0 && partial < BLOCK else partial == 0
    ensures Near(WriteEnd(encrypted, wrote, partial, size), wrote + size - 1)
  {
  }

  /**
     Although the erased range ignores the partial bytes, whatever a call writes lies in it, and it ends no
     later than the sector where the next write goes.
   */
  lemma WriteIsCovered(encrypted: bool, wrote: nat, partial: nat, size: nat, es: nat)
    requires Aligned(encrypted, wrote, partial, es) && size > 0
    ensures var end := WriteEnd(encrypted, wrote, partial, size);
            end <= RoundUp(end, es) <= EraseEnd(wrote, size, es) <= SectorEnd(end, es)
  {
    EndIsNear(encrypted, wrote, partial, size);
    TopOrder(WriteEnd(encrypted, wrote, partial, size), wrote + size - 1, es);
    SectorIs(WriteEnd(encrypted, wrote, partial, size), es, 0);
  }

  /**
     The block that esp_ota_end will write, at the end of what has been written, lies in the sectors erased
     so far exactly when the last call did not stop at a sector boundary, or left more partial bytes than
     it found.
   */
  lemma FinalBlockErased(wrote: nat, partial: nat, size: nat, es: nat)
    requires Aligned(true, wrote, partial, es) && size > 0
    ensures var end := WriteEnd(true, wrote, partial, size);
            end < EraseEnd(wrote, size, es) <==> end % es != 0 || (partial + size) % BLOCK > partial
  {
    var end: nat, x: nat := WriteEnd(true, wrote, partial, size), wrote + size - 1;
    assert Near(end, x);
    assert end <= x <==> (partial + size) % BLOCK > partial;
    EndBelowTop(end, x, es);
    TopReached(end, x, es);
  }

  /**
     So the final block can hit a sector that was never erased: after 4080 bytes and 15 more, a call with
     2 bytes writes up to 4096 and leaves one byte, without erasing the sector it belongs to.
   */
  lemma FinalBlockNotErased()
    ensures WriteEnd(true, 4080, 15, 2) == 4096 == EraseEnd(4080, 2, 4096) && (15 + 2) % BLOCK == 1
  {
  }

  /** The range (offset, length) that esp_ota_write erases, if any. */
  function EraseRange(wrote: nat, size: nat, es: nat): Option<(nat, nat)>
    requires es > 0 && size > 0
  {
    var first, last := wrote / es, LastSector(wrote, size, es);
    FirstNotBehindLast(wrote, size, es);
    if wrote % es == 0 then Some((wrote, (last - first + 1) * es))
    else if first != last then Some(((first + 1) * es, (last - first) * es))
    else None
  }

  /** What there is to erase lies in a partition of the given length. */
  predicate EraseFits(wrote: nat, size: nat, es: nat, length: nat)
    requires es > 0 && size > 0
  {
    EraseRange(wrote, size, es).Some? ==> EraseEnd(wrote, size, es) <= length
  }

  lemma FirstNotBehindLast(wrote: nat, size: nat, es: nat)
    requires es > 0 && size > 0
    ensures wrote / es <= LastSector(wrote, size, es)
  {
    SectorIs(wrote, es, wrote / es);
    SectorIs(wrote + size - 1, es, wrote / es);
  }

  /** The sectors from f to l. */
  lemma SectorsFrom(f: nat, l: nat, es: nat)
    requires es > 0 && f <= l
    ensures f * es + (l - f + 1) * es == (l + 1) * es
    ensures (l - f + 1) * es % es == 0 && f * es <= (f + 1) * es <= (l + 1) * es
  {
    Multiple(l - f + 1, es);
    assert (l + 1) * es == (f + (l - f + 1)) * es == f * es + (l - f + 1) * es;
    MulGap(es, f, f + 1);
    MulGap(es, f + 1, l + 1);
  }

  /** A range (offset, length) of whole sectors that reaches from lo to hi; no range if there is nothing between. */
  predicate Reaches(r: Option<(nat, nat)>, lo: nat, hi: nat, es: nat)
    requires es > 0
  {
    match r
    case Some((off, len)) => off == lo && off + len == hi && off % es == 0 && len % es == 0
    case None => lo == hi
  }

  lemma RangeAtBoundary(wrote: nat, size: nat, es: nat)
    requires es > 0 && size > 0 && wrote % es == 0
    ensures Reaches(EraseRange(wrote, size, es), RoundUp(wrote, es), EraseEnd(wrote, size, es), es)
  {
    var f, l := wrote / es, LastSector(wrote, size, es);
    FirstNotBehindLast(wrote, size, es);
    SectorsFrom(f, l, es);
    assert wrote == f * es;
  }

  lemma RangeInSector(wrote: nat, size: nat, es: nat)
    requires es > 0 && size > 0 && wrote % es != 0
    ensures Reaches(EraseRange(wrote, size, es), RoundUp(wrote, es), EraseEnd(wrote, size, es), es)
  {
    var f, l := wrote / es, LastSector(wrote, size, es);
    FirstNotBehindLast(wrote, size, es);
    if f != l {
      SectorsFrom(f + 1, l, es);
      Multiple(f + 1, es);
    }
  }

  /** It covers whole sectors, from the first boundary not before wrote up to EraseEnd. */
  lemma EraseRangeFits(wrote: nat, size: nat, es: nat)
    requires es > 0 && es % BLOCK == 0 && size > 0
    ensures Reaches(EraseRange(wrote, size, es), RoundUp(wrote, es), EraseEnd(wrote, size, es), es)
    ensures EraseEnd(wrote, size, es) % BLOCK == 0
    ensures wrote <= RoundUp(wrote, es) && SectorEnd(wrote, es) <= EraseEnd(wrote, size, es)
  {
    FirstNotBehindLast(wrote, size, es);
    SectorsAreBlocks(LastSector(wrote, size, es) + 1, es);
    MulGap(es, wrote / es + 1, LastSector(wrote, size, es) + 1);
    SectorIs(wrote, es, wrote / es);
    hide EraseRange, LastSector, Reaches;
    if wrote % es == 0 {
      RangeAtBoundary(wrote, size, es);
    } else {
      RangeInSector(wrote, size, es);
    }
  }

  lemma Multiple(d: nat, es: nat)
    requires es > 0
    ensures (d * es) % es == 0 && d * es / es == d
  {
    SectorIs(d * es, es, d);
    MulGap(es, d + 1, d * es / es);
  }

  // ---------------------------------------------------------------- flash

  ghost predicate AllBlank(blank: seq<bool>, off: nat, n: nat) {
    off + n <= |blank| && forall i | off <= i < off + n :: blank[i]
  }

  ghost function Used(blank: seq<bool>, off: nat, n: nat): (r: seq<bool>)
    ensures |r| == |blank| && forall i | 0 <= i < |r| :: r[i] == (blank[i] && !(off <= i < off + n))
  {
    seq(|blank|, i requires 0 <= i < |blank| => blank[i] && !(off <= i < off + n))
  }

  ghost function Cleared(blank: seq<bool>, off: nat, n: nat): (r: seq<bool>)
    ensures |r| == |blank| && forall i | 0 <= i < |r| :: r[i] == (blank[i] || off <= i < off + n)
  {
    seq(|blank|, i requires 0 <= i < |blank| => blank[i] || off <= i < off + n)
  }

  /** A partition. `blank` cells were erased and not written since. */
  class Flash {
    const cells: array<bv8>
    const es: nat
    ghost var blank: seq<bool>
    /** Some write has hit a cell that was not blank. */
    ghost var overwrote: bool

    ghost predicate Valid()
      reads this, cells
    {
      && 0 < es < 0x8000_0000 && es % BLOCK == 0 && cells.Length < 0x8000_0000 && |blank| == cells.Length
      && forall i | 0 <= i < |blank| && blank[i] :: cells[i] == 0xFF
    }

    /** Nothing is known about the cells yet. */
    constructor (cells: array<bv8>, es: nat)
      requires 0 < es < 0x8000_0000 && es % BLOCK == 0 && cells.Length < 0x8000_0000
      ensures Valid() && this.cells == cells && this.es == es
      ensures !overwrote && forall i | 0 <= i < |blank| :: !blank[i]
    {
      this.cells, this.es := cells, es;
      blank := seq(cells.Length, _ => false);
      overwrote := false;
    }

    /** esp_partition_erase_range: checks its range and erases whole sectors. */
    method Erase(off: nat, len: nat) returns (ok: bool)
      requires Valid()
      modifies this`blank, cells
      ensures Valid()
      ensures ok <==> off + len <= cells.Length && off % es == 0 && len % es == 0
      ensures !ok ==> blank == old(blank) && cells[..] == old(cells[..])
      ensures ok ==> forall i | 0 <= i < cells.Length ::
                blank[i] == (old(blank)[i] || off <= i < off + len) && (i < off || off + len <= i ==> cells[i] == old(cells[i]))
    {
      if off > cells.Length || len > cells.Length - off || len % es != 0 || off % es != 0 {
        return false;
      }
      forall i | off <= i < off + len {
        cells[i] := 0xFF;
      }
      blank := Cleared(blank, off, len);
      ok := true;
    }

    /** esp_partition_write: checks its range and clears bits. */
    method Program(off: nat, src: seq<bv8>) returns (ok: bool)
      requires Valid()
      modifies this`blank, this`overwrote, cells
      ensures Valid()
      ensures ok <==> off + |src| <= cells.Length
      ensures !ok ==> blank == old(blank) && cells[..] == old(cells[..]) && overwrote == old(overwrote)
      ensures ok ==> forall i | 0 <= i < cells.Length ::
                if off <= i < off + |src| then cells[i] == old(cells[i]) & src[i - off] && !blank[i]
                else cells[i] == old(cells[i]) && blank[i] == old(blank)[i]
      ensures ok ==> overwrote == (old(overwrote) || !AllBlank(old(blank), off, |src|))
    {
      if off > cells.Length || |src| > cells.Length - off {
        return false;
      }
      hide AllBlank;
      forall i | off <= i < off + |src| {
        cells[i] := cells[i] & src[i - off];
      }
      overwrote := overwrote || !AllBlank(blank, off, |src|);
      blank := Used(blank, off, |src|);
      ok := true;
    }

    /** Programming blank cells stores exactly the data and leaves everything else alone. */
    method Append(off: nat, src: seq<bv8>) returns (ok: bool)
      requires Valid() && off <= cells.Length
      modifies this`blank, this`overwrote, cells
      ensures Valid()
      ensures ok <==> off + |src| <= cells.Length
      ensures cells[..off] == old(cells[..off])
      ensures ok ==> cells[..off] + src == cells[..off + |src|] || !AllBlank(old(blank), off, |src|)
      ensures ok ==> overwrote == (old(overwrote) || !AllBlank(old(blank), off, |src|))
      ensures ok ==> forall i | off + |src| <= i < cells.Length :: blank[i] == old(blank)[i]
      ensures !ok ==> blank == old(blank) && overwrote == old(overwrote)
    {
      ghost var prefix, was := cells[..off], blank;
      ok := Program(off, src);
      assert cells[..off] == prefix;
      if ok && AllBlank(was, off, |src|) {
        forall i | 0 <= i < |src|
          ensures cells[off + i] == src[i]
        {
          assert was[off + i];
          assert 0xFF & src[i] == src[i];
        }
      }
    }
  }

  datatype OtaErr = Ok | InvalidArg | ValidateFailed | FlashFailed

  /** One open handle. */
  class OtaHandle {
    const part: Flash
    const needErase: bool
    const encrypted: bool
    var wroteSize: nat
    var partialBytes: nat
    const partialData: array<bv8>

    /** The concatenation of everything successfully passed to esp_ota_write. */
    ghost var image: seq<bv8>
    /** Cells from wroteSize to here were erased for this handle. */
    ghost var blankTo: nat
    /** A block begun by one call has been completed by another. */
    ghost var refilled: bool

    /** The writes so far are covered by what was erased: always, if the handle erases as it goes. */
    ghost predicate Covered()
      reads this
    {
      needErase || |image| <= blankTo
    }

    /** Behind the buffered bytes stand zeros, until the buffer is refilled. */
    ghost predicate Padded()
      reads this, partialData
    {
      forall i | partialBytes <= i < partialData.Length :: partialData[i] == if refilled then 0xFF else 0
    }

    /** Between the steps of a call. */
    ghost predicate Consistent()
      reads this, part, part.cells, partialData
    {
      && part.Valid() && partialData.Length == BLOCK && partialData != part.cells
      && Aligned(encrypted, wroteSize, partialBytes, part.es)
      && wroteSize <= part.cells.Length && blankTo <= part.cells.Length
      && |image| == wroteSize + partialBytes && Padded()
      && (forall i | wroteSize <= i < blankTo :: part.blank[i])
      && (needErase ==> blankTo % BLOCK == 0)
      && (needErase ==> forall i | blankTo <= i < part.cells.Length :: !part.blank[i])
      && (Covered() ==> Stored() == image)
    }

    /** Between calls: a sector that has been begun is blank up to its end. */
    ghost predicate Valid()
      reads this, part, part.cells, partialData
    {
      && Consistent()
      && (needErase ==> RoundUp(wroteSize, part.es) <= blankTo)
    }

    /** Nothing is erased beyond the sector where the next write goes. */
    ghost predicate Snug()
      reads this, part
    {
      needErase && part.es > 0 && blankTo <= SectorEnd(wroteSize, part.es)
    }

    /** What the flash holds of the image, and then what is buffered. */
    ghost function Stored(): seq<bv8>
      reads this, part.cells, partialData
      requires wroteSize <= part.cells.Length && partialBytes <= partialData.Length
    {
      part.cells[..wroteSize] + partialData[..partialBytes]
    }

    /** A fresh handle. With needErase it counts only its own erasing; otherwise `erased` cells are blank. */
    constructor (part: Flash, needErase: bool, encrypted: bool, erased: nat)
      requires part.Valid() && erased <= part.cells.Length
      requires needErase ==> erased == 0
      requires !needErase ==> AllBlank(part.blank, 0, erased)
      modifies part`blank
      ensures Valid() && this.part == part && this.needErase == needErase && this.encrypted == encrypted
      ensures image == [] && wroteSize == 0 && partialBytes == 0 && blankTo == erased && fresh(partialData)
      ensures !refilled
    {
      this.part, this.needErase, this.encrypted := part, needErase, encrypted;
      wroteSize, partialBytes, blankTo, image, refilled := 0, 0, erased, [], false;
      partialData := new bv8[BLOCK](_ => 0);
      new;
      if needErase {
        part.blank := seq(part.cells.Length, _ => false);
      }
    }

    method EraseFrom(off: nat, len: nat) returns (ok: bool)
      requires Consistent() && needErase && wroteSize <= off <= blankTo && (off + len) % BLOCK == 0
      modifies this`blankTo, part`blank, part.cells
      ensures Consistent() && part.cells[..wroteSize] == old(part.cells[..wroteSize])
      ensures blankTo == if ok then Max(old(blankTo), off + len) else old(blankTo)
      ensures ok <==> off + len <= part.cells.Length && off % part.es == 0 && len % part.es == 0
    {
      ghost var prefix := part.cells[..wroteSize];
      ok := part.Erase(off, len);
      assert part.cells[..wroteSize] == prefix;
      if ok {
        blankTo := Max(blankTo, off + len);
      }
    }

    /** The first part of esp_ota_write: erases the sectors that the call is going to reach. */
    method EraseAhead(size: nat) returns (ok: bool)
      requires Valid() && needErase && 0 < size
      modifies this`blankTo, part`blank, part.cells
      ensures Consistent() && part.cells[..wroteSize] == old(part.cells[..wroteSize])
      ensures blankTo == if ok then Max(old(blankTo), EraseEnd(wroteSize, size, part.es)) else old(blankTo)
      ensures ok <==> EraseFits(wroteSize, size, part.es, part.cells.Length)
    {
      hide EraseRange, EraseEnd, RoundUp, Stored;
      var range := EraseRange(wroteSize, size, part.es);
      EraseRangeFits(wroteSize, size, part.es);
      if range.None? {
        return true;
      }
      ok := EraseFrom(range.value.0, range.value.1);
    }

    /** memcpy behind what is buffered. */
    method Buffer(src: seq<bv8>)
      requires partialData.Length == BLOCK && partialBytes + |src| <= BLOCK
      modifies this`partialBytes, partialData
      ensures partialBytes == old(partialBytes) + |src|
      ensures partialData[..partialBytes] == old(partialData[..partialBytes]) + src
      ensures old(Padded()) ==> Padded()
    {
      forall i | 0 <= i < |src| {
        partialData[partialBytes + i] := src[i];
      }
      partialBytes := partialBytes + |src|;
    }

    lemma Alignment()
      requires Consistent()
      ensures part.Valid() && Aligned(encrypted, wroteSize, partialBytes, part.es) && |image| == wroteSize + partialBytes
      ensures wroteSize <= part.cells.Length && (needErase ==> Covered())
    {
    }

    /** Adds to the buffered block, and writes the block when it is complete. */
    method AddToBlock(head: seq<bv8>) returns (ok: bool)
      requires Consistent() && encrypted && head != [] && partialBytes + |head| <= BLOCK
      requires needErase && partialBytes + |head| == BLOCK ==> wroteSize + BLOCK <= blankTo
      modifies this`wroteSize, this`partialBytes, this`image, this`refilled, partialData, part`blank, part`overwrote, part.cells
      ensures part.Valid() && part.cells[..old(wroteSize)] == old(part.cells[..wroteSize])
      ensures ok <==> old(partialBytes) + |head| < BLOCK || old(wroteSize) + BLOCK <= part.cells.Length
      ensures ok ==> Consistent() && image == old(image) + head
      ensures ok ==> if old(partialBytes) + |head| < BLOCK then
                       wroteSize == old(wroteSize) && partialBytes == old(partialBytes) + |head|
                     else wroteSize == old(wroteSize) + BLOCK && partialBytes == 0
      ensures ok ==> refilled == (old(refilled) || old(partialBytes) + |head| == BLOCK)
      ensures ok && Covered() ==> part.overwrote == old(part.overwrote)
    {
      assert part.Valid() && wroteSize <= part.cells.Length == |part.blank|;
      hide Flash.Valid, RoundUp;
      ghost var flashed, buffered := part.cells[..wroteSize], partialData[..partialBytes];
      Buffer(head);
      image := image + head;
      assert flashed + buffered + head == flashed + partialData[..partialBytes];
      if partialBytes != BLOCK {
        return true;
      }
      ok := part.Append(wroteSize, partialData[..]);
      if !ok {
        return;
      }
      partialBytes := 0;
      forall i | 0 <= i < BLOCK {
        partialData[i] := 0xFF;
      }
      refilled := true;
      wroteSize := wroteSize + BLOCK;
    }

    /** The middle part of esp_ota_write: uses the start of the data to complete the buffered block. */
    method TopUp(data: seq<bv8>) returns (ok: bool, n: nat)
      requires Consistent() && encrypted && partialBytes != 0 && data != []
      requires needErase ==> WriteEnd(true, wroteSize, partialBytes, |data|) <= blankTo
      modifies this`wroteSize, this`partialBytes, this`image, this`refilled, partialData, part`blank, part`overwrote, part.cells
      ensures part.Valid() && part.cells[..old(wroteSize)] == old(part.cells[..wroteSize])
      ensures ok <==> old(partialBytes) + |data| < BLOCK || old(wroteSize) + BLOCK <= part.cells.Length
      ensures ok ==> Consistent() && n <= |data| && image == old(image) + data[..n]
      ensures ok ==> partialBytes == 0 || n == |data|
      ensures ok ==> WriteEnd(true, wroteSize, partialBytes, |data| - n) == WriteEnd(true, old(wroteSize), old(partialBytes), |data|)
      ensures ok ==> (partialBytes + |data| - n) % BLOCK == (old(partialBytes) + |data|) % BLOCK
      ensures ok ==> refilled == (old(refilled) || old(partialBytes) + |data| >= BLOCK)
      ensures ok && Covered() ==> part.overwrote == old(part.overwrote)
    {
      Alignment();
      hide Consistent, Covered, WriteEnd;
      TopUpArithmetic(wroteSize, partialBytes, |data|);
      n := Min(BLOCK - partialBytes, |data|);
      ok := AddToBlock(data[..n]);
    }

    /** With an empty buffer: buffers the tail and writes the whole blocks before it. */
    method PutBlocks(whole: seq<bv8>, tail: seq<bv8>) returns (ok: bool)
      requires Consistent() && partialBytes == 0 && |tail| < BLOCK
      requires if encrypted then |whole| % BLOCK == 0 else tail == []
      requires needErase ==> wroteSize + |whole| <= blankTo
      modifies this`wroteSize, this`partialBytes, this`image, this`refilled, partialData, part`blank, part`overwrote, part.cells
      ensures part.Valid() && part.cells[..old(wroteSize)] == old(part.cells[..wroteSize])
      ensures ok <==> old(wroteSize) + |whole| <= part.cells.Length
      ensures ok ==> Consistent() && image == old(image) + (whole + tail)
      ensures ok ==> wroteSize == old(wroteSize) + |whole| && partialBytes == |tail| && refilled == old(refilled)
      ensures ok && Covered() ==> part.overwrote == old(part.overwrote)
    {
      assert part.Valid() && wroteSize <= part.cells.Length == |part.blank|;
      hide Flash.Valid, RoundUp;
      ghost var flashed := part.cells[..wroteSize];
      Buffer(tail);
      ok := part.Append(wroteSize, whole);
      if ok {
        wroteSize := wroteSize + |whole|;
        image := image + (whole + tail);
        assert flashed + whole + tail == flashed + (whole + tail);
      }
    }

    /** The last part of esp_ota_write, with an empty buffer: writes all it may, and buffers the rest. */
    method PutRest(data: seq<bv8>) returns (ok: bool)
      requires Consistent() && partialBytes == 0
      requires needErase ==> WriteEnd(encrypted, wroteSize, 0, |data|) <= blankTo
      modifies this`wroteSize, this`partialBytes, this`image, this`refilled, partialData, part`blank, part`overwrote, part.cells
      ensures part.Valid() && part.cells[..old(wroteSize)] == old(part.cells[..wroteSize])
      ensures ok <==> WriteEnd(encrypted, old(wroteSize), 0, |data|) <= part.cells.Length
      ensures ok ==> Consistent() && image == old(image) + data
      ensures ok ==> wroteSize == WriteEnd(encrypted, old(wroteSize), 0, |data|)
      ensures ok ==> partialBytes == (if encrypted then |data| % BLOCK else 0) && refilled == old(refilled)
      ensures ok && Covered() ==> part.overwrote == old(part.overwrote)
    {
      hide Consistent, Stored, Covered;
      var size := |data| - if encrypted then |data| % BLOCK else 0;
      assert data == data[..size] + data[size..];
      ok := PutBlocks(data[..size], data[size..]);
    }

    /** The second part of esp_ota_write: stores the data, as far as whole blocks go. */
    method Store(data: seq<bv8>) returns (ok: bool)
      requires Consistent() && data != []
      requires needErase ==> WriteEnd(encrypted, wroteSize, partialBytes, |data|) <= blankTo
      modifies this`wroteSize, this`partialBytes, this`image, this`refilled, partialData, part`blank, part`overwrote, part.cells
      ensures part.Valid() && part.cells[..old(wroteSize)] == old(part.cells[..wroteSize])
      ensures ok <==> WriteEnd(encrypted, old(wroteSize), old(partialBytes), |data|) <= part.cells.Length
      ensures ok ==> Consistent() && image == old(image) + data
      ensures ok ==> wroteSize == WriteEnd(encrypted, old(wroteSize), old(partialBytes), |data|)
      ensures ok ==> partialBytes == if encrypted then (old(partialBytes) + |data|) % BLOCK else 0
      ensures ok ==> refilled == (old(refilled) || (encrypted && old(partialBytes) != 0 && old(partialBytes) + |data| >= BLOCK))
      ensures ok && Covered() ==> part.overwrote == old(part.overwrote)
    {
      Alignment();
      hide Consistent, Covered, Stored, Flash.Valid;
      if encrypted && partialBytes != 0 {
        ok := StoreBuffered(data);
      } else {
        ok := PutRest(data);
      }
    }

    /** With something in the buffer: completes the block, and goes on with the rest of the data. */
    method StoreBuffered(data: seq<bv8>) returns (ok: bool)
      requires Consistent() && encrypted && partialBytes != 0 && data != []
      requires needErase ==> WriteEnd(true, wroteSize, partialBytes, |data|) <= blankTo
      modifies this`wroteSize, this`partialBytes, this`image, this`refilled, partialData, part`blank, part`overwrote, part.cells
      ensures part.Valid() && part.cells[..old(wroteSize)] == old(part.cells[..wroteSize])
      ensures ok <==> WriteEnd(true, old(wroteSize), old(partialBytes), |data|) <= part.cells.Length
      ensures ok ==> Consistent() && image == old(image) + data
      ensures ok ==> wroteSize == WriteEnd(true, old(wroteSize), old(partialBytes), |data|)
      ensures ok ==> partialBytes == (old(partialBytes) + |data|) % BLOCK
      ensures ok ==> refilled == (old(refilled) || old(partialBytes) + |data| >= BLOCK)
      ensures ok && Covered() ==> part.overwrote == old(part.overwrote)
    {
      Alignment();
      ghost var flashed := part.cells[..wroteSize];
      hide Stored, Flash.Valid;
      var n;
      ok, n := TopUp(data);
      if !ok || partialBytes != 0 {
        assert ok ==> data[..n] == data;
        return;
      }
      assert data == data[..n] + data[n..];
      assert part.cells[..|flashed|] == flashed;
      ghost var flashed' := part.cells[..wroteSize];
      ok := PutRest(data[n..]);
      assert part.cells[..|flashed|] == part.cells[..|flashed'|][..|flashed|];
    }

    lemma BlankAtEnd()
      requires Consistent() && needErase && encrypted && wroteSize < part.cells.Length
      ensures AllBlank(part.blank, wroteSize, BLOCK) <==> wroteSize < blankTo
    {
      assert wroteSize < blankTo ==> wroteSize + BLOCK <= blankTo;
      assert wroteSize >= blankTo ==> !part.blank[wroteSize];
    }

    /** esp_ota_write */
    method Write(data: seq<bv8>) returns (err: OtaErr)
      requires Valid() && |data| < 0x8000_0000
      modifies this`wroteSize, this`partialBytes, this`image, this`blankTo, this`refilled, partialData
      modifies part`blank, part`overwrote, part.cells
      // Whatever happens, nothing written before is destroyed.
      ensures part.Valid() && part.cells[..old(wroteSize)] == old(part.cells[..wroteSize])
      // Chunking does not matter: the flash and the buffer hold the chunks, one after the other.
      ensures err == Ok ==> Valid() && image == old(image) + data
      // Erase before write: every byte landed in a blank cell.
      ensures err == Ok && Covered() ==> part.overwrote == old(part.overwrote)
      // Every outcome, in the order of the checks.
      ensures err == if data == [] then Ok
                     else if needErase && !EraseFits(old(wroteSize), |data|, part.es, part.cells.Length) then FlashFailed
                     else if old(image) == [] && data[0] != MAGIC then ValidateFailed
                     else if WriteEnd(encrypted, old(wroteSize), old(partialBytes), |data|) > part.cells.Length then FlashFailed
                     else Ok
      ensures err == ValidateFailed ==> Valid() && image == old(image)
      // The bytes that fill up the final block are 0, or 0xFF once a call has completed a block that another began.
      ensures err == Ok ==>
                refilled == (old(refilled) || (encrypted && old(partialBytes) != 0 && old(partialBytes) + |data| >= BLOCK))
      ensures err == Ok && old(Snug()) ==> Snug()
      // The block that esp_ota_end would write is blank in exactly these cases.
      ensures err == Ok && old(Snug()) && encrypted && data != [] && wroteSize < part.cells.Length ==>
                (AllBlank(part.blank, wroteSize, BLOCK) <==> wroteSize % part.es != 0 || partialBytes > old(partialBytes))
    {
      hide Consistent, Flash.Valid, AllBlank, Stored, Aligned, WriteEnd, EraseEnd, RoundUp, SectorEnd;
      Alignment();
      if data == [] {
        return Ok;
      }
      var size := |data|;
      ghost var partial, wrote := partialBytes, wroteSize;
      if needErase {
        var erased := EraseAhead(size);
        Alignment();
        if !erased {
          return FlashFailed;
        }
      }
      if wroteSize == 0 && partialBytes == 0 && data[0] != MAGIC {
        return ValidateFailed;
      }
      WriteIsCovered(encrypted, wrote, partial, size, part.es);
      EraseRangeFits(wrote, size, part.es);
      var ok := Store(data);
      if !ok {
        return FlashFailed;
      }
      if encrypted {
        FinalBlockErased(wrote, partial, size, part.es);
      }
      if needErase && encrypted && wroteSize < part.cells.Length {
        BlankAtEnd();
      }
      err := Ok;
    }

    /**
     How the image was cut into chunks leaves no trace: its length alone decides how much is in flash,
     and flash and buffer hold exactly the image.
     */
    lemma ChunkingDoesNotMatter()
      requires Valid() && Covered()
      ensures wroteSize == if encrypted then |image| / BLOCK * BLOCK else |image|
      ensures part.cells[..wroteSize] == image[..wroteSize] && partialData[..partialBytes] == image[wroteSize..]
    {
      assert Stored()[..wroteSize] == part.cells[..wroteSize];
      assert Stored()[wroteSize..] == partialData[..partialBytes];
    }

    /**
     esp_ota_end up to the verification of the image: a handle with nothing in flash is refused, and a
     buffered rest is written as a whole block. If that block was blank, the flash holds the image and
     fewer than 16 bytes of padding.
     */
    method Finish() returns (err: OtaErr)
      requires Valid()
      modifies this`wroteSize, this`partialBytes, part`blank, part`overwrote, part.cells
      ensures err == if old(wroteSize) == 0 then InvalidArg
                     else if old(partialBytes) > 0 && old(wroteSize) + BLOCK > part.cells.Length then FlashFailed
                     else Ok
      ensures part.Valid() && part.cells[..old(wroteSize)] == old(part.cells[..wroteSize])
      ensures err == Ok ==> partialBytes == 0 && |image| <= wroteSize < |image| + BLOCK && wroteSize <= part.cells.Length
      ensures err == Ok && Covered() && old(partialBytes == 0 || AllBlank(part.blank, wroteSize, BLOCK)) ==>
                && image <= part.cells[..wroteSize]
                && forall i | |image| <= i < wroteSize :: part.cells[i] == if refilled then 0xFF else 0
      ensures err == Ok ==>
                part.overwrote == old(part.overwrote || (partialBytes > 0 && !AllBlank(part.blank, wroteSize, BLOCK)))
    {
      assert part.Valid() && partialBytes < BLOCK;
      hide Flash.Valid, RoundUp;
      if wroteSize == 0 {
        return InvalidArg;
      }
      if partialBytes > 0 {
        ghost var flashed, buffered := part.cells[..wroteSize], partialData[..partialBytes];
        var block := partialData[..];
        assert buffered <= block;
        assert flashed + buffered <= flashed + block;
        var ok := part.Append(wroteSize, block);
        if !ok {
          return FlashFailed;
        }
        wroteSize := wroteSize + BLOCK;
        partialBytes := 0;
      }
      err := Ok;
    }
  }

  const OTA_WITH_SEQUENTIAL_WRITES: u32 := 0xFFFF_FFFE
  const OTA_SIZE_UNKNOWN: u32 := 0xFFFF_FFFF

  predicate WholePartition(imageSize: u32) {
    imageSize == 0 || imageSize == OTA_SIZE_UNKNOWN
  }

  /**
     esp_ota_begin on a partition that may be written: erases what the image needs, or leaves that to the
     writes. A size within a sector of 2^32 wraps around, and nothing is erased for it.
   */
  method Begin(part: Flash, imageSize: u32, encrypted: bool) returns (h: OtaHandle?)
    requires part.Valid()
    modifies part`blank, part.cells
    ensures h != null ==> h.Valid() && h.part == part && h.encrypted == encrypted && h.image == [] && !h.refilled && fresh(h) && fresh(h.partialData)
    ensures h != null ==> h.needErase == (imageSize == OTA_WITH_SEQUENTIAL_WRITES) && (h.needErase ==> h.Snug())
    ensures h != null && WholePartition(imageSize) ==> h.blankTo == part.cells.Length
    ensures h != null && !h.needErase && !WholePartition(imageSize) ==>
              if imageSize + part.es - 1 < U32 then imageSize <= h.blankTo else h.blankTo == 0
    ensures h == null <==>
              imageSize != OTA_WITH_SEQUENTIAL_WRITES &&
              if WholePartition(imageSize) then part.cells.Length % part.es != 0
              else Add32(imageSize, part.es - 1) / part.es * part.es > part.cells.Length
  {
    var es := part.es;
    if imageSize == OTA_WITH_SEQUENTIAL_WRITES {
      h := new OtaHandle(part, true, encrypted, 0);
      return;
    }
    var len := if WholePartition(imageSize) then part.cells.Length else Add32(imageSize, es - 1) / es * es;
    SectorIs(Add32(imageSize, es - 1), es, 0);
    Multiple(Add32(imageSize, es - 1) / es, es);
    var ok := part.Erase(0, len);
    if !ok {
      return null;
    }
    h := new OtaHandle(part, false, encrypted, len);
  }
}
