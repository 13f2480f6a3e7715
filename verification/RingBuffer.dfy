/**
 The ring buffer of components/app_trace/app_trace_util.c.

 It hands out contiguous regions, so it sometimes leaves the end of the storage unused: it shrinks
 itself (`curSize`) and wraps early, and regains its full size when the read pointer wraps.
 `Contents()` is the byte queue the buffer stands for.
 */
module RingBuffers {
  import opened Common

  /** The control fields of a ring, as a value. */
  datatype Control = Control(size: nat, curSize: nat, rd: nat, wr: nat) {

    predicate Ok() {
      if rd <= wr then curSize == size && wr < Max(size, 1) else rd < curSize <= size
    }

    function Len(): nat
      requires Ok()
    {
      if rd <= wr then wr - rd else curSize - rd + wr
    }

    /** The queued bytes, oldest first, when the storage holds `mem`. */
    function Live(mem: seq<byte>): (s: seq<byte>)
      requires Ok() && |mem| == size
      ensures |s| == Len() <= Max(size - 1, 0)
    {
      if rd <= wr then mem[rd..wr] else mem[rd..curSize] + mem[..wr]
    }

    /** The longest contiguous region that can be handed out; one byte always stays unused. */
    function LargestRoom(): nat
      requires Ok()
    {
      if rd > wr then rd - wr - 1
      else if rd == 0 then Max(size - wr - 1, 0)
      else Max(size - wr, rd - 1)
    }

    /** The n bytes from `off` on are the newest ones of the queue. */
    predicate IsTail(off: nat, n: nat) {
      && off + n == (if rd > wr && wr == 0 then curSize else wr)
      && (rd <= wr || wr == 0 ==> rd <= off)
    }
  }

  /** No queued byte is in cell i. */
  predicate Free(c: Control, i: nat) {
    i < c.size && if c.rd <= c.wr then i < c.rd || c.wr <= i else c.wr <= i < c.rd || c.curSize <= i
  }

  /**
     The n cells from p on are free, come next, right behind the newest byte or at the start of the storage, and do not
     reach the oldest byte, which would make the ring look empty.
   */
  ghost predicate ComesNext(c: Control, p: nat, n: nat) {
    && p + n <= c.size && (forall i | p <= i < p + n :: Free(c, i))
    && (p == c.wr || (p == 0 && c.rd <= c.wr))
    && (if p + n == c.size then 0 else p + n) != c.rd
  }

  /**
     What is granted, in terms of the cells: if bytes are queued, every request for which there are cells that can come
     next. An empty ring grants less than that: it takes the cells on one side of its pointers only, although all
     are free.
   */
  lemma RoomIsExact(c: Control, n: nat)
    requires c.Ok() && n > 0
    ensures c.Len() > 0 ==> (n <= c.LargestRoom() <==> exists p: nat :: ComesNext(c, p, n))
    ensures c.Len() == 0 ==> (n <= c.LargestRoom() <==> ComesNext(c, c.wr, n) || (n < c.rd && ComesNext(c, 0, n)))
    ensures c.Len() == 0 ==> forall i | 0 <= i < c.size :: Free(c, i)
  {
    if n <= c.LargestRoom() {
      var p := if c.rd > c.wr || c.wr + n < c.size || (c.wr + n == c.size && c.rd > 0) then c.wr else 0;
      assert ComesNext(c, p, n);
    }
    forall p: nat | ComesNext(c, p, n) && c.Len() > 0 ensures n <= c.LargestRoom() {
      assert p <= c.rd < p + n ==> Free(c, c.rd);
    }
  }

  /** From c to c' the queue gained exactly the n bytes from p on. */
  ghost predicate Grew(c: Control, c': Control, mem: seq<byte>, p: nat, n: nat)
    requires c.Ok() && |mem| == c.size
  {
    && c'.size == c.size && c'.Ok() && p + n <= c.size
    && c'.Live(mem) == c.Live(mem) + mem[p..p + n]
    && (n > 0 ==> c'.IsTail(p, n))
  }

  lemma GrowInPlace(c: Control, mem: seq<byte>, n: nat)
    requires c.Ok() && |mem| == c.size
    requires c.wr + n < if c.rd <= c.wr then c.size else c.rd
    ensures Grew(c, c.(wr := c.wr + n), mem, c.wr, n)
  {
    if c.rd <= c.wr {
      assert mem[c.rd..c.wr + n] == mem[c.rd..c.wr] + mem[c.wr..c.wr + n];
    } else {
      assert mem[..c.wr + n] == mem[..c.wr] + mem[c.wr..c.wr + n];
    }
  }

  lemma GrowToEnd(c: Control, mem: seq<byte>, n: nat)
    requires c.Ok() && |mem| == c.size
    requires 0 < c.rd <= c.wr && c.wr + n == c.size
    ensures Grew(c, c.(wr := 0), mem, c.wr, n)
  {
    assert mem[c.rd..c.size] + mem[..0] == mem[c.rd..c.wr] + mem[c.wr..c.size];
  }

  lemma GrowFromStart(c: Control, mem: seq<byte>, n: nat)
    requires c.Ok() && |mem| == c.size
    requires n < c.rd <= c.wr
    ensures Grew(c, if c.rd == c.wr then c.(rd := 0, wr := n) else c.(curSize := c.wr, wr := n), mem, 0, n)
  {
  }

  /** From c to c' the queue lost exactly its n oldest bytes, which are the n bytes from c.rd on. */
  ghost predicate Shrank(c: Control, c': Control, mem: seq<byte>, n: nat)
    requires c.Ok() && |mem| == c.size
  {
    && c'.size == c.size && c'.Ok() && c.rd + n <= c.size && n <= c.Len()
    && mem[c.rd..c.rd + n] == c.Live(mem)[..n]
    && c'.Live(mem) == c.Live(mem)[n..]
  }

  lemma ShrankIs(c: Control, c': Control, mem: seq<byte>, n: nat)
    requires c.Ok() && |mem| == c.size && Shrank(c, c', mem, n)
    ensures c'.size == c.size && c'.Ok() && c.rd + n <= c.size
    ensures mem[c.rd..c.rd + n] + c'.Live(mem) == c.Live(mem)
  {
  }

  lemma ShrinkInPlace(c: Control, mem: seq<byte>, n: nat)
    requires c.Ok() && |mem| == c.size
    requires if c.rd <= c.wr then c.rd + n <= c.wr else c.rd + n < c.curSize
    ensures Shrank(c, c.(rd := c.rd + n), mem, n)
  {
    var c' := c.(rd := c.rd + n);
    assert c'.Ok() && n <= c.Len();
    var first, rest := mem[c.rd..c.rd + n], c'.Live(mem);
    assert c.Live(mem) == first + rest by {
      if c.rd <= c.wr {
        assert mem[c.rd..c.wr] == first + mem[c'.rd..c.wr];
      } else {
        assert mem[c.rd..c.curSize] + mem[..c.wr] == first + (mem[c'.rd..c.curSize] + mem[..c.wr]);
      }
    }
    hide Control.Live;
    SplitOff(c.Live(mem), first, rest);
  }

  lemma SplitOff(whole: seq<byte>, first: seq<byte>, rest: seq<byte>)
    requires whole == first + rest
    ensures whole[..|first|] == first && whole[|first|..] == rest
  {
  }

  lemma ShrinkToEnd(c: Control, mem: seq<byte>)
    requires c.Ok() && |mem| == c.size && c.rd > c.wr
    ensures Shrank(c, c.(curSize := c.size, rd := 0), mem, c.curSize - c.rd)
  {
  }

  /** Writing into the newest n bytes leaves the older ones alone. */
  lemma TailIsPrivate(c: Control, mem: seq<byte>, mem': seq<byte>, off: nat, n: nat)
    requires c.Ok() && |mem| == |mem'| == c.size && c.IsTail(off, n)
    requires mem'[..off] == mem[..off] && mem'[off + n..] == mem[off + n..]
    ensures n <= c.Len()
    ensures c.Live(mem')[..c.Len() - n] == c.Live(mem)[..c.Len() - n]
    ensures c.Live(mem')[c.Len() - n..] == mem'[off..off + n]
  {
    assert forall i :: 0 <= i < off ==> mem'[i] == mem'[..off][i] == mem[..off][i] == mem[i];
    assert forall i :: off + n <= i < |mem| ==>
        mem'[i] == mem'[off + n..][i - off - n] == mem[off + n..][i - off - n] == mem[i];
    var l, l' := c.Live(mem), c.Live(mem');
    assert forall i :: 0 <= i < c.Len() - n ==> l'[i] == l[i];
  }

  lemma PatchSlice(mem: seq<byte>, off: nat, n: nat, at: nat, src: seq<byte>)
    requires at + |src| <= n && off + n <= |mem|
    ensures Patch(mem, off + at, src)[off..off + n] == Patch(mem[off..off + n], at, src)
    ensures Patch(mem, off + at, src)[..off] == mem[..off]
    ensures Patch(mem, off + at, src)[off + n..] == mem[off + n..]
  {
  }

  class RingBuffer {
    const data: array<byte>
    const size: u32
    var curSize: u32
    var rd: u32
    var wr: u32

    /** The byte queue the buffer stands for. */
    ghost var queue: seq<byte>

    ghost function Ctl(): Control
      reads this
    {
      Control(size, curSize, rd, wr)
    }

    ghost predicate Valid()
      reads this, data
    {
      data.Length == size && Ctl().Ok() && queue == Ctl().Live(data[..])
    }

    /** `rb->wr + size` does not wrap around 32 bits where the code computes it. */
    ghost predicate ProduceFits32(n: u32)
      reads this
    {
      rd <= wr ==> wr + n < U32
    }

    ghost predicate ConsumeFits32(n: u32)
      reads this
    {
      rd + n < U32
    }

    constructor (buf: array<byte>)
      requires buf.Length < U32
      ensures Valid() && data == buf && size == buf.Length
      ensures queue == [] && curSize == size
    {
      data, size, curSize, rd, wr := buf, buf.Length, buf.Length, 0, 0;
      queue := [];
    }

    /** The queue is q and then the n bytes from p on, which nobody else uses. */
    ghost predicate Appended(q: seq<byte>, p: nat, n: nat)
      reads this, data
    {
      && p + n <= size == data.Length
      && (n > 0 ==> Ctl().IsTail(p, n))
      && queue == q + data[p..p + n]
    }

    /** The queue q was the n bytes from p on and then today's queue. */
    ghost predicate Removed(q: seq<byte>, p: nat, n: nat)
      reads this, data
    {
      p + n <= size == data.Length && data[p..p + n] + queue == q
    }

    /** The free space behind the write pointer is too short: wrap, shrinking the ring if need be. */
    method WrapWriter(n: u32) returns (ptr: Option<nat>)
      requires Valid() && rd <= wr && size <= wr + n < U32
      modifies this
      ensures Valid() && (ptr.Some? <==> size > 0 && n <= old(Ctl()).LargestRoom())
      ensures ptr.Some? ==> Appended(old(queue), ptr.value, n)
      ensures ptr.None? ==> Ctl() == old(Ctl()) && queue == old(queue)
      ensures n <= old(WriteSize()) ==> curSize == size
    {
      ghost var c, mem := Ctl(), data[..];
      if rd == 0 {
        return None;
      }
      if wr + n == size {
        GrowToEnd(c, mem, n);
        ptr := Some(wr);
        wr := 0;
        assert Ctl() == c.(wr := 0);
      } else {
        if n > rd - 1 {
          return None;
        }
        GrowFromStart(c, mem, n);
        curSize := wr;
        wr := 0;
        ptr := Some(0);
        if rd == curSize {
          rd := 0;
          if curSize < size {
            curSize := size;
          }
        }
        wr := wr + n;
        assert Ctl() == if c.rd == c.wr then c.(rd := 0, wr := n) else c.(curSize := c.wr, wr := n);
      }
      queue := Ctl().Live(mem);
    }

    /**
     A request whose end wraps around 32 bits is granted although it cannot fit. Any other request
     is granted exactly when a contiguous region is free, and then appends that region to the queue.
     */
    method Produce(n: u32) returns (ptr: Option<nat>)
      requires Valid()
      modifies this
      ensures old(ProduceFits32(n)) ==> Valid() && (ptr.Some? <==> size > 0 && n <= old(Ctl()).LargestRoom())
      ensures old(ProduceFits32(n)) && ptr.Some? ==> Appended(old(queue), ptr.value, n)
      ensures !old(ProduceFits32(n)) ==> ptr == Some(old(wr)) && ptr.value + n > size
      ensures ptr.None? ==> Ctl() == old(Ctl()) && queue == old(queue)
      ensures old(ProduceFits32(n)) && n <= old(WriteSize()) && old(curSize) == size ==> curSize == size
    {
      if rd <= wr {
        if Add32(wr, n) >= size {
          ptr := WrapWriter(n);
          return;
        }
      } else {
        if n > rd - wr - 1 {
          return None;
        }
      }
      ghost var c, mem := Ctl(), data[..];
      ptr := Some(wr);
      wr := Add32(wr, n);
      if c.rd > c.wr || c.wr + n < U32 {
        GrowInPlace(c, mem, n);
        assert Ctl() == c.(wr := c.wr + n);
        queue := Ctl().Live(mem);
      }
    }

    /**
     A request past the end of 32 bits is granted and moves the read pointer backwards. Any other
     request is granted exactly when ReadSize covers it, and then removes the oldest n bytes.
     */
    method Consume(n: u32) returns (ptr: Option<nat>)
      requires Valid()
      modifies this
      ensures old(ConsumeFits32(n)) ==> Valid() && (ptr.Some? <==> n <= old(ReadSize()))
      ensures old(ConsumeFits32(n)) && ptr.Some? ==> Removed(old(queue), ptr.value, n)
      ensures !old(ConsumeFits32(n)) ==> ptr == Some(old(rd)) && ptr.value + n > size && rd < old(rd)
      ensures ptr.None? ==> Ctl() == old(Ctl()) && queue == old(queue)
      ensures old(curSize) == size ==> curSize == size
    {
      hide Control.Live, Shrank;
      ghost var c, mem := Ctl(), data[..];
      if rd > wr {
        ptr := ConsumeWrapped(n);
        return;
      }
      if Add32(rd, n) > wr {
        return None;
      }
      ptr := Some(rd);
      rd := Add32(rd, n);
      if c.rd + n < U32 {
        ShrinkInPlace(c, mem, n);
        assert Ctl() == c.(rd := c.rd + n);
        ShrankIs(c, Ctl(), mem, n);
        queue := Ctl().Live(mem);
      }
    }

    /** With the writer behind the reader: the oldest bytes go up to the current size. */
    method ConsumeWrapped(n: u32) returns (ptr: Option<nat>)
      requires Valid() && rd > wr
      modifies this
      ensures old(ConsumeFits32(n)) ==> Valid() && (ptr.Some? <==> n <= old(ReadSize()))
      ensures old(ConsumeFits32(n)) && ptr.Some? ==> Removed(old(queue), ptr.value, n)
      ensures !old(ConsumeFits32(n)) ==> ptr == Some(old(rd)) && ptr.value + n > size && rd < old(rd)
      ensures ptr.None? ==> Ctl() == old(Ctl()) && queue == old(queue)
      ensures old(curSize) == size ==> curSize == size
    {
      hide Control.Live, Shrank;
      ghost var c, mem := Ctl(), data[..];
      if Add32(rd, n) > curSize {
        return None;
      }
      ptr := Some(rd);
      if Add32(rd, n) == curSize {
        ShrinkToEnd(c, mem);
        if curSize < size {
          curSize := size;
        }
        rd := 0;
        assert Ctl() == c.(curSize := c.size, rd := 0);
      } else {
        if rd + n < U32 {
          ShrinkInPlace(c, mem, n);
        }
        rd := Add32(rd, n);
        assert c.rd + n < U32 ==> Ctl() == c.(rd := c.rd + n);
      }
      if c.rd + n < U32 {
        ShrankIs(c, Ctl(), mem, n);
        queue := Ctl().Live(mem);
      }
    }

    /** What one Consume call can take. It is 0 exactly for an empty queue. */
    function ReadSize(): (n: u32)
      reads this, data
      requires Valid()
      ensures n == 0 <==> queue == []
      ensures n <= |queue| && rd + n <= size
    {
      if rd <= wr then wr - rd else curSize - rd
    }

    /**
     What the code offers to one Produce call: every such request is granted, and 0 is offered
     exactly when not even one byte can be produced.
     */
    function WriteSize(): (n: u32)
      reads this, data
      requires Valid()
      ensures n <= Ctl().LargestRoom() && wr + n <= size
      ensures n == 0 <==> Ctl().LargestRoom() == 0
      ensures curSize == size ==> |queue| + n <= Max(size - 1, 0)
      ensures curSize == size && n == 0 ==> |queue| == Max(size - 1, 0)
    {
      if rd <= wr then
        var n := size - wr;
        if n != 0 && rd == 0 then n - 1 else n
      else
        rd - wr - 1
    }

    /** The owner of the newest region, n bytes behind the `older` ones, writes into it. */
    method Fill(ghost older: seq<byte>, off: nat, at: nat, n: nat, src: seq<byte>)
      requires Valid() && Ctl().IsTail(off, n) && at + |src| <= n && off + n <= size
      requires queue == older + data[off..off + n]
      modifies this`queue, data
      ensures Valid()
      ensures data[off..off + n] == Patch(old(data[off..off + n]), at, src)
      ensures queue == older + data[off..off + n]
    {
      hide Control.Live, Patch;
      ghost var c, mem := Ctl(), data[..];
      assert data[off..off + n] == mem[off..off + n];
      MemCpy(data, off + at, src);
      ghost var mem' := data[..];
      PatchSlice(mem, off, n, at, src);
      TailIsPrivate(c, mem, mem', off, n);
      queue := c.Live(mem');
      assert data[off..off + n] == mem'[off..off + n];
      assert c.Live(mem)[..c.Len() - n] == older;
      assert queue == queue[..c.Len() - n] + queue[c.Len() - n..];
    }

    /** A request that cannot wrap around 32 bits, because the ring is small. */
    method Reserve(n: u32) returns (ptr: Option<nat>)
      requires Valid() && size < 0x8000_0000 && 0 < n < 0x1_0000
      modifies this
      ensures Valid()
      ensures ptr.None? ==> queue == old(queue) && n > Ctl().LargestRoom()
      ensures ptr.Some? ==> n <= old(Ctl()).LargestRoom() && Appended(old(queue), ptr.value, n)
    {
      hide Control.Live, Control.IsTail;
      ptr := Produce(n);
    }

    /** esp_apptrace_rb_produce followed by memcpy into the region it returned. */
    method Store(src: seq<byte>)
      requires Valid() && 0 < |src| <= WriteSize() && wr + |src| < U32
      modifies this, data
      ensures Valid()
      ensures queue == old(queue) + src
      ensures old(curSize) == size ==> curSize == size
    {
      hide Control.Live, Patch;
      ghost var q := queue;
      var ptr := Produce(|src|);
      Fill(q, ptr.value, 0, |src|, src);
    }

    /** esp_apptrace_rb_consume and the copy of the region it returned. */
    method Fetch(n: u32) returns (bytes: seq<byte>)
      requires Valid() && n <= ReadSize()
      modifies this
      ensures Valid()
      ensures bytes + queue == old(queue) && |bytes| == n
      ensures old(curSize) == size ==> curSize == size
    {
      var ptr := Consume(n);
      bytes := data[ptr.value..ptr.value + n];
    }
  }
}
