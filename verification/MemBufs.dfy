/**
 The two-block trace transport of components/app_trace/app_trace_membufs_proto.c.

 The device fills one block while the host reads the other. Packets that do not fit go to a pending
 ring, which is pumped into the fresh block at every swap. The hardware and the host are an
 environment: each attempt to swap blocks consumes one reply.
 */
module MemBufs {
  import opened Common
  import opened RingBuffers

  /**
   The answer to one attempt to swap: refused, or granted. A granted swap may come with data that
   the host has placed in the new block, behind a two-byte length.
   */
  datatype SwapReply = Busy | Granted(host: Option<seq<byte>>)

  /** Where a packet was allocated. */
  datatype Place = InBlock(off: nat) | Pended(off: nat)

  /**
   One round of polling for host data while the down buffer is empty: the host has data, and a swap is forced; or it
   has none, and the time is checked.
   */
  datatype Poll = HostPending(replies: seq<SwapReply>) | NoHostData(expired: bool)

  /** What a call that polls has come to: it returned data or nothing, or it is still waiting. */
  datatype Got = Data(bytes: seq<byte>) | TimedOut | Waiting

  /** sizeof(esp_tracedata_hdr_t) */
  const HDR: nat := 4

  /** The header esp_apptrace_membufs_pkt_start writes: block size with core bit, then written size 0. */
  function OpenHeader(core: nat, size: nat): (h: seq<byte>)
    requires core < 2 && size < 0x8000
    ensures |h| == HDR
  {
    Le16(core * 0x8000 + size) + Le16(0)
  }

  /** The header after esp_apptrace_membufs_pkt_end: both sizes are equal, so the host sees a complete packet. */
  function ClosedHeader(core: nat, size: nat): (h: seq<byte>)
    requires core < 2 && size < 0x8000
    ensures |h| == HDR
  {
    Le16(core * 0x8000 + size) + Le16(core * 0x8000 + size)
  }

  /**
   esp_apptrace_membufs_down_buffer_write_nolock on the down ring: stores the longest prefix of the
   host data that fits. Neither `assert` of the source fires, as every request is within WriteSize.
   */
  method DownWrite(ring: RingBuffer, src: seq<byte>) returns (total: nat)
    requires ring.Valid() && ring.curSize == ring.size < 0x8000_0000 && |src| < 0x8000_0000
    modifies ring, ring.data
    ensures ring.Valid() && ring.curSize == ring.size
    ensures total == Min(|src|, Max(ring.size - 1, 0) - |old(ring.queue)|)
    ensures ring.queue == old(ring.queue) + src[..total]
  {
    hide Control.Live;
    total := 0;
    while total < |src|
      invariant ring.Valid() && ring.curSize == ring.size
      invariant total <= |src|
      invariant ring.queue == old(ring.queue) + src[..total]
      invariant |ring.queue| == |old(ring.queue)| + total
    {
      var n := ring.WriteSize();
      if n == 0 {
        break;
      }
      if n > |src| - total {
        n := |src| - total;
      }
      ring.Store(src[total..total + n]);
      assert src[..total + n] == src[..total] + src[total..total + n];
      total := total + n;
    }
  }

  /** Copies the oldest n bytes of the ring to the block, behind the first `marker` bytes of it. */
  method PumpBytes(ring: RingBuffer, block: array<byte>, marker: nat, n: nat)
    requires ring.Valid() && n <= ring.ReadSize() && marker + n <= block.Length && block != ring.data
    modifies ring, block
    ensures ring.Valid()
    ensures block[..marker + n] + ring.queue == old(block[..marker] + ring.queue)
  {
    hide Control.Live;
    ghost var mem, before, queue := block[..], block[..marker], ring.queue;
    var bytes := ring.Fetch(n);
    assert block[..] == mem;
    MemCpy(block, marker, bytes);
    PatchPrefix(mem, marker, bytes);
    assert block[..marker + n] == block[..][..marker + n] == before + bytes;
    assert before + bytes + ring.queue == before + queue;
  }

  /** The pump loop of esp_apptrace_membufs_swap: moves pending bytes into an empty block, in order. */
  method Pump(ring: RingBuffer, block: array<byte>) returns (marker: nat)
    requires ring.Valid() && block != ring.data
    modifies ring, block
    ensures ring.Valid()
    ensures marker == Min(block.Length, |old(ring.queue)|)
    ensures block[..marker] == old(ring.queue)[..marker] && ring.queue == old(ring.queue)[marker..]
  {
    hide Control.Live;
    marker := 0;
    ghost var q := ring.queue;
    while marker < block.Length
      invariant ring.Valid()
      invariant marker <= block.Length
      invariant block[..marker] + ring.queue == q
      decreases block.Length - marker
    {
      var n := ring.ReadSize();
      if n == 0 {
        break;
      }
      if n > block.Length - marker {
        n := block.Length - marker;
      }
      PumpBytes(ring, block, marker, n);
      marker := marker + n;
    }
    assert |q| == marker + |ring.queue|;
  }

  /** The part of the host data for which there is room. */
  function Fitting(data: seq<byte>, room: int): (s: seq<byte>)
    ensures s <= data && |s| == Max(0, Min(|data|, room))
  {
    data[..Max(0, Min(|data|, room))]
  }

  /** The host has put its data in the block, behind its length; the device moves it to the down buffer. */
  method ReceiveHostData(block: array<byte>, ring: RingBuffer, host: Option<seq<byte>>)
    requires ring.Valid() && ring.curSize == ring.size < 0x8000_0000 && block != ring.data
    requires block.Length < 0x8000 && (host.Some? ==> 2 + |host.value| <= block.Length)
    modifies block, ring, ring.data
    ensures ring.Valid() && ring.curSize == ring.size
    ensures host.None? ==> ring.queue == old(ring.queue)
    ensures host.Some? ==>
              ring.queue == old(ring.queue) + host.value[..Max(0, Min(|host.value|, ring.size - 1 - |old(ring.queue)|))]
    // Then its length is cleared.
    ensures host.Some? ==> block[0] == block[1] == 0
    ensures host.None? ==> block[..] == old(block[..])
  {
    hide Control.Live;
    if host.Some? {
      var d := host.value;
      MemCpy(block, 0, Le16(|d|) + d);
      assert block[0] == |d| % 256 && block[1] == |d| / 256;
      var blockSz: nat := block[0] as nat + 256 * block[1] as nat;
      assert block[2..2 + blockSz] == d;
      if blockSz > 0 {
        var sz := DownWrite(ring, block[2..2 + blockSz]);
        block[0], block[1] := 0, 0;
      }
    }
  }

  /** A packet whose written size has been set to its block size. */
  function Closed(r: seq<byte>): seq<byte> {
    if |r| < HDR then r else r[..2] + r[..2] + r[HDR..]
  }

  lemma Closing(r: seq<byte>, n: nat)
    requires HDR <= n == |r|
    ensures Patch(r, 2, r[..2]) == Closed(r)
  {
  }

  /** Opening, filling and closing the n bytes of a packet leaves a complete packet. */
  lemma PacketIsComplete(core: nat, data: seq<byte>, blank: seq<byte>, filled: seq<byte>, closed: seq<byte>)
    requires core < 2 && |data| < 0x8000 && |blank| == HDR + |data|
    requires blank[..HDR] == OpenHeader(core, |data|)
    requires filled == Patch(blank, HDR, data)
    requires closed == Closed(filled)
    ensures closed == ClosedHeader(core, |data|) + data
  {
    assert filled[..2] == blank[..HDR][..2] == Le16(core * 0x8000 + |data|);
    assert filled[HDR..] == data;
  }

  /**
   What the transport stands for: which block is being filled, the two block sizes, everything
   swapped out to the host and the part of it that the host can read now, the current block up to
   its marker, the pending packets, and the capacity and contents of the down buffer.
   */
  datatype View = View(cur: nat, sizes: seq<nat>, shipped: seq<byte>, exposed: seq<byte>, block: seq<byte>,
                       pending: seq<byte>, downSize: nat, received: seq<byte>)
  {
    predicate Ok() {
      && cur < 2 && |sizes| == 2
      && (forall b | 0 <= b < 2 :: HDR <= sizes[b] < 0x8000)
      && |block| <= sizes[cur]
      && |exposed| <= |shipped| && shipped[|shipped| - |exposed|..] == exposed
    }

    /** The up-stream: every byte the application was given room for, in order. */
    function Up(): seq<byte> {
      shipped + block + pending
    }

    /** A granted swap: ship the block, which the host can read now, and fill the other one from the pending packets. */
    function Swap(host: Option<seq<byte>>): View
      requires Ok()
    {
      var n := Min(sizes[1 - cur], |pending|);
      View(1 - cur, sizes, shipped + block, block, pending[..n], pending[n..],
           downSize, received + if host.None? then [] else Fitting(host.value, downSize - 1 - |received|))
    }

    /** n bytes can go to the block: nothing is pending, and there is room. */
    predicate Takes(n: nat)
      requires Ok()
    {
      pending == [] && |block| + n <= sizes[cur]
    }

    /** Room for a packet, whose bytes are r for now: in the block if nothing is pending, or behind what is pending. */
    function Alloc(place: Place, r: seq<byte>): View {
      if place.InBlock? then this.(block := block + r) else this.(pending := pending + r)
    }
  }

  /**
     A swap neither loses, duplicates nor reorders bytes, no marker passes the end of its block, and what the host
     can read is what was shipped last.
   */
  lemma SwapKeepsUp(v: View, host: Option<seq<byte>>)
    requires v.Ok()
    ensures v.Swap(host).Ok() && v.Swap(host).Up() == v.Up()
  {
    var n := Min(v.sizes[1 - v.cur], |v.pending|);
    assert v.pending == v.pending[..n] + v.pending[n..];
  }

  /** The fields after a granted swap. */
  lemma SwapFields(v: View, host: Option<seq<byte>>, n: nat)
    requires v.Ok() && n == Min(v.sizes[1 - v.cur], |v.pending|)
    ensures v.Swap(host) == View(1 - v.cur, v.sizes, v.shipped + v.block, v.block, v.pending[..n], v.pending[n..],
                                 v.downSize, v.Swap(host).received)
  {
  }

  /**
     What a granted swap does: the host can read the old block now, pending packets move up until the new block is
     full, and host data goes to the down buffer, one byte of which stays free.
   */
  lemma SwapEffect(v: View, host: Option<seq<byte>>)
    requires v.Ok()
    ensures var w := v.Swap(host);
            && w.cur == 1 - v.cur && w.sizes == v.sizes && w.downSize == v.downSize
            && w.exposed == v.block && w.shipped == v.shipped + v.block
            && w.block + w.pending == v.pending && (w.pending == [] || |w.block| == w.sizes[w.cur])
    ensures host.None? ==> v.Swap(host).received == v.received
    ensures host.Some? ==>
              v.Swap(host).received == v.received + host.value[..Max(0, Min(|host.value|, v.downSize - 1 - |v.received|))]
  {
    var n := Min(v.sizes[1 - v.cur], |v.pending|);
    assert v.pending == v.pending[..n] + v.pending[n..];
  }

  lemma AllocExtendsUp(v: View, place: Place, r: seq<byte>)
    requires place.InBlock? ==> v.pending == []
    ensures v.Alloc(place, r).Up() == v.Up() + r
  {
    if place.InBlock? {
      assert v.shipped + (v.block + r) + [] == v.shipped + v.block + [] + r;
    } else {
      assert v.shipped + v.block + (v.pending + r) == v.shipped + v.block + v.pending + r;
    }
  }

  /** The view after some attempts to swap. */
  function Swaps(v: View, replies: seq<SwapReply>): (w: View)
    requires v.Ok()
    ensures w.Ok() && w.Up() == v.Up() && w.sizes == v.sizes
    ensures (forall i | 0 <= i < |replies| :: replies[i].Busy?) ==> w == v
  {
    if replies == [] then v
    else
      var last := |replies| - 1;
      var w := Swaps(v, replies[..last]);
      if replies[last].Busy? then w
      else
        SwapKeepsUp(w, replies[last].host);
        w.Swap(replies[last].host)
  }

  lemma {:induction false} SwapsJoin(v: View, replies: seq<SwapReply>, more: seq<SwapReply>)
    requires v.Ok()
    ensures Swaps(v, replies + more) == Swaps(Swaps(v, replies), more)
    decreases |more|
  {
    hide View.Swap, View.Up, View.Ok;
    if more == [] {
      assert replies + more == replies;
    } else {
      var last := |more| - 1;
      assert (replies + more)[..|replies| + last] == replies + more[..last];
      SwapsJoin(v, replies, more[..last]);
    }
  }

  /** The attempts from `at` to `mid` and those from `mid` to `end`. */
  lemma SwapsBetween(v: View, replies: seq<SwapReply>, at: nat, mid: nat, end: nat)
    requires v.Ok() && at <= mid <= end <= |replies|
    ensures Swaps(v, replies[at..end]) == Swaps(Swaps(v, replies[at..mid]), replies[mid..end])
  {
    assert replies[at..end] == replies[at..mid] + replies[mid..end];
    SwapsJoin(v, replies[at..mid], replies[mid..end]);
  }

  /** Refused attempts and then, if `ok`, a granted one. */
  lemma SwapsFirst(v: View, replies: seq<SwapReply>, at: nat, next: nat, ok: bool)
    requires v.Ok() && at <= next <= |replies| && (ok ==> at < next && replies[next - 1].Granted?)
    requires forall i | at <= i < next - (if ok then 1 else 0) :: replies[i].Busy?
    ensures Swaps(v, replies[at..next]) == if ok then v.Swap(replies[next - 1].host) else v
  {
    hide View.Swap, View.Up, View.Ok;
    var used, end := replies[at..next], next - if ok then 1 else 0;
    forall i | 0 <= i < end - at ensures used[i].Busy? {
      assert used[i] == replies[at + i];
    }
    if ok {
      assert used[next - 1 - at] == replies[next - 1];
      assert Swaps(v, used[..next - 1 - at]) == v;
    }
  }

  /** One granted swap. */
  ghost predicate SwappedOnce(start: View, v: View) {
    start.Ok() && exists host :: v == start.Swap(host)
  }

  /**
     Between two iterations of a flush: nothing has been swapped, or the block is full or nothing is pending; and one
     swap is enough if a whole block is allowed to stay.
   */
  ghost predicate Flushing(start: View, v: View, minSz: nat) {
    && start.Ok() && v.Ok() && v.sizes == start.sizes
    && (v != start ==>
        && |start.block| > minSz && (|v.block| == v.sizes[v.cur] || v.pending == [])
        && (minSz >= Min(v.sizes[0], v.sizes[1]) ==> |v.block| <= minSz && SwappedOnce(start, v)))
  }

  lemma FlushStart(v: View, minSz: nat)
    requires v.Ok()
    ensures Flushing(v, v, minSz)
  {
  }

  /** A granted swap takes from the pending queue, or else empties the block. */
  lemma FlushStep(start: View, v: View, minSz: nat, host: Option<seq<byte>>)
    requires Flushing(start, v, minSz) && v.Ok() && |v.block| > minSz
    ensures var w := v.Swap(host);
            && Flushing(start, w, minSz)
            && (|w.pending| < |v.pending| || (|w.pending| == |v.pending| && |w.block| < |v.block|))
  {
    SwapKeepsUp(v, host);
    hide View.Up;
    var w, n := v.Swap(host), Min(v.sizes[1 - v.cur], |v.pending|);
    assert |w.block| == n && |w.pending| == |v.pending| - n;
    assert n < |v.pending| ==> |w.block| == w.sizes[w.cur];
    assert n == |v.pending| ==> w.pending == [];
    assert n == 0 ==> |w.block| < |v.block|;
    if minSz >= Min(v.sizes[0], v.sizes[1]) {
      assert v == start;
      assert SwappedOnce(start, w);
    }
  }

  lemma FlushEnd(start: View, v: View, minSz: nat)
    requires Flushing(start, v, minSz)
    ensures |start.block| <= minSz ==> v == start
    ensures |v.block| <= minSz < |start.block| && minSz < Min(v.sizes[0], v.sizes[1]) ==> v.pending == []
    ensures |v.block| <= minSz < |start.block| && minSz >= Min(v.sizes[0], v.sizes[1]) ==>
              SwappedOnce(start, v) && (v.pending == [] <==> |start.pending| <= start.sizes[1 - start.cur])
  {
  }

  /**
     What can happen to the view: a granted swap, a complete packet sent into the block or the queue, or n bytes taken
     from the down buffer.
   */
  datatype Event = Swapped(host: Option<seq<byte>>) | Sent(place: Place, packet: seq<byte>) | Took(n: nat)

  predicate Possible(v: View, e: Event) {
    && v.Ok()
    && (e.Sent? && e.place.InBlock? ==> v.Takes(|e.packet|))
    && (e.Took? ==> e.n <= |v.received|)
  }

  function After(v: View, e: Event): View
    requires Possible(v, e)
  {
    match e
    case Swapped(host) => v.Swap(host)
    case Sent(place, packet) => v.Alloc(place, packet)
    case Took(n) => v.(received := v.received[n..])
  }

  predicate IsRun(v: View, run: seq<Event>)
    decreases run
  {
    v.Ok() && (run == [] || (Possible(v, run[0]) && IsRun(After(v, run[0]), run[1..])))
  }

  function AfterRun(v: View, run: seq<Event>): View
    requires IsRun(v, run)
    decreases run
  {
    if run == [] then v else AfterRun(After(v, run[0]), run[1..])
  }

  /** What an exchange with the host consists of: packets sent, bytes read, and what the granted swaps brought. */
  datatype Traffic = Traffic(sent: seq<byte>, got: seq<byte>, hosts: seq<Option<seq<byte>>>)
  {
    function Then(more: Traffic): Traffic {
      Traffic(sent + more.sent, got + more.got, hosts + more.hosts)
    }
  }

  /** Nothing is sent and nothing read. */
  function Quiet(hosts: seq<Option<seq<byte>>>): Traffic {
    Traffic([], [], hosts)
  }

  function TrafficBy(v: View, e: Event): Traffic
    requires Possible(v, e)
  {
    match e
    case Swapped(host) => Quiet([host])
    case Sent(_, packet) => Traffic(packet, [], [])
    case Took(n) => Traffic([], v.received[..n], [])
  }

  /** Everything sent, read and brought in a run, in order. */
  function TrafficOf(v: View, run: seq<Event>): Traffic
    requires IsRun(v, run)
    decreases run
  {
    if run == [] then Quiet([]) else TrafficBy(v, run[0]).Then(TrafficOf(After(v, run[0]), run[1..]))
  }

  /** The host data that an event brings and for which there is room. */
  function KeptBy(v: View, e: Event): seq<byte> {
    if e.Swapped? && e.host.Some? then Fitting(e.host.value, v.downSize - 1 - |v.received|) else []
  }

  /** The host data of the granted swaps for which there was room, in order. */
  function Kept(v: View, run: seq<Event>): seq<byte>
    requires IsRun(v, run)
    decreases run
  {
    if run == [] then [] else KeptBy(v, run[0]) + Kept(After(v, run[0]), run[1..])
  }

  lemma StepConservesDown(v: View, e: Event)
    requires Possible(v, e)
    ensures TrafficBy(v, e).got + After(v, e).received == v.received + KeptBy(v, e)
  {
    if e.Swapped? {
      SwapEffect(v, e.host);
    }
  }

  lemma Splice<T>(a: seq<T>, b: seq<T>, c: seq<T>, d: seq<T>, e: seq<T>, f: seq<T>, g: seq<T>)
    requires a + b == c + d && e + f == b + g
    ensures (a + e) + f == c + (d + g)
  {
    assert a + e + f == a + (e + f) && a + (b + g) == a + b + g && c + d + g == c + (d + g);
  }

  /** What was read, and then what is left in the down buffer, is what was there and what the swaps brought, in order. */
  lemma {:induction false} RunConservesDown(v: View, run: seq<Event>)
    requires IsRun(v, run)
    ensures TrafficOf(v, run).got + AfterRun(v, run).received == v.received + Kept(v, run)
    decreases run
  {
    hide View.Ok, Possible, After, TrafficBy, KeptBy;
    if run != [] {
      var e, w := run[0], After(v, run[0]);
      RunConservesDown(w, run[1..]);
      StepConservesDown(v, e);
      Splice(TrafficBy(v, e).got, w.received, v.received, KeptBy(v, e),
             TrafficOf(w, run[1..]).got, AfterRun(w, run[1..]).received, Kept(w, run[1..]));
    }
  }

  lemma StepConservesUp(v: View, e: Event)
    requires Possible(v, e)
    ensures var w := After(v, e);
            w.Ok() && w.Up() == v.Up() + TrafficBy(v, e).sent && v.shipped <= w.shipped <= w.Up()
  {
    match e {
      case Swapped(host) =>
        SwapEffect(v, host);
        SwapKeepsUp(v, host);
      case Sent(place, packet) =>
        AllocExtendsUp(v, place, packet);
      case Took(n) =>
    }
  }

  /**
     Over any run from an empty transport, the bytes the host has been shown, then the block, then the
     pending queue are all the packets sent, in order; so the host has seen a prefix of them.
   */
  lemma {:induction false} RunConservesUp(v: View, run: seq<Event>)
    requires IsRun(v, run)
    ensures var w := AfterRun(v, run);
            w.Ok() && w.Up() == v.Up() + TrafficOf(v, run).sent && v.shipped <= w.shipped <= v.Up() + TrafficOf(v, run).sent
    decreases run
  {
    hide View.Ok, After, TrafficBy, Possible;
    if run == [] {
      assert v.Up() + [] == v.Up();
      assert v.shipped <= v.shipped + v.block + v.pending;
    } else {
      var e, w := run[0], After(v, run[0]);
      StepConservesUp(v, e);
      RunConservesUp(w, run[1..]);
      var a, b := TrafficBy(v, e).sent, TrafficOf(w, run[1..]).sent;
      assert v.Up() + (a + b) == v.Up() + a + b;
    }
  }

  /** Some run with this traffic leads from v to w. */
  ghost predicate Leads(v: View, w: View, t: Traffic) {
    exists run :: IsRun(v, run) && AfterRun(v, run) == w && TrafficOf(v, run) == t
  }

  /**
     What a call that leads from v to w keeps: the host only sees more, and it sees a prefix of what was sent; what
     was read are the oldest bytes of those that the host has sent and that found room.
   */
  lemma LeadsConserves(v: View, w: View, t: Traffic) returns (run: seq<Event>)
    requires Leads(v, w, t)
    ensures w.Ok() && w.Up() == v.Up() + t.sent && v.shipped <= w.shipped <= v.Up() + t.sent
    ensures IsRun(v, run) && AfterRun(v, run) == w && TrafficOf(v, run) == t
    ensures t.got + w.received == v.received + Kept(v, run)
  {
    run :| IsRun(v, run) && AfterRun(v, run) == w && TrafficOf(v, run) == t;
    RunConservesUp(v, run);
    RunConservesDown(v, run);
  }

  lemma {:induction false} RunJoin(v: View, run: seq<Event>, more: seq<Event>)
    requires IsRun(v, run) && IsRun(AfterRun(v, run), more)
    ensures IsRun(v, run + more) && AfterRun(v, run + more) == AfterRun(AfterRun(v, run), more)
    ensures TrafficOf(v, run + more) == TrafficOf(v, run).Then(TrafficOf(AfterRun(v, run), more))
    decreases run
  {
    hide Possible, After, View.Ok, TrafficBy, Traffic.Then;
    if run == [] {
      assert run + more == more;
      QuietThen(TrafficOf(v, more));
    } else {
      assert (run + more)[1..] == run[1..] + more;
      var w := After(v, run[0]);
      RunJoin(w, run[1..], more);
      ThenIsAssociative(TrafficBy(v, run[0]), TrafficOf(w, run[1..]), TrafficOf(AfterRun(w, run[1..]), more));
    }
  }

  lemma QuietThen(a: Traffic)
    ensures Quiet([]).Then(a) == a && a.Then(Quiet([])) == a
  {
  }

  lemma ThenIsAssociative(a: Traffic, b: Traffic, c: Traffic)
    ensures a.Then(b).Then(c) == a.Then(b.Then(c))
  {
  }

  lemma LeadsJoin(u: View, v: View, w: View, a: Traffic, b: Traffic)
    requires Leads(u, v, a) && Leads(v, w, b)
    ensures Leads(u, w, a.Then(b))
  {
    hide IsRun, AfterRun, TrafficOf, Traffic.Then;
    var run :| IsRun(u, run) && AfterRun(u, run) == v && TrafficOf(u, run) == a;
    var more :| IsRun(v, more) && AfterRun(v, more) == w && TrafficOf(v, more) == b;
    RunJoin(u, run, more);
  }

  lemma LeadsSelf(v: View)
    requires v.Ok()
    ensures Leads(v, v, Quiet([]))
  {
    assert IsRun(v, []) && AfterRun(v, []) == v && TrafficOf(v, []) == Quiet([]);
  }

  lemma LeadsBy(v: View, e: Event)
    requires v.Ok() && Possible(v, e) && After(v, e).Ok()
    ensures Leads(v, After(v, e), TrafficBy(v, e))
  {
    hide View.Ok, View.Swap, View.Alloc, After, TrafficBy, Traffic.Then;
    var run := [e];
    var rest := run[1..];
    assert rest == [] && IsRun(After(v, e), rest) && AfterRun(After(v, e), rest) == After(v, e);
    QuietThen(TrafficBy(v, e));
    assert IsRun(v, run) && AfterRun(v, run) == After(v, e) && TrafficOf(v, run) == TrafficBy(v, e);
  }

  /** What the granted ones of these attempts bring. */
  function GrantedIn(replies: seq<SwapReply>): seq<Option<seq<byte>>> {
    if replies == [] then []
    else
      var last := |replies| - 1;
      GrantedIn(replies[..last]) + if replies[last].Granted? then [replies[last].host] else []
  }

  lemma QuietJoin(a: seq<Option<seq<byte>>>, b: seq<Option<seq<byte>>>)
    ensures Quiet(a).Then(Quiet(b)) == Quiet(a + b)
  {
  }

  lemma {:induction false} SwapsLead(v: View, replies: seq<SwapReply>)
    requires v.Ok()
    ensures Leads(v, Swaps(v, replies), Quiet(GrantedIn(replies)))
    decreases |replies|
  {
    hide View.Swap, View.Ok, Leads, Quiet, Traffic.Then;
    LeadsSelf(v);
    if replies != [] {
      var last := |replies| - 1;
      SwapsLead(v, replies[..last]);
      assert GrantedIn(replies[..last]) + [] == GrantedIn(replies[..last]);
      if replies[last].Granted? {
        var w, host := Swaps(v, replies[..last]), replies[last].host;
        SwapKeepsUp(w, host);
        LeadsBy(w, Swapped(host));
        QuietJoin(GrantedIn(replies[..last]), [host]);
        LeadsJoin(v, w, Swaps(v, replies), Quiet(GrantedIn(replies[..last])), Quiet([host]));
      }
    }
  }

  /** Swaps and then a packet. */
  lemma SwapsThenSent(v: View, replies: seq<SwapReply>, place: Place, packet: seq<byte>)
    requires v.Ok() && (place.InBlock? ==> Swaps(v, replies).Takes(|packet|))
    ensures Leads(v, Swaps(v, replies).Alloc(place, packet), Traffic(packet, [], GrantedIn(replies)))
  {
    var w := Swaps(v, replies);
    SwapsLead(v, replies);
    LeadsBy(w, Sent(place, packet));
    assert Quiet(GrantedIn(replies)).Then(Traffic(packet, [], [])) == Traffic(packet, [], GrantedIn(replies));
    hide Leads;
    LeadsJoin(v, w, w.Alloc(place, packet), Quiet(GrantedIn(replies)), Traffic(packet, [], []));
  }

  /** What the first granted one of these attempts brings, if there is one. */
  function FirstGranted(replies: seq<SwapReply>): (first: seq<Option<seq<byte>>>)
    ensures |first| <= 1
  {
    if replies == [] then []
    else if replies[0].Granted? then [replies[0].host]
    else FirstGranted(replies[1..])
  }

  lemma {:induction false} FirstGrantedIs(replies: seq<SwapReply>, k: nat)
    requires k <= |replies| && (forall i | 0 <= i < k :: replies[i].Busy?) && (k < |replies| ==> replies[k].Granted?)
    ensures FirstGranted(replies) == if k < |replies| then [replies[k].host] else []
    decreases k
  {
    if k > 0 {
      FirstGrantedIs(replies[1..], k - 1);
    }
  }

  /** Refused attempts bring nothing, and a granted one what comes with it. */
  lemma {:induction false} GrantedLast(replies: seq<SwapReply>, k: nat)
    requires k <= |replies| <= k + 1 && (forall i | 0 <= i < k :: replies[i].Busy?)
    requires k < |replies| ==> replies[k].Granted?
    ensures GrantedIn(replies) == if k < |replies| then [replies[k].host] else []
    decreases |replies|
  {
    if replies != [] {
      var last := |replies| - 1;
      GrantedLast(replies[..last], last);
    }
  }

  /** The bytes of host data that the polls' swaps bring. */
  function PolledHosts(polls: seq<Poll>): seq<Option<seq<byte>>> {
    if polls == [] then []
    else
      var last := |polls| - 1;
      PolledHosts(polls[..last]) + if polls[last].HostPending? then FirstGranted(polls[last].replies) else []
  }

  /**
     The poll ends the wait of an empty down buffer: its first granted swap brings data and there is room for a byte,
     or the host has none and the time is up.
   */
  predicate Decides(poll: Poll, downSize: nat) {
    match poll
    case HostPending(replies) =>
      var first := FirstGranted(replies);
      downSize > 1 && first != [] && first[0].Some? && first[0].value != []
    case NoHostData(expired) => expired
  }

  /** Poll k is the first one to end the wait. */
  ghost predicate DecidesFirst(polls: seq<Poll>, k: nat, downSize: nat) {
    k < |polls| && Decides(polls[k], downSize) && forall i | 0 <= i < k :: !Decides(polls[i], downSize)
  }

  /** Attempt k is the first one granted. */
  ghost predicate GrantsFirst(replies: seq<SwapReply>, k: nat) {
    k < |replies| && replies[k].Granted? && forall i | 0 <= i < k :: replies[i].Busy?
  }

  lemma {:induction false} SomeGrant(replies: seq<SwapReply>) returns (k: nat)
    requires FirstGranted(replies) != []
    ensures GrantsFirst(replies, k)
    decreases |replies|
  {
    k := 0;
    if replies[0].Busy? {
      k := SomeGrant(replies[1..]);
      k := k + 1;
    }
  }

  /** Exactly when a poll ends the wait. */
  lemma DecidesExactly(poll: Poll, downSize: nat)
    ensures poll.NoHostData? ==> (Decides(poll, downSize) <==> poll.expired)
    ensures poll.HostPending? ==>
              (Decides(poll, downSize) <==>
               && downSize > 1
               && exists k: nat, d :: GrantsFirst(poll.replies, k) && poll.replies[k].host == Some(d) && d != [])
  {
    if poll.HostPending? {
      if FirstGranted(poll.replies) != [] {
        var k := SomeGrant(poll.replies);
        FirstGrantedIs(poll.replies, k);
        assert forall j: nat | GrantsFirst(poll.replies, j) :: j == k;
      } else {
        forall k: nat ensures !GrantsFirst(poll.replies, k) {
          if GrantsFirst(poll.replies, k) {
            FirstGrantedIs(poll.replies, k);
          }
        }
      }
    }
  }

  /**
     While the host keeps offering data the time is not checked. If no swap is granted, or the down buffer has no room
     for a byte, the wait has no end, whatever the timeout.
   */
  lemma WaitsForEver(polls: seq<Poll>, downSize: nat)
    requires forall i | 0 <= i < |polls| ::
               polls[i].HostPending? && (downSize <= 1 || forall j | 0 <= j < |polls[i].replies| :: polls[i].replies[j].Busy?)
    ensures forall i | 0 <= i < |polls| :: !Decides(polls[i], downSize)
  {
    forall i | 0 <= i < |polls| ensures !Decides(polls[i], downSize) {
      if downSize > 1 {
        FirstGrantedIs(polls[i].replies, |polls[i].replies|);
      }
    }
  }

  /** What a poll, or the poll that ends the wait, comes to. */
  function BytesOf(r: Got): seq<byte> {
    if r.Data? then r.bytes else []
  }

  /** The poll before `used` is the first one to end the wait, and it brings these bytes: host data that has room. */
  ghost predicate Brought(polls: seq<Poll>, used: nat, downSize: nat, bytes: seq<byte>) {
    && used > 0 && DecidesFirst(polls, used - 1, downSize) && polls[used - 1].HostPending?
    && var d := FirstGranted(polls[used - 1].replies)[0].value;
       bytes == d[..Min(|d|, downSize - 1)]
  }

  /** What holds after i polls of a read that began at `start`, if `arrived` has come in. */
  ghost predicate Polled(polls: seq<Poll>, i: nat, start: View, v: View, arrived: seq<byte>) {
    && i <= |polls| && v.downSize == start.downSize && v.received == start.received + arrived
    && Leads(start, v, Quiet(PolledHosts(polls[..i])))
    && (if i == 0 then arrived == [] else start.received == [])
    && (v.received == [] ==> forall j | 0 <= j < i :: !Decides(polls[j], start.downSize))
    && (v.received != [] && i > 0 ==> Brought(polls, i, start.downSize, arrived))
  }

  lemma PollStart(polls: seq<Poll>, v: View)
    requires v.Ok()
    ensures Polled(polls, 0, v, v, [])
  {
    LeadsSelf(v);
    NoPolls(polls);
  }

  /** The part of the first granted host data that finds room in an empty down buffer. */
  ghost predicate Brings(replies: seq<SwapReply>, downSize: nat, arrived: seq<byte>) {
    var first := FirstGranted(replies);
    if first == [] || first[0].None? then arrived == []
    else arrived == first[0].value[..Max(0, Min(|first[0].value|, downSize - 1))]
  }

  lemma PollSwaps(polls: seq<Poll>, i: nat, start: View, v: View, before: seq<byte>, w: View, arrived: seq<byte>)
    requires Polled(polls, i, start, v, before) && v.received == [] && i < |polls| && polls[i].HostPending?
    requires Leads(v, w, Quiet(FirstGranted(polls[i].replies))) && w.downSize == v.downSize && w.received == arrived
    requires Brings(polls[i].replies, w.downSize, arrived)
    ensures Polled(polls, i + 1, start, w, arrived)
  {
    hide Leads, FirstGranted;
    NextPoll(polls, i);
    QuietJoin(PolledHosts(polls[..i]), FirstGranted(polls[i].replies));
    LeadsJoin(start, v, w, Quiet(PolledHosts(polls[..i])), Quiet(FirstGranted(polls[i].replies)));
  }

  lemma PollPasses(polls: seq<Poll>, i: nat, start: View, v: View, arrived: seq<byte>)
    requires Polled(polls, i, start, v, arrived) && v.received == [] && i < |polls| && polls[i] == NoHostData(false)
    ensures Polled(polls, i + 1, start, v, arrived)
  {
    hide Leads;
    NextPoll(polls, i);
  }

  lemma PolledIs(polls: seq<Poll>, i: nat, start: View, v: View, arrived: seq<byte>)
    requires Polled(polls, i, start, v, arrived)
    ensures i <= |polls| && v.received == start.received + arrived && v.downSize == start.downSize
    ensures Leads(start, v, Quiet(PolledHosts(polls[..i])))
  {
  }

  /** There is something to read. */
  lemma PollData(polls: seq<Poll>, i: nat, start: View, v: View, arrived: seq<byte>)
    requires Polled(polls, i, start, v, arrived) && v.received != []
    ensures start.received != [] ==> arrived == [] && i == 0
    ensures start.received == [] ==> Brought(polls, i, start.downSize, arrived)
    ensures start.received == [] ==> exists k: nat :: k < |polls| && Decides(polls[k], start.downSize)
    ensures start.received == [] ==> forall k: nat :: DecidesFirst(polls, k, start.downSize) ==> polls[k].HostPending?
  {
    hide Leads, FirstGranted, Decides;
  }

  /** No poll ended the wait. */
  lemma PollWaits(polls: seq<Poll>, start: View, v: View, arrived: seq<byte>)
    requires Polled(polls, |polls|, start, v, arrived) && v.received == []
    ensures start.received == [] && arrived == []
    ensures forall k | 0 <= k < |polls| :: !Decides(polls[k], start.downSize)
    ensures forall k: nat :: !DecidesFirst(polls, k, start.downSize)
  {
    hide Leads, Decides;
  }

  lemma PollTimesOut(polls: seq<Poll>, i: nat, start: View, v: View, arrived: seq<byte>)
    requires Polled(polls, i, start, v, arrived) && v.received == [] && i < |polls| && polls[i] == NoHostData(true)
    ensures start.received == [] && arrived == [] && DecidesFirst(polls, i, start.downSize)
    ensures Decides(polls[i], start.downSize) && PolledHosts(polls[..i + 1]) == PolledHosts(polls[..i])
  {
    hide Leads;
    NextPoll(polls, i);
  }

  lemma NoPolls(polls: seq<Poll>)
    ensures PolledHosts(polls[..0]) == []
  {
  }

  lemma NextPoll(polls: seq<Poll>, i: nat)
    requires i < |polls|
    ensures PolledHosts(polls[..i + 1])
         == if polls[i].HostPending? then PolledHosts(polls[..i]) + FirstGranted(polls[i].replies) else PolledHosts(polls[..i])
  {
    assert polls[..i + 1][..i] == polls[..i];
  }

  lemma TakingLeads(start: View, v: View, w: View, n: nat, bytes: seq<byte>, hosts: seq<Option<seq<byte>>>)
    requires Leads(start, v, Quiet(hosts)) && v.Ok() && w.Ok()
    requires |bytes| == n && bytes + w.received == v.received && w == v.(received := w.received)
    ensures Leads(start, w, Traffic([], bytes, hosts))
  {
    hide Leads, View.Ok;
    assert v.received[n..] == w.received && v.received[..n] == bytes;
    LeadsBy(v, Took(n));
    assert Quiet(hosts).Then(Traffic([], bytes, [])) == Traffic([], bytes, hosts);
    LeadsJoin(start, v, w, Quiet(hosts), Traffic([], bytes, []));
  }

  // ---------------------------------------------------------------- what the host reads

  /** A packet, as the host reads it. */
  datatype Packet = Packet(core: nat, data: seq<byte>)

  /** Two bytes of the stream, low byte first. */
  function Word(s: seq<byte>, at: nat): nat
    requires at + 2 <= |s|
  {
    s[at] as nat + 256 * s[at + 1] as nat
  }

  /**
     The packets of the up-stream. The core is the top bit of the size; nothing is read if the two sizes of a packet
     differ, since it is not complete then.
   */
  function ReadPackets(s: seq<byte>): Option<seq<Packet>>
    decreases |s|
  {
    if s == [] then Some([])
    else if |s| < HDR || Word(s, 0) != Word(s, 2) || |s| < HDR + Word(s, 0) % 0x8000 then None
    else
      var n := HDR + Word(s, 0) % 0x8000;
      var more := ReadPackets(s[n..]);
      if more.None? then None else Some([Packet(Word(s, 0) / 0x8000, s[HDR..n])] + more.value)
  }

  lemma HeaderWords(core: nat, size: nat, rest: seq<byte>)
    requires core < 2 && size < 0x8000
    ensures Word(ClosedHeader(core, size) + rest, 0) == Word(ClosedHeader(core, size) + rest, 2) == core * 0x8000 + size
    ensures Word(OpenHeader(core, size) + rest, 0) == core * 0x8000 + size && Word(OpenHeader(core, size) + rest, 2) == 0
  {
  }

  lemma OnePacket(core: nat, data: seq<byte>)
    requires core < 2 && |data| < 0x8000
    ensures ReadPackets(ClosedHeader(core, |data|) + data) == Some([Packet(core, data)])
  {
    hide ReadPackets, Word, ClosedHeader;
    var s, n := ClosedHeader(core, |data|) + data, HDR + |data|;
    HeaderWords(core, |data|, data);
    NothingIsRead();
    assert s[HDR..n] == data && s[n..] == [];
    FirstPacket(s, core, |data|);
    assert [Packet(core, data)] + [] == [Packet(core, data)];
  }

  lemma FirstPacket(s: seq<byte>, core: nat, size: nat)
    requires HDR + size <= |s| && size < 0x8000 && Word(s, 0) == Word(s, 2) == core * 0x8000 + size
    requires ReadPackets(s[HDR + size..]).Some?
    ensures ReadPackets(s) == Some([Packet(core, s[HDR..HDR + size])] + ReadPackets(s[HDR + size..]).value)
  {
    hide Word;
    DivIs(Word(s, 0), 0x8000, core, size);
  }

  lemma NothingIsRead()
    ensures ReadPackets([]) == Some([])
  {
  }

  /** A packet that is open reads as one that is not complete. */
  lemma OpenIsIncomplete(core: nat, size: nat, rest: seq<byte>)
    requires core < 2 && size < 0x8000 && core + size > 0
    ensures ReadPackets(OpenHeader(core, size) + rest) == None
  {
    HeaderWords(core, size, rest);
    hide Word, OpenHeader;
  }

  lemma WordInFront(a: seq<byte>, b: seq<byte>, at: nat)
    requires at + 2 <= |a|
    ensures Word(a + b, at) == Word(a, at)
  {
  }

  lemma FirstIsRead(s: seq<byte>) returns (core: nat, size: nat)
    requires s != [] && ReadPackets(s).Some?
    ensures HDR + size <= |s| && size < 0x8000 && Word(s, 0) == Word(s, 2) == core * 0x8000 + size
    ensures ReadPackets(s[HDR + size..]).Some?
  {
    hide Word;
    core, size := Word(s, 0) / 0x8000, Word(s, 0) % 0x8000;
  }

  lemma {:induction false} PacketsJoin(a: seq<byte>, b: seq<byte>)
    requires ReadPackets(a).Some? && ReadPackets(b).Some?
    ensures ReadPackets(a + b) == Some(ReadPackets(a).value + ReadPackets(b).value)
    decreases |a|
  {
    hide ReadPackets, Word;
    if a == [] {
      NothingIsRead();
      assert a + b == b && [] + ReadPackets(b).value == ReadPackets(b).value;
    } else {
      var core, size := FirstIsRead(a);
      var n := HDR + size;
      WordInFront(a, b, 0);
      WordInFront(a, b, 2);
      assert (a + b)[n..] == a[n..] + b && (a + b)[HDR..n] == a[HDR..n];
      PacketsJoin(a[n..], b);
      FirstPacket(a, core, size);
      FirstPacket(a + b, core, size);
      var p, more := [Packet(core, a[HDR..n])], ReadPackets(a[n..]).value;
      assert p + (more + ReadPackets(b).value) == p + more + ReadPackets(b).value;
    }
  }

  lemma PatchBehind(mem: seq<byte>, older: seq<byte>, off: nat, n: nat, at: nat, src: seq<byte>)
    requires off + n <= |mem| && at + |src| <= n
    requires mem[..off + n] == older + mem[off..off + n]
    ensures var mem' := Patch(mem, off + at, src);
            && mem'[..off + n] == older + mem'[off..off + n]
            && mem'[off..off + n] == Patch(mem[off..off + n], at, src)
  {
    var mem' := Patch(mem, off + at, src);
    PatchSlice(mem, off, n, at, src);
    assert |mem[..off + n]| == |older| + n;
    assert mem[..off + n][..off] == older;
    assert mem'[..off + n] == mem'[..off] + mem'[off..off + n];
  }

  lemma StartIsOk(a: nat, b: nat)
    requires HDR <= a < 0x8000 && HDR <= b < 0x8000
    ensures View(0, [a, b], [], [], [], [], 0, []).Ok()
  {
  }

  class MemBufsProto {
    const block0: array<byte>
    const block1: array<byte>
    const pend: RingBuffer
    var inBlock: u32
    var markers: seq<nat>
    var down: RingBuffer

    ghost var view: View

    ghost predicate Separate()
      reads this
    {
      && block0 != block1
      && pend != down && pend.data != down.data
      && pend.data != block0 && pend.data != block1
      && down.data != block0 && down.data != block1
    }

    ghost predicate Valid()
      reads this, pend, down, pend.data, down.data, block0, block1
    {
      && Separate() && |markers| == 2 && view.Ok()
      && pend.Valid() && pend.size < 0x8000_0000
      && down.Valid() && down.size < 0x8000_0000 && down.curSize == down.size
      && view.cur == Cur() && view.sizes == [block0.Length, block1.Length]
      && markers[Cur()] <= Block(Cur()).Length
      && view.block == Block(Cur())[..markers[Cur()]]
      && markers[1 - Cur()] <= Block(1 - Cur()).Length
      && view.exposed == Block(1 - Cur())[..markers[1 - Cur()]]
      && view.pending == pend.queue
      && view.downSize == down.size && view.received == down.queue
    }

    /** blocks[b] */
    function Block(b: nat): array<byte> {
      if b == 0 then block0 else block1
    }

    function Cur(): (b: nat)
      reads this
      ensures b < 2
    {
      inBlock % 2
    }

    /** The environment's side of the bargain: host data fits in either block behind its length. */
    ghost predicate HostFits(reply: SwapReply)
    {
      reply.Granted? && reply.host.Some? ==>
        2 + |reply.host.value| <= Min(block0.Length, block1.Length)
    }

    constructor (first: array<byte>, second: array<byte>, pendingData: array<byte>, noDown: array<byte>)
      requires first != second && pendingData != first && pendingData != second
      requires noDown != first && noDown != second && noDown != pendingData
      requires HDR <= first.Length < 0x8000 && HDR <= second.Length < 0x8000
      requires pendingData.Length < 0x8000_0000 && noDown.Length == 0
      ensures Valid() && view == View(0, [first.Length, second.Length], [], [], [], [], 0, [])
      ensures block0 == first && block1 == second && pend.data == pendingData && down.data == noDown
      ensures fresh(pend) && fresh(down)
    {
      hide Control.Live, Control.Ok, Control.LargestRoom, Control.IsTail, RingBuffer.Valid;
      hide View.Up, View.Swap, View.Ok, View.Takes, View.Alloc;
      StartIsOk(first.Length, second.Length);
      block0, block1 := first, second;
      inBlock, markers := 0, [0, 0];
      pend := new RingBuffer(pendingData);
      down := new RingBuffer(noDown);
      view := View(0, [first.Length, second.Length], [], [], [], [], 0, []);
      new;
      assert markers[0] == 0;
      assert Cur() == 0;
    }

    /** esp_apptrace_membufs_down_buffer_config */
    method ConfigDown(buf: array<byte>)
      requires Valid() && buf.Length < 0x8000_0000
      requires buf != block0 && buf != block1 && buf != pend.data
      modifies this`down, this`view
      ensures Valid() && fresh(down) && down.data == buf
      ensures view == old(view).(downSize := buf.Length, received := [])
    {
      down := new RingBuffer(buf);
      view := view.(downSize := buf.Length, received := []);
    }

    /** esp_apptrace_membufs_swap. A refused swap changes nothing; a granted one ships the current block. */
    method Swap(reply: SwapReply) returns (ok: bool)
      requires Valid() && HostFits(reply)
      modifies this`inBlock, this`markers, this`view, block0, block1, pend, down, down.data
      ensures Valid() && ok == reply.Granted?
      ensures view == if ok then old(view).Swap(reply.host) else old(view)
      // The old block can be read now, and pending packets fill the other one.
      ensures ok ==>
                && view.exposed == old(view.block) && view.shipped == old(view.shipped) + view.exposed
                && view.block + view.pending == old(view.pending)
                && (view.pending == [] || |view.block| == view.sizes[view.cur])
      // The down buffer gets the host data that fits and nothing else.
      ensures ok && reply.host.Some? ==>
                var d := reply.host.value;
                view.received == old(view.received) + d[..Max(0, Min(|d|, view.downSize - 1 - old(|view.received|)))]
      ensures !ok || reply.host.None? ==> view.received == old(view.received)
    {
      hide Control.Live, Control.Ok, Control.LargestRoom, Control.IsTail, RingBuffer.Valid, View.Up, View.Swap, Fitting;
      if reply.Busy? {
        return false;
      }
      SwapEffect(view, reply.host);
      SwapBlocks(reply.host);
      ok := true;
    }

    /** The part of the swap behind the hardware's grant. */
    method SwapBlocks(host: Option<seq<byte>>)
      requires Valid() && HostFits(Granted(host))
      modifies this`inBlock, this`markers, this`view, block0, block1, pend, down, down.data
      ensures Valid() && view == old(view).Swap(host)
    {
      hide Control.Live, Control.Ok, Control.LargestRoom, Control.IsTail, RingBuffer.Valid, View.Up, View.Swap, Fitting;
      var prev := Cur();
      var next := 1 - prev;
      var empty := Block(next);
      assert empty.Length == view.sizes[next];
      markers := markers[next := 0];
      inBlock := Add32(inBlock, 1);
      assert Cur() == next;
      ReceiveHostData(empty, down, host);
      var marker := Pump(pend, empty);
      markers := markers[next := marker];
      assert Block(prev)[..markers[prev]] == view.block;
      SwapKeepsUp(view, host);
      SwapEffect(view, host);
      SwapFields(view, host, marker);
      view := view.Swap(host);
      assert view.Ok() && pend.Valid() && down.Valid();
    }

    /**
     esp_apptrace_membufs_swap_waitus: attempts to swap until one is granted or the time is up, which
     is when the replies from `at` on are used up. `next` is the position after the last one used.
     */
    method SwapWait(replies: seq<SwapReply>, at: nat) returns (ok: bool, next: nat)
      requires Valid() && at <= |replies| && forall i | 0 <= i < |replies| :: HostFits(replies[i])
      modifies this`inBlock, this`markers, this`view, block0, block1, pend, down, down.data
      ensures Valid()
      ensures at <= next <= |replies| && (forall i | at <= i < next - (if ok then 1 else 0) :: replies[i].Busy?)
      ensures if ok then at < next && replies[next - 1].Granted? && view == old(view).Swap(replies[next - 1].host)
              else next == |replies| && view == old(view)
    {
      hide Control.Live, Control.Ok, Control.LargestRoom, Control.IsTail;
      next := at;
      while next < |replies|
        invariant at <= next <= |replies| && forall i | at <= i < next :: replies[i].Busy?
        invariant Valid() && view == old(view)
      {
        var reply := replies[next];
        ok := Swap(reply);
        next := next + 1;
        if ok {
          return;
        }
        assert replies[next - 1] == reply;
      }
      ok := false;
    }

    /**
     esp_apptrace_membufs_flush_nolock. Every iteration that gets its swap shrinks the pending queue or
     empties the block, so the loop ends whatever the host does. It looks at the block only: with no
     more than minSz bytes in the block it leaves pending packets where they are. It fails only when the
     time is up; `used` is the position after the last reply used.
     */
    method Flush(minSz: u32, replies: seq<SwapReply>, at: nat) returns (ok: bool, ghost used: nat)
      requires Valid() && at <= |replies| && forall i | 0 <= i < |replies| :: HostFits(replies[i])
      modifies this`inBlock, this`markers, this`view, block0, block1, pend, down, down.data
      ensures Valid() && view.Up() == old(view.Up())
      ensures at <= used <= |replies| && view == Swaps(old(view), replies[at..used])
      ensures !ok ==> used == |replies| && |view.block| > minSz
      ensures old(|view.block|) <= minSz ==> ok && view == old(view)
      ensures ok && old(|view.block|) > minSz && minSz < Min(view.sizes[0], view.sizes[1]) ==>
                |view.block| <= minSz && view.pending == []
      // If a whole block is allowed to stay, exactly one swap is made, and what does not fit stays pending.
      ensures ok && old(|view.block|) > minSz >= Min(view.sizes[0], view.sizes[1]) ==>
                SwappedOnce(old(view), view) && (view.pending == [] <==> old(|view.pending| <= view.sizes[1 - view.cur]))
    {
      hide Control.Live, Control.Ok, Control.LargestRoom, Control.IsTail, Swaps, View.Swap, View.Up, Flushing, SwappedOnce;
      used := at;
      SwapsFirst(view, replies, at, at, false);
      FlushStart(view, minSz);
      if markers[Cur()] < minSz {
        return true, used;
      }
      var next := at;
      ghost var start := view;
      while markers[Cur()] > minSz
        invariant Valid() && at <= next == used <= |replies| && view == Swaps(start, replies[at..next])
        invariant Flushing(start, view, minSz)
        decreases |view.pending|, |view.block|
      {
        ghost var before, mid := view, next;
        ok, next := SwapWait(replies, next);
        used := next;
        SwapsFirst(before, replies, mid, next, ok);
        SwapsBetween(start, replies, at, mid, next);
        if !ok {
          FlushEnd(start, before, minSz);
          return;
        }
        FlushStep(start, before, minSz, replies[next - 1].host);
      }
      FlushEnd(start, view, minSz);
      ok := true;
    }

    /** The n bytes at `place` are the newest ones of the up-stream, and no other packet shares them. */
    ghost predicate Owns(place: Place, n: nat)
      reads this, pend
    {
      match place
      case InBlock(off) => |markers| == 2 && off + n == markers[Cur()] && view.pending == []
      case Pended(off) => pend.Ctl().IsTail(off, n)
    }

    /** The n bytes at `place`. */
    ghost function Region(place: Place, n: nat): seq<byte>
      reads this, pend.data, block0, block1
    {
      if !InBounds(place, n) then []
      else if place.InBlock? then Block(Cur())[place.off..place.off + n]
      else pend.data[place.off..place.off + n]
    }

    ghost predicate InBounds(place: Place, n: nat)
      reads this
    {
      place.off + n <= if place.InBlock? then Block(Cur()).Length else pend.data.Length
    }

    /** The packet at `place` starts with the header of an open packet. */
    ghost predicate IsOpen(place: Place, core: nat, size: nat)
      requires core < 2 && size < 0x8000
      reads this, pend.data, block0, block1
    {
      var r := Region(place, HDR + size);
      |r| == HDR + size && r[..HDR] == OpenHeader(core, size)
    }

    /** `place` was handed out in view v: its n bytes are the newest ones and were appended to the stream. */
    ghost predicate Allocated(v: View, place: Place, n: nat)
      reads this, pend, pend.data, block0, block1
    {
      && Owns(place, n)
      && InBounds(place, n)
      && view == v.Alloc(place, Region(place, n))
    }

    lemma AllocatedExtendsUp(v: View, place: Place, n: nat)
      requires Allocated(v, place, n)
      ensures view.Up() == v.Up() + Region(place, n) && |Region(place, n)| == n
    {
      AllocExtendsUp(v, place, Region(place, n));
    }

    method AllocPended(n: u32) returns (place: Option<Place>)
      requires Valid() && 0 < n < 0x1_0000
      modifies pend, this`view
      ensures Valid()
      ensures place.None? ==> view == old(view) && n > pend.Ctl().LargestRoom()
      ensures place.Some? ==> place.value.Pended? && Allocated(old(view), place.value, n)
    {
      hide Control.Live, Control.Ok, Control.LargestRoom, Control.IsTail;
      var ptr := pend.Reserve(n);
      if ptr.None? {
        return None;
      }
      var p := Pended(ptr.value);
      ghost var r := Region(p, n);
      assert pend.Valid() && down.Valid() && pend.queue == view.pending + r;
      view := view.(pending := view.pending + r);
      assert Valid();
      assert Region(p, n) == r && Owns(p, n);
      place := Some(p);
    }

    /** What the view tells about the fields. */
    lemma Facts()
      requires Valid()
      ensures view.Ok() && pend.Valid() && down.Valid()
      ensures view.pending == pend.queue && view.received == down.queue
      ensures |markers| == 2 && |view.block| == markers[Cur()] && view.sizes[view.cur] == Block(Cur()).Length
    {
    }

    /** Advances the marker of the current block over room for a packet. */
    method AllocInBlock(n: nat) returns (place: Place)
      requires Valid() && view.pending == [] && markers[Cur()] + n <= Block(Cur()).Length
      modifies this`markers, this`view
      ensures Valid() && place == InBlock(old(markers[Cur()])) && Allocated(old(view), place, n)
    {
      hide Control.Live, Control.Ok, Control.LargestRoom, Control.IsTail;
      var b := Cur();
      var marker := markers[b];
      place := InBlock(marker);
      markers := markers[b := marker + n];
      view := view.Alloc(place, Block(b)[marker..marker + n]);
      assert Block(b)[..marker + n] == Block(b)[..marker] + Block(b)[marker..marker + n];
    }

    /**
     esp_apptrace_membufs_wait4buf: room for n bytes after the next granted swap. `base` is the view
     between the swap and the allocation.
     */
    method Wait4Buf(n: u32, replies: seq<SwapReply>, at: nat)
      returns (place: Option<Place>, ghost base: View, ghost used: nat)
      requires Valid() && 0 < n < 0x1_0000 && at <= |replies| && forall i | 0 <= i < |replies| :: HostFits(replies[i])
      modifies this`inBlock, this`markers, this`view, block0, block1, pend, down, down.data
      ensures Valid() && at <= used <= |replies| && base == Swaps(old(view), replies[at..used])
      ensures if place.None? then view == base
              else Allocated(base, place.value, n) && (place.value.InBlock? <==> base.Takes(n))
      // It fails only when the time is up, or for lack of room in the pending ring.
      ensures place.None? ==> (forall i | at <= i < |replies| :: replies[i].Busy?) || n > pend.Ctl().LargestRoom()
    {
      hide Control.Live, Control.Ok, Control.LargestRoom, Control.IsTail, Swaps, View.Swap;
      ghost var start := view;
      var ok, next := SwapWait(replies, at);
      base, used := view, next;
      SwapsFirst(start, replies, at, next, ok);
      if !ok {
        return None, base, used;
      }
      if pend.ReadSize() > 0 {
        place := AllocPended(n);
      } else if markers[Cur()] + n > Block(Cur()).Length {
        place := AllocPended(n);
      } else {
        var p := AllocInBlock(n);
        place := Some(p);
      }
    }

    /** The allocation part of esp_apptrace_membufs_up_buffer_get. */
    method Allocate(n: u32, replies: seq<SwapReply>) returns (place: Option<Place>, ghost base: View, ghost used: nat)
      requires Valid() && 0 < n < 0x1_0000 && forall i | 0 <= i < |replies| :: HostFits(replies[i])
      modifies this`inBlock, this`markers, this`view, block0, block1, pend, down, down.data
      ensures Valid() && used <= |replies| && base == Swaps(old(view), replies[..used])
      ensures if place.None? then view == base
              else Allocated(base, place.value, n) && (place.value.InBlock? <==> base.Takes(n))
      ensures place.None? ==> (forall i | 1 <= i < |replies| :: replies[i].Busy?) || n > pend.Ctl().LargestRoom()
      // Nothing pending and room in the block: the packet goes there at once.
      ensures old(view.Takes(n)) ==>
                place.Some? && place.value.InBlock? && base == old(view)
    {
      hide Control.Live, Control.Ok, Control.LargestRoom, Control.IsTail, View.Up, View.Swap, View.Alloc, Swaps, Valid;
      hide Allocated, Region, InBounds, Owns;
      Facts();
      var at := 0;
      ghost var start := view;
      SwapsFirst(start, replies, 0, 0, false);
      if pend.ReadSize() > 0 && replies != [] {
        var swapped := Swap(replies[0]);
        at := 1;
        SwapsFirst(start, replies, 0, 1, swapped);
        Facts();
      }
      base, used := view, at;
      assert replies[0..at] == replies[..at];
      if pend.ReadSize() > 0 || markers[Cur()] + n > Block(Cur()).Length {
        place := AllocPended(n);
        if place.None? {
          place, base, used := Wait4Buf(n, replies, at);
          SwapsBetween(start, replies, 0, at, used);
          assert replies[0..used] == replies[..used];
        }
      } else {
        var p := AllocInBlock(n);
        place := Some(p);
      }
    }

    method FillPended(ghost v: View, place: Place, n: nat, at: nat, src: seq<byte>)
      requires Valid() && place.Pended? && Allocated(v, place, n) && at + |src| <= n
      modifies this`view, pend`queue, pend.data
      ensures Valid() && Allocated(v, place, n)
      ensures Region(place, n) == Patch(old(Region(place, n)), at, src)
    {
      hide Control.Live, Control.Ok, Control.LargestRoom, Control.IsTail, Patch;
      ghost var older, r := v.pending, pend.data[place.off..place.off + n];
      assert pend.queue == older + r;
      pend.Fill(older, place.off, at, n, src);
      ghost var r' := pend.data[place.off..place.off + n];
      assert pend.queue == older + r';
      assert down.Valid();
      view := v.(pending := older + r');
      assert Valid();
    }

    method FillInBlock(ghost v: View, place: Place, n: nat, at: nat, src: seq<byte>)
      requires Valid() && place.InBlock? && Allocated(v, place, n) && at + |src| <= n
      modifies this`view, block0, block1
      ensures Valid() && Allocated(v, place, n)
      ensures Region(place, n) == Patch(old(Region(place, n)), at, src)
    {
      hide Control.Live, Control.Ok, Control.LargestRoom, Control.IsTail, Patch, RingBuffer.Valid, View.Up, View.Swap;
      var block, off := Block(Cur()), place.off;
      ghost var mem, older, other := block[..], v.block, Block(1 - Cur());
      assert Region(place, n) == mem[off..off + n];
      assert block[..off + n] == mem[..off + n] && block[off..off + n] == mem[off..off + n];
      MemCpy(block, off + at, src);
      ghost var mem' := block[..];
      PatchBehind(mem, older, off, n, at, src);
      assert block[..off + n] == mem'[..off + n] && block[off..off + n] == mem'[off..off + n];
      assert pend.Valid() && down.Valid() && Block(Cur()) == block && Block(1 - Cur()) == other;
      assert view.exposed == other[..markers[1 - Cur()]];
      view := v.(block := older + mem'[off..off + n]);
      assert view.block == block[..markers[Cur()]];
      assert view.Ok();
      assert Region(place, n) == mem'[off..off + n];
    }

    /** The owner of an allocated packet writes into it: only the newest n bytes of the stream change. */
    method FillPacket(ghost v: View, place: Place, n: nat, at: nat, src: seq<byte>)
      requires Valid() && Allocated(v, place, n) && at + |src| <= n
      modifies this`view, pend`queue, pend.data, block0, block1
      ensures Valid() && Allocated(v, place, n)
      ensures Region(place, n) == Patch(old(Region(place, n)), at, src)
    {
      if place.InBlock? {
        FillInBlock(v, place, n, at, src);
      } else {
        FillPended(v, place, n, at, src);
      }
    }

    /**
     esp_apptrace_membufs_up_buffer_get: allocates a packet for `size` bytes of user data and opens it.
     A request larger than the current block is refused at once.
     */
    method UpBufferGet(core: nat, size: u32, replies: seq<SwapReply>)
      returns (place: Option<Place>, ghost base: View, ghost used: nat)
      requires Valid() && core < 2 && forall i | 0 <= i < |replies| :: HostFits(replies[i])
      modifies this`inBlock, this`markers, this`view, block0, block1, pend, pend.data, down, down.data
      ensures Valid() && used <= |replies| && base == Swaps(old(view), replies[..used])
      ensures size > old(view.sizes[view.cur]) - HDR ==> place.None? && view == old(view)
      ensures place.None? ==> view == base
      ensures place.None? && size <= old(view.sizes[view.cur]) - HDR ==>
                (forall i | 1 <= i < |replies| :: replies[i].Busy?) || HDR + size > pend.Ctl().LargestRoom()
      ensures place.Some? ==>
                && size < 0x8000 && Allocated(base, place.value, HDR + size)
                && (place.value.InBlock? <==> base.Takes(HDR + size))
                && IsOpen(place.value, core, size)
      ensures old(view.Takes(HDR + size)) ==>
                place.Some? && place.value.InBlock? && base == old(view)
    {
      hide Control.Live, Control.Ok, Control.LargestRoom, Control.IsTail, Patch, Region, Allocated, View.Up, OpenHeader, Swaps;
      base, used := view, 0;
      if size > Block(Cur()).Length - HDR {
        SwapsFirst(view, replies, 0, 0, false);
        assert replies[0..0] == replies[..0];
        return None, base, used;
      }
      place, base, used := Allocate(HDR + size, replies);
      if place.Some? {
        var p := place.value;
        AllocatedExtendsUp(base, p, HDR + size);
        FillPacket(base, p, HDR + size, 0, OpenHeader(core, size));
        ghost var r := Region(p, HDR + size);
        assert r[0..HDR] == r[..HDR];
      }
    }

    /** esp_apptrace_membufs_up_buffer_put: closes the packet by copying its block size to its written size. */
    method UpBufferPut(ghost v: View, place: Place, n: nat)
      requires Valid() && HDR <= n && Allocated(v, place, n)
      modifies this`view, pend`queue, pend.data, block0, block1
      ensures Valid() && Allocated(v, place, n)
      ensures Region(place, n) == Closed(old(Region(place, n)))
    {
      hide Control.Live, Control.Ok, Control.LargestRoom, Control.IsTail, Patch, View.Alloc, View.Up;
      ghost var r := Region(place, n);
      var size := if place.InBlock? then Block(Cur())[place.off..place.off + 2] else pend.data[place.off..place.off + 2];
      assert size == r[..2];
      FillPacket(v, place, n, 2, size);
      Closing(r, n);
    }

    /**
     esp_apptrace_write (app_trace.c): a packet is allocated, filled and closed before the next call.
     Then the up-stream grows by exactly one complete packet, or only swaps have happened.
     */
    method Write(core: nat, data: seq<byte>, replies: seq<SwapReply>) returns (ok: bool, ghost used: nat)
      requires Valid() && core < 2 && |data| < U32 && forall i | 0 <= i < |replies| :: HostFits(replies[i])
      modifies this`inBlock, this`markers, this`view, block0, block1, pend, pend.data, down, down.data
      ensures Valid() && used <= |replies|
      ensures !ok ==> data == [] || |data| > old(view.sizes[view.cur]) - HDR
                      || (forall i | 1 <= i < |replies| :: replies[i].Busy?) || HDR + |data| > pend.Ctl().LargestRoom()
      ensures ok ==>
                && 0 < |data| < 0x8000
                && Leads(old(view), view, Traffic(ClosedHeader(core, |data|) + data, [], GrantedIn(replies[..used])))
      ensures !ok ==> view == Swaps(old(view), replies[..used]) && Leads(old(view), view, Quiet(GrantedIn(replies[..used])))
      ensures data != [] && old(view.Takes(HDR + |data|)) ==> ok && view.shipped == old(view.shipped)
    {
      hide Control.Live, Control.Ok, Control.LargestRoom, Control.IsTail, Patch, OpenHeader, ClosedHeader, Region, Allocated, View.Up, Swaps, Leads;
      ghost var start := view;
      SwapsFirst(view, replies, 0, 0, false);
      assert replies[0..0] == replies[..0];
      if data == [] {
        used := 0;
        SwapsLead(start, replies[..0]);
        return false, 0;
      }
      var place;
      ghost var base;
      place, base, used := UpBufferGet(core, |data|, replies);
      SwapsLead(start, replies[..used]);
      if place.None? {
        return false, used;
      }
      ghost var packet := FillAndClose(base, place.value, core, data);
      SwapsThenSent(start, replies[..used], place.value, packet);
      ok := true;
    }

    /** The caller's memcpy and esp_apptrace_membufs_up_buffer_put. */
    method FillAndClose(ghost v: View, place: Place, core: nat, data: seq<byte>) returns (ghost packet: seq<byte>)
      requires Valid() && core < 2 && |data| < 0x8000 && Allocated(v, place, HDR + |data|)
      requires IsOpen(place, core, |data|)
      modifies this`view, pend`queue, pend.data, block0, block1
      ensures Valid() && packet == ClosedHeader(core, |data|) + data && view == v.Alloc(place, packet)
    {
      hide Control.Live, Control.Ok, Control.LargestRoom, Control.IsTail, Patch, OpenHeader, ClosedHeader, Region, Allocated;
      hide Valid, View.Alloc, View.Up, View.Ok, Closed;
      var n := HDR + |data|;
      AllocatedIs(v, place, n);
      ghost var blank := Region(place, n);
      FillPacket(v, place, n, HDR, data);
      ghost var filled := Region(place, n);
      UpBufferPut(v, place, n);
      packet := Region(place, n);
      AllocatedIs(v, place, n);
      PacketIsComplete(core, data, blank, filled, packet);
    }

    lemma AllocatedIs(v: View, place: Place, n: nat)
      requires Allocated(v, place, n)
      ensures view == v.Alloc(place, Region(place, n)) && |Region(place, n)| == n
    {
    }

    /** Consumes n of the host's bytes. */
    method TakeDown(n: u32) returns (bytes: seq<byte>)
      requires Valid() && n <= down.ReadSize()
      modifies this`view, down
      ensures Valid() && |bytes| == n && bytes + view.received == old(view.received)
      ensures view == old(view).(received := view.received)
    {
      hide Control.Live, Control.Ok, Control.LargestRoom, Control.IsTail;
      bytes := down.Fetch(n);
      assert down.Valid() && pend.Valid();
      view := view.(received := down.queue);
    }

    /** A swap for the sake of the host's data, while the down buffer is empty: the first one granted brings it. */
    method ForceFlush(replies: seq<SwapReply>) returns (ghost arrived: seq<byte>)
      requires Valid() && view.received == [] && forall i | 0 <= i < |replies| :: HostFits(replies[i])
      modifies this`inBlock, this`markers, this`view, block0, block1, pend, down, down.data
      ensures Valid() && Leads(old(view), view, Quiet(FirstGranted(replies))) && view.downSize == old(view.downSize)
      ensures view.received == arrived
      ensures Brings(replies, view.downSize, arrived)
    {
      hide Control.Live, Control.Ok, Control.LargestRoom, Control.IsTail, Leads, Valid, View.Swap, View.Up;
      Facts();
      ghost var before := view;
      var ok, next := SwapWait(replies, 0);
      ghost var refused := if ok then next - 1 else next;
      FirstGrantedIs(replies, refused);
      GrantedLast(replies[0..next], refused);
      SwapsFirst(before, replies, 0, next, ok);
      SwapsLead(before, replies[0..next]);
      if ok {
        SwapEffect(before, replies[next - 1].host);
      }
      arrived := view.received;
    }

    ghost predicate PollFits(poll: Poll) {
      poll.HostPending? ==> forall i | 0 <= i < |poll.replies| :: HostFits(poll.replies[i])
    }

    /**
     esp_apptrace_membufs_down_buffer_get: the oldest bytes the host has sent. While there are none, a
     swap is forced if the host has data, and the time is checked only if it has none. `arrived` is what
     the swaps added. The call is still waiting after `polls` if none of them ends the wait. The `assert`
     of the source cannot fire.
     */
    method DownBufferGet(size: u32, polls: seq<Poll>) returns (r: Got, ghost arrived: seq<byte>, ghost used: nat)
      requires Valid() && forall i | 0 <= i < |polls| :: PollFits(polls[i])
      modifies this`inBlock, this`markers, this`view, block0, block1, pend, down, down.data
      ensures Valid() && used <= |polls|
      ensures Leads(old(view), view, Traffic([], BytesOf(r), PolledHosts(polls[..used])))
      ensures old(view.received) + arrived == BytesOf(r) + view.received
      ensures r.Data? ==> |r.bytes| <= size && (size > 0 ==> r.bytes != [])
      ensures !r.Data? ==> arrived == []
      ensures old(view.received) != [] ==> r.Data? && arrived == [] && used == 0
      // What an empty buffer gets is what the first poll that ends the wait brings, as far as there is room.
      ensures old(view.received) == [] && r.Data? ==> Brought(polls, used, old(view.downSize), arrived)
      ensures r == Waiting <==> old(view.received) == [] && forall i | 0 <= i < |polls| :: !Decides(polls[i], old(view.downSize))
      ensures r == TimedOut <==>
                old(view.received) == [] && exists k: nat :: DecidesFirst(polls, k, old(view.downSize)) && polls[k].NoHostData?
    {
      hide Control.Live, Control.Ok, Control.LargestRoom, Control.IsTail, Leads, Valid, Brought, PolledHosts, FirstGranted;
      hide View.Swap, View.Up, View.Ok, Polled, Decides, DecidesFirst, Brings;
      arrived, used := [], 0;
      Facts();
      ghost var start := view;
      PollStart(polls, start);
      var i := 0;
      while true
        invariant 0 <= i == used <= |polls| && Valid() && Polled(polls, i, start, view, arrived)
        decreases |polls| - i
      {
        Facts();
        PolledIs(polls, i, start, view, arrived);
        var n := down.ReadSize();
        if n != 0 {
          n := if size < n then size else n;
          PollData(polls, i, start, view, arrived);
          ghost var before := view;
          var bytes := TakeDown(n);
          Facts();
          TakingLeads(start, before, view, n, bytes, PolledHosts(polls[..i]));
          return Data(bytes), arrived, used;
        }
        if i == |polls| {
          PollWaits(polls, start, view, arrived);
          return Waiting, arrived, used;
        }
        used := i + 1;
        ghost var before := view;
        match polls[i] {
          case HostPending(replies) =>
            assert PollFits(polls[i]);
            ghost var soFar := arrived;
            arrived := ForceFlush(replies);
            PollSwaps(polls, i, start, before, soFar, view, arrived);
          case NoHostData(expired) =>
            if expired {
              PollTimesOut(polls, i, start, view, arrived);
              return TimedOut, arrived, used;
            }
            PollPasses(polls, i, start, view, arrived);
        }
        i := i + 1;
      }
    }
  }

  // ---------------------------------------------------------------- any application

  /** One call of an application, with what the environment does meanwhile. */
  datatype Call =
    | WriteCall(core: nat, data: seq<byte>, replies: seq<SwapReply>)
    | FlushCall(minSz: u32, replies: seq<SwapReply>)
    | ReadCall(size: u32, polls: seq<Poll>)

  /** A call, whether it succeeded, the bytes it returned, and how many of the replies or polls it used. */
  datatype Entry = Entry(call: Call, ok: bool, bytes: seq<byte>, used: nat)
  {
    predicate Legal() {
      match call
      case WriteCall(core, data, replies) => used <= |replies| && bytes == [] && (ok ==> core < 2 && |data| < 0x8000)
      case FlushCall(_, replies) => used <= |replies| && bytes == []
      case ReadCall(_, polls) => used <= |polls|
    }

    /** What the call sends, a complete packet if it is a write that succeeds, what it reads, and what swaps bring. */
    function Exchange(): Traffic
      requires Legal()
    {
      match call
      case WriteCall(core, data, replies) =>
        Traffic(if ok then ClosedHeader(core, |data|) + data else [], [], GrantedIn(replies[..used]))
      case FlushCall(_, replies) => Quiet(GrantedIn(replies[..used]))
      case ReadCall(_, polls) => Traffic([], bytes, PolledHosts(polls[..used]))
    }
  }

  predicate LegalLog(log: seq<Entry>) {
    forall e | e in log :: e.Legal()
  }

  /** What the calls send, read and get, in order. */
  function LogTraffic(log: seq<Entry>): Traffic
    requires LegalLog(log)
  {
    if log == [] then Quiet([])
    else
      var last := |log| - 1;
      LogTraffic(log[..last]).Then(log[last].Exchange())
  }

  /** The packets that the successful writes send. */
  function Written(log: seq<Entry>): seq<Packet> {
    if log == [] then []
    else
      var last := log[|log| - 1];
      Written(log[..|log| - 1]) + if last.call.WriteCall? && last.ok then [Packet(last.call.core, last.call.data)] else []
  }

  /** The entries are those of the calls. */
  predicate LogOf(log: seq<Entry>, calls: seq<Call>) {
    |log| == |calls| && LegalLog(log) && forall i | 0 <= i < |log| :: log[i].call == calls[i]
  }

  lemma LogNext(log: seq<Entry>, calls: seq<Call>, i: nat, e: Entry)
    requires i < |calls| && LogOf(log, calls[..i]) && e.Legal() && e.call == calls[i]
    ensures LogOf(log + [e], calls[..i + 1])
    ensures LogTraffic(log + [e]) == LogTraffic(log).Then(e.Exchange())
  {
    hide Entry.Legal, Entry.Exchange, Traffic.Then;
    assert (log + [e])[..|log|] == log;
    assert calls[..i + 1] == calls[..i] + [calls[i]];
  }

  /** The host reads from the stream just the successful writes, with their core and data. */
  lemma {:induction false} LogIsRead(log: seq<Entry>)
    requires LegalLog(log)
    ensures ReadPackets(LogTraffic(log).sent) == Some(Written(log))
    decreases |log|
  {
    hide ReadPackets, ClosedHeader, GrantedIn, PolledHosts;
    assert ReadPackets([]) == Some([]) by {
      NothingIsRead();
    }
    if log != [] {
      var e, before := log[|log| - 1], log[..|log| - 1];
      LogIsRead(before);
      assert e in log;
      var sent := LogTraffic(before).sent;
      if e.call.WriteCall? && e.ok {
        OnePacket(e.call.core, e.call.data);
        PacketsJoin(sent, ClosedHeader(e.call.core, |e.call.data|) + e.call.data);
      } else {
        assert e.Exchange().sent == [] && sent + [] == sent;
        assert Written(before) + [] == Written(before);
      }
    }
  }

  /** What the calls demand of the environment and the caller. */
  ghost predicate CallFits(proto: MemBufsProto, c: Call) {
    match c
    case WriteCall(core, data, replies) =>
      core < 2 && |data| < U32 && forall i | 0 <= i < |replies| :: proto.HostFits(replies[i])
    case FlushCall(_, replies) => forall i | 0 <= i < |replies| :: proto.HostFits(replies[i])
    case ReadCall(_, polls) => forall i | 0 <= i < |polls| :: proto.PollFits(polls[i])
  }

  method OneCall(proto: MemBufsProto, c: Call) returns (ok: bool, bytes: seq<byte>, ghost used: nat)
    requires proto.Valid() && CallFits(proto, c)
    modifies proto`inBlock, proto`markers, proto`view, proto.block0, proto.block1
    modifies proto.pend, proto.pend.data, proto.down, proto.down.data
    ensures proto.Valid() && Entry(c, ok, bytes, used).Legal()
    ensures Leads(old(proto.view), proto.view, Entry(c, ok, bytes, used).Exchange())
  {
    hide Leads, Swaps, ClosedHeader, PolledHosts, GrantedIn, View.Swap, View.Up, View.Ok, Brought, Decides;
    bytes := [];
    match c {
      case WriteCall(core, data, replies) =>
        ok, used := proto.Write(core, data, replies);
      case FlushCall(minSz, replies) =>
        ghost var before := proto.view;
        ok, used := proto.Flush(minSz, replies, 0);
        SwapsLead(before, replies[0..used]);
        assert replies[0..used] == replies[..used];
      case ReadCall(size, polls) =>
        var r;
        ghost var arrived;
        r, arrived, used := proto.DownBufferGet(size, polls);
        ok, bytes := r.Data?, BytesOf(r);
    }
  }

  /**
     Whatever an application calls and the environment does: the calls together are one run of the transport, which
     sends the packets of the successful writes. So the host sees only more and more of these packets, in order. What
     the reads return and what is then left in the down buffer is what was there and the host data of the granted
     swaps, as far as there was room each time.
   */
  method Session(proto: MemBufsProto, calls: seq<Call>)
    returns (done: seq<bool>, got: seq<byte>, ghost log: seq<Entry>, ghost run: seq<Event>)
    requires proto.Valid() && forall i | 0 <= i < |calls| :: CallFits(proto, calls[i])
    modifies proto`inBlock, proto`markers, proto`view, proto.block0, proto.block1
    modifies proto.pend, proto.pend.data, proto.down, proto.down.data
    ensures proto.Valid() && LogOf(log, calls)
    ensures |done| == |log| && forall i | 0 <= i < |done| :: done[i] == log[i].ok
    ensures IsRun(old(proto.view), run) && AfterRun(old(proto.view), run) == proto.view
    ensures TrafficOf(old(proto.view), run) == LogTraffic(log) && got == LogTraffic(log).got
    ensures var sent := LogTraffic(log).sent;
            && ReadPackets(sent) == Some(Written(log))
            && proto.view.Up() == old(proto.view.Up()) + sent
            && old(proto.view.shipped) <= proto.view.shipped <= old(proto.view.Up()) + sent
    ensures got + proto.view.received == old(proto.view.received) + Kept(old(proto.view), run)
  {
    hide Leads, View.Up, Swaps, CallFits, LogTraffic, Entry.Exchange, LogOf, LegalLog, Entry.Legal, Logged;
    hide TrafficOf, IsRun, AfterRun, Kept, ReadPackets, Written;
    done, got, log := [], [], [];
    ghost var start := proto.view;
    LoggedNothing(calls, start);
    var i := 0;
    while i < |calls|
      invariant 0 <= i <= |calls| && proto.Valid() && |done| == |log|
      invariant forall j | 0 <= j < |done| :: done[j] == log[j].ok
      invariant Logged(log, calls, i, start, proto.view, got)
    {
      ghost var before := proto.view;
      ghost var used;
      var ok, bytes;
      ok, bytes, used := OneCall(proto, calls[i]);
      ghost var e := Entry(calls[i], ok, bytes, used);
      LoggedNext(log, calls, i, start, before, proto.view, got, e);
      done, got, log := done + [ok], got + bytes, log + [e];
      i := i + 1;
    }
    LoggedAll(log, calls, start, proto.view, got);
    LogIsRead(log);
    run := LeadsConserves(start, proto.view, LogTraffic(log));
  }

  /** The first i calls, with this log and these bytes read, lead from `start` to v. */
  ghost predicate Logged(log: seq<Entry>, calls: seq<Call>, i: nat, start: View, v: View, got: seq<byte>) {
    && i <= |calls| && LogOf(log, calls[..i])
    && Leads(start, v, LogTraffic(log)) && got == LogTraffic(log).got
  }

  lemma LoggedNothing(calls: seq<Call>, start: View)
    requires start.Ok()
    ensures Logged([], calls, 0, start, start, [])
  {
    LeadsSelf(start);
  }

  lemma LoggedNext(log: seq<Entry>, calls: seq<Call>, i: nat, start: View, v: View, w: View, got: seq<byte>, e: Entry)
    requires i < |calls| && Logged(log, calls, i, start, v, got)
    requires e.Legal() && e.call == calls[i] && Leads(v, w, e.Exchange())
    ensures Logged(log + [e], calls, i + 1, start, w, got + e.bytes)
  {
    hide Leads, Entry.Legal, Entry.Exchange;
    LogNext(log, calls, i, e);
    EntryGets(e);
    LeadsJoin(start, v, w, LogTraffic(log), e.Exchange());
  }

  lemma LoggedAll(log: seq<Entry>, calls: seq<Call>, start: View, v: View, got: seq<byte>)
    requires Logged(log, calls, |calls|, start, v, got)
    ensures LogOf(log, calls) && LegalLog(log) && Leads(start, v, LogTraffic(log)) && got == LogTraffic(log).got
  {
    assert calls[..|calls|] == calls;
  }

  lemma EntryGets(e: Entry)
    requires e.Legal()
    ensures e.Exchange().got == e.bytes
  {
  }
}
