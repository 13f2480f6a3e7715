/**
 Choosing the boot partition: esp_ota_set_boot_partition and esp_ota_get_boot_partition of
 components/app_update/esp_ota_ops.c, the record selection of the bootloader, and the host tool
 components/app_update/otatool.py. Two flash sectors hold one record each; the valid record with the
 greater sequence number decides the slot. The CRC of a sequence number is a parameter.
 */
module OtaSelect {
  import opened Common

  const MAX32: u32 := 0xFFFF_FFFF
  const IMG_NEW: u32 := 0
  const IMG_INVALID: u32 := 3
  const IMG_ABORTED: u32 := 4
  const IMG_UNDEFINED: u32 := MAX32

  const FACTORY: nat := 0x00
  const OTA_MIN: nat := 0x10
  const TEST: nat := 0x20

  datatype Entry = Entry(seqNo: u32, state: u32, crc: u32)

  /** What reading an erased sector gives. */
  const ERASED: Entry := Entry(MAX32, MAX32, MAX32)

  type Crc = u32 -> u32

  datatype Otadata = Otadata(first: Entry, second: Entry) {
    function At(i: nat): Entry
      requires i < 2
    {
      if i == 0 then first else second
    }

    function With(i: nat, e: Entry): Otadata
      requires i < 2
    {
      if i == 0 then this.(first := e) else this.(second := e)
    }
  }

  predicate SelectInvalid(e: Entry) {
    e.seqNo == MAX32 || e.state == IMG_INVALID || e.state == IMG_ABORTED
  }

  predicate SelectValid(crc: Crc, e: Entry) {
    !SelectInvalid(e) && e.crc == crc(e.seqNo)
  }

  /** A record that passes its CRC check. */
  function Record(crc: Crc, seqNo: u32, state: u32): Entry {
    Entry(seqNo, state, crc(seqNo))
  }

  /** bootloader_common_get_active_otadata: the index of the active record, if there is one. */
  function Active(crc: Crc, d: Otadata): (a: Option<nat>)
    ensures a.Some? ==> a.value < 2 && SelectValid(crc, d.At(a.value))
    ensures a.None? <==> !SelectValid(crc, d.first) && !SelectValid(crc, d.second)
    ensures a.Some? && SelectValid(crc, d.At(1 - a.value)) ==> d.At(1 - a.value).seqNo <= d.At(a.value).seqNo
    ensures SelectValid(crc, d.first) && SelectValid(crc, d.second) && d.first.seqNo == d.second.seqNo ==> a == Some(0)
  {
    if SelectValid(crc, d.first) && SelectValid(crc, d.second) then
      Some(if Max(d.first.seqNo, d.second.seqNo) == d.first.seqNo then 0 else 1)
    else if SelectValid(crc, d.first) then Some(0)
    else if SelectValid(crc, d.second) then Some(1)
    else None
  }

  // ---------------------------------------------------------------- partitions

  /** The subtypes of the app partitions in the partition table. */
  type Apps = set<nat>

  /** There are exactly n OTA slots from ota_0 on without a gap. */
  ghost predicate HasSlots(apps: Apps, n: nat) {
    (forall s | OTA_MIN <= s < OTA_MIN + n :: s in apps) && OTA_MIN + n !in apps
  }

  /**
     esp_ota_get_app_partition_count. The assert in the loop fails (None) when all 16 slots and the test
     partition, whose subtype comes next, exist.
   */
  method AppPartitionCount(apps: Apps) returns (count: Option<nat>)
    ensures count.Some? ==> HasSlots(apps, count.value) && count.value <= 16
    ensures count.None? <==> forall s | OTA_MIN <= s <= TEST :: s in apps
  {
    var n := 0;
    while OTA_MIN + n in apps
      invariant n <= 16 && forall s | OTA_MIN <= s < OTA_MIN + n :: s in apps
      decreases 17 - n
    {
      if n >= 16 {
        return None;
      }
      n := n + 1;
    }
    count := Some(n);
  }

  /** The first slot from s on. */
  function FirstSlot(apps: Apps, s: nat): (r: Option<nat>)
    ensures r.Some? ==> s <= r.value < TEST && r.value in apps && forall u | s <= u < r.value :: u !in apps
    ensures r.None? ==> forall u | s <= u < TEST :: u !in apps
    decreases TEST - s
  {
    if s >= TEST then None else if s in apps then Some(s) else FirstSlot(apps, s + 1)
  }

  /** find_default_boot_partition */
  function DefaultBoot(apps: Apps): Option<nat> {
    if FACTORY in apps then Some(FACTORY)
    else if FirstSlot(apps, OTA_MIN).Some? then FirstSlot(apps, OTA_MIN)
    else if TEST in apps then Some(TEST)
    else None
  }

  /** `(ota_seq - 1) % ota_app_count` on unsigned 32-bit numbers. */
  function SlotOf(seqNo: u32, n: nat): (slot: nat)
    requires n > 0
    ensures slot < n
  {
    (if seqNo == 0 then MAX32 else seqNo - 1) % n
  }

  /** esp_ota_get_boot_partition, for n OTA slots. */
  function GetBoot(crc: Crc, apps: Apps, n: nat, d: Otadata): Option<nat> {
    if (SelectInvalid(d.first) && SelectInvalid(d.second)) || n == 0 then DefaultBoot(apps)
    else
      match Active(crc, d)
      case Some(a) =>
        var s := OTA_MIN + SlotOf(d.At(a).seqNo, n);
        if s in apps then Some(s) else None
      case None => DefaultBoot(apps)
  }

  /**
     Without a valid record or without OTA slots, boot takes the factory partition, or else the first OTA slot, or
     else the test partition.
   */
  lemma BootWithoutRecord(crc: Crc, apps: Apps, n: nat, d: Otadata)
    requires n == 0 || Active(crc, d).None?
    ensures var b := GetBoot(crc, apps, n, d);
            && (0x00 in apps ==> b == Some(0x00))
            && (0x00 !in apps && (exists s :: 0x10 <= s < 0x20 && s in apps) ==>
                  b.Some? && 0x10 <= b.value < 0x20 && b.value in apps && forall s | 0x10 <= s < b.value :: s !in apps)
            && (0x00 !in apps && (forall s | 0x10 <= s < 0x20 :: s !in apps) ==> b == if 0x20 in apps then Some(0x20) else None)
  {
  }

  // ---------------------------------------------------------------- sequence numbers

  /** v is the least number from lo on that is congruent to slot + 1 modulo n. */
  ghost predicate IsNext(v: nat, lo: nat, slot: nat, n: nat)
    requires n > 0
  {
    lo <= v && v % n == (slot + 1) % n && forall u: nat | lo <= u && u % n == (slot + 1) % n :: v <= u
  }

  function NextSeq(lo: nat, slot: nat, n: nat): (v: nat)
    requires n > 0
  {
    var r := (slot + 1) % n;
    if lo <= r then r else r + n * ((lo - r + n - 1) / n)
  }

  /** NextSeq is the first of r, r + n, r + 2n, ... that reaches lo. */
  lemma NextSeqIndex(lo: nat, slot: nat, n: nat) returns (k: nat)
    requires n > 0
    ensures var r := (slot + 1) % n;
            NextSeq(lo, slot, n) == r + n * k && lo <= r + n * k && (k > 0 ==> r + n * (k - 1) < lo)
  {
    var r := (slot + 1) % n;
    k := if lo <= r then 0 else (lo - r + n - 1) / n;
  }

  lemma NextSeqIsNext(lo: nat, slot: nat, n: nat)
    requires n > 0
    ensures IsNext(NextSeq(lo, slot, n), lo, slot, n)
  {
    var r, v := (slot + 1) % n, NextSeq(lo, slot, n);
    var k := NextSeqIndex(lo, slot, n);
    hide NextSeq;
    assert v % n == r by {
      DivIs(v, n, k, r);
    }
    forall u: nat | lo <= u && u % n == r
      ensures v <= u
    {
      NothingBetween(u, lo, r, k, n);
    }
  }

  lemma NothingBetween(u: nat, lo: nat, r: nat, k: nat, n: nat)
    requires n > 0 && u % n == r && lo <= u && (k > 0 ==> r + n * (k - 1) < lo)
    ensures r + n * k <= u
  {
    var q := u / n;
    assert u == n * q + r;
    MulGap(n, q, (k as int) - 1);
    MulGap(n, k, q);
  }

  /** A number boots the slot it was computed for, unless it is 0. */
  lemma SlotOfIs(v: nat, slot: nat, n: nat)
    requires n > 0 && slot < n && 1 <= v < U32
    ensures SlotOf(v, n) == slot <==> v % n == (slot + 1) % n
  {
    var q := (v - 1) / n;
    assert v - 1 == n * q + SlotOf(v, n);
    assert v == n * q + (SlotOf(v, n) + 1);
    if SlotOf(v, n) + 1 < n {
      DivIs(v, n, q, SlotOf(v, n) + 1);
    } else {
      DivIs(v, n, q + 1, 0);
    }
    if slot + 1 < n {
      DivIs(slot + 1, n, 0, slot + 1);
    } else {
      DivIs(slot + 1, n, 1, 0);
    }
  }

  /** The search loop of otatool.py, on unbounded integers. */
  method FindNextSeq(seqNo: nat, slot: nat, n: nat) returns (v: nat)
    requires n > 0
    ensures IsNext(v, seqNo, slot, n) && v == NextSeq(seqNo, slot, n)
  {
    ghost var k := NextSeqIndex(seqNo, slot, n);
    NextSeqIsNext(seqNo, slot, n);
    hide NextSeq, IsNext;
    var i: nat, r := 0, (slot + 1) % n;
    while seqNo > r + n * i
      invariant i <= k
      decreases k - i
    {
      i := i + 1;
    }
    MulGap(n, i, (k as int) - 1);
    v := r + n * i;
  }

  /** The 32-bit search computes (slot + 1) % n + i * n modulo 2^32. */
  function SearchValue(slot: nat, n: nat, i: nat): u32
    requires n > 0
  {
    ((slot + 1) % n + n * i) % U32
  }

  /** The index, a uint32_t, wraps around as well: it runs through one period for ever. */
  lemma {:induction false} SearchPeriod(slot: nat, n: nat, i: nat)
    requires n > 0
    ensures SearchValue(slot, n, i) == SearchValue(slot, n, i % U32)
    decreases i
  {
    if i >= U32 {
      var j := i - U32;
      var a := (slot + 1) % n + n * j;
      assert (slot + 1) % n + n * i == a + U32 * n;
      DivIs(a + U32 * n, U32, a / U32 + n, a % U32);
      SearchPeriod(slot, n, j);
      DivIs(i, U32, j / U32 + 1, j % U32);
    }
  }

  /** The search ends at its i-th value. */
  ghost predicate EndsAt(seqNo: u32, slot: nat, n: nat, i: nat)
    requires n > 0
  {
    SearchValue(slot, n, i) >= seqNo && forall j: nat | j < i :: SearchValue(slot, n, j) < seqNo
  }

  /** v is what the 32-bit search finds. */
  ghost predicate Finds(seqNo: u32, slot: nat, n: nat, v: u32)
    requires n > 0
  {
    exists i: nat :: EndsAt(seqNo, slot, n, i) && SearchValue(slot, n, i) == v
  }

  ghost predicate NeverEnds(seqNo: u32, slot: nat, n: nat)
    requires n > 0
  {
    forall i: nat :: SearchValue(slot, n, i) < seqNo
  }

  // ---------------------------------------------------------------- when the search ends

  lemma Pow2Of32()
    ensures Pow2(32) == U32
  {
    assert Pow2(8) == 256;
    assert Pow2(16) == 256 * Pow2(8);
    assert Pow2(24) == 256 * Pow2(16);
  }

  /** The greatest power of two, up to 2^k, that divides n. */
  function TwoPart(n: nat, k: nat): (g: nat)
    requires n > 0
    ensures g > 0
    decreases k
  {
    if k == 0 || n % 2 == 1 then 1 else 2 * TwoPart(n / 2, k - 1)
  }

  lemma {:induction false} TwoPartDivides(n: nat, k: nat) returns (q: nat, m: nat)
    requires n > 0
    ensures n == TwoPart(n, k) * q && Pow2(k) == TwoPart(n, k) * m
    decreases k
  {
    q, m := n, Pow2(k);
    if k > 0 && n % 2 == 0 {
      q, m := TwoPartDivides(n / 2, k - 1);
    }
  }

  /** It is a multiple of n modulo 2^k. */
  lemma {:induction false} TwoPartIsMultiple(n: nat, k: nat) returns (a: int, b: int)
    requires n > 0
    ensures n * a == TwoPart(n, k) + Pow2(k) * b
    decreases k
  {
    if k == 0 {
      a, b := 0, -1;
    } else if n % 2 == 0 {
      a, b := TwoPartIsMultiple(n / 2, k - 1);
      Doubled(n / 2, a, TwoPart(n / 2, k - 1), Pow2(k - 1), b);
    } else {
      a, b := TwoPartIsMultiple(n, k - 1);
      a, b := OddInverse(n, a, b, Pow2(k - 1));
    }
  }

  lemma Doubled(n: int, a: int, g: int, p: int, b: int)
    requires n * a == g + p * b
    ensures (2 * n) * a == 2 * g + (2 * p) * b
  {
    assert (2 * n) * a == 2 * (n * a) && (2 * p) * b == 2 * (p * b);
  }

  /** An inverse of an odd number modulo p gives one modulo 2p. */
  lemma OddInverse(n: nat, a: int, b: int, p: nat) returns (a': int, b': int)
    requires n % 2 == 1 && n * a == 1 + p * b
    ensures n * a' == 1 + (2 * p) * b'
  {
    if b % 2 == 0 {
      a', b' := a, b / 2;
      AddMultiple(n, a, b, p, 0, b');
    } else {
      a', b' := a + p, (b + n) / 2;
      AddMultiple(n, a, b, p, 1, b');
    }
  }

  lemma AddMultiple(n: int, a: int, b: int, p: int, k: int, c: int)
    requires n * a == 1 + p * b && b + n * k == 2 * c
    ensures n * (a + p * k) == 1 + (2 * p) * c
  {
    assert n * (a + p * k) == n * a + n * (p * k);
    assert n * (p * k) == p * (n * k);
    assert p * (b + n * k) == p * b + p * (n * k);
    assert p * (2 * c) == (2 * p) * c;
  }

  /** gcd(n, 2^32) */
  function Stride(n: nat): (g: nat)
    requires n > 0
    ensures g > 0
  {
    TwoPart(n, 32)
  }

  lemma StrideParts(n: nat) returns (q: nat, m: nat, a: int, b: int)
    requires n > 0
    ensures n == Stride(n) * q && U32 == Stride(n) * m && n * a == Stride(n) + U32 * b
  {
    Pow2Of32();
    hide TwoPart, Pow2;
    q, m := TwoPartDivides(n, 32);
    a, b := TwoPartIsMultiple(n, 32);
  }

  predicate Divides(e: nat, n: nat)
    requires e > 0
  {
    n % e == 0
  }

  lemma MultipleIsDivided(e: nat, x: int)
    requires e > 0
    ensures (e * x) % e == 0
  {
    DivIs(e * x, e, x, 0);
  }

  lemma StrideIsGcd(n: nat)
    requires n > 0
    ensures Divides(Stride(n), n) && Divides(Stride(n), U32)
    ensures forall e: nat | e > 0 && Divides(e, n) && Divides(e, U32) :: Divides(e, Stride(n))
  {
    hide Stride;
    var g := Stride(n);
    var q, m, a, b := StrideParts(n);
    MultipleIsDivided(g, q);
    MultipleIsDivided(g, m);
    forall e: nat | e > 0 && Divides(e, n) && Divides(e, U32) ensures Divides(e, g) {
      var x, y := n / e, U32 / e;
      assert n == e * x && U32 == e * y;
      CommonDivisor(e, x, a, y, b);
      MultipleIsDivided(e, x * a - y * b);
    }
  }

  lemma CommonDivisor(e: int, x: int, a: int, y: int, b: int)
    ensures (e * x) * a - (e * y) * b == e * (x * a - y * b)
  {
    assert (e * x) * a == e * (x * a) && (e * y) * b == e * (y * b);
  }

  /** The search runs through exactly the values that are congruent to slot + 1 modulo n, modulo the stride. */
  lemma SearchValues(slot: nat, n: nat, v: u32)
    requires n > 0
    ensures (exists i: nat :: SearchValue(slot, n, i) == v) <==> v % Stride(n) == (slot + 1) % n % Stride(n)
  {
    hide Stride;
    var r, g := (slot + 1) % n, Stride(n);
    forall i: nat | SearchValue(slot, n, i) == v ensures v % g == r % g {
      ValueIsCongruent(r, n, i, v);
    }
    if v % g == r % g {
      var d := v / g - r / g;
      assert g * d == g * (v / g) - g * (r / g);
      var i, w := IndexOfMultiple(n, g, d);
      DivIs(r + n * i, U32, w, v);
      assert SearchValue(slot, n, i) == v;
    }
  }

  lemma ValueIsCongruent(r: nat, n: nat, i: nat, v: u32)
    requires n > 0 && (r + n * i) % U32 == v
    ensures v % Stride(n) == r % Stride(n)
  {
    hide Stride;
    var g := Stride(n);
    var q, m, a, b := StrideParts(n);
    var w := (r + n * i) / U32;
    assert v == r + n * i - U32 * w;
    CommonDivisor(g, q, i, m, w);
    SameRemainder(v, r, g, q * i - m * w);
  }

  lemma SameRemainder(v: int, r: int, g: nat, t: int)
    requires g > 0 && v == r + g * t
    ensures v % g == r % g
  {
    assert g * (r / g + t) == g * (r / g) + g * t;
    DivIs(v, g, r / g + t, r % g);
  }

  /** Every multiple of the stride is a natural multiple of n modulo 2^32. */
  lemma IndexOfMultiple(n: nat, g: nat, d: int) returns (i: nat, w: int)
    requires n > 0 && g == Stride(n)
    ensures n * i == g * d + U32 * w
  {
    hide Stride;
    var q, m, a, b := StrideParts(n);
    var z := a * d / U32;
    i, w := a * d % U32, b * d - n * z;
    assert a * d == U32 * z + i;
    Distribute(n, a, d, g, b, z, i);
  }

  lemma Distribute(n: int, a: int, d: int, g: int, b: int, z: int, i: int)
    requires n * a == g + U32 * b && a * d == U32 * z + i
    ensures n * i == g * d + U32 * (b * d - n * z)
  {
    assert n * (a * d) == (n * a) * d == (g + U32 * b) * d == g * d + U32 * (b * d);
    assert n * (U32 * z + i) == U32 * (n * z) + n * i;
  }

  /** The greatest value that the search runs through. */
  function LastValue(slot: nat, n: nat): int
    requires n > 0
  {
    U32 - Stride(n) + (slot + 1) % n % Stride(n)
  }

  /** The search for a slot never ends if and only if the active number is beyond the last value. */
  lemma SearchNeverEnds(seqNo: u32, slot: nat, n: nat)
    requires n > 0
    ensures NeverEnds(seqNo, slot, n) <==> seqNo > LastValue(slot, n)
  {
    hide Stride, SearchValue;
    var r, g := (slot + 1) % n, Stride(n);
    var q, m, a, b := StrideParts(n);
    var top := TopOfClass(r, g, m);
    SearchValues(slot, n, top);
    var i: nat :| SearchValue(slot, n, i) == top;
    forall j: nat ensures SearchValue(slot, n, j) <= top {
      SearchValues(slot, n, SearchValue(slot, n, j));
      BelowTop(SearchValue(slot, n, j), r, g, m);
    }
  }

  lemma TopOfClass(r: nat, g: nat, m: nat) returns (top: u32)
    requires g > 0 && U32 == g * m
    ensures top == U32 - g + r % g && top % g == r % g
  {
    assert m >= 1;
    MulGap(g, 1, m);
    top := U32 - g + r % g;
    assert top == g * (m - 1) + r % g;
    DivIs(top, g, m - 1, r % g);
  }

  lemma BelowTop(v: u32, r: nat, g: nat, m: nat)
    requires g > 0 && U32 == g * m && v % g == r % g
    ensures v <= U32 - g + r % g
  {
    assert v == g * (v / g) + v % g;
    MulGap(g, m, v / g);
    MulGap(g, v / g, m);
  }

  /** While 32 bits do not overflow, the search finds the next number. */
  lemma SearchWithoutOverflow(seqNo: u32, slot: nat, n: nat) returns (k: nat)
    requires n > 0 && NextSeq(seqNo, slot, n) < U32
    ensures EndsAt(seqNo, slot, n, k) && SearchValue(slot, n, k) == NextSeq(seqNo, slot, n)
  {
    k := NextSeqIndex(seqNo, slot, n);
    hide NextSeq, SearchValue;
    var r := (slot + 1) % n;
    forall j: nat | j <= k ensures SearchValue(slot, n, j) == r + n * j && (j < k ==> r + n * j < seqNo) {
      MulGap(n, j, k);
      MulGap(n, j, (k as int) - 1);
      ValueBelow(slot, n, j);
    }
  }

  lemma ValueBelow(slot: nat, n: nat, i: nat)
    requires n > 0 && (slot + 1) % n + n * i < U32
    ensures SearchValue(slot, n, i) == (slot + 1) % n + n * i
  {
  }

  lemma FindsOne(seqNo: u32, slot: nat, n: nat, v: u32)
    requires n > 0 && Finds(seqNo, slot, n, v)
    ensures !NeverEnds(seqNo, slot, n)
    ensures NextSeq(seqNo, slot, n) < U32 ==> v == NextSeq(seqNo, slot, n)
  {
    hide NextSeq, SearchValue;
    var i: nat :| EndsAt(seqNo, slot, n, i) && SearchValue(slot, n, i) == v;
    if NextSeq(seqNo, slot, n) < U32 {
      var k := SearchWithoutOverflow(seqNo, slot, n);
      assert i == k;
    }
  }

  /** If 32 bits do overflow and the search ends, it finds a number for another slot. */
  lemma WrapsToOtherSlot(seqNo: u32, slot: nat, n: nat, v: u32)
    requires 0 < n <= U32 && slot < n && NextSeq(seqNo, slot, n) >= U32 && Finds(seqNo, slot, n, v)
    ensures v > 0 && SlotOf(v, n) != slot
  {
    NextSeqIsNext(seqNo, slot, n);
    var i: nat :| EndsAt(seqNo, slot, n, i) && SearchValue(slot, n, i) == v;
    assert seqNo > 0 by {
      var k := NextSeqIndex(seqNo, slot, n);
    }
    SlotOfIs(v, slot, n);
  }

  /** That can happen: of 7 slots, slot 3 is asked for, and slot 6 gets the number. */
  lemma WrapHappens()
    ensures NextSeq(0xFFFF_FFFB, 3, 7) >= U32 && Finds(0xFFFF_FFFB, 3, 7, 0xFFFF_FFFC) && SlotOf(0xFFFF_FFFC, 7) == 6
  {
    var wrap := 613566756;
    assert 4 + 7 * wrap == U32;
    forall j: nat | j <= 2 * wrap
      ensures SearchValue(3, 7, j) == if j < wrap then 4 + 7 * j else 7 * (j - wrap)
    {
      if j < wrap {
        DivIs(4 + 7 * j, U32, 0, 4 + 7 * j);
      } else {
        DivIs(4 + 7 * j, U32, 1, 7 * (j - wrap));
      }
    }
    assert EndsAt(0xFFFF_FFFB, 3, 7, 2 * wrap);
  }

  /** The search loop of esp_rewrite_ota_data. None stands for a loop that never ends. */
  method Search(seqNo: u32, slot: nat, n: nat) returns (v: Option<u32>)
    requires n > 0
    ensures v.None? <==> seqNo > LastValue(slot, n)
    ensures v.Some? ==> Finds(seqNo, slot, n, v.value)
    ensures NextSeq(seqNo, slot, n) < U32 ==> v == Some(NextSeq(seqNo, slot, n))
  {
    hide NextSeq, SearchValue, LastValue;
    SearchNeverEnds(seqNo, slot, n);
    var i := 0;
    while i < U32 && seqNo > SearchValue(slot, n, i)
      invariant 0 <= i <= U32 && forall j: nat | j < i :: SearchValue(slot, n, j) < seqNo
    {
      i := i + 1;
    }
    if i == U32 {
      forall j: nat ensures SearchValue(slot, n, j) < seqNo {
        SearchPeriod(slot, n, j);
      }
      if NextSeq(seqNo, slot, n) < U32 {
        var k := SearchWithoutOverflow(seqNo, slot, n);
      }
      return None;
    }
    assert EndsAt(seqNo, slot, n, i);
    v := Some(SearchValue(slot, n, i));
    FindsOne(seqNo, slot, n, v.value);
  }

  // ---------------------------------------------------------------- setting the boot partition

  function SubTypeId(subtype: nat): nat {
    subtype % 16
  }

  /** set_new_state_otadata */
  function NewState(rollback: bool): u32 {
    if rollback then IMG_NEW else IMG_UNDEFINED
  }

  /** v is the sequence number that esp_rewrite_ota_data writes for a slot. */
  ghost predicate Chosen(crc: Crc, n: nat, d: Otadata, slot: nat, v: u32)
    requires n > 0
  {
    match Active(crc, d)
    case Some(a) => Finds(d.At(a).seqNo, slot, n, v)
    case None => v == slot + 1
  }

  /** The call for a slot does not return. */
  predicate Hangs(crc: Crc, n: nat, d: Otadata, slot: nat)
    requires n > 0
  {
    Active(crc, d).Some? && d.At(Active(crc, d).value).seqNo > LastValue(slot, n)
  }

  /** The sector and, where 32 bits do not overflow, the sequence number that esp_rewrite_ota_data writes for a slot. */
  function Target(crc: Crc, n: nat, d: Otadata, slot: nat): (t: (nat, nat))
    requires n > 0
    ensures t.0 < 2
  {
    match Active(crc, d)
    case Some(a) => (1 - a, NextSeq(d.At(a).seqNo, slot, n))
    case None => (0, slot + 1)
  }

  /** `Hanging` stands for a call that does not return. */
  datatype SetResult = Done | InvalidArg | NotFound | ValidateFailed | Hanging

  /** The otadata partition. */
  class BootConfig {
    var otadata: Otadata
    const apps: Apps
    const hasOtadata: bool
    const rollback: bool
    /** What the partition has held after each flash operation. */
    ghost var history: seq<Otadata>

    constructor (d: Otadata, apps: Apps, hasOtadata: bool, rollback: bool)
      ensures otadata == d && this.apps == apps && this.hasOtadata == hasOtadata && this.rollback == rollback
      ensures history == [d]
    {
      otadata, this.apps, this.hasOtadata, this.rollback := d, apps, hasOtadata, rollback;
      history := [d];
    }

    method EraseSector(sec: nat)
      requires sec < 2
      modifies this
      ensures otadata == old(otadata).With(sec, ERASED) && history == old(history) + [otadata]
    {
      otadata := otadata.With(sec, ERASED);
      history := history + [otadata];
    }

    method WriteRecord(sec: nat, e: Entry)
      requires sec < 2
      modifies this
      ensures otadata == old(otadata).With(sec, e) && history == old(history) + [otadata]
    {
      otadata := otadata.With(sec, e);
      history := history + [otadata];
    }

    /** rewrite_ota_seq: erases the sector of one record, then writes the record. */
    method RewriteOtaSeq(crc: Crc, state: u32, seqNo: u32, sec: nat)
      requires sec < 2
      modifies this
      ensures otadata == old(otadata).With(sec, Record(crc, seqNo, state))
      ensures history == old(history) + [old(otadata).With(sec, ERASED), otadata]
    {
      EraseSector(sec);
      WriteRecord(sec, Record(crc, seqNo, state));
    }

    /** What a successful esp_rewrite_ota_data has done to the records d. */
    ghost predicate Rewritten(crc: Crc, n: nat, d: Otadata, slot: nat)
      requires n > 0
      reads this
    {
      && (exists v: u32 :: Chosen(crc, n, d, slot, v)
                           && otadata == d.With(Target(crc, n, d, slot).0, Record(crc, v, NewState(rollback))))
      && (var t := Target(crc, n, d, slot);
          t.1 < U32 ==> otadata == d.With(t.0, Record(crc, t.1, NewState(rollback))))
    }

    /** Every outcome of a request to boot OTA slot x when the records were d and the flash history h. */
    ghost predicate SetTo(crc: Crc, n: nat, d: Otadata, h: seq<Otadata>, x: nat, r: SetResult)
      reads this
    {
      && (r == if x >= n then InvalidArg else if Hangs(crc, n, d, x) then Hanging else Done)
      && (r != Done ==> otadata == d && history == h)
      && (r == Done ==>
            var sec := if Active(crc, d) == Some(0) then 1 else 0;
            var e := otadata.At(sec);
            && otadata.At(1 - sec) == d.At(1 - sec)
            && e.state == (if rollback then 0 else 0xFFFF_FFFF) && e.crc == crc(e.seqNo)
            && (match Active(crc, d)
                case Some(a) => Finds(d.At(a).seqNo, x, n, e.seqNo)
                case None => e.seqNo == x + 1)
            && (Target(crc, n, d, x).1 < U32 ==> e.seqNo == Target(crc, n, d, x).1)
            && history == h + [d.With(sec, ERASED), otadata])
      && (r == Done && n <= 16 && HasSlots(apps, n) ==>
            (GetBoot(crc, apps, n, otadata) == Some(OTA_MIN + x) <==> Bootable(Target(crc, n, d, x).1, n)))
    }

    lemma RefusedIsSet(crc: Crc, n: nat, d: Otadata, h: seq<Otadata>, x: nat, r: SetResult)
      requires otadata == d && history == h && r != Done
      requires r == if x >= n then InvalidArg else if Hangs(crc, n, d, x) then Hanging else Done
      ensures SetTo(crc, n, d, h, x, r)
    {
    }

    lemma RewrittenIsSet(crc: Crc, n: nat, d: Otadata, h: seq<Otadata>, x: nat)
      requires n > 0 && x < n && x < 16 && !Hangs(crc, n, d, x) && Rewritten(crc, n, d, x)
      requires history == h + [d.With(Target(crc, n, d, x).0, ERASED), otadata]
      ensures SetTo(crc, n, d, h, x, Done)
    {
      hide NextSeq, Finds, LastValue, GetBoot, HasSlots;
      var t := Target(crc, n, d, x);
      if n <= 16 && HasSlots(apps, n) {
        var v: u32 :| Chosen(crc, n, d, x, v) && otadata == d.With(t.0, Record(crc, v, NewState(rollback)));
        SetThenBoot(crc, apps, n, d, x, v, rollback);
      }
    }

    /** esp_rewrite_ota_data, for n OTA slots. */
    method RewriteOtaData(crc: Crc, n: nat, subtype: nat) returns (r: SetResult)
      modifies this
      ensures var slot := SubTypeId(subtype);
              r == if !hasOtadata then NotFound else if slot >= n then InvalidArg
                   else if Hangs(crc, n, old(otadata), slot) then Hanging else Done
      ensures r == Done ==> Rewritten(crc, n, old(otadata), SubTypeId(subtype))
      ensures r == Done ==> history == old(history)
                              + [old(otadata).With(Target(crc, n, old(otadata), SubTypeId(subtype)).0, ERASED), otadata]
      ensures r != Done ==> otadata == old(otadata) && history == old(history)
      // For the slots ota_0 to ota_15, and for the test partition, which is taken for ota_0.
      ensures hasOtadata && 0x10 <= subtype < 0x20 ==> SetTo(crc, n, old(otadata), old(history), subtype - 0x10, r)
      ensures hasOtadata && subtype == 0x20 ==> SetTo(crc, n, old(otadata), old(history), 0, r)
    {
      hide NextSeq, Finds, LastValue, Active, GetBoot, HasSlots, SetTo, Rewritten, Hangs;
      if !hasOtadata {
        return NotFound;
      }
      ghost var d, h := otadata, history;
      if SubTypeId(subtype) >= n {
        RefusedIsSet(crc, n, d, h, SubTypeId(subtype), InvalidArg);
        return InvalidArg;
      }
      HangsIs(crc, n, d, SubTypeId(subtype));
      ghost var number: u32;
      match Active(crc, otadata) {
        case Some(a) =>
          var v := Search(otadata.At(a).seqNo, SubTypeId(subtype), n);
          if v.None? {
            RefusedIsSet(crc, n, d, h, SubTypeId(subtype), Hanging);
            return Hanging;
          }
          RewriteOtaSeq(crc, NewState(rollback), v.value, 1 - a);
          number := v.value;
        case None =>
          RewriteOtaSeq(crc, NewState(rollback), SubTypeId(subtype) + 1, 0);
          number := SubTypeId(subtype) + 1;
      }
      r := Done;
      NumberIsRewritten(crc, n, d, SubTypeId(subtype), number);
      RewrittenIsSet(crc, n, d, h, SubTypeId(subtype));
    }

    lemma HangsIs(crc: Crc, n: nat, d: Otadata, slot: nat)
      requires n > 0
      ensures Hangs(crc, n, d, slot) <==> Active(crc, d).Some? && d.At(Active(crc, d).value).seqNo > LastValue(slot, n)
    {
    }

    lemma NumberIsRewritten(crc: Crc, n: nat, d: Otadata, slot: nat, v: u32)
      requires n > 0 && Chosen(crc, n, d, slot, v)
      requires otadata == d.With(Target(crc, n, d, slot).0, Record(crc, v, NewState(rollback)))
      ensures Rewritten(crc, n, d, slot)
    {
      hide NextSeq, Finds, Active;
      if Active(crc, d).Some? {
        FindsOne(d.At(Active(crc, d).value).seqNo, slot, n, v);
      }
    }

    /** esp_ota_set_boot_partition for an app partition, whose image has been verified or not. */
    method SetBootPartition(crc: Crc, n: nat, subtype: nat, verified: bool) returns (r: SetResult)
      modifies this
      ensures r == if !verified then ValidateFailed else if !hasOtadata then NotFound else if subtype == FACTORY then Done
                   else if SubTypeId(subtype) >= n then InvalidArg
                   else if Hangs(crc, n, old(otadata), SubTypeId(subtype)) then Hanging else Done
      ensures r == Done && subtype == FACTORY ==>
                otadata == Otadata(ERASED, ERASED) && history == old(history) + [otadata]
      ensures r == Done && subtype != FACTORY ==> n > 0 && Rewritten(crc, n, old(otadata), SubTypeId(subtype))
      ensures r != Done ==> otadata == old(otadata) && history == old(history)
      // For the slots ota_0 to ota_15, and for the test partition, which is taken for ota_0.
      ensures verified && hasOtadata && 0x10 <= subtype < 0x20 ==>
                SetTo(crc, n, old(otadata), old(history), subtype - 0x10, r)
      ensures verified && hasOtadata && subtype == 0x20 ==> SetTo(crc, n, old(otadata), old(history), 0, r)
      // What boots afterwards.
      ensures r == Done && subtype == FACTORY && FACTORY in apps ==> GetBoot(crc, apps, n, otadata) == Some(FACTORY)
      ensures r == Done && subtype != FACTORY && n <= 16 && HasSlots(apps, n) ==>
                var slot := SubTypeId(subtype);
                GetBoot(crc, apps, n, otadata) == Some(OTA_MIN + slot)
                <==> Bootable(Target(crc, n, old(otadata), slot).1, n)
    {
      if !verified {
        return ValidateFailed;
      }
      if subtype == FACTORY {
        if !hasOtadata {
          return NotFound;
        }
        otadata := Otadata(ERASED, ERASED);
        history := history + [otadata];
        return Done;
      }
      ghost var d, slot := otadata, SubTypeId(subtype);
      r := RewriteOtaData(crc, n, subtype);
      if r == Done && n <= 16 && HasSlots(apps, n) {
        var v: u32 :| Chosen(crc, n, d, slot, v)
                      && otadata == d.With(Target(crc, n, d, slot).0, Record(crc, v, NewState(rollback)));
        SetThenBoot(crc, apps, n, d, slot, v, rollback);
      }
    }
  }

  // ---------------------------------------------------------------- round trips

  /** The record that a slot's number gives boots the slot: not for UINT32_MAX, and for 0 only if 2^32 - 1 does. */
  predicate Bootable(t: nat, n: nat)
    requires n > 0
  {
    t < MAX32 && (t == 0 ==> MAX32 % n == n - 1)
  }

  /**
     Writing a record over the inactive one (or the first, if none is active): a valid record with the
     greatest number decides afterwards; anything else leaves the active record in charge.
   */
  lemma ActiveAfterWrite(crc: Crc, d: Otadata, e: Entry)
    ensures var a := Active(crc, d);
            var d' := d.With(if a.Some? then 1 - a.value else 0, e);
            var a' := Active(crc, d');
            && (SelectValid(crc, e) && (a.Some? ==> d.At(a.value).seqNo <= e.seqNo) ==>
                a'.Some? && d'.At(a'.value).seqNo == e.seqNo)
            && (!SelectValid(crc, e) ==> a' == a && (a.Some? ==> d'.At(a.value) == d.At(a.value)))
  {
  }

  /** Boot is decided by the active record alone, if there is one. */
  lemma BootOfActive(crc: Crc, apps: Apps, n: nat, d: Otadata)
    requires n > 0 && HasSlots(apps, n)
    ensures var a := Active(crc, d);
            GetBoot(crc, apps, n, d) ==
              if a.Some? then Some(OTA_MIN + SlotOf(d.At(a.value).seqNo, n)) else DefaultBoot(apps)
  {
  }

  lemma TargetSlot(lo: u32, x: nat, n: nat)
    requires 0 < n && x < n && NextSeq(lo, x, n) < U32
    ensures var t := NextSeq(lo, x, n);
            && lo <= t
            && (t > 0 ==> SlotOf(t, n) == x)
            && (t == 0 ==> lo == 0 && x == n - 1)
            && (t > lo > 0 ==> SlotOf(lo, n) != x)
  {
    NextSeqIsNext(lo, x, n);
    var t := NextSeq(lo, x, n);
    if t > 0 {
      SlotOfIs(t, x, n);
    } else {
      assert (x + 1) % n == 0;
      if x + 1 < n {
        DivIs(x + 1, n, 0, x + 1);
      }
    }
    if t > lo > 0 {
      SlotOfIs(lo, x, n);
    }
  }

  /** Overflow or not: boot selects the slot that the number written decodes to, and nothing changes for UINT32_MAX. */
  lemma ChosenBoots(crc: Crc, apps: Apps, n: nat, d: Otadata, x: nat, v: u32, rollback: bool)
    requires 0 < n <= 16 && x < n && HasSlots(apps, n) && Chosen(crc, n, d, x, v)
    ensures var d' := d.With(Target(crc, n, d, x).0, Record(crc, v, NewState(rollback)));
            GetBoot(crc, apps, n, d') == if v < MAX32 then Some(OTA_MIN + SlotOf(v, n)) else GetBoot(crc, apps, n, d)
  {
    var e := Record(crc, v, NewState(rollback));
    var a := Active(crc, d);
    if a.Some? {
      var i: nat :| EndsAt(d.At(a.value).seqNo, x, n, i) && SearchValue(x, n, i) == v;
    }
    ActiveAfterWrite(crc, d, e);
    BootOfActive(crc, apps, n, d);
    BootOfActive(crc, apps, n, d.With(Target(crc, n, d, x).0, e));
    hide NextSeq, Active, GetBoot, SlotOf;
    assert SelectValid(crc, e) <==> v != MAX32;
  }

  /**
     After a call that sets OTA slot x and returns, boot selects slot x exactly when the next sequence number,
     computed without wrapping, is bootable.
   */
  lemma SetThenBoot(crc: Crc, apps: Apps, n: nat, d: Otadata, x: nat, v: u32, rollback: bool)
    requires 0 < n <= 16 && x < n && HasSlots(apps, n) && Chosen(crc, n, d, x, v)
    ensures var t := Target(crc, n, d, x);
            var d' := d.With(t.0, Record(crc, v, NewState(rollback)));
            GetBoot(crc, apps, n, d') == Some(OTA_MIN + x) <==> Bootable(t.1, n)
  {
    var t, a := Target(crc, n, d, x), Active(crc, d);
    ChosenBoots(crc, apps, n, d, x, v, rollback);
    BootOfActive(crc, apps, n, d);
    if a.Some? {
      ChosenSlot(d.At(a.value).seqNo, x, n, v);
    } else {
      DivIs(x, n, 0, x);
    }
  }

  /** What the number found means for slot x: it decodes to x, or it is UINT32_MAX and the old number does. */
  lemma ChosenSlot(lo: u32, x: nat, n: nat, v: u32)
    requires 0 < n <= 16 && x < n && lo < MAX32 && Finds(lo, x, n, v)
    ensures SlotOf(if v < MAX32 then v else lo, n) == x <==> Bootable(NextSeq(lo, x, n), n)
  {
    var t := NextSeq(lo, x, n);
    FindsOne(lo, x, n, v);
    NextSeqIsNext(lo, x, n);
    if lo > 0 {
      SlotOfIs(lo, x, n);
    }
    if t < U32 {
      TargetSlot(lo, x, n);
    } else {
      WrapsToOtherSlot(lo, x, n, v);
    }
  }

  /** The test partition is mistaken for slot 0: setting it writes what setting ota_0 writes. */
  lemma SetTestBootsSlot0(crc: Crc, apps: Apps, n: nat, d: Otadata, v: u32, rollback: bool)
    requires 0 < n <= 16 && HasSlots(apps, n) && Chosen(crc, n, d, SubTypeId(TEST), v)
    ensures var t := Target(crc, n, d, SubTypeId(TEST));
            GetBoot(crc, apps, n, d.With(t.0, Record(crc, v, NewState(rollback)))) == Some(OTA_MIN) <==> Bootable(t.1, n)
  {
    SetThenBoot(crc, apps, n, d, 0, v, rollback);
  }

  /**
     What flash can hold if power fails during RewriteOtaSeq: the old record, an erased sector, a torn
     record, which is one that is not valid, or the new record.
   */
  predicate CanBeLeft(crc: Crc, d: Otadata, sec: nat, e: Entry, left: Otadata)
    requires sec < 2
  {
    || left == d
    || left == d.With(sec, ERASED)
    || (left == d.With(sec, left.At(sec)) && !SelectValid(crc, left.At(sec)))
    || left == d.With(sec, e)
  }

  /**
     Switching between OTA slots survives a power failure at any point: a valid record remains, and boot
     selects the previous slot or the one that the number written decodes to, which is the requested one as long
     as 32 bits do not overflow.
   */
  lemma SwitchSurvivesPowerLoss(crc: Crc, apps: Apps, n: nat, d: Otadata, x: nat, v: u32, rollback: bool, left: Otadata)
    requires 0 < n <= 16 && x < n && HasSlots(apps, n) && Active(crc, d).Some? && Chosen(crc, n, d, x, v)
    requires CanBeLeft(crc, d, Target(crc, n, d, x).0, Record(crc, v, NewState(rollback)), left)
    ensures Active(crc, left).Some?
    ensures GetBoot(crc, apps, n, left) in {GetBoot(crc, apps, n, d), Some(OTA_MIN + SlotOf(v, n))}
    ensures Target(crc, n, d, x).1 < U32 ==> GetBoot(crc, apps, n, left) in {GetBoot(crc, apps, n, d), Some(OTA_MIN + x)}
  {
    var t, a := Target(crc, n, d, x), Active(crc, d).value;
    var lo, e := d.At(a).seqNo, Record(crc, v, NewState(rollback));
    ActiveAfterWrite(crc, d, left.At(t.0));
    ActiveAfterWrite(crc, d, e);
    BootOfActive(crc, apps, n, d);
    BootOfActive(crc, apps, n, left);
    var i: nat :| EndsAt(lo, x, n, i) && SearchValue(x, n, i) == v;
    if t.1 < U32 {
      FindsOne(lo, x, n, v);
      TargetSlot(lo, x, n);
    }
    hide NextSeq, Active, GetBoot, SlotOf;
    assert SelectValid(crc, e) <==> v != MAX32;
    assert !SelectValid(crc, ERASED);
  }

  // ---------------------------------------------------------------- the host tool

  /** is_otadata_info_valid, which does not look at the state of a record. */
  predicate HostValid(crc: Crc, e: Entry) {
    e.seqNo < MAX32 && e.crc == crc(e.seqNo)
  }

  /** The record that otatool.py computes the next sequence number from. */
  function HostBase(crc: Crc, d: Otadata): Option<nat> {
    if HostValid(crc, d.first) && HostValid(crc, d.second) then
      Some(if d.first.seqNo >= d.second.seqNo then 0 else 1)
    else if HostValid(crc, d.first) then Some(0)
    else if HostValid(crc, d.second) then Some(1)
    else None
  }

  /** The sector and the sequence number that switch_ota_partition writes; Python integers are unbounded. */
  function HostTarget(crc: Crc, n: nat, d: Otadata, slot: nat): (nat, nat)
    requires n > 0
  {
    match HostBase(crc, d)
    case Some(b) => (1 - b, NextSeq(d.At(b).seqNo, slot, n))
    case None => (0, slot + 1)
  }

  /** The host tool keeps the state field of the record it overwrites. */
  function HostWrite(crc: Crc, d: Otadata, sec: nat, seqNo: u32): Otadata
    requires sec < 2
  {
    d.With(sec, Record(crc, seqNo, d.At(sec).state))
  }

  /** Host and device start from the same record exactly when the host's choice is not marked invalid or aborted. */
  lemma TwinsAgree(crc: Crc, n: nat, d: Otadata, x: nat)
    requires n > 0
    ensures HostBase(crc, d) == Active(crc, d) <==> HostBase(crc, d).None? || !SelectInvalid(d.At(HostBase(crc, d).value))
    ensures HostBase(crc, d) == Active(crc, d) ==> HostTarget(crc, n, d, x) == Target(crc, n, d, x)
    ensures !SelectInvalid(d.first) && !SelectInvalid(d.second) ==> HostTarget(crc, n, d, x) == Target(crc, n, d, x)
  {
  }

  /**
     A record marked invalid with the greater number makes them differ: of 2 slots, the device goes from
     slot 0 to slot 1 by writing number 2 to the second sector, the host by writing 6 to the first.
   */
  lemma TwinsDiffer(crc: Crc)
    ensures var d := Otadata(Record(crc, 1, IMG_UNDEFINED), Record(crc, 5, IMG_INVALID));
            Target(crc, 2, d, 1) == (1, 2) && HostTarget(crc, 2, d, 1) == (0, 6)
  {
  }

  /** What boots if the record that the host starts from is the only one. */
  function BaseBoot(crc: Crc, apps: Apps, n: nat, d: Otadata): Option<nat>
    requires n > 0
  {
    match HostBase(crc, d)
    case Some(b) => if SelectInvalid(d.At(b)) then DefaultBoot(apps) else Some(OTA_MIN + SlotOf(d.At(b).seqNo, n))
    case None => DefaultBoot(apps)
  }

  /**
     Exactly when the host's write boots slot x: if the record it overwrites was not marked invalid or aborted and
     the number is not UINT32_MAX, when the number is bootable; otherwise what was written does not count.
   */
  lemma HostSwitchBoots(crc: Crc, apps: Apps, n: nat, d: Otadata, x: nat)
    requires 0 < n <= 16 && x < n && HasSlots(apps, n) && HostTarget(crc, n, d, x).1 < U32
    ensures var t := HostTarget(crc, n, d, x); var state := d.At(t.0).state;
            var boot := GetBoot(crc, apps, n, HostWrite(crc, d, t.0, t.1));
            if state == IMG_INVALID || state == IMG_ABORTED || t.1 == MAX32 then boot == BaseBoot(crc, apps, n, d)
            else boot == Some(OTA_MIN + x) <==> Bootable(t.1, n)
  {
    var t, b := HostTarget(crc, n, d, x), HostBase(crc, d);
    var e := Record(crc, t.1, d.At(t.0).state);
    BootOfActive(crc, apps, n, d.With(t.0, e));
    if b.Some? {
      TargetSlot(d.At(b.value).seqNo, x, n);
    } else {
      DivIs(x, n, 0, x);
    }
    hide NextSeq, GetBoot, SlotOf;
    assert SelectValid(crc, e) <==> e.state != IMG_INVALID && e.state != IMG_ABORTED && t.1 != MAX32;
  }

  /** switch_ota_partition. It raises an exception (None) for a missing slot and for a number beyond 32 bits. */
  method SwitchOtaPartition(crc: Crc, apps: Apps, d: Otadata, slot: nat) returns (n: nat, r: Option<Otadata>)
    ensures n <= 16 && (forall s | OTA_MIN <= s < OTA_MIN + n :: s in apps) && (n < 16 ==> OTA_MIN + n !in apps)
    ensures r.Some? <==> slot < n && HostTarget(crc, n, d, slot).1 < U32
    ensures r.Some? ==> var t := HostTarget(crc, n, d, slot); r.value == HostWrite(crc, d, t.0, t.1)
  {
    n := 0;
    while n < 16 && OTA_MIN + n in apps
      invariant n <= 16 && forall s | OTA_MIN <= s < OTA_MIN + n :: s in apps
    {
      n := n + 1;
    }
    if slot >= n {
      return n, None;
    }
    var base, v := HostBase(crc, d), slot + 1;
    if base.Some? {
      v := FindNextSeq(d.At(base.value).seqNo, slot, n);
    }
    r := if v < U32 then Some(HostWrite(crc, d, if base == Some(0) then 1 else 0, v)) else None;
  }
}
