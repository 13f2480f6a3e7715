/**
 The DFU image writer of tools/mkdfu.py: a cpio archive in the "new ASCII" (newc) format with an index
 file in front, padded, and followed by the DFU suffix. Names and data are bytes; MD5 and CRC-32 are
 parameters.
 */
module DfuArchive {
  import opened Common

  type bytes = seq<byte>

  const NUL: byte := 0
  /** "070701" */
  const CPIO_MAGIC: bytes := [48, 55, 48, 55, 48, 49]
  /** "TRAILER!!!" */
  const CPIO_TRAILER: bytes := [84, 82, 65, 73, 76, 69, 82, 33, 33, 33]
  /** "dfuinfo0.dat" */
  const DFUINFO_FILE: bytes := [100, 102, 117, 105, 110, 102, 111, 48, 46, 100, 97, 116]
  const HEADER_SIZE: nat := 110
  const CPIO_BLOCK: nat := 10240

  // ---------------------------------------------------------------- hexadecimal fields

  /** Lower-case digits. */
  function HexDigit(d: nat): (c: byte)
    requires d < 16
    ensures DigitValue(c) == Some(d) && !(65 <= c <= 90)
  {
    if d < 10 then 48 + d else 87 + d
  }

  /** The last `width` hexadecimal digits of v. */
  function HexDigits(v: nat, width: nat): (s: bytes)
    ensures |s| == width
  {
    if width == 0 then [] else HexDigits(v / 16, width - 1) + [HexDigit(v % 16)]
  }

  function HexLength(v: nat): nat {
    if v < 16 then 1 else 1 + HexLength(v / 16)
  }

  /** `'{:08x}'.format(v)`: eight digits, or more if they are needed. */
  function AsHex(v: nat): (s: bytes)
    ensures |s| >= 8
  {
    HexDigits(v, Max(8, HexLength(v)))
  }

  /** A field of struct format `8s`, which cuts longer strings. */
  function HexField(v: nat): (s: bytes)
    ensures |s| == 8
  {
    AsHex(v)[..8]
  }

  function DigitValue(c: byte): Option<nat> {
    if 48 <= c <= 57 then Some(c - 48)
    else if 97 <= c <= 102 then Some(c - 87)
    else if 65 <= c <= 70 then Some(c - 55)
    else None
  }

  function ParseHex(s: bytes): Option<nat> {
    if s == [] then Some(0)
    else
      match (ParseHex(s[..|s| - 1]), DigitValue(s[|s| - 1]))
      case (Some(v), Some(d)) => Some(16 * v + d)
      case _ => None
  }

  function Pow16(n: nat): (p: nat)
    ensures p > 0
  {
    if n == 0 then 1 else 16 * Pow16(n - 1)
  }

  lemma HexStep(v: nat, p: nat)
    requires p > 0
    ensures v % (16 * p) == 16 * ((v / 16) % p) + v % 16
  {
    var a, b, d := (v / 16) / p, (v / 16) % p, v % 16;
    assert v == 16 * (p * a + b) + d;
    assert 16 * (p * a) == (16 * p) * a;
    DivIs(v, 16 * p, a, 16 * b + d);
  }

  lemma {:induction false} HexDigitsParse(v: nat, width: nat)
    ensures ParseHex(HexDigits(v, width)) == Some(v % Pow16(width))
    decreases width
  {
    if width > 0 {
      var s := HexDigits(v, width);
      assert s[..|s| - 1] == HexDigits(v / 16, width - 1);
      HexDigitsParse(v / 16, width - 1);
      HexStep(v, Pow16(width - 1));
    }
  }

  lemma {:induction false} HexLengthBound(v: nat, n: nat)
    requires n > 0
    ensures v < Pow16(n) <==> HexLength(v) <= n
    decreases n
  {
    if n == 1 {
      assert Pow16(1) == 16 * Pow16(0) == 16;
      if v >= 16 {
        assert HexLength(v / 16) >= 1;
      }
    } else if v >= 16 {
      HexLengthBound(v / 16, n - 1);
      assert v < 16 * Pow16(n - 1) <==> v / 16 < Pow16(n - 1);
    } else {
      assert Pow16(n - 1) >= 1;
    }
  }

  lemma Pow16Of8()
    ensures Pow16(8) == U32
  {
    assert Pow16(2) == 256 && Pow16(4) == 65536 && Pow16(6) == 65536 * 256;
  }

  /** The fixed-width field decodes to the number exactly if the number is below 2^32. */
  lemma HexFieldParse(v: nat)
    ensures ParseHex(HexField(v)) == Some(v) <==> v < U32
  {
    Pow16Of8();
    hide Pow16, HexDigits, HexLength, ParseHex;
    HexLengthBound(v, 8);
    if v < U32 {
      HexDigitsParse(v, 8);
      assert v % U32 == v;
      assert AsHex(v)[..8] == AsHex(v);
    } else {
      var n := HexLength(v);
      HexPrefix(v, n, 8);
      HexDigitsParse(HexShift(v, n - 8), 8);
    }
  }

  /** v without its last k digits. */
  function HexShift(v: nat, k: nat): nat {
    if k == 0 then v else HexShift(v / 16, k - 1)
  }

  lemma {:induction false} HexPrefix(v: nat, n: nat, k: nat)
    requires k <= n
    ensures HexDigits(v, n)[..k] == HexDigits(HexShift(v, n - k), k)
    decreases n
  {
    if n == k {
      assert HexDigits(v, n)[..k] == HexDigits(v, n);
    } else {
      HexPrefix(v / 16, n - 1, k);
      assert HexDigits(v, n)[..k] == HexDigits(v / 16, n - 1)[..k];
    }
  }

  // ---------------------------------------------------------------- cpio entries

  datatype File = File(name: bytes, data: bytes)

  function Zeros(n: nat): (s: bytes)
    ensures |s| == n
  {
    seq(n, _ => NUL)
  }

  /** The next multiple of m. */
  function RoundUp(n: nat, m: nat): (r: nat)
    requires m > 0
    ensures n <= r < n + m && r % m == 0
  {
    DivIs((n + m - 1) / m * m, m, (n + m - 1) / m, 0);
    (n + m - 1) / m * m
  }

  /** pad_bytes */
  function PadBytes(b: bytes, m: nat): (r: bytes)
    requires m > 0
    ensures |r| == RoundUp(|b|, m) && b <= r
  {
    b + Zeros(RoundUp(|b|, m) - |b|)
  }

  lemma PaddingIsZero(b: bytes, m: nat)
    requires m > 0
    ensures forall i | |b| <= i < |PadBytes(b, m)| :: PadBytes(b, m)[i] == 0
  {
  }

  /**
     The numbers of a header: inode, mode, user, group, links, time, file size, four device numbers, name size and
     checksum. Files are regular and readable by all; the trailer alone has a link.
   */
  function HeaderValues(nameLen: nat, fileLen: nat, trailer: bool): (v: seq<nat>)
    ensures |v| == 13
  {
    var mode, nlink := if trailer then 0 else 0x81A4, if trailer then 1 else 0;
    [0, mode, 0, 0, nlink, 0, fileLen, 0, 0, 0, 0, nameLen, 0]
  }

  function HexFields(values: seq<nat>): (s: bytes)
    ensures |s| == 8 * |values|
  {
    if values == [] then [] else HexField(values[0]) + HexFields(values[1..])
  }

  /** make_cpio_header, packed. */
  function CpioHeader(nameLen: nat, fileLen: nat, trailer: bool): (h: bytes)
    ensures |h| == HEADER_SIZE
  {
    CPIO_MAGIC + HexFields(HeaderValues(nameLen, fileLen, trailer))
  }

  lemma {:induction false} FieldAt(values: seq<nat>, k: nat)
    requires k < |values|
    ensures HexFields(values)[8 * k..8 * k + 8] == HexField(values[k])
    decreases k
  {
    hide HexField;
    if k > 0 {
      FieldAt(values[1..], k - 1);
      var s, rest := HexFields(values), HexFields(values[1..]);
      assert s[8 * k..8 * k + 8] == rest[8 * (k - 1)..8 * (k - 1) + 8];
    }
  }

  /** Field k behind the six bytes of the magic number. */
  function Field(h: bytes, k: nat): bytes
    requires 14 + 8 * k <= |h|
  {
    h[6 + 8 * k..14 + 8 * k]
  }

  lemma FieldBehind(magic: bytes, fields: bytes, k: nat)
    requires |magic| == 6 && 8 * k + 8 <= |fields|
    ensures (magic + fields)[..6] == magic && Field(magic + fields, k) == fields[8 * k..8 * k + 8]
  {
  }

  lemma HeaderField(nameLen: nat, fileLen: nat, trailer: bool, k: nat)
    requires k < 13
    ensures var h := CpioHeader(nameLen, fileLen, trailer);
            h[..6] == CPIO_MAGIC && Field(h, k) == HexField(HeaderValues(nameLen, fileLen, trailer)[k])
  {
    var values := HeaderValues(nameLen, fileLen, trailer);
    FieldAt(values, k);
    FieldBehind(CPIO_MAGIC, HexFields(values), k);
    hide HexField, HexFields, HeaderValues, Field;
  }

  /** What a reader finds in the header: every number but the mode, the links and the two sizes is 0. */
  lemma HeaderRead(nameLen: nat, fileLen: nat, trailer: bool, k: nat)
    requires k < 13 && nameLen < U32 && fileLen < U32
    ensures ParseHex(Field(CpioHeader(nameLen, fileLen, trailer), k)) == Some(
              if k == 1 && !trailer then 0x81A4 else if k == 4 && trailer then 1
              else if k == 6 then fileLen else if k == 11 then nameLen else 0)
  {
    HeaderField(nameLen, fileLen, trailer, k);
    HexFieldParse(HeaderValues(nameLen, fileLen, trailer)[k]);
    hide HexField, CpioHeader, ParseHex, Field;
  }

  /** What _add_cpio_entry appends for one file. */
  function EntryBytes(f: File, trailer: bool): bytes {
    PadBytes(CpioHeader(|f.name| + 1, |f.data|, trailer) + f.name + [NUL], 4) + PadBytes(f.data, 4)
  }

  /** Reads one newc entry and tells its length: header, name and NUL, padding, data, padding. */
  function ParseEntry(b: bytes): (r: Option<(File, nat)>)
    ensures r.Some? ==> HEADER_SIZE < r.value.1 <= |b|
  {
    if |b| < HEADER_SIZE || b[..6] != CPIO_MAGIC then None
    else
      match (ParseHex(b[94..102]), ParseHex(b[54..62]))
      case (Some(nameLen), Some(fileLen)) =>
        var start := RoundUp(HEADER_SIZE + nameLen, 4);
        var end := start + RoundUp(fileLen, 4);
        if nameLen == 0 || |b| < end || b[HEADER_SIZE + nameLen - 1] != NUL then None
        else Some((File(b[HEADER_SIZE..HEADER_SIZE + nameLen - 1], b[start..start + fileLen]), end))
      case _ => None
  }

  /** Reads entries up to the trailer. */
  function ParseArchive(b: bytes): Option<seq<File>>
    decreases |b|
  {
    match ParseEntry(b)
    case None => None
    case Some((f, n)) =>
      if f.name == CPIO_TRAILER then Some([])
      else
        match ParseArchive(b[n..])
        case None => None
        case Some(files) => Some([f] + files)
  }

  /** The sizes of a file fit the fields of the header. */
  predicate Fits(f: File) {
    |f.name| + 1 < U32 && |f.data| < U32
  }

  lemma PrefixSlice(a: bytes, b: bytes, i: nat, j: nat)
    requires a <= b && i <= j <= |a|
    ensures b[i..j] == a[i..j]
  {
  }

  lemma MiddlePrefix(head: bytes, data: bytes, padded: bytes, rest: bytes)
    requires data <= padded
    ensures head <= head + padded + rest
    ensures (head + padded + rest)[|head|..|head| + |data|] == data
  {
    var b := head + padded + rest;
    forall i | 0 <= i < |data| ensures b[|head| + i] == data[i] {
    }
  }

  /** The header, the name and its NUL, as they stand at the beginning of b. */
  ghost predicate Named(f: File, named: bytes) {
    && |named| == HEADER_SIZE + |f.name| + 1
    && named[..6] == CPIO_MAGIC
    && ParseHex(named[94..102]) == Some(|f.name| + 1) && ParseHex(named[54..62]) == Some(|f.data|)
    && named[HEADER_SIZE..HEADER_SIZE + |f.name|] == f.name && named[HEADER_SIZE + |f.name|] == NUL
  }

  /** What a reader makes of an entry whose name ends at `nameEnd` and whose data starts at `start`. */
  lemma ParseFields(f: File, b: bytes, nameEnd: nat, start: nat, end: nat)
    requires nameEnd == HEADER_SIZE + |f.name| && start == RoundUp(nameEnd + 1, 4) && end == start + RoundUp(|f.data|, 4)
    requires nameEnd < start <= end <= |b| && start + |f.data| <= |b|
    requires b[..6] == CPIO_MAGIC && ParseHex(b[94..102]) == Some(|f.name| + 1) && ParseHex(b[54..62]) == Some(|f.data|)
    requires b[HEADER_SIZE..nameEnd] == f.name && b[nameEnd] == NUL && b[start..start + |f.data|] == f.data
    ensures ParseEntry(b) == Some((f, end))
  {
    hide ParseHex, RoundUp;
  }

  lemma ParseNamed(f: File, named: bytes, b: bytes, start: nat)
    requires Named(f, named) && named <= b && start == RoundUp(|named|, 4)
    requires start + RoundUp(|f.data|, 4) <= |b| && b[start..start + |f.data|] == f.data
    ensures ParseEntry(b) == Some((f, start + RoundUp(|f.data|, 4)))
  {
    hide ParseEntry, RoundUp, ParseHex;
    var nameEnd := HEADER_SIZE + |f.name|;
    PrefixSlice(named, b, 0, 6);
    PrefixSlice(named, b, 54, 62);
    PrefixSlice(named, b, 94, 102);
    PrefixSlice(named, b, HEADER_SIZE, nameEnd);
    assert b[nameEnd] == named[nameEnd];
    ParseFields(f, b, nameEnd, start, start + RoundUp(|f.data|, 4));
  }

  lemma NamedBehindHeader(f: File, h: bytes)
    requires |h| == HEADER_SIZE && h[..6] == CPIO_MAGIC
    requires ParseHex(h[94..102]) == Some(|f.name| + 1) && ParseHex(h[54..62]) == Some(|f.data|)
    ensures Named(f, h + f.name + [NUL])
  {
    hide ParseHex;
    var named := h + f.name + [NUL];
    MiddlePrefix(h, f.name, f.name, [NUL]);
    PrefixSlice(h, named, 0, 6);
    PrefixSlice(h, named, 54, 62);
    PrefixSlice(h, named, 94, 102);
  }

  lemma HeaderNamed(f: File, trailer: bool)
    requires Fits(f)
    ensures Named(f, CpioHeader(|f.name| + 1, |f.data|, trailer) + f.name + [NUL])
  {
    hide HexField, CpioHeader, ParseHex, Named;
    HeaderField(|f.name| + 1, |f.data|, trailer, 0);
    HeaderRead(|f.name| + 1, |f.data|, trailer, 6);
    HeaderRead(|f.name| + 1, |f.data|, trailer, 11);
    NamedBehindHeader(f, CpioHeader(|f.name| + 1, |f.data|, trailer));
  }

  lemma PaddedRoundTrip(f: File, named: bytes, rest: bytes)
    requires Named(f, named)
    ensures ParseEntry(PadBytes(named, 4) + PadBytes(f.data, 4) + rest)
         == Some((f, |PadBytes(named, 4)| + |PadBytes(f.data, 4)|))
  {
    hide Named, PadBytes, RoundUp, ParseEntry;
    MiddlePrefix(PadBytes(named, 4), f.data, PadBytes(f.data, 4), rest);
    ParseNamed(f, named, PadBytes(named, 4) + PadBytes(f.data, 4) + rest, |PadBytes(named, 4)|);
  }

  /** An entry is read back as the file it was made from, whatever follows. */
  lemma EntryRoundTrip(f: File, trailer: bool, rest: bytes)
    requires Fits(f)
    ensures ParseEntry(EntryBytes(f, trailer) + rest) == Some((f, |EntryBytes(f, trailer)|))
  {
    hide Named, CpioHeader, PadBytes, ParseEntry, Fits, RoundUp;
    HeaderNamed(f, trailer);
    PaddedRoundTrip(f, CpioHeader(|f.name| + 1, |f.data|, trailer) + f.name + [NUL], rest);
  }

  // ---------------------------------------------------------------- archives

  function Entries(files: seq<File>): seq<bytes> {
    seq(|files|, i requires 0 <= i < |files| => EntryBytes(files[i], false))
  }

  /** `b''.join(parts)` */
  function Join(parts: seq<bytes>): bytes {
    if parts == [] then [] else parts[0] + Join(parts[1..])
  }

  /** The files before the first one that is named like the trailer. */
  function BeforeTrailer(files: seq<File>): (r: seq<File>)
    ensures (forall i | 0 <= i < |files| :: files[i].name != CPIO_TRAILER) <==> r == files
  {
    if files == [] || files[0].name == CPIO_TRAILER then [] else [files[0]] + BeforeTrailer(files[1..])
  }

  function TrailerBytes(): bytes {
    EntryBytes(File(CPIO_TRAILER, []), true)
  }

  /**
     Reading an archive gives all its files, with exact names and data, if none is named TRAILER!!!; such a
     name hides its file and those behind it. What follows the trailer does not matter.
   */
  lemma {:induction false} ArchiveRoundTrip(files: seq<File>, rest: bytes)
    requires forall i | 0 <= i < |files| :: Fits(files[i])
    ensures ParseArchive(Join(Entries(files)) + TrailerBytes() + rest) == Some(BeforeTrailer(files))
    decreases |files|
  {
    hide EntryBytes, ParseEntry;
    var b := Join(Entries(files)) + TrailerBytes() + rest;
    if files == [] {
      EntryRoundTrip(File(CPIO_TRAILER, []), true, rest);
      assert b == TrailerBytes() + rest;
    } else {
      var f, e := files[0], EntryBytes(files[0], false);
      assert Entries(files)[1..] == Entries(files[1..]);
      var tail := Join(Entries(files[1..])) + TrailerBytes() + rest;
      assert b == e + tail;
      EntryRoundTrip(f, false, tail);
      assert b[|e|..] == tail;
      if f.name != CPIO_TRAILER {
        ArchiveRoundTrip(files[1..], rest);
      }
    }
  }

  // ---------------------------------------------------------------- the index

  type Digest = s: bytes | |s| == 16 witness seq(16, _ => 0)
  type Md5 = bytes -> Digest
  type Crc = bytes -> u32

  datatype DfuInfo = DfuInfo(address: int, flags: nat, name: bytes, md5: Digest)

  function Le32(v: u32): (s: bytes)
    ensures |s| == 4
  {
    [v % 256, v / 256 % 256, v / 65536 % 256, v / 16777216]
  }

  function FromLe32(s: bytes): nat
    requires |s| == 4
  {
    s[0] as nat + 256 * s[1] as nat + 65536 * s[2] as nat + 16777216 * s[3] as nat
  }

  lemma Le32RoundTrip(v: u32)
    ensures FromLe32(Le32(v)) == v
  {
    var w := v / 256;
    assert v / 65536 == w / 256 && v / 16777216 == w / 256 / 256;
  }

  /** A field of struct format `<n>s`: cut or filled with NULs. */
  function FixedField(s: bytes, n: nat): (r: bytes)
    ensures |r| == n
  {
    if |s| >= n then s[..n] else s + Zeros(n - |s|)
  }

  lemma FixedFieldExact(s: bytes, n: nat)
    requires |s| <= n
    ensures FixedField(s, n) == s + Zeros(n - |s|)
    ensures |s| == n ==> FixedField(s, n) == s
  {
    if |s| == n {
      assert s[..n] == s && Zeros(0) == [];
    }
  }

  /** DFUINFO_STRUCT: `<I I 64s 16s`. */
  function InfoBytes(i: DfuInfo): (b: bytes)
    requires 0 <= i.address < U32 && i.flags < U32
    ensures |b| == 88
  {
    Le32(i.address) + Le32(i.flags) + FixedField(i.name, 64) + FixedField(i.md5, 16)
  }

  /** struct.pack raises an exception for an address that is not a 32-bit number. */
  predicate Packable(index: seq<DfuInfo>) {
    forall i | 0 <= i < |index| :: 0 <= index[i].address < U32 && index[i].flags < U32
  }

  function IndexBytes(index: seq<DfuInfo>): (b: bytes)
    requires Packable(index)
    ensures |b| == 88 * |index|
  {
    if index == [] then [] else InfoBytes(index[0]) + IndexBytes(index[1..])
  }

  /** Record k of the index file. */
  lemma {:induction false} IndexRecord(index: seq<DfuInfo>, k: nat)
    requires Packable(index) && k < |index|
    ensures IndexBytes(index)[88 * k..88 * k + 88] == InfoBytes(index[k])
    decreases k
  {
    var b, rest := IndexBytes(index), IndexBytes(index[1..]);
    if k > 0 {
      IndexRecord(index[1..], k - 1);
      assert b[88 * k..88 * k + 88] == rest[88 * (k - 1)..88 * (k - 1) + 88];
    }
  }

  /** What a reader takes for the name in a name field: the bytes before the trailing NULs. */
  function NameOf(field: bytes): (name: bytes)
    ensures |name| <= |field|
  {
    if field == [] || field[|field| - 1] != NUL then field else NameOf(field[..|field| - 1])
  }

  predicate NameFits(name: bytes) {
    |name| <= 64 && (name == [] || name[|name| - 1] != NUL)
  }

  lemma {:induction false} NameOfPadded(name: bytes, k: nat)
    ensures NameOf(name + Zeros(k)) == NameOf(name)
    decreases k
  {
    if k == 0 {
      assert name + Zeros(0) == name;
    } else {
      var field := name + Zeros(k);
      assert field[..|field| - 1] == name + Zeros(k - 1);
      NameOfPadded(name, k - 1);
    }
  }

  /** The name field gives the name back if and only if it has at most 64 bytes and no trailing NUL. */
  lemma NameFieldParse(name: bytes)
    ensures NameOf(FixedField(name, 64)) == name <==> NameFits(name)
  {
    if |name| <= 64 {
      FixedFieldExact(name, 64);
      NameOfPadded(name, 64 - |name|);
      assert name != [] && name[|name| - 1] == NUL ==> |NameOf(name)| <= |name[..|name| - 1]|;
    }
  }

  /** The fields of a record read back: the address, the flags, the name if it fits, and the digest. */
  lemma InfoRoundTrip(i: DfuInfo)
    requires 0 <= i.address < U32 && i.flags < U32
    ensures var b := InfoBytes(i);
            && FromLe32(b[0..4]) == i.address && FromLe32(b[4..8]) == i.flags
            && b[8..72] == FixedField(i.name, 64) && b[72..88] == i.md5
            && (NameOf(b[8..72]) == i.name <==> NameFits(i.name))
  {
    var address, flags, name, md5 := Le32(i.address), Le32(i.flags), FixedField(i.name, 64), FixedField(i.md5, 16);
    Le32RoundTrip(i.address);
    Le32RoundTrip(i.flags);
    NameFieldParse(i.name);
    FixedFieldExact(i.md5, 16);
    hide Le32, FromLe32, FixedField, Zeros, NameOf;
    assert InfoBytes(i) == address + flags + name + md5;
    MiddlePrefix([], address, address, flags + name + md5);
    assert InfoBytes(i) == [] + address + (flags + name + md5);
    MiddlePrefix(address, flags, flags, name + md5);
    assert InfoBytes(i) == address + flags + (name + md5);
    MiddlePrefix(address + flags, name, name, md5);
    MiddlePrefix(address + flags + name, md5, md5, []);
    assert InfoBytes(i) == address + flags + name + md5 + [];
  }

  // ---------------------------------------------------------------- chunks

  /** The length of `f.read(partSize)`; -1 reads everything. */
  function ReadLength(left: nat, partSize: int): nat
    requires partSize >= -1
  {
    if partSize < 0 || left < partSize then left else partSize
  }

  /** What repeated reading returns before the first empty read. */
  function Chunks(content: bytes, partSize: int): seq<bytes>
    requires partSize >= -1
    decreases |content|
  {
    var n := ReadLength(|content|, partSize);
    if n == 0 then [] else [content[..n]] + Chunks(content[n..], partSize)
  }

  lemma {:induction false} ChunkSizes(content: bytes, partSize: int)
    requires partSize >= -1
    ensures Sized(Chunks(content, partSize), partSize)
    ensures Chunks(content, partSize) == [] <==> content == [] || partSize == 0
    decreases |content|
  {
    var n := ReadLength(|content|, partSize);
    if n > 0 {
      ChunkSizes(content[n..], partSize);
      var chunks, more := Chunks(content, partSize), Chunks(content[n..], partSize);
      assert chunks == [content[..n]] + more;
      hide Chunks;
      assert forall i | 0 < i < |chunks| :: chunks[i] == more[i - 1];
    }
  }

  /** All chunks are full but the last one, which is not empty; reading with -1 gives one chunk at most. */
  ghost predicate Sized(chunks: seq<bytes>, partSize: int) {
    && (forall i | 0 <= i < |chunks| :: 0 < |chunks[i]| && (partSize > 0 ==> |chunks[i]| <= partSize))
    && (partSize > 0 ==> forall i | 0 <= i < |chunks| - 1 :: |chunks[i]| == partSize)
    && (partSize < 0 ==> |chunks| <= 1)
  }

  /** The chunks are the file, unless the part size is 0, for which nothing is read. */
  lemma {:induction false} ChunksJoin(content: bytes, partSize: int)
    requires partSize >= -1
    ensures Join(Chunks(content, partSize)) == if partSize == 0 then [] else content
    decreases |content|
  {
    var n := ReadLength(|content|, partSize);
    if n > 0 {
      ChunksJoin(content[n..], partSize);
      assert Chunks(content, partSize)[1..] == Chunks(content[n..], partSize);
      assert content == content[..n] + content[n..];
    }
  }

  function Decimal(n: nat): bytes {
    if n < 10 then [48 + n] else Decimal(n / 10) + [48 + n % 10]
  }

  function ParseDecimal(s: bytes): Option<nat> {
    if s == [] then Some(0)
    else if !(48 <= s[|s| - 1] <= 57) || ParseDecimal(s[..|s| - 1]).None? then None
    else Some(10 * ParseDecimal(s[..|s| - 1]).value + (s[|s| - 1] - 48))
  }

  /** The digits read as the number, and there is no zero in front. */
  lemma {:induction false} DecimalParse(n: nat)
    ensures ParseDecimal(Decimal(n)) == Some(n) && Decimal(n) != [] && (Decimal(n)[0] == 48 ==> n == 0)
    decreases n
  {
    var s := Decimal(n);
    if n < 10 {
      assert s[..|s| - 1] == [];
    } else {
      DecimalParse(n / 10);
      assert s[..|s| - 1] == Decimal(n / 10);
    }
  }

  /** app.bin, app.bin.1, app.bin.2, ... */
  function ChunkName(name: bytes, k: nat): bytes {
    if k == 0 then name else name + [46] + Decimal(k)
  }

  lemma {:induction false} DecimalDigits(n: nat)
    ensures Decimal(n) != [] && Decimal(n)[|Decimal(n)| - 1] != NUL
  {
  }

  /** The first chunk has the name of the file, and chunk k has a dot and the number k behind it. */
  lemma ChunkNameRead(name: bytes, k: nat)
    ensures ChunkName(name, 0) == name
    ensures k > 0 ==>
              && name + [46] <= ChunkName(name, k) && ParseDecimal(ChunkName(name, k)[|name| + 1..]) == Some(k)
              && |ChunkName(name, k)| > |name| + 1 && ChunkName(name, k)[|name| + 1] != 48
  {
    DecimalParse(k);
    hide Decimal, ParseDecimal;
    if k > 0 {
      assert ChunkName(name, k)[|name| + 1..] == Decimal(k);
    }
  }

  /** A chunk's name fits its record unless the file's name is too long for the number. */
  lemma ChunkNameFits(name: bytes, k: nat)
    requires k > 0
    ensures NameFits(ChunkName(name, k)) <==> |name| + 1 + |Decimal(k)| <= 64
  {
    DecimalDigits(k);
    hide Decimal;
    var n := ChunkName(name, k);
    assert n[|n| - 1] == Decimal(k)[|Decimal(k)| - 1];
  }

  /** With a file name of 64 bytes or more, the records of all chunks carry the same name. */
  lemma LongNamesCollide(name: bytes, k: nat, j: nat)
    requires |name| >= 64
    ensures FixedField(ChunkName(name, k), 64) == FixedField(ChunkName(name, j), 64) == name[..64]
  {
    hide Decimal;
    forall i: nat ensures ChunkName(name, i)[..64] == name[..64] {
    }
  }

  /** What the record of chunk k has for a name. */
  function ChunkField(name: bytes, k: nat): bytes {
    FixedField(ChunkName(name, k), 64)
  }

  lemma {:induction false} DecimalLonger(j: nat, k: nat)
    requires j <= k
    ensures |Decimal(j)| <= |Decimal(k)|
    decreases k
  {
    if j >= 10 {
      DecimalLonger(j / 10, k / 10);
    } else if k >= 10 {
      assert |Decimal(k / 10)| >= 0;
    }
  }

  lemma {:induction false} DecimalDiffers(j: nat, k: nat)
    ensures Decimal(j) == Decimal(k) ==> j == k
    decreases k
  {
    if Decimal(j) == Decimal(k) {
      var d, e := Decimal(j), Decimal(k);
      assert d[|d| - 1] == 48 + j % 10 && e[|e| - 1] == 48 + k % 10;
      DecimalDigits(j / 10);
      DecimalDigits(k / 10);
      if j >= 10 && k >= 10 {
        assert d[..|d| - 1] == Decimal(j / 10) && e[..|e| - 1] == Decimal(k / 10);
        DecimalDiffers(j / 10, k / 10);
      }
    }
  }

  /** The first digits of a number are the digits of a smaller one. */
  lemma {:induction false} DecimalStart(k: nat, digits: nat) returns (j: nat)
    requires 0 < digits < |Decimal(k)|
    ensures 0 < j < k && Decimal(j) == Decimal(k)[..digits]
    decreases k
  {
    var start := Decimal(k / 10);
    if digits == |start| {
      j := k / 10;
    } else {
      j := DecimalStart(k / 10, digits);
      assert Decimal(k)[..digits] == start[..digits];
    }
  }

  /** A dot stands where the name of the first chunk has ended. */
  lemma FirstFieldDiffers(name: bytes, k: nat)
    requires |name| <= 63 && k > 0
    ensures ChunkField(name, 0) != ChunkField(name, k)
  {
    hide Decimal;
    assert ChunkField(name, 0)[|name|] == NUL;
    assert ChunkField(name, k)[|name|] == 46;
  }

  lemma ShortFieldsDiffer(name: bytes, j: nat, k: nat)
    requires 0 < j < k && |name| + 1 + |Decimal(k)| <= 64
    ensures ChunkField(name, j) != ChunkField(name, k)
  {
    DecimalLonger(j, k);
    ChunkNameFits(name, j);
    ChunkNameFits(name, k);
    NameFieldParse(ChunkName(name, j));
    NameFieldParse(ChunkName(name, k));
    DecimalDiffers(j, k);
    hide Decimal, FixedField, NameOf, NameFits;
    assert ChunkName(name, j)[|name| + 1..] == Decimal(j) && ChunkName(name, k)[|name| + 1..] == Decimal(k);
  }

  /** If the number of chunk k is cut, another chunk has just the digits that are left. */
  lemma CutFieldsCollide(name: bytes, k: nat) returns (j: nat)
    requires k > 0 && |name| <= 62 && |name| + 1 + |Decimal(k)| > 64
    ensures 0 < j < k && ChunkField(name, j) == ChunkField(name, k)
  {
    j := DecimalStart(k, 63 - |name|);
    hide Decimal;
    assert ChunkName(name, k)[..64] == name + [46] + Decimal(k)[..63 - |name|];
    assert ChunkName(name, j)[..64] == ChunkName(name, j) == name + [46] + Decimal(j);
  }

  /** Exactly when the records of the first n chunks of a file have n different names. */
  lemma ChunkFieldsDiffer(name: bytes, n: nat)
    ensures (forall j, k | 0 <= j < k < n :: ChunkField(name, j) != ChunkField(name, k)) <==>
            n <= 1 || |name| + 1 + |Decimal(n - 1)| <= 64 || (|name| == 63 && n == 2)
  {
    DecimalDigits(if n > 0 then n - 1 else 0);
    hide ChunkField, Decimal;
    if n > 1 && (|name| + 1 + |Decimal(n - 1)| <= 64 || (|name| == 63 && n == 2)) {
      forall j, k | 0 <= j < k < n ensures ChunkField(name, j) != ChunkField(name, k) {
        if j == 0 {
          FirstFieldDiffers(name, k);
        } else {
          DecimalLonger(k, n - 1);
          ShortFieldsDiffer(name, j, k);
        }
      }
    } else if n > 1 {
      var j, k := 0, 1;
      if |name| >= 64 {
        LongFieldsCollide(name, 0, 1);
      } else if |name| == 63 {
        DottedFieldsCollide(name);
        j, k := 1, 2;
      } else {
        k := n - 1;
        j := CutFieldsCollide(name, k);
      }
      assert ChunkField(name, j) == ChunkField(name, k);
    }
  }

  lemma LongFieldsCollide(name: bytes, j: nat, k: nat)
    requires |name| >= 64
    ensures ChunkField(name, j) == ChunkField(name, k)
  {
    LongNamesCollide(name, j, k);
  }

  lemma DottedFieldsCollide(name: bytes)
    requires |name| == 63
    ensures ChunkField(name, 1) == ChunkField(name, 2)
  {
    DecimalDigits(1);
    DecimalDigits(2);
    hide Decimal;
    assert ChunkName(name, 1)[..64] == name + [46] && ChunkName(name, 2)[..64] == name + [46];
  }

  /** The files for the chunks from number k on. */
  function ChunkFiles(name: bytes, k: nat, chunks: seq<bytes>): (f: seq<File>)
    ensures |f| == |chunks|
    ensures forall i | 0 <= i < |f| :: f[i] == File(ChunkName(name, k + i), chunks[i])
    decreases chunks
  {
    if chunks == [] then [] else [File(ChunkName(name, k), chunks[0])] + ChunkFiles(name, k + 1, chunks[1..])
  }

  /** Their index records: each address follows the end of the chunk before. */
  function ChunkInfos(md5: Md5, name: bytes, address: int, k: nat, chunks: seq<bytes>): (r: seq<DfuInfo>)
    ensures |r| == |chunks|
    decreases chunks
  {
    if chunks == [] then []
    else
      [DfuInfo(address, 0, ChunkName(name, k), md5(chunks[0]))]
      + ChunkInfos(md5, name, address + |chunks[0]|, k + 1, chunks[1..])
  }

  /** Chunk i starts where the chunks before it end. */
  lemma {:induction false} ChunkAddress(md5: Md5, name: bytes, address: int, k: nat, chunks: seq<bytes>, i: nat)
    requires i < |chunks|
    ensures ChunkInfos(md5, name, address, k, chunks)[i] ==
            DfuInfo(address + |Join(chunks[..i])|, 0, ChunkName(name, k + i), md5(chunks[i]))
    decreases i
  {
    if i > 0 {
      ChunkAddress(md5, name, address + |chunks[0]|, k + 1, chunks[1..], i - 1);
      assert chunks[1..][..i - 1] == chunks[..i][1..];
    }
  }

  predicate PartAt(whole: bytes, at: int, part: bytes) {
    0 <= at <= at + |part| <= |whole| && whole[at..at + |part|] == part
  }

  lemma {:induction false} JoinPart(parts: seq<bytes>, i: nat)
    requires i < |parts|
    ensures PartAt(Join(parts), |Join(parts[..i])|, parts[i])
    decreases i
  {
    if i > 0 {
      JoinPart(parts[1..], i - 1);
      assert parts[1..][..i - 1] == parts[..i][1..];
      var at, rest := |Join(parts[1..][..i - 1])|, Join(parts[1..]);
      assert Join(parts) == parts[0] + rest;
      assert (parts[0] + rest)[|parts[0]| + at..|parts[0]| + at + |parts[i]|] == rest[at..at + |parts[i]|];
    }
  }

  lemma PartPlace(md5: Md5, name: bytes, address: int, chunks: seq<bytes>, i: nat)
    requires i < |chunks|
    ensures PartAt(Join(chunks), ChunkInfos(md5, name, address, 0, chunks)[i].address - address,
                   ChunkFiles(name, 0, chunks)[i].data)
  {
    hide Join, ChunkInfos, ChunkName, ChunkFiles, PartAt;
    ChunkAddress(md5, name, address, 0, chunks, i);
    JoinPart(chunks, i);
  }

  lemma ReadsSomething(content: bytes, partSize: int)
    requires partSize >= -1 && |Chunks(content, partSize)| > 0
    ensures partSize != 0
  {
  }

  /** Each chunk is the part of the file that belongs at the chunk's address. */
  lemma ChunkPlace(md5: Md5, name: bytes, address: int, content: bytes, partSize: int, i: nat)
    requires partSize >= -1 && i < |Chunks(content, partSize)|
    ensures var chunks := Chunks(content, partSize);
            PartAt(content, ChunkInfos(md5, name, address, 0, chunks)[i].address - address,
                   ChunkFiles(name, 0, chunks)[i].data)
  {
    hide *;
    ReadsSomething(content, partSize);
    ChunksJoin(content, partSize);
    PartPlace(md5, name, address, Chunks(content, partSize), i);
  }

  // ---------------------------------------------------------------- the writer

  const ESPRESSIF_VID: int := 12346
  /** "flash_params.dat" */
  const FLASH_PARAMS_FILE: bytes := [102, 108, 97, 115, 104, 95, 112, 97, 114, 97, 109, 115, 46, 100, 97, 116]
  const PARAM_FLAGS: nat := 4 + 8 + 16

  function FlashParams(flashSize: u32): (b: bytes)
    ensures |b| == 32
  {
    Words([0, 0, 0, flashSize, 0x1_0000, 0x1000, 256, 0xffff])
  }

  function Words(values: seq<u32>): (b: bytes)
    ensures |b| == 4 * |values|
  {
    if values == [] then [] else Le32(values[0]) + Words(values[1..])
  }

  lemma {:induction false} WordAt(values: seq<u32>, k: nat)
    requires k < |values|
    ensures FromLe32(Words(values)[4 * k..4 * k + 4]) == values[k]
    decreases k
  {
    hide Le32, FromLe32;
    var b := Words(values);
    if k == 0 {
      Le32RoundTrip(values[0]);
      assert b[0..4] == Le32(values[0]);
    } else {
      WordAt(values[1..], k - 1);
      assert b[4 * k..4 * k + 4] == Words(values[1..])[4 * (k - 1)..4 * (k - 1) + 4];
    }
  }

  /** What the device reads: three words that are 0, the sizes of the chip, of blocks, sectors and pages, and the mask. */
  lemma FlashParamsRead(flashSize: u32, k: nat)
    requires k < 8
    ensures FromLe32(FlashParams(flashSize)[4 * k..4 * k + 4]) ==
            if k < 3 then 0 else if k == 3 then flashSize else if k == 4 then 65536 else if k == 5 then 4096
            else if k == 6 then 256 else 65535
  {
    WordAt([0, 0, 0, flashSize, 0x1_0000, 0x1000, 256, 0xffff], k);
  }

  /** dfu_crc: the complement of the CRC-32. */
  function DfuCrc(crc: Crc, data: bytes): u32 {
    0xffff_ffff - crc(data)
  }

  /** DFUSUFFIX_STRUCT: `<H H H H 3s B`. */
  function Suffix(pid: int): (s: bytes)
    requires 0 <= pid < 0x1_0000
    ensures |s| == 12
  {
    Le16(0xffff) + Le16(pid) + Le16(ESPRESSIF_VID) + Le16(0x0100) + [85, 70, 68] + [16]
  }

  /** The records describe the files: same order, same names, the digests of the data. */
  predicate Described(md5: Md5, index: seq<DfuInfo>, files: seq<File>) {
    && |index| == |files|
    && forall i | 0 <= i < |files| :: index[i].name == files[i].name && index[i].md5 == md5(files[i].data)
  }

  /** All entries of the archive before the trailer. */
  function AllFiles(index: seq<DfuInfo>, files: seq<File>): seq<File>
    requires Packable(index)
  {
    [File(DFUINFO_FILE, IndexBytes(index))] + files
  }

  /** All that finish writes. */
  function Image(crc: Crc, pid: int, index: seq<DfuInfo>, files: seq<File>): bytes
    requires Packable(index) && 0 <= pid < 0x1_0000
  {
    WithSuffix(Join(Entries(AllFiles(index, files))) + TrailerBytes(), crc, pid)
  }

  /**
     What a reader can rely on: whole blocks of 10240 bytes and 16 more; the archive parses to the index and the
     files; record i of the index holds the digest of file i, and its name if that fits; the last word is the checksum
     of the rest.
   */
  predicate IsDfuImage(out: bytes, md5: Md5, crc: Crc, pid: int, index: seq<DfuInfo>, files: seq<File>)
  {
    && 0 <= pid < 0x1_0000 && Packable(index) && Described(md5, index, files)
    && Framed(out, crc, pid)
    && ParseArchive(out).Some? && ReadsAs(ParseArchive(out).value, md5, index, files)
  }

  predicate Framed(out: bytes, crc: Crc, pid: int) {
    && |out| >= 16 && |out| % CPIO_BLOCK == 16
    && FromLe32(out[|out| - 4..]) + crc(out[..|out| - 4]) == 0xffff_ffff
    && IsSuffix(out[|out| - 16..|out| - 4], pid)
  }

  /** No device version, the product, vendor 0x303A, DFU version 1.0, "UFD" and the length. */
  predicate IsSuffix(s: bytes, pid: int) {
    && |s| == 12 && s[0] == s[1] == 255 && s[2] as nat + 256 * s[3] as nat == pid
    && s[4..] == [0x3a, 0x30, 0, 1, 85, 70, 68, 16]
  }

  predicate ReadsAs(read: seq<File>, md5: Md5, index: seq<DfuInfo>, files: seq<File>)
    requires Packable(index) && Described(md5, index, files)
  {
    && |read| == 1 + |files| && read[0].name == DFUINFO_FILE && |read[0].data| == 88 * |files|
    && read[1..] == files
    && forall i | 0 <= i < |files| ::
         var record := read[0].data[88 * i..88 * i + 88];
         && record == InfoBytes(DfuInfo(index[i].address, index[i].flags, files[i].name, md5(files[i].data)))
         && (NameOf(record[8..72]) == files[i].name <==> NameFits(files[i].name))
  }

  /** Every field of the header of every file fits, and no file is taken for the trailer. */
  predicate Writable(index: seq<DfuInfo>, files: seq<File>) {
    && 88 * |index| < U32
    && forall i | 0 <= i < |files| :: Fits(files[i]) && files[i].name != CPIO_TRAILER
  }

  /** What is written for an archive. */
  function WithSuffix(archive: bytes, crc: Crc, pid: int): bytes
    requires 0 <= pid < 0x1_0000
  {
    var covered := PadBytes(archive, CPIO_BLOCK) + Suffix(pid);
    covered + Le32(DfuCrc(crc, covered))
  }

  lemma SuffixIsFramed(archive: bytes, crc: Crc, pid: int)
    requires 0 <= pid < 0x1_0000
    ensures Framed(WithSuffix(archive, crc, pid), crc, pid)
    ensures var out := WithSuffix(archive, crc, pid);
            archive <= out && |out| < |archive| + CPIO_BLOCK + 16 && forall i | |archive| <= i < |out| - 16 :: out[i] == 0
  {
    var padded := PadBytes(archive, CPIO_BLOCK);
    var checksum := DfuCrc(crc, padded + Suffix(pid));
    DivIs(|padded| + 16, CPIO_BLOCK, |padded| / CPIO_BLOCK, 16);
    Le32RoundTrip(checksum);
    SuffixIs(pid);
    PaddingIsZero(archive, CPIO_BLOCK);
    hide IsSuffix, PadBytes, RoundUp, Le32, DfuCrc, Suffix, FromLe32, Le16;
    var out := padded + Suffix(pid) + Le32(checksum);
    assert out[|out| - 4..] == Le32(checksum) && out[..|out| - 4] == padded + Suffix(pid);
    assert out[|out| - 16..|out| - 4] == Suffix(pid);
  }

  lemma SuffixIs(pid: int)
    requires 0 <= pid < 0x1_0000
    ensures IsSuffix(Suffix(pid), pid)
  {
  }

  lemma RecordRead(md5: Md5, index: seq<DfuInfo>, files: seq<File>, i: nat)
    requires Packable(index) && Described(md5, index, files) && i < |files|
    ensures var record := IndexBytes(index)[88 * i..88 * i + 88];
            && record == InfoBytes(DfuInfo(index[i].address, index[i].flags, files[i].name, md5(files[i].data)))
            && (NameOf(record[8..72]) == files[i].name <==> NameFits(files[i].name))
  {
    hide InfoBytes, IndexBytes, NameOf, NameFits, FixedField;
    IndexRecord(index, i);
    InfoRoundTrip(index[i]);
  }

  lemma AllFilesRead(md5: Md5, index: seq<DfuInfo>, files: seq<File>, rest: bytes)
    requires Packable(index) && Described(md5, index, files) && Writable(index, files)
    ensures ParseArchive(Join(Entries(AllFiles(index, files))) + TrailerBytes() + rest) == Some(AllFiles(index, files))
  {
    hide EntryBytes, ParseEntry, ParseArchive, Join, Entries, IndexBytes, TrailerBytes;
    var all := AllFiles(index, files);
    assert DFUINFO_FILE != CPIO_TRAILER by {
      assert DFUINFO_FILE[0] != CPIO_TRAILER[0];
    }
    assert forall i | 0 < i < |all| :: all[i] == files[i - 1];
    ArchiveRoundTrip(all, rest);
  }

  lemma AllRecordsRead(md5: Md5, index: seq<DfuInfo>, files: seq<File>)
    requires Packable(index) && Described(md5, index, files)
    ensures ReadsAs(AllFiles(index, files), md5, index, files)
  {
    hide InfoBytes, IndexBytes, NameOf, NameFits;
    forall i | 0 <= i < |files|
      ensures var record := IndexBytes(index)[88 * i..88 * i + 88];
              && record == InfoBytes(DfuInfo(index[i].address, index[i].flags, files[i].name, md5(files[i].data)))
              && (NameOf(record[8..72]) == files[i].name <==> NameFits(files[i].name))
    {
      RecordRead(md5, index, files, i);
    }
    assert AllFiles(index, files)[1..] == files;
  }

  /** The image of files that fit the format can be read back completely. */
  lemma ImageRoundTrip(md5: Md5, crc: Crc, pid: int, index: seq<DfuInfo>, files: seq<File>)
    requires Packable(index) && 0 <= pid < 0x1_0000 && Described(md5, index, files) && Writable(index, files)
    ensures IsDfuImage(Image(crc, pid, index, files), md5, crc, pid, index, files)
  {
    hide Join, Entries, AllFiles, ParseArchive, ReadsAs, Framed, WithSuffix, Described, Writable, Packable, TrailerBytes;
    var archive := Join(Entries(AllFiles(index, files))) + TrailerBytes();
    SuffixIsFramed(archive, crc, pid);
    var rest := WithSuffix(archive, crc, pid)[|archive|..];
    AllFilesRead(md5, index, files, rest);
    AllRecordsRead(md5, index, files);
    assert WithSuffix(archive, crc, pid) == archive + rest;
  }

  lemma DescribedAppend(md5: Md5, index: seq<DfuInfo>, files: seq<File>, info: DfuInfo, f: File)
    requires Described(md5, index, files) && info.name == f.name && info.md5 == md5(f.data)
    ensures Described(md5, index + [info], files + [f])
    ensures Entries(files + [f]) == Entries(files) + [EntryBytes(f, false)]
  {
  }

  class EspDfuWriter {
    var dest: bytes
    const pid: int
    const partSize: int
    var entries: seq<bytes>
    var index: seq<DfuInfo>
    /** hashlib.md5 */
    const md5: Md5
    ghost var files: seq<File>

    ghost predicate Valid()
      reads this
    {
      entries == Entries(files) && Described(md5, index, files)
    }

    constructor (pid: int, partSize: int, md5: Md5)
      ensures Valid() && files == [] && index == [] && dest == []
      ensures this.pid == pid && this.partSize == partSize && this.md5 == md5
    {
      this.dest := [];
      this.pid := pid;
      this.partSize := partSize;
      this.md5 := md5;
      entries, index, files := [], [], [];
    }

    method AddCpioEntry(filename: bytes, data: bytes, first: bool, trailer: bool)
      modifies this`entries
      ensures var e := EntryBytes(File(filename, data), trailer);
              entries == if first then [e] + old(entries) else old(entries) + [e]
    {
      hide CpioHeader, PadBytes, RoundUp;
      var filenameB := filename + [NUL];
      var header := CpioHeader(|filenameB|, |data|, trailer);
      assert header + filenameB == header + filename + [NUL];
      var entry := PadBytes(header + filenameB, 4) + PadBytes(data, 4);
      if !first {
        entries := entries + [entry];
      } else {
        entries := [entry] + entries;
      }
    }

    method AddCpioFlashEntry(filename: bytes, address: int, data: bytes, flags: nat)
      requires Valid()
      modifies this`entries, this`index, this`files
      ensures Valid()
      ensures files == old(files) + [File(filename, data)]
      ensures index == old(index) + [DfuInfo(address, flags, filename, md5(data))]
    {
      hide Described, Entries, EntryBytes;
      DescribedAppend(md5, index, files, DfuInfo(address, flags, filename, md5(data)), File(filename, data));
      index := index + [DfuInfo(address, flags, filename, md5(data))];
      AddCpioEntry(filename, data, false, false);
      files := files + [File(filename, data)];
    }

    method AddFlashParamsFile(flashSize: u32)
      requires Valid()
      modifies this`entries, this`index, this`files
      ensures Valid()
      ensures files == old(files) + [File(FLASH_PARAMS_FILE, FlashParams(flashSize))]
      ensures index == old(index) + [DfuInfo(0, 28, FLASH_PARAMS_FILE, md5(FlashParams(flashSize)))]
    {
      AddCpioFlashEntry(FLASH_PARAMS_FILE, 0, FlashParams(flashSize), PARAM_FLAGS);
    }

    /** Reading with a size below -1 raises an exception. */
    method AddFile(flashAddress: int, name: bytes, content: bytes) returns (ok: bool)
      requires Valid()
      modifies this`entries, this`index, this`files
      ensures Valid()
      ensures ok <==> partSize >= -1
      ensures files == old(files) + if ok then ChunkFiles(name, 0, Chunks(content, partSize)) else []
      ensures index == old(index)
                       + if ok then ChunkInfos(md5, name, flashAddress, 0, Chunks(content, partSize)) else []
    {
      if partSize < -1 {
        return false;
      }
      AddChunks(flashAddress, name, content);
      ok := true;
    }

    /** The loop over the reads of a file. */
    method AddChunks(flashAddress: int, name: bytes, content: bytes)
      requires Valid() && partSize >= -1
      modifies this`entries, this`index, this`files
      ensures Valid()
      ensures files == old(files) + ChunkFiles(name, 0, Chunks(content, partSize))
      ensures index == old(index) + ChunkInfos(md5, name, flashAddress, 0, Chunks(content, partSize))
    {
      hide Described, Entries, ChunkFiles, ChunkInfos, Chunks, Valid, Remains;
      var address, left, i := flashAddress, content, 0;
      var chunk := left[..ReadLength(|left|, partSize)];
      ghost var allFiles := files + ChunkFiles(name, 0, Chunks(content, partSize));
      ghost var allInfos := index + ChunkInfos(md5, name, flashAddress, 0, Chunks(content, partSize));
      RemainsAtFirst(md5, name, address, left, partSize, files, index);
      while chunk != []
        invariant Valid()
        invariant chunk == left[..ReadLength(|left|, partSize)]
        invariant Remains(md5, name, address, i, left, partSize, files, index, allFiles, allInfos)
        decreases |left|
      {
        ChunkStep(md5, name, address, i, left, partSize, files, index, allFiles, allInfos);
        var n := if i == 0 then name else name + [46] + Decimal(i);
        AddCpioFlashEntry(n, address, chunk, 0);
        address, left, i := address + |chunk|, left[|chunk|..], i + 1;
        chunk := left[..ReadLength(|left|, partSize)];
      }
      NoChunks(md5, name, address, i, left, partSize, files, index, allFiles, allInfos);
    }

    /** struct.pack raises an exception for a record or a product number that does not fit. */
    method Finish(crc: Crc) returns (ok: bool)
      requires Valid()
      modifies this`entries, this`dest
      ensures ok <==> Packable(index) && 0 <= pid < 0x1_0000
      ensures !ok ==> dest == old(dest)
      ensures ok ==> dest == old(dest) + Image(crc, pid, index, files)
      ensures ok && Writable(index, files) ==>
                IsDfuImage(Image(crc, pid, index, files), md5, crc, pid, index, files)
    {
      hide IsDfuImage, Writable, Described, Entries, Join, EntryBytes, AllFiles, Packable, IndexBytes;
      if !Packable(index) {
        return false;
      }
      var dfuinfo := IndexBytes(index);
      AddCpioEntry(DFUINFO_FILE, dfuinfo, true, false);
      AddCpioEntry(CPIO_TRAILER, [], false, true);
      if !(0 <= pid < 0x1_0000) {
        return false;
      }
      JoinEntries(index, files);
      var outData := PadBytes(Join(entries), CPIO_BLOCK);
      outData := outData + Suffix(pid);
      outData := outData + Le32(DfuCrc(crc, outData));
      assert outData == Image(crc, pid, index, files);
      hide Image;
      if Writable(index, files) {
        ImageRoundTrip(md5, crc, pid, index, files);
      }
      dest := dest + outData;
      ok := true;
    }
  }

  /** The files and records so far and those of the unread bytes make all. */
  ghost predicate Remains(md5: Md5, name: bytes, address: int, i: nat, left: bytes, partSize: int,
                          files: seq<File>, index: seq<DfuInfo>, allFiles: seq<File>, allInfos: seq<DfuInfo>)
    requires partSize >= -1
  {
    && files + ChunkFiles(name, i, Chunks(left, partSize)) == allFiles
    && index + ChunkInfos(md5, name, address, i, Chunks(left, partSize)) == allInfos
  }

  lemma RemainsAtFirst(md5: Md5, name: bytes, address: int, content: bytes, partSize: int,
                       files: seq<File>, index: seq<DfuInfo>)
    requires partSize >= -1
    ensures Remains(md5, name, address, 0, content, partSize, files, index,
                    files + ChunkFiles(name, 0, Chunks(content, partSize)),
                    index + ChunkInfos(md5, name, address, 0, Chunks(content, partSize)))
  {
  }

  lemma ChunkStep(md5: Md5, name: bytes, address: int, i: nat, left: bytes, partSize: int,
                  files: seq<File>, index: seq<DfuInfo>, allFiles: seq<File>, allInfos: seq<DfuInfo>)
    requires partSize >= -1 && ReadLength(|left|, partSize) > 0
    requires Remains(md5, name, address, i, left, partSize, files, index, allFiles, allInfos)
    ensures var n := ReadLength(|left|, partSize);
            Remains(md5, name, address + n, i + 1, left[n..], partSize,
                    files + [File(ChunkName(name, i), left[..n])],
                    index + [DfuInfo(address, 0, ChunkName(name, i), md5(left[..n]))], allFiles, allInfos)
  {
    var n := ReadLength(|left|, partSize);
    var chunk, chunks, more := left[..n], Chunks(left, partSize), Chunks(left[n..], partSize);
    assert chunks == [chunk] + more;
    hide Chunks, ReadLength, ChunkFiles, ChunkInfos, ChunkName;
    ChunkFilesCons(name, i, chunk, more);
    ChunkInfosCons(md5, name, address, i, chunk, more);
    var f, info := File(ChunkName(name, i), chunk), DfuInfo(address, 0, ChunkName(name, i), md5(chunk));
    Regroup(files, f, ChunkFiles(name, i + 1, more));
    Regroup(index, info, ChunkInfos(md5, name, address + n, i + 1, more));
  }

  lemma Regroup<T>(a: seq<T>, x: T, b: seq<T>)
    ensures a + [x] + b == a + ([x] + b)
  {
  }

  lemma ChunkFilesCons(name: bytes, i: nat, chunk: bytes, more: seq<bytes>)
    ensures ChunkFiles(name, i, [chunk] + more) == [File(ChunkName(name, i), chunk)] + ChunkFiles(name, i + 1, more)
  {
    assert ([chunk] + more)[1..] == more;
  }

  lemma ChunkInfosCons(md5: Md5, name: bytes, address: int, i: nat, chunk: bytes, more: seq<bytes>)
    ensures ChunkInfos(md5, name, address, i, [chunk] + more)
         == [DfuInfo(address, 0, ChunkName(name, i), md5(chunk))]
            + ChunkInfos(md5, name, address + |chunk|, i + 1, more)
  {
    assert ([chunk] + more)[1..] == more;
  }

  lemma NoChunks(md5: Md5, name: bytes, address: int, i: nat, left: bytes, partSize: int,
                 files: seq<File>, index: seq<DfuInfo>, allFiles: seq<File>, allInfos: seq<DfuInfo>)
    requires partSize >= -1 && ReadLength(|left|, partSize) == 0
    requires Remains(md5, name, address, i, left, partSize, files, index, allFiles, allInfos)
    ensures files == allFiles && index == allInfos
  {
    assert Chunks(left, partSize) == [];
  }

  lemma {:induction false} JoinAppend(parts: seq<bytes>, part: bytes)
    ensures Join(parts + [part]) == Join(parts) + part
    decreases |parts|
  {
    if parts == [] {
      assert [part][1..] == [];
    } else {
      JoinAppend(parts[1..], part);
      assert (parts + [part])[1..] == parts[1..] + [part];
    }
  }

  lemma EntriesCons(f: File, files: seq<File>)
    ensures Entries([f] + files) == [EntryBytes(f, false)] + Entries(files)
  {
    hide EntryBytes;
    forall i | 0 < i < |files| + 1 ensures Entries([f] + files)[i] == Entries(files)[i - 1] {
      assert ([f] + files)[i] == files[i - 1];
    }
  }

  /** The index entry in front and the trailer at the end of the entries of the files. */
  lemma JoinEntries(index: seq<DfuInfo>, files: seq<File>)
    requires Packable(index)
    ensures Join([EntryBytes(File(DFUINFO_FILE, IndexBytes(index)), false)] + Entries(files) + [TrailerBytes()])
         == Join(Entries(AllFiles(index, files))) + TrailerBytes()
  {
    var all := AllFiles(index, files);
    hide EntryBytes, IndexBytes, Join, TrailerBytes, Packable;
    EntriesCons(all[0], files);
    hide Entries, AllFiles;
    JoinAppend(Entries(all), TrailerBytes());
  }

  // ---------------------------------------------------------------- the write command

  type Memory = map<int, byte>

  function Span(address: int, n: nat): (s: set<int>)
    ensures forall i :: i in s <==> address <= i < address + n
  {
    if n == 0 then {} else Span(address, n - 1) + {address + n - 1}
  }

  function WriteAt(mem: Memory, address: int, data: bytes): Memory {
    mem + map i | i in Span(address, |data|) :: data[i - address]
  }

  /** What a device does with records and files: it writes the data of each file that is not a parameter file. */
  function Flashed(mem: Memory, index: seq<DfuInfo>, files: seq<File>): Memory
    requires |index| == |files|
  {
    if index == [] then mem
    else
      var last := |index| - 1;
      var before := Flashed(mem, index[..last], files[..last]);
      if index[last].flags == 0 then WriteAt(before, index[last].address, files[last].data) else before
  }

  lemma WriteTwice(mem: Memory, address: int, a: bytes, b: bytes)
    ensures WriteAt(WriteAt(mem, address, a), address + |a|, b) == WriteAt(mem, address, a + b)
  {
  }

  lemma {:induction false} FlashedTwice(mem: Memory, index: seq<DfuInfo>, files: seq<File>,
                                        index': seq<DfuInfo>, files': seq<File>)
    requires |index| == |files| && |index'| == |files'|
    ensures Flashed(mem, index + index', files + files') == Flashed(Flashed(mem, index, files), index', files')
    decreases |index'|
  {
    if index' == [] {
      assert index + index' == index && files + files' == files;
    } else {
      var last := |index'| - 1;
      FlashedTwice(mem, index, files, index'[..last], files'[..last]);
      assert (index + index')[..|index| + last] == index + index'[..last];
      assert (files + files')[..|files| + last] == files + files'[..last];
    }
  }

  lemma FlashedOne(mem: Memory, info: DfuInfo, f: File)
    ensures Flashed(mem, [info], [f]) == if info.flags == 0 then WriteAt(mem, info.address, f.data) else mem
  {
    assert [info][..0] == [] && [f][..0] == [];
  }

  lemma FlashedChunk(mem: Memory, md5: Md5, name: bytes, address: int, k: nat, chunk: bytes, more: seq<bytes>)
    ensures Flashed(mem, ChunkInfos(md5, name, address, k, [chunk] + more), ChunkFiles(name, k, [chunk] + more))
         == Flashed(WriteAt(mem, address, chunk), ChunkInfos(md5, name, address + |chunk|, k + 1, more),
                    ChunkFiles(name, k + 1, more))
  {
    ChunkFilesCons(name, k, chunk, more);
    ChunkInfosCons(md5, name, address, k, chunk, more);
    hide Flashed, WriteAt, ChunkFiles, ChunkInfos, ChunkName;
    var info, f := DfuInfo(address, 0, ChunkName(name, k), md5(chunk)), File(ChunkName(name, k), chunk);
    FlashedTwice(mem, [info], [f], ChunkInfos(md5, name, address + |chunk|, k + 1, more), ChunkFiles(name, k + 1, more));
    FlashedOne(mem, info, f);
  }

  lemma FlashedNothing(mem: Memory, md5: Md5, name: bytes, address: int, k: nat)
    ensures Flashed(mem, ChunkInfos(md5, name, address, k, []), ChunkFiles(name, k, [])) == WriteAt(mem, address, Join([]))
  {
  }

  /** Flashing the chunks of a file, each at its address, flashes the file. */
  lemma {:induction false} FlashedChunks(mem: Memory, md5: Md5, name: bytes, address: int, k: nat, chunks: seq<bytes>)
    ensures Flashed(mem, ChunkInfos(md5, name, address, k, chunks), ChunkFiles(name, k, chunks))
         == WriteAt(mem, address, Join(chunks))
    decreases |chunks|
  {
    hide Flashed, WriteAt, ChunkInfos, ChunkFiles;
    if chunks == [] {
      FlashedNothing(mem, md5, name, address, k);
    } else {
      var chunk, more := chunks[0], chunks[1..];
      assert chunks == [chunk] + more;
      FlashedChunk(mem, md5, name, address, k, chunk, more);
      FlashedChunks(WriteAt(mem, address, chunk), md5, name, address + |chunk|, k + 1, more);
      WriteTwice(mem, address, chunk, Join(more));
    }
  }

  /** A file to be written at an address. */
  datatype Input = Input(address: int, name: bytes, content: bytes)

  /** The files of the archive for the first inputs. */
  function InputFiles(inputs: seq<Input>, partSize: int): seq<File>
    requires partSize >= -1
  {
    if inputs == [] then []
    else
      var last := inputs[|inputs| - 1];
      InputFiles(inputs[..|inputs| - 1], partSize) + ChunkFiles(last.name, 0, Chunks(last.content, partSize))
  }

  function InputInfos(md5: Md5, inputs: seq<Input>, partSize: int): (r: seq<DfuInfo>)
    requires partSize >= -1
    ensures |r| == |InputFiles(inputs, partSize)|
  {
    if inputs == [] then []
    else
      var last := inputs[|inputs| - 1];
      InputInfos(md5, inputs[..|inputs| - 1], partSize)
      + ChunkInfos(md5, last.name, last.address, 0, Chunks(last.content, partSize))
  }

  /** The memory after all the files have been written as they are. */
  function WriteInputs(mem: Memory, inputs: seq<Input>): Memory {
    if inputs == [] then mem
    else
      var last := inputs[|inputs| - 1];
      WriteAt(WriteInputs(mem, inputs[..|inputs| - 1]), last.address, last.content)
  }

  lemma {:induction false} FlashedInputs(mem: Memory, md5: Md5, inputs: seq<Input>, partSize: int)
    requires partSize >= -1 && partSize != 0
    ensures Flashed(mem, InputInfos(md5, inputs, partSize), InputFiles(inputs, partSize)) == WriteInputs(mem, inputs)
    decreases |inputs|
  {
    if inputs != [] {
      var before, last := inputs[..|inputs| - 1], inputs[|inputs| - 1];
      var chunks := Chunks(last.content, partSize);
      hide Flashed, Chunks, WriteAt;
      FlashedInputs(mem, md5, before, partSize);
      FlashedTwice(mem, InputInfos(md5, before, partSize), InputFiles(before, partSize),
                   ChunkInfos(md5, last.name, last.address, 0, chunks), ChunkFiles(last.name, 0, chunks));
      FlashedChunks(WriteInputs(mem, before), md5, last.name, last.address, 0, chunks);
      ChunksJoin(last.content, partSize);
    }
  }

  /** All records of an image, with the one of the flash parameters in front. */
  function ImageInfos(md5: Md5, flashSize: u32, inputs: seq<Input>, partSize: int): seq<DfuInfo>
    requires partSize >= -1
  {
    [DfuInfo(0, PARAM_FLAGS, FLASH_PARAMS_FILE, md5(FlashParams(flashSize)))] + InputInfos(md5, inputs, partSize)
  }

  function ImageFiles(flashSize: u32, inputs: seq<Input>, partSize: int): seq<File>
    requires partSize >= -1
  {
    [File(FLASH_PARAMS_FILE, FlashParams(flashSize))] + InputFiles(inputs, partSize)
  }

  /** Flashing what the image holds writes every input at its address, unless the part size is 0. */
  lemma FlashedImage(mem: Memory, md5: Md5, flashSize: u32, inputs: seq<Input>, partSize: int)
    requires partSize >= -1 && partSize != 0
    ensures |ImageInfos(md5, flashSize, inputs, partSize)| == |ImageFiles(flashSize, inputs, partSize)|
    ensures Flashed(mem, ImageInfos(md5, flashSize, inputs, partSize), ImageFiles(flashSize, inputs, partSize))
         == WriteInputs(mem, inputs)
  {
    var info, f := DfuInfo(0, PARAM_FLAGS, FLASH_PARAMS_FILE, md5(FlashParams(flashSize))), File(FLASH_PARAMS_FILE, FlashParams(flashSize));
    FlashedTwice(mem, [info], [f], InputInfos(md5, inputs, partSize), InputFiles(inputs, partSize));
    FlashedOne(mem, info, f);
    FlashedInputs(mem, md5, inputs, partSize);
  }

  /** The loop of action_write over the inputs. */
  method AddInputs(writer: EspDfuWriter, inputs: seq<Input>) returns (ok: bool)
    requires writer.Valid()
    modifies writer`entries, writer`index, writer`files
    ensures writer.Valid() && (ok <==> writer.partSize >= -1 || inputs == [])
    ensures ok && writer.partSize >= -1 ==>
              && writer.files == old(writer.files) + InputFiles(inputs, writer.partSize)
              && writer.index == old(writer.index) + InputInfos(writer.md5, inputs, writer.partSize)
    ensures inputs == [] ==> writer.files == old(writer.files) && writer.index == old(writer.index)
  {
    hide Described, Entries, EspDfuWriter.Valid, Chunks, ChunkInfos, ChunkFiles;
    var i, n := 0, writer.partSize;
    while i < |inputs|
      invariant 0 <= i <= |inputs| && writer.Valid() && (i > 0 ==> n >= -1)
      invariant i == 0 ==> writer.files == old(writer.files) && writer.index == old(writer.index)
      invariant n >= -1 ==> writer.files == old(writer.files) + InputFiles(inputs[..i], n)
      invariant n >= -1 ==> writer.index == old(writer.index) + InputInfos(writer.md5, inputs[..i], n)
    {
      var input := inputs[i];
      ok := writer.AddFile(input.address, input.name, input.content);
      if !ok {
        return;
      }
      assert inputs[..i + 1][..i] == inputs[..i];
      i := i + 1;
    }
    assert inputs[..i] == inputs;
    ok := true;
  }

  lemma NoInputs(md5: Md5, partSize: int)
    requires partSize >= -1
    ensures InputFiles([], partSize) == [] && InputInfos(md5, [], partSize) == []
  {
  }

  /**
     action_write. What it writes can be read back if the sizes and names fit the format; FlashedImage says what
     flashing it does.
   */
  method ActionWrite(inputs: seq<Input>, pid: int, partSize: int, flashSize: u32, md5: Md5, crc: Crc)
    returns (ok: bool, dest: bytes)
    ensures !ok ==> dest == []
    ensures partSize >= -1 || inputs == [] ==>
              var size := Max(partSize, -1);
              var index, files := ImageInfos(md5, flashSize, inputs, size), ImageFiles(flashSize, inputs, size);
              && (ok <==> Packable(index) && 0 <= pid < 0x1_0000)
              && (ok ==> Described(md5, index, files))
              && (ok && Writable(index, files) ==> IsDfuImage(dest, md5, crc, pid, index, files))
    ensures partSize < -1 && inputs != [] ==> !ok
  {
    hide Described, Entries, Packable, Writable, IsDfuImage, Flashed, WriteInputs, Image, InputFiles, InputInfos;
    var writer := new EspDfuWriter(pid, partSize, md5);
    writer.AddFlashParamsFile(flashSize);
    ok := AddInputs(writer, inputs);
    if !ok {
      return false, [];
    }
    ghost var size := Max(partSize, -1);
    NoInputs(md5, size);
    assert writer.index == ImageInfos(md5, flashSize, inputs, size) && writer.files == ImageFiles(flashSize, inputs, size);
    assert Described(md5, writer.index, writer.files);
    ok := writer.Finish(crc);
    dest := writer.dest;
    assert ok ==> dest == Image(crc, pid, writer.index, writer.files);
  }
}
