/** The write-ahead log file (wal.go): a header, then one record a page. */
module WalCodec {
  import opened Maybe
  import opened Seqs
  import opened Keys
  import opened Bytes
  import opened Trees

  const WAL_HEADER_SIZE := 8 + 4 + 4 + 8 + 4
  const WAL_VERSION := 1
  const PAGE_NUM_BYTES := 8

  /** "MYKVWAL1" */
  const WAL_MAGIC: seq<Byte> := [0x4D, 0x59, 0x4B, 0x56, 0x57, 0x41, 0x4C, 0x31]

  datatype Page = Page(num: PageNum, data: seq<Byte>)

  /** crc32.ChecksumIEEE stands for any function of the bytes. */
  type Checksum = seq<Byte> -> nat

  function Sum32(crc: Checksum, s: seq<Byte>): nat {
    crc(s) % 0x1_0000_0000
  }

  /** What readWAL ends in: no log to replay, an error, or the pages to replay. */
  datatype WalRead = NoWal | Failed | Replay(pages: seq<Page>)

  predicate PagesOf(pages: seq<Page>, pageSize: nat) {
    forall i :: 0 <= i < |pages| ==> |pages[i].data| == pageSize
  }

  predicate Numbered(pages: seq<Page>) {
    forall i :: 0 <= i < |pages| ==> pages[i].num < 0x1_0000_0000_0000_0000
  }

  function Record(p: Page): seq<Byte> {
    Le(p.num, 8) + p.data
  }

  function Records(pages: seq<Page>): seq<Byte> {
    if pages == [] then [] else Record(pages[0]) + Records(pages[1..])
  }

  function WalHeader(pageSize: nat, count: nat, sum: nat): (h: seq<Byte>)
    ensures |h| == WAL_HEADER_SIZE
  {
    WAL_MAGIC + Le(WAL_VERSION, 4) + Le(pageSize, 4) + Le(count, 8) + Le(sum, 4)
  }

  /** The log of some pages. */
  function WalFile(pages: seq<Page>, pageSize: nat, crc: Checksum): seq<Byte> {
    WalHeader(pageSize, |pages|, Sum32(crc, Records(pages))) + Records(pages)
  }

  /** A 64-bit two's complement number. */
  function Int64(n: int): int {
    (n + 0x8000_0000_0000_0000) % 0x1_0000_0000_0000_0000 - 0x8000_0000_0000_0000
  }

  /** The loop of readWAL over the records; None when they end too early. */
  function ReadRecords(records: seq<Byte>, pageSize: nat, count: nat): Option<seq<Page>> {
    if count == 0 then Some([])
    else if |records| < PAGE_NUM_BYTES + pageSize then None
    else
      match ReadRecords(records[PAGE_NUM_BYTES + pageSize..], pageSize, count - 1)
      case None => None
      case Some(rest) => Some([Page(FromLe(records[..8]), records[8..8 + pageSize])] + rest)
  }

  /** readWAL of a file with these contents, or of no file. */
  function ReadWal(file: Option<seq<Byte>>, pageSize: nat, crc: Checksum): WalRead {
    if file.None? || |file.value| < WAL_HEADER_SIZE then NoWal
    else
      var data := file.value;
      if data[..8] != WAL_MAGIC || FromLe(data[8..12]) != WAL_VERSION || FromLe(data[12..16]) != pageSize then Failed
      else
        var count := Int64(FromLe(data[16..24]));
        if Int64(WAL_HEADER_SIZE + count * (PAGE_NUM_BYTES + pageSize)) != |data| then NoWal
        else if Sum32(crc, data[28..]) != FromLe(data[24..28]) || count < 0 then Failed
        else
          match ReadRecords(data[28..], pageSize, count)
          case None => Failed
          case Some(pages) => Replay(pages)
  }

  // ---------------------------------------------------------------- what the codec promises

  lemma {:induction false} RecordsAppend(a: seq<Page>, b: seq<Page>)
    ensures Records(a + b) == Records(a) + Records(b)
  {
    if a == [] {
      assert a + b == b;
    } else {
      assert (a + b)[1..] == a[1..] + b;
      RecordsAppend(a[1..], b);
    }
  }

  lemma {:induction false} RecordsLength(pages: seq<Page>, pageSize: nat)
    requires PagesOf(pages, pageSize)
    ensures |Records(pages)| == |pages| * (PAGE_NUM_BYTES + pageSize)
  {
    if pages != [] {
      RecordsLength(pages[1..], pageSize);
      assert |pages| * (PAGE_NUM_BYTES + pageSize) == (|pages| - 1) * (PAGE_NUM_BYTES + pageSize) + (PAGE_NUM_BYTES + pageSize);
    }
  }

  lemma {:induction false} RecordsRead(pages: seq<Page>, pageSize: nat)
    requires PagesOf(pages, pageSize) && Numbered(pages)
    ensures ReadRecords(Records(pages), pageSize, |pages|) == Some(pages)
  {
    if pages != [] {
      var p := pages[0];
      RecordsRead(pages[1..], pageSize);
      Limits();
      LeRoundTrip(p.num, 8);
      var r := Records(pages);
      assert r[..8] == Le(p.num, 8) && r[8..8 + pageSize] == p.data && r[8 + pageSize..] == Records(pages[1..]);
      assert Page(FromLe(r[..8]), r[8..8 + pageSize]) == p;
      assert [p] + pages[1..] == pages;
    }
  }

  /** The only number of 64 bits that differs from n by a multiple of 2^64; n itself, if it is one. */
  lemma Int64Exact(n: int)
    ensures -0x8000_0000_0000_0000 <= Int64(n) < 0x8000_0000_0000_0000 && (n - Int64(n)) % 0x1_0000_0000_0000_0000 == 0
    ensures -0x8000_0000_0000_0000 <= n < 0x8000_0000_0000_0000 ==> Int64(n) == n
  {
  }

  /** The fields of the header, read from any file that starts with it. */
  lemma HeaderRead(data: seq<Byte>, pageSize: nat, count: nat, sum: nat)
    requires |data| >= WAL_HEADER_SIZE && data[..28] == WalHeader(pageSize, count, sum)
    requires pageSize < 0x1_0000_0000 && count < 0x1_0000_0000_0000_0000 && sum < 0x1_0000_0000
    ensures data[..8] == WAL_MAGIC && FromLe(data[8..12]) == WAL_VERSION && FromLe(data[12..16]) == pageSize
    ensures FromLe(data[16..24]) == count && FromLe(data[24..28]) == sum
  {
    Limits();
    LeRoundTrip(WAL_VERSION, 4);
    LeRoundTrip(pageSize, 4);
    LeRoundTrip(count, 8);
    LeRoundTrip(sum, 4);
    var h := WalHeader(pageSize, count, sum);
    assert h[..8] == WAL_MAGIC && h[8..12] == Le(WAL_VERSION, 4) && h[12..16] == Le(pageSize, 4);
    assert h[16..24] == Le(count, 8) && h[24..28] == Le(sum, 4);
    SubSlice(data, 0, 28, 0, 8);
    SubSlice(data, 0, 28, 8, 12);
    SubSlice(data, 0, 28, 12, 16);
    SubSlice(data, 0, 28, 16, 24);
    SubSlice(data, 0, 28, 24, 28);
    assert data[0..28] == data[..28] && data[0..8] == data[..8] && h[0..8] == h[..8];
  }

  /**
   * What is read from a log of which the first n bytes are there: the pages
   * written if that is all of it, and no log otherwise.
   */
  lemma PrefixRead(pages: seq<Page>, pageSize: nat, crc: Checksum, n: nat)
    requires PagesOf(pages, pageSize) && Numbered(pages) && pageSize < 0x1_0000_0000
    requires n <= |WalFile(pages, pageSize, crc)| < 0x8000_0000_0000_0000
    ensures var file := WalFile(pages, pageSize, crc);
      ReadWal(Some(file[..n]), pageSize, crc) == if n == |file| then Replay(pages) else NoWal
  {
    var file, sum := WalFile(pages, pageSize, crc), Sum32(crc, Records(pages));
    var data, h := file[..n], WalHeader(pageSize, |pages|, sum);
    RecordsLength(pages, pageSize);
    if n >= WAL_HEADER_SIZE {
      CountBound(|pages|, PAGE_NUM_BYTES + pageSize);
      HeadAndTail(h, Records(pages), n);
      HeaderRead(data, pageSize, |pages|, sum);
      Int64Exact(|pages|);
      Int64Exact(|file|);
      RecordsRead(pages, pageSize);
    }
  }

  lemma CountBound(n: nat, size: nat)
    requires size > 0
    ensures n <= n * size
  {
  }

  lemma HeadAndTail(h: seq<Byte>, r: seq<Byte>, n: nat)
    requires |h| <= n <= |h| + |r|
    ensures (h + r)[..n][..|h|] == h && (h + r)[..n][|h|..] == r[..n - |h|]
    ensures r[..|r|] == r
  {
  }

  /** The log is read back as the pages it was written for. */
  lemma WalRoundTrip(pages: seq<Page>, pageSize: nat, crc: Checksum)
    requires PagesOf(pages, pageSize) && Numbered(pages) && pageSize < 0x1_0000_0000
    requires |WalFile(pages, pageSize, crc)| < 0x8000_0000_0000_0000
    ensures ReadWal(Some(WalFile(pages, pageSize, crc)), pageSize, crc) == Replay(pages)
  {
    var file := WalFile(pages, pageSize, crc);
    PrefixRead(pages, pageSize, crc, |file|);
    assert file[..|file|] == file;
  }

  // ---------------------------------------------------------------- any file at all

  /** What was read as records is the records of the pages read, if nothing is left over. */
  lemma {:induction false} RecordsParsed(records: seq<Byte>, pageSize: nat, count: nat)
    requires ReadRecords(records, pageSize, count).Some?
    ensures |records| >= count * (PAGE_NUM_BYTES + pageSize)
    ensures |records| == count * (PAGE_NUM_BYTES + pageSize) ==>
      var pages := ReadRecords(records, pageSize, count).value;
      |pages| == count && PagesOf(pages, pageSize) && Numbered(pages) && records == Records(pages)
  {
    var size := PAGE_NUM_BYTES + pageSize;
    if count > 0 {
      assert count * size == (count - 1) * size + size;
      RecordsParsed(records[size..], pageSize, count - 1);
      var pages := ReadRecords(records, pageSize, count).value;
      FirstRecord(records, pageSize);
      assert pages[0] == Page(FromLe(records[..8]), records[8..size]) && pages[1..] == ReadRecords(records[size..], pageSize, count - 1).value;
    }
  }

  lemma FirstRecord(records: seq<Byte>, pageSize: nat)
    requires |records| >= PAGE_NUM_BYTES + pageSize
    ensures var p, size := Page(FromLe(records[..8]), records[8..8 + pageSize]), PAGE_NUM_BYTES + pageSize;
      p.num < UINT64_LIMIT && records == Record(p) + records[size..]
  {
    Limits();
    FromLeExact(records[..8], FromLe(records[..8]));
  }

  /** The fields that make up the first 28 bytes. */
  lemma HeaderParsed(data: seq<Byte>)
    requires |data| >= WAL_HEADER_SIZE && data[..8] == WAL_MAGIC && FromLe(data[8..12]) == WAL_VERSION
    ensures data[..28] == WalHeader(FromLe(data[12..16]), FromLe(data[16..24]), FromLe(data[24..28]))
  {
    FromLeExact(data[8..12], WAL_VERSION);
    FromLeExact(data[12..16], FromLe(data[12..16]));
    FromLeExact(data[16..24], FromLe(data[16..24]));
    FromLeExact(data[24..28], FromLe(data[24..28]));
    assert data[..28] == data[..8] + data[8..12] + data[12..16] + data[16..24] + data[24..28];
  }

  /** Only the log of some pages, checksum and all, is replayed, and then these pages are. */
  lemma ReplayExact(data: seq<Byte>, pageSize: nat, crc: Checksum, pages: seq<Page>)
    requires |data| < 0x8000_0000_0000_0000 && pageSize < 0x1_0000_0000
    ensures ReadWal(Some(data), pageSize, crc) == Replay(pages)
      <==> PagesOf(pages, pageSize) && Numbered(pages) && data == WalFile(pages, pageSize, crc)
  {
    if ReadWal(Some(data), pageSize, crc) == Replay(pages) {
      ReplayedIsLog(data, pageSize, crc);
    } else if PagesOf(pages, pageSize) && Numbered(pages) && data == WalFile(pages, pageSize, crc) {
      WalRoundTrip(pages, pageSize, crc);
    }
  }

  lemma ReplayedIsLog(data: seq<Byte>, pageSize: nat, crc: Checksum)
    requires |data| < 0x8000_0000_0000_0000 && ReadWal(Some(data), pageSize, crc).Replay?
    ensures var pages := ReadWal(Some(data), pageSize, crc).pages;
      PagesOf(pages, pageSize) && Numbered(pages) && data == WalFile(pages, pageSize, crc)
  {
    var n, size := FromLe(data[16..24]), PAGE_NUM_BYTES + pageSize;
    CountRead(data[16..24]);
    ReplayedChecks(data, pageSize, crc);
    RecordsParsed(data[28..], pageSize, n);
    ExpectedSize(n, size, |data|);
    HeaderParsed(data);
    CutAt(data, 27);
  }

  /** Nothing is replayed whose magic, version, page size or checksum is another. */
  lemma ReplayedChecks(data: seq<Byte>, pageSize: nat, crc: Checksum)
    requires ReadWal(Some(data), pageSize, crc).Replay?
    ensures |data| >= 28 && data[..8] == WAL_MAGIC && FromLe(data[8..12]) == WAL_VERSION && FromLe(data[12..16]) == pageSize
    ensures crc(data[28..]) % 0x1_0000_0000 == FromLe(data[24..28])
  {
  }

  /** A count read as a 64-bit number that is not negative. */
  lemma CountRead(s: seq<Byte>)
    requires |s| == 8
    ensures Int64(FromLe(s)) >= 0 ==> Int64(FromLe(s)) == FromLe(s)
  {
    Limits();
    FromLeBound(s);
  }

  /** Records that are there do not make the size wrap round. */
  lemma ExpectedSize(n: nat, size: nat, length: nat)
    requires WAL_HEADER_SIZE + n * size <= length < 0x8000_0000_0000_0000 && Int64(WAL_HEADER_SIZE + n * size) == length
    ensures WAL_HEADER_SIZE + n * size == length
  {
  }

  /** The first 16 bytes of a log of pages of this size: magic, version and page size. */
  function WalStart(pageSize: nat): (s: seq<Byte>)
    ensures |s| == 16
  {
    [0x4D, 0x59, 0x4B, 0x56, 0x57, 0x41, 0x4C, 0x31, 1, 0, 0, 0] + Le(pageSize, 4)
  }

  /** A file is no log if it is missing, shorter than a header, or begins like a log but has another length than its header says. All other files but logs are errors. */
  lemma NoWalExact(file: Option<seq<Byte>>, pageSize: nat, crc: Checksum)
    requires pageSize < 0x1_0000_0000
    ensures ReadWal(file, pageSize, crc) == NoWal <==>
      || file.None? || |file.value| < 28
      || (file.value[..16] == WalStart(pageSize) && Int64(28 + Int64(FromLe(file.value[16..24])) * (8 + pageSize)) != |file.value|)
  {
    if file.Some? && |file.value| >= 28 { StartExact(file.value, pageSize); }
  }

  lemma StartExact(data: seq<Byte>, pageSize: nat)
    requires |data| >= 28 && pageSize < 0x1_0000_0000
    ensures data[..16] == WalStart(pageSize)
      <==> data[..8] == WAL_MAGIC && FromLe(data[8..12]) == WAL_VERSION && FromLe(data[12..16]) == pageSize
  {
    Limits();
    FromLeExact(data[8..12], 1);
    FromLeExact(data[12..16], pageSize);
    VersionBytes();
    assert data[..16] == data[..8] + data[8..12] + data[12..16];
    assert WalStart(pageSize)[..8] == WAL_MAGIC && WalStart(pageSize)[8..12] == [1, 0, 0, 0] && WalStart(pageSize)[12..] == Le(pageSize, 4);
    if data[..16] == WalStart(pageSize) {
      SubSlice(data, 0, 16, 0, 8);
      SubSlice(data, 0, 16, 8, 12);
      SubSlice(data, 0, 16, 12, 16);
    }
  }

  lemma VersionBytes()
    ensures Le(WAL_VERSION, 4) == [1, 0, 0, 0]
  {
  }

  /** Where the fields of a log are: magic and version, page size, number of pages and checksum; then each page's number and bytes. */
  lemma WalLayout(pages: seq<Page>, pageSize: nat, crc: Checksum, i: nat)
    requires PagesOf(pages, pageSize) && i < |pages|
    ensures var d, at := WalFile(pages, pageSize, crc), 28 + i * (8 + pageSize);
      && |d| == 28 + |pages| * (8 + pageSize) && at + 8 + pageSize <= |d|
      && d[0..16] == WalStart(pageSize) && d[16..24] == Le(|pages|, 8) && d[24..28] == Le(crc(d[28..]) % 0x1_0000_0000, 4)
      && d[at..at + 8] == Le(pages[i].num, 8) && d[at + 8..at + 8 + pageSize] == pages[i].data
  {
    var r := Records(pages);
    RecordsLength(pages, pageSize);
    HeadLayout(WalHeader(pageSize, |pages|, Sum32(crc, r)), r, pageSize, |pages|, Sum32(crc, r));
    TailLayout(WalHeader(pageSize, |pages|, Sum32(crc, r)), pages, pageSize, i);
  }

  lemma HeadLayout(h: seq<Byte>, r: seq<Byte>, pageSize: nat, count: nat, sum: nat)
    requires h == WalHeader(pageSize, count, sum)
    ensures var d := h + r; d[0..16] == WalStart(pageSize) && d[16..24] == Le(count, 8) && d[24..28] == Le(sum, 4) && d[28..] == r
  {
    HeaderLayout(pageSize, count, sum);
    AppendDrop(h, r);
    InHead(h, r, 0, 16);
    InHead(h, r, 16, 24);
    InHead(h, r, 24, 28);
  }

  lemma TailLayout(h: seq<Byte>, pages: seq<Page>, pageSize: nat, i: nat)
    requires PagesOf(pages, pageSize) && i < |pages| && |h| == 28
    ensures var d, at := h + Records(pages), 28 + i * (8 + pageSize);
      at + 8 + pageSize <= |d| && d[at..at + 8] == Le(pages[i].num, 8) && d[at + 8..at + 8 + pageSize] == pages[i].data
  {
    var r, a := Records(pages), i * (8 + pageSize);
    RecordAt(pages, pageSize, i);
    InTail(h, r, a, a + 8);
    InTail(h, r, a + 8, a + 8 + pageSize);
  }

  lemma HeaderLayout(pageSize: nat, count: nat, sum: nat)
    ensures var h := WalHeader(pageSize, count, sum); h[0..16] == WalStart(pageSize) && h[16..24] == Le(count, 8) && h[24..28] == Le(sum, 4)
  {
    VersionBytes();
  }

  lemma {:induction false} RecordAt(pages: seq<Page>, pageSize: nat, i: nat)
    requires PagesOf(pages, pageSize) && i < |pages|
    ensures var r, a := Records(pages), i * (8 + pageSize);
      a + 8 + pageSize <= |r| && r[a..a + 8] == Le(pages[i].num, 8) && r[a + 8..a + 8 + pageSize] == pages[i].data
  {
    if i > 0 {
      RecordAt(pages[1..], pageSize, i - 1);
      RecordBehind(Record(pages[0]), Records(pages[1..]), 8 + pageSize, i - 1, pageSize);
    } else {
      RecordFirst(pages[0], Records(pages[1..]), pageSize);
    }
  }

  lemma RecordFirst(p: Page, rest: seq<Byte>, pageSize: nat)
    requires |p.data| == pageSize
    ensures var r := Record(p) + rest; |r| >= 8 + pageSize && r[0..8] == Le(p.num, 8) && r[8..8 + pageSize] == p.data
  {
    var n := Le(p.num, 8);
    AppendDrop(n, p.data);
    InHead(n + p.data, rest, 0, 8);
    InHead(n + p.data, rest, 8, 8 + pageSize);
  }

  lemma RecordBehind(first: seq<Byte>, rest: seq<Byte>, size: nat, j: nat, pageSize: nat)
    requires |first| == size == 8 + pageSize && j * size + size <= |rest|
    ensures var r, a, b := first + rest, (j + 1) * size, j * size;
      a + size <= |r| && r[a..a + 8] == rest[b..b + 8] && r[a + 8..a + 8 + pageSize] == rest[b + 8..b + 8 + pageSize]
  {
    var b := j * size;
    assert (j + 1) * size == size + b;
    InTail(first, rest, b, b + 8);
    InTail(first, rest, b + 8, b + 8 + pageSize);
  }

  // ---------------------------------------------------------------- the code

  /** writeWAL, up to the file operations; None is the error for a page of another size. */
  method EncodeWal(pages: seq<Page>, pageSize: nat, crc: Checksum) returns (file: Option<seq<Byte>>)
    ensures file.Some? <==> PagesOf(pages, pageSize)
    ensures file.Some? ==> file.value == WalFile(pages, pageSize, crc)
  {
    var records: seq<Byte> := [];
    for i := 0 to |pages|
      invariant records == Records(pages[..i])
      invariant forall j :: 0 <= j < i ==> |pages[j].data| == pageSize
    {
      if |pages[i].data| != pageSize {
        return None;
      }
      records := records + Le(pages[i].num, 8);
      records := records + pages[i].data;
      assert pages[..i + 1] == pages[..i] + [pages[i]];
      RecordsAppend(pages[..i], [pages[i]]);
    }
    assert pages[..|pages|] == pages;
    var header := WAL_MAGIC;
    header := header + Le(WAL_VERSION, 4);
    header := header + Le(pageSize, 4);
    header := header + Le(|pages|, 8);
    header := header + Le(Sum32(crc, records), 4);
    return Some(header + records);
  }

  /** readWAL, given the file's contents. */
  method DecodeWal(file: Option<seq<Byte>>, pageSize: nat, crc: Checksum) returns (r: WalRead)
    ensures r == ReadWal(file, pageSize, crc)
  {
    if file.None? {
      return NoWal;
    }
    var data := file.value;
    if |data| < WAL_HEADER_SIZE {
      return NoWal;
    }
    if data[..8] != WAL_MAGIC || FromLe(data[8..12]) != WAL_VERSION {
      return Failed;
    }
    if FromLe(data[12..16]) != pageSize {
      return Failed;
    }
    var count := Int64(FromLe(data[16..24]));
    var checksum := FromLe(data[24..28]);
    var expectedSize := Int64(WAL_HEADER_SIZE + count * (PAGE_NUM_BYTES + pageSize));
    if expectedSize != |data| {
      return NoWal;
    }
    var records := data[28..];
    if Sum32(crc, records) != checksum || count < 0 {
      return Failed;
    }
    r := DecodeRecords(records, pageSize, count);
  }

  /** readWAL's loop. */
  method DecodeRecords(records: seq<Byte>, pageSize: nat, count: nat) returns (r: WalRead)
    ensures r == match ReadRecords(records, pageSize, count) case None => Failed case Some(pages) => Replay(pages)
  {
    var pages: seq<Page>, rest := [], records;
    PrependedNone(ReadRecords(records, pageSize, count));
    for i := 0 to count
      invariant Prepended(pages, ReadRecords(rest, pageSize, count - i)) == ReadRecords(records, pageSize, count)
    {
      if |rest| < PAGE_NUM_BYTES + pageSize {
        return Failed;
      }
      var page := Page(FromLe(rest[..8]), rest[8..8 + pageSize]);
      PrependedStep(pages, page, ReadRecords(rest[PAGE_NUM_BYTES + pageSize..], pageSize, count - i - 1));
      pages := pages + [page];
      rest := rest[PAGE_NUM_BYTES + pageSize..];
    }
    return Replay(pages);
  }

  function Prepended(pages: seq<Page>, rest: Option<seq<Page>>): Option<seq<Page>> {
    match rest
    case None => None
    case Some(r) => Some(pages + r)
  }

  lemma PrependedNone(rest: Option<seq<Page>>)
    ensures Prepended([], rest) == rest
  {
    if rest.Some? { assert [] + rest.value == rest.value; }
  }

  lemma PrependedStep(pages: seq<Page>, p: Page, rest: Option<seq<Page>>)
    ensures Prepended(pages, Prepended([p], rest)) == Prepended(pages + [p], rest)
  {
    if rest.Some? { assert pages + ([p] + rest.value) == pages + [p] + rest.value; }
  }
}
