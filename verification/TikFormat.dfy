/** The record file shared by tikdb and tikfs (`5_filesys/tikfs.h`): a file header, then records of a
    56-byte data header and its payload.  Sizes and byte order are those of 64-bit little-endian Linux. */
module TikFormat {
  import opened Files

  const KEY_SIZE := 32
  const HDR_SIZE := 56
  const SUPER_SIZE := 8
  const TWO32 := 0x1_0000_0000

  const MAGIC := 0xbeefee
  const VERSION_MAJ := 1
  const VERSION_MIN := 0

  function Le16(n: nat): seq<byte> {
    [n % 256, n / 256 % 256]
  }

  function Le32(n: nat): seq<byte> {
    [n % 256, n / 256 % 256, n / 65536 % 256, n / 16777216 % 256]
  }

  function FromLe16(b: seq<byte>): nat
    requires |b| == 2
  {
    b[0] + 256 * (b[1] as int)
  }

  function FromLe32(b: seq<byte>): (n: nat)
    requires |b| == 4
    ensures n < TWO32
  {
    b[0] + 256 * (b[1] as int) + 65536 * (b[2] as int) + 16777216 * (b[3] as int)
  }

  lemma Le32RoundTrip(n: nat, b: seq<byte>)
    requires n < TWO32 && |b| == 4
    ensures FromLe32(Le32(n)) == n
    ensures Le32(FromLe32(b)) == b
  {
    var n1, n2, n3 := n / 256, n / 65536, n / 16777216;
    assert n2 == n1 / 256 && n3 == n2 / 256;
    var m := FromLe32(b);
    assert m / 256 == b[1] + 256 * (b[2] as int) + 65536 * (b[3] as int);
    assert m / 65536 == b[2] + 256 * (b[3] as int);
    assert m / 16777216 == b[3];
  }

  /** `struct tikdb_datahdr`: times and padding are kept as the raw bytes they are on disc. */
  datatype RawHdr = Hdr(key: seq<byte>, tsR: seq<byte>, tsW: seq<byte>, len: nat, pad: seq<byte>)

  const NO_KEY: seq<byte> := seq(32, _ => 0)
  const NO_TIME: seq<byte> := seq(8, _ => 0)
  const NO_PAD: seq<byte> := seq(4, _ => 0)

  type DataHdr = h: RawHdr |
    |h.key| == KEY_SIZE && |h.tsR| == 8 && |h.tsW| == 8 && h.len < TWO32 && |h.pad| == 4
    witness Hdr(NO_KEY, NO_TIME, NO_TIME, 0, NO_PAD)

  type Time = t: seq<byte> | |t| == 8 witness NO_TIME

  function Encode(h: DataHdr): (b: seq<byte>)
    ensures |b| == HDR_SIZE
  {
    h.key + h.tsR + h.tsW + Le32(h.len) + h.pad
  }

  function Decode(b: seq<byte>): DataHdr
    requires |b| == HDR_SIZE
  {
    Hdr(b[..32], b[32..40], b[40..48], FromLe32(b[48..52]), b[52..])
  }

  /** A header survives the disc, and every 56 bytes are a header. */
  lemma HeaderRoundTrip(h: DataHdr, b: seq<byte>)
    requires |b| == HDR_SIZE
    ensures Decode(Encode(h)) == h
    ensures Encode(Decode(b)) == b
  {
    Le32RoundTrip(h.len, b[48..52]);
    assert Encode(h)[48..52] == Le32(h.len);
  }

  /** Which bytes of a header hold what: the key, the two times, and the length, low byte first. */
  lemma HeaderLayout(h: DataHdr)
    ensures var b := Encode(h);
            && |b| == 56
            && b[..32] == h.key && b[32..40] == h.tsR && b[40..48] == h.tsW
            && h.len == b[48] as int + 256 * b[49] as int + 65536 * b[50] as int + 16777216 * b[51] as int
            && b[52..] == h.pad
  {
    HeaderRoundTrip(h, Encode(h));
    var b := Encode(h);
    assert Decode(b) == h && b[48..52] == [b[48], b[49], b[50], b[51]];
  }

  datatype HdrCheck = HdrOk | ShortRead | WrongMagic | WrongMajor | WrongMinor

  /** `check_db_hdr` and `tikfs_check_superblock`. */
  function CheckHeader(disc: seq<byte>): HdrCheck {
    if |disc| < SUPER_SIZE then ShortRead
    else if FromLe32(disc[..4]) != MAGIC then WrongMagic
    else if FromLe16(disc[4..6]) != VERSION_MAJ then WrongMajor
    else if FromLe16(disc[6..8]) != VERSION_MIN then WrongMinor
    else HdrOk
  }

  /** What `__create_db` writes. */
  const FILE_HEADER: seq<byte> := Le32(MAGIC) + Le16(VERSION_MAJ) + Le16(VERSION_MIN)

  /** Exactly the created header is accepted. */
  lemma OnlyCreatedHeader(disc: seq<byte>)
    ensures CheckHeader(disc) == HdrOk <==> FILE_HEADER <= disc
  {
    if |disc| >= SUPER_SIZE {
      Le32RoundTrip(MAGIC, disc[..4]);
      assert disc[..8] == disc[..4] + disc[4..6] + disc[6..8];
      assert disc[..8] == FILE_HEADER ==> disc[..4] == FILE_HEADER[..4] == Le32(MAGIC);
      assert disc[..8] == FILE_HEADER ==> disc[4..6] == FILE_HEADER[4..6] == Le16(1);
      assert disc[..8] == FILE_HEADER ==> disc[6..8] == FILE_HEADER[6..8] == Le16(0);
    }
  }

  lemma Le16RoundTrip(n: nat, b: seq<byte>)
    requires n < 65536 && |b| == 2
    ensures FromLe16(b) == n <==> b == Le16(n)
  {
    assert FromLe16(Le16(n)) == n;
    var m := FromLe16(b);
    assert m / 256 == b[1] && m % 256 == b[0];
    assert b == Le16(m);
  }

  /** The header check by the bytes of the file: too short, or the first of magic, major and minor
      version that is not as created. */
  lemma HeaderVerdicts(disc: seq<byte>)
    ensures CheckHeader(disc) == ShortRead <==> |disc| < 8
    ensures CheckHeader(disc) == WrongMagic <==> |disc| >= 8 && disc[..4] != [0xee, 0xef, 0xbe, 0]
    ensures CheckHeader(disc) == WrongMajor <==>
            |disc| >= 8 && disc[..4] == [0xee, 0xef, 0xbe, 0] && disc[4..6] != [1, 0]
    ensures CheckHeader(disc) == WrongMinor <==>
            |disc| >= 8 && disc[..6] == [0xee, 0xef, 0xbe, 0, 1, 0] && disc[6..8] != [0, 0]
    ensures CheckHeader(disc) == HdrOk <==> [0xee, 0xef, 0xbe, 0, 1, 0, 0, 0] <= disc
  {
    if |disc| >= 8 {
      Le32RoundTrip(MAGIC, disc[..4]);
      Le16RoundTrip(VERSION_MAJ, disc[4..6]);
      Le16RoundTrip(VERSION_MIN, disc[6..8]);
      assert Le32(MAGIC) == [0xee, 0xef, 0xbe, 0] && Le16(VERSION_MAJ) == [1, 0] && Le16(VERSION_MIN) == [0, 0];
      assert disc[..6] == disc[..4] + disc[4..6];
      assert disc[..8] == disc[..6] + disc[6..8];
      assert [0xee, 0xef, 0xbe, 0, 1, 0, 0, 0][..6] == [0xee, 0xef, 0xbe, 0] + [1, 0];
    }
  }

  datatype RawRecord = Record(hdr: DataHdr, payload: seq<byte>)

  type Record = r: RawRecord | |r.payload| == r.hdr.len
    witness Record(Hdr(NO_KEY, NO_TIME, NO_TIME, 0, NO_PAD), [])

  /** The records, packed. */
  function Body(rs: seq<Record>): seq<byte> {
    if rs == [] then []
    else Body(rs[..|rs| - 1]) + Encode(rs[|rs| - 1].hdr) + rs[|rs| - 1].payload
  }

  /** A whole file. */
  function Image(rs: seq<Record>): seq<byte> {
    FILE_HEADER + Body(rs)
  }

  lemma BodySnoc(rs: seq<Record>, i: nat)
    requires i < |rs|
    ensures Body(rs[..i + 1]) == Body(rs[..i]) + Encode(rs[i].hdr) + rs[i].payload
  {
    assert rs[..i + 1][..i] == rs[..i];
  }

  /** A prefix of the records is a prefix of the bytes. */
  lemma {:induction false} BodyPrefix(rs: seq<Record>, i: nat)
    requires i <= |rs|
    ensures Body(rs[..i]) <= Body(rs)
    decreases |rs| - i
  {
    if i == |rs| {
      assert rs[..i] == rs;
    } else {
      BodySnoc(rs, i);
      BodyPrefix(rs, i + 1);
    }
  }

  /** Where record i is found: its header at |Body(rs[..i])|, its payload right after. */
  lemma RecordAt(rs: seq<Record>, i: nat)
    requires i < |rs|
    ensures var off := |Body(rs[..i])|;
            && off + HDR_SIZE + |rs[i].payload| == |Body(rs[..i + 1])| <= |Body(rs)|
            && Body(rs)[off..off + HDR_SIZE] == Encode(rs[i].hdr)
            && Body(rs)[off + HDR_SIZE..off + HDR_SIZE + rs[i].hdr.len] == rs[i].payload
  {
    BodySnoc(rs, i);
    BodyPrefix(rs, i + 1);
  }

  function RecordBytes(r: Record): seq<byte> {
    Encode(r.hdr) + r.payload
  }

  lemma ImageNext(rs: seq<Record>, i: nat)
    requires i < |rs|
    ensures Image(rs[..i + 1]) == Image(rs[..i]) + RecordBytes(rs[i])
  {
    BodySnoc(rs, i);
  }
}
