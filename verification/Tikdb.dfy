/** The key-value tool of `5_filesys/tikdb.c` on the same file format. */
module Tikdb {
  import opened Files
  import opened TikFormat
  import opened TikTable

  const MAX_KEY := 31

  /** The part of a requested key the tool looks at. */
  function Cut(key: seq<byte>): (k: seq<byte>) {
    if |key| <= MAX_KEY then key else key[..MAX_KEY]
  }

  /** The 32 bytes stored for a requested key. */
  function Padded(key: seq<byte>): (k: seq<byte>)
    ensures |k| == KEY_SIZE
  {
    Cut(key) + seq<byte>(KEY_SIZE - |Cut(key)|, _ => 0)
  }

  /** `memcmp` over the cut key: the stored key begins with it. */
  predicate Hits(h: DataHdr, key: seq<byte>) {
    Cut(key) <= h.key
  }

  /** The first record from index i on whose key begins with the requested one. */
  function FirstHit(rs: seq<Record>, key: seq<byte>, i: nat): (r: nat)
    requires i <= |rs|
    ensures i <= r <= |rs| && (r < |rs| ==> Hits(rs[r].hdr, key))
    ensures forall k :: i <= k < r ==> !Hits(rs[k].hdr, key)
    decreases |rs| - i
  {
    if i == |rs| || Hits(rs[i].hdr, key) then i else FirstHit(rs, key, i + 1)
  }

  function Fresh(key: seq<byte>, val: seq<byte>, now: Time): Record
    requires |val| < TWO32
  {
    Record(Hdr(Padded(key), now, now, |val|, [0, 0, 0, 0]), val)
  }

  /** What adding a pair means: the first record hit is replaced, or the pair is appended. */
  function Added(rs: seq<Record>, key: seq<byte>, val: seq<byte>, now: Time): seq<Record>
    requires |val| < TWO32
  {
    var i := FirstHit(rs, key, 0);
    if i < |rs| then rs[i := Fresh(key, val, now)] else rs + [Fresh(key, val, now)]
  }

  /** What looking up a key means. */
  function Lookup(rs: seq<Record>, key: seq<byte>): Option<seq<byte>> {
    var i := FirstHit(rs, key, 0);
    if i < |rs| then Some(rs[i].payload) else None
  }

  /** `__create_db`. */
  method CreateDb(fd: OpenFile)
    requires !fd.append
    modifies fd
    ensures fd.content == Image([]) && fd.pos == SUPER_SIZE
  {
    fd.Lseek(0);
    fd.Truncate(0);
    fd.Write(FILE_HEADER);
  }

  method WriteRecord(fd: OpenFile, r: Record)
    requires !fd.append && fd.pos == |fd.content|
    modifies fd
    ensures fd.content == old(fd.content) + RecordBytes(r) && fd.pos == |fd.content|
  {
    fd.Write(Encode(r.hdr));
    fd.Write(r.payload);
  }

  /** The header and payload at a record boundary of the packed records. */
  lemma BoundaryHolds(rs: seq<Record>, i: nat, off: nat)
    requires i <= |rs| && off == |Body(rs[..i])| < |Body(rs)|
    ensures i < |rs| && off + HDR_SIZE + rs[i].hdr.len == |Body(rs[..i + 1])| <= |Body(rs)|
    ensures Decode(Body(rs)[off..off + HDR_SIZE]) == rs[i].hdr
    ensures Body(rs)[off + HDR_SIZE..off + HDR_SIZE + rs[i].hdr.len] == rs[i].payload
  {
    assert rs[..|rs|] == rs;
    assert i < |rs|;
    RecordAt(rs, i);
    HeaderRoundTrip(rs[i].hdr, Encode(rs[i].hdr));
  }

  /** Header and payload at offset `off` of the packed records. */
  method RecordIn(pay: seq<byte>, off: nat, ghost rs: seq<Record>, ghost i: nat) returns (r: Record)
    requires pay == Body(rs) && i <= |rs| && off == |Body(rs[..i])| < |pay|
    ensures i < |rs| && r == rs[i]
    ensures off + HDR_SIZE + r.hdr.len == |Body(rs[..i + 1])| <= |pay|
  {
    BoundaryHolds(rs, i, off);
    var hdr := Decode(pay[off..off + HDR_SIZE]);
    r := Record(hdr, pay[off + HDR_SIZE..off + HDR_SIZE + hdr.len]);
  }

  /** One record of the loop below: the first hit gives way to `entry`. */
  method CopyRecord(fd: OpenFile, key: seq<byte>, entry: Record, r: Record, written: bool) returns (hit: bool)
    requires !fd.append && fd.pos == |fd.content|
    modifies fd
    ensures hit == (!written && Hits(r.hdr, key)) && fd.pos == |fd.content|
    ensures fd.content == old(fd.content) + RecordBytes(if hit then entry else r)
  {
    hit := !written && Hits(r.hdr, key);
    if hit {
      WriteRecord(fd, entry);
    } else {
      WriteRecord(fd, r);
    }
  }

  /** The loop of `__add_key_val`: the first record hit is replaced by `entry`, the others are copied. */
  method CopyRecords(fd: OpenFile, key: seq<byte>, entry: Record, pay: seq<byte>,
                     ghost rs: seq<Record>, ghost goal: seq<Record>)
    returns (written: bool)
    requires !fd.append && fd.content == Image([]) && fd.pos == |fd.content| && pay == Body(rs) && |rs| <= |goal|
    requires forall i :: 0 <= i < |rs| ==> goal[i] == if i == FirstHit(rs, key, 0) then entry else rs[i]
    modifies fd
    ensures fd.content == Image(goal[..|rs|]) && fd.pos == |fd.content|
    ensures written <==> FirstHit(rs, key, 0) < |rs|
  {
    var off := 0;
    ghost var i := 0;
    written := false;
    assert goal[..0] == rs[..0] == [];
    while off < |pay|
      invariant i <= |rs| && off == |Body(rs[..i])| <= |pay|
      invariant fd.content == Image(goal[..i]) && fd.pos == |fd.content|
      invariant written <==> FirstHit(rs, key, 0) < i
      decreases |pay| - off
    {
      var r := RecordIn(pay, off, rs, i);
      ImageNext(goal, i);
      var hit := CopyRecord(fd, key, entry, r, written);
      written := written || hit;
      off := off + HDR_SIZE + r.hdr.len;
      i := i + 1;
    }
    AllWalked(rs, i);
  }

  /** `__add_key_val`. */
  method Rebuild(fd: OpenFile, key: seq<byte>, val: seq<byte>, now: Time, pay: seq<byte>, ghost rs: seq<Record>)
    requires !fd.append && |val| < TWO32 && pay == Body(rs)
    modifies fd
    ensures fd.content == Image(Added(rs, key, val, now))
  {
    CreateDb(fd);
    var entry := Fresh(key, val, now);
    ghost var goal := Added(rs, key, val, now);
    var written := CopyRecords(fd, key, entry, pay, rs, goal);
    if !written {
      ImageNext(goal, |rs|);
      WriteRecord(fd, entry);
    }
    assert goal[..|goal|] == goal;
  }

  lemma {:induction false} AllWalked(rs: seq<Record>, i: nat)
    requires i <= |rs| && |Body(rs[..i])| == |Body(rs)|
    ensures i == |rs|
  {
    if i < |rs| {
      RecordAt(rs, i);
    }
  }

  /** `check_db_hdr`: reads the file header; anything else than HdrOk ends the tool. */
  method CheckDbHdr(fd: OpenFile) returns (r: HdrCheck)
    modifies fd`pos
    ensures r == CheckHeader(fd.content)
    ensures r == HdrOk ==> fd.pos == SUPER_SIZE
  {
    fd.Lseek(0);
    var db := fd.Read(SUPER_SIZE);
    if |db| < SUPER_SIZE {
      return ShortRead;
    }
    assert db[..4] == fd.content[..4] && db[4..6] == fd.content[4..6] && db[6..8] == fd.content[6..8];
    r := CheckHeader(db);
  }

  /** `add_key_val`: a file of another kind is left alone; on a database of records `rs` the file
      becomes the image of the updated records. */
  method AddKeyVal(fd: OpenFile, key: seq<byte>, val: seq<byte>, now: Time, ghost rs: seq<Record>) returns (r: HdrCheck)
    requires !fd.append && |val| < TWO32
    requires CheckHeader(fd.content) == HdrOk ==> fd.content == Image(rs)
    modifies fd
    ensures r == CheckHeader(old(fd.content))
    ensures r != HdrOk ==> fd.content == old(fd.content)
    ensures r == HdrOk ==> fd.content == Image(Added(rs, key, val, now))
  {
    r := CheckDbHdr(fd);
    if r != HdrOk {
      return;
    }
    var dbLen := |fd.content| - SUPER_SIZE;
    if dbLen > 0 {
      var pay := fd.Read(dbLen);
      assert pay == Body(rs);
      Rebuild(fd, key, val, now, pay, rs);
    } else {
      NoRecords(rs);
      WriteRecord(fd, Fresh(key, val, now));
      ImageNext([Fresh(key, val, now)], 0);
    }
  }

  lemma {:induction false} NoRecords(rs: seq<Record>)
    requires Body(rs) == []
    ensures rs == []
  {
  }

  /** How `get_key_val` ends: the printed bytes, nothing found, or the panic over a cut-off value. */
  datatype Answer = Found(bytes: seq<byte>) | NotFound | CannotRead

  function NoHeader(): (zeros: seq<byte>)
    ensures |zeros| == HDR_SIZE
  {
    seq<byte>(HDR_SIZE, _ => 0)
  }

  /** read(2) into `hdr`: a header cut off by the end of the file is completed by what `hdr` held. */
  function HeaderFrom(bytes: seq<byte>, memory: seq<byte>): DataHdr
    requires |bytes| <= HDR_SIZE == |memory|
  {
    if |bytes| == HDR_SIZE then Decode(bytes) else Decode(bytes + memory[|bytes|..])
  }

  datatype Round = AtEnd | Stop(answer: Answer) | Next(pos: nat)

  /** One round of the search, from a position on. */
  function Look(content: seq<byte>, pos: nat, key: seq<byte>, memory: seq<byte>): (r: Round)
    requires |memory| == HDR_SIZE
    ensures r.Next? ==> pos < r.pos && pos < |content|
  {
    var bytes := ReadAt(content, pos, HDR_SIZE);
    if bytes == [] then AtEnd
    else
      var hdr := HeaderFrom(bytes, memory);
      if Hits(hdr, key) then Stop(Value(ReadAt(content, pos + |bytes|, hdr.len), hdr.len))
      else Next(pos + |bytes| + hdr.len)
  }

  /** The search through any file; `hdr` is zeroed between two records, at first it holds whatever was
      in memory. */
  function LookIn(content: seq<byte>, pos: nat, key: seq<byte>, memory: seq<byte>): Answer
    requires |memory| == HDR_SIZE
    decreases if pos < |content| then |content| - pos else 0
  {
    match Look(content, pos, key, memory)
    case AtEnd => NotFound
    case Stop(answer) => answer
    case Next(next) => LookIn(content, next, key, NoHeader())
  }

  function Value(bytes: seq<byte>, len: nat): Answer {
    if |bytes| == len then Found(bytes) else CannotRead
  }

  /** `get_key_val`, on any file. */
  method GetKeyVal(fd: OpenFile, key: seq<byte>, memory: seq<byte>) returns (r: HdrCheck, answer: Answer)
    requires |memory| == HDR_SIZE
    modifies fd`pos
    ensures r == CheckHeader(fd.content)
    ensures r == HdrOk ==> answer == LookIn(fd.content, SUPER_SIZE, key, memory)
  {
    answer := NotFound;
    r := CheckDbHdr(fd);
    if r == HdrOk {
      answer := Search(fd, key, memory);
    }
  }

  /** The body of the reading loop. */
  method LookOnce(fd: OpenFile, key: seq<byte>, memory: seq<byte>) returns (r: Round)
    requires |memory| == HDR_SIZE
    modifies fd`pos
    ensures r == Look(fd.content, old(fd.pos), key, memory)
    ensures r.Next? ==> fd.pos == r.pos
  {
    var bytes := fd.Read(HDR_SIZE);
    if |bytes| == 0 {
      return AtEnd;
    }
    var hdr := HeaderFrom(bytes, memory);
    if Hits(hdr, key) {
      var buff := fd.Read(hdr.len);
      return Stop(Value(buff, hdr.len));
    }
    fd.Lseek(fd.pos + hdr.len);
    r := Next(fd.pos);
  }

  /** The reading loop of `get_key_val`. */
  method Search(fd: OpenFile, key: seq<byte>, memory: seq<byte>) returns (answer: Answer)
    requires fd.pos == SUPER_SIZE && |memory| == HDR_SIZE
    modifies fd`pos
    ensures answer == LookIn(fd.content, SUPER_SIZE, key, memory)
  {
    var held := memory;
    while true
      invariant |held| == HDR_SIZE
      invariant LookIn(fd.content, fd.pos, key, held) == LookIn(fd.content, SUPER_SIZE, key, memory)
      decreases if fd.pos < |fd.content| then |fd.content| - fd.pos else 0
    {
      var r := LookOnce(fd, key, held);
      match r {
        case AtEnd => return NotFound;
        case Stop(a) => return a;
        case Next(_) => held := NoHeader();
      }
    }
  }

  lemma ReadBetween(front: seq<byte>, back: seq<byte>, tail: seq<byte>, off: nat, n: nat)
    requires off + n <= |back|
    ensures ReadAt(front + back + tail, |front| + off, n) == back[off..off + n]
  {
  }

  /** The two reads at a record boundary of a file that begins with whole records. */
  lemma ReadsRecord(rs: seq<Record>, tail: seq<byte>, i: nat)
    requires i < |rs|
    ensures var c, pos := Image(rs) + tail, |Image(rs[..i])|;
            && ReadAt(c, pos, HDR_SIZE) == Encode(rs[i].hdr)
            && ReadAt(c, pos + HDR_SIZE, rs[i].hdr.len) == rs[i].payload
            && |Image(rs[..i + 1])| == pos + HDR_SIZE + rs[i].hdr.len
  {
    var off := |Body(rs[..i])|;
    RecordAt(rs, i);
    ReadBetween(FILE_HEADER, Body(rs), tail, off, HDR_SIZE);
    ReadBetween(FILE_HEADER, Body(rs), tail, off + HDR_SIZE, rs[i].hdr.len);
  }

  /** One round of the search where a record begins; its value may be cut off. */
  lemma LookAt(content: seq<byte>, pos: nat, key: seq<byte>, memory: seq<byte>, h: DataHdr)
    requires |memory| == HDR_SIZE && ReadAt(content, pos, HDR_SIZE) == Encode(h)
    ensures Look(content, pos, key, memory)
         == if Hits(h, key) then Stop(Value(ReadAt(content, pos + HDR_SIZE, h.len), h.len))
            else Next(pos + HDR_SIZE + h.len)
  {
    HeaderRoundTrip(h, Encode(h));
  }

  /** ... at a whole record of the file. */
  lemma LookAtRecord(rs: seq<Record>, tail: seq<byte>, key: seq<byte>, memory: seq<byte>, i: nat)
    requires |memory| == HDR_SIZE && i < |rs|
    ensures Look(Image(rs) + tail, |Image(rs[..i])|, key, memory)
         == if Hits(rs[i].hdr, key) then Stop(Found(rs[i].payload)) else Next(|Image(rs[..i + 1])|)
  {
    ReadsRecord(rs, tail, i);
    LookAt(Image(rs) + tail, |Image(rs[..i])|, key, memory, rs[i].hdr);
  }

  lemma {:induction false} LookFromRecord(rs: seq<Record>, tail: seq<byte>, key: seq<byte>, memory: seq<byte>, i: nat)
    requires |memory| == HDR_SIZE && i <= |rs|
    ensures LookIn(Image(rs) + tail, |Image(rs[..i])|, key, memory)
         == var hit := FirstHit(rs, key, i);
            if hit < |rs| then Found(rs[hit].payload)
            else LookIn(Image(rs) + tail, |Image(rs)|, key, if i == |rs| then memory else NoHeader())
    decreases |rs| - i
  {
    if i == |rs| {
      assert rs[..i] == rs;
    } else {
      LookAtRecord(rs, tail, key, memory, i);
      LookFromRecord(rs, tail, key, NoHeader(), i + 1);
    }
  }

  /** Whatever a file holds behind its whole records, the first record hit is found; the rest is
      looked at only when there is none. */
  lemma {:induction false} GetSearchesRecords(rs: seq<Record>, tail: seq<byte>, key: seq<byte>, memory: seq<byte>)
    requires |memory| == HDR_SIZE
    ensures CheckHeader(Image(rs) + tail) == HdrOk
    ensures LookIn(Image(rs) + tail, SUPER_SIZE, key, memory)
         == match Lookup(rs, key)
            case Some(bytes) => Found(bytes)
            case None => LookIn(Image(rs) + tail, |Image(rs)|, key, if rs == [] then memory else NoHeader())
  {
    OnlyCreatedHeader(Image(rs) + tail);
    assert FILE_HEADER + Body(rs) + tail == FILE_HEADER + (Body(rs) + tail);
    assert rs[..0] == [] && |Image([])| == SUPER_SIZE;
    LookFromRecord(rs, tail, key, memory, 0);
  }

  /** On a database of whole records `get_key_val` is the lookup. */
  lemma {:induction false} GetIsLookup(rs: seq<Record>, key: seq<byte>, memory: seq<byte>)
    requires |memory| == HDR_SIZE
    ensures CheckHeader(Image(rs)) == HdrOk
    ensures LookIn(Image(rs), SUPER_SIZE, key, memory)
         == match Lookup(rs, key) case Some(bytes) => Found(bytes) case None => NotFound
  {
    assert Image(rs) + [] == Image(rs);
    GetSearchesRecords(rs, [], key, memory);
  }

  /** With a last record cut off inside its payload, `get_key_val` panics exactly for the keys that hit
      this record and none before it. */
  lemma {:induction false} GetFromCutOff(rs: seq<Record>, last: Record, cut: nat, key: seq<byte>, memory: seq<byte>)
    requires |memory| == HDR_SIZE && cut < |last.payload|
    ensures LookIn(Image(rs) + Encode(last.hdr) + last.payload[..cut], SUPER_SIZE, key, memory)
         == match Lookup(rs, key)
            case Some(bytes) => Found(bytes)
            case None => if Hits(last.hdr, key) then CannotRead else NotFound
  {
    var front, h, kept := Image(rs), Encode(last.hdr), last.payload[..cut];
    var c, held := front + h + kept, if rs == [] then memory else NoHeader();
    assert c == front + (h + kept);
    GetSearchesRecords(rs, h + kept, key, memory);
    assert ReadAt(c, |front|, HDR_SIZE) == h;
    LookAt(c, |front|, key, held, last.hdr);
    assert |ReadAt(c, |front| + HDR_SIZE, last.hdr.len)| < last.hdr.len;
  }

  /** The key of a header that is cut off, completed with zeros. */
  function CutOffKey(h: DataHdr, cut: nat): seq<byte> {
    if cut >= 32 then h.key else h.key[..cut] + seq<byte>(32 - cut, _ => 0)
  }

  lemma HeaderCutOff(h: DataHdr, cut: nat)
    requires cut <= 48
    ensures var hdr := HeaderFrom(Encode(h)[..cut], NoHeader());
            hdr.key == CutOffKey(h, cut) && hdr.len == 0
  {
    var b := Encode(h)[..cut] + NoHeader()[cut..];
    assert b[48..52] == [0, 0, 0, 0];
    assert b[..32] == CutOffKey(h, cut);
  }

  /** With a last header cut off before its length, behind other records, `get_key_val` takes it for an
      empty value of the key completed with zeros. */
  lemma {:induction false} GetFromCutHeader(rs: seq<Record>, h: DataHdr, cut: nat, key: seq<byte>, memory: seq<byte>)
    requires |memory| == HDR_SIZE && rs != [] && 0 < cut <= 48
    ensures LookIn(Image(rs) + Encode(h)[..cut], SUPER_SIZE, key, memory)
         == match Lookup(rs, key)
            case Some(bytes) => Found(bytes)
            case None => if Cut(key) <= CutOffKey(h, cut) then Found([]) else NotFound
  {
    GetSearchesRecords(rs, Encode(h)[..cut], key, memory);
    LookAtCutOff(Image(rs), h, cut, key);
  }

  lemma LookAtCutOff(front: seq<byte>, h: DataHdr, cut: nat, key: seq<byte>)
    requires 0 < cut <= 48
    ensures Look(front + Encode(h)[..cut], |front|, key, NoHeader())
         == if Cut(key) <= CutOffKey(h, cut) then Stop(Found([])) else Next(|front| + cut)
  {
    var c := front + Encode(h)[..cut];
    assert ReadAt(c, |front|, HDR_SIZE) == Encode(h)[..cut];
    HeaderCutOff(h, cut);
    assert ReadAt(c, |front| + cut, 0) == [];
  }

  /** The record a pair is stored in is the first one its key hits. */
  lemma {:induction false} FirstHitOfAdded(rs: seq<Record>, key: seq<byte>, val: seq<byte>, now: Time)
    requires |val| < TWO32
    ensures FirstHit(Added(rs, key, val, now), key, 0) == FirstHit(rs, key, 0)
  {
    var i, rs' := FirstHit(rs, key, 0), Added(rs, key, val, now);
    assert Hits(rs'[i].hdr, key);
    assert forall k :: 0 <= k < i ==> rs'[k] == rs[k];
  }

  /** Get after add: every key, also one of more than 31 bytes, is found with its new value. */
  lemma GetAfterAdd(rs: seq<Record>, key: seq<byte>, val: seq<byte>, now: Time)
    requires |val| < TWO32
    ensures Lookup(Added(rs, key, val, now), key) == Some(val)
  {
    FirstHitOfAdded(rs, key, val, now);
  }

  /** The search result is determined by what it promises. */
  lemma {:induction false} FirstHitIs(rs: seq<Record>, key: seq<byte>, i: nat, r: nat)
    requires i <= r <= |rs| && (r < |rs| ==> Hits(rs[r].hdr, key))
    requires forall k :: i <= k < r ==> !Hits(rs[k].hdr, key)
    ensures FirstHit(rs, key, i) == r
    decreases r - i
  {
    if i < r {
      FirstHitIs(rs, key, i + 1, r);
    }
  }

  function PayloadAt(rs: seq<Record>, i: nat): Option<seq<byte>> {
    if i < |rs| then Some(rs[i].payload) else None
  }

  /** Searching records that differ from `rs` in record i alone, or have it in addition. */
  lemma {:induction false} FirstHitReplaced(rs: seq<Record>, rs': seq<Record>, i: nat, key: seq<byte>)
    requires i <= |rs| && |rs'| == (if i < |rs| then |rs| else |rs| + 1)
    requires forall k :: 0 <= k < |rs| && k != i ==> rs'[k] == rs[k]
    ensures FirstHit(rs', key, 0)
         == if FirstHit(rs, key, 0) < i then FirstHit(rs, key, 0)
            else if Hits(rs'[i].hdr, key) then i
            else if i < |rs| then FirstHit(rs, key, i + 1)
            else |rs'|
  {
    var j := FirstHit(rs, key, 0);
    if j < i {
      FirstHitIs(rs', key, 0, j);
    } else if Hits(rs'[i].hdr, key) {
      FirstHitIs(rs', key, 0, i);
    } else {
      FirstHitIs(rs', key, 0, if i < |rs| then FirstHit(rs, key, i + 1) else |rs'|);
    }
  }

  /** What any lookup gives after an add: a record before the stored one if it is hit, else the new
      value if the stored key is hit, else the first later record hit. */
  lemma {:induction false} LookupAfterAdd(rs: seq<Record>, key: seq<byte>, val: seq<byte>, now: Time, other: seq<byte>)
    requires |val| < TWO32
    ensures var i, j := FirstHit(rs, key, 0), FirstHit(rs, other, 0);
            Lookup(Added(rs, key, val, now), other)
            == if j < i then PayloadAt(rs, j)
               else if Cut(other) <= Padded(key) then Some(val)
               else if i < |rs| then PayloadAt(rs, FirstHit(rs, other, i + 1))
               else None
  {
    FirstHitReplaced(rs, Added(rs, key, val, now), FirstHit(rs, key, 0), other);
  }

  /** A prefix of the padded key is a prefix of the cut key unless it reaches into the padding. */
  lemma PaddedOrNul(key: seq<byte>, o: seq<byte>)
    requires o <= Padded(key)
    ensures o <= Cut(key) || 0 in o
  {
    var c, p := Cut(key), Padded(key);
    assert p[..|c|] == c;
    if |o| > |c| {
      assert o[|c|] == p[|c|] == 0;
    } else {
      assert o == p[..|o|] == c[..|o|];
    }
  }

  /** For a NUL-free key, beginning the padded key is beginning the cut one. */
  lemma PaddedPrefix(key: seq<byte>, other: seq<byte>)
    requires 0 !in other
    ensures Cut(other) <= Padded(key) <==> Cut(other) <= Cut(key)
  {
    if Cut(other) <= Padded(key) {
      PaddedOrNul(key, Cut(other));
      assert forall k :: 0 <= k < |Cut(other)| ==> Cut(other)[k] in other;
    }
    assert Padded(key)[..|Cut(key)|] == Cut(key);
    assert Cut(other) <= Cut(key) ==> Padded(key)[..|Cut(other)|] == Cut(key)[..|Cut(other)|];
  }

  /** Adding a pair changes no lookup of a key whose cut begins neither the new key nor the
      key of the record that was replaced. */
  lemma {:induction false} AddKeepsOthers(rs: seq<Record>, key: seq<byte>, val: seq<byte>, now: Time, other: seq<byte>)
    requires |val| < TWO32
    requires 0 !in other && !(Cut(other) <= Cut(key))
    requires var i := FirstHit(rs, key, 0); i < |rs| ==> !Hits(rs[i].hdr, other)
    ensures Lookup(Added(rs, key, val, now), other) == Lookup(rs, other)
  {
    PaddedPrefix(key, other);
    LookupAfterAdd(rs, key, val, now, other);
    var i, j := FirstHit(rs, key, 0), FirstHit(rs, other, 0);
    if i < j {
      FirstHitIs(rs, other, i + 1, j);
    }
  }

  /** Adding the same pair again changes nothing. */
  lemma AddTwice(rs: seq<Record>, key: seq<byte>, val: seq<byte>, now: Time)
    requires |val| < TWO32
    ensures var once := Added(rs, key, val, now); Added(once, key, val, now) == once
  {
    FirstHitOfAdded(rs, key, val, now);
  }

  /** What is stored for a key: its first 31 bytes, then zeros. */
  lemma StoredKey(key: seq<byte>)
    ensures |Padded(key)| == 32
    ensures forall i :: 0 <= i < 32 ==> Padded(key)[i] == if i < |key| && i < 31 then key[i] else 0
  {
  }

  /** What an add does to the records: one is new, with the time of the add as both of its times; all
      others stay as they are and where they are. */
  lemma {:induction false} AddedRecord(rs: seq<Record>, key: seq<byte>, val: seq<byte>, now: Time)
    requires |val| < TWO32
    ensures var i, rs' := FirstHit(rs, key, 0), Added(rs, key, val, now);
            && |rs'| == (if i < |rs| then |rs| else |rs| + 1)
            && rs'[i] == Record(Hdr(Padded(key), now, now, |val|, [0, 0, 0, 0]), val)
            && forall k :: 0 <= k < |rs| && k != i ==> rs'[k] == rs[k]
  {
  }

  /** Record i is the first whose stored key begins with the key. */
  ghost predicate FirstBegins(rs: seq<Record>, key: seq<byte>, i: int) {
    0 <= i < |rs| && key <= rs[i].hdr.key && forall k :: 0 <= k < i ==> !(key <= rs[k].hdr.key)
  }

  /** A key of at most 31 bytes is looked up as it is: the first record whose key begins with it. */
  lemma LookupPlain(rs: seq<Record>, key: seq<byte>)
    requires |key| <= 31
    ensures Lookup(rs, key) == None <==> forall k :: 0 <= k < |rs| ==> !(key <= rs[k].hdr.key)
    ensures forall i :: FirstBegins(rs, key, i) ==> Lookup(rs, key) == Some(rs[i].payload)
  {
    var r := FirstHit(rs, key, 0);
    assert forall k :: 0 <= k < |rs| ==> (Hits(rs[k].hdr, key) <==> key <= rs[k].hdr.key);
    forall i: nat | FirstBegins(rs, key, i)
      ensures Lookup(rs, key) == Some(rs[i].payload)
    {
      FirstHitIs(rs, key, 0, i);
    }
  }

  /** Adding a pair, on keys that are not cut: no other key is affected that does not begin the new
      one or the key of the record replaced. */
  lemma AddKeepsPlain(rs: seq<Record>, key: seq<byte>, val: seq<byte>, now: Time, other: seq<byte>)
    requires |val| < TWO32 && |key| <= 31 && |other| <= 31 && 0 !in other && !(other <= key)
    requires forall i :: FirstBegins(rs, key, i) ==> !(other <= rs[i].hdr.key)
    ensures Lookup(Added(rs, key, val, now), other) == Lookup(rs, other)
  {
    var i := FirstHit(rs, key, 0);
    assert forall k :: 0 <= k < |rs| ==> (Hits(rs[k].hdr, key) <==> key <= rs[k].hdr.key);
    assert i < |rs| ==> FirstBegins(rs, key, i);
    AddKeepsOthers(rs, key, val, now, other);
  }

  /** Two keys added to an empty database make two records exactly when the second does not begin the
      first; then each is found with its own value. */
  lemma TwoKeys(a: seq<byte>, v: seq<byte>, before: Time, b: seq<byte>, w: seq<byte>, now: Time)
    requires |v| < TWO32 && |w| < TWO32 && |a| <= 31 && |b| <= 31 && 0 !in b
    ensures var rs := Added(Added([], a, v, before), b, w, now);
            && (|rs| == 2 <==> !(b <= a)) && (|rs| == 1 <==> b <= a)
            && (!(b <= a) ==> Lookup(rs, a) == Some(v)) && Lookup(rs, b) == Some(w)
  {
    var one := Added([], a, v, before);
    var rs := Added(one, b, w, now);
    assert one == [Fresh(a, v, before)];
    PaddedPrefix(a, b);
    GetAfterAdd([], a, v, before);
    GetAfterAdd(one, b, w, now);
    if !(b <= a) {
      assert rs[0] == one[0] && Hits(rs[0].hdr, a);
      FirstHitIs(rs, a, 0, 0);
    }
  }

  /** Keys are told apart by their first 31 bytes only. */
  lemma SameBeginning(rs: seq<Record>, a: seq<byte>, b: seq<byte>, val: seq<byte>, now: Time)
    requires |val| < TWO32 && |a| >= 31 && |b| >= 31 && a[..31] == b[..31]
    ensures Lookup(rs, a) == Lookup(rs, b) && Added(rs, a, val, now) == Added(rs, b, val, now)
  {
    assert Cut(a) == a[..31] == b[..31] == Cut(b);
    SameCut(rs, a, b, 0);
  }

  lemma {:induction false} SameCut(rs: seq<Record>, a: seq<byte>, b: seq<byte>, i: nat)
    requires Cut(a) == Cut(b) && i <= |rs|
    ensures FirstHit(rs, a, i) == FirstHit(rs, b, i)
    decreases |rs| - i
  {
    if i < |rs| {
      SameCut(rs, a, b, i + 1);
    }
  }

  /** tikfs mounts what tikdb wrote exactly when neither the new value nor that of a record kept is
      empty; then it finds as many nodes as records, at tikdb's record boundaries. */
  lemma {:induction false} TikfsAgrees(rs: seq<Record>, key: seq<byte>, val: seq<byte>, now: Time)
    requires |val| < TWO32
    ensures var disc, rs' := Image(Added(rs, key, val, now)), Added(rs, key, val, now);
            && (Mount(disc).Some? <==>
                  val != [] && forall k :: 0 <= k < |rs| && k != FirstHit(rs, key, 0) ==> rs[k].payload != [])
            && (Mount(disc).Some? ==> Mount(disc) == Some(TableOf(rs')) && Exact(disc, TableOf(rs')))
  {
    var i, rs' := FirstHit(rs, key, 0), Added(rs, key, val, now);
    assert rs'[i].payload == val && forall k :: 0 <= k < |rs| && k != i ==> rs'[k] == rs[k];
    MountsNonEmpty(rs');
    if NoEmptyPayload(rs') {
      MountImage(rs');
      MountsExactly(Image(rs'));
    }
  }
}
