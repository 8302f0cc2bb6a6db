/** The in-memory table of tikfs, what it means for it to describe a disc, and mounting. */
module TikTable {
  import opened Files
  import opened TikFormat

  datatype Option<+T> = None | Some(value: T)

  /** `struct tikfs_fnode`; `cow` holds the `cowlen` bytes of `cowbuff`. */
  datatype Node = Node(meta: DataHdr, data: nat, dirty: bool, cow: seq<byte>)

  function Stored(disc: seq<byte>, n: Node): seq<byte> {
    ReadAt(disc, n.data, n.meta.len)
  }

  /** The bytes a reader of the mounted file gets. */
  function Visible(disc: seq<byte>, n: Node): seq<byte> {
    if n.dirty then n.cow else Stored(disc, n)
  }

  /** Where the first i records end. */
  function RecordEnd(table: seq<Node>, i: nat): nat
    requires i <= |table|
  {
    if i == 0 then SUPER_SIZE else table[i - 1].data + table[i - 1].meta.len
  }

  predicate Linked(table: seq<Node>) {
    forall i: nat {:trigger RecordEnd(table, i)} :: i < |table| ==> table[i].data == RecordEnd(table, i) + HDR_SIZE
  }

  /** The header on disc names the node's key and length; its times may be older than the node's. */
  predicate HeaderAt(disc: seq<byte>, n: Node) {
    && HDR_SIZE <= n.data <= |disc|
    && var h := Decode(disc[n.data - HDR_SIZE..n.data]);
       h.key == n.meta.key && h.len == n.meta.len
  }

  /** The table's records stand on the disc in table order without gaps, right after the file header. */
  predicate Laid(disc: seq<byte>, table: seq<Node>) {
    && FILE_HEADER <= disc
    && Linked(table)
    && RecordEnd(table, |table|) <= |disc|
    && (forall i :: 0 <= i < |table| ==> HeaderAt(disc, table[i]))
  }

  /** ... and nothing follows them. */
  predicate Exact(disc: seq<byte>, table: seq<Node>) {
    Laid(disc, table) && |disc| == RecordEnd(table, |table|)
  }

  lemma {:induction false} Ordered(table: seq<Node>, a: nat, b: nat)
    requires Linked(table) && a < b <= |table|
    ensures SUPER_SIZE + HDR_SIZE <= table[a].data
    ensures table[a].data + table[a].meta.len <= RecordEnd(table, b)
    decreases b, a
  {
    assert table[a].data == RecordEnd(table, a) + HDR_SIZE;
    if a > 0 {
      Ordered(table, 0, a);
    }
    if a + 1 < b {
      Ordered(table, a, b - 1);
      assert table[b - 1].data == RecordEnd(table, b - 1) + HDR_SIZE;
    }
  }

  lemma StoredLength(disc: seq<byte>, table: seq<Node>, i: nat)
    requires Laid(disc, table) && i < |table|
    ensures SUPER_SIZE + HDR_SIZE <= table[i].data && table[i].data + table[i].meta.len <= |disc|
    ensures Stored(disc, table[i]) == disc[table[i].data..table[i].data + table[i].meta.len]
    ensures |Stored(disc, table[i])| == table[i].meta.len
  {
    Ordered(table, i, |table|);
  }

  /** The loop of `tikfs_build_cache` from a file position, with the nodes found so far. */
  function Scan(disc: seq<byte>, pos: nat, found: seq<Node>): Option<seq<Node>>
    decreases if pos < |disc| then |disc| - pos else 0
  {
    var h := ReadAt(disc, pos, HDR_SIZE);
    if h == [] then Some(found)
    else if |h| != HDR_SIZE then None
    else
      var meta := Decode(h);
      if meta.len == 0 then None
      else Scan(disc, pos + HDR_SIZE + meta.len, found + [Node(meta, pos + HDR_SIZE, false, [])])
  }

  /** `tikfs_check_superblock` and `tikfs_build_cache`; None stands for their exit. */
  function Mount(disc: seq<byte>): Option<seq<Node>> {
    if CheckHeader(disc) != HdrOk then None else Scan(disc, SUPER_SIZE, [])
  }

  predicate NoEmptyPayload(rs: seq<Record>) {
    forall i :: 0 <= i < |rs| ==> rs[i].payload != []
  }

  /** The table a mount of the records' image builds. */
  function TableOf(rs: seq<Record>): (table: seq<Node>)
    ensures |table| == |rs|
  {
    if rs == [] then []
    else
      var before := rs[..|rs| - 1];
      TableOf(before) + [Node(rs[|rs| - 1].hdr, SUPER_SIZE + |Body(before)| + HDR_SIZE, false, [])]
  }

  lemma ScanStep(disc: seq<byte>, pos: nat, found: seq<Node>, h: DataHdr)
    requires pos + HDR_SIZE <= |disc| && disc[pos..pos + HDR_SIZE] == Encode(h) && h.len > 0
    ensures Scan(disc, pos, found)
         == Scan(disc, pos + HDR_SIZE + h.len, found + [Node(h, pos + HDR_SIZE, false, [])])
  {
    HeaderRoundTrip(h, Encode(h));
    assert ReadAt(disc, pos, HDR_SIZE) == disc[pos..pos + HDR_SIZE];
  }

  /** The scan of an image after i records. */
  function ScanFrom(rs: seq<Record>, i: nat): Option<seq<Node>>
    requires i <= |rs|
  {
    Scan(Image(rs), |Image(rs[..i])|, TableOf(rs[..i]))
  }

  lemma HeaderInImage(rs: seq<Record>, i: nat)
    requires i < |rs|
    ensures var pos := |Image(rs[..i])|;
            && pos + HDR_SIZE <= |Image(rs)| && Image(rs)[pos..pos + HDR_SIZE] == Encode(rs[i].hdr)
            && |Image(rs[..i + 1])| == pos + HDR_SIZE + rs[i].hdr.len
  {
    RecordAt(rs, i);
    var off := |Body(rs[..i])|;
    assert Image(rs)[SUPER_SIZE + off..SUPER_SIZE + off + HDR_SIZE] == Body(rs)[off..off + HDR_SIZE];
  }

  lemma TableNext(rs: seq<Record>, i: nat)
    requires i < |rs|
    ensures TableOf(rs[..i + 1]) == TableOf(rs[..i]) + [Node(rs[i].hdr, |Image(rs[..i])| + HDR_SIZE, false, [])]
  {
    assert rs[..i + 1][..i] == rs[..i];
  }

  lemma ScanRecord(rs: seq<Record>, i: nat)
    requires i < |rs| && rs[i].payload != []
    ensures ScanFrom(rs, i) == ScanFrom(rs, i + 1)
  {
    HeaderInImage(rs, i);
    TableNext(rs, i);
    ScanStep(Image(rs), |Image(rs[..i])|, TableOf(rs[..i]), rs[i].hdr);
  }

  lemma {:induction false} ScanImage(rs: seq<Record>, i: nat)
    requires i <= |rs| && NoEmptyPayload(rs)
    ensures ScanFrom(rs, i) == Some(TableOf(rs))
    decreases |rs| - i
  {
    if i == |rs| {
      assert rs[..i] == rs;
      assert ReadAt(Image(rs), |Image(rs)|, HDR_SIZE) == [];
    } else {
      ScanRecord(rs, i);
      ScanImage(rs, i + 1);
    }
  }

  /** Mounting a packed file of non-empty records finds exactly those records. */
  lemma {:induction false} MountImage(rs: seq<Record>)
    requires NoEmptyPayload(rs)
    ensures Mount(Image(rs)) == Some(TableOf(rs))
  {
    OnlyCreatedHeader(Image(rs));
    assert rs[..0] == [] && |Image([])| == SUPER_SIZE;
    ScanImage(rs, 0);
  }

  lemma {:induction false} ScanStopsAtEmpty(rs: seq<Record>, i: nat, empty: nat)
    requires i <= empty < |rs| && rs[empty].payload == []
    requires forall k :: i <= k < empty ==> rs[k].payload != []
    ensures ScanFrom(rs, i) == None
    decreases empty - i
  {
    if i < empty {
      ScanRecord(rs, i);
      ScanStopsAtEmpty(rs, i + 1, empty);
    } else {
      HeaderInImage(rs, i);
      var h := rs[i].hdr;
      HeaderRoundTrip(h, Encode(h));
      var pos := |Image(rs[..i])|;
      assert ReadAt(Image(rs), pos, HDR_SIZE) == Image(rs)[pos..pos + HDR_SIZE];
    }
  }

  lemma {:induction false} ScanOneWhole(rs: seq<Record>, tail: seq<byte>, i: nat)
    requires i < |rs| && rs[i].payload != []
    ensures Scan(Image(rs) + tail, |Image(rs[..i])|, TableOf(rs[..i]))
         == Scan(Image(rs) + tail, |Image(rs[..i + 1])|, TableOf(rs[..i + 1]))
  {
    var disc, pos := Image(rs) + tail, |Image(rs[..i])|;
    HeaderInImage(rs, i);
    TableNext(rs, i);
    assert disc[pos..pos + HDR_SIZE] == Image(rs)[pos..pos + HDR_SIZE];
    ScanStep(disc, pos, TableOf(rs[..i]), rs[i].hdr);
  }

  /** The scan reads whole records whatever follows them. */
  lemma {:induction false} ScanWhole(rs: seq<Record>, tail: seq<byte>, i: nat)
    requires i <= |rs| && NoEmptyPayload(rs)
    ensures Scan(Image(rs) + tail, |Image(rs[..i])|, TableOf(rs[..i]))
         == Scan(Image(rs) + tail, |Image(rs)|, TableOf(rs))
    decreases |rs| - i
  {
    if i == |rs| {
      assert rs[..i] == rs;
    } else {
      assert rs[i].payload != [];
      ScanOneWhole(rs, tail, i);
      ScanWhole(rs, tail, i + 1);
    }
  }

  lemma {:induction false} MountWhole(rs: seq<Record>, tail: seq<byte>)
    requires NoEmptyPayload(rs)
    ensures Mount(Image(rs) + tail) == Scan(Image(rs) + tail, |Image(rs)|, TableOf(rs))
  {
    OnlyCreatedHeader(Image(rs) + tail);
    assert Image(rs) + tail == FILE_HEADER + (Body(rs) + tail);
    assert rs[..0] == [] && |Image([])| == SUPER_SIZE;
    ScanWhole(rs, tail, 0);
  }

  /** A file whose last payload is cut off still mounts, and the last file keeps its full length. */
  lemma {:induction false} MountCutPayload(rs: seq<Record>, last: Record, cut: nat)
    requires NoEmptyPayload(rs) && cut < |last.payload|
    ensures Mount(Image(rs) + Encode(last.hdr) + last.payload[..cut]) == Some(TableOf(rs + [last]))
  {
    var h, pos := Encode(last.hdr), |Image(rs)|;
    var tail := h + last.payload[..cut];
    var disc := Image(rs) + tail;
    assert Image(rs) + h + last.payload[..cut] == disc;
    MountWhole(rs, tail);
    assert disc[pos..pos + HDR_SIZE] == h;
    ScanStep(disc, pos, TableOf(rs), last.hdr);
    assert (rs + [last])[..|rs|] == rs;
    assert ReadAt(disc, pos + HDR_SIZE + last.hdr.len, HDR_SIZE) == [];
  }

  /** A file whose last header is cut off is refused. */
  lemma MountCutHeader(rs: seq<Record>, h: DataHdr, cut: nat)
    requires NoEmptyPayload(rs) && 0 < cut < HDR_SIZE
    ensures Mount(Image(rs) + Encode(h)[..cut]) == None
  {
    MountWhole(rs, Encode(h)[..cut]);
    assert ReadAt(Image(rs) + Encode(h)[..cut], |Image(rs)|, HDR_SIZE) == Encode(h)[..cut];
  }

  function FirstEmpty(rs: seq<Record>, i: nat): (r: nat)
    requires i <= |rs|
    ensures i <= r <= |rs| && (r < |rs| ==> rs[r].payload == [])
    ensures forall k :: i <= k < r ==> rs[k].payload != []
    decreases |rs| - i
  {
    if i == |rs| || rs[i].payload == [] then i else FirstEmpty(rs, i + 1)
  }

  /** A packed file mounts exactly when no record in it is empty. */
  lemma MountsNonEmpty(rs: seq<Record>)
    ensures Mount(Image(rs)).Some? <==> NoEmptyPayload(rs)
  {
    var empty := FirstEmpty(rs, 0);
    if empty < |rs| {
      OnlyCreatedHeader(Image(rs));
      assert rs[..0] == [] && |Image([])| == SUPER_SIZE;
      ScanStopsAtEmpty(rs, 0, empty);
    } else {
      MountImage(rs);
    }
  }

  /** The records a disc holds, according to a table. */
  function RecordsOf(disc: seq<byte>, table: seq<Node>): seq<Record>
    requires Laid(disc, table)
  {
    seq(|table|, i requires 0 <= i < |table| => RecordOf(disc, table, i))
  }

  function RecordOf(disc: seq<byte>, table: seq<Node>, i: nat): Record
    requires Laid(disc, table) && i < |table|
  {
    StoredLength(disc, table, i);
    Record(Decode(disc[table[i].data - HDR_SIZE..table[i].data]), Stored(disc, table[i]))
  }

  /** A node of the freshly mounted table that describes the same stored record. */
  predicate SameRecord(n: Node, m: Node) {
    !n.dirty && n.data == m.data && n.meta.key == m.meta.key && n.meta.len == m.meta.len
  }

  /** Record r stands on the disc where the table puts its node i. */
  ghost predicate Stands(disc: seq<byte>, table: seq<Node>, i: nat, r: Record)
    requires i < |table|
  {
    && RecordEnd(table, i) <= RecordEnd(table, i + 1) <= |disc|
    && disc[..RecordEnd(table, i + 1)] == disc[..RecordEnd(table, i)] + RecordBytes(r)
  }

  lemma RecordStands(disc: seq<byte>, table: seq<Node>, i: nat)
    requires Laid(disc, table) && i < |table|
    ensures Stands(disc, table, i, RecordOf(disc, table, i))
  {
    var n := table[i];
    StoredLength(disc, table, i);
    assert n.data == RecordEnd(table, i) + HDR_SIZE;
    HeaderRoundTrip(n.meta, disc[n.data - HDR_SIZE..n.data]);
    var r := RecordOf(disc, table, i);
    assert RecordBytes(r) == disc[RecordEnd(table, i)..RecordEnd(table, i + 1)];
  }

  lemma {:induction false} StandingIsImage(disc: seq<byte>, table: seq<Node>, rs: seq<Record>, i: nat)
    requires FILE_HEADER <= disc && |rs| == |table| && i <= |table|
    requires forall k :: 0 <= k < |table| ==> Stands(disc, table, k, rs[k])
    ensures RecordEnd(table, i) <= |disc| && disc[..RecordEnd(table, i)] == Image(rs[..i])
    decreases i
  {
    if i == 0 {
      assert disc[..SUPER_SIZE] == FILE_HEADER;
    } else {
      StandingIsImage(disc, table, rs, i - 1);
      assert Stands(disc, table, i - 1, rs[i - 1]);
      ImageNext(rs, i - 1);
    }
  }

  lemma {:induction false} TableOfAt(rs: seq<Record>, k: nat)
    requires k < |rs|
    ensures TableOf(rs)[k] == Node(rs[k].hdr, |Image(rs[..k])| + HDR_SIZE, false, [])
    decreases |rs|
  {
    var before := rs[..|rs| - 1];
    if k < |before| {
      TableOfAt(before, k);
      assert before[..k] == rs[..k];
    }
  }

  lemma AllStand(disc: seq<byte>, table: seq<Node>)
    requires Laid(disc, table)
    ensures forall k :: 0 <= k < |table| ==> Stands(disc, table, k, RecordsOf(disc, table)[k])
  {
    forall k | 0 <= k < |table|
      ensures Stands(disc, table, k, RecordsOf(disc, table)[k])
    {
      RecordStands(disc, table, k);
    }
  }

  lemma SameRecordAt(disc: seq<byte>, table: seq<Node>, k: nat)
    requires Laid(disc, table) && k < |table|
    ensures SameRecord(TableOf(RecordsOf(disc, table))[k], table[k])
  {
    var rs := RecordsOf(disc, table);
    AllStand(disc, table);
    StandingIsImage(disc, table, rs, k);
    assert |disc[..RecordEnd(table, k)]| == RecordEnd(table, k);
    TableOfAt(rs, k);
    assert table[k].data == RecordEnd(table, k) + HDR_SIZE;
    assert HeaderAt(disc, table[k]);
  }

  /** An exactly laid disc is the packed image of its records. */
  lemma ExactIsImage(disc: seq<byte>, table: seq<Node>)
    requires Exact(disc, table)
    ensures disc == Image(RecordsOf(disc, table))
    ensures forall k :: 0 <= k < |table| ==> SameRecord(TableOf(RecordsOf(disc, table))[k], table[k])
  {
    var rs := RecordsOf(disc, table);
    AllStand(disc, table);
    StandingIsImage(disc, table, rs, |table|);
    assert rs[..|table|] == rs;
    assert disc[..|disc|] == disc;
    forall k | 0 <= k < |table|
      ensures SameRecord(TableOf(rs)[k], table[k])
    {
      SameRecordAt(disc, table, k);
    }
  }

  /** Mounting again finds the table's own records: same keys, lengths and offsets, all clean. */
  lemma Remount(disc: seq<byte>, table: seq<Node>)
    requires Exact(disc, table)
    requires forall i :: 0 <= i < |table| ==> table[i].meta.len > 0
    ensures Mount(disc).Some?
    ensures var again := Mount(disc).value;
            |again| == |table| && forall i :: 0 <= i < |table| ==> SameRecord(again[i], table[i])
  {
    ExactIsImage(disc, table);
    forall i | 0 <= i < |table|
      ensures RecordsOf(disc, table)[i].payload != []
    {
      StoredLength(disc, table, i);
    }
    MountImage(RecordsOf(disc, table));
  }

  /** Nodes as a scan records them. */
  predicate Scanned(disc: seq<byte>, t: seq<Node>) {
    && Linked(t)
    && (forall i :: 0 <= i < |t| ==> HeaderAt(disc, t[i]) && !t[i].dirty && t[i].cow == [] && t[i].meta.len > 0)
  }

  lemma LinkedSnoc(table: seq<Node>, n: Node)
    requires Linked(table) && n.data == RecordEnd(table, |table|) + HDR_SIZE
    ensures Linked(table + [n])
  {
    var table' := table + [n];
    forall i: nat | i < |table'|
      ensures table'[i].data == RecordEnd(table', i) + HDR_SIZE
    {
      if i < |table| {
        assert table[i].data == RecordEnd(table, i) + HDR_SIZE;
      }
    }
  }

  lemma ScannedSnoc(disc: seq<byte>, found: seq<Node>, h: DataHdr)
    requires Scanned(disc, found) && h.len > 0
    requires var pos := RecordEnd(found, |found|);
             pos + HDR_SIZE <= |disc| && Decode(disc[pos..pos + HDR_SIZE]) == h
    ensures Scanned(disc, found + [Node(h, RecordEnd(found, |found|) + HDR_SIZE, false, [])])
  {
    LinkedSnoc(found, Node(h, RecordEnd(found, |found|) + HDR_SIZE, false, []));
  }

  lemma ScanUnfold(disc: seq<byte>, pos: nat, found: seq<Node>)
    ensures Scan(disc, pos, found)
         == if pos >= |disc| then Some(found)
            else if pos + HDR_SIZE > |disc| then None
            else
              var meta := Decode(disc[pos..pos + HDR_SIZE]);
              if meta.len == 0 then None
              else Scan(disc, pos + HDR_SIZE + meta.len, found + [Node(meta, pos + HDR_SIZE, false, [])])
  {
    if pos + HDR_SIZE <= |disc| {
      assert ReadAt(disc, pos, HDR_SIZE) == disc[pos..pos + HDR_SIZE];
    }
  }

  lemma {:induction false} ScanSound(disc: seq<byte>, pos: nat, found: seq<Node>, t: seq<Node>)
    requires Scanned(disc, found) && pos == RecordEnd(found, |found|)
    requires Scan(disc, pos, found) == Some(t)
    ensures Scanned(disc, t) && |disc| <= RecordEnd(t, |t|)
    decreases if pos < |disc| then |disc| - pos else 0
  {
    ScanUnfold(disc, pos, found);
    if pos < |disc| {
      var meta := Decode(disc[pos..pos + HDR_SIZE]);
      ScannedSnoc(disc, found, meta);
      ScanSound(disc, pos + HDR_SIZE + meta.len, found + [Node(meta, pos + HDR_SIZE, false, [])], t);
    }
  }

  /** The reader accepts a file and finds its last payload whole exactly when the file is the packed
      image of non-empty records: the format has one reading. */
  lemma MountsExactly(disc: seq<byte>)
    ensures (Mount(disc).Some? && RecordEnd(Mount(disc).value, |Mount(disc).value|) <= |disc|)
        <==> exists rs: seq<Record> :: NoEmptyPayload(rs) && disc == Image(rs)
    ensures Mount(disc).Some? && RecordEnd(Mount(disc).value, |Mount(disc).value|) <= |disc| ==>
              Exact(disc, Mount(disc).value)
  {
    OnlyCreatedHeader(disc);
    if Mount(disc).Some? {
      ScanSound(disc, SUPER_SIZE, [], Mount(disc).value);
    }
    if Mount(disc).Some? && RecordEnd(Mount(disc).value, |Mount(disc).value|) <= |disc| {
      var t := Mount(disc).value;
      ExactIsImage(disc, t);
      var rs := RecordsOf(disc, t);
      forall i | 0 <= i < |rs|
        ensures rs[i].payload != []
      {
        StoredLength(disc, t, i);
      }
      assert NoEmptyPayload(rs);
    }
    if rs: seq<Record> :| NoEmptyPayload(rs) && disc == Image(rs) {
      MountImage(rs);
      TableEnd(rs);
    }
  }

  lemma {:induction false} TableEnd(rs: seq<Record>)
    ensures RecordEnd(TableOf(rs), |rs|) == |Image(rs)|
  {
  }
}
