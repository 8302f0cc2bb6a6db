/** Flushing the dirty nodes of tikfs: what it writes, and exactly when that is right. */
module TikFlush {
  import opened Files
  import opened TikFormat
  import opened TikTable

  /** The temp file holds the payloads of the clean nodes from j on, `shift` bytes further down. */
  predicate TempHolds(temp: seq<byte>, table: seq<Node>, j: nat, shift: nat) {
    forall k :: j <= k < |table| && !table[k].dirty ==>
      shift <= table[k].data && table[k].data - shift + table[k].meta.len <= |temp|
  }

  /** What both rewriting helpers leave in the table for a record that ends at `end`. */
  function Rewritten(n: Node, len: nat, end: nat): Node
    requires len < TWO32 && len <= end
  {
    Node(n.meta.(len := len), end - len, false, [])
  }

  /** The header's `len` is 32 bits wide. */
  function NewLen(n: Node): (len: nat)
    ensures len < TWO32
  {
    if n.dirty then |n.cow| % TWO32 else n.meta.len
  }

  function NewPayload(temp: seq<byte>, n: Node, shift: nat): seq<byte>
    requires !n.dirty ==> shift <= n.data
  {
    if n.dirty then n.cow else ReadAt(temp, n.data - shift, n.meta.len)
  }

  /** Re-emit the records from j on at the end of `disc`. */
  function Rewrite(disc: seq<byte>, temp: seq<byte>, table: seq<Node>, j: nat, shift: nat): (r: (seq<byte>, seq<Node>))
    requires TempHolds(temp, table, j, shift)
    decreases |table| - j
  {
    if j >= |table| then (disc, table)
    else
      var n := table[j];
      var disc' := disc + Encode(n.meta.(len := NewLen(n))) + NewPayload(temp, n, shift);
      Rewrite(disc', temp, table[j := Rewritten(n, NewLen(n), |disc'|)], j + 1, shift)
  }

  predicate Resized(n: Node) {
    n.dirty && |n.cow| != n.meta.len
  }

  function Cleaned(n: Node): Node {
    n.(dirty := false, cow := [])
  }

  /** The disc and table after the flush loop from node i on. */
  function Flush(append: bool, disc: seq<byte>, table: seq<Node>, i: nat): (seq<byte>, seq<Node>)
    requires Laid(disc, table)
    decreases |table| - i
  {
    if i >= |table| then (disc, table)
    else if !table[i].dirty then Flush(append, disc, table, i + 1)
    else if Resized(table[i]) then
      LaidTail(disc, table, i);
      Rewrite(disc[..table[i].data - HDR_SIZE], disc[table[i].data..], table, i, table[i].data)
    else
      InPlaceLaid(append, disc, table, i);
      Flush(append, WriteAt(append, disc, table[i].data, table[i].cow), table[i := Cleaned(table[i])], i + 1)
  }

  lemma LaidTail(disc: seq<byte>, table: seq<Node>, i: nat)
    requires Laid(disc, table) && i < |table|
    ensures HDR_SIZE <= table[i].data <= |disc|
    ensures TempHolds(disc[table[i].data..], table, i, table[i].data)
  {
    StoredLength(disc, table, i);
    forall k | i <= k < |table|
      ensures table[i].data <= table[k].data && table[k].data + table[k].meta.len <= |disc|
    {
      StoredLength(disc, table, k);
      if i < k {
        Ordered(table, i, k);
        assert table[k].data == RecordEnd(table, k) + HDR_SIZE;
      }
    }
  }

  /** Records k and i do not overlap on disc. */
  lemma Apart(disc: seq<byte>, table: seq<Node>, k: nat, i: nat)
    requires Laid(disc, table) && k < |table| && i < |table| && k != i
    ensures table[k].data + table[k].meta.len <= table[i].data - HDR_SIZE
         || table[i].data + table[i].meta.len <= table[k].data - HDR_SIZE
  {
    var a, b := if k < i then k else i, if k < i then i else k;
    Ordered(table, a, b);
    assert table[b].data == RecordEnd(table, b) + HDR_SIZE;
  }

  /** The two discs agree on [lo, hi). */
  ghost predicate Agree(disc: seq<byte>, disc': seq<byte>, lo: int, hi: int) {
    0 <= lo <= hi <= |disc| && hi <= |disc'| && disc[lo..hi] == disc'[lo..hi]
  }

  lemma AgreePart(disc: seq<byte>, disc': seq<byte>, lo: int, hi: int, lo': int, hi': int)
    requires Agree(disc, disc', lo, hi) && lo <= lo' <= hi' <= hi
    ensures Agree(disc, disc', lo', hi')
  {
    forall x | lo' <= x < hi'
      ensures disc[x] == disc'[x]
    {
      assert disc[x] == disc[lo..hi][x - lo] == disc'[lo..hi][x - lo] == disc'[x];
    }
  }

  /** A node whose header the discs agree on, and its payload. */
  lemma SameHeader(disc: seq<byte>, disc': seq<byte>, n: Node)
    requires HeaderAt(disc, n) && Agree(disc, disc', n.data - HDR_SIZE, n.data)
    ensures HeaderAt(disc', n)
  {
  }

  lemma SameStored(disc: seq<byte>, disc': seq<byte>, n: Node)
    requires Agree(disc, disc', n.data, n.data + n.meta.len)
    ensures Stored(disc', n) == Stored(disc, n)
  {
    assert Stored(disc, n) == disc[n.data..n.data + n.meta.len];
    assert Stored(disc', n) == disc'[n.data..n.data + n.meta.len];
  }

  /** Where a same-length write changes nothing. */
  lemma InPlaceAgrees(append: bool, disc: seq<byte>, pos: nat, data: seq<byte>)
    requires pos + |data| <= |disc|
    ensures var disc' := WriteAt(append, disc, pos, data);
            && |disc'| == |disc| + (if append then |data| else 0)
            && Agree(disc, disc', 0, pos)
            && Agree(disc, disc', pos + |data|, |disc|)
            && if append then disc <= disc' else disc'[pos..pos + |data|] == data
  {
  }

  lemma InPlaceOther(append: bool, disc: seq<byte>, table: seq<Node>, i: nat, k: nat)
    requires Laid(disc, table) && i < |table| && |table[i].cow| == table[i].meta.len
    requires k < |table| && k != i
    ensures var disc' := WriteAt(append, disc, table[i].data, table[i].cow);
            HeaderAt(disc', table[k]) && Stored(disc', table[k]) == Stored(disc, table[k])
  {
    var n, m, disc' := table[i], table[k], WriteAt(append, disc, table[i].data, table[i].cow);
    StoredLength(disc, table, i);
    StoredLength(disc, table, k);
    InPlaceAgrees(append, disc, n.data, n.cow);
    Apart(disc, table, k, i);
    assert HeaderAt(disc, m);
    if m.data + m.meta.len <= n.data {
      AgreePart(disc, disc', 0, n.data, m.data - HDR_SIZE, m.data);
      AgreePart(disc, disc', 0, n.data, m.data, m.data + m.meta.len);
    } else {
      AgreePart(disc, disc', n.data + |n.cow|, |disc|, m.data - HDR_SIZE, m.data);
      AgreePart(disc, disc', n.data + |n.cow|, |disc|, m.data, m.data + m.meta.len);
    }
    SameHeader(disc, disc', m);
    SameStored(disc, disc', m);
  }

  lemma InPlaceOwn(append: bool, disc: seq<byte>, table: seq<Node>, i: nat)
    requires Laid(disc, table) && i < |table| && |table[i].cow| == table[i].meta.len
    ensures var disc' := WriteAt(append, disc, table[i].data, table[i].cow);
            && HeaderAt(disc', table[i])
            && Stored(disc', table[i]) == if append then Stored(disc, table[i]) else table[i].cow
  {
    var n, disc' := table[i], WriteAt(append, disc, table[i].data, table[i].cow);
    StoredLength(disc, table, i);
    InPlaceAgrees(append, disc, n.data, n.cow);
    assert HeaderAt(disc, n);
    AgreePart(disc, disc', 0, n.data, n.data - HDR_SIZE, n.data);
    SameHeader(disc, disc', n);
    if append {
      SameStored(disc, disc', n);
    }
  }

  /** Writing a same-length payload keeps the layout and every other stored payload. */
  lemma InPlaceLaid(append: bool, disc: seq<byte>, table: seq<Node>, i: nat)
    requires Laid(disc, table) && i < |table| && |table[i].cow| == table[i].meta.len
    ensures var disc', table' := WriteAt(append, disc, table[i].data, table[i].cow), table[i := Cleaned(table[i])];
            && Laid(disc', table')
            && |disc'| == |disc| + (if append then |table[i].cow| else 0)
            && RecordEnd(table', |table'|) == RecordEnd(table, |table|)
            && (forall k :: 0 <= k < |table| && k != i ==> Stored(disc', table[k]) == Stored(disc, table[k]))
            && Stored(disc', table[i]) == if append then Stored(disc, table[i]) else table[i].cow
  {
    var disc', table' := WriteAt(append, disc, table[i].data, table[i].cow), table[i := Cleaned(table[i])];
    StoredLength(disc, table, i);
    InPlaceAgrees(append, disc, table[i].data, table[i].cow);
    InPlaceOwn(append, disc, table, i);
    forall k | 0 <= k < |table|
      ensures HeaderAt(disc', table'[k])
      ensures k != i ==> Stored(disc', table[k]) == Stored(disc, table[k])
    {
      if k != i {
        InPlaceOther(append, disc, table, i, k);
      }
    }
    AgreePart(disc, disc', 0, table[i].data, 0, SUPER_SIZE);
    SameLinks(table, table');
  }

  lemma SameLinks(table: seq<Node>, table': seq<Node>)
    requires Linked(table) && |table'| == |table|
    requires forall k :: 0 <= k < |table| ==> table'[k].data == table[k].data && table'[k].meta.len == table[k].meta.len
    ensures Linked(table') && RecordEnd(table', |table'|) == RecordEnd(table, |table|)
  {
    forall k: nat | k <= |table|
      ensures RecordEnd(table', k) == RecordEnd(table, k)
    {
    }
  }

  /** The first j records of `disc'` are those of `table`, with the contents the files showed before. */
  ghost predicate Written(disc: seq<byte>, table: seq<Node>, disc': seq<byte>, table': seq<Node>, j: nat) {
    && |table'| == |table| && j <= |table|
    && Exact(disc', table'[..j])
    && (forall k {:trigger table'[k]} :: 0 <= k < j ==>
          !table'[k].dirty && table'[k].meta.key == table[k].meta.key
          && Stored(disc', table'[k]) == Visible(disc, table[k]))
  }

  /** What a flush is for: everything on disc, in order, clean, and no file's content changed. */
  ghost predicate Flushed(disc: seq<byte>, table: seq<Node>, disc': seq<byte>, table': seq<Node>) {
    && |table'| == |table|
    && Exact(disc', table')
    && (forall k {:trigger table'[k]} :: 0 <= k < |table| ==>
          !table'[k].dirty && table'[k].meta.key == table[k].meta.key
          && Visible(disc', table'[k]) == Visible(disc, table[k]))
  }

  lemma ExtendLaid(disc: seq<byte>, disc': seq<byte>, table: seq<Node>)
    requires Laid(disc, table) && disc <= disc'
    ensures Laid(disc', table)
    ensures forall k :: 0 <= k < |table| ==> Stored(disc', table[k]) == Stored(disc, table[k])
  {
    forall k | 0 <= k < |table|
      ensures HeaderAt(disc', table[k]) && Stored(disc', table[k]) == Stored(disc, table[k])
    {
      StoredLength(disc, table, k);
      assert HeaderAt(disc, table[k]);
      AgreePart(disc, disc', 0, |disc|, table[k].data - HDR_SIZE, table[k].data);
      AgreePart(disc, disc', 0, |disc|, table[k].data, table[k].data + table[k].meta.len);
      SameHeader(disc, disc', table[k]);
      SameStored(disc, disc', table[k]);
    }
  }

  /** A record appended to an exact disc. */
  lemma AppendExact(disc: seq<byte>, table: seq<Node>, h: DataHdr, payload: seq<byte>)
    requires Exact(disc, table) && h.len == |payload|
    ensures var disc', n := disc + Encode(h) + payload, Node(h, |disc| + HDR_SIZE, false, []);
            && Exact(disc', table + [n])
            && Stored(disc', n) == payload
            && (forall k :: 0 <= k < |table| ==> Stored(disc', table[k]) == Stored(disc, table[k]))
  {
    var disc', n := disc + Encode(h) + payload, Node(h, |disc| + HDR_SIZE, false, []);
    ExtendLaid(disc, disc', table);
    LinkedSnoc(table, n);
    assert HeaderAt(disc', n) by {
      HeaderRoundTrip(h, Encode(h));
      assert disc'[|disc|..|disc| + HDR_SIZE] == Encode(h);
    }
  }

  lemma WrittenNext(disc: seq<byte>, table: seq<Node>, disc': seq<byte>, table': seq<Node>, j: nat,
                    len: nat, payload: seq<byte>)
    requires Written(disc, table, disc', table', j) && j < |table| && table'[j] == table[j]
    requires len == |payload| < TWO32 && payload == Visible(disc, table[j])
    ensures var next := disc' + Encode(table[j].meta.(len := len)) + payload;
            Written(disc, table, next, table'[j := Rewritten(table[j], len, |next|)], j + 1)
  {
    var h := table[j].meta.(len := len);
    var next := disc' + Encode(h) + payload;
    var n := Rewritten(table[j], len, |next|);
    AppendExact(disc', table'[..j], h, payload);
    assert n == Node(h, |disc'| + HDR_SIZE, false, []);
    assert table'[j := n][..j + 1] == table'[..j] + [n];
    forall k | 0 <= k < j
      ensures Stored(next, table'[j := n][k]) == Visible(disc, table[k])
    {
      assert table'[j := n][k] == table'[k] == table'[..j][k];
    }
  }

  /** What the rewrite emits for node j is what its file showed. */
  lemma PayloadIsVisible(disc: seq<byte>, table: seq<Node>, i: nat, j: nat)
    requires Laid(disc, table) && i <= j < |table|
    requires table[j].dirty ==> |table[j].cow| < TWO32
    ensures !table[j].dirty ==> table[i].data <= table[j].data
    ensures HDR_SIZE <= table[i].data <= |disc|
    ensures NewPayload(disc[table[i].data..], table[j], table[i].data) == Visible(disc, table[j])
    ensures |Visible(disc, table[j])| == NewLen(table[j])
  {
    LaidTail(disc, table, i);
    StoredLength(disc, table, j);
  }

  /** The rewrite loop: with records 0..j-1 finished at the end of the file and the later clean
      payloads still in the temp file, it finishes them all. */
  lemma {:induction false} RewriteSound(disc: seq<byte>, table: seq<Node>, i: nat,
                                        disc': seq<byte>, table': seq<Node>, j: nat)
    requires Laid(disc, table) && i < |table| && i <= j <= |table|
    requires forall k :: j <= k < |table| && table[k].dirty ==> |table[k].cow| < TWO32
    requires Written(disc, table, disc', table', j) && table'[j..] == table[j..]
    requires HDR_SIZE <= table[i].data <= |disc| && TempHolds(disc[table[i].data..], table', j, table[i].data)
    ensures var r := Rewrite(disc', disc[table[i].data..], table', j, table[i].data);
            Flushed(disc, table, r.0, r.1)
    decreases |table| - j
  {
    if j == |table| {
      assert table'[..j] == table';
    } else {
      var n, shift := table[j], table[i].data;
      assert table'[j] == table'[j..][0] == n;
      PayloadIsVisible(disc, table, i, j);
      WrittenNext(disc, table, disc', table', j, NewLen(n), Visible(disc, n));
      var next := disc' + Encode(n.meta.(len := NewLen(n))) + Visible(disc, n);
      var table'' := table'[j := Rewritten(n, NewLen(n), |next|)];
      assert table''[j + 1..] == table'[j..][1..] == table[j + 1..];
      RewriteSound(disc, table, i, next, table'', j + 1);
    }
  }
}
