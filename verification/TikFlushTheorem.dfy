/** Exactly when a flush is right, for a disc opened with or without `O_APPEND`. */
module TikFlushTheorem {
  import opened Files
  import opened TikFormat
  import opened TikTable
  import opened TikFlush

  /** Every changed content fits the 32-bit length field. */
  predicate FitsHeader(table: seq<Node>) {
    forall k :: 0 <= k < |table| && table[k].dirty ==> |table[k].cow| < TWO32
  }

  /** Node r changed length, and the same-length writes before it repeat what is on disc. */
  predicate RewritesAt(disc: seq<byte>, table: seq<Node>, i: nat, r: int) {
    && i <= r < |table| && Resized(table[r])
    && (forall k :: i <= k < r && table[k].dirty ==> table[k].cow == Stored(disc, table[k]))
  }

  predicate AllClean(table: seq<Node>, i: nat) {
    forall k :: i <= k < |table| ==> !table[k].dirty
  }

  /** The in-place branch from node i on cannot do harm although its writes go to the end of the disc. */
  ghost predicate Harmless(disc: seq<byte>, table: seq<Node>, i: nat) {
    AllClean(table, i) || exists r :: RewritesAt(disc, table, i, r)
  }

  /** The condition to check before a flush. */
  ghost predicate FlushCondition(append: bool, disc: seq<byte>, table: seq<Node>) {
    FitsHeader(table) && (append ==> Harmless(disc, table, 0))
  }

  /** The files are the same under both descriptions. */
  predicate SameFiles(disc: seq<byte>, table: seq<Node>, disc': seq<byte>, table': seq<Node>) {
    && |table'| == |table|
    && (forall k {:trigger table'[k]} :: 0 <= k < |table| ==>
          table'[k].meta.key == table[k].meta.key && Visible(disc', table'[k]) == Visible(disc, table[k]))
  }

  lemma FlushedVia(disc: seq<byte>, table: seq<Node>, disc': seq<byte>, table': seq<Node>, d: seq<byte>, t: seq<Node>)
    requires SameFiles(disc, table, disc', table') && Flushed(disc', table', d, t)
    ensures Flushed(disc, table, d, t)
  {
    forall k | 0 <= k < |table|
      ensures !t[k].dirty && t[k].meta.key == table[k].meta.key && Visible(d, t[k]) == Visible(disc, table[k])
    {
      assert table'[k].meta.key == table[k].meta.key;
    }
  }

  /** A resized node found at i: the tail rewrite finishes the job, whatever follows the records. */
  lemma {:induction false} ResizedSound(append: bool, disc: seq<byte>, table: seq<Node>, i: nat,
                                        r: (seq<byte>, seq<Node>))
    requires Laid(disc, table) && i < |table| && Resized(table[i]) && FitsHeader(table)
    requires forall k :: 0 <= k < i ==> !table[k].dirty
    requires r == Flush(append, disc, table, i)
    ensures Flushed(disc, table, r.0, r.1)
  {
    PrefixWritten(disc, table, i);
    LaidTail(disc, table, i);
    RewriteSound(disc, table, i, disc[..table[i].data - HDR_SIZE], table, i);
  }

  /** What is left of the disc after the truncation. */
  lemma PrefixWritten(disc: seq<byte>, table: seq<Node>, i: nat)
    requires Laid(disc, table) && i < |table|
    requires forall k :: 0 <= k < i ==> !table[k].dirty
    ensures HDR_SIZE <= table[i].data <= |disc|
    ensures Written(disc, table, disc[..table[i].data - HDR_SIZE], table, i)
  {
    StoredLength(disc, table, i);
    var out := disc[..table[i].data - HDR_SIZE];
    assert table[i].data == RecordEnd(table, i) + HDR_SIZE;
    forall k | 0 <= k < i
      ensures HeaderAt(out, table[..i][k]) && Stored(out, table[k]) == Stored(disc, table[k])
    {
      StoredLength(disc, table, k);
      Ordered(table, k, i);
      assert HeaderAt(disc, table[k]);
      assert Agree(disc, out, 0, |out|);
      AgreePart(disc, out, 0, |out|, table[k].data - HDR_SIZE, table[k].data);
      AgreePart(disc, out, 0, |out|, table[k].data, table[k].data + table[k].meta.len);
      SameHeader(disc, out, table[k]);
      SameStored(disc, out, table[k]);
    }
    forall k: nat | k < i
      ensures table[..i][k].data == RecordEnd(table[..i], k) + HDR_SIZE
    {
      assert table[k].data == RecordEnd(table, k) + HDR_SIZE;
    }
    assert RecordEnd(table[..i], i) == RecordEnd(table, i);
  }

  /** One turn of the flush loop at a dirty node of unchanged length. */
  lemma InPlaceTurn(append: bool, disc: seq<byte>, table: seq<Node>, i: nat)
    returns (disc': seq<byte>, table': seq<Node>)
    requires Laid(disc, table) && i < |table| && table[i].dirty && !Resized(table[i])
    ensures table' == table[i := Cleaned(table[i])]
    ensures Laid(disc', table') && RecordEnd(table', |table|) == RecordEnd(table, |table|)
    ensures |disc'| == |disc| + if append then |table[i].cow| else 0
    ensures Flush(append, disc, table, i) == Flush(append, disc', table', i + 1)
    ensures forall k :: 0 <= k < |table| && k != i ==> Stored(disc', table[k]) == Stored(disc, table[k])
    ensures Stored(disc', table[i]) == if append then Stored(disc, table[i]) else table[i].cow
  {
    InPlaceLaid(append, disc, table, i);
    disc', table' := WriteAt(append, disc, table[i].data, table[i].cow), table[i := Cleaned(table[i])];
  }

  lemma CleanTurn(append: bool, disc: seq<byte>, table: seq<Node>, i: nat)
    requires Laid(disc, table) && i < |table| && !table[i].dirty
    ensures Flush(append, disc, table, i) == Flush(append, disc, table, i + 1)
  {
  }

  /** What the loop needs at node i: the earlier nodes are done, and if anything has been appended to
      the disc a rewrite is still to come. */
  ghost predicate Flushable(append: bool, disc: seq<byte>, table: seq<Node>, i: nat) {
    && Laid(disc, table) && FitsHeader(table) && i <= |table|
    && (forall k :: 0 <= k < i ==> !table[k].dirty)
    && (append ==> Harmless(disc, table, i))
    && (|disc| == RecordEnd(table, |table|) || (append && !AllClean(table, i)))
  }

  lemma NothingLeft(append: bool, disc: seq<byte>, table: seq<Node>)
    requires Flushable(append, disc, table, |table|)
    ensures Flushed(disc, table, disc, table)
  {
  }

  lemma CleanStep(append: bool, disc: seq<byte>, table: seq<Node>, i: nat, r: (seq<byte>, seq<Node>))
    requires Flushable(append, disc, table, i) && r == Flush(append, disc, table, i)
    requires i < |table| && !table[i].dirty
    ensures Flushable(append, disc, table, i + 1) && r == Flush(append, disc, table, i + 1)
  {
    CleanTurn(append, disc, table, i);
    StepClean(disc, table, i);
  }

  lemma InPlaceStep(append: bool, disc: seq<byte>, table: seq<Node>, i: nat, r: (seq<byte>, seq<Node>))
    returns (disc': seq<byte>, table': seq<Node>)
    requires Flushable(append, disc, table, i) && r == Flush(append, disc, table, i)
    requires i < |table| && table[i].dirty && !Resized(table[i])
    ensures |table'| == |table| && Flushable(append, disc', table', i + 1) && r == Flush(append, disc', table', i + 1)
    ensures SameFiles(disc, table, disc', table')
  {
    disc', table' := InPlaceTurn(append, disc, table, i);
    InPlaceReady(append, disc, table, i, disc', table');
  }

  /** `r` is the outcome of the flush from node i on. */
  lemma {:induction false} FlushSound(append: bool, disc: seq<byte>, table: seq<Node>, i: nat,
                                      r: (seq<byte>, seq<Node>))
    requires Flushable(append, disc, table, i) && r == Flush(append, disc, table, i)
    ensures Flushed(disc, table, r.0, r.1)
    decreases |table| - i, 1
  {
    if i == |table| {
      NothingLeft(append, disc, table);
    } else if !table[i].dirty {
      CleanStep(append, disc, table, i, r);
      FlushSound(append, disc, table, i + 1, r);
    } else if Resized(table[i]) {
      ResizedSound(append, disc, table, i, r);
    } else {
      InPlaceSound(append, disc, table, i, r);
    }
  }

  lemma {:induction false} InPlaceSound(append: bool, disc: seq<byte>, table: seq<Node>, i: nat,
                                        r: (seq<byte>, seq<Node>))
    requires Flushable(append, disc, table, i) && r == Flush(append, disc, table, i)
    requires i < |table| && table[i].dirty && !Resized(table[i])
    ensures Flushed(disc, table, r.0, r.1)
    decreases |table| - i, 0
  {
    var disc', table' := InPlaceStep(append, disc, table, i, r);
    FlushSound(append, disc', table', i + 1, r);
    FlushedVia(disc, table, disc', table', r.0, r.1);
  }

  lemma InPlaceReady(append: bool, disc: seq<byte>, table: seq<Node>, i: nat, disc': seq<byte>, table': seq<Node>)
    requires Flushable(append, disc, table, i) && i < |table|
    requires table[i].dirty && !Resized(table[i]) && table' == table[i := Cleaned(table[i])]
    requires Laid(disc', table') && RecordEnd(table', |table|) == RecordEnd(table, |table|)
    requires |disc'| == |disc| + if append then |table[i].cow| else 0
    requires forall k :: 0 <= k < |table| && k != i ==> Stored(disc', table[k]) == Stored(disc, table[k])
    requires Stored(disc', table[i]) == if append then Stored(disc, table[i]) else table[i].cow
    ensures Flushable(append, disc', table', i + 1)
    ensures SameFiles(disc, table, disc', table')
  {
    if append {
      InPlaceHarmless(disc, table, i, disc', table');
    }
  }

  lemma InPlaceHarmless(disc: seq<byte>, table: seq<Node>, i: nat, disc': seq<byte>, table': seq<Node>)
    requires i < |table| && table[i].dirty && !Resized(table[i]) && table' == table[i := Cleaned(table[i])]
    requires forall k :: 0 <= k < |table| && k != i ==> Stored(disc', table[k]) == Stored(disc, table[k])
    ensures Harmless(disc, table, i) <==>
            table[i].cow == Stored(disc, table[i]) && !AllClean(table', i + 1) && Harmless(disc', table', i + 1)
  {
    if r :| RewritesAt(disc, table, i, r) {
      assert table'[r].dirty;
      assert RewritesAt(disc', table', i + 1, r);
    }
    var next := i + 1;
    if table[i].cow == Stored(disc, table[i]) {
      if r :| RewritesAt(disc', table', next, r) {
        forall k | i <= k < r && table[k].dirty
          ensures table[k].cow == Stored(disc, table[k])
        {
          assert k > i ==> table'[k] == table[k];
        }
        assert RewritesAt(disc, table, i, r);
      }
    }
  }

  lemma StepClean(disc: seq<byte>, table: seq<Node>, i: nat)
    requires i < |table| && !table[i].dirty
    ensures AllClean(table, i) <==> AllClean(table, i + 1)
    ensures Harmless(disc, table, i) <==> Harmless(disc, table, i + 1)
  {
    var next := i + 1;
    if r :| RewritesAt(disc, table, i, r) {
      assert RewritesAt(disc, table, next, r);
    }
    if r :| RewritesAt(disc, table, next, r) {
      assert RewritesAt(disc, table, i, r);
    }
  }

  lemma {:induction false} RewriteKeeps(disc: seq<byte>, temp: seq<byte>, table: seq<Node>, j: nat, shift: nat)
    requires TempHolds(temp, table, j, shift) && j <= |table|
    ensures var r := Rewrite(disc, temp, table, j, shift);
            |r.1| == |table| && disc <= r.0 && r.1[..j] == table[..j]
    decreases |table| - j
  {
    if j < |table| {
      var disc', table' := RewriteOne(disc, temp, table, j, shift);
      RewriteKeeps(disc', temp, table', j + 1, shift);
      var r := Rewrite(disc', temp, table', j + 1, shift);
      assert r.1[..j] == r.1[..j + 1][..j] == table'[..j + 1][..j];
    }
  }

  lemma RewriteOne(disc: seq<byte>, temp: seq<byte>, table: seq<Node>, j: nat, shift: nat)
    returns (disc': seq<byte>, table': seq<Node>)
    requires TempHolds(temp, table, j, shift) && j < |table|
    ensures disc <= disc' && |table'| == |table| && table'[..j + 1][..j] == table[..j]
    ensures disc' == disc + Encode(table[j].meta.(len := NewLen(table[j]))) + NewPayload(temp, table[j], shift)
    ensures table' == table[j := Rewritten(table[j], NewLen(table[j]), |disc'|)]
    ensures TempHolds(temp, table', j + 1, shift)
    ensures Rewrite(disc, temp, table, j, shift) == Rewrite(disc', temp, table', j + 1, shift)
  {
    var n := table[j];
    disc' := disc + Encode(n.meta.(len := NewLen(n))) + NewPayload(temp, n, shift);
    table' := table[j := Rewritten(n, NewLen(n), |disc'|)];
  }

  /** Node k's header stands on the disc as it is in memory, the times included; only its length is new. */
  ghost predicate Stamped(table: seq<Node>, disc': seq<byte>, table': seq<Node>, k: nat)
    requires k < |table|
  {
    && |table'| == |table| && HDR_SIZE <= table'[k].data <= |disc'|
    && table'[k].meta == table[k].meta.(len := NewLen(table[k]))
    && disc'[table'[k].data - HDR_SIZE..table'[k].data] == Encode(table'[k].meta)
  }

  lemma RewriteStampsOne(disc: seq<byte>, temp: seq<byte>, table: seq<Node>, j: nat, shift: nat,
                         next: seq<byte>, table': seq<Node>)
    requires TempHolds(temp, table, j, shift) && FitsHeader(table) && j < |table|
    requires next == disc + Encode(table[j].meta.(len := NewLen(table[j]))) + NewPayload(temp, table[j], shift)
    requires table' == table[j := Rewritten(table[j], NewLen(table[j]), |next|)]
    ensures Stamped(table, next, table', j)
  {
    assert |NewPayload(temp, table[j], shift)| == NewLen(table[j]);
    assert next[|disc|..|disc| + HDR_SIZE] == Encode(table[j].meta.(len := NewLen(table[j])));
  }

  lemma StampedLater(table: seq<Node>, disc: seq<byte>, table': seq<Node>, k: nat, disc': seq<byte>, n: Node)
    requires k < |table| && Stamped(table, disc, table', k) && disc <= disc' && n == table'[k]
    ensures HDR_SIZE <= n.data <= |disc'| && disc'[n.data - HDR_SIZE..n.data] == Encode(n.meta)
  {
    assert Agree(disc, disc', 0, |disc|);
    AgreePart(disc, disc', 0, |disc|, n.data - HDR_SIZE, n.data);
  }

  /** Every record that the rewrite re-emits has its node's header on disc. */
  lemma {:induction false} RewriteStamps(disc: seq<byte>, temp: seq<byte>, table: seq<Node>, j: nat, shift: nat, k: nat)
    requires TempHolds(temp, table, j, shift) && FitsHeader(table) && j <= k < |table|
    ensures var r := Rewrite(disc, temp, table, j, shift); Stamped(table, r.0, r.1, k)
    decreases k - j
  {
    var next, table' := RewriteOne(disc, temp, table, j, shift);
    var r := Rewrite(next, temp, table', j + 1, shift);
    if j < k {
      RewriteStamps(next, temp, table', j + 1, shift, k);
    } else {
      RewriteKeeps(next, temp, table', j + 1, shift);
      RewriteStampsOne(disc, temp, table, j, shift, next, table');
      assert r.1[j] == r.1[..j + 1][j] == table'[j];
      StampedLater(table, next, table', j, r.0, r.1[j]);
    }
  }

  /** From the first resized file on, a flush writes back the times of all files. */
  lemma {:induction false} FlushStamps(append: bool, disc: seq<byte>, table: seq<Node>, i: nat, k: nat)
    requires Laid(disc, table) && FitsHeader(table) && i <= k < |table| && Resized(table[i])
    ensures var r := Flush(append, disc, table, i); Stamped(table, r.0, r.1, k)
  {
    LaidTail(disc, table, i);
    RewriteStamps(disc[..table[i].data - HDR_SIZE], disc[table[i].data..], table, i, table[i].data, k);
  }

  /** What stood before record i is still there when its place is written over. */
  lemma KeptInFront(disc: seq<byte>, disc': seq<byte>, table: seq<Node>, i: nat, k: nat)
    requires Laid(disc, table) && k < i < |table| && HDR_SIZE <= table[i].data <= |disc|
    requires disc[..table[i].data - HDR_SIZE] <= disc'
    ensures Stored(disc', table[k]) == Stored(disc, table[k])
  {
    var out := disc[..table[i].data - HDR_SIZE];
    assert table[k].data + table[k].meta.len <= |out| by {
      Ordered(table, k, i);
      assert table[i].data == RecordEnd(table, i) + HDR_SIZE;
    }
    assert disc'[..|out|] == out;
    assert Agree(disc, disc', 0, |out|);
    AgreePart(disc, disc', 0, |out|, table[k].data, table[k].data + table[k].meta.len);
    SameStored(disc, disc', table[k]);
  }

  lemma {:induction false} ResizedKeeps(append: bool, disc: seq<byte>, table: seq<Node>, i: nat, k: nat)
    requires Laid(disc, table) && k < i < |table| && Resized(table[i])
    ensures var r := Flush(append, disc, table, i);
            |r.1| == |table| && r.1[k] == table[k] && Stored(r.0, table[k]) == Stored(disc, table[k])
  {
    var out := disc[..table[i].data - HDR_SIZE];
    LaidTail(disc, table, i);
    RewriteKeeps(out, disc[table[i].data..], table, i, table[i].data);
    var r := Rewrite(out, disc[table[i].data..], table, i, table[i].data);
    assert r.1[k] == r.1[..i][k] == table[..i][k];
    KeptInFront(disc, r.0, table, i, k);
  }

  /** A flush from node i on leaves the earlier nodes and their payloads alone. */
  lemma {:induction false} FlushKeeps(append: bool, disc: seq<byte>, table: seq<Node>, i: nat, k: nat,
                                      r: (seq<byte>, seq<Node>))
    requires Laid(disc, table) && k < i <= |table|
    requires r == Flush(append, disc, table, i)
    ensures |r.1| == |table| && r.1[k] == table[k] && Stored(r.0, table[k]) == Stored(disc, table[k])
    decreases |table| - i
  {
    if i == |table| {
    } else if !table[i].dirty {
      CleanTurn(append, disc, table, i);
      FlushKeeps(append, disc, table, i + 1, k, r);
    } else if Resized(table[i]) {
      ResizedKeeps(append, disc, table, i, k);
    } else {
      var disc', table' := InPlaceTurn(append, disc, table, i);
      FlushKeeps(append, disc', table', i + 1, k, r);
    }
  }

  lemma {:induction false} RewriteMeta(disc: seq<byte>, temp: seq<byte>, table: seq<Node>, j: nat, shift: nat, k: nat)
    requires TempHolds(temp, table, j, shift) && j <= k < |table|
    ensures var r := Rewrite(disc, temp, table, j, shift);
            |r.1| == |table| && r.1[k].meta == table[k].meta.(len := NewLen(table[k]))
    decreases k - j
  {
    var next, table' := RewriteOne(disc, temp, table, j, shift);
    if j < k {
      RewriteMeta(next, temp, table', j + 1, shift, k);
    } else {
      RewriteKeeps(next, temp, table', j + 1, shift);
      var r := Rewrite(next, temp, table', j + 1, shift);
      assert r.1[j] == r.1[..j + 1][j] == table'[j];
    }
  }

  lemma {:induction false} ResizedMeta(append: bool, disc: seq<byte>, table: seq<Node>, i: nat, k: nat,
                                       r: (seq<byte>, seq<Node>))
    requires Laid(disc, table) && i <= k < |table| && Resized(table[i]) && r == Flush(append, disc, table, i)
    ensures |r.1| == |table| && r.1[k].meta == table[k].meta.(len := NewLen(table[k]))
  {
    LaidTail(disc, table, i);
    RewriteMeta(disc[..table[i].data - HDR_SIZE], disc[table[i].data..], table, i, table[i].data, k);
  }

  lemma SameMeta(table: seq<Node>, i: nat, n: Node)
    requires i < |table| && !Resized(table[i]) && (n == table[i] || (table[i].dirty && n == Cleaned(table[i])))
    ensures n.meta == table[i].meta.(len := NewLen(table[i]))
  {
  }

  /** In memory a flush changes of a node's key, times and length only the length, to that of its content. */
  lemma {:induction false} FlushMeta(append: bool, disc: seq<byte>, table: seq<Node>, i: nat, k: nat,
                                     r: (seq<byte>, seq<Node>))
    requires Laid(disc, table) && i <= k < |table| && r == Flush(append, disc, table, i)
    ensures |r.1| == |table| && r.1[k].meta == table[k].meta.(len := NewLen(table[k]))
    decreases |table| - i
  {
    if table[i].dirty && Resized(table[i]) {
      ResizedMeta(append, disc, table, i, k, r);
    } else {
      var disc', table' := SkipTurn(append, disc, table, i);
      if i < k {
        FlushMeta(append, disc', table', i + 1, k, r);
      } else {
        FlushKeeps(append, disc', table', i + 1, i, r);
        SameMeta(table, i, table'[i]);
      }
    }
  }

  /** One turn of the flush loop at a node that is not resized. */
  lemma SkipTurn(append: bool, disc: seq<byte>, table: seq<Node>, i: nat) returns (disc': seq<byte>, table': seq<Node>)
    requires Laid(disc, table) && i < |table| && !Resized(table[i])
    ensures |table'| == |table| && Laid(disc', table')
    ensures Flush(append, disc, table, i) == Flush(append, disc', table', i + 1)
    ensures table' == table[i := if table[i].dirty then Cleaned(table[i]) else table[i]]
  {
    if table[i].dirty {
      disc', table' := InPlaceTurn(append, disc, table, i);
    } else {
      CleanTurn(append, disc, table, i);
      disc', table' := disc, table;
      assert table[i := table[i]] == table;
    }
  }

  lemma {:induction false} CleanFlush(append: bool, disc: seq<byte>, table: seq<Node>, i: nat)
    requires Laid(disc, table) && AllClean(table, i)
    ensures Flush(append, disc, table, i) == (disc, table)
    decreases |table| - i
  {
    if i < |table| {
      CleanFlush(append, disc, table, i + 1);
    }
  }

  /** If the flush came out right, the payload it appended was on disc already. */
  lemma AppendBack(disc: seq<byte>, table: seq<Node>, i: nat, disc': seq<byte>, table': seq<Node>,
                   r: (seq<byte>, seq<Node>))
    requires Flushed(disc, table, r.0, r.1)
    requires i < |table| && table[i].dirty && table' == table[i := Cleaned(table[i])]
    requires forall k :: 0 <= k < |table| ==> Stored(disc', table[k]) == Stored(disc, table[k])
    requires r.1[i] == table'[i] && Stored(r.0, table'[i]) == Stored(disc', table'[i])
    ensures table[i].cow == Stored(disc, table[i]) && Flushed(disc', table', r.0, r.1)
  {
    assert Visible(r.0, r.1[i]) == table[i].cow;
    assert SameFiles(disc', table', disc, table);
    FlushedVia(disc', table', disc, table, r.0, r.1);
  }

  /** A payload appended behind the records must be cut off by a later rewrite. */
  lemma AppendedIsNotLast(disc: seq<byte>, table: seq<Node>, i: nat, disc': seq<byte>, table': seq<Node>,
                          r: (seq<byte>, seq<Node>))
    requires Laid(disc, table) && Laid(disc', table') && |table'| == |table| && i < |table|
    requires RecordEnd(table', |table|) == RecordEnd(table, |table|) && |disc'| > |disc|
    requires r == Flush(true, disc', table', i + 1) && Exact(r.0, r.1)
    ensures !AllClean(table', i + 1)
  {
    if AllClean(table', i + 1) {
      CleanFlush(true, disc', table', i + 1);
    }
  }

  /** With `O_APPEND`, a flush that came out right was harmless. */
  lemma {:induction false} AppendNecessary(disc: seq<byte>, table: seq<Node>, i: nat, r: (seq<byte>, seq<Node>))
    requires Laid(disc, table) && i <= |table|
    requires forall k :: 0 <= k < |table| && table[k].dirty ==> table[k].cow != []
    requires r == Flush(true, disc, table, i) && Flushed(disc, table, r.0, r.1)
    ensures Harmless(disc, table, i)
    decreases |table| - i, 1
  {
    if i == |table| {
    } else if !table[i].dirty {
      CleanTurn(true, disc, table, i);
      StepClean(disc, table, i);
      AppendNecessary(disc, table, i + 1, r);
    } else if Resized(table[i]) {
      assert RewritesAt(disc, table, i, i);
    } else {
      InPlaceNecessary(disc, table, i, r);
    }
  }

  lemma {:induction false} InPlaceNecessary(disc: seq<byte>, table: seq<Node>, i: nat, r: (seq<byte>, seq<Node>))
    requires Laid(disc, table) && i < |table| && table[i].dirty && !Resized(table[i])
    requires forall k :: 0 <= k < |table| && table[k].dirty ==> table[k].cow != []
    requires r == Flush(true, disc, table, i) && Flushed(disc, table, r.0, r.1)
    ensures Harmless(disc, table, i)
    decreases |table| - i, 0
  {
    var disc', table' := InPlaceTurn(true, disc, table, i);
    FlushKeeps(true, disc', table', i + 1, i, r);
    AppendBack(disc, table, i, disc', table', r);
    AppendNecessary(disc', table', i + 1, r);
    AppendedIsNotLast(disc, table, i, disc', table', r);
    InPlaceHarmless(disc, table, i, disc', table');
  }

  /** The flush theorem.  From an exact disc, the flush leaves every file's content unchanged, every
      node clean and the disc exact, if and only if the condition holds. */
  lemma {:induction false} FlushExactly(append: bool, disc: seq<byte>, table: seq<Node>)
    requires Exact(disc, table)
    requires forall k :: 0 <= k < |table| && table[k].dirty ==> table[k].cow != []
    ensures (var r := Flush(append, disc, table, 0); Flushed(disc, table, r.0, r.1))
        <==> FlushCondition(append, disc, table)
  {
    var r := Flush(append, disc, table, 0);
    if FlushCondition(append, disc, table) {
      FlushSound(append, disc, table, 0, r);
    }
    if Flushed(disc, table, r.0, r.1) {
      if append {
        AppendNecessary(disc, table, 0, r);
      }
      forall k | 0 <= k < |table| && table[k].dirty
        ensures |table[k].cow| < TWO32
      {
        StoredLength(r.0, r.1, k);
        assert Visible(r.0, r.1[k]) == table[k].cow;
      }
    }
  }

  /** The failing case: one record, one byte rewritten in place, on the disc as tikfs opens it.  The
      new byte lands behind the record and the file still shows the old one. */
  lemma AppendFails(meta: DataHdr)
    requires meta.len == 1
    ensures var disc, table := Image([Record(meta, [1])]), [Node(meta, 64, true, [2])];
            && Exact(disc, table)
            && var r := Flush(true, disc, table, 0);
               r.0 == disc + [2] && |r.1| == 1 && Visible(r.0, r.1[0]) == [1]
    ensures var disc, table := Image([Record(meta, [1])]), [Node(meta, 64, true, [2])];
            Visible(disc, table[0]) == [2]
  {
    var rs: seq<Record> := [Record(meta, [1])];
    var disc, table := Image(rs), [Node(meta, 64, true, [2])];
    assert rs[..0] == [];
    RecordAt(rs, 0);
    assert disc[8..64] == Encode(meta);
    HeaderRoundTrip(meta, Encode(meta));
    assert Laid(disc, table);
    InPlaceLaid(true, disc, table, 0);
  }
}
