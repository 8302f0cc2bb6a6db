/** The static state of `5_filesys/tikfs.c` and the functions that update it in place. */
module Tikfs {
  import opened Files
  import opened TikFormat
  import opened TikTable
  import opened TikFlush
  import opened TikOps

  class Tikfs {
    const disc: OpenFile    // tikfs_fd
    var table: seq<Node>    // table[..table_next]

    function Abstract(): Fs
      reads this, disc
    {
      Fs(disc.append, disc.content, table)
    }

    constructor (disc: OpenFile)
      ensures this.disc == disc && table == []
    {
      this.disc, table := disc, [];
    }

    /** `tikfs_check_superblock` then `tikfs_build_cache` on a freshly opened disc. */
    method BuildCache() returns (ok: bool)
      requires disc.pos == 0
      modifies this, disc`pos
      ensures ok == Mount(disc.content).Some?
      ensures ok ==> Abstract() == MountFs(disc.append, disc.content)
    {
      var header := disc.Read(SUPER_SIZE);
      assert CheckHeader(header) == CheckHeader(disc.content) by {
        HeaderPrefix(disc.content);
      }
      if CheckHeader(header) != HdrOk {
        return false;
      }
      table := [];
      ok := ScanRecords();
      disc.Lseek(0);
    }

    /** The loop of `tikfs_build_cache`. */
    method ScanRecords() returns (ok: bool)
      modifies `table, disc`pos
      ensures ok == Scan(disc.content, old(disc.pos), old(table)).Some?
      ensures ok ==> table == Scan(disc.content, old(disc.pos), old(table)).value
    {
      ghost var goal := Scan(disc.content, disc.pos, table);
      while true
        invariant Scan(disc.content, disc.pos, table) == goal
        decreases if disc.pos < |disc.content| then |disc.content| - disc.pos else 0
      {
        var h := disc.Read(HDR_SIZE);
        if h == [] {
          return true;
        }
        if |h| != HDR_SIZE {
          return false;
        }
        var meta := Decode(h);
        if meta.len == 0 {
          return false;
        }
        table := table + [Node(meta, disc.pos, false, [])];
        disc.Lseek(disc.pos + meta.len);
      }
    }

    /** `tikfs_file_type`. */
    method LookUp(path: seq<byte>) returns (kind: PathKind)
      requires path != []
      ensures kind == FileType(Keys(table), path)
    {
      if path == [SLASH] {
        return Root;
      }
      var i := 0;
      while i < |table|
        invariant i <= |table|
        invariant Find(Keys(table), path[1..], i) == Find(Keys(table), path[1..], 0)
      {
        if Matches(table[i].meta.key, path[1..]) {
          return Entry(i);
        }
        i := i + 1;
      }
      kind := NoSuchFile;
    }

    /** `tikfs_read`. */
    method ReadAtPath(path: seq<byte>, size: nat, offset: nat, now: Time) returns (reply: Reply)
      requires path != []
      modifies this, disc`pos
      ensures (Abstract(), reply) == ReadFile(old(Abstract()), path, size, offset, now)
    {
      var kind := LookUp(path);
      if !kind.Entry? {
        return Failed(EINVAL);
      }
      var node := kind.index;
      var n := table[node];
      var len := if n.dirty then |n.cow| else n.meta.len;
      if offset > len {
        return Failed(EINVAL);
      }
      var size' := if offset + size > len then len - offset else size;
      var buff: seq<byte>;
      if !n.dirty {
        disc.Lseek(n.data + offset);
        buff := disc.Read(size');
      } else {
        buff := n.cow[offset..offset + size'];
      }
      table := table[node := n.(meta := n.meta.(tsR := now))];
      reply := Data(buff);
    }

    /** Resize the buffer to end where the write ends (xrealloc keeps what fits), then copy. */
    static method Store(cow: seq<byte>, offset: nat, buff: seq<byte>, gap: nat -> byte) returns (cow': seq<byte>)
      ensures cow' == Splice(cow, offset, buff, gap)
    {
      cow' := cow;
      if offset + |buff| < |cow'| {
        cow' := cow'[..offset + |buff|];
      } else if offset + |buff| > |cow'| {
        cow' := cow' + seq<byte>(offset + |buff| - |cow'|, i requires 0 <= i => gap(i));
      }
      cow' := cow'[..offset] + buff;
    }

    /** `tikfs_write`; `gap` is what a grown buffer holds before it is filled. */
    method WriteAtPath(path: seq<byte>, buff: seq<byte>, offset: nat, gap: nat -> byte, now: Time)
      returns (reply: Reply)
      requires path != []
      modifies this, disc`pos
      ensures (Abstract(), reply) == WriteFile(old(Abstract()), path, buff, offset, gap, now)
    {
      var kind := LookUp(path);
      if !kind.Entry? {
        return Failed(EINVAL);
      }
      var node := kind.index;
      var n := table[node];
      var cow := n.cow;
      if !n.dirty {
        disc.Lseek(n.data);
        cow := disc.Read(n.meta.len);
        if |cow| < n.meta.len {
          return Failed(EIO);
        }
      }
      if offset + |buff| == 0 && |cow| != 0 {
        return Exited;
      }
      cow := Store(cow, offset, buff, gap);
      table := table[node := Node(n.meta.(tsW := now), n.data, true, cow)];
      reply := Count(|buff|);
    }

    /** `____tikfs_flush_dirty_nodes_to_disc_dirty` at the end of the disc. */
    method RewriteDirty(i: nat)
      requires i < |table| && table[i].dirty && disc.pos == |disc.content|
      modifies this, disc
      ensures var n := old(table[i]);
              && disc.content == old(disc.content) + Encode(n.meta.(len := NewLen(n))) + n.cow
              && table == old(table)[i := Rewritten(n, NewLen(n), |disc.content|)]
              && disc.pos == |disc.content|
    {
      var n := table[i];
      var meta := n.meta.(len := |n.cow| % TWO32);
      disc.Write(Encode(meta));
      disc.Write(n.cow);
      table := table[i := Node(meta, disc.pos - meta.len, false, [])];
    }

    /** `____tikfs_flush_dirty_nodes_to_disc_clean` at the end of the disc. */
    method RewriteClean(i: nat, temp: OpenFile, offshift: nat)
      requires i < |table| && !table[i].dirty && disc.pos == |disc.content| && temp != disc
      requires offshift <= table[i].data && table[i].data - offshift + table[i].meta.len <= |temp.content|
      modifies this, disc, temp`pos
      ensures var n := old(table[i]);
              && disc.content == old(disc.content) + Encode(n.meta) + NewPayload(temp.content, n, offshift)
              && table == old(table)[i := Rewritten(n, n.meta.len, |disc.content|)]
              && disc.pos == |disc.content|
    {
      var n := table[i];
      temp.Lseek(n.data - offshift);
      disc.Write(Encode(n.meta));
      var tmp := temp.Read(n.meta.len);
      disc.Write(tmp);
      table := table[i := Node(n.meta, disc.pos - n.meta.len, false, [])];
    }

    /** `__tikfs_flush_dirty_nodes_to_disc`. */
    method RewriteTail(from: nat, temp: OpenFile, offshift: nat)
      requires from <= |table| && disc.pos == |disc.content| && temp != disc
      requires TempHolds(temp.content, table, from, offshift)
      modifies this, disc, temp`pos
      ensures (disc.content, table) == Rewrite(old(disc.content), temp.content, old(table), from, offshift)
    {
      ghost var goal := Rewrite(disc.content, temp.content, table, from, offshift);
      var i := from;
      while i < |table|
        invariant from <= i <= |table| && disc.pos == |disc.content|
        invariant temp.content == old(temp.content)
        invariant TempHolds(temp.content, table, i, offshift)
        invariant Rewrite(disc.content, temp.content, table, i, offshift) == goal
      {
        ghost var n, before := table[i], disc.content;
        if table[i].dirty {
          RewriteDirty(i);
        } else {
          RewriteClean(i, temp, offshift);
          assert n.meta == n.meta.(len := n.meta.len);
        }
        assert disc.content == before + Encode(n.meta.(len := NewLen(n))) + NewPayload(temp.content, n, offshift);
        i := i + 1;
      }
    }

    /** The sendfile loop: whole blocks, then the rest. */
    method CopyTail(temp: OpenFile, from: nat, blockSize: nat)
      requires temp != disc && !temp.append && temp.content == [] && temp.pos == 0
      requires from <= |disc.content| && blockSize > 0
      modifies temp, disc`pos
      ensures temp.content == disc.content[from..]
    {
      var toCopy := |disc.content| - from;
      var blocks, rest := toCopy / blockSize, toCopy % blockSize;
      disc.Lseek(from);
      var ii := 0;
      ghost var copied := 0;
      while ii < blocks
        invariant 0 <= ii <= blocks && copied == ii * blockSize
        invariant disc.pos == from + copied <= |disc.content|
        invariant temp.content == disc.content[from..from + copied] && temp.pos == |temp.content|
      {
        NextBlock(toCopy, blockSize, ii);
        temp.SendFrom(disc, blockSize);
        ii := ii + 1;
        Joined(disc.content, from, from + copied, from + copied + blockSize);
        copied := copied + blockSize;
      }
      Blocks(toCopy, blockSize);
      temp.SendFrom(disc, rest);
      Joined(disc.content, from, from + copied, |disc.content|);
    }

    /** The branch for a changed content of the same length. */
    method FlushInPlace(i: nat)
      requires Laid(disc.content, table) && i < |table| && table[i].dirty && !Resized(table[i])
      modifies this, disc
      ensures Laid(disc.content, table)
      ensures |table| == |old(table)|
      ensures Flush(disc.append, disc.content, table, i + 1)
           == Flush(disc.append, old(disc.content), old(table), i)
    {
      InPlaceLaid(disc.append, disc.content, table, i);
      disc.Lseek(table[i].data);
      disc.Write(table[i].cow);
      table := table[i := table[i].(dirty := false, cow := [])];
    }

    /** The branch for the first content of another length: save the tail, truncate, re-emit. */
    method FlushResized(i: nat, blockSize: nat)
      requires Laid(disc.content, table) && i < |table| && Resized(table[i]) && blockSize > 0
      modifies this, disc
      ensures (disc.content, table) == Flush(disc.append, old(disc.content), old(table), i)
    {
      LaidTail(disc.content, table, i);
      var offshift := table[i].data;
      var temp := new OpenFile([], false);
      CopyTail(temp, table[i].data, blockSize);
      temp.Lseek(0);
      disc.Lseek(table[i].data - HDR_SIZE);
      disc.Truncate(table[i].data - HDR_SIZE);
      RewriteTail(i, temp, offshift);
    }

    /** `tikfs_flush_dirty_nodes_to_disc`; `blockSize` is the disc's `st_blksize`. */
    method FlushDirtyNodes(blockSize: nat)
      requires Laid(disc.content, table) && blockSize > 0
      modifies this, disc
      ensures Abstract() == FlushAll(old(Abstract()))
    {
      ghost var goal := Flush(disc.append, disc.content, table, 0);
      var i := 0;
      while i < |table|
        invariant i <= |table| && Laid(disc.content, table)
        invariant Flush(disc.append, disc.content, table, i) == goal
      {
        if table[i].dirty {
          if |table[i].cow| == table[i].meta.len {
            FlushInPlace(i);
          } else {
            FlushResized(i, blockSize);
            return;
          }
        }
        i := i + 1;
      }
    }
  }

  lemma HeaderPrefix(content: seq<byte>)
    ensures CheckHeader(ReadAt(content, 0, SUPER_SIZE)) == CheckHeader(content)
  {
    var h := ReadAt(content, 0, SUPER_SIZE);
    if |content| >= SUPER_SIZE {
      assert h[..4] == content[..4] && h[4..6] == content[4..6] && h[6..8] == content[6..8];
    }
  }

  lemma Blocks(n: nat, size: nat)
    requires size > 0
    ensures n / size * size + n % size == n
  {
  }

  lemma NextBlock(n: nat, size: nat, i: nat)
    requires size > 0 && i < n / size
    ensures (i + 1) * size == i * size + size <= n
  {
    Blocks(n, size);
    assert (i + 1) * size <= n / size * size by {
      Multiples(i + 1, n / size, size);
    }
  }

  lemma Multiples(a: nat, b: nat, n: nat)
    requires a <= b
    ensures a * n <= b * n
  {
  }

  lemma Joined(content: seq<byte>, a: nat, b: nat, c: nat)
    requires a <= b <= c <= |content|
    ensures content[a..b] + content[b..c] == content[a..c]
    ensures c == |content| ==> content[a..c] == content[a..]
  {
  }
}
