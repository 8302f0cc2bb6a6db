/** The mounted file system: its operations on the cache, and the plain list of files they refine. */
module TikOps {
  import opened Files
  import opened TikFormat
  import opened TikTable
  import opened TikFlush
  import opened TikFlushTheorem

  datatype Fs = Fs(append: bool, disc: seq<byte>, table: seq<Node>)

  /** What a user sees of one record. */
  datatype File = File(key: seq<byte>, bytes: seq<byte>)

  datatype Error = EINVAL | ENOENT | EIO

  datatype Reply =
    | Data(bytes: seq<byte>)
    | Count(n: nat)
    | SizeOf(n: nat)
    | Directory
    | Failed(error: Error)
    | Exited            // xrealloc to size zero ends the process
    | Done

  const SLASH: byte := 47

  /** `strncmp` of a stored key with a NUL-free name, over at most the key's 32 bytes. */
  predicate Matches(key: seq<byte>, name: seq<byte>)
    requires |key| == KEY_SIZE
  {
    if |name| <= KEY_SIZE then name <= key else key <= name
  }

  function Keys(table: seq<Node>): seq<seq<byte>> {
    seq(|table|, i requires 0 <= i < |table| => table[i].meta.key)
  }

  ghost predicate ValidKeys(keys: seq<seq<byte>>) {
    forall i :: 0 <= i < |keys| ==> |keys[i]| == KEY_SIZE
  }

  datatype PathKind = NoSuchFile | Root | Entry(index: nat)

  /** `tikfs_file_type` from index i on. */
  function Find(keys: seq<seq<byte>>, name: seq<byte>, i: nat): (r: PathKind)
    requires ValidKeys(keys) && i <= |keys|
    ensures r.Entry? ==> i <= r.index < |keys| && Matches(keys[r.index], name)
                         && forall k :: i <= k < r.index ==> !Matches(keys[k], name)
    ensures !r.Entry? ==> r == NoSuchFile && forall k :: i <= k < |keys| ==> !Matches(keys[k], name)
    decreases |keys| - i
  {
    if i == |keys| then NoSuchFile
    else if Matches(keys[i], name) then Entry(i)
    else Find(keys, name, i + 1)
  }

  /** `tikfs_file_type`: the first key the name is a prefix of. */
  function FileType(keys: seq<seq<byte>>, path: seq<byte>): (r: PathKind)
    requires ValidKeys(keys) && path != []
    ensures r.Entry? ==> r.index < |keys|
  {
    if path == [SLASH] then Root else Find(keys, path[1..], 0)
  }

  /** The path lookup on bytes: "/" and a name of at most 32 bytes mean the first key that begins with
      the name; of a longer name the first 32 bytes must be the whole key. */
  lemma FileTypeOnBytes(keys: seq<seq<byte>>, name: seq<byte>, i: nat)
    requires ValidKeys(keys) && name != []
    ensures var path, short := [47] + name, if |name| <= 32 then name else name[..32];
            && (FileType(keys, path) == Entry(i) <==>
                  i < |keys| && short <= keys[i] && forall k :: 0 <= k < i ==> !(short <= keys[k]))
            && (FileType(keys, path) == NoSuchFile <==> forall k :: 0 <= k < |keys| ==> !(short <= keys[k]))
            && FileType(keys, path) != Root
    ensures FileType(keys, [47]) == Root
  {
    var path, short := [47] + name, if |name| <= 32 then name else name[..32];
    assert path[1..] == name && path != [SLASH];
    forall k | 0 <= k < |keys|
      ensures Matches(keys[k], name) <==> short <= keys[k]
    {
      MatchesOnBytes(keys[k], name);
    }
  }

  lemma MatchesOnBytes(key: seq<byte>, name: seq<byte>)
    requires |key| == KEY_SIZE
    ensures Matches(key, name) <==> (if |name| <= 32 then name else name[..32]) <= key
  {
    if |name| > 32 {
      assert key <= name <==> key == name[..32];
    }
  }

  function Length(n: Node): nat {
    if n.dirty then |n.cow| else n.meta.len
  }

  /** `tikfs_getattr`, the size only. */
  function GetAttr(s: Fs, path: seq<byte>): Reply
    requires path != []
  {
    match FileType(Keys(s.table), path)
    case Root => Directory
    case Entry(i) => SizeOf(Length(s.table[i]))
    case NoSuchFile => Failed(ENOENT)
  }

  /** From the cache when the node is dirty, else from the disc. */
  function NodeData(disc: seq<byte>, n: Node, size: nat, offset: nat): seq<byte>
    requires offset <= Length(n)
  {
    var size' := if offset + size > Length(n) then Length(n) - offset else size;
    if n.dirty then n.cow[offset..offset + size'] else ReadAt(disc, n.data + offset, size')
  }

  /** `tikfs_read`. */
  function ReadFile(s: Fs, path: seq<byte>, size: nat, offset: nat, now: Time): (Fs, Reply)
    requires path != []
  {
    match FileType(Keys(s.table), path)
    case Entry(i) =>
      var n := s.table[i];
      if offset > Length(n) then (s, Failed(EINVAL))
      else
        (s.(table := s.table[i := n.(meta := n.meta.(tsR := now))]), Data(NodeData(s.disc, n, size, offset)))
    case _ => (s, Failed(EINVAL))
  }

  /** The buffer after a write: it ends where the write ends, and a gap before the write holds
      whatever the reallocated memory held. */
  function Splice(was: seq<byte>, offset: nat, buff: seq<byte>, gap: nat -> byte): (r: seq<byte>)
    ensures |r| == offset + |buff| && r[offset..] == buff
    ensures offset <= |was| ==> r == was[..offset] + buff
    ensures offset > |was| ==> was <= r
  {
    if offset <= |was| then was[..offset] + buff
    else was + seq<byte>(offset - |was|, i requires 0 <= i => gap(i)) + buff
  }

  /** `tikfs_write`. */
  function WriteFile(s: Fs, path: seq<byte>, buff: seq<byte>, offset: nat, gap: nat -> byte, now: Time): (Fs, Reply)
    requires path != []
  {
    match FileType(Keys(s.table), path)
    case Entry(i) =>
      var n := s.table[i];
      if !n.dirty && |Stored(s.disc, n)| < n.meta.len then (s, Failed(EIO))
      else if offset + |buff| == 0 && Length(n) != 0 then (s, Exited)
      else
        var cow := Splice(Visible(s.disc, n), offset, buff, gap);
        (s.(table := s.table[i := Node(n.meta.(tsW := now), n.data, true, cow)]), Count(|buff|))
    case _ => (s, Failed(EINVAL))
  }

  /** `tikfs_flush_dirty_nodes_to_disc`. */
  function FlushAll(s: Fs): Fs
    requires Laid(s.disc, s.table)
  {
    var r := Flush(s.append, s.disc, s.table, 0);
    s.(disc := r.0, table := r.1)
  }

  /** What holds between operations: the disc is the packed records, no file is empty. */
  ghost predicate Wf(s: Fs) {
    && Exact(s.disc, s.table)
    && (forall i :: 0 <= i < |s.table| ==> s.table[i].meta.len > 0 && (s.table[i].dirty ==> s.table[i].cow != []))
  }

  /** The abstract state: keys and contents in table order. */
  function FilesOf(s: Fs): (fs: seq<File>) {
    seq(|s.table|, i requires 0 <= i < |s.table| => File(s.table[i].meta.key, Visible(s.disc, s.table[i])))
  }

  function KeysOf(fs: seq<File>): seq<seq<byte>> {
    seq(|fs|, i requires 0 <= i < |fs| => fs[i].key)
  }

  /** Reading, writing and sizing on the plain list. */
  function ListRead(fs: seq<File>, path: seq<byte>, size: nat, offset: nat): Reply
    requires path != [] && ValidKeys(KeysOf(fs))
  {
    match FileType(KeysOf(fs), path)
    case Entry(i) =>
      var bytes := fs[i].bytes;
      if offset > |bytes| then Failed(EINVAL)
      else Data(bytes[offset..if offset + size > |bytes| then |bytes| else offset + size])
    case _ => Failed(EINVAL)
  }

  function ListWrite(fs: seq<File>, path: seq<byte>, buff: seq<byte>, offset: nat, gap: nat -> byte): (seq<File>, Reply)
    requires path != [] && ValidKeys(KeysOf(fs))
  {
    match FileType(KeysOf(fs), path)
    case Entry(i) =>
      if offset + |buff| == 0 then (fs, Exited)
      else (fs[i := File(fs[i].key, Splice(fs[i].bytes, offset, buff, gap))], Count(|buff|))
    case _ => (fs, Failed(EINVAL))
  }

  function ListSize(fs: seq<File>, path: seq<byte>): Reply
    requires path != [] && ValidKeys(KeysOf(fs))
  {
    match FileType(KeysOf(fs), path)
    case Root => Directory
    case Entry(i) => SizeOf(|fs[i].bytes|)
    case NoSuchFile => Failed(ENOENT)
  }

  lemma SameKeys(s: Fs)
    ensures KeysOf(FilesOf(s)) == Keys(s.table) && ValidKeys(Keys(s.table))
  {
  }

  lemma VisibleLength(s: Fs, i: nat)
    requires Wf(s) && i < |s.table|
    ensures |Visible(s.disc, s.table[i])| == Length(s.table[i]) > 0
  {
    StoredLength(s.disc, s.table, i);
  }

  /** Replacing a node by one with the same record on disc keeps the layout. */
  lemma RetouchExact(disc: seq<byte>, table: seq<Node>, i: nat, n: Node)
    requires Exact(disc, table) && i < |table|
    requires n.data == table[i].data && n.meta.len == table[i].meta.len && n.meta.key == table[i].meta.key
    ensures Exact(disc, table[i := n])
  {
    SameLinks(table, table[i := n]);
    assert HeaderAt(disc, table[i]);
  }

  lemma GetAttrRefines(s: Fs, path: seq<byte>)
    requires Wf(s) && path != []
    ensures ValidKeys(KeysOf(FilesOf(s)))
    ensures GetAttr(s, path) == ListSize(FilesOf(s), path)
  {
    SameKeys(s);
    match FileType(Keys(s.table), path)
    case Entry(i) => VisibleLength(s, i);
    case _ =>
  }

  lemma NodeDataIsSlice(s: Fs, i: nat, size: nat, offset: nat)
    requires Wf(s) && i < |s.table| && offset <= Length(s.table[i])
    ensures var bytes := Visible(s.disc, s.table[i]);
            && |bytes| == Length(s.table[i])
            && NodeData(s.disc, s.table[i], size, offset)
            == bytes[offset..if offset + size > |bytes| then |bytes| else offset + size]
  {
    StoredLength(s.disc, s.table, i);
    var n, d := s.table[i], s.table[i].data;
    var end := if offset + size > Length(n) then Length(n) else offset + size;
    if !n.dirty {
      assert s.disc[d..d + n.meta.len][offset..end] == s.disc[d + offset..d + end];
      assert NodeData(s.disc, n, size, offset) == s.disc[d + offset..d + end];
    }
  }

  /** Touching a node's times and length fields in memory does not move its record. */
  lemma RetouchFiles(s: Fs, i: nat, n: Node)
    requires Wf(s) && i < |s.table|
    requires n.data == s.table[i].data && n.meta.len == s.table[i].meta.len && n.meta.key == s.table[i].meta.key
    requires n.dirty ==> n.cow != []
    ensures Wf(s.(table := s.table[i := n]))
    ensures FilesOf(s.(table := s.table[i := n])) == FilesOf(s)[i := File(n.meta.key, Visible(s.disc, n))]
  {
    RetouchExact(s.disc, s.table, i, n);
  }

  lemma ReadsSlice(s: Fs, path: seq<byte>, i: nat, size: nat, offset: nat)
    requires Wf(s) && path != [] && FileType(Keys(s.table), path) == Entry(i) && i < |s.table|
    requires offset <= Length(s.table[i])
    ensures ValidKeys(KeysOf(FilesOf(s)))
    ensures ListRead(FilesOf(s), path, size, offset) == Data(NodeData(s.disc, s.table[i], size, offset))
  {
    SameKeys(s);
    NodeDataIsSlice(s, i, size, offset);
  }

  /** A read returns the file's bytes and changes no file, whether the node is clean or dirty. */
  lemma ReadRefines(s: Fs, path: seq<byte>, size: nat, offset: nat, now: Time)
    requires Wf(s) && path != []
    ensures ValidKeys(KeysOf(FilesOf(s)))
    ensures var (s', reply) := ReadFile(s, path, size, offset, now);
            Wf(s') && FilesOf(s') == FilesOf(s) && reply == ListRead(FilesOf(s), path, size, offset)
  {
    SameKeys(s);
    match FileType(Keys(s.table), path)
    case Entry(i) =>
      VisibleLength(s, i);
      if offset <= Length(s.table[i]) {
        ReadsSlice(s, path, i, size, offset);
        TouchFiles(s, i, now);
      }
    case _ =>
  }

  lemma TouchFiles(s: Fs, i: nat, now: Time)
    requires Wf(s) && i < |s.table|
    ensures var n := s.table[i];
            var s' := s.(table := s.table[i := n.(meta := n.meta.(tsR := now))]);
            Wf(s') && FilesOf(s') == FilesOf(s)
  {
    var n := s.table[i];
    var n' := n.(meta := n.meta.(tsR := now));
    RetouchFiles(s, i, n');
    assert Visible(s.disc, n') == Visible(s.disc, n);
  }

  /** A write replaces exactly one file's bytes, and never fails on a mounted disc. */
  lemma WriteRefines(s: Fs, path: seq<byte>, buff: seq<byte>, offset: nat, gap: nat -> byte, now: Time)
    requires Wf(s) && path != []
    ensures ValidKeys(KeysOf(FilesOf(s)))
    ensures var (s', reply) := WriteFile(s, path, buff, offset, gap, now);
            var (files, listReply) := ListWrite(FilesOf(s), path, buff, offset, gap);
            Wf(s') && FilesOf(s') == files && reply == listReply
  {
    SameKeys(s);
    match FileType(Keys(s.table), path)
    case Entry(i) =>
      var n := s.table[i];
      VisibleLength(s, i);
      StoredLength(s.disc, s.table, i);
      if offset + |buff| > 0 {
        var cow := Splice(Visible(s.disc, n), offset, buff, gap);
        RetouchFiles(s, i, Node(n.meta.(tsW := now), n.data, true, cow));
      }
    case _ =>
  }

  /** A permitted flush changes no file and leaves nothing dirty. */
  lemma FlushRefines(s: Fs)
    requires Wf(s) && FlushCondition(s.append, s.disc, s.table)
    ensures Wf(FlushAll(s)) && FilesOf(FlushAll(s)) == FilesOf(s) && AllClean(FlushAll(s).table, 0)
  {
    var s' := FlushAll(s);
    FlushExactly(s.append, s.disc, s.table);
    forall i | 0 <= i < |s'.table|
      ensures s'.table[i].meta.len > 0
      ensures FilesOf(s')[i] == FilesOf(s)[i]
    {
      VisibleLength(s, i);
      StoredLength(s'.disc, s'.table, i);
      assert Visible(s'.disc, s'.table[i]) == Visible(s.disc, s.table[i]);
    }
  }

  /** `tikfs_init` on a disc; the empty table stands for its exit. */
  function MountFs(append: bool, disc: seq<byte>): Fs {
    Fs(append, disc, if Mount(disc).Some? then Mount(disc).value else [])
  }

  /** Unmount and mount again. */
  function Remounted(s: Fs): Fs
    requires Laid(s.disc, s.table)
  {
    MountFs(s.append, FlushAll(s).disc)
  }

  lemma MountClean(f: Fs)
    requires Wf(f) && AllClean(f.table, 0)
    ensures Mount(f.disc).Some?
    ensures var m := MountFs(f.append, f.disc);
            && Wf(m) && FilesOf(m) == FilesOf(f) && AllClean(m.table, 0)
            && forall i :: 0 <= i < |f.table| ==> m.table[i].data == f.table[i].data
  {
    Remount(f.disc, f.table);
    MountsAgain(f.disc, f.table);
    SameRecordsSameFiles(f, MountFs(f.append, f.disc));
  }

  /** Remount round trip: after a permitted flush the disc mounts, with the same files in the same
      order, at the same offsets, all clean. */
  lemma RemountRefines(s: Fs)
    requires Wf(s) && FlushCondition(s.append, s.disc, s.table)
    ensures Mount(FlushAll(s).disc).Some?
    ensures Wf(Remounted(s)) && FilesOf(Remounted(s)) == FilesOf(s) && AllClean(Remounted(s).table, 0)
    ensures var f, m := FlushAll(s), Remounted(s);
            |m.table| == |f.table| && forall i :: 0 <= i < |m.table| ==> m.table[i].data == f.table[i].data
  {
    FlushRefines(s);
    MountClean(FlushAll(s));
    assert |FilesOf(Remounted(s))| == |FilesOf(s)|;
  }

  lemma SameRecordsSameFiles(f: Fs, m: Fs)
    requires Wf(f) && AllClean(f.table, 0) && m.disc == f.disc && |m.table| == |f.table| && Exact(m.disc, m.table)
    requires forall i :: 0 <= i < |f.table| ==> SameRecord(m.table[i], f.table[i])
    ensures Wf(m) && FilesOf(m) == FilesOf(f) && AllClean(m.table, 0)
    ensures forall i :: 0 <= i < |f.table| ==> m.table[i].data == f.table[i].data
  {
    forall i | 0 <= i < |m.table|
      ensures FilesOf(m)[i] == FilesOf(f)[i] && m.table[i].meta.len > 0 && !m.table[i].dirty
    {
      assert SameRecord(m.table[i], f.table[i]);
    }
  }

  lemma MountsAgain(disc: seq<byte>, table: seq<Node>)
    requires Exact(disc, table) && forall i :: 0 <= i < |table| ==> table[i].meta.len > 0
    ensures Mount(disc).Some? && Exact(disc, Mount(disc).value)
  {
    ExactIsImage(disc, table);
    forall i | 0 <= i < |table|
      ensures RecordsOf(disc, table)[i].payload != []
    {
      StoredLength(disc, table, i);
    }
    assert NoEmptyPayload(RecordsOf(disc, table));
    MountsExactly(disc);
  }

  /** Mounting a packed file shows its records, and the invariant holds from there on. */
  lemma MountShows(append: bool, rs: seq<Record>)
    requires NoEmptyPayload(rs)
    ensures var s := MountFs(append, Image(rs));
            && Wf(s) && AllClean(s.table, 0) && |s.table| == |rs|
            && forall k :: 0 <= k < |rs| ==> FilesOf(s)[k] == File(rs[k].hdr.key, rs[k].payload)
  {
    var s := MountFs(append, Image(rs));
    MountImage(rs);
    MountsExactly(Image(rs));
    TableEnd(rs);
    forall k | 0 <= k < |rs|
      ensures s.table[k].meta.len > 0 && !s.table[k].dirty
      ensures FilesOf(s)[k] == File(rs[k].hdr.key, rs[k].payload)
    {
      TableOfAt(rs, k);
      PayloadInImage(rs, k);
      assert rs[k].payload != [];
    }
  }

  lemma PayloadInImage(rs: seq<Record>, k: nat)
    requires k < |rs|
    ensures ReadAt(Image(rs), |Image(rs[..k])| + HDR_SIZE, rs[k].hdr.len) == rs[k].payload
  {
    RecordAt(rs, k);
    var at := |Body(rs[..k])| + HDR_SIZE;
    assert Image(rs)[SUPER_SIZE + at..SUPER_SIZE + at + rs[k].hdr.len] == Body(rs)[at..at + rs[k].hdr.len];
  }

  /** The name begins the key of file i and of none before it. */
  ghost predicate Names(s: Fs, name: seq<byte>, i: nat) {
    && 0 < |name| <= 32 && i < |s.table| && name <= s.table[i].meta.key
    && forall k :: 0 <= k < i ==> !(name <= s.table[k].meta.key)
  }

  lemma FoundByName(s: Fs, name: seq<byte>, i: nat)
    requires Names(s, name, i)
    ensures FileType(Keys(s.table), [47] + name) == Entry(i)
  {
    SameKeys(s);
    FileTypeOnBytes(Keys(s.table), name, i);
  }

  /** Reading and sizing "/" and a name. */
  lemma ReadByName(s: Fs, name: seq<byte>, i: nat, size: nat, offset: nat, now: Time)
    requires Wf(s) && Names(s, name, i)
    ensures var path, bytes := [47] + name, Visible(s.disc, s.table[i]);
            && GetAttr(s, path) == SizeOf(|bytes|)
            && ReadFile(s, path, size, offset, now).1
               == if offset > |bytes| then Failed(EINVAL)
                  else Data(bytes[offset..if offset + size > |bytes| then |bytes| else offset + size])
  {
    SameKeys(s);
    FoundByName(s, name, i);
    GetAttrRefines(s, [47] + name);
    ReadRefines(s, [47] + name, size, offset, now);
  }

  /** Writing "/" and a name, up to the end of the old content. */
  lemma WriteByName(s: Fs, name: seq<byte>, i: nat, buff: seq<byte>, offset: nat, gap: nat -> byte, now: Time)
    requires Wf(s) && Names(s, name, i)
    ensures var bytes, (s', reply) := Visible(s.disc, s.table[i]), WriteFile(s, [47] + name, buff, offset, gap, now);
            && reply == (if offset + |buff| == 0 then Exited else Count(|buff|))
            && (offset <= |bytes| && offset + |buff| > 0 ==>
                  FilesOf(s') == FilesOf(s)[i := File(s.table[i].meta.key, bytes[..offset] + buff)])
  {
    SameKeys(s);
    FoundByName(s, name, i);
    WriteRefines(s, [47] + name, buff, offset, gap, now);
  }

  /** ... on a name that begins no key, and on the root. */
  lemma OpsOnNothing(s: Fs, name: seq<byte>, size: nat, buff: seq<byte>, offset: nat, gap: nat -> byte, now: Time)
    requires |name| <= 32 && forall k :: 0 <= k < |s.table| ==> name == [] || !(name <= s.table[k].meta.key)
    ensures var path := [47] + name;
            && GetAttr(s, path) == (if name == [] then Directory else Failed(ENOENT))
            && ReadFile(s, path, size, offset, now) == (s, Failed(EINVAL))
            && WriteFile(s, path, buff, offset, gap, now) == (s, Failed(EINVAL))
  {
    SameKeys(s);
    if name == [] {
      assert [47] + name == [47];
    } else {
      FileTypeOnBytes(Keys(s.table), name, 0);
    }
  }

  /** What an operation does to the table: a read stamps the reading time of one node, a write stamps
      its writing time and fills its buffer; nothing else changes, and a failed one changes nothing. */
  lemma OpsStamp(s: Fs, path: seq<byte>, size: nat, buff: seq<byte>, offset: nat, gap: nat -> byte, now: Time)
    requires path != []
    ensures var (s', reply) := ReadFile(s, path, size, offset, now);
            if reply.Data?
            then exists i :: 0 <= i < |s.table| && FileType(Keys(s.table), path) == Entry(i)
                   && var m := s.table[i].meta;
                      s' == s.(table := s.table[i := s.table[i].(meta := Hdr(m.key, now, m.tsW, m.len, m.pad))])
            else s' == s
    ensures var (s', reply) := WriteFile(s, path, buff, offset, gap, now);
            if reply.Count?
            then exists i :: 0 <= i < |s.table| && FileType(Keys(s.table), path) == Entry(i)
                   && var n, m := s.table[i], s.table[i].meta;
                      s' == s.(table := s.table[i := Node(Hdr(m.key, m.tsR, now, m.len, m.pad), n.data, true,
                                                          Splice(Visible(s.disc, n), offset, buff, gap))])
            else s' == s
  {
    SameKeys(s);
  }

  /** The disc of some whole records and a last one cut off inside its payload, once mounted. */
  lemma {:induction false} CutOffMounts(rs: seq<Record>, last: Record, cut: nat)
    requires NoEmptyPayload(rs) && cut < |last.payload|
    ensures var at, disc := |Image(rs)| + HDR_SIZE, Image(rs) + Encode(last.hdr) + last.payload[..cut];
            && Mount(disc) == Some(TableOf(rs + [last]))
            && TableOf(rs + [last])[|rs|] == Node(last.hdr, at, false, [])
            && |disc| == at + cut && disc[at..] == last.payload[..cut]
  {
    MountCutPayload(rs, last, cut);
    TableOfAt(rs + [last], |rs|);
    assert (rs + [last])[..|rs|] == rs;
  }

  lemma ReadsWhatIsThere(disc: seq<byte>, at: nat, there: seq<byte>, offset: nat, n: nat)
    requires at <= |disc| && disc[at..] == there
    ensures ReadAt(disc, at + offset, n)
         == if offset >= |there| then [] else there[offset..if offset + n > |there| then |there| else offset + n]
  {
    if offset < |there| {
      var end := if offset + n > |there| then |there| else offset + n;
      assert disc[at..][offset..end] == disc[at + offset..at + end];
    }
  }

  /** A clean node whose payload the disc cuts off after `there`: the file keeps its size, its reads end
      where the disc does, and it cannot be written. */
  lemma ShortFileOps(s: Fs, path: seq<byte>, i: nat, there: seq<byte>,
                     size: nat, buff: seq<byte>, offset: nat, gap: nat -> byte, now: Time)
    requires path != [] && FileType(Keys(s.table), path) == Entry(i) && i < |s.table| && !s.table[i].dirty
    requires s.table[i].data <= |s.disc| && s.disc[s.table[i].data..] == there && |there| < s.table[i].meta.len
    ensures GetAttr(s, path) == SizeOf(s.table[i].meta.len)
    ensures WriteFile(s, path, buff, offset, gap, now) == (s, Failed(EIO))
    ensures offset <= s.table[i].meta.len ==>
              ReadFile(s, path, size, offset, now).1
              == Data(if offset >= |there| then []
                      else there[offset..if offset + size > |there| then |there| else offset + size])
  {
    var n, len := s.table[i], s.table[i].meta.len;
    ReadsWhatIsThere(s.disc, n.data, there, 0, len);
    if offset <= len {
      ReadsWhatIsThere(s.disc, n.data, there, offset, if offset + size > len then len - offset else size);
    }
  }

  /** That is what happens to the last file of a disc that is cut off inside its payload. */
  lemma {:induction false} CutOffOps(append: bool, rs: seq<Record>, last: Record, cut: nat, path: seq<byte>,
                                     buff: seq<byte>, offset: nat, gap: nat -> byte, now: Time)
    requires NoEmptyPayload(rs) && cut < |last.payload| && path != []
    requires FileType(Keys(TableOf(rs + [last])), path) == Entry(|rs|)
    ensures var s := MountFs(append, Image(rs) + Encode(last.hdr) + last.payload[..cut]);
            && s.table == TableOf(rs + [last]) && GetAttr(s, path) == SizeOf(|last.payload|)
            && WriteFile(s, path, buff, offset, gap, now) == (s, Failed(EIO))
            && ReadFile(s, path, |last.payload|, 0, now).1 == Data(last.payload[..cut])
  {
    var s, there := MountFs(append, Image(rs) + Encode(last.hdr) + last.payload[..cut]), last.payload[..cut];
    CutOffMounts(rs, last, cut);
    ShortFileOps(s, path, |rs|, there, |last.payload|, buff, offset, gap, now);
    ShortFileOps(s, path, |rs|, there, |last.payload|, buff, 0, gap, now);
    assert there[0..cut] == there;
  }

  datatype Op =
    | Read(path: seq<byte>, size: nat, offset: nat, now: Time)
    | Write(path: seq<byte>, buff: seq<byte>, offset: nat, gap: nat -> byte, now: Time)
    | Stat(path: seq<byte>)
    | Sync
    | Cycle

  ghost predicate Allowed(s: Fs, op: Op) {
    match op
    case Read(path, _, _, _) => path != []
    case Write(path, _, _, _, _) => path != []
    case Stat(path) => path != []
    case _ => FlushCondition(s.append, s.disc, s.table)
  }

  ghost function Do(s: Fs, op: Op): (Fs, Reply)
    requires Wf(s) && Allowed(s, op)
  {
    match op
    case Read(path, size, offset, now) => ReadFile(s, path, size, offset, now)
    case Write(path, buff, offset, gap, now) => WriteFile(s, path, buff, offset, gap, now)
    case Stat(path) => (s, GetAttr(s, path))
    case Sync => (FlushAll(s), Done)
    case Cycle => (Remounted(s), Done)
  }

  function ListDo(fs: seq<File>, op: Op): (seq<File>, Reply)
    requires ValidKeys(KeysOf(fs)) && (op.Sync? || op.Cycle? || op.path != [])
  {
    match op
    case Read(path, size, offset, _) => (fs, ListRead(fs, path, size, offset))
    case Write(path, buff, offset, gap, _) => ListWrite(fs, path, buff, offset, gap)
    case Stat(path) => (fs, ListSize(fs, path))
    case _ => (fs, Done)
  }

  /** One operation behaves as on the plain list. */
  lemma DoRefines(s: Fs, op: Op)
    requires Wf(s) && Allowed(s, op)
    ensures ValidKeys(KeysOf(FilesOf(s)))
    ensures Wf(Do(s, op).0) && Do(s, op).0.append == s.append
    ensures FilesOf(Do(s, op).0) == ListDo(FilesOf(s), op).0 && Do(s, op).1 == ListDo(FilesOf(s), op).1
  {
    SameKeys(s);
    match op
    case Read(path, size, offset, now) => ReadRefines(s, path, size, offset, now);
    case Write(path, buff, offset, gap, now) => WriteRefines(s, path, buff, offset, gap, now);
    case Stat(path) => GetAttrRefines(s, path);
    case Sync => FlushRefines(s);
    case Cycle => RemountRefines(s);
  }

  /** A run of operations in which every flush meets its condition, and that is over once the process
      has exited. */
  ghost predicate Permitted(s: Fs, ops: seq<Op>)
    requires Wf(s)
    decreases |ops|
  {
    ops == []
    || (Allowed(s, ops[0]) && (Do(s, ops[0]).1 == Exited ==> |ops| == 1)
        && (DoRefines(s, ops[0]); Permitted(Do(s, ops[0]).0, ops[1..])))
  }

  /** Only the last reply can be that the process has exited. */
  predicate ExitsLast(replies: seq<Reply>) {
    forall i :: 0 <= i < |replies| - 1 ==> replies[i] != Exited
  }

  ghost function Run(s: Fs, ops: seq<Op>): (Fs, seq<Reply>)
    requires Wf(s) && Permitted(s, ops)
    decreases |ops|
  {
    if ops == [] then (s, [])
    else
      DoRefines(s, ops[0]);
      var (s', reply) := Do(s, ops[0]);
      var (s'', replies) := Run(s', ops[1..]);
      (s'', [reply] + replies)
  }

  ghost predicate NamesPaths(ops: seq<Op>) {
    forall i :: 0 <= i < |ops| ==> ops[i].Sync? || ops[i].Cycle? || ops[i].path != []
  }

  ghost function ListRun(fs: seq<File>, ops: seq<Op>): (seq<File>, seq<Reply>)
    requires ValidKeys(KeysOf(fs)) && NamesPaths(ops)
    decreases |ops|
  {
    if ops == [] then (fs, [])
    else
      var (fs', reply) := ListDo(fs, ops[0]);
      KeysKept(fs, ops[0]);
      var (fs'', replies) := ListRun(fs', ops[1..]);
      (fs'', [reply] + replies)
  }

  lemma KeysKept(fs: seq<File>, op: Op)
    requires ValidKeys(KeysOf(fs)) && (op.Sync? || op.Cycle? || op.path != [])
    ensures KeysOf(ListDo(fs, op).0) == KeysOf(fs)
  {
  }

  /** Every run of reads, writes, flushes and remounts gives the replies and the final files of a
      plain list of byte strings. */
  lemma {:induction false} RunRefines(s: Fs, ops: seq<Op>)
    requires Wf(s) && Permitted(s, ops)
    ensures NamesPaths(ops) && ValidKeys(KeysOf(FilesOf(s)))
    ensures Wf(Run(s, ops).0)
    ensures FilesOf(Run(s, ops).0) == ListRun(FilesOf(s), ops).0
    ensures Run(s, ops).1 == ListRun(FilesOf(s), ops).1
    decreases |ops|
  {
    SameKeys(s);
    if ops != [] {
      DoRefines(s, ops[0]);
      RunRefines(Do(s, ops[0]).0, ops[1..]);
      forall i | 0 <= i < |ops|
        ensures ops[i].Sync? || ops[i].Cycle? || ops[i].path != []
      {
        if i > 0 {
          assert ops[i] == ops[1..][i - 1];
        }
      }
    }
  }

  /** All writes end below 4 GiB. */
  ghost predicate WritesFit(ops: seq<Op>) {
    forall i :: 0 <= i < |ops| ==>
      (ops[i].Sync? || ops[i].Cycle? || ops[i].path != []) && (ops[i].Write? ==> ops[i].offset + |ops[i].buff| < TWO32)
  }

  lemma DoKeepsFit(s: Fs, op: Op)
    requires Wf(s) && Allowed(s, op) && FitsHeader(s.table)
    requires op.Write? ==> op.offset + |op.buff| < TWO32
    ensures FitsHeader(Do(s, op).0.table)
  {
    SameKeys(s);
    match op
    case Sync => FlushRefines(s);
    case Cycle => RemountRefines(s);
    case _ =>
  }

  lemma ExitsLastCons(reply: Reply, replies: seq<Reply>)
    ensures ExitsLast([reply] + replies) <==> (reply == Exited ==> replies == []) && ExitsLast(replies)
  {
    var all := [reply] + replies;
    if ExitsLast(all) {
      assert all[0] == reply;
      forall i | 0 <= i < |replies| - 1
        ensures replies[i] != Exited
      {
        assert all[i + 1] == replies[i];
      }
    }
  }

  lemma FitsNames(ops: seq<Op>)
    requires WritesFit(ops)
    ensures NamesPaths(ops) && (ops != [] ==> WritesFit(ops[1..]))
  {
    forall i | 0 <= i < |ops| - 1
      ensures ops[1..][i] == ops[i + 1]
    {
    }
  }

  lemma {:induction false} OneReplyEach(fs: seq<File>, ops: seq<Op>)
    requires ValidKeys(KeysOf(fs)) && NamesPaths(ops)
    ensures |ListRun(fs, ops).1| == |ops|
    decreases |ops|
  {
    if ops != [] {
      KeysKept(fs, ops[0]);
      OneReplyEach(ListDo(fs, ops[0]).0, ops[1..]);
    }
  }

  /** Without `O_APPEND` every run of such operations meets every flush condition, however often it
      flushes: it is permitted exactly when, on the plain list, only its last write can be the empty
      one that ends the process. */
  lemma {:induction false} PositionalRunsPermitted(s: Fs, ops: seq<Op>)
    requires Wf(s) && !s.append && FitsHeader(s.table) && WritesFit(ops)
    ensures NamesPaths(ops) && ValidKeys(KeysOf(FilesOf(s)))
    ensures Permitted(s, ops) <==> ExitsLast(ListRun(FilesOf(s), ops).1)
    decreases |ops|
  {
    FitsNames(ops);
    SameKeys(s);
    if ops != [] {
      DoRefines(s, ops[0]);
      DoKeepsFit(s, ops[0]);
      var fs', rest := ListDo(FilesOf(s), ops[0]).0, ops[1..];
      PositionalRunsPermitted(Do(s, ops[0]).0, rest);
      OneReplyEach(fs', rest);
      ExitsLastCons(ListDo(FilesOf(s), ops[0]).1, ListRun(fs', rest).1);
    }
  }
}
