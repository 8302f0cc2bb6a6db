/** Bytes, and an open file as read(2), write(2), lseek(2), ftruncate(2) and sendfile(2) see it. */
module Files {

  type byte = b: int | 0 <= b < 256

  /** What read(2) returns at a position: nothing past the end, and at most what is left. */
  function ReadAt(content: seq<byte>, pos: nat, n: nat): seq<byte> {
    if pos >= |content| then []
    else if pos + n >= |content| then content[pos..]
    else content[pos..pos + n]
  }

  /** The content after write(2) at a position; a gap past the end reads as zeros. */
  function Overwrite(content: seq<byte>, pos: nat, data: seq<byte>): seq<byte> {
    if data == [] then content
    else if pos >= |content| then content + seq(pos - |content|, _ => 0) + data
    else if pos + |data| >= |content| then content[..pos] + data
    else content[..pos] + data + content[pos + |data|..]
  }

  /** With `O_APPEND` write(2) ignores the file position. */
  function WriteAt(append: bool, content: seq<byte>, pos: nat, data: seq<byte>): seq<byte> {
    Overwrite(content, if append then |content| else pos, data)
  }

  /** read(2): as many bytes as asked for or left, those from the position on. */
  lemma ReadAtBytes(content: seq<byte>, pos: nat, n: nat)
    ensures |ReadAt(content, pos, n)|
         == if pos + n <= |content| then n else if pos <= |content| then |content| - pos else 0
    ensures forall k :: 0 <= k < |ReadAt(content, pos, n)| ==> ReadAt(content, pos, n)[k] == content[pos + k]
  {
  }

  /** write(2), byte by byte: the data where it is written, zeros in a gap, and all else as before. */
  lemma WriteAtBytes(append: bool, content: seq<byte>, pos: nat, data: seq<byte>)
    requires data != []
    ensures var r, at := WriteAt(append, content, pos, data), if append then |content| else pos;
            && |r| == (if at + |data| > |content| then at + |data| else |content|)
            && forall x :: 0 <= x < |r| ==>
                 r[x] == if at <= x < at + |data| then data[x - at] else if x < |content| then content[x] else 0
  {
    var at := if append then |content| else pos;
    if at >= |content| {
      assert Overwrite(content, at, data) == content + seq<byte>(at - |content|, _ => 0) + data;
    }
  }

  class OpenFile {
    const append: bool
    var content: seq<byte>
    var pos: nat

    constructor (content: seq<byte>, append: bool)
      ensures this.content == content && this.append == append && pos == 0
    {
      this.content, this.append, pos := content, append, 0;
    }

    method Lseek(to: nat)
      modifies `pos
      ensures pos == to
    {
      pos := to;
    }

    method Read(n: nat) returns (data: seq<byte>)
      modifies `pos
      ensures data == ReadAt(content, old(pos), n) && pos == old(pos) + |data|
    {
      data := ReadAt(content, pos, n);
      pos := pos + |data|;
    }

    method Write(data: seq<byte>)
      modifies this
      ensures content == WriteAt(append, old(content), old(pos), data)
      ensures pos == (if append then |old(content)| else old(pos)) + |data|
    {
      var at := if append then |content| else pos;
      content := Overwrite(content, at, data);
      pos := at + |data|;
    }

    method Truncate(n: nat)
      requires n <= |content|
      modifies `content
      ensures content == old(content)[..n]
    {
      content := content[..n];
    }

    /** sendfile(2) from `src` at its position. */
    method SendFrom(src: OpenFile, n: nat)
      requires src != this
      modifies this, src`pos
      ensures var data := ReadAt(src.content, old(src.pos), n);
              && src.pos == old(src.pos) + |data|
              && content == WriteAt(append, old(content), old(pos), data)
              && pos == (if append then |old(content)| else old(pos)) + |data|
    {
      var data := src.Read(n);
      Write(data);
    }
  }
}
