/** A client's output buffer in `6_network/server.c`: what is queued, and what a flush sends. */
module ChatQueue {
  import opened ChatCommon

  const INIT_QSIZ := 102400

  /** A fragment is queued whole when it fits below the buffer's size, else dropped whole. */
  function QueueText(text: string, size: nat, data: string): string
    requires |text| <= size
  {
    if size - |text| > |data| then text + data else text
  }

  /** The bytes a flush hands to the socket: a trailing newline becomes a NUL, and a NUL ends it. */
  function FlushWire(text: string): (w: string)
    ensures |w| == |text| + 1
  {
    (if text != "" && text[|text| - 1] == '\n' then text[..|text| - 1] + [NUL] else text) + [NUL]
  }

  /** What a client that reads the bytes as a C string sees. */
  lemma WireReadsBack(text: string)
    requires CString(text)
    ensures StrOf(FlushWire(text))
         == if text != "" && text[|text| - 1] == '\n' then text[..|text| - 1] else text
  {
    var seen := if text != "" && text[|text| - 1] == '\n' then text[..|text| - 1] else text;
    assert forall i :: 0 <= i < |seen| ==> seen[i] in text;
    StrOfIs(FlushWire(text), seen);
  }

  function Concat(fragments: seq<string>): string {
    if fragments == [] then "" else fragments[0] + Concat(fragments[1..])
  }

  /** Queueing one fragment after the other. */
  function QueueAll(text: string, size: nat, fragments: seq<string>): (r: string)
    requires |text| < size
    ensures |r| < size && text <= r
    decreases |fragments|
  {
    if fragments == [] then text else QueueAll(QueueText(text, size, fragments[0]), size, fragments[1..])
  }

  /** The fragments that are not dropped. */
  function Kept(text: string, size: nat, fragments: seq<string>): seq<string>
    requires |text| < size
    decreases |fragments|
  {
    if fragments == [] then []
    else
      (if size - |text| > |fragments[0]| then [fragments[0]] else [])
      + Kept(QueueText(text, size, fragments[0]), size, fragments[1..])
  }

  /** The queue holds its old text and the kept fragments, whole and in order. */
  lemma {:induction false} QueueIsConcat(text: string, size: nat, fragments: seq<string>)
    requires |text| < size
    ensures QueueAll(text, size, fragments) == text + Concat(Kept(text, size, fragments))
    decreases |fragments|
  {
    if fragments != [] {
      var first, rest := fragments[0], fragments[1..];
      var next := QueueText(text, size, first);
      QueueIsConcat(next, size, rest);
      var kept := Kept(next, size, rest);
      if size - |text| > |first| {
        ConcatCons(first, kept);
        assert (text + first) + Concat(kept) == text + (first + Concat(kept));
      } else {
        assert [] + kept == kept;
      }
    }
  }

  /** When everything fits nothing is dropped. */
  lemma {:induction false} KeptWhole(text: string, size: nat, fragments: seq<string>)
    requires |text| + |Concat(fragments)| < size
    ensures Kept(text, size, fragments) == fragments
    decreases |fragments|
  {
    if fragments != [] {
      KeptWhole(QueueText(text, size, fragments[0]), size, fragments[1..]);
      assert [fragments[0]] + fragments[1..] == fragments;
    }
  }

  lemma {:induction false} ConcatCons(first: string, rest: seq<string>)
    ensures Concat([first] + rest) == first + Concat(rest)
  {
    assert ([first] + rest)[1..] == rest;
  }

  /** A client's output: whether the client is live, what is queued, what write(2) has taken. */
  datatype Output = Output(active: bool, text: string, wire: string)

  /** `server_write_fd_queue`; a client that is gone has no room. */
  function Queued(o: Output, size: nat, data: string): Output
    requires |o.text| < size
  {
    if o.active then o.(text := QueueText(o.text, size, data)) else o
  }

  /** `server_flush_queued_data`, with the results of its write(2) calls. */
  function Flushed(o: Output, results: seq<int>): Output
    requires FlushEnds(o, results)
  {
    if !o.active || o.text == "" then o
    else
      var (n, done) := Transfer(results, |o.text| + 1);
      Output(done, "", o.wire + FlushWire(o.text)[..n])
  }

  predicate FlushEnds(o: Output, results: seq<int>) {
    o.active && o.text != "" ==> Progresses(results, |o.text| + 1)
  }

  datatype Call = QueueCall(data: string) | FlushCall(results: seq<int>)

  /** The calls can be made one after the other: no flush retries for ever. */
  predicate CallsEnd(o: Output, size: nat, calls: seq<Call>)
    requires |o.text| < size
    decreases |calls|
  {
    calls == []
    || match calls[0]
       case QueueCall(data) => CallsEnd(Queued(o, size, data), size, calls[1..])
       case FlushCall(results) => FlushEnds(o, results) && CallsEnd(Flushed(o, results), size, calls[1..])
  }

  function AfterCalls(o: Output, size: nat, calls: seq<Call>): Output
    requires |o.text| < size && CallsEnd(o, size, calls)
    decreases |calls|
  {
    if calls == [] then o
    else
      match calls[0]
      case QueueCall(data) => AfterCalls(Queued(o, size, data), size, calls[1..])
      case FlushCall(results) => AfterCalls(Flushed(o, results), size, calls[1..])
  }

  /** The fragments queued since the last flush, `since` being those queued before the calls. */
  function Pending(since: seq<string>, calls: seq<Call>): seq<string>
    decreases |calls|
  {
    if calls == [] then since
    else Pending(if calls[0].QueueCall? then since + [calls[0].data] else [], calls[1..])
  }

  /** What one flush owes the socket for the fragments queued since the flush before. */
  function Piece(size: nat, fragments: seq<string>): string
    requires size > 0
  {
    var text := Concat(Kept("", size, fragments));
    if text == "" then "" else FlushWire(text)
  }

  /** The pieces of all flushes of the calls, in order. */
  function Pieces(size: nat, since: seq<string>, calls: seq<Call>): seq<string>
    requires size > 0
    decreases |calls|
  {
    if calls == [] then []
    else
      match calls[0]
      case QueueCall(data) => Pieces(size, since + [data], calls[1..])
      case FlushCall(_) => [Piece(size, since)] + Pieces(size, [], calls[1..])
  }

  lemma {:induction false} QueueAllSnoc(text: string, size: nat, fragments: seq<string>, data: string)
    requires |text| < size
    ensures QueueAll(text, size, fragments + [data]) == QueueText(QueueAll(text, size, fragments), size, data)
    decreases |fragments|
  {
    if fragments == [] {
      assert [] + [data] == [data] && [data][1..] == [];
    } else {
      assert (fragments + [data])[1..] == fragments[1..] + [data];
      QueueAllSnoc(QueueText(text, size, fragments[0]), size, fragments[1..], data);
    }
  }

  lemma {:induction false} QueuedIsKept(size: nat, fragments: seq<string>)
    requires size > 0
    ensures QueueAll("", size, fragments) == Concat(Kept("", size, fragments))
  {
    QueueIsConcat("", size, fragments);
    assert "" + Concat(Kept("", size, fragments)) == Concat(Kept("", size, fragments));
  }

  lemma {:induction false} GoneStaysGone(o: Output, size: nat, calls: seq<Call>)
    requires !o.active && |o.text| < size && CallsEnd(o, size, calls)
    ensures AfterCalls(o, size, calls) == o
    decreases |calls|
  {
    if calls != [] {
      GoneStaysGone(o, size, calls[1..]);
    }
  }

  lemma {:induction false} PiecesAppend(wire: string, piece: string, later: seq<string>)
    ensures wire + Concat([piece] + later) == wire + piece + Concat(later)
    ensures wire + piece <= wire + Concat([piece] + later)
  {
    ConcatCons(piece, later);
    assert wire + (piece + Concat(later)) == wire + piece + Concat(later);
  }

  /** The socket has got the pieces of the flushes, one after the other, and nothing else: all of them
      while the client is live, else a beginning of them that ends where the last transfer broke off. */
  lemma {:induction false} WireIsPieces(o: Output, size: nat, since: seq<string>, calls: seq<Call>)
    requires o.active && size > 0 && o.text == QueueAll("", size, since) && CallsEnd(o, size, calls)
    ensures var o', all := AfterCalls(o, size, calls), o.wire + Concat(Pieces(size, since, calls));
            && o'.wire <= all
            && (o'.active ==> o'.wire == all && o'.text == Concat(Kept("", size, Pending(since, calls))))
    decreases |calls|
  {
    QueuedIsKept(size, since);
    if calls != [] {
      match calls[0]
      case QueueCall(data) =>
        QueueAllSnoc("", size, since, data);
        WireIsPieces(Queued(o, size, data), size, since + [data], calls[1..]);
      case FlushCall(results) =>
        var o1 := Flushed(o, results);
        FlushSendsPiece(o, size, since, results);
        PiecesAppend(o.wire, Piece(size, since), Pieces(size, [], calls[1..]));
        if o1.active {
          WireIsPieces(o1, size, [], calls[1..]);
        } else {
          GoneStaysGone(o1, size, calls[1..]);
        }
    }
  }

  lemma {:induction false} FlushSendsPiece(o: Output, size: nat, since: seq<string>, results: seq<int>)
    requires o.active && size > 0 && o.text == Concat(Kept("", size, since)) && FlushEnds(o, results)
    ensures var o', piece := Flushed(o, results), Piece(size, since);
            o'.text == "" && o'.wire <= o.wire + piece && (o'.active ==> o'.wire == o.wire + piece)
  {
    if o.text == "" {
      assert o.wire + "" == o.wire;
    } else {
      var w := FlushWire(o.text);
      assert w[..|w|] == w;
    }
  }

  /** From a client's first moment on. */
  lemma {:induction false} WireOfCalls(calls: seq<Call>)
    requires CallsEnd(Output(true, "", ""), INIT_QSIZ, calls)
    ensures var o, all := AfterCalls(Output(true, "", ""), INIT_QSIZ, calls), Concat(Pieces(INIT_QSIZ, [], calls));
            && o.wire <= all
            && (o.active ==> o.wire == all && o.text == Concat(Kept("", INIT_QSIZ, Pending([], calls))))
  {
    WireIsPieces(Output(true, "", ""), INIT_QSIZ, [], calls);
    assert "" + Concat(Pieces(INIT_QSIZ, [], calls)) == Concat(Pieces(INIT_QSIZ, [], calls));
  }

  class ClientQueue {
    var active: bool
    var outbuff: array<char>
    var outLen: nat
    var outUsed: nat
    ghost var wire: string  // what write(2) has taken so far

    /** `out_used` is the string length of `outbuff`, and stays below `out_len`. */
    ghost predicate Valid()
      reads this, outbuff
    {
      if active then outbuff.Length == outLen == INIT_QSIZ && outUsed < outLen
                     && NUL in outbuff[..] && |StrOf(outbuff[..])| == outUsed
      else outLen == outUsed == 0
    }

    /** The queued text. */
    ghost function Text(): string
      reads this, outbuff
    {
      if active then StrOf(outbuff[..]) else ""
    }

    ghost function Abstract(): (o: Output)
      requires Valid()
      reads this, outbuff
      ensures |o.text| < INIT_QSIZ
    {
      Output(active, Text(), wire)
    }

    /** The buffer that `server_accept_client` allocates. */
    constructor ()
      ensures Valid() && fresh(outbuff) && Abstract() == Output(true, "", "")
    {
      active, outLen, outUsed, wire := true, INIT_QSIZ, 0, "";
      outbuff := new char[INIT_QSIZ](_ => NUL);
      new;
      assert outbuff[..][0] == NUL;
      StrOfIs(outbuff[..], "");
    }

    /** `server_write_fd_queue`. */
    method Queue(data: string)
      requires Valid() && CString(data)
      modifies this`outUsed, outbuff
      ensures Valid() && Abstract() == Queued(old(Abstract()), INIT_QSIZ, data)
      ensures Text() == if active && |old(Text())| + |data| < 102400 then old(Text()) + data else old(Text())
    {
      var diff := outLen - outUsed;
      if diff > |data| {
        var res := Strlcat(outbuff, data, outLen);
        outUsed := outUsed + |data|;
        assert data[..|data|] == data;
      }
    }

    /** The buffer half of `server_disconnect_client`. */
    method Disconnect()
      modifies this`active, this`outLen, this`outUsed
      ensures Valid() && !active
    {
      active, outLen, outUsed := false, 0, 0;
    }

    /** Terminate the text, and turn a trailing newline into a NUL. */
    static method Seal(outbuff: array<char>, outUsed: nat)
      requires 0 < outUsed < outbuff.Length
      modifies outbuff
      ensures outbuff[..outUsed + 1] == FlushWire(old(outbuff[..outUsed]))
    {
      outbuff[outUsed] := NUL;
      if outbuff[outUsed - 1] == '\n' {
        outbuff[outUsed - 1] := NUL;
      }
    }

    static method Clear(outbuff: array<char>)
      requires outbuff.Length > 0
      modifies outbuff
      ensures NUL in outbuff[..] && StrOf(outbuff[..]) == ""
    {
      forall i | 0 <= i < outbuff.Length {
        outbuff[i] := NUL;
      }
      assert outbuff[..][0] == NUL;
    }

    /** `server_flush_queued_data`, with the results of its write(2) calls. */
    method Flush(results: seq<int>)
      requires Valid() && FlushEnds(Abstract(), results)
      modifies this, outbuff
      ensures Valid() && outbuff == old(outbuff) && Abstract() == Flushed(old(Abstract()), results)
    {
      if !active || outUsed == 0 {
        return;
      }
      assert Text() == outbuff[..outUsed];
      if outUsed >= outLen {
        assert false;  // the source cuts `out_used` down here; it is never needed
      }
      Seal(outbuff, outUsed);
      var ret, sent := WriteExact(outbuff[..outUsed + 1], results);
      wire := wire + sent;
      if ret == 0 {
        Disconnect();
        return;
      }
      outUsed := 0;
      Clear(outbuff);
    }
  }
}
