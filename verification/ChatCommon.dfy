/** The string and socket helpers of `6_network/chat-common.c`. */
module ChatCommon {

  const NUL := '\0'

  /** A C string's characters, without the terminating NUL. */
  predicate CString(s: string) {
    NUL !in s
  }

  /** The character at an index, the terminator included. */
  function At(s: string, i: nat): char
    requires i <= |s|
  {
    if i < |s| then s[i] else NUL
  }

  /** `tolower` in the C locale. */
  function Lower(c: char): char {
    if 'A' <= c <= 'Z' then (c as int + 32) as char else c
  }

  function Fold(s: string): (f: string)
    ensures |f| == |s|
  {
    seq(|s|, i requires 0 <= i < |s| => Lower(s[i]))
  }

  /** Two letters that differ at most in case. */
  predicate SameLetter(x: char, y: char) {
    || x == y
    || ('A' <= x <= 'Z' && y as int == x as int + 32)
    || ('A' <= y <= 'Z' && x as int == y as int + 32)
  }

  /** Folded strings are equal exactly when the strings agree letter by letter up to case. */
  lemma FoldsAlike(s: string, t: string)
    ensures Fold(s) == Fold(t) <==> |s| == |t| && forall i :: 0 <= i < |s| ==> SameLetter(s[i], t[i])
  {
    if Fold(s) == Fold(t) {
      assert |Fold(s)| == |Fold(t)|;
      forall i | 0 <= i < |s|
        ensures SameLetter(s[i], t[i])
      {
        assert Fold(s)[i] == Lower(s[i]) && Fold(t)[i] == Lower(t[i]);
      }
    }
  }

  function Take(s: string, n: nat): string {
    if n <= |s| then s[..n] else s
  }

  /** `strnicmp`: zero exactly when the strings agree up to case over their first `len` characters. */
  method Strnicmp(s1: string, s2: string, len: nat) returns (diff: int)
    requires CString(s1) && CString(s2)
    ensures diff == 0 <==> Fold(Take(s1, len)) == Fold(Take(s2, len))
  {
    if len == 0 {
      return 0;
    }
    var left, i := len, 0;
    while true
      invariant 0 < left <= len && i == len - left && i <= |s1| && i <= |s2|
      invariant Fold(s1[..i]) == Fold(s2[..i])
      decreases left
    {
      var c1, c2 := At(s1, i), At(s2, i);
      if c1 == NUL || c2 == NUL {
        StopsAtNul(s1, s2, len, i);
        return c1 as int - c2 as int;
      }
      if Lower(c1) != Lower(c2) {
        assert Fold(Take(s1, len))[i] == Lower(c1) && Fold(Take(s2, len))[i] == Lower(c2);
        return Lower(c1) as int - Lower(c2) as int;
      }
      FoldNext(s1, i);
      FoldNext(s2, i);
      left, i := left - 1, i + 1;
      if left == 0 {
        return 0;
      }
    }
  }

  lemma FoldNext(s: string, i: nat)
    requires i < |s|
    ensures Fold(s[..i + 1]) == Fold(s[..i]) + [Lower(s[i])]
  {
  }

  lemma StopsAtNul(s1: string, s2: string, len: nat, i: nat)
    requires CString(s1) && CString(s2) && i < len && i <= |s1| && i <= |s2|
    requires Fold(s1[..i]) == Fold(s2[..i]) && (At(s1, i) == NUL || At(s2, i) == NUL)
    ensures At(s1, i) == At(s2, i) <==> Fold(Take(s1, len)) == Fold(Take(s2, len))
  {
    assert i < |s1| ==> s1[i] in s1;
    assert i < |s2| ==> s2[i] in s2;
    assert i == |s1| ==> s1[..i] == s1;
    assert i == |s2| ==> s2[..i] == s2;
    assert |Fold(Take(s1, len))| == |Take(s1, len)| && |Fold(Take(s2, len))| == |Take(s2, len)|;
  }

  /** The C string at the front of a buffer. */
  function StrOf(buffer: seq<char>): (s: string)
    ensures s <= buffer && CString(s) && (NUL in buffer ==> |s| < |buffer| && buffer[|s|] == NUL)
  {
    if buffer == [] || buffer[0] == NUL then [] else [buffer[0]] + StrOf(buffer[1..])
  }

  lemma {:induction false} StrOfIs(buffer: seq<char>, s: string)
    requires CString(s) && s <= buffer && |s| < |buffer| && buffer[|s|] == NUL
    ensures StrOf(buffer) == s
    decreases |s|
  {
    if s != [] {
      assert buffer[0] == s[0] && s[0] in s;
      assert forall i :: 0 <= i < |s[1..]| ==> s[1..][i] in s;
      StrOfIs(buffer[1..], s[1..]);
    }
  }

  method Strlen(buffer: array<char>) returns (n: nat)
    requires NUL in buffer[..]
    ensures n == |StrOf(buffer[..])|
  {
    ghost var s := StrOf(buffer[..]);
    assert buffer[|s|] == buffer[..][|s|] == NUL;
    forall i | 0 <= i < |s|
      ensures buffer[i] != NUL
    {
      assert buffer[i] == buffer[..][i] == s[i] && s[i] in s;
    }
    n := 0;
    while buffer[n] != NUL
      invariant n <= |s|
      decreases |s| - n
    {
      n := n + 1;
    }
  }

  lemma {:induction false} StrAppended(buffer: seq<char>, was: string, piece: string)
    requires CString(was) && CString(piece) && was + piece + [NUL] <= buffer
    ensures StrOf(buffer) == was + piece && NUL in buffer
  {
    assert buffer[|was| + |piece|] == (was + piece + [NUL])[|was| + |piece|];
    StrOfIs(buffer, was + piece);
  }

  /** memcpy(3) of a string behind the first `at` characters, and its terminator. */
  method Place(dest: array<char>, at: nat, piece: string)
    requires at + |piece| < dest.Length
    modifies dest
    ensures old(dest[..at]) + piece + [NUL] <= dest[..]
  {
    forall i | 0 <= i < |piece| {
      dest[at + i] := piece[i];
    }
    dest[at + |piece|] := NUL;
    assert dest[..at] == old(dest[..at]) && dest[at..at + |piece|] == piece;
    assert dest[..at + |piece| + 1] == dest[..at] + dest[at..at + |piece|] + [NUL];
  }

  /** `strlcat`: appends what fits below `count`, and the terminator. */
  method Strlcat(dest: array<char>, src: string, count: nat) returns (res: nat)
    requires NUL in dest[..] && CString(src) && count <= dest.Length
    modifies dest
    ensures var was := StrOf(old(dest[..]));
            if |was| >= count then res == 0 && dest[..] == old(dest[..])
            else && res == |was| + |src|
                 && StrOf(dest[..]) == was + Take(src, count - |was| - 1)
                 && NUL in dest[..]
  {
    ghost var was := StrOf(dest[..]);
    var dsize := Strlen(dest);
    res := dsize + |src|;
    if dsize >= count {
      return 0;
    }
    var len := if |src| >= count - dsize then count - dsize - 1 else |src|;
    assert dest[..dsize] == was;
    Place(dest, dsize, src[..len]);
    assert forall i :: 0 <= i < len ==> src[..len][i] in src;
    StrAppended(dest[..], was, src[..len]);
  }

  /** What a series of write(2) results does for a transfer of n bytes: how many get through, and
      whether it completes; a zero ends it, a negative result is retried. */
  function Transfer(results: seq<int>, n: nat): (r: (nat, bool))
    requires Progresses(results, n)
    ensures r.0 <= n && (r.1 <==> r.0 == n)
    decreases |results|
  {
    if n == 0 then (0, true)
    else if results[0] < 0 then Transfer(results[1..], n)
    else if results[0] == 0 then (0, false)
    else
      var (sent, done) := Transfer(results[1..], n - results[0]);
      (sent + results[0], done)
  }

  /** The results are possible for a transfer of n bytes and do not leave it retrying for ever. */
  predicate Progresses(results: seq<int>, n: nat)
    decreases |results|
  {
    n == 0
    || (results != [] && results[0] <= n
        && (results[0] == 0 || Progresses(results[1..], if results[0] < 0 then n else n - results[0])))
  }

  /** The results up to the first zero, which ends the transfer. */
  function BeforeZero(results: seq<int>): (r: seq<int>)
    ensures 0 !in r && r <= results && (|r| < |results| ==> results[|r|] == 0)
  {
    if results == [] || results[0] == 0 then [] else [results[0]] + BeforeZero(results[1..])
  }

  /** The bytes the positive results stand for. */
  function PositiveSum(results: seq<int>): nat {
    if results == [] then 0 else (if results[0] > 0 then results[0] else 0) + PositiveSum(results[1..])
  }

  /** The results without the failed calls. */
  function WithoutFailures(results: seq<int>): (r: seq<int>)
    ensures forall k :: 0 <= k < |r| ==> r[k] >= 0
  {
    if results == [] then []
    else if results[0] < 0 then WithoutFailures(results[1..])
    else [results[0]] + WithoutFailures(results[1..])
  }

  /** A transfer gets through what the positive results before the first zero add up to. */
  lemma {:induction false} TransferIsSum(results: seq<int>, n: nat)
    requires Progresses(results, n)
    ensures var total := PositiveSum(BeforeZero(results));
            Transfer(results, n) == if total < n then (total, false) else (n, true)
    decreases |results|
  {
    if n > 0 && results[0] != 0 {
      var rest := BeforeZero(results[1..]);
      assert BeforeZero(results) == [results[0]] + rest && ([results[0]] + rest)[1..] == rest;
      TransferIsSum(results[1..], if results[0] < 0 then n else n - results[0]);
    }
  }

  /** Failed calls are made again: without them the transfer is the same. */
  lemma {:induction false} FailuresRetried(results: seq<int>, n: nat)
    requires Progresses(results, n)
    ensures Progresses(WithoutFailures(results), n)
    ensures Transfer(WithoutFailures(results), n) == Transfer(results, n)
    decreases |results|
  {
    if n > 0 && results[0] < 0 {
      FailuresRetried(results[1..], n);
    } else if n > 0 {
      if results[0] > 0 {
        FailuresRetried(results[1..], n - results[0]);
      }
      TransferFirst(results[0], WithoutFailures(results[1..]), n);
      TransferFirst(results[0], results[1..], n);
      assert results == [results[0]] + results[1..];
    }
  }

  lemma {:induction false} TransferFirst(first: nat, rest: seq<int>, n: nat)
    requires 0 < n && first <= n && (first > 0 ==> Progresses(rest, n - first))
    ensures Progresses([first] + rest, n)
    ensures Transfer([first] + rest, n)
         == if first == 0 then (0, false)
            else (Transfer(rest, n - first).0 + first, Transfer(rest, n - first).1)
  {
    assert ([first] + rest)[1..] == rest;
  }

  /** Without a zero everything gets through, however many calls fail. */
  lemma {:induction false} CompletesWithoutZero(results: seq<int>, n: nat)
    requires Progresses(results, n) && 0 !in results
    ensures Transfer(results, n) == (n, true)
    decreases |results|
  {
    if n > 0 {
      assert results[0] in results;
      assert forall k :: 0 <= k < |results[1..]| ==> results[1..][k] in results;
      CompletesWithoutZero(results[1..], if results[0] < 0 then n else n - results[0]);
    }
  }

  /** `write_exact`; `sent` is what reached the peer. */
  method WriteExact(buf: string, results: seq<int>) returns (num: nat, sent: string)
    requires Progresses(results, |buf|)
    ensures var (n, done) := Transfer(results, |buf|);
            sent == buf[..n] && num == if done then |buf| else 0
    ensures var total := PositiveSum(BeforeZero(results));
            if total < |buf| then num == 0 && sent == buf[..total] else num == |buf| && sent == buf
    ensures 0 !in results ==> num == |buf| && sent == buf
  {
    TransferIsSum(results, |buf|);
    if 0 !in results {
      CompletesWithoutZero(results, |buf|);
    }
    num, sent := 0, "";
    var len, k := |buf|, 0;
    while len > 0
      invariant 0 <= len <= |buf| && len + num == |buf| && k <= |results| && sent == buf[..num]
      invariant Progresses(results[k..], len)
      invariant Transfer(results[k..], len).0 + num == Transfer(results, |buf|).0
      invariant Transfer(results[k..], len).1 == Transfer(results, |buf|).1
      decreases |results| - k
    {
      assert results[k..][0] == results[k] && results[k..][1..] == results[k + 1..];
      var written := results[k];
      k := k + 1;
      if written >= 0 {
        if written == 0 {
          return 0, sent;
        }
        sent := sent + buf[num..num + written];
        len, num := len - written, num + written;
      }
    }
  }
}
