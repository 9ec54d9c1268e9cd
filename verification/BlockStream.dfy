/** Absorbing a byte string block by block, in one piece or in chunks cut anywhere. */
module BlockStream {
  import opened Words

  /** `n` bytes are whole blocks. */
  predicate Whole(n: int) {
    n == 0 || (n >= 64 && Whole(n - 64))
  }

  lemma {:induction false} WholeIsMultiple(n: nat)
    ensures Whole(n) <==> n % 64 == 0
  {
    if n >= 64 { WholeIsMultiple(n - 64); }
  }

  lemma {:induction false} WholeSum(x: nat, y: nat)
    requires Whole(x) && Whole(y)
    ensures Whole(x + y)
  {
    if x > 0 { WholeSum(x - 64, y); }
  }

  /** How many of `n` bytes are past the last whole block, and those bytes of `s`. */
  function Pending(n: nat): (p: nat)
    ensures p < 64 && p <= n
  {
    n % 64
  }

  function Tail(s: seq<byte>): seq<byte> {
    s[|s| - Pending(|s|)..]
  }

  /** The registers after every full block of `s`. */
  function Absorb<R>(f: (R, seq<byte>) -> R, r: R, s: seq<byte>): R
    decreases |s|
  {
    if |s| < 64 then r else Absorb(f, f(r, s[..64]), s[64..])
  }

  lemma {:induction false} AbsorbConcat<R>(f: (R, seq<byte>) -> R, r: R, s: seq<byte>, t: seq<byte>)
    requires Whole(|s|)
    ensures Absorb(f, r, s + t) == Absorb(f, Absorb(f, r, s), t)
    decreases |s|
  {
    if |s| == 0 {
      assert s + t == t;
    } else {
      assert (s + t)[..64] == s[..64] && (s + t)[64..] == s[64..] + t;
      AbsorbConcat(f, f(r, s[..64]), s[64..], t);
    }
  }

  /** A tail shorter than a block changes nothing, so only the whole blocks count. */
  lemma AbsorbTail<R>(f: (R, seq<byte>) -> R, r: R, s: seq<byte>, t: seq<byte>)
    requires Whole(|s|) && |t| < 64
    ensures Absorb(f, r, s + t) == Absorb(f, r, s)
  {
    AbsorbConcat(f, r, s, t);
  }

  lemma AbsorbShort<R>(f: (R, seq<byte>) -> R, r: R, s: seq<byte>)
    requires |s| < 64
    ensures Absorb(f, r, s) == r
  {
  }

  lemma AbsorbBlock<R>(f: (R, seq<byte>) -> R, r: R, s: seq<byte>, block: seq<byte>)
    requires Whole(|s|) && |block| == 64
    ensures Absorb(f, r, s + block) == f(Absorb(f, r, s), block)
  {
    AbsorbConcat(f, r, s, block);
    assert block[..64] == block && block[64..] == [];
  }

  /** The offset MD5Update's block loop must stop at: the first with less than a block left. */
  function StopOffset(index: nat, inputlen: nat): nat
    requires index < 64 && inputlen >= 64 - index
  {
    inputlen - (inputlen - (64 - index)) % 64
  }

  lemma StopIsWhole(partlen: nat, inputlen: nat)
    requires 1 <= partlen <= 64 && partlen <= inputlen
    ensures Whole(StopOffset(64 - partlen, inputlen) - partlen)
    ensures partlen <= StopOffset(64 - partlen, inputlen) <= inputlen < StopOffset(64 - partlen, inputlen) + 64
  {
    var left := inputlen - partlen;
    assert left - left % 64 == 64 * (left / 64);
    WholeIsMultiple(left - left % 64);
  }

  /** While the offset is short of the stop offset there is one more whole block, the next Absorb takes. */
  lemma NextBlock<R>(f: (R, seq<byte>) -> R, r: R, s: seq<byte>, p: nat, i: nat, stop: nat)
    requires p <= i < stop <= |s| && Whole(i - p) && Whole(stop - i)
    ensures i + 64 <= stop && Whole(i + 64 - p) && Whole(stop - (i + 64))
    ensures Absorb(f, r, s[i..]) == Absorb(f, f(r, s[i..i + 64]), s[i + 64..])
  {
    WholeSum(i - p, 64);
    assert s[i..][..64] == s[i..i + 64] && s[i..][64..] == s[i + 64..];
  }

  lemma WholeRemainder(x: nat, y: nat, sum: nat)
    requires Whole(x) && y < 64 && sum == x + y
    ensures Pending(sum) == y
  {
    WholeIsMultiple(x);
  }

  lemma TailOf<R>(f: (R, seq<byte>) -> R, r: R, head: seq<byte>, t: seq<byte>)
    requires Whole(|head|) && |t| < 64
    ensures Tail(head + t) == t && Pending(|head + t|) == |t|
    ensures Absorb(f, r, head + t) == Absorb(f, r, head)
  {
    hide Absorb, Whole;
    WholeRemainder(|head|, |t|, |head + t|);
    AbsorbTail(f, r, head, t);
  }

  lemma {:induction false} WholePrefix(n: nat)
    ensures Whole(n - Pending(n))
  {
    if n >= 64 {
      assert Pending(n - 64) == Pending(n);
      WholePrefix(n - 64);
    }
  }

  lemma SplitTail(s: seq<byte>) returns (head: seq<byte>)
    ensures Whole(|head|) && s == head + Tail(s) && |Tail(s)| == Pending(|s|)
  {
    hide Whole, Pending;
    head := s[..|s| - Pending(|s|)];
    WholePrefix(|s|);
  }

  /** A chunk that does not complete a block only lengthens the tail. */
  lemma ShortChunk<R>(f: (R, seq<byte>) -> R, r: R, head: seq<byte>, t: seq<byte>, chunk: seq<byte>)
    requires Whole(|head|) && |t| + |chunk| < 64
    ensures Absorb(f, r, head + t + chunk) == Absorb(f, r, head + t)
    ensures Tail(head + t + chunk) == t + chunk && Pending(|head + t + chunk|) == |t + chunk|
  {
    hide Absorb, Tail, Whole;
    TailOf(f, r, head, t);
    TailOf(f, r, head, t + chunk);
    assert head + t + chunk == head + (t + chunk);
  }

  /** A longer chunk completes the pending block, then adds its own blocks, and leaves its rest as tail. */
  lemma LongChunk<R>(f: (R, seq<byte>) -> R, r: R, head: seq<byte>,
      t: seq<byte>, first: seq<byte>, more: seq<byte>, rest: seq<byte>)
    requires Whole(|head|) && |t| < 64 && |t + first| == 64 && Whole(|more|) && |rest| < 64
    ensures Absorb(f, r, head + t + (first + more + rest))
            == Absorb(f, f(Absorb(f, r, head + t), t + first), more + rest)
    ensures Tail(head + t + (first + more + rest)) == rest && Pending(|head + t + (first + more + rest)|) == |rest|
  {
    hide Absorb, Tail;
    var blocks := head + (t + first) + more;
    assert Whole(|blocks|) && Absorb(f, r, blocks) == Absorb(f, f(Absorb(f, r, head + t), t + first), more) by {
      WholeSum(|head|, |t + first|);
      WholeSum(|head + (t + first)|, |more|);
      hide Whole;
      TailOf(f, r, head, t);
      AbsorbBlock(f, r, head, t + first);
      AbsorbConcat(f, r, head + (t + first), more);
    }
    AbsorbTail(f, f(Absorb(f, r, head + t), t + first), more, rest);
    hide Whole;
    assert head + t + (first + more + rest) == blocks + rest;
    TailOf(f, r, blocks, rest);
  }

  lemma LongChunkAt<R>(f: (R, seq<byte>) -> R, r: R, head: seq<byte>, t: seq<byte>, chunk: seq<byte>, p: nat, i: nat)
    requires Whole(|head|) && |t| + p == 64 && 1 <= p <= i <= |chunk| < i + 64 && Whole(i - p)
    ensures Absorb(f, r, head + t + chunk) == Absorb(f, f(Absorb(f, r, head + t), t + chunk[..p]), chunk[p..])
    ensures Tail(head + t + chunk) == chunk[i..] && Pending(|head + t + chunk|) == |chunk| - i
  {
    hide Absorb, Tail, Pending, Whole;
    LongChunk(f, r, head, t, chunk[..p], chunk[p..i], chunk[i..]);
    assert chunk == chunk[..p] + chunk[p..i] + chunk[i..];
    assert chunk[p..] == chunk[p..i] + chunk[i..];
  }

  // ----- Any chunking at all -----

  /** What a streaming digest keeps: the registers, and the bytes short of a block. */
  datatype Stream<R> = Stream(registers: R, buffered: seq<byte>)

  /** One update: complete the buffered block if the chunk reaches that far, then go block by block. */
  function Feed<R>(f: (R, seq<byte>) -> R, st: Stream<R>, chunk: seq<byte>): Stream<R>
    requires |st.buffered| < 64
  {
    var p := 64 - |st.buffered|;
    if |chunk| < p then Stream(st.registers, st.buffered + chunk)
    else Stream(Absorb(f, f(st.registers, st.buffered + chunk[..p]), chunk[p..]), chunk[StopOffset(64 - p, |chunk|)..])
  }

  function Joined(chunks: seq<seq<byte>>): seq<byte> {
    if chunks == [] then [] else Joined(chunks[..|chunks| - 1]) + chunks[|chunks| - 1]
  }

  lemma FeedStep<R>(f: (R, seq<byte>) -> R, r: R, s: seq<byte>, chunk: seq<byte>)
    ensures |Tail(s)| < 64
    ensures Feed(f, Stream(Absorb(f, r, s), Tail(s)), chunk) == Stream(Absorb(f, r, s + chunk), Tail(s + chunk))
  {
    hide Absorb, Tail, Pending, Whole, StopOffset, Feed;
    var t := Tail(s);
    var head := SplitTail(s);
    FeedIs(f, Absorb(f, r, s), t, chunk);
    if |t| + |chunk| < 64 {
      ShortChunk(f, r, head, t, chunk);
    } else {
      StopIsWhole(64 - |t|, |chunk|);
      LongChunkAt(f, r, head, t, chunk, 64 - |t|, StopOffset(|t|, |chunk|));
    }
  }

  lemma FeedIs<R>(f: (R, seq<byte>) -> R, r: R, t: seq<byte>, chunk: seq<byte>)
    requires |t| < 64
    ensures Feed(f, Stream(r, t), chunk)
            == if |t| + |chunk| < 64 then Stream(r, t + chunk)
               else Stream(Absorb(f, f(r, t + chunk[..64 - |t|]), chunk[64 - |t|..]), chunk[StopOffset(|t|, |chunk|)..])
  {
    hide Absorb, StopOffset;
  }

  function FeedAll<R>(f: (R, seq<byte>) -> R, r: R, chunks: seq<seq<byte>>): (st: Stream<R>)
    ensures |st.buffered| < 64
  {
    if chunks == [] then Stream(r, [])
    else
      var st := FeedAll(f, r, chunks[..|chunks| - 1]);
      var next := Feed(f, st, chunks[|chunks| - 1]);
      assert |next.buffered| < 64 by { StopLeavesTail(64 - |st.buffered|, |chunks[|chunks| - 1]|); }
      next
  }

  lemma StopLeavesTail(partlen: nat, n: nat)
    requires 1 <= partlen <= 64
    ensures partlen <= n ==> StopOffset(64 - partlen, n) <= n < StopOffset(64 - partlen, n) + 64
  {
    if partlen <= n { StopIsWhole(partlen, n); }
  }

  /** However a byte string is cut into chunks, feeding them leaves what absorbing the whole leaves. */
  lemma {:induction false} AnyChunking<R>(f: (R, seq<byte>) -> R, r: R, chunks: seq<seq<byte>>)
    ensures FeedAll(f, r, chunks) == Stream(Absorb(f, r, Joined(chunks)), Tail(Joined(chunks)))
  {
    if chunks != [] {
      AnyChunking(f, r, chunks[..|chunks| - 1]);
      FeedStep(f, r, Joined(chunks[..|chunks| - 1]), chunks[|chunks| - 1]);
    }
  }
}
