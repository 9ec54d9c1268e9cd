/** Relay-tag removal on PPPoE discovery replies, in nat25_db_handle of aic_br_ext.c. */
module PppoeRelay {
  import opened Words
  import opened SkBuff
  import opened NatRecords

  // ----- Tag lists: section 5 and Appendix A of RFC 2516 -----

  datatype Tag = Tag(kind: u16, value: seq<byte>)

  const RELAY_SID: u16 := 0x0110
  const MAGIC: seq<byte> := [0x81, 0x86]

  function U16(n: int): (b: seq<byte>)
    requires 0 <= n < 0x1_0000
    ensures |b| == 2 && b[0] as int * 0x100 + b[1] as int == n
  {
    [n / 0x100, n % 0x100]
  }

  function ReadU16(s: seq<byte>, i: nat): (n: int)
    requires i + 2 <= |s|
    ensures 0 <= n < 0x1_0000
  {
    s[i] as int * 0x100 + s[i + 1] as int
  }

  predicate Fits(t: Tag) { |t.value| < 0x1_0000 }

  function EncodeTag(t: Tag): (s: seq<byte>)
    requires Fits(t)
    ensures |s| == 4 + |t.value|
  {
    U16(t.kind) + U16(|t.value|) + t.value
  }

  predicate AllFit(tags: seq<Tag>) { forall i :: 0 <= i < |tags| ==> Fits(tags[i]) }

  function Encode(tags: seq<Tag>): seq<byte>
    requires AllFit(tags)
  {
    if tags == [] then [] else EncodeTag(tags[0]) + Encode(tags[1..])
  }

  lemma {:induction false} EncodeConcat(a: seq<Tag>, b: seq<Tag>)
    requires AllFit(a) && AllFit(b)
    ensures AllFit(a + b) && Encode(a + b) == Encode(a) + Encode(b)
  {
    if a == [] {
      assert a + b == b;
      assert Encode(a) + Encode(b) == Encode(b);
    } else {
      EncodeConcat(a[1..], b);
      EncodeFirst(a);
      EncodeFirst(a + b);
      hide Encode, EncodeTag;
      assert (a + b)[1..] == a[1..] + b && (a + b)[0] == a[0];
      assert EncodeTag(a[0]) + (Encode(a[1..]) + Encode(b)) == (EncodeTag(a[0]) + Encode(a[1..])) + Encode(b);
    }
  }

  lemma EncodeFirst(tags: seq<Tag>)
    requires AllFit(tags) && tags != []
    ensures Encode(tags) == EncodeTag(tags[0]) + Encode(tags[1..])
  {
  }

  lemma EncodeAt(tags: seq<Tag>, k: nat)
    requires AllFit(tags) && k < |tags|
    ensures Encode(tags) == Encode(tags[..k]) + EncodeTag(tags[k]) + Encode(tags[k + 1..])
  {
    assert tags == tags[..k] + tags[k..] && tags[k..][1..] == tags[k + 1..];
    EncodeConcat(tags[..k], tags[k..]);
  }

  /** The first tag of a kind. */
  function FirstOf(tags: seq<Tag>, kind: u16, i: nat): (r: int)
    requires i <= |tags|
    ensures -1 <= r < |tags| && (r >= 0 ==> i <= r && tags[r].kind == kind)
    decreases |tags| - i
  {
    if i == |tags| then -1 else if tags[i].kind == kind then i else FirstOf(tags, kind, i + 1)
  }

  // ----- Discovery frames -----

  /** A frame whose length field covers exactly the tags; Ethernet padding may follow them. */
  ghost predicate WellFormed(f: seq<byte>, tags: seq<Tag>) {
    && AllFit(tags) && |Encode(tags)| < 0x1_0000
    && 20 + |Encode(tags)| <= |f|
    && f[18..20] == U16(|Encode(tags)|)
    && f[20..20 + |Encode(tags)|] == Encode(tags)
  }

  /** Every list of tags that the length field can count makes a frame, after any header and with any padding. */
  lemma FrameIsWellFormed(header: seq<byte>, tags: seq<Tag>, padding: seq<byte>)
    requires |header| == 18 && AllFit(tags) && |Encode(tags)| < 0x1_0000
    ensures WellFormed(header + U16(|Encode(tags)|) + Encode(tags) + padding, tags)
  {
    HeaderThenBody(header, U16(|Encode(tags)|), Encode(tags), padding);
    hide Encode;
  }

  /** Whether the first relay tag carries the magic and a client MAC. */
  predicate Carries(tags: seq<Tag>) {
    var k := FirstOf(tags, RELAY_SID, 0);
    k >= 0 && |tags[k].value| >= 8 && tags[k].value[..2] == MAGIC
  }

  /** The list with the magic and the MAC cut out, and the tag with them if nothing else was in it. */
  function Relayed(tags: seq<Tag>): (r: seq<Tag>)
    requires Carries(tags) && AllFit(tags)
    ensures AllFit(r)
  {
    var k := FirstOf(tags, RELAY_SID, 0);
    if |tags[k].value| == 8 then tags[..k] + tags[k + 1..]
    else tags[k := Tag(RELAY_SID, tags[k].value[8..])]
  }

  function Client(tags: seq<Tag>): Mac
    requires Carries(tags)
  {
    tags[FirstOf(tags, RELAY_SID, 0)].value[2..8]
  }

  /** What the frame becomes: to the client, with the shorter list and its length; all else as it was. */
  function RelayedFrame(f: seq<byte>, tags: seq<Tag>): seq<byte>
    requires WellFormed(f, tags) && Carries(tags) && |Encode(Relayed(tags))| < 0x1_0000
  {
    Client(tags) + f[6..18] + U16(|Encode(Relayed(tags))|) + Encode(Relayed(tags)) + f[20 + |Encode(tags)|..]
  }

  /** The result is well-formed again, and exactly eight or twelve bytes shorter. */
  lemma RelayedIsWellFormed(f: seq<byte>, tags: seq<Tag>)
    requires WellFormed(f, tags) && Carries(tags)
    ensures |Encode(Relayed(tags))| == |Encode(tags)| - if |tags[FirstOf(tags, RELAY_SID, 0)].value| == 8 then 12 else 8
    ensures WellFormed(RelayedFrame(f, tags), Relayed(tags))
    ensures |RelayedFrame(f, tags)| == |f| - (|Encode(tags)| - |Encode(Relayed(tags))|)
  {
    RelayedLength(tags);
    hide Encode, Relayed, U16, Carries, FirstOf, AllFit, Client;
    var body := Encode(Relayed(tags));
    HeaderThenBody(Client(tags) + f[6..18], U16(|body|), body, f[20 + |Encode(tags)|..]);
  }

  lemma RelayedLength(tags: seq<Tag>)
    requires AllFit(tags) && Carries(tags)
    ensures AllFit(Relayed(tags))
    ensures |Encode(Relayed(tags))| == |Encode(tags)| - if |tags[FirstOf(tags, RELAY_SID, 0)].value| == 8 then 12 else 8
  {
    var k := FirstOf(tags, RELAY_SID, 0);
    hide FirstOf, Encode;
    EncodeAt(tags, k);
    if |tags[k].value| == 8 {
      EncodeConcat(tags[..k], tags[k + 1..]);
    } else {
      EncodeAt(Relayed(tags), k);
      assert Relayed(tags)[..k] == tags[..k] && Relayed(tags)[k + 1..] == tags[k + 1..];
    }
  }

  lemma HeaderThenBody(header: seq<byte>, length: seq<byte>, body: seq<byte>, rest: seq<byte>)
    requires |header| == 18 && |length| == 2
    ensures var g := header + length + body + rest;
            g[18..20] == length && g[20..20 + |body|] == body
  {
  }

  /** Where the i-th tag of a frame lies, and what its bytes are. */
  function Offset(tags: seq<Tag>, i: nat): nat
    requires AllFit(tags) && i <= |tags|
  {
    20 + |Encode(tags[..i])|
  }

  lemma NextOffset(tags: seq<Tag>, i: nat)
    requires AllFit(tags) && i < |tags|
    ensures Offset(tags, i + 1) == Offset(tags, i) + 4 + |tags[i].value| <= 20 + |Encode(tags)|
  {
    assert Encode([]) == [];
    hide Encode, EncodeTag;
    var prefix := tags[..i + 1];
    assert prefix[..i] == tags[..i] && prefix[i] == tags[i] && prefix[i + 1..] == [];
    EncodeAt(prefix, i);
    EncodeAt(tags, i);
  }

  lemma TagBytes(f: seq<byte>, tags: seq<Tag>, i: nat)
    requires WellFormed(f, tags) && i < |tags|
    ensures var at, n := Offset(tags, i), |tags[i].value|;
            at + 4 + n <= |f| && f[at..at + 4 + n] == EncodeTag(tags[i])
  {
    EncodeAt(tags, i);
    NextOffset(tags, i);
    hide EncodeTag, Encode;
    InTheMiddle(f, 20, Encode(tags[..i]), EncodeTag(tags[i]), Encode(tags[i + 1..]));
  }

  lemma TagAt(f: seq<byte>, tags: seq<Tag>, i: nat)
    requires WellFormed(f, tags) && i < |tags|
    ensures var at, n := Offset(tags, i), |tags[i].value|;
            && Offset(tags, i + 1) == at + 4 + n <= 20 + |Encode(tags)| <= |f|
            && ReadU16(f, at) == tags[i].kind && ReadU16(f, at + 2) == n
            && f[at + 4..at + 4 + n] == tags[i].value
  {
    TagBytes(f, tags, i);
    NextOffset(tags, i);
    var at, n := Offset(tags, i), |tags[i].value|;
    EncodedTag(tags[i]);
    hide EncodeTag, Encode, WellFormed, Offset;
    var e := f[at..at + 4 + n];
    SliceOfSlice(f, at, at + 4 + n, 4, 4 + n);
    assert f[at] == e[0] && f[at + 1] == e[1] && f[at + 2] == e[2] && f[at + 3] == e[3];
  }

  lemma EncodedTag(t: Tag)
    requires Fits(t)
    ensures var e := EncodeTag(t); ReadU16(e, 0) == t.kind && ReadU16(e, 2) == |t.value| && e[4..] == t.value
  {
  }

  lemma SliceOfSlice(f: seq<byte>, p: nat, q: nat, i: nat, j: nat)
    requires p <= q <= |f| && i <= j <= q - p
    ensures f[p..q][i..j] == f[p + i..p + j]
  {
    var a, b := f[p..q][i..j], f[p + i..p + j];
    assert |a| == |b|;
    forall k | 0 <= k < |a| ensures a[k] == b[k] {
      assert a[k] == f[p..q][i + k] == f[p + (i + k)];
    }
  }

  lemma InTheMiddle(f: seq<byte>, p: nat, a: seq<byte>, b: seq<byte>, c: seq<byte>)
    requires p + |a + b + c| <= |f| && f[p..p + |a + b + c|] == a + b + c
    ensures f[p + |a|..p + |a| + |b|] == b
  {
    SliceOfSlice(f, p, p + |a + b + c|, |a|, |a| + |b|);
    assert (a + b + c)[|a|..|a| + |b|] == b;
  }

  // ----- The code -----

  /** Two bytes of the frame in network order. */
  method LoadU16(skb: Skb, i: nat) returns (n: int)
    requires skb.Valid() && i + 2 <= skb.len
    ensures n == ReadU16(skb.Bytes(), i)
  {
    n := skb.buf[skb.data + i] as int * 0x100 + skb.buf[skb.data + i + 1] as int;
    assert skb.Bytes()[i] == skb.buf[skb.data + i] && skb.Bytes()[i + 1] == skb.buf[skb.data + i + 1];
  }

  /** __nat25_find_pppoe_tag: the offset of the first tag of a kind, or -1 for null. */
  method FindTag(skb: Skb, kind: u16, ghost tags: seq<Tag>) returns (ptr: int)
    requires skb.Valid() && WellFormed(skb.Bytes(), tags)
    ensures var k := FirstOf(tags, kind, 0); ptr == if k < 0 then -1 else Offset(tags, k)
  {
    ghost var f, i := skb.Bytes(), 0;
    LengthField(f, tags);
    assert AllFit(tags) && |f| == skb.len;
    hide Encode, WellFormed, ReadU16, AllFit, EncodeTag, FirstOf, Offset, Skb.Bytes;
    var length := LoadU16(skb, 18);
    var cur: nat := 20;
    while cur - 20 < length
      invariant i <= |tags| && cur == Offset(tags, i) && cur <= 20 + length
      invariant FirstOf(tags, kind, i) == FirstOf(tags, kind, 0)
      decreases |tags| - i
    {
      LastOffset(tags, i);
      FirstOfNext(tags, kind, i);
      TagAt(f, tags, i);
      var tagType := LoadU16(skb, cur);
      var tagLen := LoadU16(skb, cur + 2);
      if tagType == kind {
        return cur;
      }
      cur := cur + 4 + tagLen;
      i := i + 1;
    }
    if i < |tags| { TagAt(f, tags, i); }
    FirstOfNext(tags, kind, i);
    return -1;
  }

  lemma FirstOfNext(tags: seq<Tag>, kind: u16, i: nat)
    requires i <= |tags|
    ensures FirstOf(tags, kind, i)
            == if i == |tags| then -1 else if tags[i].kind == kind then i else FirstOf(tags, kind, i + 1)
  {
  }

  lemma LastOffset(tags: seq<Tag>, i: nat)
    requires AllFit(tags) && i <= |tags|
    ensures i == |tags| ==> Offset(tags, i) == 20 + |Encode(tags)|
  {
    assert tags[..|tags|] == tags;
  }

  lemma LengthField(f: seq<byte>, tags: seq<Tag>)
    requires WellFormed(f, tags)
    ensures ReadU16(f, 18) == |Encode(tags)| && Offset(tags, 0) == 20 && 20 + |Encode(tags)| <= |f|
  {
    assert f[18] == f[18..20][0] && f[19] == f[18..20][1];
  }

  /** skb_pull_and_merge: cut `n` bytes out of the frame at offset `at`. */
  method PullAndMerge(skb: Skb, at: nat, n: nat) returns (ret: int)
    requires skb.Valid()
    modifies skb`len, skb.buf
    ensures skb.Valid() && (ret == 0 || ret == -1) && (ret == 0 <==> at + n <= old(skb.len))
    ensures ret == 0 ==> skb.Bytes() == old(skb.Bytes())[..at] + old(skb.Bytes())[at + n..]
    ensures ret == -1 ==> skb.len == old(skb.len) && skb.Bytes() == old(skb.Bytes())
  {
    if at + n > skb.len || skb.len < n {
      return -1;
    }
    CutOut(skb, at, n);
    return 0;
  }

  /** The cut itself: memmove of what follows, and skb_trim. */
  method CutOut(skb: Skb, at: nat, n: nat)
    requires skb.Valid() && at + n <= skb.len
    modifies skb`len, skb.buf
    ensures skb.Valid() && skb.len == old(skb.len) - n
    ensures skb.Bytes() == old(skb.Bytes())[..at] + old(skb.Bytes())[at + n..]
  {
    hide Skb.Bytes, Moved;
    ghost var was := skb.buf[..];
    var d, len := skb.data, skb.len;
    BytesAre(skb);
    MoveDown(skb.buf, d + at, n, len - (at + n));
    skb.len := len - n;
    BytesAre(skb);
    Spliced(was, d, len, at, n);
  }

  lemma BytesAre(skb: Skb)
    requires skb.Valid()
    ensures skb.Bytes() == skb.buf[..][skb.data..skb.data + skb.len]
  {
  }

  /** memmove of `count` bytes from `n` places further on. */
  method MoveDown(buf: array<byte>, src: nat, n: nat, count: nat)
    requires src + n + count <= buf.Length
    modifies buf
    ensures buf[..] == Moved(old(buf[..]), src, n, count)
  {
    ghost var was := buf[..];
    if count > 0 {
      forall k | 0 <= k < count {
        buf[src + k] := buf[src + n + k];
      }
    }
    assert buf[..] == Moved(was, src, n, count);
  }

  function Moved(w: seq<byte>, src: nat, n: nat, count: nat): (b: seq<byte>)
    requires src + n + count <= |w|
    ensures |b| == |w|
  {
    w[..src] + w[src + n..src + n + count] + w[src + count..]
  }

  lemma Spliced(w: seq<byte>, d: nat, len: nat, at: nat, n: nat)
    requires d + len <= |w| && at + n <= len
    ensures Moved(w, d + at, n, len - (at + n))[d..d + (len - n)] == w[d..d + len][..at] + w[d..d + len][at + n..]
  {
    var b, f := Moved(w, d + at, n, len - (at + n))[d..d + (len - n)], w[d..d + len];
    assert |b| == at + (len - (at + n));
    forall k | 0 <= k < |b| ensures b[k] == (f[..at] + f[at + n..])[k] {
    }
  }

  // ----- The edit, byte by byte -----

  /** The encoding without the k-th tag. */
  lemma WithoutTag(tags: seq<Tag>, k: nat, i: nat)
    requires AllFit(tags) && k < |tags|
    ensures var r := tags[..k] + tags[k + 1..];
            var p, n := |Encode(tags[..k])|, 4 + |tags[k].value|;
            && AllFit(r) && |Encode(r)| == |Encode(tags)| - n
            && (i < |Encode(r)| ==> Encode(r)[i] == if i < p then Encode(tags)[i] else Encode(tags)[i + n])
  {
    EncodeAt(tags, k);
    EncodeConcat(tags[..k], tags[k + 1..]);
    hide Encode, EncodeTag;
  }

  /** The encoding with the first eight bytes of the k-th value cut out. */
  lemma WithShorterTag(tags: seq<Tag>, k: nat, i: nat)
    requires AllFit(tags) && k < |tags| && |tags[k].value| > 8
    ensures var v := tags[k].value;
            var r, p := tags[k := Tag(tags[k].kind, v[8..])], |Encode(tags[..k])|;
            && AllFit(r) && |Encode(r)| == |Encode(tags)| - 8
            && (i < |Encode(r)| ==>
                  Encode(r)[i] == if p + 2 <= i < p + 4 then U16(|v| - 8)[i - (p + 2)]
                                  else if i < p + 4 then Encode(tags)[i] else Encode(tags)[i + 8])
  {
    var u := Tag(tags[k].kind, tags[k].value[8..]);
    var r, p := tags[k := u], |Encode(tags[..k])|;
    assert r[..k] == tags[..k] && r[k + 1..] == tags[k + 1..];
    EncodeAt(tags, k);
    EncodeAt(r, k);
    ShorterTag(tags[k], i - p);
    hide Encode, EncodeTag, U16;
  }

  lemma ShorterTag(t: Tag, i: int)
    requires Fits(t) && |t.value| > 8
    ensures var u := Tag(t.kind, t.value[8..]);
            0 <= i < |EncodeTag(u)| ==>
              EncodeTag(u)[i] == if 2 <= i < 4 then U16(|u.value|)[i - 2]
              else if i < 4 then EncodeTag(t)[i] else EncodeTag(t)[i + 8]
  {
    hide U16;
  }

  lemma BodyAt(f: seq<byte>, tags: seq<Tag>, i: nat)
    requires WellFormed(f, tags) && i < |Encode(tags)|
    ensures f[20 + i] == Encode(tags)[i]
  {
    hide Encode;
    assert f[20..20 + |Encode(tags)|][i] == f[20 + i];
  }

  /** The tags after the edit, from the bytes before it: the whole tag is gone, or its value is shorter. */
  lemma WholeTagOut(f: seq<byte>, tags: seq<Tag>, k: nat, j: nat)
    requires WellFormed(f, tags) && k < |tags| && |tags[k].value| == 8
    ensures var r := tags[..k] + tags[k + 1..];
            && AllFit(r) && |Encode(r)| == |Encode(tags)| - 12
            && (20 <= j < 20 + |Encode(r)| ==>
                  j + 12 < |f| && Encode(r)[j - 20] == if j < Offset(tags, k) then f[j] else f[j + 12])
  {
    var r := tags[..k] + tags[k + 1..];
    WithoutTag(tags, k, if j >= 20 then j - 20 else 0);
    if 20 <= j < 20 + |Encode(r)| {
      BodyAt(f, tags, j - 20);
      BodyAt(f, tags, j + 12 - 20);
    }
  }

  lemma PartTagOut(f: seq<byte>, tags: seq<Tag>, k: nat, j: nat)
    requires WellFormed(f, tags) && k < |tags| && |tags[k].value| > 8
    ensures var r := tags[k := Tag(tags[k].kind, tags[k].value[8..])];
            var at, tagLength := Offset(tags, k), U16(|tags[k].value| - 8);
            && AllFit(r) && |Encode(r)| == |Encode(tags)| - 8
            && (20 <= j < 20 + |Encode(r)| ==>
                  && j + 8 < |f|
                  && Encode(r)[j - 20]
                     == if at + 2 <= j < at + 4 then tagLength[j - (at + 2)]
                     else if j < at + 4 then f[j] else f[j + 8])
  {
    var r := tags[k := Tag(tags[k].kind, tags[k].value[8..])];
    WithShorterTag(tags, k, if j >= 20 then j - 20 else 0);
    hide U16;
    if 20 <= j < 20 + |Encode(r)| {
      BodyAt(f, tags, j - 20);
      BodyAt(f, tags, j + 8 - 20);
    }
  }

  /** Write into the frame, in terms of its bytes. */
  method Put(skb: Skb, at: nat, v: seq<byte>)
    requires skb.Valid() && at + |v| <= skb.len
    modifies skb.buf
    ensures skb.Bytes() == Overwrite(old(skb.Bytes()), at, v)
  {
    skb.Write(at, v);
  }

  /** The header, the magic and the client of the first relay tag, as the code reads them. */
  lemma RelayTagAt(f: seq<byte>, tags: seq<Tag>, k: nat)
    requires WellFormed(f, tags) && k < |tags|
    ensures var at, v := Offset(tags, k), tags[k].value;
            && 20 <= at && at + 4 + |v| <= 20 + |Encode(tags)| <= |f|
            && ReadU16(f, at) == tags[k].kind && ReadU16(f, at + 2) == |v|
            && (|v| >= 8 ==> (v[..2] == MAGIC <==> ReadU16(f, at + 4) == 0x8186) && f[at + 6..at + 12] == v[2..8])
  {
    assert AllFit(tags);
    hide Encode, EncodeTag, WellFormed;
    TagAt(f, tags, k);
    MagicAt(f, Offset(tags, k) + 4, tags[k].value);
  }

  lemma MagicAt(f: seq<byte>, at: nat, v: seq<byte>)
    requires at + |v| <= |f| && f[at..at + |v|] == v
    ensures |v| >= 8 ==> (v[..2] == MAGIC <==> ReadU16(f, at) == 0x8186) && f[at + 2..at + 8] == v[2..8]
  {
    if |v| >= 8 {
      SliceOfSlice(f, at, at + |v|, 2, 8);
      assert v[0] == f[at] && v[1] == f[at + 1];
    }
  }

  /** The bytes the edit leaves: destination, lengths, and the rest moved up over what was cut at `at`. */
  ghost predicate Edited(g: seq<byte>, f: seq<byte>, mac: Mac, length: seq<byte>,
      tagLength: seq<byte>, at: nat, cut: nat)
    requires |length| == 2 && 20 + |tagLength| <= at && at + cut <= |f|
  {
    && |g| == |f| - cut
    && (forall j :: 0 <= j < 6 ==> g[j] == mac[j])
    && (forall j :: 6 <= j < 18 ==> g[j] == f[j])
    && g[18] == length[0] && g[19] == length[1]
    && (forall j :: 20 <= j < at - |tagLength| ==> g[j] == f[j])
    && (forall j :: at - |tagLength| <= j < at ==> g[j] == tagLength[j - (at - |tagLength|)])
    && (forall j :: at <= j < |g| ==> g[j] == f[j + cut])
  }

  /** What Edited means for a frame around its first relay tag. */
  ghost predicate EditedAt(g: seq<byte>, f: seq<byte>, mac: Mac, ptr: nat, tagLen: nat, length: nat)
    requires 20 <= ptr && ptr + 4 + tagLen <= 20 + length <= |f| && 8 <= tagLen && length < 0x1_0000
  {
    if tagLen == 8 then Edited(g, f, mac, U16(length - 12), [], ptr, 12)
    else Edited(g, f, mac, U16(length - 8), U16(tagLen - 8), ptr + 4, 8)
  }

  /** Byte j of the shorter frame, in terms of the frame before. */
  function RelayedByte(f: seq<byte>, tags: seq<Tag>, j: nat): byte
    requires Carries(tags) && AllFit(tags) && |Encode(Relayed(tags))| < 0x1_0000 && 18 <= |f|
  {
    var body := Encode(Relayed(tags));
    var i := j + |Encode(tags)| - |body|;
    if j < 6 then Client(tags)[j] else if j < 18 then f[j] else if j < 20 then U16(|body|)[j - 18]
    else if j < 20 + |body| then body[j - 20] else if 0 <= i < |f| then f[i] else 0
  }

  lemma FrameByte(f: seq<byte>, tags: seq<Tag>, j: nat)
    requires WellFormed(f, tags) && Carries(tags) && |Encode(Relayed(tags))| < 0x1_0000
    requires j < |RelayedFrame(f, tags)|
    ensures RelayedFrame(f, tags)[j] == RelayedByte(f, tags, j)
  {
    hide Encode, U16, Carries, Relayed, Client;
  }

  lemma EditedWhole(g: seq<byte>, f: seq<byte>, tags: seq<Tag>, k: nat, j: nat)
    requires WellFormed(f, tags) && Carries(tags) && k == FirstOf(tags, RELAY_SID, 0) && |tags[k].value| == 8
    requires Offset(tags, k) + 12 <= 20 + |Encode(tags)| && |Encode(Relayed(tags))| == |Encode(tags)| - 12
    requires Edited(g, f, Client(tags), U16(|Encode(tags)| - 12), [], Offset(tags, k), 12) && j < |g|
    ensures RelayedByte(f, tags, j) == g[j]
  {
    hide Encode, U16, Client;
    WholeTagOut(f, tags, k, j);
  }

  lemma EditedPart(g: seq<byte>, f: seq<byte>, tags: seq<Tag>, k: nat, j: nat)
    requires WellFormed(f, tags) && Carries(tags) && k == FirstOf(tags, RELAY_SID, 0) && |tags[k].value| > 8
    requires Offset(tags, k) + 4 + |tags[k].value| <= 20 + |Encode(tags)|
    requires |Encode(Relayed(tags))| == |Encode(tags)| - 8 && j < |g|
    requires Edited(g, f, Client(tags), U16(|Encode(tags)| - 8), U16(|tags[k].value| - 8), Offset(tags, k) + 4, 8)
    ensures RelayedByte(f, tags, j) == g[j]
  {
    hide Encode, U16, Client;
    PartTagOut(f, tags, k, j);
  }

  lemma EditedByte(g: seq<byte>, f: seq<byte>, tags: seq<Tag>, k: nat, j: nat)
    requires WellFormed(f, tags) && Carries(tags) && k == FirstOf(tags, RELAY_SID, 0)
    requires Offset(tags, k) + 4 + |tags[k].value| <= 20 + |Encode(tags)|
    requires EditedAt(g, f, Client(tags), Offset(tags, k), |tags[k].value|, |Encode(tags)|)
    requires |Encode(Relayed(tags))| == |Encode(tags)| - if |tags[k].value| == 8 then 12 else 8
    requires j < |g|
    ensures |RelayedFrame(f, tags)| == |g| && RelayedFrame(f, tags)[j] == g[j]
  {
    EditedLength(g, f, tags, k);
    hide Encode, U16, FirstOf, RelayedFrame, Relayed, RelayedByte, Edited, Offset;
    FrameByte(f, tags, j);
    if |tags[k].value| == 8 { EditedWhole(g, f, tags, k, j); } else { EditedPart(g, f, tags, k, j); }
  }

  lemma EditIsRelayed(g: seq<byte>, f: seq<byte>, tags: seq<Tag>, k: nat)
    requires WellFormed(f, tags) && Carries(tags) && k == FirstOf(tags, RELAY_SID, 0)
    requires Offset(tags, k) + 4 + |tags[k].value| <= 20 + |Encode(tags)|
    requires EditedAt(g, f, Client(tags), Offset(tags, k), |tags[k].value|, |Encode(tags)|)
    ensures |Encode(Relayed(tags))| < 0x1_0000 && g == RelayedFrame(f, tags)
  {
    RelayedIsWellFormed(f, tags);
    hide Encode, Relayed, WellFormed, Edited;
    forall j | 0 <= j < |g| ensures g[j] == RelayedFrame(f, tags)[j] {
      EditedByte(g, f, tags, k, j);
    }
    assert |g| == |RelayedFrame(f, tags)| by { EditedLength(g, f, tags, k); }
  }

  lemma EditedLength(g: seq<byte>, f: seq<byte>, tags: seq<Tag>, k: nat)
    requires WellFormed(f, tags) && Carries(tags) && k == FirstOf(tags, RELAY_SID, 0)
    requires Offset(tags, k) + 4 + |tags[k].value| <= 20 + |Encode(tags)|
    requires EditedAt(g, f, Client(tags), Offset(tags, k), |tags[k].value|, |Encode(tags)|)
    requires |Encode(Relayed(tags))| == |Encode(tags)| - if |tags[k].value| == 8 then 12 else 8
    ensures |RelayedFrame(f, tags)| == |g|
  {
    hide Encode, Relayed;
  }

  /** The edit itself: memcpy of the client MAC, skb_pull_and_merge, and the two length fields. */
  method Edit(skb: Skb, ptr: nat, tagLen: nat, length: nat) returns (ret: int)
    requires skb.Valid() && 20 <= ptr && ptr + 4 + tagLen <= 20 + length <= skb.len
    requires 8 <= tagLen && length < 0x1_0000
    modifies skb`len, skb.buf
    ensures skb.Valid() && ret == 0
    ensures EditedAt(skb.Bytes(), old(skb.Bytes()), old(skb.Bytes())[ptr + 6..ptr + 12], ptr, tagLen, length)
  {
    hide Overwrite, U16, Edited, CutOnly;
    var d := skb.data;
    var mac := skb.buf[d + ptr + 6..d + ptr + 12];
    ghost var f := skb.Bytes();
    SliceOfSlice(skb.buf[..], d, d + skb.len, ptr + 6, ptr + 12);
    var offset := if tagLen > 8 then 4 else 0;
    ret := CutClient(skb, mac, ptr + offset, 12 - offset);
    if ret < 0 {
      return -1;
    }
    ghost var g := skb.Bytes();
    Put(skb, 18, U16(length - (12 - offset)));
    LengthBytes(g, f, mac, U16(length - (12 - offset)), ptr + offset, 12 - offset);
    if offset > 0 {
      g := skb.Bytes();
      Put(skb, ptr + 2, U16(tagLen - 8));
      TagLengthBytes(g, f, mac, U16(length - 8), U16(tagLen - 8), ptr + 4);
    }
  }

  /** memcpy of the destination, and the cut. */
  method CutClient(skb: Skb, mac: Mac, at: nat, cut: nat) returns (ret: int)
    requires skb.Valid() && 20 <= at && at + cut <= skb.len
    modifies skb`len, skb.buf
    ensures skb.Valid() && ret == 0 && CutOnly(skb.Bytes(), old(skb.Bytes()), mac, at, cut)
    ensures skb.len == old(skb.len) - cut
  {
    hide Overwrite, CutOnly;
    ghost var f := skb.Bytes();
    Put(skb, 0, mac);
    ret := PullAndMerge(skb, at, cut);
    CutBytes(f, mac, at, cut);
    assert skb.len == |skb.Bytes()|;
  }

  /** The three writes of the edit, one after the other. */
  ghost predicate CutOnly(g: seq<byte>, f: seq<byte>, mac: Mac, at: nat, cut: nat)
    requires 20 <= at && at + cut <= |f|
  {
    && |g| == |f| - cut
    && (forall j :: 0 <= j < 6 ==> g[j] == mac[j])
    && (forall j :: 6 <= j < at ==> g[j] == f[j])
    && (forall j :: at <= j < |g| ==> g[j] == f[j + cut])
  }

  lemma CutBytes(f: seq<byte>, mac: Mac, at: nat, cut: nat)
    requires 20 <= at && at + cut <= |f|
    ensures var h := Overwrite(f, 0, mac); CutOnly(h[..at] + h[at + cut..], f, mac, at, cut)
  {
    var h := Overwrite(f, 0, mac);
    hide Overwrite;
    var g := h[..at] + h[at + cut..];
    forall j | at <= j < |g| ensures g[j] == f[j + cut] {
      assert g[j] == h[at + cut..][j - at] == h[j + cut];
    }
  }

  lemma LengthBytes(g: seq<byte>, f: seq<byte>, mac: Mac, length: seq<byte>, at: nat, cut: nat)
    requires 20 <= at && at + cut <= |f| && |length| == 2 && CutOnly(g, f, mac, at, cut)
    ensures Edited(Overwrite(g, 18, length), f, mac, length, [], at, cut)
  {
    hide Overwrite;
  }

  lemma TagLengthBytes(g: seq<byte>, f: seq<byte>, mac: Mac, length: seq<byte>, tagLength: seq<byte>, at: nat)
    requires 22 <= at && at + 8 <= |f| && |length| == |tagLength| == 2 && Edited(g, f, mac, length, [], at, 8)
    ensures Edited(Overwrite(g, at - 2, tagLength), f, mac, length, tagLength, at, 8)
  {
    hide Overwrite;
  }

  /** The checks before the edit: a relay tag is there, long enough, and starts with the magic. */
  method FindRelay(skb: Skb, ghost tags: seq<Tag>) returns (ptr: int, tagLen: nat)
    requires skb.Valid() && WellFormed(skb.Bytes(), tags)
    ensures ptr == -1 <==> !Carries(tags)
    ensures ptr != -1 ==>
              var k := FirstOf(tags, RELAY_SID, 0);
              && ptr == Offset(tags, k) && 20 <= ptr && ptr + 4 + tagLen <= 20 + |Encode(tags)| <= skb.len
              && tagLen == |tags[k].value| && skb.Bytes()[ptr + 6..ptr + 12] == Client(tags)
  {
    hide Encode, WellFormed, ReadU16, Offset, FirstOf, AllFit;
    ghost var f := skb.Bytes();
    tagLen := 0;
    ptr := FindTag(skb, 0x0110, tags);
    if ptr == -1 {
      return;
    }
    RelayTagAt(f, tags, FirstOf(tags, RELAY_SID, 0));
    var tagType := LoadU16(skb, ptr);
    tagLen := LoadU16(skb, ptr + 2);
    if tagType != 0x0110 || tagLen < 8 {
      return -1, tagLen;
    }
    var magic := LoadU16(skb, ptr + 4);
    if magic != 0x8186 {
      return -1, tagLen;
    }
  }

  /** PADO and PADS in nat25_db_handle, when relay tags are in use. */
  method RemoveRelayTag(skb: Skb, ghost tags: seq<Tag>) returns (ret: int)
    requires skb.Valid() && WellFormed(skb.Bytes(), tags)
    modifies skb`len, skb.buf
    ensures skb.Valid() && (ret == 0 || ret == -1) && (ret == 0 <==> Carries(tags))
    ensures Carries(tags) ==> |Encode(Relayed(tags))| < 0x1_0000 && skb.Bytes() == RelayedFrame(old(skb.Bytes()), tags)
    ensures !Carries(tags) ==> skb.Bytes() == old(skb.Bytes())
  {
    ghost var f := skb.Bytes();
    LengthField(f, tags);
    hide Encode, WellFormed, ReadU16, EditedAt, Relayed, RelayedFrame, Offset, Carries;
    var length := LoadU16(skb, 18);
    var ptr: int, tagLen: nat;
    ptr, tagLen := FindRelay(skb, tags);
    if ptr == -1 {
      return -1;
    }
    ret := Edit(skb, ptr, tagLen, length);
    EditIsRelayed(skb.Bytes(), f, tags, FirstOf(tags, RELAY_SID, 0));
  }
}
