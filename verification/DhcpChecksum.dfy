/** Setting the broadcast flag of a DHCP request in dhcp_flag_bcast of aic_br_ext.c, and the UDP checksum after it. */
module DhcpChecksum {
  import opened Words
  import opened SkBuff

  // ----- The one's-complement sum: RFC 768, RFC 1071 -----

  /** The plain sum of 16-bit words. */
  function Sum(w: seq<u16>): nat {
    if w == [] then 0 else Sum(w[..|w| - 1]) + w[|w| - 1]
  }

  /** The end-around carry, until the sum fits a word. */
  function Fold(n: nat): u16
    decreases n
  {
    if n < 0x1_0000 then n else Fold(n % 0x1_0000 + n / 0x1_0000)
  }

  /** A receiver sums pseudo-header and datagram, checksum included, and expects all ones. */
  predicate Verifies(w: seq<u16>) {
    Fold(Sum(w)) == 0xffff
  }

  lemma {:induction false} FoldIsRemainder(n: nat)
    ensures Fold(n) % 0xffff == n % 0xffff
    ensures Fold(n) == 0 <==> n == 0
  {
    if n >= 0x1_0000 {
      var m := n % 0x1_0000 + n / 0x1_0000;
      assert n == m + 0xffff * (n / 0x1_0000);
      RemainderShift(m, n / 0x1_0000);
      FoldIsRemainder(m);
    }
  }

  lemma RemainderShift(m: int, q: int)
    ensures (m + 0xffff * q) % 0xffff == m % 0xffff
  {
  }

  /** So verification is congruence to zero, of a sum that is not zero itself. */
  lemma VerifiesIff(w: seq<u16>)
    ensures Verifies(w) <==> Sum(w) > 0 && Sum(w) % 0xffff == 0
  {
    FoldIsRemainder(Sum(w));
  }

  lemma {:induction false} SumUpdate(w: seq<u16>, i: nat, x: u16)
    requires i < |w|
    ensures Sum(w[i := x]) == Sum(w) - w[i] + x
  {
    var n := |w| - 1;
    if i < n {
      assert w[i := x][..n] == w[..n][i := x];
      SumUpdate(w[..n], i, x);
    } else {
      assert w[i := x][..n] == w[..n];
    }
  }

  // ----- The update, in host order -----

  /** htons(BROADCAST_FLAG), the bit test and the or with it. */
  function Flag(le: bool): int { if le then 0x80 else 0x8000 }

  predicate IsBroadcast(flags: u16, le: bool) {
    if le then flags / 0x80 % 2 == 1 else flags >= 0x8000
  }

  /** The new checksum: the old one's complement plus the whole new flags word, folded, complemented. */
  function UpdatedCheck(check: u16, flags: u16): u16 {
    0xffff - Fold(Carried(check, flags))
  }

  function Carried(check: u16, flags: u16): nat {
    0xffff - check as int + flags as int
  }

  /** The words of a datagram after the update: `c` and `f` are where checksum and flags stand. */
  function WithFlags(w: seq<u16>, c: nat, f: nat, flags: u16): seq<u16>
    requires c < |w| && f < |w|
  {
    w[f := flags][c := UpdatedCheck(w[c], flags)]
  }

  function Broadcast(flags: u16, le: bool): (r: u16)
    requires !IsBroadcast(flags, le)
    ensures r == flags + Flag(le) && r > 0
  {
    flags + Flag(le)
  }

  function Updated(w: seq<u16>, c: nat, f: nat, le: bool): seq<u16>
    requires c < |w| && f < |w| && !IsBroadcast(w[f], le)
  {
    WithFlags(w, c, f, Broadcast(w[f], le))
  }

  lemma WithFlagsSum(w: seq<u16>, c: nat, f: nat, flags: u16)
    requires c < |w| && f < |w| && c != f && flags > 0
    ensures var n := Carried(w[c], flags);
            Sum(WithFlags(w, c, f, flags)) == (Sum(w) - w[f]) + n - Fold(n)
    ensures Sum(WithFlags(w, c, f, flags)) > 0
  {
    SumUpdate(w, f, flags);
    SumUpdate(w[f := flags], c, UpdatedCheck(w[c], flags));
    SumCovers(WithFlags(w, c, f, flags), f);
    hide Fold, Sum;
  }

  lemma UpdatedSum(w: seq<u16>, c: nat, f: nat, le: bool)
    requires c < |w| && f < |w| && c != f && !IsBroadcast(w[f], le)
    ensures Sum(Updated(w, c, f, le)) > 0
    ensures Sum(Updated(w, c, f, le)) % 0xffff == (Sum(w) - w[f]) % 0xffff
  {
    hide Fold, Sum, IsBroadcast, WithFlags, Carried;
    var flags := Broadcast(w[f], le);
    var n := Carried(w[c], flags);
    FoldIsRemainder(n);
    WithFlagsSum(w, c, f, flags);
    Balance(Sum(w) - w[f], n, Fold(n));
  }

  lemma Balance(s: int, n: nat, r: nat)
    requires n % 0xffff == r % 0xffff
    ensures (s + n - r) % 0xffff == s % 0xffff
  {
    SameRemainder(n, r);
    RemainderShift(s, n / 0xffff - r / 0xffff);
  }

  lemma SameRemainder(n: nat, r: nat)
    requires n % 0xffff == r % 0xffff
    ensures n - r == 0xffff * (n / 0xffff - r / 0xffff)
  {
  }

  lemma {:induction false} SumCovers(w: seq<u16>, i: nat)
    requires i < |w|
    ensures Sum(w) >= w[i]
  {
    if i < |w| - 1 { SumCovers(w[..|w| - 1], i); }
  }

  /**
   * A datagram that verified still verifies exactly when the other flag bits were zero, as RFC 2131 has them:
   * the code adds the whole flags word where only the broadcast bit is new.
   */
  lemma StillVerifiesIff(w: seq<u16>, c: nat, f: nat, le: bool)
    requires c < |w| && f < |w| && c != f && !IsBroadcast(w[f], le) && Verifies(w)
    ensures Verifies(Updated(w, c, f, le)) <==> w[f] == 0
  {
    VerifiesIff(w);
    VerifiesIff(Updated(w, c, f, le));
    UpdatedSum(w, c, f, le);
    DifferenceIsMultiple(Sum(w), w[f]);
  }

  lemma DifferenceIsMultiple(s: nat, x: u16)
    requires s % 0xffff == 0 && x < 0xffff
    ensures (s - x) % 0xffff == 0 <==> x == 0
  {
    RemainderShift(0 - x as int, s / 0xffff);
  }

  /**
   * A datagram sent without checksum, which receivers accept unseen, comes out with one; it verifies exactly
   * when all its other words already added up.
   */
  lemma AbsentChecksum(w: seq<u16>, c: nat, f: nat, le: bool)
    requires c < |w| && f < |w| && c != f && !IsBroadcast(w[f], le) && w[c] == 0
    ensures Updated(w, c, f, le)[c] == 0xffff - Broadcast(w[f], le)
    ensures Verifies(Updated(w, c, f, le)) <==> (Sum(w) - w[f]) % 0xffff == 0
  {
    VerifiesIff(Updated(w, c, f, le));
    UpdatedSum(w, c, f, le);
    FoldFull(Broadcast(w[f], le));
    hide Fold, Sum, IsBroadcast, Verifies;
  }

  lemma FoldFull(x: u16)
    requires x > 0
    ensures Fold(0xffff + x) == x
  {
    assert (0xffff + x) % 0x1_0000 == x - 1 && (0xffff + x) / 0x1_0000 == 1;
  }

  // ----- Host order and network order -----

  function Swap(x: u16): u16 {
    x % 0x100 * 0x100 + x / 0x100
  }

  function Swapped(w: seq<u16>): (r: seq<u16>)
    ensures |r| == |w|
  {
    seq(|w|, i requires 0 <= i < |w| => Swap(w[i]))
  }

  function NetWord(hi: byte, lo: byte): u16 {
    hi as int * 0x100 + lo as int
  }

  lemma Digits(hi: byte, lo: byte)
    ensures NetWord(hi, lo) / 0x100 == hi && NetWord(hi, lo) % 0x100 == lo
  {
  }

  lemma HighBit(hi: byte, lo: byte)
    ensures IsBroadcast(NetWord(hi, lo), true) <==> lo >= 0x80
  {
    var q, r: nat := if lo >= 0x80 then 2 * hi + 1 else 2 * hi as int, if lo >= 0x80 then lo - 0x80 else lo;
    assert NetWord(hi, lo) == 0x80 * q + r;
    HalfByte(q, r);
  }

  lemma HalfByte(q: nat, r: nat)
    requires r < 0x80
    ensures (0x80 * q + r) / 0x80 == q
  {
  }

  lemma SwapIsTimes256(x: u16)
    ensures Swap(x) == 0x100 * x as int - 0xffff * (x / 0x100)
    ensures Swap(Swap(x)) == x && (Swap(x) == 0 <==> x == 0)
    ensures IsBroadcast(Swap(x), true) <==> IsBroadcast(x, false)
  {
    var hi: byte, lo: byte := x / 0x100, x % 0x100;
    assert x == NetWord(hi, lo) && Swap(x) == NetWord(lo, hi);
    Digits(lo, hi);
    HighBit(lo, hi);
    hide IsBroadcast;
    assert IsBroadcast(x, false) <==> hi >= 0x80 by { TopBit(hi, lo); }
  }

  lemma TopBit(hi: byte, lo: byte)
    ensures IsBroadcast(NetWord(hi, lo), false) <==> hi >= 0x80
  {
  }

  lemma {:induction false} SwappedSum(w: seq<u16>) returns (q: int)
    ensures Sum(Swapped(w)) == 0x100 * Sum(w) - 0xffff * q
    ensures Sum(Swapped(w)) == 0 <==> Sum(w) == 0
  {
    if w == [] {
      q := 0;
    } else {
      var n := |w| - 1;
      assert Swapped(w)[..n] == Swapped(w[..n]);
      var r := SwappedSum(w[..n]);
      SwapIsTimes256(w[n]);
      q := r + w[n] / 0x100;
    }
  }

  /** Byte order does not matter for verification, so the host may compute in its own. */
  lemma SwapVerifies(w: seq<u16>)
    ensures Verifies(Swapped(w)) <==> Verifies(w)
  {
    hide Verifies, Sum, Swapped;
    VerifiesIff(w);
    VerifiesIff(Swapped(w));
    var q := SwappedSum(w);
    Times256(Sum(w), Sum(Swapped(w)), q);
  }

  lemma Times256(s: nat, t: nat, q: int)
    requires t == 0x100 * s - 0xffff * q
    ensures s % 0xffff == 0 <==> t % 0xffff == 0
  {
    if s % 0xffff == 0 {
      assert t == 0xffff * (0x100 * (s / 0xffff) - q);
    }
    if t % 0xffff == 0 {
      assert s == 0x100 * t - 0xffff * (s - 0x100 * q);
      assert s == 0xffff * (0x100 * (t / 0xffff) - (s - 0x100 * q));
    }
  }

  /** The update seen in network order, on a host of either byte order. */
  function UpdatedNet(w: seq<u16>, c: nat, f: nat, le: bool): seq<u16>
    requires c < |w| && f < |w| && !IsBroadcast(w[f], false)
  {
    SwapIsTimes256(w[f]);
    if le then Swapped(Updated(Swapped(w), c, f, true)) else Updated(w, c, f, false)
  }

  lemma NetStillVerifiesIff(w: seq<u16>, c: nat, f: nat, le: bool)
    requires c < |w| && f < |w| && c != f && !IsBroadcast(w[f], false) && Verifies(w)
    ensures Verifies(UpdatedNet(w, c, f, le)) <==> w[f] == 0
  {
    SwapIsTimes256(w[f]);
    if le {
      SwapVerifies(w);
      SwapVerifies(Updated(Swapped(w), c, f, true));
      StillVerifiesIff(Swapped(w), c, f, true);
    } else {
      StillVerifiesIff(w, c, f, false);
    }
  }

  // ----- The frame -----

  /** A datagram as words in network order, an odd last byte padded with zero. */
  function Pairs(g: seq<byte>): (w: seq<u16>)
    ensures |w| == (|g| + 1) / 2
  {
    seq((|g| + 1) / 2, i requires 0 <= i < (|g| + 1) / 2 =>
      NetWord(g[2 * i], if 2 * i + 1 < |g| then g[2 * i + 1] else 0))
  }

  /** An odd last byte counts as if a zero byte followed. */
  lemma OddPadded(g: seq<byte>)
    requires |g| % 2 == 1
    ensures Pairs(g) == Pairs(g + [0])
  {
  }

  /** The checksum word in network order that the host stores, from those it loads. */
  function NetCheck(check: u16, flags: u16, le: bool): u16
    requires !IsBroadcast(flags, false)
  {
    SwapIsTimes256(flags);
    if le then Swap(UpdatedCheck(Swap(check), Broadcast(Swap(flags), true)))
    else UpdatedCheck(check, Broadcast(flags, false))
  }

  /** The buffer after the update of a datagram at `u`: one flag bit and the two checksum bytes. */
  function WithBroadcast(s: seq<byte>, u: nat, le: bool): (r: seq<byte>)
    requires u + 20 <= |s| && s[u + 18] < 0x80
    ensures |r| == |s|
  {
    var check := NetCheck(NetWord(s[u + 6], s[u + 7]), NetWord(s[u + 18], s[u + 19]), le);
    Patched(s, u, s[u + 18] as int + 0x80, check / 0x100, check % 0x100)
  }

  function Patched(s: seq<byte>, u: nat, flag: byte, hi: byte, lo: byte): (r: seq<byte>)
    requires u + 20 <= |s|
    ensures |r| == |s|
  {
    s[u + 18 := flag][u + 6 := hi][u + 7 := lo]
  }

  lemma SwapBroadcast(x: u16)
    requires !IsBroadcast(x, false)
    ensures !IsBroadcast(Swap(x), true)
    ensures Swap(Broadcast(Swap(x), true)) == x as int + 0x8000
  {
    SwapIsTimes256(x);
    var lo, hi := x % 0x100, x / 0x100;
    Digits(lo, hi + 0x80);
    assert Broadcast(Swap(x), true) == NetWord(lo, hi + 0x80);
  }

  lemma UpdatedAt(w: seq<u16>, c: nat, f: nat, le: bool, i: nat)
    requires c < |w| && f < |w| && c != f && !IsBroadcast(w[f], le) && i < |w|
    ensures |Updated(w, c, f, le)| == |w|
    ensures Updated(w, c, f, le)[i]
            == if i == c then UpdatedCheck(w[c], Broadcast(w[f], le)) else if i == f then Broadcast(w[f], le) else w[i]
  {
    hide UpdatedCheck, IsBroadcast, Broadcast;
  }

  lemma UpdatedNetAt(w: seq<u16>, c: nat, f: nat, le: bool, i: nat)
    requires c < |w| && f < |w| && c != f && !IsBroadcast(w[f], false) && i < |w|
    ensures |UpdatedNet(w, c, f, le)| == |w|
    ensures UpdatedNet(w, c, f, le)[i]
            == if i == c then NetCheck(w[c], w[f], le) else if i == f then w[f] as int + 0x8000 else w[i]
  {
    SwapIsTimes256(w[f]);
    SwapIsTimes256(w[i]);
    SwapBroadcast(w[f]);
    assert Broadcast(w[f], false) == w[f] as int + 0x8000;
    if le {
      UpdatedAt(Swapped(w), c, f, true, i);
    } else {
      UpdatedAt(w, c, f, false, i);
    }
    hide Updated, UpdatedCheck, IsBroadcast, Broadcast, Swap;
  }

  /** The words of the edited datagram, after any pseudo-header words, are those the update computes. */
  lemma WordsUpdated(ph: seq<u16>, g: seq<byte>, le: bool)
    requires |g| >= 20 && g[18] < 0x80
    ensures ph + Pairs(WithBroadcast(g, 0, le)) == UpdatedNet(ph + Pairs(g), |ph| + 3, |ph| + 9, le)
  {
    var w, r := ph + Pairs(g), ph + Pairs(WithBroadcast(g, 0, le));
    var c, f := |ph| + 3, |ph| + 9;
    var check := NetCheck(NetWord(g[6], g[7]), NetWord(g[18], g[19]), le);
    assert check / 0x100 * 0x100 + check % 0x100 == check;
    hide UpdatedNet, NetCheck;
    UpdatedNetAt(w, c, f, le, 0);
    forall i | 0 <= i < |w| ensures r[i] == UpdatedNet(w, c, f, le)[i] {
      UpdatedNetAt(w, c, f, le, i);
    }
  }

  lemma WithinDatagram(s: seq<byte>, u: nat, n: nat, le: bool)
    requires n >= 20 && u + n <= |s| && s[u + 18] < 0x80
    ensures WithBroadcast(s, u, le)[u..u + n] == WithBroadcast(s[u..u + n], 0, le)
  {
    var g := s[u..u + n];
    assert g[6] == s[u + 6] && g[7] == s[u + 7] && g[18] == s[u + 18] && g[19] == s[u + 19];
    var check := NetCheck(NetWord(g[6], g[7]), NetWord(g[18], g[19]), le);
    PatchedWithin(s, u, n, g[18] as int + 0x80, check / 0x100, check % 0x100);
  }

  lemma PatchedWithin(s: seq<byte>, u: nat, n: nat, flag: byte, hi: byte, lo: byte)
    requires n >= 20 && u + n <= |s|
    ensures Patched(s, u, flag, hi, lo)[u..u + n] == Patched(s[u..u + n], 0, flag, hi, lo)
  {
  }

  /**
   * The UDP datagram of any length at `u`, summed over any pseudo-header, which verified before the edit
   * verifies after it exactly when its flags field was zero: RFC 2131 section 2 has the other bits zero.
   */
  lemma DatagramStillVerifiesIff(ph: seq<u16>, s: seq<byte>, u: nat, n: nat, le: bool)
    requires n >= 20 && u + n <= |s| && s[u + 18] < 0x80
    requires Verifies(ph + Pairs(s[u..u + n]))
    ensures Verifies(ph + Pairs(WithBroadcast(s, u, le)[u..u + n])) <==> s[u + 18] == 0 && s[u + 19] == 0
  {
    var g := s[u..u + n];
    WithinDatagram(s, u, n, le);
    WordsUpdated(ph, g, le);
    var w := ph + Pairs(g);
    assert w[|ph| + 9] == NetWord(s[u + 18], s[u + 19]);
    NetStillVerifiesIff(w, |ph| + 3, |ph| + 9, le);
  }

  // ----- The edit in place -----

  /** Where the UDP header stands: after the Ethernet header and an IP header of `ihl` words. */
  function UdpAt(s: seq<byte>, d: nat): nat
    requires d + 15 <= |s|
  {
    d + 14 + s[d + 14] % 16 * 4
  }

  predicate IsIp(s: seq<byte>, d: nat)
    requires d + 14 <= |s|
  {
    NetWord(s[d + 12], s[d + 13]) == 0x0800
  }

  predicate FromDhcpClient(s: seq<byte>, u: nat)
    requires u + 4 <= |s|
  {
    NetWord(s[u], s[u + 1]) == 68 && NetWord(s[u + 2], s[u + 3]) == 67
  }

  predicate HasCookie(s: seq<byte>, u: nat)
    requires u + 248 <= |s|
  {
    s[u + 244..u + 248] == [0x63, 0x82, 0x53, 0x63]
  }

  /** The buffer reaches as far as the headers seen so far make the code look. */
  predicate Readable(s: seq<byte>, d: nat) {
    d + 14 <= |s| &&
    (IsIp(s, d) ==>
       d + 24 <= |s| &&
       (s[d + 23] == 17 ==>
          UdpAt(s, d) + 4 <= |s| &&
          (FromDhcpClient(s, UdpAt(s, d)) ==> UdpAt(s, d) + 248 <= |s|)))
  }

  /** No more is asked of the length than what the code looks at. */
  lemma ReadableLengths(s: seq<byte>, d: nat)
    ensures |s| == d + 14 && !(s[d + 12] == 0x08 && s[d + 13] == 0x00) ==> Readable(s, d)
    ensures |s| == d + 24 && s[d + 23] != 17 ==> Readable(s, d)
    ensures |s| >= d + 24 && |s| == UdpAt(s, d) + 4 && !FromDhcpClient(s, UdpAt(s, d)) ==> Readable(s, d)
    ensures |s| >= d + 24 && |s| == UdpAt(s, d) + 248 ==> Readable(s, d)
  {
  }

  /** A DHCP request that does not ask for a broadcast reply yet. */
  predicate IsUnicastRequest(s: seq<byte>, d: nat)
    requires Readable(s, d)
  {
    IsIp(s, d) && s[d + 23] == 17 && FromDhcpClient(s, UdpAt(s, d)) && HasCookie(s, UdpAt(s, d)) &&
    s[UdpAt(s, d) + 18] < 0x80
  }

  /** The same byte by byte: IPv4 and UDP, from port 68 to port 67, with the cookie and without the flag. */
  lemma UnicastRequestIs(s: seq<byte>, d: nat)
    requires Readable(s, d)
    ensures IsUnicastRequest(s, d)
            <==> && s[d + 12] == 0x08 && s[d + 13] == 0x00 && s[d + 23] == 17
                 && var u := d + 14 + 4 * (s[d + 14] % 16);
                 && u + 248 <= |s|
                 && s[u] == 0 && s[u + 1] == 68 && s[u + 2] == 0 && s[u + 3] == 67
                 && s[u + 244] == 0x63 && s[u + 245] == 0x82 && s[u + 246] == 0x53 && s[u + 247] == 0x63
                 && s[u + 18] < 0x80
  {
  }

  /** A 16-bit load on a host of either byte order. */
  function Load(s: seq<byte>, at: nat, le: bool): u16
    requires at + 2 <= |s|
  {
    if le then NetWord(s[at + 1], s[at]) else NetWord(s[at], s[at + 1])
  }

  method Store(buf: array<byte>, at: nat, v: u16, le: bool)
    requires at + 2 <= buf.Length
    modifies buf
    ensures buf[..] == Stored(old(buf[..]), at, v, le)
  {
    buf[at] := if le then v % 0x100 else v / 0x100;
    buf[at + 1] := if le then v / 0x100 else v % 0x100;
  }

  lemma LoadIsSwapped(s: seq<byte>, at: nat, le: bool)
    requires at + 2 <= |s|
    ensures var n := NetWord(s[at], s[at + 1]);
            Load(s, at, le) == if le then Swap(n) else n
    ensures IsBroadcast(Load(s, at, le), le) <==> s[at] >= 0x80
  {
    var hi, lo := s[at], s[at + 1];
    Digits(hi, lo);
    assert Swap(NetWord(hi, lo)) == NetWord(lo, hi);
    SwapIsTimes256(NetWord(hi, lo));
    hide Swap;
  }

  method FoldCarries(n: nat) returns (sum: u16)
    ensures sum == Fold(n)
  {
    var m := n;
    while m / 0x1_0000 != 0
      invariant Fold(m) == Fold(n)
      decreases m
    {
      m := m % 0x1_0000 + m / 0x1_0000;
    }
    sum := m;
  }

  /** The edit of flags and checksum of the datagram at `u`. */
  method SetBroadcast(buf: array<byte>, u: nat, le: bool)
    requires u + 20 <= buf.Length && buf[u + 18] < 0x80
    modifies buf
    ensures buf[..] == WithBroadcast(old(buf[..]), u, le)
  {
    hide Fold, Swap, NetWord, WithBroadcast, IsBroadcast;
    ghost var was := buf[..];
    StoresAreEdit(was, u, le);
    var flags: u16 := Broadcast(Load(buf[..], u + 18, le), le);
    Store(buf, u + 18, flags, le);
    var check: u16 := Load(buf[..], u + 6, le);
    var sum: u16 := FoldCarries(Carried(check, flags));
    Store(buf, u + 6, 0xffff - sum, le);
  }

  function Stored(s: seq<byte>, at: nat, v: u16, le: bool): (r: seq<byte>)
    requires at + 2 <= |s|
    ensures |r| == |s|
  {
    s[at := if le then v % 0x100 else v / 0x100][at + 1 := if le then v / 0x100 else v % 0x100]
  }

  lemma StoresAreEdit(s: seq<byte>, u: nat, le: bool)
    requires u + 20 <= |s| && s[u + 18] < 0x80
    ensures !IsBroadcast(Load(s, u + 18, le), le)
    ensures var flags := Broadcast(Load(s, u + 18, le), le);
            Stored(Stored(s, u + 18, flags, le), u + 6, UpdatedCheck(Load(s, u + 6, le), flags), le)
            == WithBroadcast(s, u, le)
  {
    LoadIsSwapped(s, u + 18, le);
    LoadIsSwapped(s, u + 6, le);
    var n := NetWord(s[u + 18], s[u + 19]);
    SwapIsTimes256(n);
    var flags := Broadcast(Load(s, u + 18, le), le);
    var check := UpdatedCheck(Load(s, u + 6, le), flags);
    assert Stored(s, u + 18, flags, le) == s[u + 18 := s[u + 18] as int + 0x80] by {
      BroadcastBytes(s[u + 18], s[u + 19], le);
      hide Broadcast, IsBroadcast;
    }
    SwapBytes(check);
    hide UpdatedCheck, Swap, Broadcast, IsBroadcast;
  }

  lemma SwapBytes(x: u16)
    ensures Swap(x) / 0x100 == x % 0x100 && Swap(x) % 0x100 == x / 0x100
  {
  }

  lemma BroadcastBytes(a: byte, b: byte, le: bool)
    requires a < 0x80
    ensures var x := if le then NetWord(b, a) else NetWord(a, b);
            !IsBroadcast(x, le) && Broadcast(x, le) == if le then NetWord(b, a + 0x80) else NetWord(a + 0x80, b)
    ensures le ==> NetWord(b, a + 0x80) % 0x100 == a as int + 0x80 && NetWord(b, a + 0x80) / 0x100 == b
    ensures !le ==> NetWord(a + 0x80, b) / 0x100 == a as int + 0x80 && NetWord(a + 0x80, b) % 0x100 == b
  {
    if le {
      Digits(b, a + 0x80);
      HighBit(b, a);
    } else {
      Digits(a + 0x80, b);
    }
  }

  /** Flag and checksum of a unicast DHCP request are edited in place; every other buffer stays as it is. */
  method DhcpFlagBroadcast(skb: Skb, disabled: bool, le: bool)
    requires Readable(skb.buf[..], skb.data)
    modifies skb.buf
    ensures var s := old(skb.buf[..]);
            skb.buf[..] == if !disabled && IsUnicastRequest(s, skb.data) then WithBroadcast(s, UdpAt(s, skb.data), le)
            else s
  {
    hide Load, Swap, NetWord, WithBroadcast, FromDhcpClient, HasCookie, IsIp, IsBroadcast, UdpAt;
    var s, d := skb.buf[..], skb.data;
    assert s == old(skb.buf[..]);
    if disabled || !IsIp(s, d) || s[d + 23] != 17 {
      return;
    }
    var u := UdpAt(s, d);
    if FromDhcpClient(s, u) && HasCookie(s, u) {
      LoadIsSwapped(s, u + 18, le);
      if !IsBroadcast(Load(s, u + 18, le), le) {
        SetBroadcast(skb.buf, u, le);
      }
    }
  }

  // ----- A request on which it fails -----

  /** The words of the pseudo-header of RFC 768: IP addresses, protocol and UDP length. */
  function PseudoHeader(s: seq<byte>, d: nat, u: nat): seq<u16>
    requires d + 34 <= |s| && u + 6 <= |s|
  {
    Pairs(s[d + 26..d + 34]) + [s[d + 23] as int, NetWord(s[u + 4], s[u + 5])]
  }

  /** A DHCP request from 10.1.2.3 to 10.4.5.6, all zero but its headers, the cookie and flags 0x0001. */
  function ReservedFlagSet(): (s: seq<byte>)
    ensures |s| == 282
  {
    seq(282, i requires 0 <= i < 282 => RequestByte(i))
  }

  function RequestByte(i: nat): byte {
    match i
    case 12 => 0x08 // IPv4
    case 14 => 0x45
    case 23 => 17 // UDP
    case 26 => 10 // addresses
    case 27 => 1
    case 28 => 2
    case 29 => 3
    case 30 => 10
    case 31 => 4
    case 32 => 5
    case 33 => 6
    case 35 => 68 // from the client's port
    case 37 => 67 // to the server's
    case 39 => 248 // UDP length
    case 40 => 0x2b // checksum
    case 41 => 0x83
    case 53 => 1 // flags
    case 278 => 0x63 // cookie
    case 279 => 0x82
    case 280 => 0x53
    case 281 => 0x63
    case _ => 0
  }

  lemma RequestBytes()
    ensures var s := ReservedFlagSet();
            && s[12] == 0x08 && s[13] == 0 && s[14] == 0x45 && s[23] == 17 && s[52] == 0 && s[53] == 1
            && s[34] == 0 && s[35] == 68 && s[36] == 0 && s[37] == 67
            && s[278] == 0x63 && s[279] == 0x82 && s[280] == 0x53 && s[281] == 0x63
  {
  }

  lemma ReservedFlagIsRequest()
    ensures Readable(ReservedFlagSet(), 0) && IsUnicastRequest(ReservedFlagSet(), 0)
    ensures UdpAt(ReservedFlagSet(), 0) == 34
  {
    RequestBytes();
    hide ReservedFlagSet, IsUnicastRequest;
    UnicastRequestIs(ReservedFlagSet(), 0);
  }

  lemma {:induction false} SumZeros(w: seq<u16>)
    requires forall i :: 0 <= i < |w| ==> w[i] == 0
    ensures Sum(w) == 0
  {
    if w != [] { SumZeros(w[..|w| - 1]); }
  }

  function RequestWord(i: nat): u16 {
    match i
    case 0 => 0x0a01
    case 1 => 0x0203
    case 2 => 0x0a04
    case 3 => 0x0506
    case 4 => 17
    case 5 => 248
    case 6 => 68
    case 7 => 67
    case 8 => 248
    case 9 => 0x2b83
    case 15 => 1
    case 128 => 0x6382
    case 129 => 0x5363
    case _ => 0
  }

  function RequestWords(): seq<u16> {
    seq(130, i requires 0 <= i < 130 => RequestWord(i))
  }

  lemma RequestPair(i: nat)
    requires 6 <= i < 130
    ensures NetWord(RequestByte(22 + 2 * i), RequestByte(23 + 2 * i)) == RequestWord(i)
  {
  }

  lemma AddressBytes()
    ensures var s := ReservedFlagSet();
            && s[26] == 10 && s[27] == 1 && s[28] == 2 && s[29] == 3
            && s[30] == 10 && s[31] == 4 && s[32] == 5 && s[33] == 6
            && s[23] == 17 && s[38] == 0 && s[39] == 248
  {
  }

  lemma PseudoHeaderWords()
    ensures PseudoHeader(ReservedFlagSet(), 0, 34) == [0x0a01, 0x0203, 0x0a04, 0x0506, 17, 248]
  {
    AddressBytes();
    hide ReservedFlagSet;
  }

  lemma ReservedFlagWords()
    ensures var s := ReservedFlagSet();
            PseudoHeader(s, 0, 34) + Pairs(s[34..282]) == RequestWords()
  {
    var s := ReservedFlagSet();
    PseudoHeaderWords();
    assert forall i :: 0 <= i < 6 ==> RequestWord(i) == [0x0a01, 0x0203, 0x0a04, 0x0506, 17, 248][i];
    hide RequestByte, RequestWord, NetWord, PseudoHeader;
    var w := Pairs(s[34..282]);
    forall i | 6 <= i < 130 ensures w[i - 6] == RequestWord(i) {
      assert w[i - 6] == NetWord(s[22 + 2 * i], s[23 + 2 * i]);
      RequestPair(i);
    }
  }

  lemma RequestSum()
    ensures Sum(RequestWords()) == 0xffff
  {
    var zeros: seq<u16> := seq(130, i => 0);
    SumZeros(zeros);
    hide Sum;
    var a := zeros[0 := 0x0a01];
    var b := a[1 := 0x0203];
    var c := b[2 := 0x0a04];
    var d := c[3 := 0x0506];
    SumUpdate(zeros, 0, 0x0a01);
    SumUpdate(a, 1, 0x0203);
    SumUpdate(b, 2, 0x0a04);
    SumUpdate(c, 3, 0x0506);
    RequestSumRest(d);
    assert RequestWords() == Rest(d);
  }

  /** The words after the addresses: what goes with the UDP header, and what is in the request. */
  function Header(w: seq<u16>): (r: seq<u16>)
    requires |w| == 130
    ensures |r| == 130
  {
    w[4 := 17][5 := 248][6 := 68][7 := 67][8 := 248][9 := 0x2b83]
  }

  function Rest(w: seq<u16>): (r: seq<u16>)
    requires |w| == 130
    ensures |r| == 130
  {
    Header(w)[15 := 1][128 := 0x6382][129 := 0x5363]
  }

  lemma HeaderSum(w: seq<u16>)
    requires |w| == 130 && forall i :: 4 <= i < 130 ==> w[i] == 0
    ensures Sum(Header(w)) == Sum(w) + 17 + 248 + 68 + 67 + 248 + 0x2b83
    ensures forall i :: 10 <= i < 130 ==> Header(w)[i] == 0
  {
    hide Sum;
    SumUpdate(w, 4, 17);
    SumUpdate(w[4 := 17], 5, 248);
    SumUpdate(w[4 := 17][5 := 248], 6, 68);
    SumUpdate(w[4 := 17][5 := 248][6 := 68], 7, 67);
    SumUpdate(w[4 := 17][5 := 248][6 := 68][7 := 67], 8, 248);
    SumUpdate(w[4 := 17][5 := 248][6 := 68][7 := 67][8 := 248], 9, 0x2b83);
  }

  lemma RequestSumRest(w: seq<u16>)
    requires |w| == 130 && forall i :: 4 <= i < 130 ==> w[i] == 0
    ensures Sum(Rest(w)) == Sum(w) + 0xe4f1
  {
    HeaderSum(w);
    hide Sum, Header;
    var h := Header(w);
    SumUpdate(h, 15, 1);
    SumUpdate(h[15 := 1], 128, 0x6382);
    SumUpdate(h[15 := 1][128 := 0x6382], 129, 0x5363);
  }

  /** The code edits it; its datagram verifies before the edit and not after, on a host of either byte order. */
  lemma ReservedFlagFails(le: bool)
    ensures var s := ReservedFlagSet();
            && Readable(s, 0) && IsUnicastRequest(s, 0) && UdpAt(s, 0) == 34
            && Verifies(PseudoHeader(s, 0, 34) + Pairs(s[34..282]))
            && !Verifies(PseudoHeader(s, 0, 34) + Pairs(WithBroadcast(s, 34, le)[34..282]))
  {
    var s := ReservedFlagSet();
    assert s[53] == 1;
    ReservedFlagIsRequest();
    hide ReservedFlagSet, Pairs, PseudoHeader, Sum, WithBroadcast, Verifies;
    ReservedFlagWords();
    RequestSum();
    VerifiesIff(PseudoHeader(s, 0, 34) + Pairs(s[34..282]));
    DatagramStillVerifiesIff(PseudoHeader(s, 0, 34), s, 34, 248, le);
  }
}
