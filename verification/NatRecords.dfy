/** The NAT2.5 table of aic_br_ext.c as data: sixteen chains of records, and the map they stand for. */
module NatRecords {
  import opened Words
  import opened Wrappers

  /** NAT25_HASH_SIZE. A network address takes MAX_NETWORK_ADDR_LEN = 17 bytes, a MAC six. */
  const HASH_SIZE: nat := 16

  type NetAddr = a: seq<byte> | |a| == 17 witness [0, 0, 0, 0, 0, 0, 0, 0, 0, 0, 0, 0, 0, 0, 0, 0, 0]
  type Mac = m: seq<byte> | |m| == 6 witness [0, 0, 0, 0, 0, 0]

  /** What an entry records, apart from its links. */
  datatype Rec = Rec(addr: NetAddr, mac: Mac, ageing: u32, uses: int)

  // ----- Hashing and ageing -----

  function Bits(x: byte): bv8 { x as bv8 }
  function Value(v: bv8): byte { v as int }

  function Xor(x: byte, y: byte): byte {
    Value(Bits(x) ^ Bits(y))
  }

  function XorRange(a: NetAddr, lo: nat, hi: nat): byte
    requires lo <= hi <= |a|
    decreases hi - lo
  {
    if lo == hi then 0 else Xor(a[lo], XorRange(a, lo + 1, hi))
  }

  /** __nat25_network_hash. */
  function Hash(a: NetAddr): (h: nat)
    ensures h < HASH_SIZE
  {
    if a[0] == 1 then XorRange(a, 7, 11) % 16
    else if a[0] == 3 then XorRange(a, 1, 11) % 16
    else if a[0] == 4 then XorRange(a, 1, 4) % 16
    else if a[0] == 5 then XorRange(a, 0, 9) % 16
    else if a[0] == 2 then XorRange(a, 1, 17) % 16
    else XorRange(a, 0, 17) % 16
  }

  lemma BitsOfValue(v: bv8)
    ensures Bits(Value(v)) == v
  {
  }

  lemma ShiftIs(u: bv8)
    requires u as int < 0x80
    ensures (u << 1) as int == 2 * u as int
  {
  }

  lemma WithOneIs(u: bv8)
    ensures ((u << 1) | 1) as int == (u << 1) as int + 1
  {
  }

  lemma DoubleIs(u: bv8)
    requires Value(u) < 0x80
    ensures Value(u << 1) == 2 * Value(u) && Value((u << 1) | 1) == 2 * Value(u) + 1
  {
    ShiftIs(u);
    WithOneIs(u);
  }

  lemma NoBits()
    ensures Value(0) == 0
  {
  }

  lemma {:induction false} BitsFor(x: byte) returns (v: bv8)
    ensures Value(v) == x
  {
    hide Value;
    if x == 0 {
      v := 0;
      NoBits();
    } else {
      var u := BitsFor(x / 2);
      DoubleIs(u);
      v := if x % 2 == 1 then (u << 1) | 1 else u << 1;
    }
  }

  lemma ValueOfBits(x: byte)
    ensures Value(Bits(x)) == x
  {
    hide Value, Bits;
    var v := BitsFor(x);
    BitsOfValue(v);
  }

  lemma XorAssoc(x: byte, y: byte, z: byte)
    ensures Xor(Xor(x, y), z) == Xor(x, Xor(y, z))
  {
    hide Value, Bits;
    BitsOfValue(Bits(x) ^ Bits(y));
    BitsOfValue(Bits(y) ^ Bits(z));
  }

  lemma XorNone(x: byte)
    ensures Xor(x, 0) == x && Xor(0, x) == x
  {
    hide Value, Bits;
    NoBits();
    BitsOfValue(0);
    ValueOfBits(x);
  }

  /** Of bytes as bits, it is their bitwise exclusive or. */
  lemma XorIs(v: bv8, w: bv8)
    ensures Xor(Value(v), Value(w)) == Value(v ^ w)
  {
    hide Value, Bits;
    BitsOfValue(v);
    BitsOfValue(w);
  }

  /** The exclusive or of a list of bytes, from the left as it is written. */
  function XorOf(s: seq<byte>): byte {
    if s == [] then 0 else Xor(XorOf(s[..|s| - 1]), s[|s| - 1])
  }

  lemma {:induction false} RangeIsList(a: NetAddr, lo: nat, mid: nat, hi: nat)
    requires lo <= mid <= hi <= |a|
    ensures Xor(XorOf(a[lo..mid]), XorRange(a, mid, hi)) == XorOf(a[lo..hi])
    decreases hi - mid
  {
    hide Xor;
    if mid == hi {
      XorNone(XorOf(a[lo..hi]));
    } else {
      assert a[lo..mid + 1][..mid - lo] == a[lo..mid];
      XorAssoc(XorOf(a[lo..mid]), a[mid], XorRange(a, mid + 1, hi));
      RangeIsList(a, lo, mid + 1, hi);
    }
  }

  lemma RangeIs(a: NetAddr, lo: nat, hi: nat)
    requires lo <= hi <= |a|
    ensures XorRange(a, lo, hi) == XorOf(a[lo..hi])
  {
    hide Xor;
    RangeIsList(a, lo, lo, hi);
    XorNone(XorRange(a, lo, hi));
  }

  /** The bucket is the exclusive or of the bytes each kind of address is told apart by, in its lower four bits. */
  lemma HashIs(a: NetAddr)
    ensures Hash(a) == XorOf(match a[0]
                             case 1 => a[7..11] case 3 => a[1..11] case 4 => a[1..4]
                             case 5 => a[0..9] case 2 => a[1..17] case _ => a) % 16
  {
    hide Xor, XorRange, XorOf;
    RangeIs(a, 7, 11);
    RangeIs(a, 1, 11);
    RangeIs(a, 1, 4);
    RangeIs(a, 0, 9);
    RangeIs(a, 1, 17);
    RangeIs(a, 0, 17);
    assert a[0..17] == a;
  }

  /** __nat25_has_expired: time_before_eq on wrapping ticks, `limit` being NAT25_AGEING_TIME * HZ. */
  predicate Expired(ageing: u32, now: u32, limit: u32) {
    Sub32(Sub32(now, limit), ageing) < 0x8000_0000
  }

  /** A record is expired exactly when it has not been refreshed for `limit` ticks, across the wrap of the ticks too. */
  lemma ExpiredIff(ageing: u32, d: nat, limit: u32)
    requires d < 0x8000_0000 && limit <= 0x8000_0000
    ensures Expired(ageing, Wrap32(ageing + d), limit) <==> d >= limit
  {
    SumsWrap(ageing, d);
  }

  // ----- One chain -----

  /** The first record of the chain with address `a`, from place `i` on. */
  function Find(c: seq<Rec>, a: NetAddr, i: nat): (r: int)
    requires i <= |c|
    ensures -1 <= r < |c| && (r >= 0 ==> i <= r && c[r].addr == a)
    decreases |c| - i
  {
    if i == |c| then -1 else if c[i].addr == a then i else Find(c, a, i + 1)
  }

  /** __nat25_db_network_insert, when memory for a new record can be had. */
  function Put(c: seq<Rec>, a: NetAddr, mac: Mac, now: u32): seq<Rec> {
    var i := Find(c, a, 0);
    if i >= 0 then c[i := c[i].(mac := mac, ageing := now)] else [Rec(a, mac, now, 1)] + c
  }

  /** The use a lookup counts. */
  function Touch(c: seq<Rec>, a: NetAddr, now: u32, limit: u32): seq<Rec> {
    var i := Find(c, a, 0);
    if i >= 0 && !Expired(c[i].ageing, now, limit) then c[i := c[i].(uses := c[i].uses + 1)] else c
  }

  /** One nat25_db_expire pass over a chain, from its head. */
  function Expire(c: seq<Rec>, now: u32, limit: u32): seq<Rec> {
    if c == [] then []
    else if !Expired(c[0].ageing, now, limit) then [c[0]] + Expire(c[1..], now, limit)
    else if c[0].uses == 1 then Expire(c[1..], now, limit)
    else [c[0].(uses := c[0].uses - 1)] + Expire(c[1..], now, limit)
  }

  ghost predicate DistinctKeys(c: seq<Rec>) {
    forall i, j :: 0 <= i < j < |c| ==> c[i].addr != c[j].addr
  }

  ghost predicate Used(c: seq<Rec>) {
    forall i :: 0 <= i < |c| ==> c[i].uses >= 1
  }

  lemma {:induction false} FindMisses(c: seq<Rec>, a: NetAddr, i: nat)
    requires i <= |c|
    ensures Find(c, a, i) == -1 <==> forall k :: i <= k < |c| ==> c[k].addr != a
    ensures Find(c, a, i) >= 0 ==> forall k :: i <= k < Find(c, a, i) ==> c[k].addr != a
    decreases |c| - i
  {
    if i < |c| && c[i].addr != a { FindMisses(c, a, i + 1); }
  }

  // ----- The map a chain stands for -----

  function Lookup(c: seq<Rec>, a: NetAddr): Option<Rec> {
    if c == [] then None else if c[0].addr == a then Some(c[0]) else Lookup(c[1..], a)
  }

  lemma {:induction false} LookupFind(c: seq<Rec>, a: NetAddr, i: nat)
    requires i <= |c|
    ensures Lookup(c[i..], a) == if Find(c, a, i) >= 0 then Some(c[Find(c, a, i)]) else None
    decreases |c| - i
  {
    if i < |c| {
      assert c[i..][1..] == c[i + 1..];
      LookupFind(c, a, i + 1);
    }
  }

  lemma {:induction false} LookupNone(c: seq<Rec>, a: NetAddr)
    ensures Lookup(c, a) == None <==> forall k :: 0 <= k < |c| ==> c[k].addr != a
  {
    if c != [] && c[0].addr != a {
      LookupNone(c[1..], a);
      assert forall k :: 1 <= k < |c| ==> c[k] == c[1..][k - 1];
    }
  }

  lemma {:induction false} LookupUpdate(c: seq<Rec>, i: nat, r: Rec, b: NetAddr)
    requires DistinctKeys(c) && i < |c| && r.addr == c[i].addr
    ensures DistinctKeys(c[i := r])
    ensures Lookup(c[i := r], b) == if b == r.addr then Some(r) else Lookup(c, b)
  {
    if i == 0 {
      assert c[i := r][1..] == c[1..];
    } else {
      assert c[i := r][1..] == c[1..][i - 1 := r];
      LookupUpdate(c[1..], i - 1, r, b);
    }
  }

  lemma PutKeeps(c: seq<Rec>, a: NetAddr, mac: Mac, now: u32)
    requires DistinctKeys(c) && Used(c)
    ensures DistinctKeys(Put(c, a, mac, now)) && Used(Put(c, a, mac, now))
  {
    FindMisses(c, a, 0);
    var i := Find(c, a, 0);
    if i >= 0 { LookupUpdate(c, i, c[i].(mac := mac, ageing := now), a); }
  }

  /** Insertion is map update: one key gets the new MAC and age and keeps its use count, no other key changes. */
  lemma PutIsUpdate(c: seq<Rec>, a: NetAddr, mac: Mac, now: u32, b: NetAddr)
    requires DistinctKeys(c) && Used(c)
    ensures DistinctKeys(Put(c, a, mac, now)) && Used(Put(c, a, mac, now))
    ensures Lookup(Put(c, a, mac, now), b)
            == if b != a then Lookup(c, b)
               else Some(Rec(a, mac, now, if Lookup(c, a).Some? then Lookup(c, a).value.uses else 1))
  {
    PutKeeps(c, a, mac, now);
    assert c[0..] == c;
    LookupFind(c, a, 0);
    var i := Find(c, a, 0);
    if i >= 0 {
      LookupUpdate(c, i, c[i].(mac := mac, ageing := now), b);
      hide DistinctKeys, Used;
    } else {
      hide DistinctKeys, Used;
      assert ([Rec(a, mac, now, 1)] + c)[1..] == c;
    }
  }

  lemma TouchKeeps(c: seq<Rec>, a: NetAddr, now: u32, limit: u32)
    requires DistinctKeys(c) && Used(c)
    ensures DistinctKeys(Touch(c, a, now, limit)) && Used(Touch(c, a, now, limit))
  {
    hide Expired;
    var i := Find(c, a, 0);
    if i >= 0 { LookupUpdate(c, i, c[i].(uses := c[i].uses + 1), a); }
  }

  /** A lookup counts a use of the key it finds unexpired, and changes nothing else. */
  lemma TouchIsUpdate(c: seq<Rec>, a: NetAddr, now: u32, limit: u32, b: NetAddr)
    requires DistinctKeys(c) && Used(c)
    ensures DistinctKeys(Touch(c, a, now, limit)) && Used(Touch(c, a, now, limit))
    ensures var r := Lookup(c, b);
            Lookup(Touch(c, a, now, limit), b)
            == if b == a && r.Some? && !Expired(r.value.ageing, now, limit)
            then Some(r.value.(uses := r.value.uses + 1)) else r
  {
    hide Expired, Lookup, Used, DistinctKeys, Find;
    TouchKeeps(c, a, now, limit);
    assert c[0..] == c;
    LookupFind(c, a, 0);
    var i := Find(c, a, 0);
    if i >= 0 {
      LookupUpdate(c, i, c[i].(uses := c[i].uses + 1), b);
    }
  }

  /** What one expiry pass leaves of a record. */
  function Aged(r: Rec, now: u32, limit: u32): Option<Rec> {
    if !Expired(r.ageing, now, limit) then Some(r)
    else if r.uses == 1 then None
    else Some(r.(uses := r.uses - 1))
  }

  lemma {:induction false} ExpireAdds(c: seq<Rec>, now: u32, limit: u32, a: NetAddr)
    requires forall k :: 0 <= k < |c| ==> c[k].addr != a
    ensures forall k :: 0 <= k < |Expire(c, now, limit)| ==> Expire(c, now, limit)[k].addr != a
  {
    if c != [] {
      ExpireAdds(c[1..], now, limit, a);
    }
  }

  /**
   * An expiry pass takes one use from every expired record, drops those that had one left, keeps all others,
   * and adds nothing.
   */
  lemma {:induction false} ExpireIsFilter(c: seq<Rec>, now: u32, limit: u32, b: NetAddr)
    requires DistinctKeys(c) && Used(c)
    ensures DistinctKeys(Expire(c, now, limit)) && Used(Expire(c, now, limit))
    ensures Lookup(Expire(c, now, limit), b)
            == if Lookup(c, b).Some? then Aged(Lookup(c, b).value, now, limit) else None
  {
    hide Expired;
    if c != [] {
      ExpireIsFilter(c[1..], now, limit, b);
      ExpireAdds(c[1..], now, limit, c[0].addr);
      LookupNone(Expire(c[1..], now, limit), c[0].addr);
      var d := Expire(c, now, limit);
      if Aged(c[0], now, limit).Some? {
        assert d[0] == Aged(c[0], now, limit).value && d[1..] == Expire(c[1..], now, limit);
      }
    }
  }

  /** Records stay in order: what is left of a chain is what is left of its records, one after the other. */
  lemma {:induction false} ExpireKeepsOrder(c: seq<Rec>, d: seq<Rec>, now: u32, limit: u32)
    ensures Expire(c + d, now, limit) == Expire(c, now, limit) + Expire(d, now, limit)
  {
    hide Expired;
    if c == [] {
      assert c + d == d;
    } else {
      assert (c + d)[1..] == c[1..] + d;
      ExpireKeepsOrder(c[1..], d, now, limit);
    }
  }

  /** Passes at the times `nows`, the first first. */
  function Passes(c: seq<Rec>, nows: seq<u32>, limit: u32): seq<Rec> {
    if nows == [] then c else Expire(Passes(c, nows[..|nows| - 1], limit), nows[|nows| - 1], limit)
  }

  /**
   * A record with n uses that is expired at every pass and not touched in between loses a use at each pass
   * and is gone at the n-th, neither earlier nor later.
   */
  lemma {:induction false} GoneAtNthPass(c: seq<Rec>, nows: seq<u32>, limit: u32, a: NetAddr)
    requires DistinctKeys(c) && Used(c) && Lookup(c, a).Some?
    requires forall i :: 0 <= i < |nows| ==> Expired(Lookup(c, a).value.ageing, nows[i], limit)
    ensures var d, r := Passes(c, nows, limit), Lookup(c, a).value;
            && DistinctKeys(d) && Used(d)
            && Lookup(d, a) == if |nows| < r.uses then Some(r.(uses := r.uses - |nows|)) else None
  {
    hide Expired, DistinctKeys, Used;
    if nows == [] {
      assert Lookup(c, a).value.uses >= 1 by { UsedFound(c, a); }
    } else {
      var most := nows[..|nows| - 1];
      GoneAtNthPass(c, most, limit, a);
      ExpireIsFilter(Passes(c, most, limit), nows[|nows| - 1], limit, a);
    }
  }

  lemma {:induction false} UsedFound(c: seq<Rec>, a: NetAddr)
    requires Used(c) && Lookup(c, a).Some?
    ensures Lookup(c, a).value.uses >= 1
  {
    if c[0].addr != a { UsedFound(c[1..], a); }
  }

  /** A record is never dropped while it is unexpired, however often passes run. */
  lemma {:induction false} UnexpiredStays(c: seq<Rec>, nows: seq<u32>, limit: u32, a: NetAddr)
    requires DistinctKeys(c) && Used(c) && Lookup(c, a).Some?
    requires forall i :: 0 <= i < |nows| ==> !Expired(Lookup(c, a).value.ageing, nows[i], limit)
    ensures var d := Passes(c, nows, limit); DistinctKeys(d) && Used(d) && Lookup(d, a) == Lookup(c, a)
  {
    hide Expired, DistinctKeys, Used;
    if nows != [] {
      var most := nows[..|nows| - 1];
      UnexpiredStays(c, most, limit, a);
      ExpireIsFilter(Passes(c, most, limit), nows[|nows| - 1], limit, a);
    }
  }

  // ----- In elapsed ticks -----

  /** A record `d` ticks old gets a use more from a lookup if `d` is below the limit, and else is left as it is. */
  lemma LookupAfter(c: seq<Rec>, a: NetAddr, d: nat, limit: u32)
    requires DistinctKeys(c) && Used(c) && Lookup(c, a).Some? && d < 0x8000_0000 && limit <= 0x8000_0000
    ensures var r := Lookup(c, a).value;
            Lookup(Touch(c, a, Wrap32(r.ageing + d), limit), a)
            == Some(if d < limit then r.(uses := r.uses + 1) else r)
  {
    hide Lookup, Touch, DistinctKeys, Used, Expired, Wrap32, Find;
    var r := Lookup(c, a).value;
    ExpiredIff(r.ageing, d, limit);
    TouchIsUpdate(c, a, Wrap32(r.ageing + d), limit, a);
  }

  /** An expiry pass keeps a record below the limit as it is, and takes a use from an older one, or the last with it. */
  lemma PassAfter(c: seq<Rec>, a: NetAddr, d: nat, limit: u32)
    requires DistinctKeys(c) && Used(c) && Lookup(c, a).Some? && d < 0x8000_0000 && limit <= 0x8000_0000
    ensures var r := Lookup(c, a).value;
            Lookup(Expire(c, Wrap32(r.ageing + d), limit), a)
            == if d < limit then Some(r) else if r.uses == 1 then None else Some(r.(uses := r.uses - 1))
  {
    hide Lookup, Expire, DistinctKeys, Used, Expired, Wrap32;
    var r := Lookup(c, a).value;
    ExpiredIff(r.ageing, d, limit);
    ExpireIsFilter(c, Wrap32(r.ageing + d), limit, a);
  }
}
