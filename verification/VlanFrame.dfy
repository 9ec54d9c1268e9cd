/** Received frames in nat25_handle_frame of aic_br_ext.c: VLAN tag out, destination rewritten, tag back. */
module VlanFrame {
  import opened Words
  import opened Wrappers
  import opened SkBuff
  import opened NatRecords
  import opened NatTable

  // ----- The tag moves, on the whole buffer -----

  /** The two MAC addresses moved four bytes up, over the tag. */
  function Stripped(s: seq<byte>, d: nat): seq<byte>
    requires d + 16 <= |s|
  {
    Overwrite(s, d + 4, s[d..d + 12])
  }

  /** The two MAC addresses moved back down, and the tag written after them. */
  function Restored(s: seq<byte>, d: nat, tci: seq<byte>): seq<byte>
    requires d + 16 <= |s| && |tci| == 2
  {
    Overwrite(Overwrite(s, d, s[d + 4..d + 16]), d + 12, [0x81, 0x00] + tci)
  }

  predicate Tagged(s: seq<byte>, d: nat)
    requires d + 14 <= |s|
  {
    s[d + 12] == 0x81 && s[d + 13] == 0x00
  }

  /**
   * Restoring undoes stripping: whatever destination was written in between is now the destination of the
   * tagged frame, and tag, source, payload and all else are as they were.
   */
  lemma RestoreUndoesStrip(s: seq<byte>, d: nat, mac: Mac)
    requires d + 16 <= |s| && Tagged(s, d)
    ensures Restored(Overwrite(Stripped(s, d), d + 4, mac), d, s[d + 14..d + 16]) == Overwrite(s, d, mac)
  {
    hide Overwrite;
    var t := Overwrite(Stripped(s, d), d + 4, mac);
    var r := Restored(t, d, s[d + 14..d + 16]);
    forall k | 0 <= k < |s| ensures r[k] == Overwrite(s, d, mac)[k] {
    }
  }

  lemma RestoreUndoesStripUntouched(s: seq<byte>, d: nat)
    requires d + 16 <= |s| && Tagged(s, d)
    ensures Restored(Stripped(s, d), d, s[d + 14..d + 16]) == s
  {
    hide Overwrite;
    var mac: Mac := s[d..d + 6];
    RestoreUndoesStrip(s, d, mac);
    SameBytes(Overwrite(Stripped(s, d), d + 4, mac), Stripped(s, d));
    SameBytes(Overwrite(s, d, mac), s);
  }

  lemma SameBytes(a: seq<byte>, b: seq<byte>)
    requires |a| == |b| && forall k :: 0 <= k < |a| ==> a[k] == b[k]
    ensures a == b
  {
  }

  /** The overlapping word moves that take the tag out, and skb_pull. */
  method StripTag(skb: Skb)
    requires skb.Valid() && skb.len >= 4 && skb.data + 16 <= skb.buf.Length
    modifies skb`data, skb`len, skb.buf
    ensures skb.buf[..] == Stripped(old(skb.buf[..]), old(skb.data))
    ensures skb.data == old(skb.data) + 4 && skb.len == old(skb.len) - 4
  {
    hide Overwrite;
    ghost var was := skb.buf[..];
    var d := skb.data;
    var i := 0;
    while i < 6
      modifies skb.buf
      invariant 0 <= i <= 6
      invariant forall k :: d + 16 - 2 * i <= k < d + 16 ==> skb.buf[k] == was[k - 4]
      invariant forall k :: 0 <= k < d + 16 - 2 * i || d + 16 <= k < skb.buf.Length ==> skb.buf[k] == was[k]
    {
      var at := d + 12 + 2 - i * 2;
      skb.buf[at], skb.buf[at + 1] := skb.buf[at - 4], skb.buf[at - 3];
      i := i + 1;
    }
    SameBytes(skb.buf[..], Stripped(was, d));
    skb.data := skb.data + 4;
    skb.len := skb.len - 4;
  }

  lemma RestoredBytes(r: seq<byte>, was: seq<byte>, d: nat, tci0: byte, tci1: byte)
    requires |r| == |was| && d + 16 <= |was| && r[d + 12..d + 16] == [0x81, 0x00, tci0, tci1]
    requires forall k :: d <= k < d + 12 ==> r[k] == was[k + 4]
    requires forall k :: 0 <= k < d || d + 16 <= k < |r| ==> r[k] == was[k]
    ensures r == Restored(was, d, [tci0, tci1])
  {
    hide Overwrite;
    SameBytes(r, Restored(was, d, [tci0, tci1]));
  }

  /** skb_push and the word moves that make room for the tag and write it. */
  method RestoreTag(skb: Skb, tci0: byte, tci1: byte)
    requires skb.Valid() && skb.data >= 4 && skb.data + 12 <= skb.buf.Length
    modifies skb`data, skb`len, skb.buf
    ensures skb.data == old(skb.data) - 4 && skb.len == old(skb.len) + 4
    ensures skb.buf[..] == Restored(old(skb.buf[..]), skb.data, [tci0, tci1])
  {
    hide Restored;
    ghost var was := skb.buf[..];
    skb.data := skb.data - 4;
    skb.len := skb.len + 4;
    var d := skb.data;
    var i := 0;
    while i < 6
      modifies skb.buf
      invariant 0 <= i <= 6
      invariant forall k :: d <= k < d + 2 * i ==> skb.buf[k] == was[k + 4]
      invariant forall k :: 0 <= k < d || d + 2 * i <= k < skb.buf.Length ==> skb.buf[k] == was[k]
    {
      skb.buf[d + i * 2], skb.buf[d + i * 2 + 1] := skb.buf[d + 4 + i * 2], skb.buf[d + 5 + i * 2];
      i := i + 1;
    }
    skb.buf[d + 12], skb.buf[d + 13] := 0x81, 0x00;
    skb.buf[d + 14], skb.buf[d + 15] := tci0, tci1;
    RestoredBytes(skb.buf[..], was, d, tci0, tci1);
  }

  // ----- What the bridge makes of a frame without tag at offset `e` -----

  predicate IsIpv4(t: seq<byte>, e: nat)
    requires e + 14 <= |t|
  {
    t[e + 12] == 0x08 && t[e + 13] == 0x00
  }

  /** The protocols whose lookup branch is modelled: IPv4, EAP, C-Media, and those the bridge does not know. */
  predicate Modelled(t: seq<byte>, e: nat)
    requires e + 14 <= |t|
  {
    (t[e + 12], t[e + 13]) !in
      {(0x08, 0x06), (0x81, 0x37), (0x80, 0x9B), (0x80, 0xF3), (0x88, 0x63), (0x88, 0x64), (0x86, 0xDD)}
  }

  /** By EtherType: all but ARP, IPX, AppleTalk and its ARP, PPPoE discovery and session, and IPv6. */
  lemma ModelledIs(t: seq<byte>, e: nat)
    requires e + 14 <= |t|
    ensures var ethertype := t[e + 12] as int * 0x100 + t[e + 13] as int;
            Modelled(t, e) <==> ethertype !in {0x0806, 0x8137, 0x809b, 0x80f3, 0x8863, 0x8864, 0x86dd}
  {
  }

  /** The test for a malformed IPv4 header; both pointers carry the 14 bytes of the Ethernet header. */
  predicate MalformedIp(t: seq<byte>, e: nat, len: nat)
    requires e + 34 <= |t|
  {
    t[e + 14] % 16 * 4 >= len
  }

  /** The protocols nat25_db_handle leaves alone without refusing them: EAP and C-Media. */
  predicate Passed(t: seq<byte>, e: nat)
    requires e + 14 <= |t|
  {
    (t[e + 12], t[e + 13]) in {(0x88, 0x8e), (0xe2, 0xae), (0xe2, 0xaf)}
  }

  /** The frames of the modelled protocols for which nat25_db_handle returns -1. */
  predicate Refused(t: seq<byte>, e: nat, len: nat)
    requires e + 34 <= |t|
  {
    if IsIpv4(t, e) then MalformedIp(t, e, len) else !Passed(t, e)
  }

  function DestIp(t: seq<byte>, e: nat): (ip: seq<byte>)
    requires e + 34 <= |t|
    ensures |ip| == 4
  {
    t[e + 30..e + 34]
  }

  const BROADCAST: Mac := [0xff, 0xff, 0xff, 0xff, 0xff, 0xff]

  /** What a bridge decides by: the records of its table and their age limit, the shortcut, and its settings. */
  datatype Net = Net(
    view: seq<seq<Rec>>, limit: u32, shortcut: Shortcut, nat25Disable: bool, shortcutDisable: bool,
    brMac: Mac, brIp: seq<byte>)

  /** The record of an address. */
  function RecordOf(b: Net, a: NetAddr): Option<Rec>
    requires |b.view| == HASH_SIZE
  {
    Lookup(b.view[Hash(a)], a)
  }

  /** Where a frame to an unknown address goes: to all, if the address ends in 255, else to the bridge. */
  function Unknown(last: byte, brMac: Mac, ownMac: Mac): Mac {
    if last == 0xff then BROADCAST else if brMac == NO_MAC then ownMac else brMac
  }

  /** The new destination nat25_db_handle gives an IPv4 frame, if it changes it; `ownMac` is the bridge's. */
  function IpDestination(b: Net, t: seq<byte>, e: nat, len: nat, now: u32, ownMac: Mac): Option<Mac>
    requires e + 34 <= |t| && |b.view| == HASH_SIZE
  {
    var r := RecordOf(b, Ipv4Addr(DestIp(t, e)));
    if MalformedIp(t, e, len) then None
    else if r.Some? then (if Expired(r.value.ageing, now, b.limit) then None else Some(r.value.mac))
    else Some(Unknown(t[e + 33], b.brMac, ownMac))
  }

  predicate ViaShortcut(b: Net, t: seq<byte>, e: nat)
    requires e + 34 <= |t|
  {
    !b.nat25Disable && !b.shortcutDisable && IsIpv4(t, e) && b.shortcut.ip == DestIp(t, e)
  }

  /** Whether nat25_db_handle is called at all. */
  predicate LooksUp(b: Net, t: seq<byte>, e: nat)
    requires e + 34 <= |t|
  {
    !ViaShortcut(b, t, e) && (!b.nat25Disable || (IsIpv4(t, e) && b.brIp == DestIp(t, e)))
  }

  /** The destination nat25_handle_frame writes, if it writes one. */
  function Destination(b: Net, t: seq<byte>, e: nat, len: nat, now: u32, ownMac: Mac): Option<Mac>
    requires e + 34 <= |t| && |b.view| == HASH_SIZE
  {
    if ViaShortcut(b, t, e) then Some(b.shortcut.mac)
    else if LooksUp(b, t, e) && IsIpv4(t, e) then IpDestination(b, t, e, len, now, ownMac)
    else None
  }

  /** The chains after a frame that was looked up: a lookup that hit counts a use. */
  function Counted(b: Net, t: seq<byte>, e: nat, len: nat, now: u32): seq<seq<Rec>>
    requires e + 34 <= |t| && |b.view| == HASH_SIZE
  {
    var a := Ipv4Addr(DestIp(t, e));
    if IsIpv4(t, e) && !MalformedIp(t, e, len)
    then b.view[Hash(a) := Touch(b.view[Hash(a)], a, now, b.limit)]
    else b.view
  }

  function ViewAfter(b: Net, t: seq<byte>, e: nat, len: nat, now: u32): seq<seq<Rec>>
    requires e + 34 <= |t| && |b.view| == HASH_SIZE
  {
    if LooksUp(b, t, e) then Counted(b, t, e, len, now) else b.view
  }

  /** A destination written over the first six bytes of the frame, or not. */
  function Written(s: seq<byte>, d: nat, m: Option<Mac>): (r: seq<byte>)
    requires d + 6 <= |s|
    ensures |r| == |s|
  {
    if m.Some? then Overwrite(s, d, m.value) else s
  }

  lemma RestoreUndoesWritten(s: seq<byte>, d: nat, m: Option<Mac>)
    requires d + 16 <= |s| && Tagged(s, d)
    ensures Restored(Written(Stripped(s, d), d + 4, m), d, s[d + 14..d + 16]) == Written(s, d, m)
  {
    hide Stripped, Restored, Overwrite;
    if m.Some? { RestoreUndoesStrip(s, d, m.value); } else { RestoreUndoesStripUntouched(s, d); }
  }

  lemma StrippedKeepsRest(s: seq<byte>, d: nat, k: nat)
    requires d + 16 <= k < |s|
    ensures Stripped(s, d)[k] == s[k]
  {
  }

  class Bridge {
    const table: Table
    var nat25Disable: bool
    var shortcutDisable: bool
    var brMac: Mac
    var brIp: seq<byte>

    constructor (table: Table, brMac: Mac, brIp: seq<byte>)
      ensures this.table == table && this.brMac == brMac && this.brIp == brIp && !nat25Disable && !shortcutDisable
    {
      this.table, this.brMac, this.brIp := table, brMac, brIp;
      nat25Disable, shortcutDisable := false, false;
    }

    ghost predicate Valid()
      reads this, table, table.nethash
    {
      table.Valid() && |table.chains| == HASH_SIZE
    }

    ghost function Now(): (b: Net)
      reads this, table
      ensures |b.view| == |table.chains| && b.shortcut == table.Current()
    {
      Net(table.View(), table.limit, table.Current(), nat25Disable, shortcutDisable, brMac, brIp)
    }

    /** nat25_db_handle with method NAT25_LOOKUP. */
    method DbLookup(skb: Skb, now: u32, ownMac: Mac) returns (ret: int)
      requires Valid() && skb.data + 34 <= skb.buf.Length && Modelled(skb.buf[..], skb.data)
      requires skb.buf as object != table.nethash
      modifies table`mem, this`brMac, skb.buf
      ensures Valid() && table.chains == old(table.chains)
      ensures var s, d, b := old(skb.buf[..]), skb.data, old(Now());
              && skb.buf[..] == Written(s, d,
                               if IsIpv4(s, d) then IpDestination(b, s, d, skb.len, now, ownMac) else None)
              && table.View() == Counted(b, s, d, skb.len, now)
              && (ret == -1 <==> Refused(s, d, skb.len))
      ensures ret == -1 || ret == 0
    {
      hide Overwrite, Hash, Expired, Table.Valid, Table.View, Ipv4Addr, Touch, Lookup;
      ghost var was := skb.buf[..];
      var d := skb.data;
      if skb.buf[d + 12] == 0x08 && skb.buf[d + 13] == 0x00 {
        if skb.buf[d + 14] % 16 * 4 >= skb.len {
          return -1;
        }
        LookupIp(skb, now, ownMac);
        return 0;
      }
      if (skb.buf[d + 12] == 0x88 && skb.buf[d + 13] == 0x8e)
         || (skb.buf[d + 12] == 0xe2 && (skb.buf[d + 13] == 0xae || skb.buf[d + 13] == 0xaf)) {
        return 0;
      }
      return -1;
    }

    /** The lookup of a well-formed IPv4 frame. */
    method LookupIp(skb: Skb, now: u32, ownMac: Mac)
      requires Valid() && skb.data + 34 <= skb.buf.Length && skb.buf as object != table.nethash
      requires IsIpv4(skb.buf[..], skb.data) && !MalformedIp(skb.buf[..], skb.data, skb.len)
      modifies table`mem, this`brMac, skb.buf
      ensures Valid() && table.chains == old(table.chains)
      ensures var s, d, b := old(skb.buf[..]), skb.data, old(Now());
              && skb.buf[..] == Written(s, d, IpDestination(b, s, d, skb.len, now, ownMac))
              && table.View() == Counted(b, s, d, skb.len, now)
    {
      hide Overwrite, Hash, Expired, Table.Valid, Table.View, Ipv4Addr, Touch, Lookup, MalformedIp, Unknown;
      ghost var was := skb.buf[..];
      var d := skb.data;
      var ip := skb.buf[d + 30..d + 34];
      assert ip == DestIp(was, d);
      var found := table.LookupAndReplace(skb, Ipv4Addr(ip), now);
      if found != 1 {
        assert skb.buf[..] == was;
        ForwardUnknown(skb, ownMac);
      }
    }

    /** The destination of an IPv4 frame whose address the table does not have. */
    method ForwardUnknown(skb: Skb, ownMac: Mac)
      requires skb.data + 34 <= skb.buf.Length
      modifies this`brMac, skb.buf
      ensures var s, d := old(skb.buf[..]), skb.data;
              skb.buf[..] == Overwrite(s, d, Unknown(s[d + 33], old(brMac), ownMac))
    {
      hide Overwrite;
      if skb.buf[skb.data + 33] == 0xff {
        skb.Write(0, BROADCAST);
      } else {
        if brMac == NO_MAC {
          brMac := ownMac;
        }
        skb.Write(0, brMac);
      }
    }

    /** nat25_handle_frame on a unicast frame, seen without its tag: at `d`, or `d + 4` once the tag is out. */
    method HandleUntagged(skb: Skb, now: u32, ownMac: Mac) returns (retval: int)
      requires Valid() && skb.data + 34 <= skb.buf.Length && Modelled(skb.buf[..], skb.data)
      requires skb.buf as object != table.nethash
      modifies table`mem, this`brMac, skb.buf
      ensures Valid() && table.chains == old(table.chains)
      ensures var s, d, b := old(skb.buf[..]), skb.data, old(Now());
              && skb.buf[..] == Written(s, d, Destination(b, s, d, skb.len, now, ownMac))
              && table.View() == ViewAfter(b, s, d, skb.len, now)
              && (retval == -1 <==> LooksUp(b, s, d) && Refused(s, d, skb.len))
      ensures retval == -1 || retval == 0
    {
      hide Overwrite, Table.Valid, Table.View, MalformedIp, Refused, Modelled, Counted, IpDestination;
      retval := 0;
      ghost var was := skb.buf[..];
      var d := skb.data;
      var isIp := skb.buf[d + 12] == 0x08 && skb.buf[d + 13] == 0x00;
      var ip := skb.buf[d + 30..d + 34];
      assert ip == DestIp(was, d) && isIp == IsIpv4(was, d);
      if !nat25Disable {
        if !shortcutDisable && isIp && table.scdbIp == ip {
          skb.Write(0, table.scdbMac);
        } else {
          retval := DbLookup(skb, now, ownMac);
        }
      } else {
        if isIp && brIp == ip {
          retval := DbLookup(skb, now, ownMac);
        }
      }
    }

    /** The same on a tagged frame: tag out, lookup, tag back. */
    method HandleTagged(skb: Skb, now: u32, ownMac: Mac) returns (retval: int)
      requires Valid() && skb.Valid() && skb.len >= 14 && skb.data + 38 <= skb.buf.Length
      requires Tagged(skb.buf[..], skb.data) && Modelled(skb.buf[..], skb.data + 4)
      requires skb.buf as object != table.nethash && skb as object != this && skb as object != table
      modifies table`mem, this`brMac, skb`data, skb`len, skb.buf
      ensures Valid() && table.chains == old(table.chains) && skb.data == old(skb.data) && skb.len == old(skb.len)
      ensures var s, d, b := old(skb.buf[..]), skb.data, old(Now());
              var t, len := Stripped(s, d), skb.len - 4;
              && skb.buf[..] == Written(s, d, Destination(b, t, d + 4, len, now, ownMac))
              && table.View() == ViewAfter(b, t, d + 4, len, now)
              && (retval == -1 <==> LooksUp(b, t, d + 4) && Refused(t, d + 4, len))
    {
      hide Valid, Now, Destination, ViewAfter, LooksUp, Refused, Restored, Stripped, Written, Table.View;
      ghost var s, d, b := skb.buf[..], skb.data, Now();
      assert b.view == table.View() && |b.view| == HASH_SIZE by { HasView(); }
      StrippedKeepsRest(s, d, d + 16);
      StrippedKeepsRest(s, d, d + 17);
      var tci0, tci1 := skb.buf[skb.data + 14], skb.buf[skb.data + 15];
      assert s[d + 14..d + 16] == [tci0, tci1];
      StripTag(skb);
      retval := HandleUntagged(skb, now, ownMac);
      RestoreTag(skb, tci0, tci1);
      RestoreUndoesWritten(s, d, Destination(b, Stripped(s, d), d + 4, skb.len - 4, now, ownMac));
    }

    lemma HasView()
      requires Valid()
      ensures Now().view == table.View() && |Now().view| == HASH_SIZE
    {
    }

    /**
     * nat25_handle_frame. A frame leaves with its tag, source and payload as they came: at most the six
     * destination bytes differ, and they are what the bridge makes of the frame without its tag.
     */
    method HandleFrame(skb: Skb, now: u32, ownMac: Mac) returns (ret: int)
      requires Valid() && skb.Valid() && skb.len >= 14 && skb.data + 38 <= skb.buf.Length
      requires Modelled(skb.buf[..], if Tagged(skb.buf[..], skb.data) then skb.data + 4 else skb.data)
      requires skb.buf as object != table.nethash && skb as object != this && skb as object != table
      modifies table`mem, this`brMac, skb`data, skb`len, skb.buf
      ensures Valid() && skb.data == old(skb.data) && skb.len == old(skb.len)
      ensures old(skb.buf[skb.data]) % 2 == 1 ==>
                ret == 0 && skb.buf[..] == old(skb.buf[..]) && table.View() == old(table.View())
      ensures old(skb.buf[skb.data]) % 2 == 0 ==>
                var s, d, b := old(skb.buf[..]), skb.data, old(Now());
                var tagged := Tagged(s, d);
                var t := if tagged then Stripped(s, d) else s;
                var e, len := if tagged then d + 4 else d, if tagged then skb.len - 4 else skb.len;
                && skb.buf[..] == Written(s, d, Destination(b, t, e, len, now, ownMac))
                && table.View() == ViewAfter(b, t, e, len, now)
                && (ret == -1 <==> LooksUp(b, t, e) && Refused(t, e, len))
    {
      hide Valid, Now, Destination, ViewAfter, LooksUp, Refused, Stripped, Written, Modelled, Table.View;
      assert |Now().view| == HASH_SIZE by { HasView(); }
      if skb.buf[skb.data] % 2 == 1 {
        return 0;
      }
      var retval: int;
      if skb.buf[skb.data + 12] == 0x81 && skb.buf[skb.data + 13] == 0x00 {
        retval := HandleTagged(skb, now, ownMac);
      } else {
        retval := HandleUntagged(skb, now, ownMac);
      }
      if retval == -1 {
        return -1;
      }
      return 0;
    }

    /** A shortcut that has an entry serves a client the table knows. */
    lemma ViaShortcutIsLive(t: seq<byte>, e: nat)
      requires Valid() && e + 34 <= |t| && ViaShortcut(Now(), t, e) && table.scdbEntry != 0
      ensures RecordOf(Now(), Ipv4Addr(DestIp(t, e))).Some?
    {
      table.ShortcutHasRecord();
      hide Hash, Lookup, Table.View, Ipv4Addr, DestIp;
    }

    /**
     * A shortcut is to spare the lookup. With an entry, it does to the frame what the lookup would if and only if
     * the frame is sound, the record not expired, and the MAC the recorded one.
     */
    lemma ShortcutIsLookupIff(t: seq<byte>, e: nat, len: nat, now: u32, ownMac: Mac)
      requires Valid() && e + 34 <= |t| && ViaShortcut(Now(), t, e) && table.scdbEntry != 0
      ensures table.scdbEntry in table.mem && |Now().view| == HASH_SIZE
      ensures Destination(Now(), t, e, len, now, ownMac)
              == Destination(Now().(shortcutDisable := true), t, e, len, now, ownMac)
              <==>
              && !MalformedIp(t, e, len) && table.Agrees()
              && !Expired(table.mem[table.scdbEntry].rec.ageing, now, table.limit)
    {
      HasView();
      table.EntryIsRecord();
      hide Hash, Lookup, Table.View, Ipv4Addr, DestIp, Expired, MalformedIp, Unknown;
    }
  }

  /**
   * A frame to an address without record, and not the one in the shortcut, goes to all if the address ends in
   * 255, and else to the bridge, or to the device itself while the bridge's MAC is not known.
   */
  lemma UnrecordedDestination(b: Net, t: seq<byte>, e: nat, len: nat, now: u32, ownMac: Mac)
    requires e + 34 <= |t| && |b.view| == HASH_SIZE && !b.nat25Disable
    requires t[e + 12] == 0x08 && t[e + 13] == 0x00 && t[e + 14] % 16 * 4 < len
    requires b.shortcut.ip != t[e + 30..e + 34] && MacOf(b.view, Ipv4Addr(t[e + 30..e + 34])) == None
    ensures Destination(b, t, e, len, now, ownMac)
            == Some(if t[e + 33] == 0xff then [0xff, 0xff, 0xff, 0xff, 0xff, 0xff]
                    else if b.brMac == [0, 0, 0, 0, 0, 0] then ownMac else b.brMac)
  {
    hide Hash, Ipv4Addr, Lookup;
  }

  /** A frame to an address whose record is `d` ticks old goes to the recorded MAC if `d` is below the limit. */
  lemma RecordedDestination(b: Net, t: seq<byte>, e: nat, len: nat, d: nat, ownMac: Mac)
    requires e + 34 <= |t| && |b.view| == HASH_SIZE && !b.nat25Disable && d < 0x8000_0000 && b.limit <= 0x8000_0000
    requires t[e + 12] == 0x08 && t[e + 13] == 0x00 && t[e + 14] % 16 * 4 < len
    requires b.shortcut.ip != t[e + 30..e + 34] && RecordOf(b, Ipv4Addr(t[e + 30..e + 34])).Some?
    ensures var r := RecordOf(b, Ipv4Addr(t[e + 30..e + 34])).value;
            Destination(b, t, e, len, Wrap32(r.ageing + d), ownMac) == if d < b.limit then Some(r.mac) else None
  {
    ExpiredIff(RecordOf(b, Ipv4Addr(t[e + 30..e + 34])).value.ageing, d, b.limit);
    hide Hash, Ipv4Addr, Lookup, Expired, Wrap32;
  }

  /** A shortcut that records no client takes the frames to 0.0.0.0, and those only, to the MAC of no one. */
  lemma EmptyShortcut(b: Net, t: seq<byte>, e: nat, len: nat, now: u32, ownMac: Mac)
    requires e + 34 <= |t| && |b.view| == HASH_SIZE && b.shortcut == NO_SHORTCUT
    ensures ViaShortcut(b, t, e)
            <==> !b.nat25Disable && !b.shortcutDisable && IsIpv4(t, e) && t[e + 30..e + 34] == [0, 0, 0, 0]
    ensures ViaShortcut(b, t, e) ==> Destination(b, t, e, len, now, ownMac) == Some([0, 0, 0, 0, 0, 0])
  {
  }

  // ----- A shortcut that outlives its client -----

  const CLIENT: Mac := [2, 0, 0, 0, 0, 1]
  const NEWCOMER: Mac := [2, 0, 0, 0, 0, 2]

  /** A client without record follows the recorded one, then the table is cleaned up: the recorded one stays. */
  method LeaveStale(table: Table, mac: Mac, ip: seq<byte>, now: u32)
    requires table.Valid() && |ip| == 4 && table.scdbMac != mac && !Has(table.View(), Ipv4Addr(ip))
    modifies table, table.nethash
    ensures table.Valid() && table.mem == map[] && forall h :: 0 <= h < HASH_SIZE ==> table.View()[h] == []
    ensures table.Current() == Shortcut(0, old(table.scdbMac), old(table.scdbIp))
  {
    hide Hash, Has, Table.Valid, Table.View, Ipv4Addr;
    var found := table.UpdateShortcut(mac, ip, now);
    table.Cleanup();
  }

  /** A table into which one record was put has that record only. */
  lemma OneRecord(v: seq<seq<Rec>>, a: NetAddr, mac: Mac, now: u32, b: NetAddr)
    requires |v| == HASH_SIZE && forall h :: 0 <= h < HASH_SIZE ==> v[h] == []
    ensures Has(v[Hash(a) := Put(v[Hash(a)], a, mac, now)], b) <==> a == b
    ensures Lookup(v[Hash(a)], a) == None
  {
    hide Hash;
    PutIsUpdate([], a, mac, now, b);
  }

  /** An IPv4 header with the destination address `ip`, after an Ethernet header. */
  function HeaderTo(ip: seq<byte>): (t: seq<byte>)
    requires |ip| == 4
    ensures |t| == 34 && IsIpv4(t, 0) && DestIp(t, 0) == ip && !MalformedIp(t, 0, 34)
  {
    seq(12, _ => 0) + [0x08, 0x00, 0x45] + seq(15, _ => 0) + ip
  }

  /**
   * A client is recorded and becomes the shortcut, another without record sends, the table is cleaned up: frames
   * to the first are still rewritten to it at any later time, although the table has no record of it.
   */
  method ServesFreedClient() returns (bridge: Bridge, t: seq<byte>)
    ensures bridge.Valid() && bridge.table.mem == map[] && |t| == 34 && IsIpv4(t, 0)
    ensures RecordOf(bridge.Now(), Ipv4Addr(DestIp(t, 0))) == None
    ensures forall now: u32, ownMac: Mac :: Destination(bridge.Now(), t, 0, 34, now, ownMac) == Some(CLIENT)
  {
    var table := new Table(75000);
    var ip, other := [10, 0, 0, 1], [10, 0, 0, 2];
    assert Ipv4Addr(ip)[10] == 1 && Ipv4Addr(other)[10] == 2;
    hide Hash, Has, Put, Table.Valid, Table.View, Ipv4Addr, Lookup, HeaderTo, IsIpv4, DestIp;
    table.HasBucketsOfView();
    OneRecord(table.View(), Ipv4Addr(ip), CLIENT, 0, Ipv4Addr(ip));
    OneRecord(table.View(), Ipv4Addr(ip), CLIENT, 0, Ipv4Addr(other));
    table.Insert(CLIENT, Ipv4Addr(ip), 0, 1);
    var found := table.UpdateShortcut(CLIENT, ip, 0);
    LeaveStale(table, NEWCOMER, other, 0);
    t := HeaderTo(ip);
    bridge := new Bridge(table, NEWCOMER, other);
    EmptyHasNone(table, Ipv4Addr(ip));
  }

  /** Two clients send from one address: the shortcut has the newer, the table the older. */
  method MoveClient(table: Table, ip: seq<byte>)
    requires table.Valid() && table.mem == map[] && |ip| == 4 && ip != NO_IP && table.scdbMac == NO_MAC
    requires forall h :: 0 <= h < HASH_SIZE ==> table.View()[h] == []
    modifies table, table.nethash
    ensures table.Valid() && table.scdbEntry != 0 && table.scdbMac == NEWCOMER && table.scdbIp == ip
    ensures MacOf(table.View(), Ipv4Addr(ip)) == Some(CLIENT)
    ensures table.scdbEntry in table.mem && table.mem[table.scdbEntry].rec.ageing == 1
  {
    hide Hash, Table.Valid, Table.View, Ipv4Addr, Lookup;
    EmptyHasNone(table, Ipv4Addr(ip));
    table.ClientFrame(CLIENT, ip, false, 0, 1);
    table.ClientFrame(NEWCOMER, ip, false, 1, 2);
  }

  /** So frames to the address go to the newer, and would go to the older without the shortcut. */
  method MovedClient() returns (bridge: Bridge, t: seq<byte>)
    ensures bridge.Valid() && |t| == 34 && IsIpv4(t, 0) && |bridge.Now().view| == HASH_SIZE
    ensures forall ownMac: Mac ::
              && Destination(bridge.Now(), t, 0, 34, 1, ownMac) == Some(NEWCOMER)
              && Destination(bridge.Now().(shortcutDisable := true), t, 0, 34, 1, ownMac) == Some(CLIENT)
  {
    var table := new Table(75000);
    var ip := [10, 0, 0, 1];
    hide Hash, MacOf, Table.Valid, Table.View, Ipv4Addr, HeaderTo, IsIpv4, DestIp, MalformedIp, Destination, Bridge.Now;
    MoveClient(table, ip);
    t := HeaderTo(ip);
    bridge := new Bridge(table, NEWCOMER, ip);
    TwoDestinations(bridge, t);
  }

  lemma TwoDestinations(bridge: Bridge, t: seq<byte>)
    requires bridge.Valid() && bridge.table.scdbEntry != 0 && bridge.table.scdbMac == NEWCOMER
    requires bridge.table.limit == 75000 && !bridge.nat25Disable && !bridge.shortcutDisable
    requires |t| == 34 && IsIpv4(t, 0) && !MalformedIp(t, 0, 34) && bridge.table.scdbIp == DestIp(t, 0)
    requires MacOf(bridge.table.View(), Ipv4Addr(DestIp(t, 0))) == Some(CLIENT)
    requires bridge.table.scdbEntry in bridge.table.mem && bridge.table.mem[bridge.table.scdbEntry].rec.ageing == 1
    ensures |bridge.Now().view| == HASH_SIZE
    ensures forall ownMac: Mac ::
              && Destination(bridge.Now(), t, 0, 34, 1, ownMac) == Some(NEWCOMER)
              && Destination(bridge.Now().(shortcutDisable := true), t, 0, 34, 1, ownMac) == Some(CLIENT)
  {
    bridge.HasView();
    bridge.table.EntryIsRecord();
    hide Hash, Ipv4Addr, Lookup, IsIpv4, DestIp, MalformedIp, Unknown, Table.View, Table.Valid;
    assert !Expired(1, 1, 75000);
  }

  /** The table has no record of the address, nor its shortcut. */
  ghost predicate Stranger(table: Table, ip: seq<byte>)
    requires |ip| == 4
    reads table
  {
    MacOf(table.View(), Ipv4Addr(ip)) == None && table.scdbIp != ip
  }

  /** A client sends from another address. */
  method OneOther(table: Table, mac: Mac, from: seq<byte>, now: u32, p: Ptr, ip: seq<byte>)
    requires table.Valid() && p !in table.mem && |from| == |ip| == 4 && from != ip && ip != NO_IP
    requires Stranger(table, ip)
    modifies table, table.nethash
    ensures table.Valid() && Stranger(table, ip) && table.mem.Keys <= old(table.mem.Keys) + {p}
  {
    hide Hash, Table.Valid, Table.View, Ipv4Addr, Has, MacOf;
    table.ClientFrame(mac, from, false, now, p);
  }

  /**
   * Clients send from any addresses at any times; `memory` is where new entries go. An address none of them sent
   * from stays without record, so that frames to it go to no client.
   */
  method Others(table: Table, froms: seq<(Mac, seq<byte>, u32)>, memory: seq<Ptr>, ip: seq<byte>)
    requires table.Valid() && |froms| == |memory| && |ip| == 4 && ip != NO_IP && Stranger(table, ip)
    requires forall i :: 0 <= i < |froms| ==> |froms[i].1| == 4 && froms[i].1 != ip
    requires forall i :: 0 <= i < |froms| ==> memory[i] !in table.mem && memory[i] !in memory[..i]
    modifies table, table.nethash
    ensures table.Valid() && Stranger(table, ip)
  {
    hide Table.Valid, Stranger;
    var i := 0;
    while i < |froms|
      invariant 0 <= i <= |froms| && table.Valid() && Stranger(table, ip)
      invariant forall k :: i <= k < |froms| ==> memory[k] !in table.mem
    {
      assert forall k :: i < k < |froms| ==> memory[k] != memory[i] by {
        forall k | i < k < |froms| ensures memory[k] != memory[i] {
          assert memory[..k][i] == memory[i];
        }
      }
      OneOther(table, froms[i].0, froms[i].1, froms[i].2, memory[i], ip);
      i := i + 1;
    }
  }

  lemma StrangersDestination(bridge: Bridge, t: seq<byte>, e: nat, len: nat, now: u32, ownMac: Mac)
    requires bridge.Valid() && e + 34 <= |t| && !bridge.nat25Disable
    requires t[e + 12] == 0x08 && t[e + 13] == 0x00 && t[e + 14] % 16 * 4 < len
    requires Stranger(bridge.table, t[e + 30..e + 34])
    ensures |bridge.Now().view| == HASH_SIZE
    ensures Destination(bridge.Now(), t, e, len, now, ownMac)
            == Some(if t[e + 33] == 0xff then [0xff, 0xff, 0xff, 0xff, 0xff, 0xff]
                    else if bridge.brMac == [0, 0, 0, 0, 0, 0] then ownMac else bridge.brMac)
  {
    bridge.HasView();
    hide Hash, Table.View, Ipv4Addr, MacOf, Destination;
    UnrecordedDestination(bridge.Now(), t, e, len, now, ownMac);
  }

  /** In an empty table every address but 0.0.0.0 is a stranger's. */
  lemma EmptyStrangers(table: Table, ip: seq<byte>)
    requires table.Valid() && |ip| == 4 && table.scdbIp != ip
    requires forall h :: 0 <= h < HASH_SIZE ==> table.View()[h] == []
    ensures Stranger(table, ip)
  {
    EmptyHasNone(table, Ipv4Addr(ip));
    hide Hash, Table.View, Table.Valid;
  }

  lemma EmptyHasNone(table: Table, a: NetAddr)
    requires table.Valid() && forall h :: 0 <= h < HASH_SIZE ==> table.View()[h] == []
    ensures |table.View()| == |table.chains| == HASH_SIZE && Lookup(table.View()[Hash(a)], a) == None
  {
    table.HasBucketsOfView();
    hide Hash, Table.View, Table.Valid;
  }
}
