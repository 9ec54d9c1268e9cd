/**
 * The NAT2.5 hash table of aic_br_ext.c: entries chained through next_hash and pprev_hash. Memory is explicit:
 * a pointer may be followed only while its entry is allocated, and null is 0.
 */
module NatTable {
  import opened Words
  import opened Wrappers
  import opened NatRecords
  import opened SkBuff

  type Ptr = nat

  /** What `pprev_hash` points at: a bucket head, or the next_hash field of another entry. */
  datatype Link = NoLink | Bucket(h: nat) | NextOf(p: Ptr)

  /** struct nat25_network_db_entry. */
  datatype Entry = Entry(next: Ptr, pprev: Link, rec: Rec)

  type Memory = map<Ptr, Entry>

  function At(c: seq<Ptr>, k: nat): Ptr {
    if k < |c| then c[k] else 0
  }

  /**
   * Entry k of the chain `c` of bucket `h`: next reaches the following entry, pprev points at the very link
   * that reaches this one, and the bucket is the one the hash names.
   */
  ghost predicate Node(mem: Memory, h: nat, c: seq<Ptr>, k: nat)
    requires k < |c|
  {
    && c[k] in mem
    && mem[c[k]].next == At(c, k + 1)
    && mem[c[k]].pprev == (if k == 0 then Bucket(h) else NextOf(c[k - 1]))
    && Hash(mem[c[k]].rec.addr) == h
  }

  ghost predicate Chain(mem: Memory, h: nat, c: seq<Ptr>) {
    && (forall j, k :: 0 <= j < k < |c| ==> c[j] != c[k])
    && (forall k :: 0 <= k < |c| ==> Node(mem, h, c, k))
  }

  /** Sixteen chains hang off the heads, and every allocated entry is in one of them. */
  ghost predicate Structure(mem: Memory, heads: seq<Ptr>, chains: seq<seq<Ptr>>) {
    && |heads| == |chains| == HASH_SIZE && 0 !in mem
    && (forall h :: 0 <= h < HASH_SIZE ==> heads[h] == At(chains[h], 0))
    && (forall h :: 0 <= h < HASH_SIZE ==> Chain(mem, h, chains[h]))
    && (forall p :: p in mem ==> p in chains[Hash(mem[p].rec.addr)])
  }

  function Recs(mem: Memory, c: seq<Ptr>): (r: seq<Rec>)
    ensures |r| == |c|
  {
    seq(|c|, k requires 0 <= k < |c| => if c[k] in mem then mem[c[k]].rec else NO_REC)
  }

  const NO_REC := Rec([0, 0, 0, 0, 0, 0, 0, 0, 0, 0, 0, 0, 0, 0, 0, 0, 0], [0, 0, 0, 0, 0, 0], 0, 0)

  /** An entry belongs to one chain only. */
  lemma Foreign(mem: Memory, heads: seq<Ptr>, chains: seq<seq<Ptr>>, h: nat, p: Ptr)
    requires Structure(mem, heads, chains) && h < HASH_SIZE && p in chains[h]
    ensures p in mem && p != 0 && Hash(mem[p].rec.addr) == h
  {
    hide Hash;
    var j :| 0 <= j < |chains[h]| && chains[h][j] == p;
    assert Chain(mem, h, chains[h]) && Node(mem, h, chains[h], j);
  }

  /** Work on the entries of one chain leaves the others as they are. */
  lemma OthersKept(mem: Memory, mem': Memory, heads: seq<Ptr>, chains: seq<seq<Ptr>>, h: nat, h': nat)
    requires Structure(mem, heads, chains) && h < HASH_SIZE && h' < HASH_SIZE && h != h'
    requires forall p :: p in mem && p !in chains[h] ==> p in mem' && mem'[p] == mem[p]
    ensures Chain(mem', h', chains[h']) && Recs(mem', chains[h']) == Recs(mem, chains[h'])
  {
    hide Hash;
    var c := chains[h'];
    assert Chain(mem, h', c);
    forall k | 0 <= k < |c| ensures Node(mem', h', c, k) && c[k] in mem && c[k] in mem' && mem'[c[k]] == mem[c[k]] {
      assert Node(mem, h', c, k);
      if c[k] in chains[h] { Foreign(mem, heads, chains, h, c[k]); }
    }
    assert Recs(mem', c) == Recs(mem, c);
  }

  function Records(mem: Memory, chains: seq<seq<Ptr>>): (v: seq<seq<Rec>>)
    ensures |v| == |chains|
  {
    seq(|chains|, h requires 0 <= h < |chains| => Recs(mem, chains[h]))
  }

  lemma RecordsUpdate(mem: Memory, mem': Memory, chains: seq<seq<Ptr>>, h: nat, c: seq<Ptr>)
    requires h < |chains|
    requires forall h' :: 0 <= h' < |chains| && h' != h ==> Recs(mem', chains[h']) == Recs(mem, chains[h'])
    ensures Records(mem', chains[h := c]) == Records(mem, chains)[h := Recs(mem', c)]
  {
  }

  // ----- The pointer surgery, as functions of memory and bucket heads -----

  /** __network_hash_link. */
  function LinkMem(mem: Memory, head: Ptr, p: Ptr, h: nat): Memory
    requires p in mem && (head != 0 ==> head in mem && head != p)
  {
    var m1 := mem[p := mem[p].(next := head)];
    var m2 := if head != 0 then m1[head := m1[head].(pprev := NextOf(p))] else m1;
    m2[p := m2[p].(pprev := Bucket(h))]
  }

  lemma HeadAllocated(mem: Memory, heads: seq<Ptr>, chains: seq<seq<Ptr>>, h: nat)
    requires Structure(mem, heads, chains) && h < HASH_SIZE
    ensures heads[h] == At(chains[h], 0) && |heads| == HASH_SIZE
    ensures heads[h] != 0 ==> heads[h] in mem && chains[h] != [] && chains[h][0] == heads[h]
    ensures heads[h] == 0 ==> chains[h] == []
  {
    if chains[h] != [] { Foreign(mem, heads, chains, h, chains[h][0]); }
  }

  /** The new chain. */
  lemma LinkChain(mem: Memory, h: nat, c: seq<Ptr>, p: Ptr, e: Entry)
    requires Chain(mem, h, c) && p !in mem && p != 0 && 0 !in mem && Hash(e.rec.addr) == h
    ensures At(c, 0) != 0 ==> At(c, 0) in mem
    ensures var mem' := LinkMem(mem[p := e], At(c, 0), p, h);
            Chain(mem', h, [p] + c) && Recs(mem', [p] + c) == [e.rec] + Recs(mem, c)
  {
    hide Hash;
    assert c != [] ==> Node(mem, h, c, 0);
    var d, mem' := [p] + c, LinkMem(mem[p := e], At(c, 0), p, h);
    forall k | 0 <= k < |c| ensures c[k] in mem && c[k] != p && (k > 0 ==> c[k] != c[0]) {
      assert Node(mem, h, c, k);
    }
    forall k | 0 <= k < |d| ensures Node(mem', h, d, k) {
      if k > 0 { assert Node(mem, h, c, k - 1); }
    }
    assert Recs(mem', d) == [e.rec] + Recs(mem, c);
  }

  lemma LinkKeeps(mem: Memory, heads: seq<Ptr>, chains: seq<seq<Ptr>>, p: Ptr, e: Entry, h: nat)
    requires Structure(mem, heads, chains) && p !in mem && p != 0 && h == Hash(e.rec.addr)
    ensures heads[h] != 0 ==> heads[h] in mem && heads[h] != p
    ensures var mem' := LinkMem(mem[p := e], heads[h], p, h);
            var d := [p] + chains[h];
            && Structure(mem', heads[h := p], chains[h := d])
            && Records(mem', chains[h := d]) == Records(mem, chains)[h := [e.rec] + Recs(mem, chains[h])]
  {
    hide Hash, Recs;
    HeadAllocated(mem, heads, chains, h);
    LinkChain(mem, h, chains[h], p, e);
    var mem' := LinkMem(mem[p := e], heads[h], p, h);
    forall h' | 0 <= h' < HASH_SIZE && h' != h
      ensures Chain(mem', h', chains[h']) && Recs(mem', chains[h']) == Recs(mem, chains[h'])
    {
      OthersKept(mem, mem', heads, chains, h, h');
    }
    RecordsUpdate(mem, mem', chains, h, [p] + chains[h]);
    hide Chain, Records;
  }

  /** __network_hash_unlink. */
  function UnlinkMem(mem: Memory, p: Ptr): Memory
    requires p in mem && (mem[p].next != 0 ==> mem[p].next in mem)
    requires mem[p].pprev.NextOf? ==> mem[p].pprev.p in mem
  {
    var e := mem[p];
    var m1 := if e.pprev.NextOf? then mem[e.pprev.p := mem[e.pprev.p].(next := e.next)] else mem;
    var m2 := if e.next != 0 then m1[e.next := m1[e.next].(pprev := e.pprev)] else m1;
    m2[p := m2[p].(next := 0, pprev := NoLink)]
  }

  function UnlinkHeads(mem: Memory, heads: seq<Ptr>, p: Ptr): seq<Ptr>
    requires p in mem && (mem[p].pprev.Bucket? ==> mem[p].pprev.h < |heads|)
  {
    if mem[p].pprev.Bucket? then heads[mem[p].pprev.h := mem[p].next] else heads
  }

  /** The pointers __network_hash_unlink follows are allocated. */
  ghost predicate Unlinkable(mem: Memory, h: nat, p: Ptr) {
    && p in mem && (mem[p].next != 0 ==> mem[p].next in mem)
    && (mem[p].pprev == Bucket(h) || (mem[p].pprev.NextOf? && mem[p].pprev.p in mem))
  }

  lemma CanUnlink(mem: Memory, h: nat, c: seq<Ptr>, k: nat)
    requires Chain(mem, h, c) && k < |c| && 0 !in mem
    ensures Unlinkable(mem, h, c[k]) && mem[c[k]].next == At(c, k + 1)
    ensures mem[c[k]].pprev == if k == 0 then Bucket(h) else NextOf(c[k - 1])
  {
    hide Hash;
    assert Node(mem, h, c, k);
    assert k > 0 ==> Node(mem, h, c, k - 1);
    assert k + 1 < |c| ==> Node(mem, h, c, k + 1);
  }

  /** What unlinking changes: the link that reached the entry, and the link back from the next one. */
  lemma UnlinkEffect(mem: Memory, h: nat, c: seq<Ptr>, k: nat, q: Ptr)
    requires Chain(mem, h, c) && k < |c| && 0 !in mem && q in mem && q != c[k]
    ensures Unlinkable(mem, h, c[k])
    ensures var mem' := UnlinkMem(mem, c[k]);
            && q in mem' && mem'[q].rec == mem[q].rec
            && mem'[q].next == (if k > 0 && q == c[k - 1] then At(c, k + 1) else mem[q].next)
            && mem'[q].pprev == (if k + 1 < |c| && q == c[k + 1] then mem[c[k]].pprev else mem[q].pprev)
  {
    CanUnlink(mem, h, c, k);
    assert k + 1 < |c| ==> c[k + 1] != 0 by { if k + 1 < |c| { CanUnlink(mem, h, c, k + 1); } }
    assert k > 0 && k + 1 < |c| ==> c[k - 1] != c[k + 1];
    hide Chain;
  }

  function Without(c: seq<Ptr>, k: nat): (d: seq<Ptr>)
    requires k < |c|
    ensures |d| == |c| - 1
  {
    c[..k] + c[k + 1..]
  }

  lemma UnlinkedNode(mem: Memory, h: nat, c: seq<Ptr>, k: nat, i: nat)
    requires Chain(mem, h, c) && k < |c| && 0 !in mem && i < |c| - 1
    ensures Unlinkable(mem, h, c[k])
    ensures var mem', d := UnlinkMem(mem, c[k]) - {c[k]}, Without(c, k);
            Node(mem', h, d, i) && d[i] in mem && mem'[d[i]].rec == mem[d[i]].rec
  {
    hide Hash;
    CanUnlink(mem, h, c, k);
    var j := if i < k then i else i + 1;
    assert Node(mem, h, c, j) && Without(c, k)[i] == c[j];
    assert c[j] != c[k] && (k > 0 && j != k - 1 ==> c[j] != c[k - 1])
           && (k + 1 < |c| && j != k + 1 ==> c[j] != c[k + 1]);
    UnlinkEffect(mem, h, c, k, c[j]);
    hide UnlinkMem, Chain;
  }

  lemma UnlinkChain(mem: Memory, h: nat, c: seq<Ptr>, k: nat)
    requires Chain(mem, h, c) && k < |c| && 0 !in mem
    ensures Unlinkable(mem, h, c[k])
    ensures var mem', d := UnlinkMem(mem, c[k]) - {c[k]}, Without(c, k);
            Chain(mem', h, d) && Recs(mem', d) == Recs(mem, c)[..k] + Recs(mem, c)[k + 1..]
  {
    CanUnlink(mem, h, c, k);
    var mem', d := UnlinkMem(mem, c[k]) - {c[k]}, Without(c, k);
    forall i | 0 <= i < |d|
      ensures Node(mem', h, d, i) && d[i] in mem && d[i] in mem' && mem'[d[i]].rec == mem[d[i]].rec {
      UnlinkedNode(mem, h, c, k, i);
    }
    hide UnlinkMem, Hash, Node;
    assert forall i, j :: 0 <= i < j < |d| ==> d[i] != d[j];
    RecsWithout(mem, mem', c, k);
  }

  lemma RecsWithout(mem: Memory, mem': Memory, c: seq<Ptr>, k: nat)
    requires k < |c|
    requires forall i :: 0 <= i < |c| - 1 ==>
               var p := Without(c, k)[i]; p in mem && p in mem' && mem'[p].rec == mem[p].rec
    ensures Recs(mem', Without(c, k)) == Recs(mem, c)[..k] + Recs(mem, c)[k + 1..]
  {
    forall i | 0 <= i < |c| - 1
      ensures Recs(mem', Without(c, k))[i] == (Recs(mem, c)[..k] + Recs(mem, c)[k + 1..])[i]
    {
    }
  }

  /** Unlinking leaves the other chains and all data alone. */
  lemma UnlinkOthers(mem: Memory, heads: seq<Ptr>, chains: seq<seq<Ptr>>, h: nat, k: nat)
    requires Structure(mem, heads, chains) && h < HASH_SIZE && k < |chains[h]|
    ensures Unlinkable(mem, h, chains[h][k])
    ensures var mem' := UnlinkMem(mem, chains[h][k]) - {chains[h][k]};
            && (forall h' :: 0 <= h' < HASH_SIZE && h' != h ==>
                  Chain(mem', h', chains[h']) && Recs(mem', chains[h']) == Recs(mem, chains[h']))
            && (forall q :: q in mem' ==> q in mem && q != chains[h][k] && mem'[q].rec == mem[q].rec)
  {
    hide Hash, Recs;
    var c := chains[h];
    CanUnlink(mem, h, c, k);
    var mem' := UnlinkMem(mem, c[k]) - {c[k]};
    forall q | q in mem && q != c[k] ensures q in mem' && mem'[q].rec == mem[q].rec && (q !in c ==> mem'[q] == mem[q]) {
      UnlinkEffect(mem, h, c, k, q);
    }
    hide UnlinkMem;
    forall h' | 0 <= h' < HASH_SIZE && h' != h
      ensures Chain(mem', h', chains[h']) && Recs(mem', chains[h']) == Recs(mem, chains[h'])
    {
      OthersKept(mem, mem', heads, chains, h, h');
    }
  }

  lemma UnlinkKeeps(mem: Memory, heads: seq<Ptr>, chains: seq<seq<Ptr>>, h: nat, k: nat)
    requires Structure(mem, heads, chains) && h < HASH_SIZE && k < |chains[h]|
    ensures var p := chains[h][k];
            var d := Without(chains[h], k);
            && Unlinkable(mem, h, p)
            && var mem' := UnlinkMem(mem, p) - {p};
               && Structure(mem', UnlinkHeads(mem, heads, p), chains[h := d])
               && Records(mem', chains[h := d])
                  == Records(mem, chains)[h := Recs(mem, chains[h])[..k] + Recs(mem, chains[h])[k + 1..]]
  {
    hide Hash, Recs, Chain, UnlinkMem, Records, UnlinkHeads;
    var c, d := chains[h], Without(chains[h], k);
    CanUnlink(mem, h, c, k);
    UnlinkChain(mem, h, c, k);
    UnlinkOthers(mem, heads, chains, h, k);
    var mem' := UnlinkMem(mem, c[k]) - {c[k]};
    StillCovered(mem, mem', heads, chains, h, k);
    UnlinkedHeads(mem, heads, chains, h, k);
    RecordsUpdate(mem, mem', chains, h, d);
  }

  lemma UnlinkedHeads(mem: Memory, heads: seq<Ptr>, chains: seq<seq<Ptr>>, h: nat, k: nat)
    requires |heads| == |chains| == HASH_SIZE && h < HASH_SIZE && k < |chains[h]|
    requires forall i :: 0 <= i < HASH_SIZE ==> heads[i] == At(chains[i], 0)
    requires chains[h][k] in mem && mem[chains[h][k]].next == At(chains[h], k + 1)
    requires mem[chains[h][k]].pprev == if k == 0 then Bucket(h) else NextOf(chains[h][k - 1])
    ensures var heads', chains' := UnlinkHeads(mem, heads, chains[h][k]), chains[h := Without(chains[h], k)];
            |heads'| == HASH_SIZE && forall i :: 0 <= i < HASH_SIZE ==> heads'[i] == At(chains'[i], 0)
  {
  }

  /** Every entry left is in a chain. */
  lemma StillCovered(mem: Memory, mem': Memory, heads: seq<Ptr>, chains: seq<seq<Ptr>>, h: nat, k: nat)
    requires Structure(mem, heads, chains) && h < HASH_SIZE && k < |chains[h]|
    requires forall q :: q in mem' ==> q in mem && q != chains[h][k] && mem'[q].rec == mem[q].rec
    ensures forall q :: q in mem' ==> q in chains[h := Without(chains[h], k)][Hash(mem'[q].rec.addr)]
  {
    hide Hash;
    forall q | q in mem' ensures q in chains[h := Without(chains[h], k)][Hash(mem'[q].rec.addr)] {
      if Hash(mem'[q].rec.addr) == h {
        var j :| 0 <= j < |chains[h]| && chains[h][j] == q;
        assert Without(chains[h], k)[if j < k then j else j - 1] == q;
      }
    }
  }

  // ----- Entries in place -----

  lemma NodeAt(mem: Memory, heads: seq<Ptr>, chains: seq<seq<Ptr>>, h: nat, k: nat)
    requires Structure(mem, heads, chains) && h < HASH_SIZE && k < |chains[h]|
    ensures var p := chains[h][k];
            p in mem && p != 0 && mem[p].next == At(chains[h], k + 1) && mem[p].rec == Recs(mem, chains[h])[k]
  {
    hide Hash;
    assert Chain(mem, h, chains[h]) && Node(mem, h, chains[h], k);
  }

  /** Changing what an entry records, but not its address, changes one record of one chain. */
  lemma DataKeeps(mem: Memory, heads: seq<Ptr>, chains: seq<seq<Ptr>>, h: nat, k: nat, r: Rec)
    requires Structure(mem, heads, chains) && h < HASH_SIZE && k < |chains[h]|
    requires r.addr == Recs(mem, chains[h])[k].addr
    ensures var p := chains[h][k];
            && p in mem
            && var mem' := mem[p := mem[p].(rec := r)];
               && Structure(mem', heads, chains)
               && Records(mem', chains) == Records(mem, chains)[h := Recs(mem, chains[h])[k := r]]
  {
    hide Hash, Recs;
    NodeAt(mem, heads, chains, h, k);
    DataChain(mem, h, chains[h], k, r);
    var p := chains[h][k];
    var mem' := mem[p := mem[p].(rec := r)];
    forall h' | 0 <= h' < HASH_SIZE && h' != h
      ensures Chain(mem', h', chains[h']) && Recs(mem', chains[h']) == Recs(mem, chains[h'])
    {
      OthersKept(mem, mem', heads, chains, h, h');
    }
    RecordsUpdate(mem, mem', chains, h, chains[h]);
    assert chains[h := chains[h]] == chains;
    hide Chain, Records;
  }

  lemma DataChain(mem: Memory, h: nat, c: seq<Ptr>, k: nat, r: Rec)
    requires Chain(mem, h, c) && k < |c| && r.addr == Recs(mem, c)[k].addr
    ensures c[k] in mem
    ensures var mem' := mem[c[k] := mem[c[k]].(rec := r)];
            Chain(mem', h, c) && Recs(mem', c) == Recs(mem, c)[k := r]
  {
    hide Hash;
    assert Node(mem, h, c, k);
    var mem' := mem[c[k] := mem[c[k]].(rec := r)];
    forall i | 0 <= i < |c| ensures Node(mem', h, c, i) && c[i] in mem && (i != k ==> mem'[c[i]] == mem[c[i]]) {
      assert Node(mem, h, c, i);
    }
    assert Recs(mem', c) == Recs(mem, c)[k := r];
  }

  /** Distinct addresses and at least one use each. */
  ghost predicate Sound(c: seq<Rec>) {
    DistinctKeys(c) && Used(c)
  }

  ghost predicate AllSound(v: seq<seq<Rec>>) {
    forall h :: 0 <= h < |v| ==> Sound(v[h])
  }

  /** A pass from place k on: the record there as it ages, then the pass from the next place. */
  lemma ExpireFrom(c: seq<Rec>, k: nat, now: u32, limit: u32)
    requires k < |c|
    ensures Expire(c[k..], now, limit)
            == (if Aged(c[k], now, limit).Some? then [Aged(c[k], now, limit).value] else [])
               + Expire(c[k + 1..], now, limit)
  {
    assert c[k..][1..] == c[k + 1..];
  }

  lemma DropKeepsSound(c: seq<Rec>, k: nat)
    requires Sound(c) && k < |c|
    ensures Sound(c[..k] + c[k + 1..])
  {
  }

  function ExpireAll(v: seq<seq<Rec>>, now: u32, limit: u32): (r: seq<seq<Rec>>)
    ensures |r| == |v|
  {
    seq(|v|, h requires 0 <= h < |v| => Expire(v[h], now, limit))
  }

  lemma HasBuckets(mem: Memory, heads: seq<Ptr>, chains: seq<seq<Ptr>>)
    requires Structure(mem, heads, chains)
    ensures |heads| == |chains| == HASH_SIZE
  {
  }

  lemma NothingLeft(mem: Memory, heads: seq<Ptr>, chains: seq<seq<Ptr>>)
    requires Structure(mem, heads, chains) && forall h :: 0 <= h < HASH_SIZE ==> chains[h] == []
    ensures mem == map[] && forall h :: 0 <= h < HASH_SIZE ==> heads[h] == 0 && Records(mem, chains)[h] == []
  {
    hide Hash;
    assert mem.Keys == {};
  }

  /** Linking and unlinking leave what is recorded. */
  lemma LinkMemData(mem: Memory, head: Ptr, p: Ptr, h: nat)
    requires p in mem && (head != 0 ==> head in mem && head != p)
    ensures var mem' := LinkMem(mem, head, p, h);
            mem'.Keys == mem.Keys && forall q :: q in mem' ==> mem'[q].rec == mem[q].rec
  {
  }

  lemma UnlinkMemData(mem: Memory, h: nat, p: Ptr)
    requires Unlinkable(mem, h, p)
    ensures var mem' := UnlinkMem(mem, p);
            mem'.Keys == mem.Keys && forall q :: q in mem' ==> mem'[q].rec == mem[q].rec
  {
  }

  // ----- The table -----

  /** Whether the table has a record of an address. */
  /** The MAC recorded with an address. */
  function MacOf(v: seq<seq<Rec>>, a: NetAddr): Option<Mac> {
    if |v| == HASH_SIZE && Lookup(v[Hash(a)], a).Some? then Some(Lookup(v[Hash(a)], a).value.mac) else None
  }

  predicate Has(v: seq<seq<Rec>>, a: NetAddr) {
    MacOf(v, a).Some?
  }

  lemma SameMacs(v: seq<seq<Rec>>, h: nat, k: nat, r: Rec)
    requires |v| == HASH_SIZE && h < HASH_SIZE && k < |v[h]| && DistinctKeys(v[h])
    requires r.addr == v[h][k].addr && r.mac == v[h][k].mac && h == Hash(r.addr)
    ensures forall a: NetAddr :: MacOf(v[h := v[h][k := r]], a) == MacOf(v, a)
  {
    hide Hash, Lookup;
    forall a: NetAddr ensures MacOf(v[h := v[h][k := r]], a) == MacOf(v, a) {
      LookupUpdate(v[h], k, r, a);
      LookupUpdate(v[h], k, v[h][k], a);
      assert v[h][k := v[h][k]] == v[h];
    }
  }

  lemma MacsAfterPut(v: seq<seq<Rec>>, a: NetAddr, mac: Mac, now: u32)
    requires |v| == HASH_SIZE && AllSound(v)
    ensures forall b: NetAddr ::
              MacOf(v[Hash(a) := Put(v[Hash(a)], a, mac, now)], b) == if b == a then Some(mac) else MacOf(v, b)
  {
    hide Hash, Put, Lookup;
    assert Sound(v[Hash(a)]);
    forall b: NetAddr
      ensures MacOf(v[Hash(a) := Put(v[Hash(a)], a, mac, now)], b) == if b == a then Some(mac) else MacOf(v, b)
    {
      PutIsUpdate(v[Hash(a)], a, mac, now, b);
    }
  }

  /** __nat25_generate_ipv4_network_addr. */
  function Ipv4Addr(ip: seq<byte>): NetAddr
    requires |ip| == 4
  {
    [1, 0, 0, 0, 0, 0, 0] + ip + [0, 0, 0, 0, 0, 0]
  }

  /** The key: type 1, and the address at 7; all other bytes are zero. */
  lemma KeyIs(ip: seq<byte>)
    requires |ip| == 4
    ensures Ipv4Addr(ip)[0] == 1 && Ipv4Addr(ip)[7..11] == ip
    ensures forall k :: 1 <= k < 7 || 11 <= k < 17 ==> Ipv4Addr(ip)[k] == 0
  {
  }

  /** Different IP addresses have different keys. */
  lemma KeysDiffer(x: seq<byte>, y: seq<byte>)
    requires |x| == |y| == 4
    ensures Ipv4Addr(x) == Ipv4Addr(y) <==> x == y
  {
    assert Ipv4Addr(x)[7..11] == x && Ipv4Addr(y)[7..11] == y;
  }

  /** The entry of the last client seen, with its MAC and IP address. */
  datatype Shortcut = Shortcut(entry: Ptr, mac: Mac, ip: seq<byte>)

  const NO_MAC: Mac := [0, 0, 0, 0, 0, 0]
  const NO_IP: seq<byte> := [0, 0, 0, 0]
  const NO_SHORTCUT: Shortcut := Shortcut(0, NO_MAC, NO_IP)

  /** An entry the shortcut points at is linked, and is the one of the recorded address. */
  ghost predicate Linked(s: Shortcut, mem: Memory) {
    |s.ip| == 4 && (s.entry != 0 ==> s.entry in mem && mem[s.entry].rec.addr == Ipv4Addr(s.ip))
  }

  /** A shortcut once only the entries `left` are: forgotten exactly if its entry was freed. */
  function Surviving(s: Shortcut, left: set<Ptr>): Shortcut {
    if s.entry == 0 || s.entry in left then s else NO_SHORTCUT
  }

  /** The age of one entry is reset. */
  function Refreshed(mem: Memory, p: Ptr, now: u32): Memory
    requires p in mem
  {
    mem[p := mem[p].(rec := mem[p].rec.(ageing := now))]
  }

  class Table {
    /** NAT25_AGEING_TIME * HZ, in ticks. */
    const limit: u32
    const nethash: array<Ptr>
    var mem: Memory
    var scdbEntry: Ptr
    var scdbMac: Mac
    var scdbIp: seq<byte>
    /** The entries of each bucket, from its head. */
    ghost var chains: seq<seq<Ptr>>

    /** What the table records, chain by chain. */
    ghost function View(): (v: seq<seq<Rec>>)
      reads this
    {
      Records(mem, chains)
    }

    function Current(): Shortcut
      reads this
    {
      Shortcut(scdbEntry, scdbMac, scdbIp)
    }

    ghost predicate Valid()
      reads this, nethash
    {
      && Structure(mem, nethash[..], chains)
      && AllSound(View())
      && Linked(Current(), mem)
    }

    /** A shortcut without an entry records no client either. */
    predicate Tidy()
      reads this
    {
      scdbEntry == 0 ==> Current() == NO_SHORTCUT
    }

    /** A shortcut with an entry has the MAC of that entry. */
    ghost predicate Agrees()
      reads this
    {
      scdbEntry != 0 ==> scdbEntry in mem && mem[scdbEntry].rec.mac == scdbMac
    }

    constructor (limit: u32)
      ensures Valid() && mem == map[] && this.limit == limit && fresh(nethash) && Current() == NO_SHORTCUT
      ensures nethash.Length == 16
      ensures forall h :: 0 <= h < HASH_SIZE ==> View()[h] == []
    {
      this.limit := limit;
      nethash := new Ptr[HASH_SIZE](_ => 0);
      mem := map[];
      scdbEntry, scdbMac, scdbIp := 0, NO_MAC, NO_IP;
      chains := seq(HASH_SIZE, _ => []);
    }

    /** Walk a chain for an address, as lookup, insertion and scdb_findEntry all do. */
    method FindEntry(addr: NetAddr) returns (db: Ptr, ghost k: nat)
      requires Valid()
      ensures var c := chains[Hash(addr)];
              var i := Find(Recs(mem, c), addr, 0);
              && (db == 0 <==> i == -1)
              && (db != 0 ==> k == i && k < |c| && db == c[k] && db in mem && mem[db].rec == Recs(mem, c)[k])
    {
      var h := Hash(addr);
      hide Hash, Recs;
      db, k := nethash[h], 0;
      while db != 0
        invariant k <= |chains[h]| && db == At(chains[h], k)
        invariant Find(Recs(mem, chains[h]), addr, k) == Find(Recs(mem, chains[h]), addr, 0)
        decreases |chains[h]| - k
      {
        NodeAt(mem, nethash[..], chains, h, k);
        if mem[db].rec.addr == addr {
          return;
        }
        db := mem[db].next;
        k := k + 1;
      }
      if k < |chains[h]| { NodeAt(mem, nethash[..], chains, h, k); }
    }

    /** Store new data in the entry at place k of chain h. */
    method SetData(p: Ptr, r: Rec, ghost h: nat, ghost k: nat)
      requires Valid() && h < HASH_SIZE && k < |chains[h]| && p == chains[h][k]
      requires r.addr == Recs(mem, chains[h])[k].addr && r.uses >= 1
      modifies this`mem
      ensures Valid() && View() == old(View())[h := old(View())[h][k := r]]
      ensures p in old(mem) && mem == old(mem)[p := old(mem)[p].(rec := r)]
    {
      hide Hash, Recs;
      NodeAt(mem, nethash[..], chains, h, k);
      DataKeeps(mem, nethash[..], chains, h, k, r);
      assert Sound(View()[h]);
      LookupUpdate(Recs(mem, chains[h]), k, r, r.addr);
      mem := mem[p := mem[p].(rec := r)];
      hide Structure;
    }

    /** __nat25_db_network_lookup_and_replace. */
    method LookupAndReplace(skb: Skb, addr: NetAddr, now: u32) returns (ret: int)
      requires Valid() && skb.data + 6 <= skb.buf.Length
      modifies this`mem, skb.buf
      ensures Valid() && View() == old(View())[Hash(addr) := Touch(old(View())[Hash(addr)], addr, now, limit)]
      ensures var r := Lookup(old(View())[Hash(addr)], addr);
              && (ret == 1 <==> r.Some?) && (ret == 0 <==> r.None?)
              && skb.buf[..] == if r.Some? && !Expired(r.value.ageing, now, limit)
                                then Overwrite(old(skb.buf[..]), skb.data, r.value.mac) else old(skb.buf[..])
      ensures mem.Keys == old(mem.Keys)
    {
      ghost var h := Hash(addr);
      hide Hash, Recs, Expired;
      ghost var v := View();
      assert v[h][0..] == v[h];
      LookupFind(v[h], addr, 0);
      var db: Ptr;
      ghost var k: nat;
      db, k := FindEntry(addr);
      if db == 0 {
        assert v == v[h := v[h]];
        return 0;
      }
      if !Expired(mem[db].rec.ageing, now, limit) {
        skb.Write(0, mem[db].rec.mac);
        SetData(db, mem[db].rec.(uses := mem[db].rec.uses + 1), h, k);
      } else {
        assert v == v[h := v[h]];
      }
      return 1;
    }

    /** __nat25_db_network_insert; `p` is what kmalloc returns, or null. */
    method Insert(mac: Mac, addr: NetAddr, now: u32, p: Ptr)
      requires Valid() && p !in mem
      modifies this`mem, this`chains, nethash
      ensures Valid()
      ensures View() == if p == 0 && Lookup(old(View())[Hash(addr)], addr).None? then old(View())
                        else old(View())[Hash(addr) := Put(old(View())[Hash(addr)], addr, mac, now)]
      ensures mem.Keys == if p != 0 && Lookup(old(View())[Hash(addr)], addr).None?
                            then old(mem.Keys) + {p} else old(mem.Keys)
    {
      var hash := Hash(addr);
      hide Hash, Recs;
      ghost var v := View();
      assert v[hash][0..] == v[hash];
      LookupFind(v[hash], addr, 0);
      PutIsUpdate(v[hash], addr, mac, now, addr);
      var db: Ptr;
      ghost var k: nat;
      db, k := FindEntry(addr);
      if db != 0 {
        SetData(db, mem[db].rec.(mac := mac, ageing := now), hash, k);
        return;
      }
      if p == 0 {
        return;
      }
      AddEntry(p, Entry(0, NoLink, Rec(addr, mac, now, 1)), hash);
    }

    /** __network_hash_link. */
    method LinkEntry(p: Ptr, hash: nat)
      requires p in mem && hash < nethash.Length && (nethash[hash] != 0 ==> nethash[hash] in mem && nethash[hash] != p)
      modifies this`mem, nethash
      ensures mem == LinkMem(old(mem), old(nethash[hash]), p, hash) && nethash[..] == old(nethash[..])[hash := p]
    {
      mem := mem[p := mem[p].(next := nethash[hash])];
      if mem[p].next != 0 {
        mem := mem[mem[p].next := mem[mem[p].next].(pprev := NextOf(p))];
      }
      nethash[hash] := p;
      mem := mem[p := mem[p].(pprev := Bucket(hash))];
    }

    /** Allocate an entry and link it. */
    method AddEntry(p: Ptr, e: Entry, hash: nat)
      requires Valid() && p !in mem && p != 0 && hash == Hash(e.rec.addr)
      requires Sound([e.rec] + View()[hash])
      modifies this`mem, this`chains, nethash
      ensures Valid() && View() == old(View())[hash := [e.rec] + old(View())[hash]]
      ensures mem.Keys == old(mem.Keys) + {p}
    {
      hide Hash, Recs, Structure, LinkMem, Ipv4Addr;
      ghost var v := View();
      LinkKeeps(mem, nethash[..], chains, p, e, hash);
      HeadAllocated(mem, nethash[..], chains, hash);
      HasBuckets(mem, nethash[..], chains);
      LinkMemData(mem[p := e], nethash[hash], p, hash);
      mem := mem[p := e];
      LinkEntry(p, hash);
      chains := chains[hash := [p] + chains[hash]];
    }

    /** __network_hash_unlink. */
    method UnlinkEntry(f: Ptr, ghost h: nat)
      requires Unlinkable(mem, h, f) && h < nethash.Length
      modifies this`mem, nethash
      ensures mem == UnlinkMem(old(mem), f) && nethash[..] == UnlinkHeads(old(mem), old(nethash[..]), f)
    {
      var e := mem[f];
      match e.pprev {
        case Bucket(b) => nethash[b] := e.next;
        case NextOf(q) => mem := mem[q := mem[q].(next := e.next)];
        case NoLink =>
      }
      if e.next != 0 {
        mem := mem[e.next := mem[e.next].(pprev := e.pprev)];
      }
      mem := mem[f := mem[f].(next := 0, pprev := NoLink)];
    }

    /** Unlink and kfree the entry at place k of chain h. */
    method UnlinkAndFree(f: Ptr, ghost h: nat, ghost k: nat)
      requires Structure(mem, nethash[..], chains) && h < HASH_SIZE && k < |chains[h]| && f == chains[h][k]
      modifies this`mem, this`chains, nethash
      ensures Structure(mem, nethash[..], chains) && chains == old(chains)[h := Without(old(chains)[h], k)]
      ensures View() == old(View())[h := old(View())[h][..k] + old(View())[h][k + 1..]]
      ensures mem.Keys == old(mem.Keys) - {f} && forall q :: q in mem ==> mem[q].rec == old(mem)[q].rec
    {
      hide Hash, Recs, Structure, UnlinkMem, Unlinkable, UnlinkHeads, Without;
      ghost var v := View();
      UnlinkKeeps(mem, nethash[..], chains, h, k);
      HasBuckets(mem, nethash[..], chains);
      UnlinkMemData(mem, h, f);
      UnlinkEntry(f, h);
      mem := mem - {f};
      chains := chains[h := Without(chains[h], k)];
    }

    /** Forget the shortcut if it points at an entry about to be freed. */
    method DropShortcut(f: Ptr)
      modifies this`scdbEntry, this`scdbMac, this`scdbIp
      ensures Current() == if old(scdbEntry) == f then NO_SHORTCUT else old(Current())
    {
      if scdbEntry == f {
        scdbMac, scdbIp := NO_MAC, NO_IP;
        scdbEntry := 0;
      }
    }

    /** Free one entry, and forget the shortcut if that is where it points. */
    method RemoveEntry(f: Ptr, ghost h: nat, ghost k: nat)
      requires Valid() && h < HASH_SIZE && k < |chains[h]| && f == chains[h][k]
      modifies this`mem, this`chains, this`scdbEntry, this`scdbMac, this`scdbIp, nethash
      ensures Valid() && View() == old(View())[h := old(View())[h][..k] + old(View())[h][k + 1..]]
      ensures chains == old(chains)[h := Without(old(chains)[h], k)] && mem.Keys == old(mem.Keys) - {f}
      ensures old(At(chains[h], k + 1)) == At(chains[h], k)
      ensures Current() == Surviving(old(Current()), mem.Keys)
    {
      hide Hash, Recs;
      ghost var v := View();
      NodeAt(mem, nethash[..], chains, h, k);
      DropKeepsSound(v[h], k);
      DropShortcut(f);
      UnlinkAndFree(f, h, k);
    }

    /** One entry of an expiry pass; afterwards the next entry of the chain is at place k + 1 or k. */
    method ExpireEntry(f: Ptr, ghost h: nat, ghost k: nat, now: u32) returns (ghost kept: bool)
      requires Valid() && h < HASH_SIZE && k < |chains[h]| && f == chains[h][k]
      modifies this`mem, this`chains, this`scdbEntry, this`scdbMac, this`scdbIp, nethash
      ensures Valid() && mem.Keys <= old(mem.Keys) && Current() == Surviving(old(Current()), mem.Keys)
      ensures var c := old(View())[h];
              var r := Aged(c[k], now, limit);
              && kept == r.Some?
              && View() == old(View())[h := if kept then c[k := r.value] else c[..k] + c[k + 1..]]
              && |chains| == |old(chains)| && |chains[h]| == (if kept then |old(chains)[h]| else |old(chains)[h]| - 1)
              && At(chains[h], if kept then k + 1 else k) == At(old(chains)[h], k + 1)
    {
      hide Hash, Recs, Expired;
      kept := true;
      ghost var v := View();
      assert h < |v| && |v[h]| == |chains[h]|;
      hide Structure;
      NodeAt(mem, nethash[..], chains, h, k);
      if Expired(mem[f].rec.ageing, now, limit) {
        if mem[f].rec.uses == 1 {
          kept := false;
          RemoveEntry(f, h, k);
        } else {
          SetData(f, mem[f].rec.(uses := mem[f].rec.uses - 1), h, k);
        }
      } else {
        assert v[h][k := v[h][k]] == v[h] && v == v[h := v[h]];
      }
    }

    /** One chain of an expiry pass; the next entry is fetched before this one can be freed. */
    method ExpireBucket(h: nat, now: u32)
      requires Valid() && h < HASH_SIZE
      modifies this`mem, this`chains, this`scdbEntry, this`scdbMac, this`scdbIp, nethash
      ensures Valid() && View() == old(View())[h := Expire(old(View())[h], now, limit)]
      ensures mem.Keys <= old(mem.Keys) && Current() == Surviving(old(Current()), mem.Keys)
    {
      hide Hash, Recs, Expired, Expire;
      ghost var k: nat, v, c := 0, View(), View()[h];
      ghost var goal := Expire(c, now, limit);
      assert c[..0] + Expire(c[0..], now, limit) == goal by { assert c[0..] == c; }
      assert v == v[h := c];
      var f := nethash[h];
      while f != 0
        invariant Valid() && k <= |c| == |chains[h]| && f == At(chains[h], k)
        invariant View() == v[h := c]
        invariant mem.Keys <= old(mem.Keys) && Current() == Surviving(old(Current()), mem.Keys)
        invariant c[..k] + Expire(c[k..], now, limit) == goal
        decreases |c| - k
      {
        NodeAt(mem, nethash[..], chains, h, k);
        ExpireFrom(c, k, now, limit);
        var g := mem[f].next;
        ghost var kept := ExpireEntry(f, h, k, now);
        k, c := PassOver(v, h, c, k, now, goal);
        f := g;
      }
      if k < |c| { NodeAt(mem, nethash[..], chains, h, k); }
      assert c[k..] == [] && c[..k] + [] == c && Expire([], now, limit) == [] by { ExpireNothing(now, limit); }
    }

    lemma ExpireNothing(now: u32, limit: u32)
      ensures Expire([], now, limit) == []
    {
    }

    /** The loop of an expiry pass on the records alone: what is before the place is done, what is after to do. */
    lemma PassOver(v: seq<seq<Rec>>, h: nat, c: seq<Rec>, k: nat, now: u32, goal: seq<Rec>)
      returns (k': nat, c': seq<Rec>)
      requires h < |v| && k < |c| && c[..k] + Expire(c[k..], now, limit) == goal
      ensures var r := Aged(c[k], now, limit);
              && c' == (if r.Some? then c[k := r.value] else c[..k] + c[k + 1..])
              && k' == (if r.Some? then k + 1 else k) && k' <= |c'|
              && c'[..k'] + Expire(c'[k'..], now, limit) == goal
              && v[h := c][h := c'] == v[h := c']
    {
      hide Expired, Aged;
      var r := Aged(c[k], now, limit);
      ExpireFrom(c, k, now, limit);
      hide Expire;
      if r.Some? {
        k', c' := k + 1, c[k := r.value];
        assert c'[..k'] == c[..k] + [r.value] && c'[k'..] == c[k + 1..];
      } else {
        k', c' := k, c[..k] + c[k + 1..];
        assert c'[..k'] == c[..k] && c'[k'..] == c[k + 1..];
        assert [] + Expire(c[k + 1..], now, limit) == Expire(c[k + 1..], now, limit);
      }
    }

    /** nat25_db_expire. */
    method ExpirePass(now: u32)
      requires Valid()
      modifies this`mem, this`chains, this`scdbEntry, this`scdbMac, this`scdbIp, nethash
      ensures Valid() && View() == ExpireAll(old(View()), now, limit)
      ensures mem.Keys <= old(mem.Keys) && Current() == Surviving(old(Current()), mem.Keys)
    {
      ghost var v := View();
      assert |v| == HASH_SIZE;
      var i := 0;
      hide Hash, Structure, Expire;
      while i < HASH_SIZE
        invariant 0 <= i <= HASH_SIZE && Valid() && |View()| == HASH_SIZE
        invariant mem.Keys <= old(mem.Keys) && Current() == Surviving(old(Current()), mem.Keys)
        invariant forall h :: 0 <= h < i ==> View()[h] == Expire(v[h], now, limit)
        invariant forall h :: i <= h < HASH_SIZE ==> View()[h] == v[h]
      {
        ExpireBucket(i, now);
        i := i + 1;
      }
      assert View() == ExpireAll(v, now, limit);
    }

    /** nat25_db_cleanup: every entry is freed, and the shortcut with them. */
    method Cleanup()
      requires Valid()
      modifies this`mem, this`chains, this`scdbEntry, this`scdbMac, this`scdbIp, nethash
      ensures Valid() && mem == map[] && Current() == Surviving(old(Current()), {})
      ensures Current() == NO_SHORTCUT <==> old(Tidy())
      ensures forall h :: 0 <= h < HASH_SIZE ==> nethash[h] == 0 && View()[h] == []
    {
      hide Hash, Recs, Structure, Ipv4Addr, AllSound;
      var i := 0;
      HasBuckets(mem, nethash[..], chains);
      while i < HASH_SIZE
        invariant 0 <= i <= HASH_SIZE && Valid() && |chains| == nethash.Length == HASH_SIZE
        invariant mem.Keys <= old(mem.Keys) && Current() == Surviving(old(Current()), mem.Keys)
        invariant forall h :: 0 <= h < i ==> chains[h] == []
      {
        CleanupBucket(i);
        i := i + 1;
      }
      NothingLeft(mem, nethash[..], chains);
    }

    /** One chain of the cleanup; the next entry is fetched before this one is freed. */
    method CleanupBucket(h: nat)
      requires Valid() && h < |chains| == nethash.Length == HASH_SIZE
      modifies this`mem, this`chains, this`scdbEntry, this`scdbMac, this`scdbIp, nethash
      ensures Valid() && chains == old(chains)[h := []]
      ensures mem.Keys <= old(mem.Keys) && Current() == Surviving(old(Current()), mem.Keys)
    {
      hide Hash, Recs, Structure, Ipv4Addr, AllSound;
      HeadAllocated(mem, nethash[..], chains, h);
      var f := nethash[h];
      while f != 0
        invariant Valid() && h < |chains| && chains == old(chains)[h := chains[h]]
        invariant f == At(chains[h], 0) && (f == 0 ==> chains[h] == [])
        invariant mem.Keys <= old(mem.Keys) && Current() == Surviving(old(Current()), mem.Keys)
        decreases |chains[h]|
      {
        NodeAt(mem, nethash[..], chains, h, 0);
        var g := mem[f].next;
        RemoveEntry(f, h, 0);
        f := g;
        HeadAllocated(mem, nethash[..], chains, h);
      }
    }

    /**
     * The update of the shortcut on an IPv4 frame from `mac` and `ip`, in aic_br_client_tx. A client without
     * record leaves MAC and address of the one before behind, with nothing to forget them. A new MAC on a
     * recorded address is taken by the shortcut alone: the record keeps its own, refreshed.
     */
    method UpdateShortcut(mac: Mac, ip: seq<byte>, now: u32) returns (found: bool)
      requires Valid() && |ip| == 4
      modifies this`mem, this`scdbEntry, this`scdbMac, this`scdbIp
      ensures Valid() && (found <==> scdbEntry != 0)
      ensures found ==> scdbEntry in old(mem)
      ensures mem == if found then Refreshed(old(mem), scdbEntry, now) else old(mem)
      ensures old(scdbMac) == mac ==> Current() == if found then old(Current()) else NO_SHORTCUT
      ensures old(scdbMac) == mac ==> (found <==> old(scdbEntry) != 0)
      ensures old(scdbMac) != mac ==>
                var a := Ipv4Addr(ip);
                && (found <==> Has(old(View()), a))
                && (found ==> scdbMac == mac && scdbIp == ip)
                && (found ==> mem[scdbEntry].rec == Lookup(old(View())[Hash(a)], a).value.(ageing := now))
                && (!found ==> scdbMac == old(scdbMac) && scdbIp == old(scdbIp))
      ensures forall a: NetAddr :: MacOf(View(), a) == MacOf(old(View()), a)
      ensures Tidy() <==>
                || old(scdbMac) == mac
                || Has(old(View()), Ipv4Addr(ip))
                || (old(scdbMac) == NO_MAC && old(scdbIp) == NO_IP)
      ensures Agrees() <==>
                if old(scdbMac) == mac then old(Agrees())
                else MacOf(old(View()), Ipv4Addr(ip)) in {None, Some(mac)}
    {
      hide Hash, Recs, Ipv4Addr, Lookup;
      if scdbMac != mac {
        var addr := Ipv4Addr(ip);
        LookupFind(View()[Hash(addr)], addr, 0);
        assert View()[Hash(addr)][0..] == View()[Hash(addr)];
        var db: Ptr;
        ghost var k: nat;
        db, k := FindEntry(addr);
        scdbEntry := db;
        if db != 0 {
          scdbMac, scdbIp := mac, ip;
          assert Sound(View()[Hash(addr)]);
          SameMacs(View(), Hash(addr), k, mem[db].rec.(ageing := now));
          SetData(db, mem[db].rec.(ageing := now), Hash(addr), k);
          found := true;
        } else {
          found := false;
        }
      } else if scdbEntry != 0 {
        ghost var h, k := WhereIs(scdbEntry);
        assert Sound(View()[h]);
        SameMacs(View(), h, k, mem[scdbEntry].rec.(ageing := now));
        SetData(scdbEntry, mem[scdbEntry].rec.(ageing := now), h, k);
        found := true;
      } else {
        scdbMac, scdbIp := NO_MAC, NO_IP;
        found := false;
      }
    }

    /**
     * An IPv4 frame of a client in aic_br_client_tx; `dropped` if it is malformed or cannot be linearized. Its
     * address is recorded with its MAC exactly when the shortcut finds no entry. So a recorded address keeps its
     * MAC, whoever sends from it, unless that is the client of a shortcut without entry; and a client that holds
     * the shortcut sends from further addresses without having them recorded.
     */
    method ClientFrame(mac: Mac, ip: seq<byte>, dropped: bool, now: u32, p: Ptr)
      requires Valid() && |ip| == 4 && p !in mem
      modifies this`mem, this`chains, this`scdbEntry, this`scdbMac, this`scdbIp, nethash
      ensures Valid()
      ensures var v := old(View());
              var known := Has(v, Ipv4Addr(ip));
              var records := && (if old(scdbMac) == mac then old(scdbEntry) == 0 else !known)
                             && !dropped && ip != NO_IP && (known || p != 0);
              forall a: NetAddr ::
                MacOf(View(), a) == if records && a == Ipv4Addr(ip) then Some(mac) else MacOf(v, a)
      ensures forall other: seq<byte> | |other| == 4 && other != ip ::
                MacOf(View(), Ipv4Addr(other)) == MacOf(old(View()), Ipv4Addr(other))
      ensures mem.Keys <= old(mem.Keys) + {p}
      ensures old(scdbMac) == mac ==> Current() == if old(scdbEntry) != 0 then old(Current()) else NO_SHORTCUT
      ensures old(scdbMac) != mac ==>
                if Has(old(View()), Ipv4Addr(ip)) then scdbEntry != 0 && scdbMac == mac && scdbIp == ip
                else Current() == Shortcut(0, old(scdbMac), old(scdbIp))
      ensures scdbEntry != 0 ==> scdbEntry in mem && mem[scdbEntry].rec.ageing == now
    {
      hide Hash, Put, Ipv4Addr, Lookup, Structure, AllSound, Agrees, Tidy;
      ghost var v := View();
      var a := Ipv4Addr(ip);
      var found := UpdateShortcut(mac, ip, now);
      if !found && !dropped && ip != NO_IP {
        ghost var w := View();
        HasBucketsOfView();
        Insert(mac, a, now, p);
        MacsAfterPut(w, a, mac, now);
      }
      forall other: seq<byte> | |other| == 4 && other != ip
        ensures MacOf(View(), Ipv4Addr(other)) == MacOf(v, Ipv4Addr(other))
      {
        KeysDiffer(other, ip);
      }
    }

    lemma HasBucketsOfView()
      requires Valid()
      ensures |View()| == |chains| == HASH_SIZE
    {
      hide Chain;
    }

    /** A shortcut with an entry records a client that the table has. */
    lemma ShortcutHasRecord()
      requires Valid() && scdbEntry != 0
      ensures Has(View(), Ipv4Addr(scdbIp))
    {
      EntryIsRecord();
      hide Hash, Ipv4Addr, Lookup, Valid, View;
    }

    /** The entry is the record of the address. */
    lemma EntryIsRecord()
      requires Valid() && scdbEntry != 0
      ensures scdbEntry in mem && |View()| == HASH_SIZE
      ensures Lookup(View()[Hash(Ipv4Addr(scdbIp))], Ipv4Addr(scdbIp)) == Some(mem[scdbEntry].rec)
    {
      hide Hash, Structure, Ipv4Addr, Recs, Lookup;
      HasBuckets(mem, nethash[..], chains);
      var h, k := WhereIs(scdbEntry);
      var c := View()[h];
      assert Sound(c);
      assert c[k := c[k]] == c;
      LookupUpdate(c, k, c[k], c[k].addr);
    }

    /** The chain and the place of an allocated entry. */
    lemma WhereIs(p: Ptr) returns (h: nat, k: nat)
      requires Valid() && p in mem
      ensures h == Hash(mem[p].rec.addr) && h < HASH_SIZE && k < |chains[h]| && chains[h][k] == p
      ensures Recs(mem, chains[h])[k] == mem[p].rec
    {
      h := Hash(mem[p].rec.addr);
      hide Hash;
      k :| k < |chains[h]| && chains[h][k] == p;
      NodeAt(mem, nethash[..], chains, h, k);
    }
  }
}
