/** The TX descriptor rings of ipc_host.c: free-running 32-bit indices, masked, against a bounded FIFO. */
module TxRing {
  import opened Words

  /** What the host stores beside a descriptor; 0 is the null pointer of an empty slot. */
  type HostId = int

  /** The ring sizes of nx_txdesc_cnt. */
  predicate RingSize(cnt: nat) {
    cnt == 8 || cnt == 32 || cnt == 64
  }

  /** `idx & nx_txdesc_cnt_msk`: the sizes are powers of two. */
  function Mask(idx: u32, cnt: nat): (slot: nat)
    requires RingSize(cnt)
    ensures slot < cnt
  {
    if cnt == 8 then idx % 8 else if cnt == 32 then idx % 32 else idx % 64
  }

  /** Masking keeps the index within the ring and steps round it from slot 0. */
  lemma MaskIs(idx: u32, cnt: nat)
    requires RingSize(cnt)
    ensures idx < cnt ==> Mask(idx, cnt) == idx
    ensures Mask(idx, cnt) == idx - idx / cnt * cnt
  {
  }

  /** The slot `k` places after slot `p`, going round. */
  function After(p: nat, k: nat, cnt: nat): (slot: nat)
    requires p < cnt && k <= cnt
    ensures slot < cnt
  {
    if p + k < cnt then p + k else p + k - cnt
  }

  /** Masking commutes with advancing, also where the free-running index wraps to 0. */
  lemma MaskAdvances(idx: u32, k: nat, cnt: nat)
    requires RingSize(cnt) && k <= cnt
    ensures Mask(Add32(idx, k), cnt) == After(Mask(idx, cnt), k, cnt)
  {
    if cnt == 8 {
      MaskAdvances8(idx, k);
    } else if cnt == 32 {
      MaskAdvances32(idx, k);
    } else {
      MaskAdvances64(idx, k);
    }
  }

  lemma MaskAdvances8(idx: u32, k: nat)
    requires k <= 8
    ensures Add32(idx, k) % 8 == After(idx % 8, k, 8)
  {
  }

  lemma MaskAdvances32(idx: u32, k: nat)
    requires k <= 32
    ensures Add32(idx, k) % 32 == After(idx % 32, k, 32)
  {
  }

  lemma MaskAdvances64(idx: u32, k: nat)
    requires k <= 64
    ensures Add32(idx, k) % 64 == After(idx % 64, k, 64)
  {
  }

  /** The next `k` slots are distinct, and the offset of a slot can be read back. */
  lemma AfterInjective(p: nat, j: nat, k: nat, cnt: nat)
    requires p < cnt && j < cnt && k < cnt && j != k
    ensures After(p, j, cnt) != After(p, k, cnt)
  {
  }

  /** Seen from one index earlier each slot is one place further on, and the first is a slot of its own. */
  lemma OneBack(used: u32, k: nat, cnt: nat)
    requires RingSize(cnt) && 1 <= k < cnt
    ensures After(Mask(used, cnt), 0, cnt) == Mask(used, cnt) != After(Mask(used, cnt), k, cnt)
    ensures After(Mask(used, cnt), k, cnt) == After(Mask(Add32(used, 1), cnt), k - 1, cnt)
  {
    MaskAdvances(used, 1, cnt);
    hide Mask;
  }

  // ----- The bounded FIFO -----

  /** Try to push `ids` one by one, as long as a descriptor is free. */
  function Offer(q: seq<HostId>, ids: seq<HostId>, cap: nat): (r: seq<HostId>)
    requires |q| <= cap
    ensures |r| <= cap && q <= r
  {
    if |q| + |ids| <= cap then q + ids else q + ids[..cap - |q|]
  }

  /** One call of send_data_cfm: whether the packet was confirmed, and what the callback tried to push meanwhile. */
  datatype Reply = Reply(accept: bool, pushes: seq<HostId>)

  ghost predicate RealIds(ids: seq<HostId>) {
    forall i :: 0 <= i < |ids| ==> ids[i] != 0
  }

  /** What a run of the confirmation handler confirms, what it leaves queued, and what the callbacks pushed. */
  datatype Outcome = Outcome(confirmed: seq<HostId>, left: seq<HostId>, added: seq<HostId>)

  /** A refused head stays where it was; what its callback pushed comes after the others, one more than fit at most. */
  function Handle(q: seq<HostId>, replies: seq<Reply>, cap: nat): (o: Outcome)
    requires |q| <= cap
    ensures |o.left| <= cap + 1
    decreases |replies|
  {
    if q == [] || replies == [] then Outcome([], q, [])
    else
      var r := Offer(q[1..], replies[0].pushes, cap);
      if !replies[0].accept then Outcome([], [q[0]] + r, r[|q| - 1..])
      else
        var o := Handle(r, replies[1..], cap);
        Outcome([q[0]] + o.confirmed, o.left, r[|q| - 1..] + o.added)
  }

  /** One accepted packet, then the rest, as the logs of taken and pushed ids see it. */
  lemma HandleNext(q: seq<HostId>, replies: seq<Reply>, i: nat, cap: nat, taken: seq<HostId>, pushed: seq<HostId>)
    requires 0 < |q| <= cap && i < |replies| && replies[i].accept
    ensures var offered := Offer(q[1..], replies[i].pushes, cap);
            var r, o := Handle(offered, replies[i + 1..], cap), Handle(q, replies[i..], cap);
            && r.left == o.left
            && (taken + [q[0]]) + r.confirmed == taken + o.confirmed
            && (pushed + offered[|q| - 1..]) + r.added == pushed + o.added
  {
    assert replies[i..][1..] == replies[i + 1..];
  }

  lemma HandleEnd(q: seq<HostId>, replies: seq<Reply>, i: nat, cap: nat)
    requires |q| <= cap && i <= |replies|
    ensures q == [] || i == |replies| ==> Handle(q, replies[i..], cap) == Outcome([], q, [])
    ensures q != [] && i < |replies| && !replies[i].accept ==>
              var r := Offer(q[1..], replies[i].pushes, cap);
              Handle(q, replies[i..], cap) == Outcome([], [q[0]] + r, r[|q| - 1..])
  {
  }

  /**
   * Exactly once and in order: the confirmed ids, then those left, are the old queue followed by what the
   * callbacks pushed. So the confirmed ids are a prefix of push order. What is left may be one longer than the
   * ring, which then has no slot for the newest push: see OverfullIff.
   */
  lemma {:induction false} HandleKeepsOrder(q: seq<HostId>, replies: seq<Reply>, cap: nat)
    requires |q| <= cap
    ensures var o := Handle(q, replies, cap); o.confirmed + o.left == q + o.added && |o.left| <= cap + 1
    decreases |replies|
  {
    if q == [] || replies == [] {
    } else if !replies[0].accept {
      var r := Offer(q[1..], replies[0].pushes, cap);
      assert r == q[1..] + r[|q| - 1..];
      assert [q[0]] + r == q + r[|q| - 1..];
    } else {
      var r := Offer(q[1..], replies[0].pushes, cap);
      HandleKeepsOrder(r, replies[1..], cap);
      var o, h, t, a := Handle(r, replies[1..], cap), [q[0]], q[1..], r[|q| - 1..];
      assert q == h + t && r == t + a;
      Reassociate(h, o.confirmed, o.left, t, a, o.added);
    }
  }

  lemma Reassociate(h: seq<HostId>, c: seq<HostId>, l: seq<HostId>, t: seq<HostId>, a: seq<HostId>, b: seq<HostId>)
    requires c + l == (t + a) + b
    ensures (h + c) + l == (h + t) + (a + b)
  {
    assert (h + c) + l == h + (c + l);
    assert (h + t) + (a + b) == h + ((t + a) + b);
  }

  /**
   * The handler stops at the first packet the callback refuses: it confirms one packet per accepting reply
   * up to there, unless the ring runs empty first.
   */
  lemma {:induction false} HandleStops(q: seq<HostId>, replies: seq<Reply>, cap: nat)
    requires |q| <= cap
    ensures var o := Handle(q, replies, cap); var n := |o.confirmed|;
            && n <= |replies|
            && (forall i :: 0 <= i < n ==> replies[i].accept)
            && (o.left == [] || n == |replies| || !replies[n].accept)
    decreases |replies|
  {
    if q == [] || replies == [] || !replies[0].accept {
    } else {
      var r := Offer(q[1..], replies[0].pushes, cap);
      HandleStops(r, replies[1..], cap);
      var n := |Handle(r, replies[1..], cap).confirmed|;
      forall i | 0 <= i < n + 1 ensures replies[i].accept {
        if i > 0 { assert replies[1..][i - 1].accept; }
      }
    }
  }

  /** The queue when callback `n` is made, those before having accepted. */
  function QueueAt(q: seq<HostId>, replies: seq<Reply>, n: nat, cap: nat): (r: seq<HostId>)
    requires |q| <= cap
    ensures |r| <= cap
    decreases n
  {
    if n == 0 || q == [] || replies == [] then q
    else QueueAt(Offer(q[1..], replies[0].pushes, cap), replies[1..], n - 1, cap)
  }

  /**
   * The ring is left overfull, a push lost, if and only if the handler stops at a refusal whose callback
   * offered at least as many ids as the ring had room for with the head out.
   */
  lemma {:induction false} OverfullIff(q: seq<HostId>, replies: seq<Reply>, cap: nat)
    requires |q| <= cap
    ensures var o := Handle(q, replies, cap);
            var n := |o.confirmed|;
            |o.left| > cap
            <==> n < |replies| && !replies[n].accept
                 && var r := QueueAt(q, replies, n, cap); r != [] && |r| - 1 + |replies[n].pushes| >= cap
    decreases |replies|
  {
    if q != [] && replies != [] && replies[0].accept {
      var r := Offer(q[1..], replies[0].pushes, cap);
      OverfullIff(r, replies[1..], cap);
      HandleStops(r, replies[1..], cap);
    }
  }

  // ----- The ring -----

  class TxQueue {
    const cnt: nat
    const hostId: array<HostId>
    var freeIdx: u32
    var usedIdx: u32
    /** Every id ever pushed and every id ever taken out by confirmation or flush, in order. */
    ghost var pushed: seq<HostId>
    ghost var taken: seq<HostId>

    ghost predicate Shape() {
      RingSize(cnt) && hostId.Length == cnt
    }

    /** How many descriptors are outstanding, as the source computes it. */
    function Outstanding(): u32
      reads this
    {
      Sub32(freeIdx, usedIdx)
    }

    function Slot(k: nat): HostId
      requires Shape() && k < cnt
      reads this, hostId
    {
      hostId[After(Mask(usedIdx, cnt), k, cnt)]
    }

    function Contents(): (q: seq<HostId>)
      requires Shape() && Outstanding() <= cnt
      reads this, hostId
    {
      seq(Outstanding(), k requires Shape() && 0 <= k < cnt reads this, hostId => Slot(k))
    }

    ghost predicate Valid()
      reads this, hostId
    {
      && Shape() && Outstanding() <= cnt
      && (forall k :: 0 <= k < Outstanding() ==> Slot(k) != 0)
      && (forall k :: Outstanding() <= k < cnt ==> Slot(k) == 0)
      && pushed == taken + Contents()
    }

    ghost predicate Holding()
      reads this, hostId
    {
      Shape() && 0 < Outstanding() <= cnt && Contents() != []
    }

    /** The part of ipc_host_init that concerns one ring. */
    constructor (cnt: nat)
      requires RingSize(cnt)
      ensures Valid() && this.cnt == cnt && Contents() == [] && fresh(hostId)
      ensures freeIdx == usedIdx == 0 && pushed == taken == []
    {
      this.cnt := cnt;
      hostId := new HostId[cnt](_ => 0);
      freeIdx, usedIdx := 0, 0;
      pushed, taken := [], [];
    }

    /** ipc_host_txdesc_get: null exactly when the ring is full, else the first free descriptor. */
    method Get() returns (desc: int)
      requires Valid()
      ensures desc == -1 <==> |Contents()| == cnt
      ensures desc != -1 ==> 0 <= desc < cnt && desc == Mask(freeIdx, cnt) && hostId[desc] == 0
    {
      if freeIdx != Add32(usedIdx, cnt) {
        MaskAdvances(usedIdx, Outstanding(), cnt);
        hide Mask;
        desc := Mask(freeIdx, cnt);
        assert desc == After(Mask(usedIdx, cnt), Outstanding(), cnt);
        assert hostId[desc] == Slot(Outstanding());
      } else {
        desc := -1;
      }
    }

    /** ipc_host_txdesc_push, of a descriptor that ipc_host_txdesc_get returned. */
    method Push(id: HostId)
      requires Valid() && |Contents()| < cnt && id != 0
      modifies this`freeIdx, this`pushed, hostId
      ensures Valid() && Contents() == old(Contents()) + [id]
      ensures pushed == old(pushed) + [id]
    {
      ghost var q, n, p := Contents(), Outstanding(), Mask(usedIdx, cnt);
      MaskAdvances(usedIdx, n, cnt);
      hide Mask;
      var slot := Mask(freeIdx, cnt);
      hostId[slot] := id;
      freeIdx := Add32(freeIdx, 1);
      pushed := pushed + [id];
      assert Outstanding() == n + 1;
      forall k | 0 <= k < cnt && k != n ensures Slot(k) == old(Slot(k)) {
        AfterInjective(p, k, n, cnt);
      }
      assert Contents() == q + [id];
    }

    /** ipc_host_tx_flush: the oldest id, or null when the ring is empty. */
    method Flush() returns (id: HostId)
      requires Valid()
      modifies this`usedIdx, this`taken, hostId
      ensures Valid() && pushed == old(pushed)
      ensures old(Contents()) == [] ==> id == 0 && Contents() == [] && taken == old(taken)
      ensures old(Contents()) != [] ==>
                old(Contents()) == [id] + Contents() && taken == old(taken) + [id] && id != 0
    {
      ghost var q := Contents();
      id := hostId[Mask(usedIdx, cnt)];
      assert id == Slot(0);
      if id != 0 {
        TakeHead();
      }
    }

    /** Empty the slot at the used index and step over it. */
    method TakeHead()
      requires Valid() && Contents() != []
      modifies this`usedIdx, this`taken, hostId
      ensures Valid() && pushed == old(pushed) && usedIdx == Add32(old(usedIdx), 1)
      ensures old(Contents())[0] == old(hostId[Mask(usedIdx, cnt)])
      ensures old(Contents()) == [old(Contents())[0]] + Contents() && taken == old(taken) + [old(Contents())[0]]
    {
      ghost var q, n, p := Contents(), Outstanding(), Mask(usedIdx, cnt);
      MaskAdvances(usedIdx, 1, cnt);
      hide Mask;
      hostId[Mask(usedIdx, cnt)] := 0;
      usedIdx := Add32(usedIdx, 1);
      taken := taken + [q[0]];
      assert Outstanding() == n - 1;
      forall k | 0 <= k < cnt - 1 ensures Slot(k) == old(Slot(k + 1)) {
        assert After(Mask(usedIdx, cnt), k, cnt) == After(p, k + 1, cnt);
      }
      assert Slot(cnt - 1) == 0;
      assert q == [q[0]] + Contents();
    }

    /** What the callback does to this ring: get a descriptor, push on it if there is one. */
    method Callback(ids: seq<HostId>)
      requires Valid() && RealIds(ids)
      modifies this`freeIdx, this`pushed, hostId
      ensures Valid() && Contents() == Offer(old(Contents()), ids, cnt)
      ensures pushed == old(pushed) + Contents()[|old(Contents())|..]
    {
      ghost var q := Contents();
      var i := 0;
      while i < |ids|
        invariant i <= |ids| && Valid() && Contents() == Offer(q, ids[..i], cnt)
        invariant pushed == old(pushed) + Contents()[|q|..]
      {
        var desc := Get();
        if desc != -1 {
          Push(ids[i]);
        }
        i := i + 1;
      }
      assert ids[..i] == ids;
    }

    /**
     * One turn of the loop in ipc_host_tx_cfm_handler: advance first, call back, and step back when the
     * packet was not confirmed. A refusal is undone exactly unless what the callback pushed meanwhile took
     * the last free slot, the one the head is put back into.
     */
    method ConfirmOne(reply: Reply) returns (more: bool)
      requires Valid() && RealIds(reply.pushes)
      modifies this`usedIdx, this`freeIdx, this`pushed, this`taken, hostId
      ensures old(Contents()) == [] ==>
                !more && Valid() && Contents() == [] && taken == old(taken) && pushed == old(pushed)
      ensures old(Contents()) != [] ==>
                more == reply.accept
                && pushed == old(pushed) + Offer(old(Contents())[1..], reply.pushes, cnt)[|old(Contents())| - 1..]
      ensures old(Contents()) != [] && reply.accept ==>
                Valid() && Contents() == Offer(old(Contents())[1..], reply.pushes, cnt)
                && taken == old(taken) + [old(Contents())[0]]
      ensures old(Contents()) != [] && !reply.accept ==>
                && usedIdx == old(usedIdx) && taken == old(taken)
                && RolledBack([old(Contents())[0]] + Offer(old(Contents())[1..], reply.pushes, cnt))
                && (reply.pushes == [] ==> Valid() && Contents() == old(Contents()))
    {
      var used := usedIdx;
      var slot := Mask(used, cnt);
      var id := hostId[slot];
      assert id == Slot(0);
      if id == 0 {
        return false;
      }
      ghost var head, p := Contents()[0], Mask(used, cnt);
      TakeHead();
      ghost var q := Contents();
      Callback(reply.pushes);
      if !reply.accept {
        PutBack(used, id);
        return false;
      }
      return true;
    }

    /**
     * The state a roll-back should leave, and what it leaves when `q` is one id too long for the ring:
     * the first ids of `q` are in their slots, the last has lost its slot to the head.
     */
    ghost predicate RolledBack(q: seq<HostId>)
      reads this, hostId
    {
      && Shape() && Outstanding() == |q|
      && (forall k :: 0 <= k < |q| && k < cnt ==> Slot(k) == q[k])
      && (Valid() <==> |q| <= cnt)
      && (Valid() ==> Contents() == q)
    }

    /** The roll-back: the used index and the head return to where they were. */
    method PutBack(used: u32, id: HostId)
      requires Valid() && usedIdx == Add32(used, 1) && id != 0 && |taken| > 0 && taken[|taken| - 1] == id
      modifies this`usedIdx, this`taken, hostId
      ensures usedIdx == used && taken == old(taken)[..|old(taken)| - 1]
      ensures RolledBack([id] + old(Contents()))
    {
      ghost var q, n := Contents(), Outstanding();
      hide Mask, After;
      usedIdx := used;
      hostId[Mask(used, cnt)] := id;
      taken := taken[..|taken| - 1];
      assert Outstanding() == n + 1;
      forall k | 1 <= k < cnt ensures Slot(k) == old(Slot(k - 1)) {
        OneBack(used, k, cnt);
      }
      assert Slot(0) == id by { OneBack(used, 1, cnt); }
      assert pushed == taken + ([id] + q);
      SlotsMakeRolledBack([id] + q);
      hide RolledBack, Valid;
    }

    lemma SlotsMakeRolledBack(q: seq<HostId>)
      requires Shape() && Outstanding() == |q| && pushed == taken + q
      requires forall k :: 0 <= k < cnt ==> Slot(k) == if k < |q| then q[k] else 0
      requires forall k :: 0 <= k < |q| ==> q[k] != 0
      ensures RolledBack(q)
    {
      hide Mask, After, Slot;
      if |q| <= cnt { assert Contents() == q; }
    }

    /** A turn of the loop, in terms of Handle. */
    method Turn(replies: seq<Reply>, i: nat) returns (more: bool)
      requires Valid() && i <= |replies| && (i < |replies| ==> RealIds(replies[i].pushes))
      modifies this`usedIdx, this`freeIdx, this`pushed, this`taken, hostId
      ensures more ==> Valid() && i < |replies|
      ensures var o := Handle(old(Contents()), replies[i..], cnt);
              if more then
                var r := Handle(Contents(), replies[i + 1..], cnt);
                && r.left == o.left
                && taken + r.confirmed == old(taken) + o.confirmed
                && pushed + r.added == old(pushed) + o.added
              else
                && RolledBack(o.left)
                && taken == old(taken) + o.confirmed
                && pushed == old(pushed) + o.added
    {
      ghost var q := Contents();
      HandleEnd(q, replies, i, cnt);
      var reply := if i < |replies| then replies[i] else Reply(false, []);
      more := ConfirmOne(reply);
      if more {
        hide Offer, RolledBack, Handle;
        HandleNext(q, replies, i, cnt, old(taken), old(pushed));
      } else if q != [] && i == |replies| {
        assert Offer(q[1..], [], cnt) == q[1..];
        assert [q[0]] + q[1..] == q;
      }
    }

    /**
     * ipc_host_tx_cfm_handler. Once the replies run out the callback confirms nothing more. The ring is valid
     * afterwards if and only if the queue left fits it.
     */
    method HandleConfirmations(replies: seq<Reply>) returns (ghost o: Outcome)
      requires Valid() && forall i :: 0 <= i < |replies| ==> RealIds(replies[i].pushes)
      modifies this`usedIdx, this`freeIdx, this`pushed, this`taken, hostId
      ensures o == Handle(old(Contents()), replies, cnt) && RolledBack(o.left)
      ensures Valid() <==> |o.left| <= cnt
      ensures Valid() ==> Contents() == o.left
      ensures taken == old(taken) + o.confirmed && pushed == old(pushed) + o.added
    {
      o := Handle(Contents(), replies, cnt);
      assert replies[0..] == replies;
      var i, more := 0, true;
      while more
        invariant i <= |replies| && (more ==> Valid())
        invariant more ==>
                    var r := Handle(Contents(), replies[i..], cnt);
                    && r.left == o.left
                    && taken + r.confirmed == old(taken) + o.confirmed
                    && pushed + r.added == old(pushed) + o.added
        invariant !more ==>
                    && RolledBack(o.left)
                    && taken == old(taken) + o.confirmed
                    && pushed == old(pushed) + o.added
        decreases more, |replies| - i
      {
        more := Turn(replies, i);
        hide Handle;
        if more {
          i := i + 1;
        }
      }
    }
  }

  /** A ring of eight holding 1 to 8. */
  method FullRing() returns (ring: TxQueue)
    ensures fresh(ring) && fresh(ring.hostId) && ring.Valid() && ring.cnt == 8
    ensures ring.Contents() == ring.pushed == [1, 2, 3, 4, 5, 6, 7, 8] && ring.taken == []
  {
    hide Mask, After, TxQueue.Slot, TxQueue.Contents;
    ring := new TxQueue(8);
    var id := 1;
    while id <= 8
      invariant 1 <= id <= 9 && ring.Valid() && ring.cnt == 8 && fresh(ring) && fresh(ring.hostId)
      invariant ring.Contents() == ring.pushed == seq(id - 1, k => k + 1) && ring.taken == []
      decreases 9 - id
    {
      ring.Push(id);
      id := id + 1;
    }
  }

  /** On any full ring, an id its callback pushes before refusing is in no slot afterwards. */
  method RefuseOnFull(ring: TxQueue, id: HostId) returns (more: bool)
    requires ring.Valid() && |ring.Contents()| == ring.cnt && id != 0 && id !in ring.Contents()
    modifies ring`usedIdx, ring`freeIdx, ring`pushed, ring`taken, ring.hostId
    ensures !more && ring.pushed == old(ring.pushed) + [id] && ring.taken == old(ring.taken)
    ensures !ring.Valid() && id !in ring.hostId[..]
  {
    ghost var q, cnt := ring.Contents(), ring.cnt;
    more := ring.ConfirmOne(Reply(false, [id]));
    assert Offer(q[1..], [id], cnt) == q[1..] + [id];
    ghost var left := [q[0]] + (q[1..] + [id]);
    forall j | 0 <= j < cnt ensures ring.hostId[j] != id {
      var k := EverySlot(Mask(ring.usedIdx, cnt), j, cnt);
      assert ring.Slot(k) == left[k] == q[k];
    }
  }

  /** So 9, pushed on a ring that holds 1 to 8 by a callback that then refuses, is lost. */
  method LosesAPush() returns (ring: TxQueue)
    ensures ring.pushed == [1, 2, 3, 4, 5, 6, 7, 8, 9] && ring.taken == [] && 9 !in ring.hostId[..]
  {
    ring := FullRing();
    hide *;
    var more := RefuseOnFull(ring, 9);
  }

  /** Each slot is some number of places after any other. */
  lemma EverySlot(p: nat, j: nat, cnt: nat) returns (k: nat)
    requires p < cnt && j < cnt
    ensures k < cnt && After(p, k, cnt) == j
  {
    k := if p <= j then j - p else j + cnt - p;
  }

  // ----- All the rings -----

  class IpcHostEnv {
    /** queues[i][j] is the ring of hardware queue i and user j. */
    const queues: seq<seq<TxQueue>>

    constructor (queues: seq<seq<TxQueue>>)
      ensures this.queues == queues
    {
      this.queues := queues;
    }

    /** ipc_host_tx_frames_pending: compares indices only, which is enough. */
    method FramesPending() returns (pending: bool)
      requires forall i, j :: 0 <= i < |queues| && 0 <= j < |queues[i]| ==> queues[i][j].Valid()
      ensures pending <==> exists i, j :: 0 <= i < |queues| && 0 <= j < |queues[i]| && queues[i][j].Holding()
    {
      pending := false;
      var i := 0;
      while i < |queues| && !pending
        invariant i <= |queues|
        invariant !pending ==> forall i', j :: 0 <= i' < i && 0 <= j < |queues[i']| ==> !queues[i'][j].Holding()
        invariant pending ==> exists i', j :: 0 <= i' < |queues| && 0 <= j < |queues[i']| && queues[i'][j].Holding()
      {
        var j := 0;
        while j < |queues[i]|
          invariant j <= |queues[i]|
          invariant forall j' :: 0 <= j' < j ==> !queues[i][j'].Holding()
          invariant !pending
        {
          var ring := queues[i][j];
          if ring.usedIdx != ring.freeIdx {
            pending := true;
            assert queues[i][j].Holding();
            break;
          }
          j := j + 1;
        }
        i := i + 1;
      }
    }
  }
}
