/** The transmit buffers of aicwf_usb.c and the flow control on their number, in the build without aggregation. */
module UsbTxPool {
  import opened Wrappers
  import opened Counts

  /** AICWF_USB_TX_URBS. */
  const URBS: nat := 50
  /** AICWF_USB_TX_LOW_WATER: a quarter, rounded down. */
  const LOW: nat := 12
  /** AICWF_USB_TX_HIGH_WATER: three times that. */
  const HIGH: nat := 36

  /** A buffer of usb_tx_buf by its index. */
  type Buf = nat
  type Packet = int
  /** The skb field of a buffer. */
  type Slot = Option<Packet>

  /**
   * The pool. `hand` are buffers a sender has taken and not posted yet, `flight` those the USB core holds,
   * `owed` the senders that have still to look at the low water mark. `taken`, `posted`, `left` and `done` log
   * packets: given a buffer, put on the post list, gone from it, and released.
   */
  datatype Pool = Pool(
    free: seq<Buf>, post: seq<Buf>, hand: set<Buf>, flight: set<Buf>, busy: bool, owed: nat, skb: seq<Slot>,
    taken: seq<Slot>, posted: seq<Slot>, left: seq<Slot>, done: seq<Slot>)

  /** The pieces of the handlers that other handlers can come between. */
  datatype Event =
    | Take(up: bool, pkt: Packet)
    | Post(buf: Buf)
    | CheckLow
    | Submit(up: bool, sent: bool)
    | Return(buf: Buf)
    | CheckHigh
    | Prepare

  predicate Enabled(p: Pool, ev: Event) {
    match ev
    case Post(b) => b in p.hand
    case CheckLow => p.owed > 0
    case Return(b) => b in p.flight
    case _ => true
  }

  function SlotOf(skb: seq<Slot>, b: Buf): Slot {
    if b < |skb| then skb[b] else None
  }

  function SetSlot(skb: seq<Slot>, b: Buf, x: Slot): (r: seq<Slot>)
    ensures |r| == |skb|
  {
    if b < |skb| then skb[b := x] else skb
  }

  /** The packets on a list of buffers. */
  function Carried(bufs: seq<Buf>, skb: seq<Slot>): seq<Slot> {
    seq(|bufs|, i requires 0 <= i < |bufs| => SlotOf(skb, bufs[i]))
  }

  /** The first free buffer takes a packet; whose hands it is in is not said yet. */
  function Taken(p: Pool, pkt: Packet): Pool
    requires p.free != []
  {
    p.(free := p.free[1..], owed := p.owed + 1, skb := SetSlot(p.skb, p.free[0], Some(pkt)),
       taken := p.taken + [Some(pkt)])
  }

  /** A buffer comes back, its packet released. */
  function Released(p: Pool, b: Buf): Pool {
    p.(free := p.free + [b], skb := SetSlot(p.skb, b, None), done := p.done + [SlotOf(p.skb, b)])
  }

  function Unposted(p: Pool): Pool
    requires p.post != []
  {
    p.(post := p.post[1..], left := p.left + [SlotOf(p.skb, p.post[0])])
  }

  function Step(p: Pool, ev: Event): Pool {
    match ev
    case Take(up, pkt) =>
      if !up then p
      else if p.free == [] then p.(owed := p.owed + 1)
      else
        Taken(p, pkt).(hand := p.hand + {p.free[0]})
    case Post(b) =>
      p.(hand := p.hand - {b}, post := p.post + [b], posted := p.posted + [SlotOf(p.skb, b)])
    case CheckLow =>
      p.(busy := p.busy || |p.free| < LOW, owed := if p.owed > 0 then p.owed - 1 else 0)
    case Submit(up, sent) =>
      if p.post == [] || !up then p
      else if sent then Unposted(p).(flight := p.flight + {p.post[0]})
      else Released(Unposted(p), p.post[0])
    case Return(b) =>
      Released(p.(flight := p.flight - {b}), b)
    case CheckHigh =>
      p.(busy := p.busy && |p.free| <= HIGH)
    case Prepare =>
      if p.post == [] then p else Released(Unposted(p), p.post[0])
  }

  function Run(p: Pool, evs: seq<Event>): Pool
    decreases |evs|
  {
    if evs == [] then p else Run(Step(p, evs[0]), evs[1..])
  }

  predicate Possible(p: Pool, evs: seq<Event>)
    decreases |evs|
  {
    evs == [] || (Enabled(p, evs[0]) && Possible(Step(p, evs[0]), evs[1..]))
  }

  // ----- What every run keeps -----

  /** In how many places a buffer is. */
  function Places(p: Pool, b: Buf): nat {
    Count(b, p.free) + Count(b, p.post) + (if b in p.hand then 1 else 0) + if b in p.flight then 1 else 0
  }

  /** A buffer is in exactly one place, and holds a packet unless it is free. */
  ghost predicate Placed(p: Pool, b: Buf) {
    Places(p, b) == (if b < URBS then 1 else 0) && (b < URBS ==> (SlotOf(p.skb, b) == None <==> b in p.free))
  }

  ghost predicate Inv(p: Pool) {
    (forall b: Buf :: Placed(p, b)) && |p.skb| == URBS &&
    |p.free| + |p.post| + |p.hand| + |p.flight| == URBS &&
    p.posted == p.left + Carried(p.post, p.skb) &&
    (p.busy || p.owed > 0 || |p.free| >= LOW)
  }

  /** Each packet given a buffer is held by one or released, as often as it was given one. */
  predicate Balanced(p: Pool, pkt: Packet) {
    Count(Some(pkt), p.taken) == Count(Some(pkt), p.done) + Count(Some(pkt), p.skb)
  }

  lemma CountHead<T>(x: T, s: seq<T>)
    requires s != []
    ensures Count(x, s) == Count(x, s[1..]) + if x == s[0] then 1 else 0
  {
    CountAppend(x, [s[0]], s[1..]);
    assert s == [s[0]] + s[1..];
    assert [s[0]][..0] == [];
  }

  lemma CountLast<T>(x: T, s: seq<T>, y: T)
    ensures Count(x, s + [y]) == Count(x, s) + if x == y then 1 else 0
  {
    assert (s + [y])[..|s|] == s;
  }

  /** A change of one buffer's slot does not reach lists without it. */
  lemma CarriedElsewhere(bufs: seq<Buf>, skb: seq<Slot>, b: Buf, x: Slot)
    requires b !in bufs
    ensures Carried(bufs, SetSlot(skb, b, x)) == Carried(bufs, skb)
  {
  }

  lemma CarriedLast(bufs: seq<Buf>, skb: seq<Slot>, b: Buf)
    ensures Carried(bufs + [b], skb) == Carried(bufs, skb) + [SlotOf(skb, b)]
  {
  }

  lemma CarriedFirst(bufs: seq<Buf>, skb: seq<Slot>)
    requires bufs != []
    ensures Carried(bufs, skb) == [SlotOf(skb, bufs[0])] + Carried(bufs[1..], skb)
  {
  }

  /** `hole` is in no place for the moment; everything else is as in Inv. */
  ghost predicate InvBut(p: Pool, hole: Buf) {
    hole < URBS && Places(p, hole) == 0 && (forall b: Buf :: b != hole ==> Placed(p, b)) &&
    SlotOf(p.skb, hole) != None && |p.skb| == URBS &&
    |p.free| + |p.post| + |p.hand| + |p.flight| == URBS - 1 &&
    p.posted == p.left + Carried(p.post, p.skb) &&
    (p.busy || p.owed > 0 || |p.free| >= LOW)
  }

  lemma InOnePlace(p: Pool, b: Buf)
    requires Places(p, b) <= 1
    ensures b in p.free ==> b !in p.post && b !in p.hand && b !in p.flight
    ensures b in p.post ==> b !in p.free && b !in p.hand && b !in p.flight
    ensures b in p.free || b in p.post || b in p.hand || b in p.flight <==> Places(p, b) == 1
  {
    CountMember(b, p.free);
    CountMember(b, p.post);
  }

  lemma ReleasedKeeps(p: Pool, b: Buf)
    requires InvBut(p, b)
    ensures Inv(Released(p, b))
  {
    var r := Released(p, b);
    InOnePlace(p, b);
    CarriedElsewhere(p.post, p.skb, b, None);
    forall x: Buf ensures Placed(r, x) {
      if x != b { assert Placed(p, x); }
      CountLast(x, p.free, b);
    }
  }

  lemma UnpostedKeeps(p: Pool)
    requires Inv(p) && p.post != []
    ensures InvBut(Unposted(p), p.post[0])
  {
    var r, b := Unposted(p), p.post[0];
    CarriedFirst(p.post, p.skb);
    assert Placed(p, b);
    InOnePlace(p, b);
    CountHead(b, p.post);
    forall x: Buf | x != b ensures Placed(r, x) {
      assert Placed(p, x);
      CountHead(x, p.post);
    }
    assert p.left + Carried(p.post, p.skb) == p.left + [SlotOf(p.skb, b)] + Carried(r.post, p.skb);
  }

  lemma TakenKeeps(p: Pool, pkt: Packet)
    requires Inv(p) && p.free != []
    ensures InvBut(Taken(p, pkt), p.free[0])
  {
    var r, b := Taken(p, pkt), p.free[0];
    assert Placed(p, b);
    InOnePlace(p, b);
    CarriedElsewhere(p.post, p.skb, b, Some(pkt));
    CountHead(b, p.free);
    assert p.free == [b] + r.free;
    forall x: Buf | x != b ensures Placed(r, x) {
      assert Placed(p, x);
      CountHead(x, p.free);
    }
  }

  lemma HandedKeeps(p: Pool, b: Buf)
    requires InvBut(p, b)
    ensures Inv(p.(hand := p.hand + {b}))
  {
    var r := p.(hand := p.hand + {b});
    InOnePlace(p, b);
    forall x: Buf ensures Placed(r, x) {
      if x != b { assert Placed(p, x); }
    }
  }

  lemma TakeKeeps(p: Pool, pkt: Packet)
    requires Inv(p)
    ensures Inv(Step(p, Take(true, pkt)))
  {
    if p.free == [] {
      assert forall b: Buf :: Placed(p, b) ==> Placed(Step(p, Take(true, pkt)), b);
    } else {
      TakenKeeps(p, pkt);
      HandedKeeps(Taken(p, pkt), p.free[0]);
      hide Inv, InvBut, SetSlot;
    }
  }

  lemma PostKeeps(p: Pool, b: Buf)
    requires Inv(p) && b in p.hand
    ensures Inv(Step(p, Post(b)))
  {
    var r := Step(p, Post(b));
    CarriedLast(p.post, p.skb, b);
    assert p.left + Carried(p.post, p.skb) + [SlotOf(p.skb, b)] == p.left + Carried(r.post, p.skb);
    forall x: Buf ensures Placed(r, x) {
      assert Placed(p, x);
      CountLast(x, p.post, b);
    }
  }

  lemma SentKeeps(p: Pool, b: Buf)
    requires InvBut(p, b)
    ensures Inv(p.(flight := p.flight + {b}))
  {
    var r := p.(flight := p.flight + {b});
    InOnePlace(p, b);
    forall x: Buf ensures Placed(r, x) {
      if x != b { assert Placed(p, x); }
    }
  }

  lemma LandedKeeps(p: Pool, b: Buf)
    requires Inv(p) && b in p.flight
    ensures InvBut(p.(flight := p.flight - {b}), b)
  {
    var r := p.(flight := p.flight - {b});
    assert Placed(p, b);
    InOnePlace(p, b);
    forall x: Buf | x != b ensures Placed(r, x) {
      assert Placed(p, x);
    }
  }

  lemma StepKeeps(p: Pool, ev: Event)
    requires Inv(p) && Enabled(p, ev)
    ensures Inv(Step(p, ev))
  {
    match ev
    case Take(up, pkt) =>
      if up { TakeKeeps(p, pkt); }
    case Post(b) =>
      PostKeeps(p, b);
    case Submit(up, sent) =>
      if p.post != [] && up {
        UnpostedKeeps(p);
        if sent { SentKeeps(Unposted(p), p.post[0]); } else { ReleasedKeeps(Unposted(p), p.post[0]); }
      }
    case Return(b) =>
      LandedKeeps(p, b);
      ReleasedKeeps(p.(flight := p.flight - {b}), b);
    case Prepare =>
      if p.post != [] {
        UnpostedKeeps(p);
        ReleasedKeeps(Unposted(p), p.post[0]);
      }
    case CheckLow =>
      assert forall b: Buf :: Placed(p, b) ==> Placed(Step(p, ev), b);
    case CheckHigh =>
      assert forall b: Buf :: Placed(p, b) ==> Placed(Step(p, ev), b);
  }

  lemma ReleasedBalances(p: Pool, b: Buf, pkt: Packet)
    requires Balanced(p, pkt) && b < |p.skb|
    ensures Balanced(Released(p, b), pkt)
  {
    CountLast(Some(pkt), p.done, SlotOf(p.skb, b));
    CountUpdate(Some(pkt), p.skb, b, None);
  }

  lemma StepBalances(p: Pool, ev: Event, pkt: Packet)
    requires Inv(p) && Enabled(p, ev) && Balanced(p, pkt)
    ensures Balanced(Step(p, ev), pkt)
  {
    if ev.Take? && ev.up && p.free != [] {
      var b := p.free[0];
      assert Placed(p, b);
      CountMember(b, p.free);
      CountLast(Some(pkt), p.taken, Some(ev.pkt));
      CountUpdate(Some(pkt), p.skb, b, Some(ev.pkt));
    } else if ev.Return? {
      assert Placed(p, ev.buf);
      ReleasedBalances(p.(flight := p.flight - {ev.buf}), ev.buf, pkt);
    } else if p.post != [] && ((ev.Submit? && ev.up && !ev.sent) || ev.Prepare?) {
      assert Placed(p, p.post[0]);
      CountMember(p.post[0], p.post);
      ReleasedBalances(Unposted(p), p.post[0], pkt);
    }
  }

  function Start(): Pool {
    Pool(Indices(URBS), [], {}, {}, false, 0, Blank(URBS), [], [], [], [])
  }

  function Indices(n: nat): seq<Buf> { seq(n, i requires 0 <= i => i) }

  function Blank(n: nat): seq<Slot> { seq(n, i => None) }

  lemma {:induction false} CountOnce(b: Buf, n: nat)
    ensures Count(b, Indices(n)) == if b < n then 1 else 0
  {
    if n > 0 {
      CountOnce(b, n - 1);
      assert Indices(n)[..n - 1] == Indices(n - 1);
    }
  }

  lemma {:induction false} CountNone(pkt: Packet, n: nat)
    ensures Count(Some(pkt), Blank(n)) == 0
  {
    if n > 0 {
      CountNone(pkt, n - 1);
      assert Blank(n)[..n - 1] == Blank(n - 1);
    }
  }

  lemma StartIsClean(pkt: Packet)
    ensures Inv(Start()) && Balanced(Start(), pkt) && |Start().free| == 50 && Start().owed == 0
    ensures Start().hand == Start().flight == {} && Start().done == []
    ensures Start().free == Indices(URBS) && Start().post == [] && Start().skb == Blank(URBS) && !Start().busy
  {
    CountNone(pkt, URBS);
    forall b: Buf ensures Placed(Start(), b) {
      CountOnce(b, URBS);
      CountMember(b, Start().free);
    }
  }

  /**
   * In every run, whatever comes between the pieces of the handlers, each buffer is in one place, packets leave the
   * post list in the order they were put there, and open queues mean that enough is free or somebody will look.
   */
  lemma {:induction false} RunKeeps(p: Pool, evs: seq<Event>)
    requires Inv(p) && Possible(p, evs)
    ensures Inv(Run(p, evs))
    decreases |evs|
  {
    if evs != [] {
      StepKeeps(p, evs[0]);
      RunKeeps(Step(p, evs[0]), evs[1..]);
    }
  }

  /** No packet given a buffer is lost or released twice. */
  lemma {:induction false} RunBalances(p: Pool, evs: seq<Event>, pkt: Packet)
    requires Inv(p) && Balanced(p, pkt) && Possible(p, evs)
    ensures Balanced(Run(p, evs), pkt)
    decreases |evs|
  {
    if evs != [] {
      StepKeeps(p, evs[0]);
      StepBalances(p, evs[0], pkt);
      RunBalances(Step(p, evs[0]), evs[1..], pkt);
    }
  }

  // ----- Flow control -----

  /** No more buffers become free than packets are released. */
  lemma {:induction false} FreeIsReleased(p: Pool, evs: seq<Event>)
    ensures |Run(p, evs).free| - |p.free| <= |Run(p, evs).done| - |p.done|
    decreases |evs|
  {
    if evs != [] { FreeIsReleased(Step(p, evs[0]), evs[1..]); }
  }

  predicate Stops(p: Pool, ev: Event) { !p.busy && Step(p, ev).busy }

  predicate Wakes(p: Pool, ev: Event) { p.busy && !Step(p, ev).busy }

  /** From a stop of the network queues to any later wake at least 26 packets are released with their buffers. */
  lemma StopToWake(p: Pool, stop: Event, evs: seq<Event>, wake: Event)
    requires Stops(p, stop) && Wakes(Run(Step(p, stop), evs), wake)
    ensures |Run(Step(p, stop), evs).done| - |Step(p, stop).done| >= 26
  {
    FreeIsReleased(Step(p, stop), evs);
  }

  /** With no sender half-way, open queues mean that a quarter of the buffers is free. */
  lemma OpenMeansFree(p: Pool, evs: seq<Event>)
    requires Inv(p) && Possible(p, evs)
    ensures var r := Run(p, evs); r.owed == 0 && !r.busy ==> |r.free| >= 12
  {
    RunKeeps(p, evs);
  }

  // ----- The handlers in place -----

  /** A list of buffers and its counter. */
  class BufferList {
    var list: seq<Buf>
    var count: int

    ghost predicate Valid()
      reads this
    {
      count == |list|
    }

    constructor ()
      ensures Valid() && list == []
    {
      list, count := [], 0;
    }

    /** aicwf_usb_tx_dequeue. */
    method Dequeue() returns (b: Option<Buf>)
      requires Valid()
      modifies this
      ensures Valid()
      ensures if old(list) == [] then b == None && list == [] else b == Some(old(list)[0]) && list == old(list)[1..]
    {
      if list == [] {
        return None;
      }
      b := Some(list[0]);
      list := list[1..];
      count := count - 1;
    }

    /** aicwf_usb_tx_queue. */
    method Queue(b: Buf)
      requires Valid()
      modifies this
      ensures Valid() && list == old(list) + [b]
    {
      list := list + [b];
      count := count + 1;
    }

    /** aicwf_usb_free_urb, which does not count. */
    method FreeUrbs()
      modifies this
      ensures list == [] && count == old(count)
    {
      while list != []
        invariant count == old(count)
        decreases |list|
      {
        list := list[1..];
      }
    }
  }

  /**
   * aicwf_usb_alloc_tx_urb, when `granted` URBs can be had. If that is too few the list is given up, with its
   * counter left where it was.
   */
  method AllocTxUrbs(n: nat, granted: nat) returns (ret: int, free: BufferList)
    ensures fresh(free) && ret == if granted < n then -12 else 0
    ensures ret == 0 ==> free.Valid() && free.list == Indices(n)
    ensures ret != 0 ==> free.list == [] && free.count == granted
  {
    free := new BufferList();
    var i := 0;
    while i < n
      invariant 0 <= i <= n && i <= granted && fresh(free) && free.Valid() && free.list == Indices(i)
    {
      if i == granted {
        free.FreeUrbs();
        return -ENOMEM, free;
      }
      free.Queue(i);
      i := i + 1;
    }
    ret := 0;
  }

  method BlankSlots(n: nat) returns (skb: array<Slot>)
    ensures fresh(skb) && skb[..] == Blank(n)
  {
    skb := new Slot[n](_ => None);
  }

  /** What usb_submit_urb returns, and the device state when it comes to that. */
  datatype Try = Try(up: bool, ret: int)

  const EIO: int := 5
  const ENOMEM: int := 12
  const ENODEV: int := 19

  /** The loop of aicwf_usb_tx_process stops on an empty list, a device that is down, and one that is gone. */
  function Submits(p: Pool, tries: seq<Try>): seq<Event>
    requires |tries| >= |p.post|
    decreases |p.post|
  {
    if p.post == [] || !tries[0].up then []
    else
      var ev := Submit(true, tries[0].ret == 0);
      [ev] + if tries[0].ret == -ENODEV then [] else Submits(Step(p, ev), tries[1..])
  }

  /** The buffers that the USB core accepts, and those it refuses, in order. */
  function Accepted(bufs: seq<Buf>, tries: seq<Try>): set<Buf>
    requires |tries| >= |bufs|
  {
    if bufs == [] then {} else (if tries[0].ret == 0 then {bufs[0]} else {}) + Accepted(bufs[1..], tries[1..])
  }

  function Refused(bufs: seq<Buf>, tries: seq<Try>): seq<Buf>
    requires |tries| >= |bufs|
  {
    if bufs == [] then [] else (if tries[0].ret == 0 then [] else [bufs[0]]) + Refused(bufs[1..], tries[1..])
  }

  /** `r` is the pool after `n` rounds of the loop: it stopped there, and not before. */
  ghost predicate Submitted(p: Pool, tries: seq<Try>, n: nat, r: Pool)
    requires |tries| >= |p.post|
  {
    && n <= |p.post| && r.post == p.post[n..]
    && (forall i :: 0 <= i < n ==> tries[i].up && (i < n - 1 ==> tries[i].ret != -19))
    && (n < |p.post| ==> !tries[n].up || (n > 0 && tries[n - 1].ret == -19))
    && r.flight == p.flight + Accepted(p.post[..n], tries)
    && r.free == p.free + Refused(p.post[..n], tries)
  }

  lemma SubmittedFirst(p: Pool, tries: seq<Try>, n: nat, r: Pool)
    requires |tries| >= |p.post| > 0 && tries[0].up && n > 0
    requires var q := Step(p, Submit(true, tries[0].ret == 0));
             if tries[0].ret == -19 then n == 1 && r == q
             else |tries[1..]| >= |q.post| && Submitted(q, tries[1..], n - 1, r)
    ensures Submitted(p, tries, n, r)
  {
    assert p.post[..n][1..] == p.post[1..][..n - 1] && p.post[n..] == p.post[1..][n - 1..];
    assert p.post[1..][..0] == [];
  }

  /**
   * The loop comes as far as the first try that finds the device down, which takes no buffer, or gone, which takes
   * one. What it takes is in flight if the USB core accepted it, and else free again; no other refusal stops it.
   */
  lemma {:induction false} SubmitsEffect(p: Pool, tries: seq<Try>)
    requires |tries| >= |p.post|
    ensures Submitted(p, tries, |Submits(p, tries)|, Run(p, Submits(p, tries)))
    decreases |p.post|
  {
    if p.post != [] && tries[0].up {
      var ev := Submit(true, tries[0].ret == 0);
      var q := Step(p, ev);
      if tries[0].ret != -ENODEV {
        SubmitsEffect(q, tries[1..]);
        RunFirst(p, ev, Submits(q, tries[1..]));
      } else {
        RunFirst(p, ev, []);
        assert [ev] + [] == [ev];
      }
      SubmittedFirst(p, tries, |Submits(p, tries)|, Run(p, Submits(p, tries)));
      hide Submitted;
    }
  }

  /** A whole aicwf_usb_bus_txdata; without a buffer it still looks at the low water mark. */
  function Sends(p: Pool, up: bool, pkt: Packet): seq<Event> {
    if !up then [Take(up, pkt)]
    else if p.free == [] then [Take(up, pkt), CheckLow]
    else [Take(up, pkt), Post(p.free[0]), CheckLow]
  }

  lemma SendsRun(p: Pool, up: bool, pkt: Packet)
    ensures var q := Step(p, Take(up, pkt));
            Run(p, Sends(p, up, pkt))
            == if !up then q
               else if p.free == [] then Step(q, CheckLow)
               else Step(Step(q, Post(p.free[0])), CheckLow)
  {
    var take := Take(up, pkt);
    hide Step;
    if !up {
      RunFirst(p, take, []);
      assert [take] + [] == [take];
    } else if p.free == [] {
      RunTwo(p, take, CheckLow);
    } else {
      RunFirst(p, take, [Post(p.free[0]), CheckLow]);
      RunTwo(Step(p, take), Post(p.free[0]), CheckLow);
      assert [take] + [Post(p.free[0]), CheckLow] == Sends(p, up, pkt);
    }
  }

  /** A packet that gets a buffer is posted last, and open queues stop exactly when it leaves eleven buffers free. */
  lemma SendsEffect(p: Pool, pkt: Packet)
    requires Inv(p)
    ensures Run(p, Sends(p, false, pkt)) == p
    ensures var r := Run(p, Sends(p, true, pkt));
            && r.owed == p.owed && r.post == p.post + (if p.free == [] then [] else [p.free[0]])
            && (p.free != [] ==> r.posted == p.posted + [Some(pkt)])
            && (p.owed == 0 && !p.busy ==> (r.busy <==> |p.free| == 12))
  {
    SendsRun(p, true, pkt);
    SendsRun(p, false, pkt);
    if p.free != [] {
      assert Placed(p, p.free[0]);
      CountMember(p.free[0], p.free);
    }
    hide Run, Sends;
  }

  class UsbTx {
    const txFree: BufferList
    const txPost: BufferList
    const skb: array<Slot>
    var tbusy: bool
    ghost var pool: Pool

    /** The fields hold the pool, both counters are exact, and the pool is as every run keeps it. */
    ghost predicate Valid()
      reads this, txFree, txPost, skb
    {
      txFree != txPost && txFree.Valid() && txPost.Valid() && Inv(pool) &&
      pool.free == txFree.list && pool.post == txPost.list && pool.skb == skb[..] && pool.busy == tbusy
    }

    /** aicwf_usb_init, with every URB allocated. */
    constructor ()
      ensures Valid() && pool == Start() && fresh(txFree) && fresh(txPost) && fresh(skb)
    {
      hide Inv, Indices, Blank, Start, Count, Carried, Places, Placed;
      var _, free := AllocTxUrbs(URBS, URBS);
      var post := new BufferList();
      txFree, txPost, tbusy := free, post, false;
      var slots := BlankSlots(URBS);
      skb := slots;
      pool := Start();
      StartIsClean(0);
      new;
    }

    /** The first half of aicwf_usb_bus_txdata: a buffer for the packet, or an error. */
    method TakeBuffer(up: bool, pkt: Packet) returns (ret: int, b: Option<Buf>)
      requires Valid()
      modifies this`pool, txFree, skb
      ensures Valid() && pool == Step(old(pool), Take(up, pkt))
      ensures if !up then ret == -5 && b == None
              else if old(pool).free == [] then ret == -12 && b == None
              else ret == 0 && b == Some(old(pool).free[0]) && b.value in pool.hand
    {
      ghost var next := Step(pool, Take(up, pkt));
      StepKeeps(pool, Take(up, pkt));
      hide Inv, Blank;
      if !up {
        return -EIO, None;
      }
      b := txFree.Dequeue();
      if b == None {
        ret := -ENOMEM;
      } else {
        SetBuffer(b.value, Some(pkt));
        ret := 0;
      }
      pool := next;
    }

    /** usb_buf->skb = packet. */
    method SetBuffer(b: Buf, x: Slot)
      requires Inv(pool) && skb[..] == pool.skb
               && (b in pool.free || b in pool.post || b in pool.hand || b in pool.flight)
      modifies skb
      ensures skb[..] == SetSlot(old(skb[..]), b, x)
    {
      assert Placed(pool, b);
      CountMember(b, pool.free);
      CountMember(b, pool.post);
      skb[b] := x;
    }

    /** The second half: the buffer goes on the post list. */
    method PostBuffer(b: Buf)
      requires Valid() && b in pool.hand
      modifies this`pool, txPost
      ensures Valid() && pool == Step(old(pool), Post(b))
    {
      StepKeeps(pool, Post(b));
      txPost.Queue(b);
      pool := Step(pool, Post(b));
    }

    /** The low water mark. */
    method FlowControl()
      requires Valid() && pool.owed > 0
      modifies this`pool, this`tbusy
      ensures Valid() && pool == Step(old(pool), CheckLow)
    {
      StepKeeps(pool, CheckLow);
      if txFree.count < LOW {
        tbusy := true;
      }
      pool := Step(pool, CheckLow);
    }

    /** aicwf_usb_bus_txdata with nothing between its pieces. */
    method BusTxData(up: bool, pkt: Packet) returns (ret: int)
      requires Valid()
      modifies this`pool, this`tbusy, txFree, txPost, skb
      ensures Valid() && pool == Run(old(pool), Sends(old(pool), up, pkt))
      ensures ret == if !up then -5 else if old(pool).free == [] then -12 else 0
      ensures ret == 0 ==> pool.posted == old(pool).posted + [Some(pkt)]
      ensures up && old(pool).owed == 0 && !old(tbusy) ==> (tbusy <==> old(txFree.count) == 12)
    {
      ghost var was := pool;
      SendsRun(was, up, pkt);
      SendsEffect(was, pkt);
      hide Inv, Run, Sends;
      var b;
      ret, b := TakeBuffer(up, pkt);
      if ret == -EIO {
        return;
      }
      if b != None {
        PostBuffer(b.value);
      }
      FlowControl();
    }

    /** A buffer comes back: its packet is released and it goes to the end of the free list. */
    method Release(b: Buf)
      requires InvBut(pool, b) && txFree != txPost && txFree.Valid() && txPost.Valid()
      requires pool.free == txFree.list && pool.post == txPost.list && pool.skb == skb[..] && pool.busy == tbusy
      modifies this`pool, txFree, skb
      ensures Valid() && pool == Released(old(pool), b)
    {
      ReleasedKeeps(pool, b);
      skb[b] := None;
      txFree.Queue(b);
      pool := Released(pool, b);
    }

    /** aicwf_usb_tx_complete: return the buffer, then look at the high water mark. */
    method TxComplete(b: Buf)
      requires Valid() && b in pool.flight
      modifies this`pool, this`tbusy, txFree, skb
      ensures Valid() && pool == Run(old(pool), [Return(b), CheckHigh])
      ensures tbusy <==> old(tbusy) && old(txFree.count) < 36
    {
      ghost var was := pool;
      LandedKeeps(pool, b);
      pool := pool.(flight := pool.flight - {b});
      Release(b);
      StepKeeps(pool, CheckHigh);
      if txFree.count > HIGH {
        if tbusy {
          tbusy := false;
        }
      }
      pool := Step(pool, CheckHigh);
      RunTwo(was, Return(b), CheckHigh);
    }

    /** One round of the loop of aicwf_usb_tx_process. */
    method SubmitFirst(ret: int)
      requires Valid() && pool.post != []
      modifies this`pool, txFree, txPost, skb
      ensures Valid() && pool == Step(old(pool), Submit(true, ret == 0))
    {
      ghost var was := pool;
      UnpostedKeeps(pool);
      hide Inv, InvBut;
      var b := txPost.Dequeue();
      pool := Unposted(pool);
      if ret != 0 {
        Release(b.value);
      } else {
        SentKeeps(pool, b.value);
        pool := pool.(flight := pool.flight + {b.value});
      }
    }

    /** aicwf_usb_tx_process. */
    method TxProcess(tries: seq<Try>)
      requires Valid() && |tries| >= |pool.post|
      modifies this`pool, txFree, txPost, skb
      ensures Valid() && pool == Run(old(pool), Submits(old(pool), tries))
    {
      var i := 0;
      hide Inv, Step;
      while txPost.list != []
        invariant Valid() && 0 <= i && |tries| - i >= |pool.post|
        invariant Run(pool, Submits(pool, tries[i..])) == Run(old(pool), Submits(old(pool), tries))
        decreases |txPost.list|
      {
        if !tries[i].up {
          return;
        }
        ghost var was := pool;
        SubmitShrinks(was, tries[i].ret == 0);
        SubmitFirst(tries[i].ret);
        assert tries[i..][1..] == tries[i + 1..];
        if tries[i].ret == -ENODEV {
          return;
        }
        i := i + 1;
      }
    }

    /** aicwf_usb_tx_prepare: what is still posted is dropped. */
    method TxPrepare()
      requires Valid()
      modifies this`pool, txFree, txPost, skb
      ensures Valid() && pool == Run(old(pool), seq(|old(pool).post|, i => Prepare)) && pool.post == []
    {
      hide Inv, InvBut;
      while txPost.list != []
        invariant Valid()
        invariant Run(pool, seq(|pool.post|, i => Prepare)) == Run(old(pool), seq(|old(pool).post|, i => Prepare))
        decreases |txPost.list|
      {
        ghost var was := pool;
        UnpostedKeeps(pool);
        var b := txPost.Dequeue();
        pool := Unposted(pool);
        Release(b.value);
        assert seq(|was.post|, i => Prepare)[1..] == seq(|pool.post|, i => Prepare);
      }
    }
  }

  lemma RunTwo(p: Pool, a: Event, b: Event)
    ensures Run(p, [a, b]) == Step(Step(p, a), b)
  {
    RunFirst(p, a, [b]);
    RunFirst(Step(p, a), b, []);
    assert [b] + [] == [b];
    hide Step;
  }

  lemma RunFirst(p: Pool, ev: Event, evs: seq<Event>)
    ensures Run(p, [ev] + evs) == Run(Step(p, ev), evs)
  {
    assert ([ev] + evs)[1..] == evs;
    hide Step;
  }

  lemma SubmitShrinks(p: Pool, sent: bool)
    requires p.post != []
    ensures Step(p, Submit(true, sent)).post == p.post[1..]
  {
  }
}
