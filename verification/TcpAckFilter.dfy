/** The 32-slot TCP ACK coalescer of aicwf_tcp_ack.c as a state machine: one handler call per step. */
module TcpAckFilter {
  import opened Words
  import opened Wrappers
  import opened TcpAckSlot

  const TCP_ACK_NUM: nat := 32

  /** struct tcp_ack_manage, with its two constants of a run: the slot age limit and the drop bound. */
  datatype State = State(enable: bool, maxNum: int, freeIndex: int, lastTime: nat, slots: seq<Slot>)
  datatype Config = Config(timeout: nat, maxDrop: nat)

  /** A frame offered to the filter, as tcp_check_ack classifies it. */
  datatype Packet = Packet(msg: Msg, drop: nat, winScale: u16)

  datatype Outcome = Outcome(state: State, sent: seq<Msg>, freed: seq<Msg>)

  // ----- The handlers as functions of the state -----

  function MatchFrom(slots: seq<Slot>, flow: Flow, i: nat): (r: int)
    requires i <= |slots|
    ensures -1 <= r < |slots| && (r >= 0 ==> i <= r)
    decreases |slots| - i
  {
    if i == |slots| then -1
    else if slots[i].busy && slots[i].flow == flow then i
    else MatchFrom(slots, flow, i + 1)
  }

  function FreeFrom(slots: seq<Slot>, i: nat): (r: int)
    requires i <= |slots|
    ensures -1 <= r < |slots| && (r >= 0 ==> i <= r)
    decreases |slots| - i
  {
    if i == |slots| then -1 else if !slots[i].busy then i else FreeFrom(slots, i + 1)
  }

  predicate Old(s: Slot, now: nat, c: Config) {
    s.busy && now > s.lastTime + c.timeout
  }

  function ReleaseIfOld(st: State, i: nat, now: nat, c: Config): (r: State)
    requires i < |st.slots|
    ensures |r.slots| == |st.slots|
  {
    if Old(st.slots[i], now, c) then
      st.(freeIndex := i, maxNum := st.maxNum - 1, slots := st.slots[i := st.slots[i].(busy := false)])
    else st
  }

  function ReleaseDown(st: State, n: nat, now: nat, c: Config): (r: State)
    requires n <= |st.slots|
    ensures |r.slots| == |st.slots|
    decreases n
  {
    if n == 0 then st else ReleaseDown(ReleaseIfOld(st, n - 1, now, c), n - 1, now, c)
  }

  lemma ReleaseDownNext(st: State, n: nat, now: nat, c: Config)
    requires n <= |st.slots|
    ensures ReleaseDown(st, n, now, c)
            == if n == 0 then st else ReleaseDown(ReleaseIfOld(st, n - 1, now, c), n - 1, now, c)
  {
  }

  /** tcp_ack_update. */
  function Update(st: State, now: nat, c: Config): (r: State)
    ensures |r.slots| == |st.slots|
  {
    if now > st.lastTime + c.timeout then ReleaseDown(st.(lastTime := now), |st.slots|, now, c) else st
  }

  /** tcp_ack_alloc_index: the index, or -1, and the new manager fields. */
  function AllocIndex(st: State): int {
    if st.maxNum == TCP_ACK_NUM then -1 else if st.freeIndex >= 0 then st.freeIndex else FreeFrom(st.slots, 0)
  }

  function Allocated(st: State): State {
    if AllocIndex(st) >= 0 then st.(freeIndex := -1, maxNum := st.maxNum + 1) else st
  }

  /** filter_send_tcp_ack on a frame of a flow that slot `i` follows. */
  function ToOwner(u: State, i: nat, p: Packet, now: nat, c: Config): Outcome
    requires i < |u.slots|
  {
    var s := if p.winScale != 0 then u.slots[i].(winScale := p.winScale) else u.slots[i];
    if p.drop > 0 && u.enable then
      var e := Offer(s, p.msg, now, c.maxDrop);
      Outcome(u.(slots := u.slots[i := e.slot]), e.sent, e.freed)
    else Outcome(u.(slots := u.slots[i := s]), [p.msg], [])
  }

  /** The same on a frame of a new flow, which takes a free slot if there is one. */
  function ToNewSlot(u: State, p: Packet, now: nat, c: Config): Outcome {
    var j := AllocIndex(u);
    if 0 <= j < |u.slots| then
      Outcome(Allocated(u).(slots := u.slots[j := Begin(u.slots[j], p.msg, p.winScale, now, c.maxDrop)]), [p.msg], [])
    else Outcome(u, [p.msg], [])
  }

  /** filter_send_tcp_ack; `sent` is what the caller goes on to transmit. */
  function Send(st: State, p: Packet, now: nat, c: Config): Outcome {
    var u := Update(st, now, c);
    var i := MatchFrom(u.slots, p.msg.flow, 0);
    if p.drop == 0 && p.winScale == 0 then Outcome(u, [p.msg], [])
    else if i >= 0 then ToOwner(u, i, p, now, c)
    else ToNewSlot(u, p, now, c)
  }

  function Completions(slots: seq<Slot>, id: nat): (r: seq<Slot>)
    ensures |r| == |slots|
  {
    seq(|slots|, i requires 0 <= i < |slots| => Complete(slots[i], id))
  }

  function Emptied(slots: seq<Slot>): (r: seq<Slot>)
    ensures |r| == |slots|
  {
    seq(|slots|, i requires 0 <= i < |slots| => slots[i].(held := None, timerPending := false))
  }

  /** A shutdown that has come as far as slot `n`. */
  function EmptiedTo(slots: seq<Slot>, n: nat): (r: seq<Slot>)
    requires n <= |slots|
    ensures |r| == |slots|
  {
    Emptied(slots[..n]) + slots[n..]
  }

  lemma EmptiedNext(slots: seq<Slot>, n: nat)
    requires n < |slots|
    ensures EmptiedTo(slots, 0) == slots && EmptiedTo(slots, |slots|) == Emptied(slots)
    ensures EmptiedTo(slots, n)[n] == slots[n]
    ensures EmptiedTo(slots, n)[n := slots[n].(held := None, timerPending := false)] == EmptiedTo(slots, n + 1)
  {
    assert slots[..|slots|] == slots;
  }

  function HeldOf(s: Slot): seq<Msg> {
    if s.held.Some? then [s.held.value] else []
  }

  /** The held buffers, in slot order. */
  function AllHeld(slots: seq<Slot>): seq<Msg> {
    if slots == [] then [] else AllHeld(slots[..|slots| - 1]) + HeldOf(slots[|slots| - 1])
  }

  lemma AllHeldNext(slots: seq<Slot>, n: nat)
    requires n < |slots|
    ensures AllHeld(slots[..n + 1]) == AllHeld(slots[..n]) + HeldOf(slots[n]) && AllHeld(slots[..0]) == []
  {
    assert slots[..n + 1][..n] == slots[..n];
  }

  datatype Event =
    | Sending(p: Packet, now: nat)
    | Timer(i: nat, late: bool)
    | Receiving(flow: Flow, psh: u32)
    | Done(id: nat)
    | Deinit

  /** One handler call. */
  function Step(st: State, e: Event, c: Config): Outcome {
    match e
    case Sending(p, now) => Send(st, p, now, c)
    case Timer(i, late) =>
      if i < |st.slots| then
        var f := Fire(st.slots[i], late);
        Outcome(st.(slots := st.slots[i := f.slot]), f.sent, f.freed)
      else Outcome(st, [], [])
    case Receiving(flow, psh) =>
      var i := MatchFrom(st.slots, flow, 0);
      if st.enable && i >= 0 then Outcome(st.(slots := st.slots[i := MarkPush(st.slots[i], psh)]), [], [])
      else Outcome(st, [], [])
    case Done(id) =>
      if st.enable then Outcome(st.(slots := Completions(st.slots, id)), [], []) else Outcome(st, [], [])
    case Deinit =>
      Outcome(st.(enable := false, slots := Emptied(st.slots)), [], AllHeld(st.slots))
  }

  // ----- The slot allocator -----

  function BusyCount(slots: seq<Slot>): nat {
    if slots == [] then 0 else BusyCount(slots[..|slots| - 1]) + if slots[|slots| - 1].busy then 1 else 0
  }

  /** No two busy slots carry the same 4-tuple. */
  ghost predicate OneSlotPerFlow(slots: seq<Slot>) {
    forall i, j :: 0 <= i < j < |slots| && slots[i].busy && slots[j].busy ==> slots[i].flow != slots[j].flow
  }

  ghost predicate Inv(st: State) {
    && |st.slots| == TCP_ACK_NUM
    && st.maxNum == BusyCount(st.slots)
    && -1 <= st.freeIndex < TCP_ACK_NUM
    && (st.freeIndex >= 0 ==> !st.slots[st.freeIndex].busy)
    && OneSlotPerFlow(st.slots)
  }

  lemma {:induction false} BusyCountUpdate(slots: seq<Slot>, i: nat, s: Slot)
    requires i < |slots|
    ensures BusyCount(slots[i := s]) == BusyCount(slots) - (if slots[i].busy then 1 else 0) + (if s.busy then 1 else 0)
    ensures slots[i].busy ==> BusyCount(slots) >= 1
  {
    var n := |slots| - 1;
    if i < n {
      assert slots[i := s][..n] == slots[..n][i := s];
      BusyCountUpdate(slots[..n], i, s);
    } else {
      assert slots[i := s][..n] == slots[..n];
    }
  }

  lemma {:induction false} BusyCountFull(slots: seq<Slot>)
    ensures BusyCount(slots) <= |slots|
    ensures BusyCount(slots) == |slots| <==> forall i :: 0 <= i < |slots| ==> slots[i].busy
  {
    if slots != [] {
      var n := |slots| - 1;
      BusyCountFull(slots[..n]);
      assert forall i :: 0 <= i < n ==> slots[i] == slots[..n][i];
    }
  }

  lemma {:induction false} BusyCountSame(a: seq<Slot>, b: seq<Slot>)
    requires |a| == |b| && forall i :: 0 <= i < |a| ==> a[i].busy == b[i].busy
    ensures BusyCount(a) == BusyCount(b)
  {
    if a != [] {
      BusyCountSame(a[..|a| - 1], b[..|b| - 1]);
    }
  }

  lemma {:induction false} FreeFromFinds(slots: seq<Slot>, i: nat)
    requires i <= |slots|
    ensures var r := FreeFrom(slots, i);
            if r >= 0 then !slots[r].busy else forall k :: i <= k < |slots| ==> slots[k].busy
    decreases |slots| - i
  {
    if i < |slots| && slots[i].busy { FreeFromFinds(slots, i + 1); }
  }

  /** Allocation fails exactly when all 32 slots are busy, and never hands out a busy one. */
  lemma AllocFindsFree(st: State)
    requires Inv(st)
    ensures AllocIndex(st) == -1 <==> forall i :: 0 <= i < TCP_ACK_NUM ==> st.slots[i].busy
    ensures -1 <= AllocIndex(st) < TCP_ACK_NUM
    ensures AllocIndex(st) >= 0 ==> !st.slots[AllocIndex(st)].busy
  {
    BusyCountFull(st.slots);
    FreeFromFinds(st.slots, 0);
  }

  lemma {:induction false} MatchFromFinds(slots: seq<Slot>, flow: Flow, i: nat)
    requires i <= |slots|
    ensures var r := MatchFrom(slots, flow, i);
            if r >= 0 then slots[r].busy && slots[r].flow == flow
            else forall k :: i <= k < |slots| && slots[k].busy ==> slots[k].flow != flow
    decreases |slots| - i
  {
    if i < |slots| && !(slots[i].busy && slots[i].flow == flow) { MatchFromFinds(slots, flow, i + 1); }
  }

  /** tcp_ack_match finds the unique owner of a flow, or there is none. */
  lemma MatchIsUnique(st: State, flow: Flow, k: nat)
    requires Inv(st) && k < TCP_ACK_NUM && st.slots[k].busy && st.slots[k].flow == flow
    ensures MatchFrom(st.slots, flow, 0) == k
  {
    MatchFromFinds(st.slots, flow, 0);
  }

  // ----- Every handler keeps the allocator invariant -----

  /** Replacing a busy slot by a busy one of the same flow, or a busy one by a free one. */
  lemma InvUpdate(st: State, i: nat, s: Slot)
    requires Inv(st) && i < TCP_ACK_NUM && s.busy == st.slots[i].busy && s.flow == st.slots[i].flow
    ensures Inv(st.(slots := st.slots[i := s]))
  {
    BusyCountUpdate(st.slots, i, s);
  }

  lemma ReleaseKeeps(st: State, i: nat, now: nat, c: Config)
    requires Inv(st) && i < TCP_ACK_NUM
    ensures Inv(ReleaseIfOld(st, i, now, c))
  {
    BusyCountUpdate(st.slots, i, st.slots[i].(busy := false));
  }

  lemma {:induction false} ReleaseDownKeeps(st: State, n: nat, now: nat, c: Config)
    requires Inv(st) && n <= TCP_ACK_NUM
    ensures Inv(ReleaseDown(st, n, now, c))
    ensures forall i :: 0 <= i < TCP_ACK_NUM ==>
              ReleaseDown(st, n, now, c).slots[i]
              == if i < n && Old(st.slots[i], now, c) then st.slots[i].(busy := false) else st.slots[i]
    ensures ReleaseDown(st, n, now, c).enable == st.enable
    decreases n
  {
    if n > 0 {
      ReleaseKeeps(st, n - 1, now, c);
      hide Inv;
      ReleaseDownKeeps(ReleaseIfOld(st, n - 1, now, c), n - 1, now, c);
    }
  }

  /**
   * tcp_ack_update releases exactly the slots not used for longer than the timeout, when the last look at them is
   * that long ago too, and touches nothing else in any slot.
   */
  lemma UpdateKeeps(st: State, now: nat, c: Config)
    requires Inv(st)
    ensures var u := Update(st, now, c);
            && Inv(u) && u.enable == st.enable
            && forall i :: 0 <= i < TCP_ACK_NUM ==>
                 u.slots[i] == if && now > st.lastTime + c.timeout
                                  && st.slots[i].busy && now > st.slots[i].lastTime + c.timeout
                               then st.slots[i].(busy := false) else st.slots[i]
  {
    if now > st.lastTime + c.timeout {
      assert Inv(st.(lastTime := now));
      ReleaseDownKeeps(st.(lastTime := now), TCP_ACK_NUM, now, c);
    }
  }

  lemma AllocatedKeeps(st: State, s: Slot)
    requires Inv(st) && AllocIndex(st) >= 0 && MatchFrom(st.slots, s.flow, 0) == -1 && s.busy
    ensures Inv(Allocated(st).(slots := st.slots[AllocIndex(st) := s]))
  {
    AllocFindsFree(st);
    MatchFromFinds(st.slots, s.flow, 0);
    BusyCountUpdate(st.slots, AllocIndex(st), s);
  }

  lemma ToOwnerKeepsInv(u: State, i: nat, p: Packet, now: nat, c: Config)
    requires Inv(u) && i < TCP_ACK_NUM
    ensures Inv(ToOwner(u, i, p, now, c).state)
  {
    assert |u.slots| == TCP_ACK_NUM;
    hide Inv;
    InvUpdate(u, i, ToOwner(u, i, p, now, c).state.slots[i]);
  }

  lemma SendKeepsInv(st: State, p: Packet, now: nat, c: Config)
    requires Inv(st)
    ensures Inv(Send(st, p, now, c).state)
  {
    UpdateKeeps(st, now, c);
    var u := Update(st, now, c);
    AllocFindsFree(u);
    hide Inv, Update, ToOwner, Begin;
    var i := MatchFrom(u.slots, p.msg.flow, 0);
    if i >= 0 {
      ToOwnerKeepsInv(u, i, p, now, c);
    } else if AllocIndex(u) >= 0 {
      var s := Begin(u.slots[AllocIndex(u)], p.msg, p.winScale, now, c.maxDrop);
      assert s.busy && s.flow == p.msg.flow by {
        BeginOpens(u.slots[AllocIndex(u)], p.msg, p.winScale, now, c.maxDrop);
      }
      AllocatedKeeps(u, s);
    }
  }

  lemma BeginOpens(s: Slot, m: Msg, winScale: u16, now: nat, maxDrop: nat)
    ensures var t := Begin(s, m, winScale, now, maxDrop);
            && t.busy && t.flow == m.flow && t.ackSeq == m.ack && !t.pshFlag && t.lastTime == now
            && t.held == s.held && t.sending == s.sending
  {
  }

  lemma StepKeepsInv(st: State, e: Event, c: Config)
    requires Inv(st)
    ensures Inv(Step(st, e, c).state)
  {
    match e
    case Sending(p, now) => SendKeepsInv(st, p, now, c);
    case Timer(i, late) => if i < TCP_ACK_NUM { InvUpdate(st, i, Fire(st.slots[i], late).slot); }
    case Receiving(flow, psh) =>
      var i := MatchFrom(st.slots, flow, 0);
      if i >= 0 { InvUpdate(st, i, MarkPush(st.slots[i], psh)); }
    case Done(id) => BusyCountSame(st.slots, Completions(st.slots, id));
    case Deinit => BusyCountSame(st.slots, Emptied(st.slots));
  }

  // ----- Buffer ownership -----

  /** How often buffer `m` is held, and how often it occurs in a list. */
  function HeldCopies(slots: seq<Slot>, m: Msg): nat {
    if slots == [] then 0 else HeldCopies(slots[..|slots| - 1], m) + if slots[|slots| - 1].held == Some(m) then 1 else 0
  }

  function Copies(list: seq<Msg>, m: Msg): nat {
    if list == [] then 0 else Copies(list[..|list| - 1], m) + if list[|list| - 1] == m then 1 else 0
  }

  lemma {:induction false} HeldUpdate(slots: seq<Slot>, i: nat, s: Slot, m: Msg)
    requires i < |slots|
    ensures HeldCopies(slots[i := s], m)
            == HeldCopies(slots, m) - (if slots[i].held == Some(m) then 1 else 0) + (if s.held == Some(m) then 1 else 0)
  {
    var n := |slots| - 1;
    if i < n {
      assert slots[i := s][..n] == slots[..n][i := s];
      HeldUpdate(slots[..n], i, s, m);
    } else {
      assert slots[i := s][..n] == slots[..n];
    }
  }

  lemma {:induction false} HeldSame(a: seq<Slot>, b: seq<Slot>, m: Msg)
    requires |a| == |b| && forall i :: 0 <= i < |a| ==> a[i].held == b[i].held
    ensures HeldCopies(a, m) == HeldCopies(b, m)
  {
    if a != [] {
      HeldSame(a[..|a| - 1], b[..|b| - 1], m);
    }
  }

  lemma {:induction false} HeldNowhere(slots: seq<Slot>, m: Msg)
    ensures HeldCopies(slots, m) == 0 <==> forall i :: 0 <= i < |slots| ==> slots[i].held != Some(m)
  {
    if slots != [] {
      var n := |slots| - 1;
      HeldNowhere(slots[..n], m);
      assert forall i :: 0 <= i < n ==> slots[i] == slots[..n][i];
    }
  }

  lemma {:induction false} AllHeldCopies(slots: seq<Slot>, m: Msg)
    ensures Copies(AllHeld(slots), m) == HeldCopies(slots, m)
  {
    if slots != [] {
      var n := |slots| - 1;
      AllHeldCopies(slots[..n], m);
      if slots[n].held.Some? {
        assert AllHeld(slots)[..|AllHeld(slots)| - 1] == AllHeld(slots[..n]);
      } else {
        assert AllHeld(slots) == AllHeld(slots[..n]);
      }
    }
  }

  function Given(e: Event, m: Msg): nat {
    if e.Sending? && e.p.msg == m then 1 else 0
  }

  /** One handler call neither creates nor loses a copy of `m`: what was held or given is held, sent or freed. */
  ghost predicate Conserves(st: State, e: Event, o: Outcome, m: Msg) {
    HeldCopies(st.slots, m) + Given(e, m) == HeldCopies(o.state.slots, m) + Copies(o.sent, m) + Copies(o.freed, m)
  }

  lemma ToOwnerConserves(u: State, i: nat, p: Packet, now: nat, c: Config, m: Msg)
    requires i < |u.slots|
    ensures Conserves(u, Sending(p, now), ToOwner(u, i, p, now, c), m)
  {
    HeldUpdate(u.slots, i, ToOwner(u, i, p, now, c).state.slots[i], m);
  }

  lemma ToNewSlotConserves(u: State, p: Packet, now: nat, c: Config, m: Msg)
    ensures Conserves(u, Sending(p, now), ToNewSlot(u, p, now, c), m)
  {
    var j := AllocIndex(u);
    if 0 <= j < |u.slots| {
      HeldUpdate(u.slots, j, Begin(u.slots[j], p.msg, p.winScale, now, c.maxDrop), m);
    }
  }

  lemma UpdateConserves(st: State, now: nat, c: Config, m: Msg)
    requires Inv(st)
    ensures HeldCopies(Update(st, now, c).slots, m) == HeldCopies(st.slots, m)
  {
    UpdateKeeps(st, now, c);
    hide Update, BusyCount, OneSlotPerFlow;
    HeldSame(st.slots, Update(st, now, c).slots, m);
  }

  lemma SendConserves(st: State, p: Packet, now: nat, c: Config, m: Msg)
    requires Inv(st)
    ensures Conserves(st, Sending(p, now), Send(st, p, now, c), m)
  {
    UpdateConserves(st, now, c, m);
    var u := Update(st, now, c);
    hide Inv, Update, ToOwner, ToNewSlot, HeldCopies, MatchFrom;
    var i := MatchFrom(u.slots, p.msg.flow, 0);
    if i >= 0 {
      ToOwnerConserves(u, i, p, now, c, m);
    } else {
      ToNewSlotConserves(u, p, now, c, m);
    }
  }

  lemma DeinitConserves(st: State, c: Config, m: Msg)
    ensures Conserves(st, Deinit, Step(st, Deinit, c), m)
  {
    HeldNowhere(Emptied(st.slots), m);
    AllHeldCopies(st.slots, m);
  }

  lemma StepConserves(st: State, e: Event, c: Config, m: Msg)
    requires Inv(st)
    ensures Conserves(st, e, Step(st, e, c), m)
  {
    hide Send, Update, MatchFrom, HeldCopies, Inv;
    match e
    case Sending(p, now) => SendConserves(st, p, now, c, m);
    case Timer(i, late) => if i < |st.slots| { HeldUpdate(st.slots, i, Fire(st.slots[i], late).slot, m); }
    case Receiving(flow, psh) =>
      var i := MatchFrom(st.slots, flow, 0);
      if i >= 0 { HeldUpdate(st.slots, i, MarkPush(st.slots[i], psh), m); }
    case Done(id) => HeldSame(st.slots, Completions(st.slots, id), m);
    case Deinit => DeinitConserves(st, c, m);
  }

  // ----- Runs -----

  const EMPTY_SLOT := Slot(false, 0, false, 0, 0, 0, false, None, None, Flow(0, 0, 0, 0), 0)

  /** tcp_ack_init at time `now`. */
  function Init(now: nat): State {
    State(true, 0, 0, now, seq(TCP_ACK_NUM, _ => EMPTY_SLOT.(lastTime := now)))
  }

  function Run(st: State, events: seq<Event>, c: Config): State {
    if events == [] then st else Step(Run(st, events[..|events| - 1], c), events[|events| - 1], c).state
  }

  /** How often `m` was given to the filter, handed on and freed in a run. */
  datatype Ledger = Ledger(given: nat, sent: nat, freed: nat)

  function Account(st: State, events: seq<Event>, c: Config, m: Msg): Ledger {
    if events == [] then Ledger(0, 0, 0)
    else
      var n := |events| - 1;
      var l := Account(st, events[..n], c, m);
      var o := Step(Run(st, events[..n], c), events[n], c);
      Ledger(l.given + Given(events[n], m), l.sent + Copies(o.sent, m), l.freed + Copies(o.freed, m))
  }

  lemma {:induction false} NoneBusy(slots: seq<Slot>)
    requires forall i :: 0 <= i < |slots| ==> !slots[i].busy
    ensures BusyCount(slots) == 0
  {
    if slots != [] { NoneBusy(slots[..|slots| - 1]); }
  }

  lemma InitIsClean(now: nat, m: Msg)
    ensures Inv(Init(now)) && HeldCopies(Init(now).slots, m) == 0
  {
    HeldNowhere(Init(now).slots, m);
    NoneBusy(Init(now).slots);
  }

  /** Over every run the allocator invariant holds and every buffer is accounted for. */
  lemma {:induction false} RunConserves(now: nat, events: seq<Event>, c: Config, m: Msg)
    ensures Inv(Run(Init(now), events, c))
    ensures var l := Account(Init(now), events, c, m);
            l.given == HeldCopies(Run(Init(now), events, c).slots, m) + l.sent + l.freed
  {
    hide Inv, Step, HeldCopies;
    if events == [] {
      InitIsClean(now, m);
    } else {
      var n := |events| - 1;
      RunConserves(now, events[..n], c, m);
      StepKeepsInv(Run(Init(now), events[..n], c), events[n], c);
      StepConserves(Run(Init(now), events[..n], c), events[n], c, m);
    }
  }

  /**
   * A buffer given once is at every moment in exactly one of: sent, freed, held in one slot. So none is freed
   * twice, and none is both freed and sent.
   */
  lemma OwnedOnce(now: nat, events: seq<Event>, c: Config, m: Msg)
    requires Account(Init(now), events, c, m).given == 1
    ensures var l, slots := Account(Init(now), events, c, m), Run(Init(now), events, c).slots;
            || (l.sent == 1 && l.freed == 0 && HeldCopies(slots, m) == 0)
            || (l.sent == 0 && l.freed == 1 && HeldCopies(slots, m) == 0)
            || (l.sent == 0 && l.freed == 0 && exists i :: HeldOnlyAt(slots, i, m))
  {
    RunConserves(now, events, c, m);
    var slots := Run(Init(now), events, c).slots;
    if HeldCopies(slots, m) == 1 {
      var i := HeldSomewhere(slots, m);
    }
  }

  ghost predicate HeldOnlyAt(slots: seq<Slot>, i: int, m: Msg) {
    0 <= i < |slots| && forall k :: 0 <= k < |slots| ==> (slots[k].held == Some(m) <==> k == i)
  }

  lemma {:induction false} HeldSomewhere(slots: seq<Slot>, m: Msg) returns (i: nat)
    requires HeldCopies(slots, m) == 1
    ensures HeldOnlyAt(slots, i, m)
  {
    var n := |slots| - 1;
    HeldNowhere(slots[..n], m);
    assert forall k :: 0 <= k < n ==> slots[k] == slots[..n][k];
    if slots[n].held == Some(m) {
      i := n;
    } else {
      i := HeldSomewhere(slots[..n], m);
    }
  }

  /** After tcp_ack_deinit no slot holds a buffer, and none ever does again. */
  ghost predicate ShutDown(st: State) {
    Inv(st) && !st.enable && forall i :: 0 <= i < TCP_ACK_NUM ==> st.slots[i].held.None?
  }

  lemma {:induction false} NothingHeldAfterDeinit(st: State, events: seq<Event>, c: Config)
    requires Inv(st)
    ensures ShutDown(Run(Step(st, Deinit, c).state, events, c))
  {
    if events == [] {
      StepKeepsInv(st, Deinit, c);
    } else {
      hide Step, ShutDown;
      NothingHeldAfterDeinit(st, events[..|events| - 1], c);
      StaysShutDown(Run(Step(st, Deinit, c).state, events[..|events| - 1], c), events[|events| - 1], c);
    }
  }

  lemma StaysShutDown(st: State, e: Event, c: Config)
    requires ShutDown(st)
    ensures ShutDown(Step(st, e, c).state)
  {
    hide Update, BusyCount, AllHeld, Offer, MatchFrom, AllocIndex, OneSlotPerFlow, MarkPush, Begin;
    StepKeepsInv(st, e, c);
    if e.Sending? {
      UpdateKeeps(st, e.now, c);
      StaysEmpty(Update(st, e.now, c), e.p, e.now, c);
    }
  }

  lemma StaysEmpty(u: State, p: Packet, now: nat, c: Config)
    requires !u.enable && forall i :: 0 <= i < |u.slots| ==> u.slots[i].held.None?
    ensures forall i :: 0 <= i < |u.slots| ==> ToNewSlot(u, p, now, c).state.slots[i].held.None?
    ensures !ToNewSlot(u, p, now, c).state.enable
    ensures var j := MatchFrom(u.slots, p.msg.flow, 0);
            j >= 0 ==> !ToOwner(u, j, p, now, c).state.enable
                       && forall i :: 0 <= i < |u.slots| ==> ToOwner(u, j, p, now, c).state.slots[i].held.None?
  {
  }

  // ----- From the filter to one slot -----

  /** What the decisions of a slot depend on: all but the window scale and the age. */
  function Core(s: Slot): Slot {
    s.(winScale := 0, lastTime := 0)
  }

  function AsSlotEvent(e: Event): SlotEvent
    requires !e.Deinit?
  {
    match e
    case Sending(p, now) => Offered(p.msg, now)
    case Timer(i, late) => Fired(late)
    case Receiving(flow, psh) => Pushed(psh)
    case Done(id) => Completed(id)
  }

  predicate ActsOn(st: State, e: Event, i: nat)
    requires i < |st.slots|
  {
    match e
    case Sending(p, now) => st.enable && p.drop > 0 && p.msg.flow == st.slots[i].flow
    case Timer(j, late) => j == i
    case Receiving(flow, psh) => st.enable && flow == st.slots[i].flow
    case Done(id) => st.enable
    case Deinit => true
  }

  /** A call with which a busy slot's tenure ends: the slot ages out. */
  predicate Releases(st: State, e: Event, i: nat, c: Config)
    requires i < |st.slots|
  {
    e.Sending? && e.now > st.lastTime + c.timeout && Old(st.slots[i], e.now, c)
  }

  lemma SendActsOnSlot(st: State, p: Packet, now: nat, c: Config, i: nat)
    requires Inv(st) && i < TCP_ACK_NUM && st.slots[i].busy && !Releases(st, Sending(p, now), i, c)
    ensures var o := Send(st, p, now, c);
            if ActsOn(st, Sending(p, now), i) then
              var r := Offer(st.slots[i], p.msg, now, c.maxDrop);
              Core(o.state.slots[i]) == Core(r.slot) && o.sent == r.sent && o.freed == r.freed
            else Core(o.state.slots[i]) == Core(st.slots[i])
  {
    UpdateKeeps(st, now, c);
    var u := Update(st, now, c);
    AllocFindsFree(u);
    if p.msg.flow == st.slots[i].flow {
      MatchIsUnique(u, p.msg.flow, i);
      hide Inv, Update, Allocated, Offer;
      OfferIgnoresScale(u.slots[i], p.winScale, p.msg, now, c.maxDrop);
    } else {
      MatchFromFinds(u.slots, p.msg.flow, 0);
      hide Inv, Update, Offer, Begin;
    }
  }

  lemma OfferIgnoresScale(s: Slot, winScale: u16, m: Msg, now: nat, maxDrop: nat)
    ensures var a, b := Offer(s, m, now, maxDrop), Offer(s.(winScale := winScale), m, now, maxDrop);
            Core(a.slot) == Core(b.slot) && a.sent == b.sent && a.freed == b.freed
  {
  }

  /**
   * While a tenure lasts, every handler call either leaves its slot as it is or is the slot step of TcpAckSlot,
   * with the same buffers sent and freed. So what is proved there of a tenure holds in every run of the filter.
   */
  lemma StepActsOnSlot(st: State, e: Event, c: Config, i: nat)
    requires Inv(st) && i < TCP_ACK_NUM && st.slots[i].busy && !e.Deinit? && !Releases(st, e, i, c)
    ensures var o := Step(st, e, c);
            if ActsOn(st, e, i) then
              var r := SlotStep(st.slots[i], AsSlotEvent(e), c.maxDrop);
              Core(o.state.slots[i]) == Core(r.slot) && (!e.Done? ==> o.sent == r.sent && o.freed == r.freed)
            else Core(o.state.slots[i]) == Core(st.slots[i])
  {
    match e
    case Sending(p, now) => SendActsOnSlot(st, p, now, c, i);
    case Timer(j, late) =>
    case Receiving(flow, psh) =>
      if flow == st.slots[i].flow { MatchIsUnique(st, flow, i); } else { MatchFromFinds(st.slots, flow, 0); }
    case Done(id) =>
  }

  /** The calls of a run that concern slot `i`, as slot events. */
  function SlotEvents(st: State, events: seq<Event>, c: Config, i: nat): seq<SlotEvent> {
    if events == [] then []
    else
      var n := |events| - 1;
      var u := Run(st, events[..n], c);
      SlotEvents(st, events[..n], c, i)
      + if i < |u.slots| && !events[n].Deinit? && ActsOn(u, events[n], i) then [AsSlotEvent(events[n])] else []
  }

  /** No call of the run ends the tenure of slot `i`: it does not age out, and the filter is not shut down. */
  ghost predicate InTenure(st: State, events: seq<Event>, c: Config, i: nat) {
    events == [] ||
    (var n := |events| - 1;
     var u := Run(st, events[..n], c);
     InTenure(st, events[..n], c, i) && i < |u.slots| && !events[n].Deinit? && !Releases(u, events[n], i, c))
  }

  lemma CoreDecides(s: Slot, t: Slot, e: SlotEvent, maxDrop: nat)
    requires Core(s) == Core(t)
    ensures var a, b := SlotStep(s, e, maxDrop), SlotStep(t, e, maxDrop);
            Core(a.slot) == Core(b.slot) && a.sent == b.sent && a.freed == b.freed
  {
    if e.Offered? { CoreDecidesOffer(s, t, e.m, e.now, maxDrop); }
    hide Offer;
  }

  lemma CoreDecidesOffer(s: Slot, t: Slot, m: Msg, now: nat, maxDrop: nat)
    requires Core(s) == Core(t)
    ensures var a, b := Offer(s, m, now, maxDrop), Offer(t, m, now, maxDrop);
            Core(a.slot) == Core(b.slot) && a.sent == b.sent && a.freed == b.freed
  {
    hide Before;
  }

  lemma TenureStepsSlot(t: Tenure, e: SlotEvent, maxDrop: nat)
    ensures TenureStep(t, e, maxDrop).slot == SlotStep(t.slot, e, maxDrop).slot
  {
  }

  lemma StaysBusy(s: Slot, e: SlotEvent, maxDrop: nat)
    ensures SlotStep(s, e, maxDrop).slot.busy == s.busy
  {
  }

  /** In a run of the whole filter, a slot goes through its tenure as TcpAckSlot has it, whatever other slots do. */
  lemma {:induction false} RunIsTenure(st: State, events: seq<Event>, c: Config, i: nat, t: Tenure)
    requires Inv(st) && i < TCP_ACK_NUM && st.slots[i].busy && t.slot == st.slots[i] && InTenure(st, events, c, i)
    ensures var u := Run(st, events, c);
            && Inv(u) && u.slots[i].busy
            && Core(u.slots[i]) == Core(TenureRun(t, SlotEvents(st, events, c, i), c.maxDrop).slot)
  {
    if events != [] {
      var n := |events| - 1;
      var e, u := events[n], Run(st, events[..n], c);
      RunIsTenure(st, events[..n], c, i, t);
      StepKeepsInv(u, e, c);
      StepActsOnSlot(u, e, c, i);
      hide Inv, Step, ActsOn, Releases;
      if ActsOn(u, e, i) {
        var before := SlotEvents(st, events[..n], c, i);
        var r, f := TenureRun(t, before, c.maxDrop), AsSlotEvent(e);
        assert (before + [f])[..|before|] == before;
        TenureStepsSlot(r, f, c.maxDrop);
        CoreDecides(u.slots[i], r.slot, f, c.maxDrop);
        StaysBusy(u.slots[i], f, c.maxDrop);
        hide SlotStep, TenureStep;
      } else {
        assert SlotEvents(st, events, c, i) == SlotEvents(st, events[..n], c, i);
      }
    }
  }

  /**
   * In every run of the filter, while a tenure that began with nothing held lasts: a held buffer acknowledges the
   * recorded number, that number is the one of the unwrapped tenure, and no dropped ACK was ahead of it.
   */
  lemma ProgressInRun(st: State, events: seq<Event>, c: Config, i: nat, t0: Tenure)
    requires Inv(st) && i < TCP_ACK_NUM && st.slots[i].busy && st.slots[i].held.None? && InTenure(st, events, c, i)
    requires t0.slot == st.slots[i] && t0.at == 0 && t0.sentAt == {0} && t0.droppedAt == {}
    ensures var s := Run(st, events, c).slots;
            var t := TenureRun(t0, SlotEvents(st, events, c, i), c.maxDrop);
            && |s| == TCP_ACK_NUM && Progress(t)
            && (if s[i].held.Some? then s[i].held.value.ack == s[i].ackSeq else t.at in t.sentAt)
            && s[i].ackSeq == Wrap32(st.slots[i].ackSeq + t.at)
  {
    hide Run, TenureRun, SlotEvents, InTenure, Progress, Core, Wrap32, BusyCount, OneSlotPerFlow;
    RunIsTenure(st, events, c, i, t0);
    ProgressKept(t0, SlotEvents(st, events, c, i), c.maxDrop);
    CoreProgress(Run(st, events, c).slots[i], TenureRun(t0, SlotEvents(st, events, c, i), c.maxDrop));
  }

  lemma CoreProgress(s: Slot, t: Tenure)
    requires Core(s) == Core(t.slot) && Progress(t)
    ensures s.ackSeq == t.slot.ackSeq
    ensures if s.held.Some? then s.held.value.ack == s.ackSeq else t.at in t.sentAt
  {
  }

  /** The call opens a tenure of slot `i`. */
  predicate Opens(st: State, p: Packet, now: nat, c: Config, i: nat) {
    var u := Update(st, now, c);
    (p.drop != 0 || p.winScale != 0) && MatchFrom(u.slots, p.msg.flow, 0) == -1 && AllocIndex(u) == i < |u.slots|
  }

  /** The tenure as its opening call leaves it, with what that call sent and freed. */
  function Opening(st: State, p: Packet, now: nat, c: Config, i: nat): Tenure
    requires Opens(st, p, now, c, i)
  {
    var o := Send(st, p, now, c);
    var s := o.state.slots[i];
    Tenure(s, 0, set m | m in o.sent :: Place(0, s.ackSeq, m.ack), set m | m in o.freed :: Place(0, s.ackSeq, m.ack))
  }

  lemma OpeningSends(st: State, p: Packet, now: nat, c: Config, i: nat)
    requires Inv(st) && Opens(st, p, now, c, i)
    ensures var t := Opening(st, p, now, c, i);
            && t.slot.busy && t.slot.flow == p.msg.flow && t.slot.ackSeq == p.msg.ack && t.slot.held == st.slots[i].held
            && t.sentAt == {0} && t.droppedAt == {}
  {
    UpdateKeeps(st, now, c);
    hide Inv, Update;
    assert Send(st, p, now, c).sent == [p.msg];
    assert p.msg in Send(st, p, now, c).sent;
  }

  /**
   * In every run from tcp_ack_init: once a call has opened a tenure of a slot that held nothing, and as long as
   * the tenure lasts, no ACK was dropped beyond the recorded number, and that number is held or was sent.
   */
  lemma ProgressFromInit(
      start: nat, before: seq<Event>, st: State, p: Packet, now: nat, st1: State, events: seq<Event>, c: Config, i: nat)
    requires st == Run(Init(start), before, c) && st1 == Send(st, p, now, c).state
    requires Opens(st, p, now, c, i) && i < |st.slots| && st.slots[i].held.None? && InTenure(st1, events, c, i)
    ensures var s := Run(st1, events, c).slots;
            var t := TenureRun(Opening(st, p, now, c, i), SlotEvents(st1, events, c, i), c.maxDrop);
            && |s| == TCP_ACK_NUM && Progress(t)
            && (if s[i].held.Some? then s[i].held.value.ack == s[i].ackSeq else t.at in t.sentAt)
            && s[i].ackSeq == Wrap32(p.msg.ack + t.at)
  {
    hide Run, InTenure, SlotEvents, TenureRun, Progress, Wrap32, Send, Opens, Account, HeldCopies, BusyCount;
    RunConserves(start, before, c, p.msg);
    SendKeepsInv(st, p, now, c);
    OpeningSends(st, p, now, c, i);
    ProgressInRun(st1, events, c, i, Opening(st, p, now, c, i));
  }

  /**
   * In every run of the filter: once a received segment has marked PSH for a flow, and until another mark or the
   * end of the tenure, the first advancing ACK of the flow past the marked number is handed on at once.
   */
  lemma PushInRun(st: State, psh: u32, events: seq<Event>, p: Packet, now: nat, c: Config, i: nat)
    requires Inv(st) && i < TCP_ACK_NUM && st.slots[i].busy && st.enable
    requires var st1 := Step(st, Receiving(st.slots[i].flow, psh), c).state;
             && InTenure(st1, events, c, i)
             && |st1.slots| == TCP_ACK_NUM && PushWaits(st1.slots[i], psh, SlotEvents(st1, events, c, i), c.maxDrop)
    requires var u := Run(Step(st, Receiving(st.slots[i].flow, psh), c).state, events, c);
             && |u.slots| == TCP_ACK_NUM && ActsOn(u, Sending(p, now), i) && !Releases(u, Sending(p, now), i, c)
             && Before(u.slots[i].ackSeq, p.msg.ack) && !Before(p.msg.ack, psh)
    ensures Step(Run(Step(st, Receiving(st.slots[i].flow, psh), c).state, events, c),
                 Sending(p, now), c).sent == [p.msg]
  {
    MatchIsUnique(st, st.slots[i].flow, i);
    StepKeepsInv(st, Receiving(st.slots[i].flow, psh), c);
    var st1 := Step(st, Receiving(st.slots[i].flow, psh), c).state;
    assert st1.slots[i] == MarkPush(st.slots[i], psh);
    var t := Tenure(st1.slots[i], 0, {}, {});
    var es := SlotEvents(st1, events, c, i);
    hide Inv, Run, SlotRun, Step, Send, InTenure, SlotEvents, TenureRun, PushWaits, Before, ActsOn, Releases;
    RunIsTenure(st1, events, c, i, t);
    TenureRunsSlot(t, es, c.maxDrop);
    StepActsOnSlot(Run(st1, events, c), Sending(p, now), c, i);
    PushIsAckedAtOnce(st.slots[i], psh, es, p.msg, now, c.maxDrop);
    CoreDecides(Run(st1, events, c).slots[i], SlotRun(st1.slots[i], es, c.maxDrop), Offered(p.msg, now), c.maxDrop);
  }

  /**
   * In every run of the filter: while the flow of a slot has no PSH mark and the send the slot waits for is not
   * completed, no ACK of the flow given to the slot, and no timer of it, makes the filter send anything.
   */
  lemma StarvedInRun(st: State, id: nat, events: seq<Event>, e: Event, c: Config, i: nat)
    requires Inv(st) && i < TCP_ACK_NUM && st.slots[i].busy && st.slots[i].sending == Some(id) && !st.slots[i].pshFlag
    requires InTenure(st, events, c, i) && Mute(SlotEvents(st, events, c, i), id)
    requires var u := Run(st, events, c);
             && |u.slots| == TCP_ACK_NUM && ActsOn(u, e, i) && !Releases(u, e, i, c) && (e.Sending? || e.Timer?)
    ensures Step(Run(st, events, c), e, c).sent == []
  {
    var t := Tenure(st.slots[i], 0, {}, {});
    var es, f := SlotEvents(st, events, c, i), AsSlotEvent(e);
    hide Inv, Run, SlotRun, Step, InTenure, SlotEvents, TenureRun, Before, ActsOn, Releases, Mute;
    RunIsTenure(st, events, c, i, t);
    TenureRunsSlot(t, es, c.maxDrop);
    StepActsOnSlot(Run(st, events, c), e, c, i);
    Starves(st.slots[i], id, es, c.maxDrop);
    CoreDecides(Run(st, events, c).slots[i], SlotRun(st.slots[i], es, c.maxDrop), f, c.maxDrop);
  }

  // ----- Ageing -----

  lemma OfferedNow(s: Slot, m: Msg, now: nat, maxDrop: nat)
    ensures var t := Offer(s, m, now, maxDrop).slot; t.lastTime == now && t.busy == s.busy && t.flow == s.flow
  {
    hide Before;
  }

  /** A call that leaves a slot its tenure leaves its age too, or makes it that of the call. */
  lemma AgeKept(st: State, e: Event, c: Config, i: nat)
    requires Inv(st) && i < TCP_ACK_NUM && st.slots[i].busy && !e.Deinit? && !Releases(st, e, i, c)
    ensures var t := Step(st, e, c).state.slots[i].lastTime;
            t == st.slots[i].lastTime || (e.Sending? && t == e.now)
  {
    if e.Sending? {
      SendAge(st, e.p, e.now, c, i);
      hide Send, Inv;
    }
  }

  lemma SendAge(st: State, p: Packet, now: nat, c: Config, i: nat)
    requires Inv(st) && i < TCP_ACK_NUM && st.slots[i].busy && !Releases(st, Sending(p, now), i, c)
    ensures var t := Send(st, p, now, c).state.slots[i].lastTime; t == st.slots[i].lastTime || t == now
  {
    UpdateKeeps(st, now, c);
    var u := Update(st, now, c);
    AllocFindsFree(u);
    var j := MatchFrom(u.slots, p.msg.flow, 0);
    hide Inv, Update, Allocated, MatchFrom, Offer, Begin, AllocIndex, Old;
    if j >= 0 {
      OfferedNow(if p.winScale != 0 then u.slots[j].(winScale := p.winScale) else u.slots[j], p.msg, now, c.maxDrop);
    }
  }

  /** All frames of a run come between `from` and `to`, and there is no shutdown. */
  predicate Within(events: seq<Event>, from: nat, to: nat) {
    forall k :: 0 <= k < |events| ==> !events[k].Deinit? && (events[k].Sending? ==> from <= events[k].now <= to)
  }

  lemma {:induction false} RecentStays(st: State, events: seq<Event>, c: Config, i: nat, used: nat)
    requires Inv(st) && i < TCP_ACK_NUM && st.slots[i].busy && st.slots[i].lastTime >= used
    requires Within(events, used, used + c.timeout)
    ensures InTenure(st, events, c, i)
    ensures var u := Run(st, events, c); Inv(u) && u.slots[i].busy && u.slots[i].lastTime >= used
  {
    if events != [] {
      var n := |events| - 1;
      RecentStays(st, events[..n], c, i, used);
      var u, e := Run(st, events[..n], c), events[n];
      AgeKept(u, e, c, i);
      StepKeepsInv(u, e, c);
      StaysBusyInRun(u, e, c, i);
      hide Inv, Step, ActsOn;
    }
  }

  lemma StaysBusyInRun(st: State, e: Event, c: Config, i: nat)
    requires Inv(st) && i < TCP_ACK_NUM && st.slots[i].busy && !e.Deinit? && !Releases(st, e, i, c)
    ensures |Step(st, e, c).state.slots| == TCP_ACK_NUM && Step(st, e, c).state.slots[i].busy
  {
    StepKeepsInv(st, e, c);
    StepActsOnSlot(st, e, c, i);
    if ActsOn(st, e, i) { StaysBusy(st.slots[i], AsSlotEvent(e), c.maxDrop); }
    hide Step, SlotStep;
  }

  /**
   * A slot opened or given an ACK at time `used` is not taken from its flow before the timeout is over, in any run.
   */
  lemma UsedStays(st: State, p: Packet, used: nat, events: seq<Event>, c: Config, i: nat)
    requires Inv(st) && i < TCP_ACK_NUM && Within(events, used, used + c.timeout)
    requires Opens(st, p, used, c, i) || (st.slots[i].busy && ActsOn(st, Sending(p, used), i)
                                          && !Releases(st, Sending(p, used), i, c))
    ensures var st1 := Send(st, p, used, c).state;
            && InTenure(st1, events, c, i)
            && var u := Run(st1, events, c);
               |u.slots| == TCP_ACK_NUM && u.slots[i].busy && u.slots[i].flow == p.msg.flow
  {
    var st1 := Send(st, p, used, c).state;
    SendKeepsInv(st, p, used, c);
    UsedNow(st, p, used, c, i);
    hide Inv, Send, Run, InTenure, Opens, ActsOn, Releases, TenureRun, SlotEvents;
    RecentStays(st1, events, c, i, used);
    FlowStays(st1, events, c, i);
  }

  lemma UsedNow(st: State, p: Packet, used: nat, c: Config, i: nat)
    requires Inv(st) && i < TCP_ACK_NUM
    requires Opens(st, p, used, c, i) || (st.slots[i].busy && ActsOn(st, Sending(p, used), i)
                                          && !Releases(st, Sending(p, used), i, c))
    ensures var s := Send(st, p, used, c).state.slots[i]; s.busy && s.flow == p.msg.flow && s.lastTime == used
  {
    if Opens(st, p, used, c, i) { OpenedNow(st, p, used, c, i); } else { AckedNow(st, p, used, c, i); }
  }

  lemma OpenedNow(st: State, p: Packet, used: nat, c: Config, i: nat)
    requires |st.slots| == TCP_ACK_NUM && i < TCP_ACK_NUM && Opens(st, p, used, c, i)
    ensures var s := Send(st, p, used, c).state.slots[i]; s.busy && s.flow == p.msg.flow && s.lastTime == used
  {
    var u := Update(st, used, c);
    BeginOpens(u.slots[i], p.msg, p.winScale, used, c.maxDrop);
    hide Update, MatchFrom, Begin, AllocIndex;
  }

  lemma AckedNow(st: State, p: Packet, used: nat, c: Config, i: nat)
    requires Inv(st) && i < TCP_ACK_NUM && st.slots[i].busy && ActsOn(st, Sending(p, used), i)
    requires !Releases(st, Sending(p, used), i, c)
    ensures var s := Send(st, p, used, c).state.slots[i]; s.busy && s.flow == p.msg.flow && s.lastTime == used
  {
    UpdateKeeps(st, used, c);
    var u := Update(st, used, c);
    MatchIsUnique(u, p.msg.flow, i);
    hide Inv, Update, MatchFrom, Offer, AllocIndex;
    OfferedNow(if p.winScale != 0 then u.slots[i].(winScale := p.winScale) else u.slots[i], p.msg, used, c.maxDrop);
  }

  lemma {:induction false} FlowStays(st: State, events: seq<Event>, c: Config, i: nat)
    requires Inv(st) && i < TCP_ACK_NUM && st.slots[i].busy && InTenure(st, events, c, i)
    ensures |Run(st, events, c).slots| == TCP_ACK_NUM && Run(st, events, c).slots[i].flow == st.slots[i].flow
  {
    var t := Tenure(st.slots[i], 0, {}, {});
    RunIsTenure(st, events, c, i, t);
    TenureRunsSlot(t, SlotEvents(st, events, c, i), c.maxDrop);
    SameFlow(st.slots[i], SlotEvents(st, events, c, i), c.maxDrop);
    hide Run, InTenure, SlotEvents, TenureRun, SlotRun;
  }

  lemma {:induction false} SameFlow(s: Slot, events: seq<SlotEvent>, maxDrop: nat)
    ensures SlotRun(s, events, maxDrop).flow == s.flow
  {
    if events != [] { SameFlow(s, events[..|events| - 1], maxDrop); }
  }

  // ----- A run that leaves a buffer behind -----

  /** Only slot 0 was ever in use. */
  function Solo(start: nat, lastTime: nat, s: Slot): State {
    State(true, if s.busy then 1 else 0, if s.busy then -1 else 0, lastTime, Init(start).slots[0 := s])
  }

  lemma SoloOffer(start: nat, lastTime: nat, s: Slot, m: Msg, now: nat, c: Config)
    requires s.busy && s.flow == m.flow && now <= lastTime + c.timeout
    ensures var e := Offer(s, m, now, c.maxDrop);
            && Offer(s, m, now, c.maxDrop).slot.busy
            && Send(Solo(start, lastTime, s), Packet(m, 1, 0), now, c)
               == Outcome(Solo(start, lastTime, e.slot), e.sent, e.freed)
  {
    var e := Offer(s, m, now, c.maxDrop);
    assert Init(start).slots[0 := s][0 := e.slot] == Init(start).slots[0 := e.slot];
  }

  lemma SoloOpens(start: nat, lastTime: nat, s: Slot, m: Msg, now: nat, c: Config)
    requires !s.busy && now <= lastTime + c.timeout
    ensures Send(Solo(start, lastTime, s), Packet(m, 1, 0), now, c).state
            == Solo(start, lastTime, Begin(s, m, 0, now, c.maxDrop))
  {
    var slots := Init(start).slots[0 := s];
    MatchFromFinds(slots, m.flow, 0);
    var b := Begin(s, m, 0, now, c.maxDrop);
    assert slots[0 := b] == Init(start).slots[0 := b];
  }

  lemma {:induction false} ReleaseFirstOnly(st: State, n: nat, now: nat, c: Config)
    requires 1 <= n <= |st.slots| && forall k :: 1 <= k < n ==> !st.slots[k].busy
    ensures ReleaseDown(st, n, now, c) == ReleaseIfOld(st, 0, now, c)
  {
    if n > 1 { ReleaseFirstOnly(st, n - 1, now, c); }
  }

  lemma SoloReleases(start: nat, lastTime: nat, s: Slot, now: nat, c: Config)
    requires s.busy && now > lastTime + c.timeout && now > s.lastTime + c.timeout
    ensures Update(Solo(start, lastTime, s), now, c) == Solo(start, now, s.(busy := false))
  {
    var free := s.(busy := false);
    ReleaseFirstOnly(Solo(start, lastTime, s).(lastTime := now), TCP_ACK_NUM, now, c);
    assert Init(start).slots[0 := s][0 := free] == Init(start).slots[0 := free];
  }

  lemma SoloAges(start: nat, lastTime: nat, s: Slot, m: Msg, now: nat, c: Config)
    requires s.busy && now > lastTime + c.timeout && now > s.lastTime + c.timeout
    ensures Send(Solo(start, lastTime, s), Packet(m, 1, 0), now, c).state
            == Solo(start, now, Begin(s.(busy := false), m, 0, now, c.maxDrop))
  {
    var free := s.(busy := false);
    SoloReleases(start, lastTime, s, now, c);
    assert Update(Solo(start, now, free), now, c) == Solo(start, now, free);
    SoloOpens(start, now, free, m, now, c);
  }

  lemma RunNext(st: State, events: seq<Event>, e: Event, c: Config)
    ensures Run(st, events + [e], c) == Step(Run(st, events, c), e, c).state
  {
    assert (events + [e])[..|events|] == events;
    hide Step;
  }

  lemma RunNextTwo(st: State, events: seq<Event>, d: Event, e: Event, c: Config)
    ensures Run(st, events + [d] + [e], c) == Step(Step(Run(st, events, c), d, c).state, e, c).state
  {
    hide Run, Step;
    RunNext(st, events, d, c);
    RunNext(st, events + [d], e, c);
  }

  /** Three ACKs of a new flow: the first opens a slot, the second is sent, the third held. */
  function ThreeOffers(flow: Flow, now: nat): seq<Event> {
    [Sending(Packet(Msg(0, flow, 100), 1, 0), now)] + [Sending(Packet(Msg(1, flow, 200), 1, 0), now)] +
    [Sending(Packet(Msg(2, flow, 300), 1, 0), now)]
  }

  /** Then the timer fires while the send is outstanding. */
  function StuckRun(flow: Flow, now: nat): seq<Event> {
    ThreeOffers(flow, now) + [Timer(0, false)] + [Done(1)]
  }

  /** The slot after the three offers. */
  function SentAndHeld(flow: Flow, now: nat): Slot {
    var s0 := Begin(EMPTY_SLOT.(lastTime := now), Msg(0, flow, 100), 0, now, 10);
    Offer(Offer(s0, Msg(1, flow, 200), now, 10).slot, Msg(2, flow, 300), now, 10).slot
  }

  lemma AfterThreeOffers(flow: Flow, now: nat, timeout: nat)
    ensures var c := Config(timeout, 10);
            Run(Init(now), ThreeOffers(flow, now), c) == Solo(now, now, SentAndHeld(flow, now))
    ensures var s := SentAndHeld(flow, now);
            s.busy && s.flow == flow && s.lastTime == now && s.held == Some(Msg(2, flow, 300)) && s.sending == Some(1)
  {
    var c, empty := Config(timeout, 10), EMPTY_SLOT.(lastTime := now);
    var m0, m1, m2 := Msg(0, flow, 100), Msg(1, flow, 200), Msg(2, flow, 300);
    var e0, e1, e2 := Sending(Packet(m0, 1, 0), now), Sending(Packet(m1, 1, 0), now), Sending(Packet(m2, 1, 0), now);
    assert Init(now) == Solo(now, now, empty) by { assert Init(now).slots[0 := empty] == Init(now).slots; }
    var s0 := Begin(empty, m0, 0, now, 10);
    var s1 := Offer(s0, m1, now, 10).slot;
    assert Run(Init(now), [], c) == Init(now) && [] + [e0] == [e0];
    hide Run, Send, Solo, Init;
    RunNext(Init(now), [], e0, c);
    RunNext(Init(now), [e0], e1, c);
    RunNext(Init(now), [e0] + [e1], e2, c);
    SoloOpens(now, now, empty, m0, now, c);
    SoloOffer(now, now, s0, m1, now, c);
    SoloOffer(now, now, s1, m2, now, c);
  }

  /** A held buffer can end without timer and without outstanding send, at a run from tcp_ack_init. */
  lemma StuckIsReachable(flow: Flow, now: nat, timeout: nat)
    ensures var c := Config(timeout, 10);
            var s := SentAndHeld(flow, now).(timerPending := false, sending := None);
            && Run(Init(now), StuckRun(flow, now), c) == Solo(now, now, s)
            && s.busy && s.held == Some(Msg(2, flow, 300)) && !s.timerPending && s.sending.None?
  {
    var c, es := Config(timeout, 10), ThreeOffers(flow, now);
    var s := SentAndHeld(flow, now);
    var t := s.(timerPending := false);
    var u := t.(sending := None);
    AfterThreeOffers(flow, now, timeout);
    hide Run, SentAndHeld, ThreeOffers;
    RunNextTwo(Init(now), es, Timer(0, false), Done(1), c);
    assert Step(Solo(now, now, s), Timer(0, false), c).state == Solo(now, now, t) by {
      assert Init(now).slots[0 := s][0 := t] == Init(now).slots[0 := t];
    }
    assert Completions(Init(now).slots[0 := t], 1) == Init(now).slots[0 := u];
    assert Step(Solo(now, now, t), Done(1), c).state == Solo(now, now, u);
  }

  /** From there the slot ages out, and the first advancing ACK of the next flow frees the newest ACK of this one. */
  lemma LeftoverIsReachable(flow: Flow, other: Flow, now: nat, timeout: nat)
    requires flow != other
    ensures var c, later := Config(timeout, 10), now + timeout + 1;
            var st := Run(Init(now), StuckRun(flow, now) + [Sending(Packet(Msg(3, other, 500), 1, 0), later)], c);
            Step(st, Sending(Packet(Msg(4, other, 600), 1, 0), later), c).freed == [Msg(2, flow, 300)]
  {
    var c, later, m3, m4 := Config(timeout, 10), now + timeout + 1, Msg(3, other, 500), Msg(4, other, 600);
    StuckIsReachable(flow, now, timeout);
    AfterThreeOffers(flow, now, timeout);
    var s := SentAndHeld(flow, now).(timerPending := false, sending := None);
    hide Run, Send, Solo, StuckRun, SentAndHeld;
    RunNext(Init(now), StuckRun(flow, now), Sending(Packet(m3, 1, 0), later), c);
    SoloAges(now, now, s, m3, later, c);
    SoloOffer(now, later, Begin(s.(busy := false), m3, 0, later, 10), m4, later, c);
  }

  /** A frame that is no ACK ages the slot out; the completion that comes then is ignored. */
  lemma SoloMisses(start: nat, lastTime: nat, s: Slot, m: Msg, id: nat, now: nat, c: Config)
    requires s.busy && now > lastTime + c.timeout && now > s.lastTime + c.timeout
    ensures var free := Solo(start, now, s.(busy := false));
            && Step(Solo(start, lastTime, s), Sending(Packet(m, 0, 0), now), c).state == free
            && Step(free, Done(id), c).state == free
  {
    SoloReleases(start, lastTime, s, now, c);
    var free := Solo(start, now, s.(busy := false));
    assert Completions(free.slots, id) == free.slots;
    hide Update, Init;
  }

  /** A send is outstanding when the slot ages out on another frame, and completed then. */
  function MissedRun(flow: Flow, other: Flow, now: nat, later: nat): seq<Event> {
    ThreeOffers(flow, now) + [Sending(Packet(Msg(3, other, 500), 0, 0), later)] + [Done(1)]
  }

  lemma MissedRunEnds(flow: Flow, other: Flow, now: nat, timeout: nat)
    ensures var c, later := Config(timeout, 10), now + timeout + 1;
            Run(Init(now), MissedRun(flow, other, now, later), c)
            == Solo(now, later, SentAndHeld(flow, now).(busy := false))
  {
    hide Run, Step, ThreeOffers, SentAndHeld, Solo, Init;
    var c, later, m3 := Config(timeout, 10), now + timeout + 1, Msg(3, other, 500);
    AfterThreeOffers(flow, now, timeout);
    SoloMisses(now, now, SentAndHeld(flow, now), m3, 1, later, c);
    RunNextTwo(Init(now), ThreeOffers(flow, now), Sending(Packet(m3, 0, 0), later), Done(1), c);
  }

  /** The slot is then reused. */
  function StarvedRun(flow: Flow, other: Flow, now: nat, later: nat): seq<Event> {
    MissedRun(flow, other, now, later) + [Sending(Packet(Msg(4, other, 500), 1, 0), later)]
  }

  lemma StarvedRunEnds(flow: Flow, other: Flow, now: nat, timeout: nat)
    ensures var c, later := Config(timeout, 10), now + timeout + 1;
            var s := Begin(SentAndHeld(flow, now).(busy := false), Msg(4, other, 500), 0, later, 10);
            Run(Init(now), StarvedRun(flow, other, now, later), c) == Solo(now, later, s)
  {
    var c, later, m4 := Config(timeout, 10), now + timeout + 1, Msg(4, other, 500);
    MissedRunEnds(flow, other, now, timeout);
    hide Run, Send, MissedRun, SentAndHeld, Solo, Begin;
    RunNext(Init(now), MissedRun(flow, other, now, later), Sending(Packet(m4, 1, 0), later), c);
    SoloOpens(now, later, SentAndHeld(flow, now).(busy := false), m4, later, c);
  }

  /** Then the slot of the new flow waits for a completion that has been. */
  lemma StarvedIsReachable(flow: Flow, other: Flow, now: nat, timeout: nat)
    ensures var c, later := Config(timeout, 10), now + timeout + 1;
            var st := Run(Init(now), StarvedRun(flow, other, now, later), c);
            && Inv(st) && st.slots[0].busy && st.slots[0].flow == other
            && st.slots[0].sending == Some(1) && !st.slots[0].pshFlag
  {
    var c, later, m4 := Config(timeout, 10), now + timeout + 1, Msg(4, other, 500);
    AfterThreeOffers(flow, now, timeout);
    var s := SentAndHeld(flow, now).(busy := false);
    StarvedRunEnds(flow, other, now, timeout);
    BeginOpens(s, m4, 0, later, 10);
    hide Run, StarvedRun, SentAndHeld, BusyCount, OneSlotPerFlow, Account, HeldCopies;
    RunConserves(now, StarvedRun(flow, other, now, later), c, m4);
  }
}
