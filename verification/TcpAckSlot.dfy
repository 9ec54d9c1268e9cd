/** One flow slot of aicwf_tcp_ack.c: at most one held ACK, a marker for one being sent, a drop counter. */
module TcpAckSlot {
  import opened Words
  import opened Wrappers

  /** The 4-tuple of a TCP flow. */
  datatype Flow = Flow(source: u16, dest: u16, saddr: u32, daddr: u32)

  /** A message buffer holding a pure ACK: its identity, its flow and the number it acknowledges. */
  datatype Msg = Msg(id: nat, flow: Flow, ack: u32)

  datatype Slot = Slot(
    busy: bool, dropCnt: nat, pshFlag: bool, pshSeq: u32, winScale: u16, lastTime: nat,
    timerPending: bool, held: Option<Msg>, sending: Option<nat>, flow: Flow, ackSeq: u32)

  /** U32_BEFORE: the signed 32-bit difference is not positive. Equal numbers count as before. */
  predicate Before(a: u32, b: u32) {
    Sub32(a, b) == 0 || Sub32(a, b) >= 0x8000_0000
  }

  /** Serial numbers: a number is before itself and the 2^31 next ones, and the 2^31 - 1 last ones are not after it. */
  lemma BeforeIff(a: u32, d: nat)
    requires d <= 0x8000_0000
    ensures Before(a, Wrap32(a + d))
    ensures Before(Wrap32(a + d), a) <==> d == 0 || d == 0x8000_0000
  {
    SumsWrap(a, d % 0x1_0000_0000);
  }

  /** What a step does with buffers. */
  datatype Effect = Effect(slot: Slot, sent: seq<Msg>, freed: seq<Msg>)

  /** tcp_ack_handle_new. The offered buffer is sent, held or freed, and a held one may be freed for it. */
  function Offer(s: Slot, m: Msg, now: nat, maxDrop: nat): Effect {
    var t := s.(lastTime := now);
    if !Before(s.ackSeq, m.ack) then Effect(t, [], [m])
    else
      var freed := if s.held.Some? then [s.held.value] else [];
      var quick := s.pshFlag && !Before(m.ack, s.pshSeq);
      var u := if quick then t.(held := None, pshFlag := false, ackSeq := m.ack)
               else t.(held := None, dropCnt := s.dropCnt + 1, ackSeq := m.ack);
      if quick || (s.sending.None? && u.dropCnt >= maxDrop) then
        Effect(u.(dropCnt := 0, sending := Some(m.id), timerPending := false), [m], freed)
      else
        Effect(u.(held := Some(m), timerPending := true), [], freed)
  }

  /** An ACK 1 to 2^31 - 1 numbers behind the recorded one is freed, and what the slot holds and records stays. */
  lemma StaleIsFreed(s: Slot, m: Msg, d: nat, now: nat, maxDrop: nat)
    requires 0 < d < 0x8000_0000 && s.ackSeq == Wrap32(m.ack + d)
    ensures var e := Offer(s, m, now, maxDrop);
            && e.freed == [m] && e.sent == [] && e.slot == s.(lastTime := now)
  {
    BeforeIff(m.ack, d);
    hide Before, Wrap32;
  }

  /**
   * An ACK up to 2^31 numbers ahead is recorded and takes the place of a held one. It is sent at once if it is
   * past a marked PSH, or if nothing is being sent and it is the maxDrop-th in a row; else it is held and timed.
   */
  lemma AdvanceIsTaken(s: Slot, m: Msg, d: nat, now: nat, maxDrop: nat)
    requires d <= 0x8000_0000 && m.ack == Wrap32(s.ackSeq + d)
    ensures var e := Offer(s, m, now, maxDrop);
            && e.slot.ackSeq == m.ack && e.freed == (if s.held.Some? then [s.held.value] else [])
            && (e.sent == [m] || e.sent == [])
            && (!s.pshFlag ==> (e.sent == [m] <==> s.sending.None? && s.dropCnt + 1 >= maxDrop))
            && (e.sent == [m] ==> e.slot.held == None && e.slot.sending == Some(m.id) && !e.slot.timerPending)
            && (e.sent == [] ==> e.slot.held == Some(m) && e.slot.sending == s.sending && e.slot.timerPending)
  {
    BeforeIff(s.ackSeq, d);
    hide Before, Wrap32;
  }

  /** Past the mark by less than 2^31, an ACK is sent at once; at it or before, as if there were no mark. */
  lemma PushIff(s: Slot, m: Msg, d: nat, now: nat, maxDrop: nat)
    requires s.pshFlag && Before(s.ackSeq, m.ack) && 0 < d < 0x8000_0000
    ensures m.ack == Wrap32(s.pshSeq + d) ==>
              Offer(s, m, now, maxDrop).sent == [m] && !Offer(s, m, now, maxDrop).slot.pshFlag
    ensures m.ack == s.pshSeq || s.pshSeq == Wrap32(m.ack + d) ==>
              Offer(s, m, now, maxDrop).sent == Offer(s.(pshFlag := false), m, now, maxDrop).sent
              && Offer(s, m, now, maxDrop).slot.pshFlag
  {
    BeforeIff(s.pshSeq, d);
    BeforeIff(m.ack, d);
    BeforeIff(m.ack, 0);
    InRange(m.ack);
    hide Before, Wrap32;
  }

  /**
   * tcp_ack_timeout: a fired timer is no longer pending, whether or not it finds something to send. The handler
   * may come late, when its timer was deleted or armed again after it fired.
   */
  function Fire(s: Slot, late: bool): Effect {
    var t := s.(timerPending := late && s.timerPending);
    if s.busy && s.held.Some? && s.sending.None? then
      Effect(t.(held := None, dropCnt := 0, sending := Some(s.held.value.id)), [s.held.value], [])
    else
      Effect(t, [], [])
  }

  /** The slot part of filter_rx_tcp_ack and of move_tcpack_msg. */
  function MarkPush(s: Slot, psh: u32): Slot {
    s.(pshFlag := true, pshSeq := psh)
  }

  function Complete(s: Slot, id: nat): Slot {
    if s.busy && s.sending == Some(id) then s.(sending := None) else s
  }

  /** The reuse of a free slot in filter_send_tcp_ack. What the last tenure held or was sending stays. */
  function Begin(s: Slot, m: Msg, winScale: u16, now: nat, maxDrop: nat): Slot {
    s.(busy := true, pshFlag := false, lastTime := now, dropCnt := maxDrop,
       winScale := if winScale != 0 then winScale else 1, flow := m.flow, ackSeq := m.ack)
  }

  // ----- Progress within one tenure -----

  datatype SlotEvent = Offered(m: Msg, now: nat) | Fired(late: bool) | Pushed(psh: u32) | Completed(id: nat)

  function SlotStep(s: Slot, e: SlotEvent, maxDrop: nat): Effect {
    match e
    case Offered(m, now) => Offer(s, m, now, maxDrop)
    case Fired(late) => Fire(s, late)
    case Pushed(psh) => Effect(MarkPush(s, psh), [], [])
    case Completed(id) => Effect(Complete(s, id), [], [])
  }

  /**
   * A tenure with its sequence numbers unwrapped: `at` is how far the recorded number has advanced since the
   * tenure began, `sentAt` where the sent ACKs stood, `droppedAt` where the freed ones stood.
   */
  datatype Tenure = Tenure(slot: Slot, at: int, sentAt: set<int>, droppedAt: set<int>)

  /** Where an ACK stands relative to the recorded number `from` at `at`: ahead or level if Before says so. */
  function Place(at: int, from: u32, ack: u32): int {
    if Before(from, ack) then at + Sub32(ack, from) else at - Sub32(from, ack)
  }

  function TenureStep(t: Tenure, e: SlotEvent, maxDrop: nat): Tenure {
    var r := SlotStep(t.slot, e, maxDrop);
    var at' := if e.Offered? && Before(t.slot.ackSeq, e.m.ack) then Place(t.at, t.slot.ackSeq, e.m.ack) else t.at;
    Tenure(r.slot, at',
           t.sentAt + (set m | m in r.sent :: Place(t.at, t.slot.ackSeq, m.ack)),
           t.droppedAt + (set m | m in r.freed :: Place(t.at, t.slot.ackSeq, m.ack)))
  }

  function TenureRun(t: Tenure, events: seq<SlotEvent>, maxDrop: nat): Tenure {
    if events == [] then t
    else TenureStep(TenureRun(t, events[..|events| - 1], maxDrop), events[|events| - 1], maxDrop)
  }

  /** Nothing was dropped beyond the recorded number, and that number is held or has been sent. */
  ghost predicate Progress(t: Tenure) {
    && (t.slot.held.Some? ==> t.slot.held.value.ack == t.slot.ackSeq)
    && (t.slot.held.Some? || t.at in t.sentAt)
    && (forall p :: p in t.droppedAt ==> p <= t.at)
    && (forall p :: p in t.sentAt ==> p <= t.at)
  }

  lemma ProgressStep(t: Tenure, e: SlotEvent, maxDrop: nat)
    requires Progress(t)
    ensures var t' := TenureStep(t, e, maxDrop);
            && Progress(t')
            && t'.at >= t.at
            && t'.slot.ackSeq == Wrap32(t.slot.ackSeq + (t'.at - t.at))
            && Before(t.slot.ackSeq, t'.slot.ackSeq)
  {
    PlaceFacts(t.at, t.slot.ackSeq, t.slot.ackSeq);
    hide Offer, Before, Sub32, Wrap32, Place;
    if e.Offered? {
      OfferProgress(t, e.m, e.now, maxDrop);
    } else if e.Fired? && Fire(t.slot, e.late).sent != [] {
      assert t.slot.held.value in Fire(t.slot, e.late).sent;
    }
  }

  lemma OfferProgress(t: Tenure, m: Msg, now: nat, maxDrop: nat)
    requires Progress(t)
    ensures var t' := TenureStep(t, Offered(m, now), maxDrop);
            && Progress(t')
            && t'.at >= t.at
            && t'.slot.ackSeq == Wrap32(t.slot.ackSeq + (t'.at - t.at))
            && Before(t.slot.ackSeq, t'.slot.ackSeq)
  {
    PlaceFacts(t.at, t.slot.ackSeq, m.ack);
    hide Before, Sub32, Wrap32, Place;
    var r := Offer(t.slot, m, now, maxDrop);
    if r.sent == [m] { assert m in r.sent; }
  }

  /** Where a number stands that is less than 2^31 ahead of the recorded one or behind it. */
  lemma PlaceIs(at: int, from: u32, d: int)
    requires -0x8000_0000 < d <= 0x8000_0000
    ensures Place(at, from, Wrap32(from + d)) == at + d
  {
    var ack := Wrap32(from + d);
    SumsWrap(ack, from);
    SumsWrap(from, ack);
  }

  lemma PlaceFacts(at: int, from: u32, ack: u32)
    ensures Before(from, from) && Place(at, from, from) == at && Wrap32(from) == from
    ensures Before(from, ack) ==> Place(at, from, ack) >= at && Wrap32(from + (Place(at, from, ack) - at)) == ack
    ensures !Before(from, ack) ==> Place(at, from, ack) <= at
  {
    SumsWrap(from, Sub32(ack, from));
  }

  /**
   * A tenure that begins with nothing held never loses progress: at every moment each dropped ACK is at or
   * before a number that is held or was sent, and the recorded number is the unwrapped one modulo 2^32.
   */
  lemma {:induction false} ProgressKept(t: Tenure, events: seq<SlotEvent>, maxDrop: nat)
    requires t.slot.held.None? && t.at == 0 && t.sentAt == {0} && t.droppedAt == {}
    ensures var t' := TenureRun(t, events, maxDrop);
            Progress(t') && t'.at >= 0 && t'.slot.ackSeq == Wrap32(t.slot.ackSeq + t'.at)
  {
    hide TenureStep, Progress, Wrap32;
    if events == [] {
      StartsWithProgress(t);
    } else {
      ProgressKept(t, events[..|events| - 1], maxDrop);
      var t1 := TenureRun(t, events[..|events| - 1], maxDrop);
      ProgressStep(t1, events[|events| - 1], maxDrop);
      WrapSum(t.slot.ackSeq + t1.at, TenureRun(t, events, maxDrop).at - t1.at);
    }
  }

  lemma StartsWithProgress(t: Tenure)
    requires t.slot.held.None? && t.at == 0 && t.sentAt == {0} && t.droppedAt == {}
    ensures Progress(t) && t.slot.ackSeq == Wrap32(t.slot.ackSeq + t.at)
  {
  }

  /** The recorded number never moves backwards, over any stretch of a tenure. */
  lemma {:induction false} NeverBackwards(t: Tenure, events: seq<SlotEvent>, n: nat, maxDrop: nat)
    requires Progress(t) && n <= |events|
    ensures Progress(TenureRun(t, events, maxDrop))
    ensures TenureRun(t, events[..n], maxDrop).at <= TenureRun(t, events, maxDrop).at
  {
    if events == [] {
    } else {
      var most := events[..|events| - 1];
      NeverBackwards(t, most, if n < |events| then n else |most|, maxDrop);
      hide TenureStep, Progress;
      ProgressStep(TenureRun(t, most, maxDrop), events[|events| - 1], maxDrop);
      if n < |events| { assert most[..n] == events[..n]; } else { assert events[..n] == events; }
    }
  }

  // ----- Runs of one slot -----

  function SlotRun(s: Slot, events: seq<SlotEvent>, maxDrop: nat): Slot {
    if events == [] then s
    else SlotStep(SlotRun(s, events[..|events| - 1], maxDrop), events[|events| - 1], maxDrop).slot
  }

  /** What the slot sends over a run. */
  function RunSent(s: Slot, events: seq<SlotEvent>, maxDrop: nat): seq<Msg> {
    if events == [] then []
    else
      var n := |events| - 1;
      RunSent(s, events[..n], maxDrop) + SlotStep(SlotRun(s, events[..n], maxDrop), events[n], maxDrop).sent
  }

  lemma {:induction false} TenureRunsSlot(t: Tenure, events: seq<SlotEvent>, maxDrop: nat)
    ensures TenureRun(t, events, maxDrop).slot == SlotRun(t.slot, events, maxDrop)
  {
    hide SlotStep;
    if events != [] { TenureRunsSlot(t, events[..|events| - 1], maxDrop); }
  }

  predicate IsAdvance(s: Slot, e: SlotEvent) {
    e.Offered? && Before(s.ackSeq, e.m.ack)
  }

  /** An event that moves a held buffer: an advancing ACK, or a timer that finds the way free. */
  predicate Touches(s: Slot, e: SlotEvent) {
    IsAdvance(s, e) || (e.Fired? && s.busy && s.held.Some? && s.sending.None?)
  }

  predicate Untouched(s: Slot, events: seq<SlotEvent>, maxDrop: nat) {
    events == [] ||
    (var n := |events| - 1;
     Untouched(s, events[..n], maxDrop) && !Touches(SlotRun(s, events[..n], maxDrop), events[n]))
  }

  lemma {:induction false} HeldStays(s: Slot, events: seq<SlotEvent>, maxDrop: nat)
    requires Untouched(s, events, maxDrop)
    ensures var t := SlotRun(s, events, maxDrop);
            t.held == s.held && t.ackSeq == s.ackSeq && t.busy == s.busy && (t.timerPending ==> s.timerPending)
  {
    if events != [] { HeldStays(s, events[..|events| - 1], maxDrop); }
  }

  /**
   * The condition is needed. Whatever completions, PSH marks, stale ACKs and timers that may not send come
   * first, the first advancing ACK of a tenure frees exactly what the slot held before the tenure began, which
   * is another flow's newest ACK.
   */
  lemma FirstAdvanceFreesLeftover(
      s: Slot, first: Msg, events: seq<SlotEvent>, next: Msg, winScale: u16, now: nat, later: nat, maxDrop: nat)
    requires Before(first.ack, next.ack) && Untouched(Begin(s, first, winScale, now, maxDrop), events, maxDrop)
    ensures var t := SlotRun(Begin(s, first, winScale, now, maxDrop), events, maxDrop);
            Offer(t, next, later, maxDrop).freed == if s.held.Some? then [s.held.value] else []
  {
    HeldStays(Begin(s, first, winScale, now, maxDrop), events, maxDrop);
    hide SlotRun;
  }

  // ----- A completion that comes too late -----

  /** No event is a PSH mark or the completion of the send `id`. */
  predicate Mute(events: seq<SlotEvent>, id: nat) {
    forall i :: 0 <= i < |events| ==> !events[i].Pushed? && events[i] != Completed(id)
  }

  lemma {:induction false} Starves(s: Slot, id: nat, events: seq<SlotEvent>, maxDrop: nat)
    requires s.sending == Some(id) && !s.pshFlag && Mute(events, id)
    ensures var t := SlotRun(s, events, maxDrop); t.sending == Some(id) && !t.pshFlag
    ensures RunSent(s, events, maxDrop) == []
  {
    if events != [] { Starves(s, id, events[..|events| - 1], maxDrop); }
  }

  /**
   * A slot that aged out during a send ignores the completion of that send, and its next tenure takes over the
   * mark of a send outstanding: without a PSH mark it sends nothing, whatever else comes.
   */
  lemma StarvedTenure(
      s: Slot, id: nat, first: Msg, winScale: u16, now: nat, events: seq<SlotEvent>, maxDrop: nat)
    requires !s.busy && s.sending == Some(id) && Mute(events, id)
    ensures RunSent(Begin(Complete(s, id), first, winScale, now, maxDrop), events, maxDrop) == []
  {
    Starves(Begin(s, first, winScale, now, maxDrop), id, events, maxDrop);
  }

  /**
   * A tenure begins with the count at its bound, so that its first advancing ACK is sent at once. It is, if and
   * only if the slot took over no such mark.
   */
  lemma {:induction false} FirstAdvanceSentIff(
      s: Slot, first: Msg, events: seq<SlotEvent>, next: Msg, winScale: u16, now: nat, later: nat, maxDrop: nat)
    requires Before(first.ack, next.ack) && Untouched(Begin(s, first, winScale, now, maxDrop), events, maxDrop)
    requires forall i :: 0 <= i < |events| ==> !events[i].Pushed? && !events[i].Completed?
    ensures var t := SlotRun(Begin(s, first, winScale, now, maxDrop), events, maxDrop);
            && t.sending == s.sending && !t.pshFlag && t.dropCnt == maxDrop
            && (Offer(t, next, later, maxDrop).sent == [next] <==> s.sending.None?)
  {
    var b := Begin(s, first, winScale, now, maxDrop);
    HeldStays(b, events, maxDrop);
    if events != [] { FirstAdvanceSentIff(s, first, events[..|events| - 1], next, winScale, now, later, maxDrop); }
  }

  // ----- The timer -----

  /** A held buffer will be looked at again without any further ACK. */
  predicate Timed(s: Slot) {
    s.held.Some? ==> s.timerPending
  }

  /** A timer that finds a buffer it may not send: another is being sent, or the slot has aged out. */
  predicate FiresBlocked(s: Slot, e: SlotEvent) {
    e.Fired? && !e.late && s.held.Some? && (s.sending.Some? || !s.busy)
  }

  predicate NoBlockedFire(s: Slot, events: seq<SlotEvent>, maxDrop: nat) {
    events == [] ||
    (var n := |events| - 1;
     NoBlockedFire(s, events[..n], maxDrop) && !FiresBlocked(SlotRun(s, events[..n], maxDrop), events[n]))
  }

  /** Only such a timer leaves a held buffer without one. */
  lemma TimedUnlessBlocked(s: Slot, e: SlotEvent, maxDrop: nat)
    requires Timed(s)
    ensures Timed(SlotStep(s, e, maxDrop).slot) <==> !FiresBlocked(s, e)
  {
  }

  lemma {:induction false} StaysTimed(s: Slot, events: seq<SlotEvent>, maxDrop: nat)
    requires Timed(s) && NoBlockedFire(s, events, maxDrop)
    ensures Timed(SlotRun(s, events, maxDrop))
  {
    hide SlotStep, Timed, FiresBlocked;
    if events != [] {
      var n := |events| - 1;
      StaysTimed(s, events[..n], maxDrop);
      TimedUnlessBlocked(SlotRun(s, events[..n], maxDrop), events[n], maxDrop);
    }
  }

  /** No ACK of the run advances, and a timer comes only while it is pending. */
  predicate NoAdvance(s: Slot, events: seq<SlotEvent>, maxDrop: nat) {
    events == [] ||
    (var n := |events| - 1;
     var t := SlotRun(s, events[..n], maxDrop);
     NoAdvance(s, events[..n], maxDrop) && !IsAdvance(t, events[n]) && (events[n].Fired? ==> t.timerPending))
  }

  /** Such a buffer is neither sent nor freed nor timed again until the next advancing ACK. */
  lemma {:induction false} StuckUntilAdvance(s: Slot, events: seq<SlotEvent>, maxDrop: nat)
    requires s.held.Some? && !s.timerPending && NoAdvance(s, events, maxDrop)
    ensures var t := SlotRun(s, events, maxDrop); t.held == s.held && !t.timerPending && t.ackSeq == s.ackSeq
    ensures RunSent(s, events, maxDrop) == []
  {
    if events != [] { StuckUntilAdvance(s, events[..|events| - 1], maxDrop); }
  }

  // ----- The suppression bound -----

  /** No event of the run lets an ACK through, and no send is outstanding when an ACK is offered. */
  ghost predicate Silent(s: Slot, events: seq<SlotEvent>, maxDrop: nat)
    decreases |events|
  {
    events != [] ==>
      && (events[0].Offered? ==> s.sending.None?)
      && SlotStep(s, events[0], maxDrop).sent == []
      && Silent(SlotStep(s, events[0], maxDrop).slot, events[1..], maxDrop)
  }

  /** How many of the offered ACKs advance the recorded number. */
  function Advances(s: Slot, events: seq<SlotEvent>, maxDrop: nat): nat
    decreases |events|
  {
    if events == [] then 0
    else (if events[0].Offered? && Before(s.ackSeq, events[0].m.ack) then 1 else 0)
         + Advances(SlotStep(s, events[0], maxDrop).slot, events[1..], maxDrop)
  }

  /**
   * At most maxDrop - 1 advancing ACKs are withheld in a row, however timer firings, completions and PSH
   * marks are interleaved.
   */
  lemma {:induction false} SuppressionBound(s: Slot, events: seq<SlotEvent>, maxDrop: nat)
    requires Silent(s, events, maxDrop)
    ensures var n := Advances(s, events, maxDrop); n > 0 ==> s.dropCnt + n <= maxDrop - 1
    decreases |events|
  {
    if events != [] {
      SuppressionBound(SlotStep(s, events[0], maxDrop).slot, events[1..], maxDrop);
    }
  }

  /** Advancing ACKs, each at or past the one before. */
  predicate Rising(from: u32, ms: seq<Msg>) {
    ms == [] || (Rising(from, ms[..|ms| - 1]) && Before(LastAck(from, ms[..|ms| - 1]), ms[|ms| - 1].ack))
  }

  function LastAck(from: u32, ms: seq<Msg>): u32 {
    if ms == [] then from else ms[|ms| - 1].ack
  }

  function Offers(ms: seq<Msg>, now: nat): (r: seq<SlotEvent>)
    ensures |r| == |ms|
  {
    seq(|ms|, i requires 0 <= i < |ms| => Offered(ms[i], now))
  }

  /**
   * The bound is reached. After a send, fewer than maxDrop advancing ACKs are all withheld, the newest of them
   * held; the next goes through if and only if it is number maxDrop.
   */
  lemma {:induction false} BoundIsReached(s: Slot, ms: seq<Msg>, now: nat, maxDrop: nat)
    requires s.dropCnt == 0 && s.sending.None? && !s.pshFlag && Rising(s.ackSeq, ms) && |ms| < maxDrop
    ensures var t := SlotRun(s, Offers(ms, now), maxDrop);
            && t.dropCnt == |ms| && t.sending.None? && !t.pshFlag && t.ackSeq == LastAck(s.ackSeq, ms)
            && (ms != [] ==> t.held == Some(ms[|ms| - 1]))
            && forall m: Msg :: Before(t.ackSeq, m.ack) ==>
                 (Offer(t, m, now, maxDrop).sent == [m] <==> |ms| + 1 == maxDrop)
  {
    if ms != [] {
      var n := |ms| - 1;
      BoundIsReached(s, ms[..n], now, maxDrop);
      assert Offers(ms, now)[..n] == Offers(ms[..n], now);
    }
  }

  // ----- PSH -----

  /** No event of the run is another PSH mark, or an advancing ACK past `psh`. */
  predicate PushWaits(s: Slot, psh: u32, events: seq<SlotEvent>, maxDrop: nat) {
    events == [] ||
    (var n := |events| - 1;
     var e := events[n];
     && PushWaits(s, psh, events[..n], maxDrop)
     && !e.Pushed? && !(IsAdvance(SlotRun(s, events[..n], maxDrop), e) && !Before(e.m.ack, psh)))
  }

  lemma {:induction false} PushIsKept(s: Slot, psh: u32, events: seq<SlotEvent>, maxDrop: nat)
    requires s.pshFlag && s.pshSeq == psh && PushWaits(s, psh, events, maxDrop)
    ensures var t := SlotRun(s, events, maxDrop); t.pshFlag && t.pshSeq == psh
  {
    if events != [] { PushIsKept(s, psh, events[..|events| - 1], maxDrop); }
  }

  /**
   * Once PSH is marked, and whatever timers, completions and other ACKs come between, the first advancing ACK
   * past the marked number is sent at once, also while another send is outstanding.
   */
  lemma PushIsAckedAtOnce(s: Slot, psh: u32, events: seq<SlotEvent>, m: Msg, now: nat, maxDrop: nat)
    requires PushWaits(MarkPush(s, psh), psh, events, maxDrop)
    ensures var t := SlotRun(MarkPush(s, psh), events, maxDrop);
            Before(t.ackSeq, m.ack) && !Before(m.ack, psh) ==>
              Offer(t, m, now, maxDrop).sent == [m] && !Offer(t, m, now, maxDrop).slot.pshFlag
  {
    PushIsKept(MarkPush(s, psh), psh, events, maxDrop);
    hide SlotRun, PushWaits;
  }
}
