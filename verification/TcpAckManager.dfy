/** struct tcp_ack_manage and the handlers that update it in place, against TcpAckFilter. */
module TcpAckManager {
  import opened Words
  import opened Wrappers
  import opened TcpAckSlot
  import opened TcpAckFilter

  class AckManager {
    const config: Config
    const ackInfo: array<Slot>
    var enable: bool
    var maxNum: int
    var freeIndex: int
    var lastTime: nat

    function View(): State
      reads this, ackInfo
    {
      State(enable, maxNum, freeIndex, lastTime, ackInfo[..])
    }

    ghost predicate Valid()
      reads this, ackInfo
    {
      ackInfo.Length == TCP_ACK_NUM && Inv(View())
    }

    /** tcp_ack_init. */
    constructor (config: Config, now: nat)
      ensures Valid() && View() == Init(now) && this.config == config && fresh(ackInfo)
    {
      this.config := config;
      ackInfo := new Slot[TCP_ACK_NUM](_ => EMPTY_SLOT.(lastTime := now));
      enable, maxNum, freeIndex, lastTime := true, 0, 0, now;
      new;
      assert ackInfo[..] == Init(now).slots;
      InitIsClean(now, Msg(0, Flow(0, 0, 0, 0), 0));
    }

    /** The loop body of tcp_ack_update. */
    method Release(i: nat, now: nat)
      requires i < TCP_ACK_NUM == ackInfo.Length
      modifies this`maxNum, this`freeIndex, ackInfo
      ensures View() == ReleaseIfOld(old(View()), i, now, config)
    {
      if ackInfo[i].busy && now > ackInfo[i].lastTime + config.timeout {
        freeIndex := i;
        maxNum := maxNum - 1;
        ackInfo[i] := ackInfo[i].(busy := false);
      }
      assert ackInfo[..] == ReleaseIfOld(old(View()), i, now, config).slots;
    }

    /** tcp_ack_update. */
    method AgeSlots(now: nat)
      requires Valid()
      modifies this`maxNum, this`freeIndex, this`lastTime, ackInfo
      ensures Valid() && View() == Update(old(View()), now, config)
    {
      UpdateKeeps(View(), now, config);
      hide Inv, ReleaseDown, ReleaseIfOld;
      if now > lastTime + config.timeout {
        lastTime := now;
        ghost var goal := ReleaseDown(View(), TCP_ACK_NUM, now, config);
        var i: nat := ackInfo.Length;
        while i > 0
          invariant 0 <= i <= TCP_ACK_NUM && ReleaseDown(View(), i, now, config) == goal
        {
          ReleaseDownNext(View(), i, now, config);
          i := i - 1;
          Release(i, now);
        }
        ReleaseDownNext(View(), 0, now, config);
      }
    }

    /** tcp_ack_match. */
    method Match(flow: Flow) returns (ret: int)
      requires Valid()
      ensures ret == MatchFrom(View().slots, flow, 0)
      ensures -1 <= ret < TCP_ACK_NUM
      ensures ret >= 0 ==> ackInfo[ret].busy && ackInfo[ret].flow == flow
      ensures ret == -1 ==> forall k :: 0 <= k < TCP_ACK_NUM && ackInfo[k].busy ==> ackInfo[k].flow != flow
    {
      MatchFromFinds(View().slots, flow, 0);
      hide Inv;
      ret := -1;
      var i := 0;
      while ret < 0 && i < TCP_ACK_NUM
        invariant 0 <= i <= TCP_ACK_NUM
        invariant ret == -1 ==> MatchFrom(View().slots, flow, i) == MatchFrom(View().slots, flow, 0)
        invariant ret != -1 ==> ret == MatchFrom(View().slots, flow, 0)
      {
        if ackInfo[i].busy && ackInfo[i].flow == flow {
          ret := i;
        }
        i := i + 1;
      }
    }

    /** tcp_ack_alloc_index. */
    method Alloc() returns (ret: int)
      requires Valid()
      modifies this`maxNum, this`freeIndex
      ensures ret == AllocIndex(old(View())) && View() == Allocated(old(View()))
      ensures ret == -1 <==> forall k :: 0 <= k < TCP_ACK_NUM ==> ackInfo[k].busy
      ensures ret != -1 ==> 0 <= ret < TCP_ACK_NUM && !ackInfo[ret].busy
    {
      AllocFindsFree(View());
      hide Inv;
      if maxNum == TCP_ACK_NUM {
        return -1;
      }
      if freeIndex >= 0 {
        ret := freeIndex;
        freeIndex := -1;
        maxNum := maxNum + 1;
        return;
      }
      ret := -1;
      var i := 0;
      while ret < 0 && i < TCP_ACK_NUM
        invariant 0 <= i <= TCP_ACK_NUM
        invariant ret == -1 ==> FreeFrom(View().slots, i) == FreeFrom(View().slots, 0) && View() == old(View())
        invariant ret != -1 ==> ret >= 0 && ret == FreeFrom(View().slots, 0) && View() == Allocated(old(View()))
      {
        if !ackInfo[i].busy {
          freeIndex := -1;
          maxNum := maxNum + 1;
          ret := i;
        }
        i := i + 1;
      }
    }

    /** tcp_ack_handle_new: 0 when the caller goes on to transmit the buffer, 1 when the filter took it. */
    method HandleNew(m: Msg, index: nat, now: nat) returns (ret: int, dropped: Option<Msg>)
      requires Valid() && index < TCP_ACK_NUM
      modifies ackInfo
      ensures var e := Offer(old(ackInfo[index]), m, now, config.maxDrop);
              && ackInfo[..] == old(ackInfo[..])[index := e.slot]
              && e.sent == (if ret == 0 then [m] else [])
              && e.freed == (if dropped.Some? then [dropped.value] else [])
      ensures Valid()
    {
      hide Inv, Before;
      var quickAck := false;
      ret, dropped := 0, None;
      var s := ackInfo[index];
      s := s.(lastTime := now);
      if Before(s.ackSeq, m.ack) {
        if s.held.Some? {
          dropped := s.held;
          s := s.(held := None);
        }
        if s.pshFlag && !Before(m.ack, s.pshSeq) {
          s := s.(pshFlag := false);
          quickAck := true;
        } else {
          s := s.(dropCnt := s.dropCnt + 1);
        }
        s := s.(ackSeq := m.ack);
        if quickAck || (s.sending.None? && s.dropCnt >= config.maxDrop) {
          s := s.(dropCnt := 0);
          s := s.(sending := Some(m.id));
          s := s.(timerPending := false);
        } else {
          ret := 1;
          s := s.(held := Some(m));
          if !s.timerPending {
            s := s.(timerPending := true);
          }
        }
      } else {
        dropped := Some(m);
        ret := 1;
      }
      Store(index, s);
    }

    /** Write a slot back, its flow unchanged. */
    method Store(index: nat, s: Slot)
      requires Valid() && index < TCP_ACK_NUM
      requires s.busy == ackInfo[index].busy && s.flow == ackInfo[index].flow
      modifies ackInfo
      ensures Valid() && ackInfo[..] == old(ackInfo[..])[index := s]
    {
      InvUpdate(View(), index, s);
      hide Inv;
      ghost var st := View();
      ackInfo[index] := s;
      assert View() == st.(slots := st.slots[index := s]);
    }

    /** filter_send_tcp_ack. */
    method FilterSend(p: Packet, now: nat) returns (ret: int, dropped: Option<Msg>)
      requires Valid()
      modifies this`maxNum, this`freeIndex, this`lastTime, ackInfo
      ensures Valid()
      ensures var o := Send(old(View()), p, now, config);
              && View() == o.state
              && o.sent == (if ret == 0 then [p.msg] else [])
              && o.freed == (if dropped.Some? then [dropped.value] else [])
    {
      ghost var st := View();
      SendKeepsInv(st, p, now, config);
      ret, dropped := 0, None;
      AgeSlots(now);
      if p.drop == 0 && p.winScale == 0 {
        return;
      }
      ghost var u := View();
      var index := Match(p.msg.flow);
      hide Inv, Update, Offer;
      if index >= 0 {
        ghost var s := if p.winScale != 0 then u.slots[index].(winScale := p.winScale) else u.slots[index];
        if p.winScale != 0 && ackInfo[index].winScale != p.winScale {
          InvUpdate(u, index, s);
          ackInfo[index] := ackInfo[index].(winScale := p.winScale);
        }
        assert View() == u.(slots := u.slots[index := s]);
        if p.drop > 0 && enable {
          ret, dropped := HandleNew(p.msg, index, now);
          assert View().slots == u.slots[index := Offer(s, p.msg, now, config.maxDrop).slot];
        }
        assert View() == ToOwner(u, index, p, now, config).state;
        return;
      }
      index := Alloc();
      if index >= 0 {
        Open(index, p, now);
      }
      assert View() == ToNewSlot(u, p, now, config).state;
    }

    /** A free slot taken for the flow of a frame; the buffers of its last tenure are not cleared. */
    method Open(index: nat, p: Packet, now: nat)
      requires index < ackInfo.Length
      modifies ackInfo
      ensures ackInfo[..]
              == old(ackInfo[..])[index := Begin(old(ackInfo[index]), p.msg, p.winScale, now, config.maxDrop)]
    {
      var s := ackInfo[index].(busy := true, pshFlag := false, lastTime := now, dropCnt := config.maxDrop);
      s := s.(winScale := if p.winScale != 0 then p.winScale else 1);
      ackInfo[index] := s.(flow := p.msg.flow, ackSeq := p.msg.ack);
    }

    /** filter_rx_tcp_ack, on a received segment of `flow` with PSH set. */
    method FilterReceive(flow: Flow, psh: u32)
      requires Valid()
      modifies ackInfo
      ensures Valid() && View() == Step(old(View()), Receiving(flow, psh), config).state
    {
      ghost var st := View();
      StepKeepsInv(st, Receiving(flow, psh), config);
      if !enable {
        return;
      }
      var index := Match(flow);
      hide Inv;
      if index >= 0 {
        ackInfo[index] := ackInfo[index].(pshFlag := true, pshSeq := psh);
        assert ackInfo[..] == st.slots[index := MarkPush(st.slots[index], psh)];
      }
    }

    /** tcp_ack_timeout of slot `index`; the result is handed to intf_tx. */
    method Timeout(index: nat, late: bool) returns (sent: Option<Msg>)
      requires Valid() && index < TCP_ACK_NUM
      modifies ackInfo
      ensures Valid()
      ensures var o := Step(old(View()), Timer(index, late), config);
              View() == o.state && o.freed == [] && o.sent == if sent.Some? then [sent.value] else []
    {
      ghost var st := View();
      StepKeepsInv(st, Timer(index, late), config);
      hide Inv;
      var s := ackInfo[index].(timerPending := late && ackInfo[index].timerPending);
      sent := s.held;
      if s.busy && sent.Some? && s.sending.None? {
        s := s.(held := None);
        s := s.(dropCnt := 0);
        s := s.(sending := Some(sent.value.id));
      } else {
        sent := None;
      }
      ackInfo[index] := s;
      assert ackInfo[..] == st.slots[index := Fire(st.slots[index], late).slot];
    }

    /** move_tcpack_msg. */
    method MoveMsg(id: nat)
      requires Valid()
      modifies ackInfo
      ensures Valid() && View() == Step(old(View()), Done(id), config).state
    {
      ghost var st := View();
      StepKeepsInv(st, Done(id), config);
      hide Inv;
      if !enable {
        return;
      }
      var i := 0;
      while i < TCP_ACK_NUM
        invariant 0 <= i <= TCP_ACK_NUM
        invariant forall k :: 0 <= k < i ==> ackInfo[k] == Complete(st.slots[k], id)
        invariant forall k :: i <= k < TCP_ACK_NUM ==> ackInfo[k] == st.slots[k]
      {
        if ackInfo[i].busy && ackInfo[i].sending == Some(id) {
          ackInfo[i] := ackInfo[i].(sending := None);
        }
        i := i + 1;
      }
      assert ackInfo[..] == Completions(st.slots, id);
    }

    /** tcp_ack_deinit; the result lists the freed buffers. */
    method Shutdown() returns (freed: seq<Msg>)
      requires Valid()
      modifies this`enable, ackInfo
      ensures Valid()
      ensures var o := Step(old(View()), Deinit, config); View() == o.state && freed == o.freed
      ensures forall i :: 0 <= i < TCP_ACK_NUM ==> ackInfo[i].held.None?
    {
      hide Inv, AllHeld, EmptiedTo;
      ghost var st := View();
      StepKeepsInv(st, Deinit, config);
      assert |st.slots| == TCP_ACK_NUM == ackInfo.Length;
      AllHeldNext(st.slots, 0);
      EmptiedNext(st.slots, 0);
      enable := false;
      freed := [];
      var i: nat := 0;
      while i < ackInfo.Length
        invariant i <= TCP_ACK_NUM && !enable
        invariant freed == AllHeld(st.slots[..i]) && ackInfo[..] == EmptiedTo(st.slots, i)
      {
        AllHeldNext(st.slots, i);
        EmptiedNext(st.slots, i);
        var drop := DropHeld(i);
        freed := freed + drop;
        i := i + 1;
      }
      assert st.slots[..i] == st.slots;
    }

    /** The loop body of tcp_ack_deinit. */
    method DropHeld(i: nat) returns (drop: seq<Msg>)
      requires i < ackInfo.Length
      modifies ackInfo
      ensures ackInfo[..] == old(ackInfo[..])[i := old(ackInfo[i]).(held := None, timerPending := false)]
      ensures drop == HeldOf(old(ackInfo[i]))
    {
      drop := if ackInfo[i].held.Some? then [ackInfo[i].held.value] else [];
      ackInfo[i] := ackInfo[i].(held := None, timerPending := false);
    }
  }
}
