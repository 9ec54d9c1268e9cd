/** Reassembly of messages longer than a transfer in aicwf_usb_msg_rx_complete of aicwf_usb.c. */
module UsbReassembly {
  import opened Words
  import opened SkBuff

  type Bytes = seq<byte>

  /**
   * A completed URB: its buffer is a whole transfer long, of which `actual` bytes are new. `up` is the device
   * state and `alloc` whether a reassembly buffer can be had.
   */
  datatype Transfer = Transfer(status: int, actual: nat, buffer: Bytes, up: bool, alloc: bool)

  /** AICWF_USB_MSG_MAX_PKT_SIZE is 2048. */
  predicate Sized(t: Transfer) {
    |t.buffer| == 2048
  }

  /** Transfers that fail, overrun, are empty or come while the device is down are left without effect. */
  predicate Arrives(t: Transfer) {
    Sized(t) && t.status == 0 && 0 < t.actual <= 2048 && t.up
  }

  function Data(t: Transfer): (d: Bytes)
    requires Arrives(t)
    ensures 0 < |d| <= 2048
  {
    t.buffer[..t.actual]
  }

  // ----- Packets -----

  function Declared(p: Bytes): nat
    requires |p| >= 3
  {
    p[0] as int + p[1] as int * 0x100
  }

  /** ALIGN(n, 4). */
  function Align4(n: nat): nat { (n + 3) / 4 * 4 }

  /** ALIGN(n, 2048) / 2048: how many transfers `n` bytes take. */
  function Pieces(n: nat): nat { (n + 2047) / 2048 }

  /** A packet the firmware may send: a response padded to words, or a confirmation. */
  predicate WellFormed(p: Bytes) {
    |p| >= 3 &&
    ((p[2] == 0x11 && |p| == Align4(Declared(p) + 4)) || (p[2] == 0x12 && Declared(p) == 8 && |p| == 12))
  }

  /** A packet cut into full-size transfers and a final remainder. */
  function Fragments(p: Bytes): (r: seq<Bytes>)
    ensures |r| > 0 && r[0] == if |p| <= 2048 then p else p[..2048]
  {
    if |p| <= 2048 then [p] else [p[..2048]] + Fragments(p[2048..])
  }

  function AllFragments(ps: seq<Bytes>): seq<Bytes> {
    if ps == [] then [] else Fragments(ps[0]) + AllFragments(ps[1..])
  }

  // ----- The receiver, on values -----

  datatype Rx = Idle | Partial(total: nat, data: Bytes)

  datatype Result = Result(next: Rx, out: seq<Bytes>)

  /** A packet under way holds only full transfers, the header among them, and is not complete. */
  predicate Inv(s: Rx) {
    s.Partial? ==>
      |s.data| % 2048 == 0 && 2048 <= |s.data| < s.total && s.data[2] == 0x11 && s.total == Align4(Declared(s.data) + 4)
  }

  /** What the transfer must do to carry on the packet under way. */
  predicate Continues(s: Rx, d: Bytes) {
    s.Partial? && if |s.data| + 2048 >= s.total then |s.data| + |d| == s.total else |d| == 2048
  }

  /** A transfer read as the start of a packet: its header is looked up in the whole buffer. */
  function Fresh(t: Transfer): Result
    requires Arrives(t)
  {
    var d, n := Data(t), Declared(t.buffer);
    if t.buffer[2] == 0x11 then
      if Align4(n + 4) > 2048 && |d| == 2048 then Result(if t.alloc then Partial(Align4(n + 4), d) else Idle, [])
      else Result(Idle, if |d| == Align4(n + 4) then [d] else [])
    else Result(Idle, if t.buffer[2] == 0x12 && n == 8 && |d| == 12 then [d] else [])
  }

  function Step(s: Rx, t: Transfer): Result {
    if !Arrives(t) then Result(s, [])
    else if Continues(s, Data(t)) then
      var data := s.data + Data(t);
      if |data| == s.total then Result(Idle, [data]) else Result(Partial(s.total, data), [])
    else Fresh(t)
  }

  function Run(s: Rx, ts: seq<Transfer>): Result
    decreases |ts|
  {
    if ts == [] then Result(s, [])
    else
      var first := Step(s, ts[0]);
      var rest := Run(first.next, ts[1..]);
      Result(rest.next, first.out + rest.out)
  }

  /** The data of the transfers that arrive. */
  function Arriving(ts: seq<Transfer>): seq<Bytes> {
    if ts == [] then [] else if Arrives(ts[0]) then [Data(ts[0])] + Arriving(ts[1..]) else Arriving(ts[1..])
  }

  predicate Allocates(ts: seq<Transfer>) {
    forall i :: 0 <= i < |ts| ==> ts[i].alloc
  }

  // ----- Reassembly inverts fragmentation -----

  lemma FreshWhole(t: Transfer)
    requires Arrives(t) && WellFormed(Data(t))
    ensures Fresh(t) == Result(Idle, [Data(t)])
  {
  }

  lemma FreshStart(t: Transfer, p: Bytes)
    requires Arrives(t) && t.alloc && WellFormed(p) && |p| > 2048 && Data(t) == p[..2048]
    ensures Fresh(t) == Result(Partial(|p|, Data(t)), [])
  {
    var d := Data(t);
    assert t.buffer[0] == d[0] == p[0] && t.buffer[1] == d[1] == p[1] && t.buffer[2] == d[2] == p[2];
    assert Declared(t.buffer) == Declared(p);
  }

  lemma Silent(s: Rx, ts: seq<Transfer>)
    requires ts != [] && !Arrives(ts[0])
    ensures Run(s, ts) == Run(s, ts[1..]) && Arriving(ts) == Arriving(ts[1..])
  {
    assert [] + Run(s, ts[1..]).out == Run(s, ts[1..]).out;
  }

  lemma Heard(s: Rx, ts: seq<Transfer>)
    requires ts != [] && Arrives(ts[0])
    ensures Run(s, ts).out == Step(s, ts[0]).out + Run(Step(s, ts[0]).next, ts[1..]).out
    ensures Arriving(ts) == [Data(ts[0])] + Arriving(ts[1..])
    ensures Step(s, ts[0]).next.Partial? ==> Step(s, ts[0]).out == []
  {
  }

  /** The transfer that comes first carries the first fragment. */
  lemma FirstArrives(ts: seq<Transfer>, p: Bytes, ps: seq<Bytes>)
    requires ts != [] && Arrives(ts[0]) && Arriving(ts) == Fragments(p) + AllFragments(ps)
    ensures if |p| <= 2048 then Data(ts[0]) == p && Arriving(ts[1..]) == AllFragments(ps)
            else Data(ts[0]) == p[..2048] && Arriving(ts[1..]) == Fragments(p[2048..]) + AllFragments(ps)
  {
    ArrivingTail(ts);
    FragmentsTail(p);
    TailOfBoth(Fragments(p), AllFragments(ps));
    hide Fragments, AllFragments, Arrives, Arriving, Data;
    assert [] + AllFragments(ps) == AllFragments(ps);
  }

  lemma ArrivingTail(ts: seq<Transfer>)
    requires ts != [] && Arrives(ts[0])
    ensures Arriving(ts) != [] && Arriving(ts)[0] == Data(ts[0]) && Arriving(ts)[1..] == Arriving(ts[1..])
  {
  }

  lemma FragmentsTail(p: Bytes)
    ensures Fragments(p)[1..] == if |p| <= 2048 then [] else Fragments(p[2048..])
  {
  }

  lemma TailOfBoth(a: seq<Bytes>, b: seq<Bytes>)
    requires a != []
    ensures (a + b)[0] == a[0] && (a + b)[1..] == a[1..] + b
  {
  }

  /** Any stream of well-formed packets is delivered as it was sent, whatever transfers without effect come between. */
  lemma {:induction false} StreamIsDelivered(ps: seq<Bytes>, ts: seq<Transfer>)
    requires forall i :: 0 <= i < |ps| ==> WellFormed(ps[i])
    requires Arriving(ts) == AllFragments(ps) && Allocates(ts)
    ensures Run(Idle, ts) == Result(Idle, ps)
    decreases |ts|
  {
    hide WellFormed, Fresh, Arrives, Declared, Fragments;
    if ts != [] {
      var t := ts[0];
      if !Arrives(t) {
        Silent(Idle, ts);
        StreamIsDelivered(ps, ts[1..]);
      } else {
        var p := ps[0];
        FirstArrives(ts, p, ps[1..]);
        if |p| <= 2048 {
          FreshWhole(t);
          StreamIsDelivered(ps[1..], ts[1..]);
        } else {
          FreshStart(t, p);
          RestIsDelivered(p, 2048, ps[1..], ts[1..]);
        }
        assert ps == [p] + ps[1..];
      }
    }
  }

  lemma {:induction false} RestIsDelivered(p: Bytes, n: nat, ps: seq<Bytes>, ts: seq<Transfer>)
    requires WellFormed(p) && (forall i :: 0 <= i < |ps| ==> WellFormed(ps[i]))
    requires n < |p|
    requires Arriving(ts) == Fragments(p[n..]) + AllFragments(ps) && Allocates(ts)
    ensures Run(Partial(|p|, p[..n]), ts) == Result(Idle, [p] + ps)
    decreases |ts|
  {
    hide WellFormed, Fresh, Arrives, Declared, Fragments;
    var s := Partial(|p|, p[..n]);
    if ts != [] {
      if !Arrives(ts[0]) {
        Silent(s, ts);
        RestIsDelivered(p, n, ps, ts[1..]);
      } else {
        FirstArrives(ts, p[n..], ps);
        var all := p[..n] + Data(ts[0]);
        if |p| - n <= 2048 {
          assert all == p;
          StreamIsDelivered(ps, ts[1..]);
        } else {
          assert p[n..][2048..] == p[n + 2048..] && all == p[..n + 2048];
          RestIsDelivered(p, n + 2048, ps, ts[1..]);
          assert [] + ([p] + ps) == [p] + ps;
        }
      }
    }
  }

  // ----- The packets, byte by byte -----

  /**
   * A packet as it lies in memory: its length `n` with the low byte first, its type, and after a response of
   * n + 4 bytes the padding to a whole number of words.
   */
  predicate PacketOf(p: Bytes, n: u16) {
    && |p| >= 3 && p[0] == n % 0x100 && p[1] == n / 0x100
    && ((p[2] == 0x11 && |p| % 4 == 0 && n + 4 <= |p| < n + 8) || (p[2] == 0x12 && n == 8 && |p| == 12))
  }

  lemma LengthIs(p: Bytes, n: u16)
    requires |p| >= 3
    ensures Declared(p) == n <==> p[0] == n % 0x100 && p[1] == n / 0x100
  {
  }

  lemma AlignIs(n: nat, m: nat)
    ensures m == Align4(n) <==> m % 4 == 0 && n <= m < n + 4
  {
  }

  lemma WellFormedIff(p: Bytes)
    ensures WellFormed(p) <==> exists n: u16 :: PacketOf(p, n)
  {
    if |p| >= 3 {
      var n: u16 := Declared(p);
      AlignIs(n + 4, |p|);
      forall m: u16 ensures PacketOf(p, m) ==> m == n {
        LengthIs(p, m);
        hide Declared, Align4;
      }
      LengthIs(p, n);
      assert PacketOf(p, n) <==> WellFormed(p);
    }
  }

  /** A packet of each kind, of any length, is delivered. */
  lemma PacketIsDelivered(p: Bytes, n: u16, ts: seq<Transfer>)
    requires PacketOf(p, n) && Arriving(ts) == Fragments(p) && Allocates(ts)
    ensures Run(Idle, ts) == Result(Idle, [p])
  {
    WellFormedIff(p);
    assert AllFragments([p][1..]) == [] && Fragments(p) + [] == Fragments(p);
    StreamIsDelivered([p], ts);
  }

  /** The cut of a packet: transfers of 2048 bytes and a last one of what is left, which make it up again. */
  lemma {:induction false} FragmentsAre(p: Bytes)
    ensures Flat(Fragments(p)) == p
    ensures var f := Fragments(p);
            && (forall i :: 0 <= i < |f| - 1 ==> |f[i]| == 2048)
            && |f[|f| - 1]| <= 2048 && (p != [] ==> f[|f| - 1] != [])
  {
    FlatFragments(p);
    if |p| > 2048 { FragmentsAre(p[2048..]); }
    hide Flat;
  }

  // ----- After a loss -----

  lemma {:induction false} SkipSilent(s: Rx, ts: seq<Transfer>) returns (n: nat)
    requires Arriving(ts) != []
    ensures n < |ts| && Arrives(ts[n]) && Run(s, ts) == Run(s, ts[n..]) && Arriving(ts[n..]) == Arriving(ts)
  {
    hide Step, Arrives;
    if Arrives(ts[0]) {
      n := 0;
      assert ts[0..] == ts;
    } else {
      Silent(s, ts);
      var m := SkipSilent(s, ts[1..]);
      n := m + 1;
      assert ts[1..][m..] == ts[n..];
    }
  }

  /** What the first transfer of a stream of packets does in any state. */
  lemma FirstStep(s: Rx, ps: seq<Bytes>, ts: seq<Transfer>) returns (n: nat)
    requires ps != [] && Arriving(ts) == AllFragments(ps)
    ensures n < |ts| && Arrives(ts[n]) && Data(ts[n]) == Fragments(ps[0])[0] && Run(s, ts) == Run(s, ts[n..])
    ensures Arriving(ts[n..]) == AllFragments(ps)
    ensures Arriving(ts[n + 1..]) == Fragments(ps[0])[1..] + AllFragments(ps[1..])
    ensures var step := Step(s, ts[n]);
            var rest := Run(step.next, ts[n + 1..]);
            Run(s, ts) == Result(rest.next, step.out + rest.out)
  {
    assert AllFragments(ps) == Fragments(ps[0]) + AllFragments(ps[1..]);
    hide Step, Arrives, Fragments, AllFragments;
    n := SkipSilent(s, ts);
    ArrivingTail(ts[n..]);
    TailOfBoth(Fragments(ps[0]), AllFragments(ps[1..]));
    assert ts[n..][1..] == ts[n + 1..] && ts[n..][0] == ts[n];
  }

  /**
   * A stream of well-formed packets of any length after a packet that lost a fragment. If the first fragment
   * does not carry on the broken packet, every packet of the stream is delivered, and the broken one dropped.
   * If it is a whole packet of the very length still missing, it is taken for the end of the broken one, and
   * the others are delivered.
   */
  lemma ResumesAfterLoss(s: Rx, ps: seq<Bytes>, ts: seq<Transfer>)
    requires ps != [] && forall i :: 0 <= i < |ps| ==> WellFormed(ps[i])
    requires Arriving(ts) == AllFragments(ps) && Allocates(ts)
    ensures var d := Fragments(ps[0])[0];
            && (!Continues(s, d) ==> Run(s, ts) == Result(Idle, ps))
            && (Continues(s, d) && |ps[0]| <= 2048 && |s.data| + |d| == s.total ==>
                  Run(s, ts) == Result(Idle, [s.data + ps[0]] + ps[1..]))
  {
    var d := Fragments(ps[0])[0];
    FragmentsTail(ps[0]);
    hide WellFormed, Fresh, Declared, Fragments, AllFragments, Arrives, Arriving;
    var n := FirstStep(s, ps, ts);
    if !Continues(s, d) {
      assert Run(s, ts[n..]) == Run(Idle, ts[n..]);
      StreamIsDelivered(ps, ts[n..]);
    } else if |ps[0]| <= 2048 && |s.data| + |d| == s.total {
      assert [] + AllFragments(ps[1..]) == AllFragments(ps[1..]);
      StreamIsDelivered(ps[1..], ts[n + 1..]);
    }
  }

  /**
   * The remaining case: the first fragment is a full transfer and the broken packet still wants one. It is
   * swallowed, whatever packet it belongs to, and the rest of the stream meets a receiver that is idle, if that
   * completed the broken packet, or still waiting.
   */
  lemma SwallowsFirst(s: Rx, ps: seq<Bytes>, ts: seq<Transfer>) returns (n: nat)
    requires ps != [] && Arriving(ts) == AllFragments(ps)
    requires Continues(s, Fragments(ps[0])[0]) && |Fragments(ps[0])[0]| == 2048
    ensures n <= |ts| && Arriving(ts[n..]) == Fragments(ps[0])[1..] + AllFragments(ps[1..])
    ensures var data := s.data + ps[0][..2048];
            var done := |data| == s.total;
            var rest := Run(if done then Idle else Partial(s.total, data), ts[n..]);
            Run(s, ts) == Result(rest.next, (if done then [data] else []) + rest.out)
  {
    hide Fragments, AllFragments, Arrives, Arriving, Run;
    var m := FirstStep(s, ps, ts);
    n := m + 1;
    assert |ps[0]| == 2048 ==> ps[0][..2048] == ps[0];
  }

  /** The bytes of several pieces in a row. */
  function Flat(pieces: seq<Bytes>): Bytes {
    if pieces == [] then [] else Flat(pieces[..|pieces| - 1]) + pieces[|pieces| - 1]
  }

  lemma {:induction false} FlatConcat(a: seq<Bytes>, b: seq<Bytes>)
    ensures Flat(a + b) == Flat(a) + Flat(b)
  {
    if b == [] {
      assert a + b == a;
    } else {
      var n := |b| - 1;
      assert (a + b)[..|a + b| - 1] == a + b[..n];
      FlatConcat(a, b[..n]);
    }
  }

  lemma FlatOne(d: Bytes)
    ensures Flat([d]) == d
  {
    assert [d][..0] == [] && [] + d == d;
  }

  lemma {:induction false} FlatFragments(p: Bytes)
    ensures Flat(Fragments(p)) == p
  {
    if |p| <= 2048 {
      FlatOne(p);
    } else {
      FlatFragments(p[2048..]);
      FlatOne(p[..2048]);
      FlatConcat([p[..2048]], Fragments(p[2048..]));
    }
  }

  lemma {:induction false} FlatAllFragments(ps: seq<Bytes>)
    ensures Flat(AllFragments(ps)) == Flat(ps)
  {
    if ps != [] {
      FlatFragments(ps[0]);
      FlatAllFragments(ps[1..]);
      FlatConcat(Fragments(ps[0]), AllFragments(ps[1..]));
      FlatOne(ps[0]);
      FlatConcat([ps[0]], ps[1..]);
      assert [ps[0]] + ps[1..] == ps;
    }
  }

  function Held(s: Rx): nat {
    if s.Idle? then 0 else |s.data|
  }

  lemma StepBytes(s: Rx, t: Transfer)
    requires Arrives(t)
    ensures |Flat(Step(s, t).out)| + Held(Step(s, t).next) <= Held(s) + |Data(t)|
    ensures !Continues(s, Data(t)) ==> |Flat(Step(s, t).out)| + Held(Step(s, t).next) <= |Data(t)|
  {
    if Step(s, t).out != [] { FlatOne(Step(s, t).out[0]); }
  }

  /** No more bytes are delivered or held than were held or arrive. */
  lemma {:induction false} RunBytes(s: Rx, ts: seq<Transfer>)
    ensures |Flat(Run(s, ts).out)| + Held(Run(s, ts).next) <= Held(s) + |Flat(Arriving(ts))|
    decreases |ts|
  {
    hide Step, Arrives, Held, Flat;
    if ts == [] {
      FlatNone();
    } else if !Arrives(ts[0]) {
      Silent(s, ts);
      RunBytes(s, ts[1..]);
    } else {
      var step := Step(s, ts[0]);
      StepBytes(s, ts[0]);
      RunBytes(step.next, ts[1..]);
      Heard(s, ts);
      FlatConcat(step.out, Run(step.next, ts[1..]).out);
      FlatConcat([Data(ts[0])], Arriving(ts[1..]));
      FlatOne(Data(ts[0]));
    }
  }

  lemma FlatNone()
    ensures Flat([]) == []
  {
  }

  /** The packet that would come out if what arrives completed the one under way. */
  predicate CompletedFrom(p: Bytes, s: Rx, bytes: Bytes) {
    s.Partial? && |s.data| <= s.total <= |s.data| + |bytes| && p == s.data + bytes[..s.total - |s.data|]
  }

  /** A packet under way is either completed by the very next bytes, or its own bytes are lost. */
  lemma {:induction false} CompletedOrLost(s: Rx, ts: seq<Transfer>)
    requires s.Partial? && |s.data| < s.total
    ensures var o, bytes := Run(s, ts).out, Flat(Arriving(ts));
            (o != [] && CompletedFrom(o[0], s, bytes)) || |Flat(o)| <= |bytes|
    decreases |ts|
  {
    hide Flat, Arrives, Fresh;
    if ts == [] {
      FlatNone();
    } else if !Arrives(ts[0]) {
      Silent(s, ts);
      CompletedOrLost(s, ts[1..]);
    } else {
      var d, step, rest := Data(ts[0]), Step(s, ts[0]), Flat(Arriving(ts[1..]));
      Heard(s, ts);
      FlatOne(d);
      FlatConcat([d], Arriving(ts[1..]));
      StepBytes(s, ts[0]);
      if !Continues(s, d) {
        RunBytes(step.next, ts[1..]);
        FlatConcat(step.out, Run(step.next, ts[1..]).out);
      } else if step.next.Idle? {
        assert (d + rest)[..|d|] == d;
      } else {
        CompletedOrLost(step.next, ts[1..]);
        assert [] + Run(step.next, ts[1..]).out == Run(step.next, ts[1..]).out;
        CompletedLater(s, d, rest);
      }
    }
  }

  lemma CompletedLater(s: Rx, d: Bytes, rest: Bytes)
    requires s.Partial? && |s.data| + |d| < s.total
    ensures forall p: Bytes :: CompletedFrom(p, Partial(s.total, s.data + d), rest) ==> CompletedFrom(p, s, d + rest)
  {
    var n := s.total - |s.data|;
    if n - |d| <= |rest| {
      assert (d + rest)[..n] == d + rest[..n - |d|];
      assert s.data + (d + rest[..n - |d|]) == s.data + d + rest[..n - |d|];
    }
  }

  /** A swallowed first fragment is missed, unless it went into the very packet that should have come first. */
  lemma SwallowedIsMissed(s: Rx, ps: seq<Bytes>, ts: seq<Transfer>)
    requires Inv(s) && ps != [] && Arriving(ts) == AllFragments(ps)
    requires Continues(s, Fragments(ps[0])[0]) && Run(s, ts).out == ps
    ensures CompletedFrom(ps[0], s, Flat(ps))
  {
    FlatAllFragments(ps);
    hide Inv, Fragments, AllFragments, Arriving, Run, Flat, Fresh;
    var n := FirstStep(s, ps, ts);
    var d, step, rest := Data(ts[n]), Step(s, ts[n]), Arriving(ts[n + 1..]);
    ArrivingTail(ts[n..]);
    assert ts[n..][1..] == ts[n + 1..] && Arriving(ts[n..]) == [d] + rest;
    FlatConcat([d], rest);
    FlatOne(d);
    if step.next.Idle? {
      assert (d + Flat(rest))[..|d|] == d;
    } else {
      var out := Run(step.next, ts[n + 1..]).out;
      assert [] + out == ps == out;
      CompletedOrLost(step.next, ts[n + 1..]);
      assert |Flat(ps)| == |d| + |Flat(rest)|;
      assert CompletedFrom(ps[0], step.next, Flat(rest));
      CompletedLater(s, d, Flat(rest));
    }
  }

  lemma CompletedByFirst(s: Rx, ps: seq<Bytes>)
    requires ps != [] && CompletedFrom(ps[0], s, Flat(ps))
    ensures CompletedFrom(ps[0], s, ps[0])
  {
    FlatConcat([ps[0]], ps[1..]);
    FlatOne(ps[0]);
    assert [ps[0]] + ps[1..] == ps;
  }

  /**
   * So however much is missing of the broken packet, the stream is delivered if and only if its first transfer
   * does not carry that packet on; unless the first packet of the stream is the very mixture that comes of it.
   */
  lemma DeliveredIff(s: Rx, ps: seq<Bytes>, ts: seq<Transfer>)
    requires s.Partial? && Inv(s)
    requires ps != [] && !CompletedFrom(ps[0], s, ps[0]) && forall i :: 0 <= i < |ps| ==> WellFormed(ps[i])
    requires Arriving(ts) == AllFragments(ps) && Allocates(ts)
    ensures Run(s, ts) == Result(Idle, ps) <==> !Continues(s, Fragments(ps[0])[0])
  {
    ResumesAfterLoss(s, ps, ts);
    hide WellFormed, Fragments, AllFragments, Arriving, Run, Inv, Continues, CompletedFrom;
    if Continues(s, Fragments(ps[0])[0]) && Run(s, ts).out == ps {
      SwallowedIsMissed(s, ps, ts);
      CompletedByFirst(s, ps);
    }
  }

  /**
   * So a packet nobody sent can be delivered. One fragment of `a` is missing; any longer packet `q` ends it with
   * its first transfer, unless the two packets begin alike.
   */
  lemma DeliversAMixture(a: Bytes, q: Bytes, t: Transfer)
    requires |a| == 2048 && a[2] == 0x11 && Declared(a) == 4092
    requires WellFormed(q) && |q| > 2048 && Arrives(t) && Data(t) == q[..2048]
    ensures Inv(Partial(4096, a)) && Step(Partial(4096, a), t) == Result(Idle, [a + q[..2048]])
    ensures WellFormed(a + q[..2048]) && (a != q[..2048] ==> a + q[..2048] != q)
  {
    var mix := a + q[..2048];
    assert mix[0] == a[0] && mix[1] == a[1] && mix[2] == a[2] && mix[..2048] == a;
    assert Declared(mix) == Declared(a);
  }

  lemma TwiceIsWhole(a: Bytes)
    requires |a| == 2048 && a[2] == 0x11 && Declared(a) == 4092
    ensures WellFormed(a + a) && (a + a)[..2048] == a && (a + a)[2048..] == a
    ensures Fragments(a + a)[0] == a && Fragments(a + a)[1..] == [a]
  {
    var p := a + a;
    assert p[0] == a[0] && p[1] == a[1] && p[2] == a[2];
    FragmentsTail(p);
  }

  lemma HalfIsDropped(a: Bytes, c: Bytes, ts: seq<Transfer>)
    requires |a| == 2048 && a[2] == 0x11 && Declared(a) == 4092
    requires |c| == 12 && WellFormed(c) && Arriving(ts) == [a] + [c] && Allocates(ts)
    ensures Run(Idle, ts) == Result(Idle, [c])
  {
    TwiceIsWhole(a);
    assert Fragments(c) == [c] && AllFragments([c]) == [c];
    hide Fragments, AllFragments, Arriving, Run, Arrives, Fresh, WellFormed, Declared;
    var n := SkipSilent(Idle, ts);
    var rest := ts[n..];
    ArrivingTail(rest);
    FreshStart(rest[0], a + a);
    Heard(Idle, rest);
    ResumesAfterLoss(Partial(4096, a), [c], rest[1..]);
  }

  /**
   * The exception is no empty one: `a` lost its second half and the next packet is `a` twice. Its first half
   * completes the broken packet to what it is itself, and its second half is dropped for what follows.
   */
  lemma CoincidenceIsDelivered(a: Bytes, c: Bytes, ts: seq<Transfer>)
    requires |a| == 2048 && a[2] == 0x11 && Declared(a) == 4092
    requires |c| == 12 && c[2] == 0x12 && Declared(c) == 8
    requires Arriving(ts) == AllFragments([a + a, c]) && Allocates(ts)
    ensures var s := Partial(4096, a);
            && Inv(s) && WellFormed(a + a) && WellFormed(c)
            && Continues(s, Fragments(a + a)[0]) && Run(s, ts) == Result(Idle, [a + a, c])
  {
    var s, p := Partial(4096, a), a + a;
    TwiceIsWhole(a);
    assert Fragments(c) == [c] && AllFragments([c]) == [c] && [p, c][1..] == [c];
    hide Fragments, AllFragments, Arriving, Run, Arrives, Fresh, WellFormed, Declared;
    var n := FirstStep(s, [p, c], ts);
    HalfIsDropped(a, c, ts[n + 1..]);
  }

  lemma {:induction false} RunConcat(s: Rx, a: seq<Transfer>, b: seq<Transfer>)
    ensures var first := Run(s, a);
            var rest := Run(first.next, b);
            Run(s, a + b) == Result(rest.next, first.out + rest.out)
    decreases |a|
  {
    hide Step;
    if a == [] {
      assert a + b == b && [] + Run(s, b).out == Run(s, b).out;
    } else {
      assert (a + b)[0] == a[0] && (a + b)[1..] == a[1..] + b;
      RunConcat(Step(s, a[0]).next, a[1..], b);
    }
  }

  /**
   * Whatever came before, lost or in fragments of lost packets, a packet shorter than a transfer puts the
   * receiver in step again: it may itself be taken for the end of a broken packet, when it has the very length
   * still missing, and every packet after it, of any length, is delivered.
   */
  lemma RecoversAtShort(s: Rx, before: seq<Transfer>, p: Bytes, ps: seq<Bytes>, ts: seq<Transfer>)
    requires WellFormed(p) && |p| < 2048 && forall i :: 0 <= i < |ps| ==> WellFormed(ps[i])
    requires Arriving(ts) == AllFragments([p] + ps) && Allocates(ts)
    ensures var r := Run(s, before);
            Run(s, before + ts)
            == Result(Idle, r.out + ([if Continues(r.next, p) then r.next.data + p else p] + ps))
  {
    var r := Run(s, before);
    assert Fragments(p)[0] == p && ([p] + ps)[1..] == ps;
    hide Run, WellFormed, Fragments, AllFragments;
    RunConcat(s, before, ts);
    ResumesAfterLoss(r.next, [p] + ps, ts);
  }

  // ----- Safety, for any transfers at all -----

  lemma StepKeeps(s: Rx, t: Transfer)
    requires Inv(s)
    ensures Inv(Step(s, t).next)
    ensures forall i :: 0 <= i < |Step(s, t).out| ==> WellFormed(Step(s, t).out[i])
  {
    if Arrives(t) && Continues(s, Data(t)) {
      var data := s.data + Data(t);
      assert data[0] == s.data[0] && data[1] == s.data[1] && data[2] == s.data[2];
      assert Declared(data) == Declared(s.data);
    }
  }

  /** Whatever arrives, only packets of the very length they declare are delivered. */
  lemma {:induction false} OnlyWellFormed(s: Rx, ts: seq<Transfer>)
    requires Inv(s)
    ensures Inv(Run(s, ts).next)
    ensures forall i :: 0 <= i < |Run(s, ts).out| ==> WellFormed(Run(s, ts).out[i])
    decreases |ts|
  {
    if ts != [] {
      StepKeeps(s, ts[0]);
      OnlyWellFormed(Step(s, ts[0]).next, ts[1..]);
    }
  }

  /** Each of `ps` joins consecutive pieces, in order and without sharing any. */
  ghost predicate CutFrom(pieces: seq<Bytes>, ps: seq<Bytes>)
    decreases |ps|
  {
    ps == [] ||
    exists i: nat, j: nat :: i < j <= |pieces| && Flat(pieces[i..j]) == ps[0] && CutFrom(pieces[j..], ps[1..])
  }

  lemma CutLater(pieces: seq<Bytes>, n: nat, ps: seq<Bytes>)
    requires n <= |pieces| && CutFrom(pieces[n..], ps)
    ensures CutFrom(pieces, ps)
  {
    if ps != [] {
      var i: nat, j: nat :| i < j <= |pieces| - n
          && Flat(pieces[n..][i..j]) == ps[0] && CutFrom(pieces[n..][j..], ps[1..]);
      assert pieces[n..][i..j] == pieces[n + i..n + j] && pieces[n..][j..] == pieces[n + j..];
    }
  }

  lemma CutHere(pieces: seq<Bytes>, i: nat, j: nat, p: Bytes, ps: seq<Bytes>)
    requires i < j <= |pieces| && Flat(pieces[i..j]) == p && CutFrom(pieces[j..], ps)
    ensures CutFrom(pieces, [p] + ps)
  {
    assert ([p] + ps)[1..] == ps;
  }

  predicate Holds(s: Rx, held: seq<Bytes>) {
    if s.Idle? then held == [] else s.data == Flat(held)
  }

  /** No byte is made up, repeated or moved: what is delivered was cut out of what arrived. */
  lemma {:induction false} CutFromArriving(s: Rx, held: seq<Bytes>, ts: seq<Transfer>)
    requires Holds(s, held)
    ensures CutFrom(held + Arriving(ts), Run(s, ts).out)
    decreases |ts|, 0
  {
    if ts != [] {
      var t, step := ts[0], Step(s, ts[0]);
      if !Arrives(t) { Silent(s, ts); } else { Heard(s, ts); }
      hide CutFrom, Flat, Continues, Fresh, Step, Run, Arriving, Arrives;
      if !Arrives(t) {
        CutFromArriving(s, held, ts[1..]);
      } else if step.next.Partial? {
        CutOn(s, held, t, ts[1..]);
      } else {
        CutFromArriving(Idle, [], ts[1..]);
        if step.out == [] {
          CutDrop(held, Data(t), Arriving(ts[1..]), Run(Idle, ts[1..]).out);
        } else {
          CutOut(s, held, t, Arriving(ts[1..]), Run(Idle, ts[1..]).out);
        }
      }
    }
  }

  lemma CutDrop(held: seq<Bytes>, d: Bytes, after: seq<Bytes>, ps: seq<Bytes>)
    requires CutFrom([] + after, ps)
    ensures CutFrom(held + ([d] + after), [] + ps)
  {
    var all := held + ([d] + after);
    assert all[|held| + 1..] == [] + after;
    CutLater(all, |held| + 1, ps);
    assert [] + ps == ps;
  }

  lemma CutOut(s: Rx, held: seq<Bytes>, t: Transfer, after: seq<Bytes>, ps: seq<Bytes>)
    requires Holds(s, held) && Arrives(t) && Step(s, t).next.Idle? && Step(s, t).out != [] && CutFrom([] + after, ps)
    ensures CutFrom(held + ([Data(t)] + after), Step(s, t).out + ps)
  {
    var d, n := Data(t), |held|;
    var all := held + ([d] + after);
    FlatConcat(held, [d]);
    FlatOne(d);
    assert all[n + 1..] == [] + after && all[0..n + 1] == held + [d] && all[n..n + 1] == [d];
    var start := if Continues(s, d) then 0 else n;
    CutHere(all, start, n + 1, Step(s, t).out[0], ps);
  }

  lemma {:induction false} CutOn(s: Rx, held: seq<Bytes>, t: Transfer, ts: seq<Transfer>)
    requires Holds(s, held) && Arrives(t) && Step(s, t).next.Partial?
    ensures CutFrom(held + ([Data(t)] + Arriving(ts)), Step(s, t).out + Run(Step(s, t).next, ts).out)
    decreases |ts|, 1
  {
    var d, next := Data(t), Step(s, t).next;
    FlatConcat(held, [d]);
    FlatOne(d);
    hide Flat, CutFrom, Run, Arriving, Arrives;
    var keep := if Continues(s, d) then held + [d] else [d];
    CutFromArriving(next, keep, ts);
    var all := held + ([d] + Arriving(ts));
    if Continues(s, d) {
      assert all == keep + Arriving(ts);
    } else {
      assert all[|held|..] == keep + Arriving(ts);
      CutLater(all, |held|, Run(next, ts).out);
    }
    assert [] + Run(next, ts).out == Run(next, ts).out;
  }

  // ----- The receiver in place -----

  class MsgReceiver {
    var reassembleSkb: Skb?
    var totalLen: nat
    var curLen: nat
    var totalFrags: nat
    var curFrags: nat

    ghost function Footprint(): set<object>
      reads this
    {
      if reassembleSkb == null then {this} else {this, reassembleSkb, reassembleSkb.buf}
    }

    /** Buffer length, byte count and fragment count agree, and fall short of the declared length. */
    ghost predicate Valid()
      reads this, Footprint()
    {
      if reassembleSkb == null then totalLen == curLen == totalFrags == curFrags == 0
      else
        reassembleSkb.data == 0 && reassembleSkb.buf.Length == totalLen && totalFrags == Pieces(totalLen) &&
        reassembleSkb.len == curLen == curFrags * 2048 && curLen < totalLen && Inv(View())
    }

    ghost function View(): Rx
      reads this, reassembleSkb, Footprint()
      requires reassembleSkb != null ==> reassembleSkb.data == 0 && reassembleSkb.len <= reassembleSkb.buf.Length
    {
      if reassembleSkb == null then Idle else Partial(totalLen, reassembleSkb.Bytes())
    }

    constructor ()
      ensures Valid() && View() == Idle
    {
      reassembleSkb, totalLen, curLen, totalFrags, curFrags := null, 0, 0, 0, 0;
    }

    method Reset()
      modifies this
      ensures Valid() && View() == Idle
    {
      reassembleSkb, totalLen, curLen, totalFrags, curFrags := null, 0, 0, 0, 0;
    }

    /** Whether the fragment fits the packet under way, and completes it. */
    method Check(fragLen: nat) returns (valid: bool, done: bool)
      requires Valid() && reassembleSkb != null && 0 < fragLen <= 2048
      ensures forall d: Bytes :: |d| == fragLen ==> (valid <==> Continues(View(), d))
      ensures valid ==> curLen + fragLen <= totalLen && (done <==> curLen + fragLen == totalLen)
      ensures valid && !done ==> fragLen == 2048
    {
      PiecesLeft(totalLen, curFrags);
      valid, done := false, false;
      if curFrags + 1 == totalFrags {
        if curLen + fragLen == totalLen {
          valid, done := true, true;
        }
      } else if fragLen == 2048 {
        valid := true;
      }
    }

    /** memcpy of the fragment to the end of the packet, and skb_put. */
    method Append(d: Bytes)
      requires Valid() && reassembleSkb != null && curLen + |d| <= totalLen
      modifies Footprint()
      ensures reassembleSkb == old(reassembleSkb) && totalLen == old(totalLen) && totalFrags == old(totalFrags)
      ensures reassembleSkb.data == 0 && reassembleSkb.len == curLen == old(curLen) + |d|
      ensures reassembleSkb.buf.Length == totalLen && curFrags == old(curFrags) + 1
      ensures reassembleSkb.Bytes() == old(reassembleSkb.Bytes()) + d
    {
      hide Inv, Pieces, Overwrite;
      var skb := reassembleSkb;
      ghost var was := skb.buf[..];
      skb.Write(skb.len, d);
      skb.len := skb.len + |d|;
      curLen := curLen + |d|;
      curFrags := curFrags + 1;
      assert skb.buf[..skb.len] == was[..old(skb.len)] + d;
    }

    /** A reassembly buffer of the declared length, holding the first transfer. */
    method Start(total: nat, t: Transfer)
      requires Arrives(t) && Data(t) == t.buffer && reassembleSkb == null && Valid()
      requires total > 2048 && t.buffer[2] == 0x11 && total == Align4(Declared(t.buffer) + 4)
      modifies this
      ensures Valid() && fresh(Footprint() - {this})
      ensures View() == if t.alloc then Partial(total, Data(t)) else Idle
    {
      if t.alloc {
        FirstKeepsInv(t.buffer, total);
        hide Align4, Declared, Inv, Overwrite, Pieces;
        var skb := SkbOf(total, t.buffer);
        reassembleSkb, totalLen, curLen, totalFrags, curFrags := skb, total, t.actual, Pieces(total), 1;
      }
    }

    /** A buffer of `total` bytes, the first of which are `d`. */
    method SkbOf(total: nat, d: Bytes) returns (skb: Skb)
      requires |d| <= total
      ensures fresh(skb) && fresh(skb.buf) && skb.data == 0 && skb.len == |d| && skb.buf.Length == total
      ensures skb.Bytes() == d
    {
      var buf := new byte[total];
      skb := new Skb(buf, 0, 0);
      skb.Write(0, d);
      skb.len := |d|;
      assert skb.buf[..|d|] == d;
    }

    /** The checks of a transfer that starts a packet. */
    method HandleFresh(t: Transfer) returns (out: seq<Bytes>)
      requires Arrives(t) && Valid() && reassembleSkb == null
      modifies this
      ensures Valid() && fresh(Footprint() - {this})
      ensures Result(View(), out) == Fresh(t)
    {
      var d := Data(t);
      var ty := t.buffer[2];
      var pktLen := Declared(t.buffer);
      if ty / 0x10 % 2 != 1 {
        return [];
      }
      if ty == 0x11 {
        var total := Align4(pktLen + 4);
        if total > 2048 && |d| == 2048 {
          Start(total, t);
          return [];
        } else if total != |d| {
          return [];
        }
      } else if ty == 0x12 {
        if !(pktLen == 8 && |d| == 12) {
          return [];
        }
      } else {
        return [];
      }
      out := [d];
    }

    /** A transfer that carries on the packet under way. */
    method Continue(t: Transfer, done: bool) returns (out: seq<Bytes>)
      requires Valid() && reassembleSkb != null && Arrives(t) && Continues(View(), Data(t))
      requires done <==> curLen + |Data(t)| == totalLen
      modifies Footprint()
      ensures Valid() && (reassembleSkb == null || Footprint() == old(Footprint()))
      ensures Result(View(), out) == Step(old(View()), t)
    {
      StepKeeps(View(), t);
      hide Inv, Pieces, Fresh, Declared;
      Append(Data(t));
      out := [];
      if done {
        out := [reassembleSkb.buf[..reassembleSkb.len]];
        Reset();
      }
    }

    /** aicwf_usb_msg_rx_complete: `out` is what goes to the message queue. */
    method Complete(t: Transfer) returns (out: seq<Bytes>)
      requires Valid() && Sized(t)
      modifies Footprint()
      ensures Valid() && fresh(Footprint() - old(Footprint()))
      ensures Result(View(), out) == Step(old(View()), t)
    {
      if t.actual > 2048 || t.status != 0 || t.actual == 0 || !t.up {
        return [];
      }
      var d := Data(t);
      if reassembleSkb != null {
        var valid, done := Check(|d|);
        assert valid <==> Continues(View(), d);
        if valid {
          out := Continue(t, done);
          return;
        }
        Reset();
      }
      hide Inv, Pieces, Fresh, Align4, Declared;
      out := HandleFresh(t);
    }
  }

  lemma FirstKeepsInv(d: Bytes, total: nat)
    requires |d| == 2048 < total && d[2] == 0x11 && total == Align4(Declared(d) + 4)
    ensures Inv(Partial(total, d))
  {
  }

  /** The last fragment by count is the last by length. */
  lemma PiecesLeft(total: nat, n: nat)
    requires n * 2048 < total
    ensures n < Pieces(total)
    ensures n + 1 == Pieces(total) <==> n * 2048 + 2048 >= total
  {
  }
}
