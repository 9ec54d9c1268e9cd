/** The priority frame queue of aicwf_txrxif.c: one FIFO per class, a lazy hint and eviction when full. */
module FrameQueue {
  import opened Words
  import opened Wrappers
  import opened Counts

  type Frame = int

  /** The FIFO of each class, the least urgent first. */
  type Classes = seq<seq<Frame>>

  // ----- Sums over classes -----

  function SumBy(weight: seq<Frame> -> nat, cs: Classes): nat {
    if cs == [] then 0 else SumBy(weight, cs[..|cs| - 1]) + weight(cs[|cs| - 1])
  }

  function Len(): seq<Frame> -> nat { (s: seq<Frame>) => |s| }

  function Total(cs: Classes): nat { SumBy(Len(), cs) }

  function Counting(f: Frame): seq<Frame> -> nat { (s: seq<Frame>) => Count(f, s) }

  function CountIn(f: Frame, cs: Classes): nat { SumBy(Counting(f), cs) }

  lemma {:induction false} SumUpdate(weight: seq<Frame> -> nat, cs: Classes, i: nat, s: seq<Frame>)
    requires i < |cs|
    ensures SumBy(weight, cs[i := s]) == SumBy(weight, cs) - weight(cs[i]) + weight(s)
  {
    var n := |cs| - 1;
    if i < n {
      assert cs[i := s][..n] == cs[..n][i := s];
      SumUpdate(weight, cs[..n], i, s);
    } else {
      assert cs[i := s][..n] == cs[..n];
    }
  }

  lemma {:induction false} TotalZeroIff(cs: Classes)
    ensures Total(cs) == 0 <==> forall i :: 0 <= i < |cs| ==> cs[i] == []
  {
    if cs != [] {
      var n := |cs| - 1;
      TotalZeroIff(cs[..n]);
      assert forall i :: 0 <= i < n ==> cs[..n][i] == cs[i];
    }
  }

  lemma {:induction false} ClassWithinTotal(cs: Classes, i: nat)
    requires i < |cs|
    ensures |cs[i]| <= Total(cs)
  {
    if i < |cs| - 1 { ClassWithinTotal(cs[..|cs| - 1], i); }
  }

  lemma {:induction false} OnlyClass(cs: Classes, i: nat)
    requires i < |cs| && |cs[i]| == Total(cs)
    ensures forall k :: 0 <= k < |cs| && k != i ==> cs[k] == []
  {
    SumUpdate(Len(), cs, i, []);
    var rest := cs[i := []];
    TotalZeroIff(rest);
    assert forall k :: 0 <= k < |cs| && k != i ==> rest[k] == cs[k];
  }

  lemma {:induction false} SumTail(weight: seq<Frame> -> nat, cs: Classes, n: nat)
    requires n <= |cs| && weight([]) == 0
    requires forall i :: n <= i < |cs| ==> cs[i] == []
    ensures SumBy(weight, cs[..n]) == SumBy(weight, cs)
  {
    if n < |cs| {
      SumTail(weight, cs[..|cs| - 1], n);
      assert cs[..|cs| - 1][..n] == cs[..n];
    } else {
      assert cs[..n] == cs;
    }
  }

  // ----- What the queue promises, by a full scan -----

  /** The highest class with a frame; 0 when there is none. */
  function Highest(cs: Classes): (h: nat)
    requires cs != []
    ensures h < |cs| && (cs[h] == [] ==> h == 0)
    ensures forall i :: h < i < |cs| ==> cs[i] == []
  {
    var n := |cs| - 1;
    if n == 0 || cs[n] != [] then n
    else
      var h := Highest(cs[..n]);
      assert forall i :: h < i < n ==> cs[..n][i] == cs[i];
      h
  }

  /** The lowest class with a frame. */
  function Lowest(cs: Classes): (l: nat)
    requires Total(cs) > 0
    ensures l < |cs| && cs[l] != []
    ensures forall i :: 0 <= i < l ==> cs[i] == []
  {
    var n := |cs| - 1;
    if Total(cs[..n]) > 0 then
      var l := Lowest(cs[..n]);
      assert forall i :: 0 <= i < l ==> cs[..n][i] == cs[i];
      l
    else
      TotalZeroIff(cs[..n]);
      assert forall i :: 0 <= i < n ==> cs[..n][i] == cs[i];
      n
  }

  lemma LowestIsUnique(cs: Classes, l: nat)
    requires l < |cs| && cs[l] != [] && forall i :: 0 <= i < l ==> cs[i] == []
    ensures Total(cs) > 0 && Lowest(cs) == l
  {
    TotalZeroIff(cs);
  }

  /** Every frame, class after class. */
  function Cat(cs: Classes): seq<Frame> {
    if cs == [] then [] else Cat(cs[..|cs| - 1]) + cs[|cs| - 1]
  }

  /** All frames, the most urgent class first and each class in order. */
  function Urgent(cs: Classes): seq<Frame> {
    if cs == [] then [] else cs[|cs| - 1] + Urgent(cs[..|cs| - 1])
  }

  lemma {:induction false} CountCat(f: Frame, cs: Classes)
    ensures Count(f, Cat(cs)) == CountIn(f, cs)
  {
    if cs != [] {
      CountCat(f, cs[..|cs| - 1]);
      CountAppend(f, Cat(cs[..|cs| - 1]), cs[|cs| - 1]);
    }
  }

  datatype Op = Enq(frame: Frame, prio: nat) | Dequeue | Flush

  /** The queue and what became of every frame offered to it; `put` and `got` are kept class by class. */
  datatype Trace = Trace(
    classes: Classes, offered: seq<Frame>, rejected: seq<Frame>, freed: seq<Frame>, put: Classes, got: Classes)

  predicate InRange(op: Op, n: nat) {
    op.Enq? ==> op.prio < n
  }

  predicate Sized(t: Trace, n: nat) {
    |t.classes| == |t.put| == |t.got| == n > 0
  }

  function Empty(n: nat): (cs: Classes)
    ensures |cs| == n && forall i :: 0 <= i < n ==> cs[i] == []
  {
    seq(n, i => [])
  }

  function Start(n: nat): Trace {
    Trace(Empty(n), [], [], [], Empty(n), Empty(n))
  }

  /** A full queue turns a frame away unless a strictly lower class has one to give up. */
  predicate Rejects(cs: Classes, qmax: nat, prio: nat) {
    Total(cs) >= qmax && (Total(cs) == 0 || Lowest(cs) >= prio)
  }

  /** Where an accepted frame goes: its own class, or the class of the victim it replaces. */
  function Target(cs: Classes, qmax: nat, prio: nat): (k: nat)
    requires prio < |cs| && !Rejects(cs, qmax, prio)
    ensures k <= prio && (k == prio <==> Total(cs) < qmax)
    ensures k < prio ==> cs[k] != [] && forall i :: 0 <= i < k ==> cs[i] == []
  {
    if Total(cs) < qmax then prio else Lowest(cs)
  }

  /** A frame is turned away exactly when the queue is full and every frame in it is of its class or a higher one. */
  lemma RejectsIff(cs: Classes, qmax: nat, prio: nat)
    requires prio < |cs|
    ensures Rejects(cs, qmax, prio) <==> |Cat(cs)| >= qmax && forall i :: 0 <= i < prio ==> cs[i] == []
  {
    TotalIsAll(cs);
    TotalZeroIff(cs);
    hide Total, Cat;
  }

  lemma {:induction false} TotalIsAll(cs: Classes)
    ensures Total(cs) == |Cat(cs)|
  {
    if cs != [] { TotalIsAll(cs[..|cs| - 1]); }
  }

  function Victims(cs: Classes, qmax: nat, prio: nat): (v: seq<Frame>)
    requires prio < |cs| && !Rejects(cs, qmax, prio)
    ensures |v| <= |cs[Target(cs, qmax, prio)]|
    ensures v == cs[Target(cs, qmax, prio)][|cs[Target(cs, qmax, prio)]| - |v|..]
    ensures |v| == if Total(cs) < qmax then 0 else 1
  {
    if Total(cs) < qmax then [] else var q := cs[Lowest(cs)]; [q[|q| - 1]]
  }

  function Step(t: Trace, op: Op, qmax: nat): (r: Trace)
    requires |t.classes| == |t.put| == |t.got| > 0 && InRange(op, |t.classes|)
    ensures |r.classes| == |r.put| == |r.got| == |t.classes|
  {
    var cs := t.classes;
    match op
    case Enq(f, prio) =>
      var asked := t.(offered := t.offered + [f]);
      if Rejects(cs, qmax, prio) then asked.(rejected := t.rejected + [f])
      else
        var k, v := Target(cs, qmax, prio), Victims(cs, qmax, prio);
        asked.(classes := cs[k := cs[k][..|cs[k]| - |v|] + [f]],
               freed := t.freed + v, put := t.put[k := t.put[k] + [f]])
    case Dequeue =>
      var h := Highest(cs);
      if cs[h] == [] then t
      else t.(classes := cs[h := cs[h][1..]], got := t.got[h := t.got[h] + [cs[h][0]]])
    case Flush =>
      t.(classes := Empty(|cs|), freed := t.freed + Cat(cs))
  }

  function Run(ops: seq<Op>, n: nat, qmax: nat): (t: Trace)
    requires n > 0 && forall i :: 0 <= i < |ops| ==> InRange(ops[i], n)
    ensures Sized(t, n)
  {
    if ops == [] then Start(n) else Step(Run(ops[..|ops| - 1], n, qmax), ops[|ops| - 1], qmax)
  }

  /** A queue of one frame at most, full with a frame of class 0: a frame of class 1 is put into class 0. */
  lemma EntersLowerClass(t: Trace)
    requires t.classes == [[7], []] && |t.put| == |t.got| == 2
    ensures Step(t, Enq(8, 1), 1).classes == [[8], []] && Step(t, Enq(8, 1), 1).freed == t.freed + [7]
  {
    LowestIsUnique(t.classes, 0);
    ClassWithinTotal(t.classes, 0);
    assert t.classes[0][..0] + [8] == [8];
  }

  // ----- Whole runs -----

  /** Each offered frame is in one place: rejected, freed, queued or handed out, as often as it was offered. */
  predicate Balanced(t: Trace, f: Frame) {
    Count(f, t.offered) == Count(f, t.rejected) + Count(f, t.freed) + CountIn(f, t.classes) + CountIn(f, t.got)
  }

  lemma EnqBalances(t: Trace, op: Op, qmax: nat, f: Frame)
    requires Sized(t, |t.classes|) && op.Enq? && InRange(op, |t.classes|) && Balanced(t, f)
    ensures Balanced(Step(t, op, qmax), f)
  {
    var cs, prio := t.classes, op.prio;
    CountAppend(f, t.offered, [op.frame]);
    if Rejects(cs, qmax, prio) {
      CountAppend(f, t.rejected, [op.frame]);
    } else {
      var k, v := Target(cs, qmax, prio), Victims(cs, qmax, prio);
      var keep := cs[k][..|cs[k]| - |v|];
      assert cs[k] == keep + v;
      CountAppend(f, keep, v);
      CountAppend(f, keep, [op.frame]);
      CountAppend(f, t.freed, v);
      SumUpdate(Counting(f), cs, k, keep + [op.frame]);
    }
  }

  lemma DequeueBalances(t: Trace, qmax: nat, f: Frame)
    requires Sized(t, |t.classes|) && Balanced(t, f)
    ensures Balanced(Step(t, Dequeue, qmax), f)
  {
    var h := Highest(t.classes);
    var q := t.classes[h];
    if q != [] {
      assert q == [q[0]] + q[1..];
      CountAppend(f, [q[0]], q[1..]);
      CountAppend(f, t.got[h], [q[0]]);
      SumUpdate(Counting(f), t.classes, h, q[1..]);
      SumUpdate(Counting(f), t.got, h, t.got[h] + [q[0]]);
    }
  }

  lemma FlushBalances(t: Trace, qmax: nat, f: Frame)
    requires Sized(t, |t.classes|) && Balanced(t, f)
    ensures Balanced(Step(t, Flush, qmax), f)
  {
    SumTail(Counting(f), Empty(|t.classes|), 0);
    CountAppend(f, t.freed, Cat(t.classes));
    CountCat(f, t.classes);
  }

  lemma StepBounded(t: Trace, op: Op, qmax: nat)
    requires Sized(t, |t.classes|) && InRange(op, |t.classes|) && Total(t.classes) <= qmax
    ensures Total(Step(t, op, qmax).classes) <= qmax
  {
    var cs := t.classes;
    match op
    case Enq(f, prio) =>
      if !Rejects(cs, qmax, prio) {
        var k, v := Target(cs, qmax, prio), Victims(cs, qmax, prio);
        SumUpdate(Len(), cs, k, cs[k][..|cs[k]| - |v|] + [f]);
      }
    case Dequeue =>
      var h := Highest(cs);
      if cs[h] != [] { SumUpdate(Len(), cs, h, cs[h][1..]); }
    case Flush =>
      TotalZeroIff(Step(t, Flush, qmax).classes);
  }

  lemma {:induction false} RunConserves(ops: seq<Op>, n: nat, qmax: nat, f: Frame)
    requires n > 0 && forall i :: 0 <= i < |ops| ==> InRange(ops[i], n)
    ensures Balanced(Run(ops, n, qmax), f)
    ensures Total(Run(ops, n, qmax).classes) <= qmax
  {
    if ops == [] {
      SumTail(Counting(f), Start(n).classes, 0);
      TotalZeroIff(Start(n).classes);
    } else {
      var before, op := ops[..|ops| - 1], ops[|ops| - 1];
      RunConserves(before, n, qmax, f);
      var t := Run(before, n, qmax);
      StepBounded(t, op, qmax);
      match op
      case Enq(_, _) => EnqBalances(t, op, qmax, f);
      case Dequeue => DequeueBalances(t, qmax, f);
      case Flush => FlushBalances(t, qmax, f);
    }
  }

  /** `a` is `b` with some elements left out, the others in order. */
  predicate Thinned(a: seq<Frame>, b: seq<Frame>) {
    a == [] ||
    (b != [] &&
     (Thinned(a, b[..|b| - 1]) || (a[|a| - 1] == b[|b| - 1] && Thinned(a[..|a| - 1], b[..|b| - 1]))))
  }

  lemma ThinnedAppend(a: seq<Frame>, b: seq<Frame>, x: Frame)
    requires Thinned(a, b)
    ensures Thinned(a + [x], b + [x])
  {
    assert (a + [x])[..|a|] == a && (b + [x])[..|b|] == b;
  }

  lemma {:induction false} ThinnedPrefix(a: seq<Frame>, b: seq<Frame>, n: nat)
    requires Thinned(a, b) && n <= |a|
    ensures Thinned(a[..n], b)
  {
    if n == |a| {
      assert a[..n] == a;
    } else if Thinned(a, b[..|b| - 1]) {
      ThinnedPrefix(a, b[..|b| - 1], n);
    } else {
      ThinnedPrefix(a[..|a| - 1], b[..|b| - 1], n);
      assert a[..|a| - 1][..n] == a[..n];
    }
  }

  /** Each class hands out, and still holds, the frames put into it in the order they were put. */
  predicate InOrder(t: Trace, p: nat)
    requires p < |t.classes| && p < |t.got| && p < |t.put|
  {
    Thinned(t.got[p] + t.classes[p], t.put[p])
  }

  lemma EnqInOrder(t: Trace, op: Op, qmax: nat, p: nat)
    requires Sized(t, |t.classes|) && op.Enq? && InRange(op, |t.classes|) && p < |t.classes| && InOrder(t, p)
    ensures InOrder(Step(t, op, qmax), p)
  {
    hide Thinned, Lowest, Rejects, Victims, Target;
    var cs, prio := t.classes, op.prio;
    if !Rejects(cs, qmax, prio) && p == Target(cs, qmax, prio) {
      AppendInOrder(t.got[p], cs[p], |cs[p]| - |Victims(cs, qmax, prio)|, op.frame, t.put[p]);
    }
  }

  /** A class may lose frames at its end before it gets a new one. */
  lemma AppendInOrder(got: seq<Frame>, q: seq<Frame>, n: nat, f: Frame, put: seq<Frame>)
    requires Thinned(got + q, put) && n <= |q|
    ensures Thinned(got + (q[..n] + [f]), put + [f])
  {
    hide Thinned;
    assert (got + q)[..|got| + n] == got + q[..n];
    ThinnedPrefix(got + q, put, |got| + n);
    ThinnedAppend(got + q[..n], put, f);
    assert got + q[..n] + [f] == got + (q[..n] + [f]);
  }

  lemma StepInOrder(t: Trace, op: Op, qmax: nat, p: nat)
    requires Sized(t, |t.classes|) && InRange(op, |t.classes|) && p < |t.classes| && InOrder(t, p)
    ensures InOrder(Step(t, op, qmax), p)
  {
    var all := t.got[p] + t.classes[p];
    hide Thinned;
    match op
    case Enq(_, _) =>
      EnqInOrder(t, op, qmax, p);
    case Dequeue =>
      if p == Highest(t.classes) && t.classes[p] != [] {
        assert t.got[p] + [t.classes[p][0]] + t.classes[p][1..] == all;
      }
    case Flush =>
      ThinnedPrefix(all, t.put[p], |t.got[p]|);
      assert t.got[p] + [] == all[..|t.got[p]|];
  }

  lemma {:induction false} RunKeepsOrder(ops: seq<Op>, n: nat, qmax: nat, p: nat)
    requires p < n && forall i :: 0 <= i < |ops| ==> InRange(ops[i], n)
    ensures InOrder(Run(ops, n, qmax), p)
  {
    if ops != [] {
      RunKeepsOrder(ops[..|ops| - 1], n, qmax, p);
      StepInOrder(Run(ops[..|ops| - 1], n, qmax), ops[|ops| - 1], qmax, p);
    }
  }

  /** What dequeueing until nothing comes yields. */
  function Drain(cs: Classes): seq<Frame>
    requires cs != []
    decreases Total(cs)
  {
    var h := Highest(cs);
    if cs[h] == [] then []
    else
      SumUpdate(Len(), cs, h, cs[h][1..]);
      [cs[h][0]] + Drain(cs[h := cs[h][1..]])
  }

  lemma {:induction false} UrgentFrom(cs: Classes, h: nat)
    requires h < |cs| && forall i :: h < i < |cs| ==> cs[i] == []
    ensures Urgent(cs) == cs[h] + Urgent(cs[..h])
  {
    var n := |cs| - 1;
    if h < n {
      UrgentFrom(cs[..n], h);
      assert cs[..n][..h] == cs[..h];
    }
  }

  lemma {:induction false} UrgentNone(cs: Classes)
    requires forall i :: 0 <= i < |cs| ==> cs[i] == []
    ensures Urgent(cs) == []
  {
    if cs != [] { UrgentNone(cs[..|cs| - 1]); }
  }

  lemma UrgentHead(cs: Classes)
    requires cs != []
    ensures var h := Highest(cs);
            if cs[h] == [] then Urgent(cs) == [] else Urgent(cs) == [cs[h][0]] + Urgent(cs[h := cs[h][1..]])
  {
    var h := Highest(cs);
    if cs[h] == [] {
      UrgentNone(cs);
    } else {
      var next := cs[h := cs[h][1..]];
      UrgentFrom(cs, h);
      UrgentFrom(next, h);
      assert next[..h] == cs[..h];
      assert cs[h] == [cs[h][0]] + cs[h][1..];
      hide Urgent, Highest;
    }
  }

  /** A queue is emptied class by class, the most urgent first, each in order. */
  lemma {:induction false} DrainOrder(cs: Classes)
    requires cs != []
    ensures Drain(cs) == Urgent(cs)
    decreases Total(cs)
  {
    var h := Highest(cs);
    UrgentHead(cs);
    if cs[h] != [] {
      SumUpdate(Len(), cs, h, cs[h][1..]);
      DrainOrder(cs[h := cs[h][1..]]);
    }
  }

  // ----- The queue in place -----

  class PrioQueue {
    const numPrio: u16
    const qmax: u16
    const queuelist: array<seq<Frame>>
    var hiPrio: u16
    var qcnt: u16
    ghost var trace: Trace

    /** The count is exact and no frame sits above the hint. */
    ghost predicate Consistent()
      reads this, queuelist
    {
      1 <= numPrio == queuelist.Length && hiPrio < numPrio &&
      qcnt == Total(queuelist[..]) <= qmax &&
      forall i :: hiPrio < i < numPrio ==> queuelist[i] == []
    }

    ghost predicate Valid()
      reads this, queuelist
    {
      Consistent() && Sized(trace, numPrio) && trace.classes == queuelist[..]
    }

    /** aicwf_frame_queue_init: `max_len` is cast to 16 bits. */
    constructor (num_prio: nat, max_len: int)
      requires 1 <= num_prio <= 8
      ensures Valid() && numPrio == num_prio && qmax == max_len % 0x1_0000
      ensures trace == Start(num_prio) && fresh(queuelist)
    {
      numPrio, qmax := num_prio, max_len % 0x1_0000;
      queuelist := new seq<Frame>[num_prio](_ => []);
      hiPrio, qcnt := 0, 0;
      trace := Start(num_prio);
      new;
      assert queuelist[..] == Start(num_prio).classes;
      TotalZeroIff(queuelist[..]);
    }

    /** aicwf_frame_queue_penq. */
    method Penq(prio: nat, p: Frame) returns (ok: bool)
      requires Consistent() && prio < numPrio && (|queuelist[prio]| < qmax as int ==> qcnt < qmax)
      modifies this`hiPrio, this`qcnt, queuelist
      ensures Consistent() && (ok <==> |old(queuelist[prio])| < qmax as int)
      ensures var cs := old(queuelist[..]);
              queuelist[..] == if ok then cs[prio := cs[prio] + [p]] else cs
    {
      ClassWithinTotal(queuelist[..], prio);
      SumUpdate(Len(), queuelist[..], prio, queuelist[prio] + [p]);
      ghost var was := queuelist[..];
      if |queuelist[prio]| >= qmax as int {
        return false;
      }
      queuelist[prio] := queuelist[prio] + [p];
      assert queuelist[..] == was[prio := was[prio] + [p]];
      qcnt := qcnt + 1;
      if hiPrio < prio {
        hiPrio := prio;
      }
      ok := true;
    }

    /** aicwf_frame_queue_peek_tail: the newest frame of the lowest class that has one. */
    method PeekTail() returns (p: Option<Frame>, prio: nat)
      requires Valid()
      ensures p == None <==> Total(queuelist[..]) == 0
      ensures p.Some? ==> prio == Lowest(queuelist[..]) && p.value == queuelist[prio][|queuelist[prio]| - 1]
    {
      TotalZeroIff(queuelist[..]);
      prio := 0;
      if qcnt == 0 {
        return None, prio;
      }
      while prio < hiPrio && queuelist[prio] == []
        invariant prio <= hiPrio && forall i :: 0 <= i < prio ==> queuelist[i] == []
      {
        prio := prio + 1;
      }
      LowestIsUnique(queuelist[..], prio);
      p := Some(queuelist[prio][|queuelist[prio]| - 1]);
    }

    /** aicwf_is_framequeue_empty, which adds up the classes as far as the hint. */
    method IsEmpty() returns (empty: bool)
      requires Valid()
      ensures empty <==> forall i :: 0 <= i < numPrio ==> queuelist[i] == []
      ensures empty <==> qcnt == 0
    {
      var len, prio: nat := 0, 0;
      while prio <= hiPrio
        invariant prio <= hiPrio + 1 && len == SumBy(Len(), queuelist[..prio])
      {
        assert queuelist[..prio + 1][..prio] == queuelist[..prio];
        len := len + |queuelist[prio]|;
        prio := prio + 1;
      }
      SumTail(Len(), queuelist[..], prio);
      assert queuelist[..][..prio] == queuelist[..prio];
      TotalZeroIff(queuelist[..]);
      return len == 0;
    }

    /** aicwf_frame_dequeue: the oldest frame of the highest class that has one. */
    method DequeueFrame() returns (p: Option<Frame>)
      requires Valid()
      modifies this`hiPrio, this`qcnt, this`trace, queuelist
      ensures Valid() && trace == Step(old(trace), Dequeue, qmax)
      ensures var cs := old(queuelist[..]);
              p == if cs[Highest(cs)] == [] then None else Some(cs[Highest(cs)][0])
      ensures p == None <==> old(qcnt) == 0
    {
      TotalZeroIff(queuelist[..]);
      if qcnt == 0 {
        return None;
      }
      while hiPrio > 0 && queuelist[hiPrio] == []
        invariant Valid() && trace == old(trace) && queuelist[..] == old(queuelist[..]) && qcnt > 0
        decreases hiPrio
      {
        hiPrio := hiPrio - 1;
      }
      assert hiPrio == Highest(queuelist[..]);
      p := TakeOldest(hiPrio);
      trace := Step(trace, Dequeue, qmax);
    }

    /** __skb_dequeue from a class, counted. */
    method TakeOldest(prio: nat) returns (p: Option<Frame>)
      requires Consistent() && prio < numPrio
      modifies this`qcnt, queuelist
      ensures Consistent()
      ensures var q := old(queuelist[prio]);
              if q == [] then p == None && queuelist[..] == old(queuelist[..])
              else p == Some(q[0]) && queuelist[..] == old(queuelist[..])[prio := q[1..]]
    {
      if queuelist[prio] == [] {
        return None;
      }
      SumUpdate(Len(), queuelist[..], prio, queuelist[prio][1..]);
      ghost var was := queuelist[..];
      p := Some(queuelist[prio][0]);
      queuelist[prio] := queuelist[prio][1..];
      assert queuelist[..] == was[prio := was[prio][1..]];
      qcnt := qcnt - 1;
    }

    /** aicwf_skb_dequeue_tail. */
    method TakeNewest(prio: nat) returns (p: Option<Frame>)
      requires Consistent() && prio < numPrio
      modifies this`qcnt, queuelist
      ensures Consistent()
      ensures var q := old(queuelist[prio]);
              if q == [] then p == None && queuelist[..] == old(queuelist[..])
              else p == Some(q[|q| - 1]) && queuelist[..] == old(queuelist[..])[prio := q[..|q| - 1]]
                   && qcnt == old(qcnt) - 1
    {
      var q := queuelist[prio];
      if q == [] {
        return None;
      }
      SumUpdate(Len(), queuelist[..], prio, q[..|q| - 1]);
      ghost var was := queuelist[..];
      p := Some(q[|q| - 1]);
      queuelist[prio] := q[..|q| - 1];
      assert queuelist[..] == was[prio := q[..|q| - 1]];
      qcnt := qcnt - 1;
    }

    /** aicwf_frame_enq. */
    method Enqueue(pkt: Frame, prio: nat) returns (ok: bool)
      requires Valid() && prio < numPrio
      modifies this`hiPrio, this`qcnt, this`trace, queuelist
      ensures Valid() && trace == Step(old(trace), Enq(pkt, prio), qmax)
      ensures ok <==> !Rejects(old(queuelist[..]), qmax, prio)
    {
      ghost var next := Step(trace, Enq(pkt, prio), qmax);
      ghost var cs := queuelist[..];
      ClassWithinTotal(cs, prio);
      var target: nat;
      if |queuelist[prio]| < qmax as int && qcnt < qmax {
        assert cs[prio][..|cs[prio]| - 0] == cs[prio];
        ok := Penq(prio, pkt);
        trace := next;
        return;
      }
      target := FindVictim(prio);
      if target >= prio {
        trace := next;
        return false;
      }
      ok := Replace(target, pkt);
      trace := next;
    }

    /** The class aicwf_frame_enq looks for a victim in when the queue is full: its own if that fills the queue. */
    method FindVictim(prio: nat) returns (target: nat)
      requires Valid() && prio < numPrio && qcnt == qmax
      ensures var cs := queuelist[..];
              if target >= prio then Rejects(cs, qmax, prio)
              else Total(cs) > 0 && target == Lowest(cs) && !Rejects(cs, qmax, prio)
    {
      if |queuelist[prio]| >= qmax as int {
        FullOfOneClass(queuelist[..], qmax, prio);
        target := prio;
      } else {
        TotalZeroIff(queuelist[..]);
        hide Lowest;
        var _, lowest := PeekTail();
        target := lowest;
      }
    }

    /** The eviction of aicwf_frame_enq: `pkt` takes the place of the newest frame of the class. */
    method Replace(prio: nat, pkt: Frame) returns (ok: bool)
      requires Consistent() && prio < numPrio && queuelist[prio] != []
      modifies this`hiPrio, this`qcnt, queuelist
      ensures Consistent() && ok
      ensures var q := old(queuelist[prio]);
              queuelist[..] == old(queuelist[..])[prio := q[..|q| - 1] + [pkt]]
    {
      ghost var was, q := queuelist[..], queuelist[prio];
      ClassWithinTotal(was, prio);
      hide Total, Lowest, Highest;
      var _ := TakeNewest(prio);
      assert queuelist[prio] == q[..|q| - 1];
      ok := Penq(prio, pkt);
      assert was[prio := q[..|q| - 1]][prio := q[..|q| - 1] + [pkt]] == was[prio := q[..|q| - 1] + [pkt]];
    }

    /** aicwf_frame_queue_flush. */
    method FlushAll()
      requires Valid()
      modifies this`qcnt, this`trace, queuelist
      ensures Valid() && trace == Step(old(trace), Flush, qmax) && qcnt == 0
    {
      ghost var was, freed := queuelist[..], trace.freed;
      hide Highest, Lowest, Total, Cat;
      var prio: nat := 0;
      while prio < numPrio
        invariant prio <= numPrio && Consistent()
        invariant Cleared(was, queuelist[..], prio)
        invariant trace == old(trace).(freed := freed + Cat(was[..prio]))
      {
        ClearedNext(was, queuelist[..], prio);
        FlushClass(prio);
        prio := prio + 1;
      }
      assert was[..prio] == was;
      assert queuelist[..] == Empty(numPrio);
      TotalZeroIff(queuelist[..]);
      trace := trace.(classes := queuelist[..]);
    }

    /** The walk of aicwf_frame_queue_flush over one class. */
    method FlushClass(prio: nat)
      requires Consistent() && prio < numPrio
      modifies this`qcnt, this`trace, queuelist
      ensures Consistent() && queuelist[..] == old(queuelist[..])[prio := []]
      ensures trace == old(trace).(freed := old(trace).freed + old(queuelist[prio]))
    {
      ghost var was := queuelist[..];
      while queuelist[prio] != []
        invariant Consistent() && queuelist[..] == was[prio := queuelist[prio]]
        invariant trace == old(trace).(freed := trace.freed)
        invariant trace.freed + queuelist[prio] == old(trace).freed + was[prio]
        decreases |queuelist[prio]|
      {
        ghost var q := queuelist[prio];
        assert q == [q[0]] + q[1..];
        var p := TakeOldest(prio);
        trace := trace.(freed := trace.freed + [p.value]);
      }
    }
  }

  lemma FullOfOneClass(cs: Classes, qmax: nat, prio: nat)
    requires prio < |cs| && Total(cs) <= qmax <= |cs[prio]|
    ensures Rejects(cs, qmax, prio)
  {
    ClassWithinTotal(cs, prio);
    OnlyClass(cs, prio);
    TotalZeroIff(cs);
  }

  /** How far a flush has come. */
  predicate Cleared(was: Classes, now: Classes, n: nat) {
    n <= |now| == |was| && (forall i :: 0 <= i < n ==> now[i] == []) && forall i :: n <= i < |now| ==> now[i] == was[i]
  }

  lemma ClearedNext(was: Classes, now: Classes, n: nat)
    requires Cleared(was, now, n) && n < |was|
    ensures Cleared(was, now[n := []], n + 1) && now[n] == was[n]
    ensures Cat(was[..n + 1]) == Cat(was[..n]) + was[n]
  {
    assert was[..n + 1][..n] == was[..n];
  }
}
