/**
  Properties of the parrot channel: the framing invariant holds from module
  init on and every entry point keeps it; under it, writes append whole
  messages, reads remove whole messages from the head, and so messages come
  out in the order they went in.
 */
module ParrotProperties {
  import ByteFifo
  import MsgTable
  import Frames
  import opened Parrot

  /** Module init establishes the invariant, with no message pending. */
  lemma InitInv(c: Config)
    requires ValidConfig(c)
    ensures Inv(c, Init(c))
    ensures Messages(Init(c)) == []
  {
  }

  /**
    Open touches only the session: the pending messages stay as they were.
    A write-mode open returns -13 (-EACCES), a busy one -16 (-EBUSY).
   */
  lemma OpenKeepsMessages(c: Config, s: State, flags: bv32)
    requires Inv(c, s)
    ensures Inv(c, Open(s, flags).1) && Messages(Open(s, flags).1) == Messages(s)
    ensures WantsWrite(flags) ==> Open(s, flags).0.ReturnValue() == -13
    ensures !WantsWrite(flags) && s.held ==> Open(s, flags).0.ReturnValue() == -16
  {
  }

  /** Close returns 0 and leaves the pending messages as they were. */
  lemma CloseKeepsMessages(c: Config, s: State)
    requires Inv(c, s)
    ensures Inv(c, Close(s).1) && Messages(Close(s).1) == Messages(s)
    ensures Close(s).0.ReturnValue() == 0
  {
  }

  /**
    A successful write appends exactly its payload as one new message at the
    end; a refused one changes nothing. The invariant holds afterwards.
   */
  lemma AddToFifoAppends(c: Config, s: State, buf: seq<byte>)
    requires Inv(c, s)
    ensures Inv(c, AddToFifo(c, s, buf).1)
    ensures AddToFifo(c, s, buf).0.Ok? ==>
      Messages(AddToFifo(c, s, buf).1) == Messages(s) + [buf]
    ensures AddToFifo(c, s, buf).0.Err? ==>
      Messages(AddToFifo(c, s, buf).1) == Messages(s)
    ensures AddToFifo(c, s, buf).0.ReturnValue() ==
      if AddToFifo(c, s, buf).0.Ok? then |buf| else -28
  {
    var (st, s') := AddToFifo(c, s, buf);
    if st.Ok? {
      var pending := MsgTable.Pending(s.table);
      assert MsgTable.Pending(s'.table) == pending + [|buf|];
      Frames.SumAppend(pending, |buf|);
      Frames.SplitAppend(s.fifo.data, pending, buf);
    }
  }

  /**
    A read that reaches the copy takes exactly the oldest pending message,
    whole (`lens[rd]` bytes, never short), and leaves the rest pending in
    order. A read that stops early changes nothing.
   */
  lemma ReadTakesHead(c: Config, s: State)
    requires Inv(c, s)
    ensures Inv(c, Read(c, s).1)
    ensures Read(c, s).0.Nothing? ==> Read(c, s).1 == s
    ensures Read(c, s).0.Delivered? ==>
      && Messages(s) != []
      && Read(c, s).0.bytes == Messages(s)[0]
      && |Read(c, s).0.bytes| == s.table.lens[s.table.rd]
      && Messages(Read(c, s).1) == Messages(s)[1..]
  {
    var (d, s') := Read(c, s);
    if d.Delivered? {
      // A non-empty FIFO means a non-empty table, whose head slot `rd` frames the head message.
      var pending := MsgTable.Pending(s.table);
      MsgTable.EmptyIffNoPending(s.table);
      MsgTable.HeadIsReadSlot(s.table);
      Frames.SplitHead(s.fifo.data, pending);
    }
  }

  /**
    With the byte FIFO empty, any messages still pending are empty ones and
    a read leaves them there: it returns nothing and changes nothing.
   */
  lemma EmptyFifoKeepsZeroLengthMessages(c: Config, s: State)
    requires Inv(c, s) && ByteFifo.IsEmpty(s.fifo)
    ensures forall i :: 0 <= i < |Messages(s)| ==> Messages(s)[i] == []
    ensures Read(c, s) == (Nothing, s)
  {
    Frames.EmptyStreamEmptyMessages(s.fifo.data, MsgTable.Pending(s.table));
  }

  /**
    Reset leaves no message pending, keeps the invariant and the session,
    and a read right after it returns nothing.
   */
  lemma ResetEmpties(c: Config, s: State, count: nat)
    requires WellFormed(c, s)
    ensures Inv(c, Reset(s, count).1)
    ensures Messages(Reset(s, count).1) == []
    ensures Read(c, Reset(s, count).1) == (Nothing, Reset(s, count).1)
    ensures Read(c, Reset(s, count).1).0.ReturnValue() == 0
  {
  }

  /** At most `PARROT_MSG_FIFO_MAX - 1` messages are ever pending. */
  lemma PendingBound(c: Config, s: State)
    requires Inv(c, s)
    ensures |Messages(s)| <= c.fifoMax - 1
  {
    MsgTable.FullIffMaxPending(s.table);
  }

  /**
    Once `PARROT_MSG_FIFO_MAX - 1` messages are pending, every further write
    is refused with ENOSPC, however much byte space is left.
   */
  lemma FullTableRefuses(c: Config, s: State, buf: seq<byte>)
    requires Inv(c, s) && |Messages(s)| == c.fifoMax - 1
    ensures AddToFifo(c, s, buf) == (Err(ENOSPC), s)
  {
    MsgTable.FullIffMaxPending(s.table);
  }

  /** A write that fits and finds a free slot is accepted whole. */
  lemma RoomAccepts(c: Config, s: State, buf: seq<byte>)
    requires Inv(c, s)
    requires |buf| <= ByteFifo.Avail(s.fifo) && |Messages(s)| < c.fifoMax - 1
    ensures AddToFifo(c, s, buf).0 == Ok(|buf|)
  {
    MsgTable.FullIffMaxPending(s.table);
  }

  /**
    One call into the driver: the device node or one of the two sysfs
    entries. A read carries the value `one_shot` has at that moment, since
    the parameter can be rewritten between calls.
   */
  datatype Call =
    | DeviceOpen(flags: bv32)
    | DeviceClose
    | DeviceRead(oneShot: bool)
    | SysFifo(buf: seq<byte>)
    | SysReset(count: nat)

  /** The state after a call, with what it accepted and what it delivered. */
  datatype StepResult = StepResult(state: State, accepted: seq<seq<byte>>, delivered: seq<seq<byte>>)

  function Step(c: Config, s: State, call: Call): (r: StepResult)
    requires WellFormed(c, s)
    ensures WellFormed(c, r.state)
  {
    match call
    case DeviceOpen(flags) => StepResult(Open(s, flags).1, [], [])
    case DeviceClose => StepResult(Close(s).1, [], [])
    case DeviceRead(oneShot) =>
      var (d, s') := Read(c.(oneShot := oneShot), s);
      StepResult(s', [], if d.Delivered? then [d.bytes] else [])
    case SysFifo(buf) =>
      var (st, s') := AddToFifo(c, s, buf);
      StepResult(s', if st.Ok? then [buf] else [], [])
    case SysReset(count) => StepResult(Reset(s, count).1, [], [])
  }

  /** Runs a sequence of calls, collecting every accepted and every delivered message. */
  function Run(c: Config, s: State, calls: seq<Call>): (r: StepResult)
    requires WellFormed(c, s)
    ensures WellFormed(c, r.state)
    decreases |calls|
  {
    if calls == [] then StepResult(s, [], [])
    else
      var first := Step(c, s, calls[0]);
      var rest := Run(c, first.state, calls[1..]);
      StepResult(rest.state, first.accepted + rest.accepted, first.delivered + rest.delivered)
  }

  predicate NoReset(calls: seq<Call>)
  {
    forall i :: 0 <= i < |calls| ==> !calls[i].SysReset?
  }

  /** Every single call keeps the invariant and, short of a reset, conserves messages. */
  lemma StepConserves(c: Config, s: State, call: Call)
    requires Inv(c, s)
    ensures Inv(c, Step(c, s, call).state)
    ensures !call.SysReset? ==>
      Step(c, s, call).delivered + Messages(Step(c, s, call).state)
        == Messages(s) + Step(c, s, call).accepted
  {
    match call
    case DeviceOpen(flags) => OpenKeepsMessages(c, s, flags);
    case DeviceClose => CloseKeepsMessages(c, s);
    case DeviceRead(oneShot) => ReadTakesHead(c.(oneShot := oneShot), s);
    case SysFifo(buf) => AddToFifoAppends(c, s, buf);
    case SysReset(count) => ResetEmpties(c, s, count);
  }

  /** Two conservation steps in a row make one. */
  lemma ChainConservation<T>(d1: seq<T>, d2: seq<T>, a1: seq<T>, a2: seq<T>, m0: seq<T>, m1: seq<T>, m2: seq<T>)
    requires d1 + m1 == m0 + a1
    requires d2 + m2 == m1 + a2
    ensures (d1 + d2) + m2 == m0 + (a1 + a2)
  {
    calc {
      (d1 + d2) + m2;
      d1 + (m1 + a2);
      (m0 + a1) + a2;
    }
  }

  /** The invariant holds after any sequence of calls. */
  lemma {:induction false} RunKeepsInv(c: Config, s: State, calls: seq<Call>)
    requires Inv(c, s)
    ensures Inv(c, Run(c, s, calls).state)
    decreases |calls|
  {
    if calls != [] {
      StepConserves(c, s, calls[0]);
      RunKeepsInv(c, Step(c, s, calls[0]).state, calls[1..]);
    }
  }

  /**
    FIFO order: over any run without a reset, the messages delivered,
    followed by those still pending, are the messages pending at the start
    followed by those accepted, in order and with identical contents.
   */
  lemma {:induction false} RunFifoOrder(c: Config, s: State, calls: seq<Call>)
    requires Inv(c, s) && NoReset(calls)
    ensures Inv(c, Run(c, s, calls).state)
    ensures Run(c, s, calls).delivered + Messages(Run(c, s, calls).state)
      == Messages(s) + Run(c, s, calls).accepted
    decreases |calls|
  {
    RunKeepsInv(c, s, calls);
    if calls != [] {
      var first := Step(c, s, calls[0]);
      StepConserves(c, s, calls[0]);
      assert NoReset(calls[1..]) by {
        forall i | 0 <= i < |calls[1..]|
          ensures !calls[1..][i].SysReset?
        {
          assert calls[1..][i] == calls[i + 1];
        }
      }
      RunFifoOrder(c, first.state, calls[1..]);
      var rest := Run(c, first.state, calls[1..]);
      ChainConservation(first.delivered, rest.delivered, first.accepted, rest.accepted,
        Messages(s), Messages(first.state), Messages(rest.state));
    }
  }

  /**
    From module init, with no reset, what readers receive is always a prefix
    of what writers had accepted, in the same order.
   */
  lemma DeliveredIsPrefixOfAccepted(c: Config, calls: seq<Call>)
    requires ValidConfig(c) && NoReset(calls)
    ensures Run(c, Init(c), calls).delivered <= Run(c, Init(c), calls).accepted
  {
    InitInv(c);
    RunFifoOrder(c, Init(c), calls);
    var t := Run(c, Init(c), calls);
    assert t.delivered + Messages(t.state) == t.accepted;
    assert t.accepted[..|t.delivered|] == t.delivered;
  }

  const Alpha: seq<byte> := [97, 108, 112, 104, 97]
  const Beta: seq<byte> := [98, 101, 116, 97]

  /** Module init followed by two accepted writes, "alpha" then "beta". */
  lemma TwoMessages(c: Config) returns (s: State)
    requires ValidConfig(c) && c.fifoSize >= 9 && c.fifoMax >= 3
    ensures Inv(c, s) && !s.held
    ensures Messages(s) == [Alpha, Beta]
  {
    InitInv(c);
    var s0 := Init(c);
    RoomAccepts(c, s0, Alpha);
    AddToFifoAppends(c, s0, Alpha);
    var s1 := AddToFifo(c, s0, Alpha).1;
    RoomAccepts(c, s1, Beta);
    AddToFifoAppends(c, s1, Beta);
    s := AddToFifo(c, s1, Beta).1;
  }

  /**
    One-shot mode: after "alpha" and "beta" are written, the first open
    reads "alpha", a second read in the same open returns nothing, and the
    next open reads "beta".
   */
  lemma OneShotScenario(c: Config) returns (s: State)
    requires ValidConfig(c) && c.fifoSize >= 9 && c.fifoMax >= 3 && c.oneShot
    ensures Inv(c, s) && !s.held && Messages(s) == [Alpha, Beta]
    ensures
      var s1 := Open(s, 0).1;
      var (d1, s2) := Read(c, s1);
      var (d2, s3) := Read(c, s2);
      var s4 := Open(Close(s3).1, 0).1;
      d1 == Delivered(Alpha) && d2 == Nothing && Read(c, s4).0 == Delivered(Beta)
  {
    s := TwoMessages(c);
    var s1 := Open(s, 0).1;
    ReadTakesHead(c, s1);
    var (d1, s2) := Read(c, s1);
    var (d2, s3) := Read(c, s2);
    var s4 := Open(Close(s3).1, 0).1;
    assert Messages(s4) == [Beta];
    ReadTakesHead(c, s4);
  }

  /**
    Without one-shot mode a single open reads "alpha", then "beta", then
    nothing.
   */
  lemma StreamingScenario(c: Config) returns (s: State)
    requires ValidConfig(c) && c.fifoSize >= 9 && c.fifoMax >= 3 && !c.oneShot
    ensures Inv(c, s) && !s.held && Messages(s) == [Alpha, Beta]
    ensures
      var s1 := Open(s, 0).1;
      var (d1, s2) := Read(c, s1);
      var (d2, s3) := Read(c, s2);
      d1 == Delivered(Alpha) && d2 == Delivered(Beta) && Read(c, s3).0 == Nothing
  {
    s := TwoMessages(c);
    var s1 := Open(s, 0).1;
    ReadTakesHead(c, s1);
    var (d1, s2) := Read(c, s1);
    ReadTakesHead(c, s2);
    var (d2, s3) := Read(c, s2);
    assert Messages(s3) == [];
    assert |s3.fifo.data| == 0;
  }

  /** A second opener is turned away while the device is held, and admitted after close. */
  lemma ExclusiveOpen(s: State, flags: bv32)
    requires !s.held && !WantsWrite(flags)
    ensures Open(s, flags).0 == Ok(0)
    ensures Open(Open(s, flags).1, flags).0 == Err(EBUSY)
    ensures Open(Open(s, flags).1, flags).0.ReturnValue() == -16
    ensures Open(Close(Open(s, flags).1).1, flags).0 == Ok(0)
  {
  }
}
