/**
  The parrot character device: a framed message channel. A producer adds
  whole messages through the `fifo` sysfs entry, an exclusive reader takes
  them back one per read through the device node, and the `reset` sysfs
  entry empties the channel.

  All the driver's global state is one immutable `State`; every entry point
  is a pure function from the old state to its result and the new state.
 */
module Parrot {
  import ByteFifo
  import MsgTable
  import Frames

  type byte = ByteFifo.byte

  /**
    PARROT_MSG_FIFO_SIZE (bytes in the FIFO), PARROT_MSG_FIFO_MAX (slots in
    the length table) and the `one_shot` module parameter.
   */
  datatype Config = Config(fifoSize: nat, fifoMax: nat, oneShot: bool)

  predicate ValidConfig(c: Config)
  {
    c.fifoSize > 0 && c.fifoMax >= 2
  }

  /**
    `held` stands for `parrot_device_mutex` being locked; `messageRead` is
    the one-shot flag `message_read`.
   */
  datatype State = State(
    fifo: ByteFifo.Fifo,
    table: MsgTable.Table,
    held: bool,
    messageRead: bool)

  /** The shapes the driver's declarations give the state. */
  predicate WellFormed(c: Config, s: State)
  {
    && ValidConfig(c)
    && ByteFifo.Valid(s.fifo) && s.fifo.cap == c.fifoSize
    && MsgTable.Valid(s.table) && |s.table.lens| == c.fifoMax
  }

  /** The pending lengths add up to exactly the bytes in the FIFO. */
  predicate Framed(s: State)
    requires MsgTable.Valid(s.table)
  {
    Frames.Sum(MsgTable.Pending(s.table)) == |s.fifo.data|
  }

  predicate Inv(c: Config, s: State)
  {
    WellFormed(c, s) && Framed(s)
  }

  /** The pending messages, oldest first, as the framing cuts the FIFO's bytes. */
  function Messages(s: State): (msgs: seq<seq<byte>>)
    requires MsgTable.Valid(s.table) && Framed(s)
    ensures Frames.Join(msgs) == s.fifo.data
    ensures Frames.Lengths(msgs) == MsgTable.Pending(s.table)
  {
    Frames.Split(s.fifo.data, MsgTable.Pending(s.table))
  }

  /** Error numbers the entry points return, negated, as in the kernel. */
  datatype Errno = EACCES | EBUSY | ENOSPC
  {
    function Code(): int
    {
      match this
      case EACCES => 13
      case EBUSY => 16
      case ENOSPC => 28
    }
  }

  datatype Status = Ok(value: nat) | Err(errno: Errno)
  {
    /** The integer the C entry point returns. */
    function ReturnValue(): int
    {
      match this
      case Ok(n) => n
      case Err(e) => -e.Code()
    }
  }

  /**
    What a read hands to the caller: `Nothing` when it returns before the
    copy, `Delivered(bytes)` when it reaches the copy (its return value is
    then the number of bytes, which can be 0).
   */
  datatype Delivery = Nothing | Delivered(bytes: seq<byte>)
  {
    function ReturnValue(): nat
    {
      match this
      case Nothing => 0
      case Delivered(b) => |b|
    }
  }

  /** Access-mode bits of `f_flags`, as in the Linux fcntl headers. */
  const O_ACCMODE: bv32 := 3
  const O_WRONLY: bv32 := 1
  const O_RDWR: bv32 := 2

  predicate WantsWrite(flags: bv32)
  {
    (flags & O_ACCMODE) == O_WRONLY || (flags & O_ACCMODE) == O_RDWR
  }

  /** Module init: empty FIFO, both indices 0, lock free, `message_read` false. */
  function Init(c: Config): (s: State)
    requires ValidConfig(c)
    ensures WellFormed(c, s)
    ensures s.table.rd == 0 && s.table.wr == 0
    ensures ByteFifo.IsEmpty(s.fifo) && !s.held && !s.messageRead
  {
    State(ByteFifo.Init(c.fifoSize), MsgTable.Init(c.fifoMax), false, false)
  }

  /**
    parrot_device_open: write access is refused first, then a second opener
    while the lock is held; otherwise the lock is taken and the one-shot
    flag cleared.
   */
  function Open(s: State, flags: bv32): (r: (Status, State))
    ensures WantsWrite(flags) ==> r.0 == Err(EACCES)
    ensures !WantsWrite(flags) && s.held ==> r.0 == Err(EBUSY)
    ensures r.0.Ok? <==> !WantsWrite(flags) && !s.held
    ensures r.0.Err? ==> r.1 == s
    ensures r.0.Ok? ==> r.0.value == 0 && r.1 == s.(held := true, messageRead := false)
  {
    if WantsWrite(flags) then (Err(EACCES), s)
    else if s.held then (Err(EBUSY), s)
    else (Ok(0), s.(held := true, messageRead := false))
  }

  /** parrot_device_close: releases the lock and leaves everything else alone. */
  function Close(s: State): (r: (Status, State))
    ensures r.0 == Ok(0)
    ensures !r.1.held
    ensures r.1.fifo == s.fifo && r.1.table == s.table && r.1.messageRead == s.messageRead
  {
    (Ok(0), s.(held := false))
  }

  /**
    parrot_device_read. In one-shot mode a second read after a delivery
    returns nothing; an empty byte FIFO returns nothing (the length table is
    not consulted). Otherwise it asks the FIFO for `lens[rd]` bytes, however
    large the caller's buffer, advances `rd` and sets `message_read`.
   */
  function Read(c: Config, s: State): (r: (Delivery, State))
    requires WellFormed(c, s)
    ensures WellFormed(c, r.1)
    ensures c.oneShot && s.messageRead ==> r == (Nothing, s)
    ensures ByteFifo.IsEmpty(s.fifo) ==> r == (Nothing, s)
    ensures r.0.Nothing? ==> r.1 == s
    ensures r.0.Delivered? <==> !(c.oneShot && s.messageRead) && !ByteFifo.IsEmpty(s.fifo)
    ensures r.0.Delivered? ==>
      && r.0.bytes + r.1.fifo.data == s.fifo.data
      && (|r.0.bytes| == s.table.lens[s.table.rd] <==> s.table.lens[s.table.rd] <= |s.fifo.data|)
      && r.1.table == MsgTable.AdvanceRead(s.table)
      && r.1.table.rd == MsgTable.Next(s.table.rd, c.fifoMax)
      && r.1.messageRead && r.1.held == s.held
  {
    if c.oneShot && s.messageRead then (Nothing, s)
    else if ByteFifo.IsEmpty(s.fifo) then (Nothing, s)
    else
      var (bytes, fifo') := ByteFifo.Out(s.fifo, s.table.lens[s.table.rd]);
      (Delivered(bytes),
       s.(fifo := fifo', table := MsgTable.AdvanceRead(s.table), messageRead := true))
  }

  /**
    sys_add_to_fifo: a message that does not fit in the FIFO's free space is
    refused, then one that would fill the length table; either way nothing
    changes. Otherwise the bytes go on the FIFO's tail, the copied count goes
    in slot `wr`, and `wr` advances.
   */
  function AddToFifo(c: Config, s: State, buf: seq<byte>): (r: (Status, State))
    requires WellFormed(c, s)
    ensures WellFormed(c, r.1)
    ensures r.0.Err? <==>
      ByteFifo.Avail(s.fifo) < |buf| || MsgTable.IsFull(s.table)
    ensures r.0.Err? ==> r.0 == Err(ENOSPC) && r.1 == s
    ensures r.0.Ok? ==>
      && r.0.value == |buf|
      && r.1.fifo.data == s.fifo.data + buf
      && r.1.table.lens == s.table.lens[s.table.wr := |buf|]
      && r.1.table.wr == MsgTable.Next(s.table.wr, c.fifoMax)
      && r.1.table.rd == s.table.rd
      && r.1.held == s.held && r.1.messageRead == s.messageRead
  {
    if ByteFifo.Avail(s.fifo) < |buf| then (Err(ENOSPC), s)
    else if MsgTable.IsFull(s.table) then (Err(ENOSPC), s)
    else
      var (fifo', copied) := ByteFifo.In(s.fifo, buf);
      (Ok(copied), s.(fifo := fifo', table := MsgTable.Push(s.table, copied)))
  }

  /**
    sys_reset: empties the FIFO and puts both indices back to 0, whatever
    was written to the entry; it reports the whole write of `count` bytes
    as accepted and does not touch the session.
   */
  function Reset(s: State, count: nat): (r: (nat, State))
    requires MsgTable.Valid(s.table)
    ensures r.0 == count
    ensures ByteFifo.IsEmpty(r.1.fifo) && r.1.fifo.cap == s.fifo.cap
    ensures r.1.table.rd == 0 && r.1.table.wr == 0 && r.1.table.lens == s.table.lens
    ensures r.1.held == s.held && r.1.messageRead == s.messageRead
  {
    (count, s.(fifo := ByteFifo.Reset(s.fifo), table := MsgTable.Reset(s.table)))
  }
}
