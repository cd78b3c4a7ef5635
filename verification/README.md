# parrot: a framed message channel, modelled in Dafny

The parrot sample Linux driver is a message channel. A producer writes whole
messages into the `fifo` sysfs entry. A reader opens the character device
exclusively and reads the messages back, one per `read`. The `reset` sysfs
entry empties the channel. The bytes of every pending message sit in one
bounded kernel FIFO (`parrot_msg_fifo`). The message boundaries sit in a
separate circular table of lengths (`parrot_msg_len`), which has a read index
and a write index.

This project models that state machine with pure functions over one
immutable `State`. It then proves the framing invariant and its
consequences:

- the pending lengths add up to the bytes in the FIFO;
- writes append whole messages;
- reads remove whole messages from the head;
- messages come out in the order they went in;
- the length table holds at most `PARROT_MSG_FIFO_MAX - 1` messages.

Modules, one per file:

- `Frames` (`frames.dfy`) cuts a byte stream into messages by a list of
  lengths (`Split`), and joins messages back into a stream (`Join`).
- `ByteFifo` (`byte_fifo.dfy`) is the kfifo seen as a bounded byte sequence:
  `kfifo_avail`, `kfifo_in`, `kfifo_to_user`, `kfifo_reset`, `INIT_KFIFO`.
- `MsgTable` (`msg_table.dfy`) is the length table with `rd`/`wr`, both
  advanced by `(i+1) % PARROT_MSG_FIFO_MAX`, and its full test
  `(wr+1) % MAX == rd`.
- `Parrot` (`parrot.dfy`) holds the driver state and its entry points:
  `parrot_device_open`, `parrot_device_close`, `parrot_device_read`,
  `sys_add_to_fifo`, `sys_reset`, and the state set up at module init.
- `ParrotProperties` (`parrot_props.dfy`) holds the invariant, FIFO-order
  and trace theorems, plus the one-shot and streaming read scenarios.

Modelling choices:

- The constants come from `parrot_driver.h`, which is not part of this model.
  `PARROT_MSG_FIFO_SIZE` and `PARROT_MSG_FIFO_MAX` are the fields
  `fifoSize > 0` and `fifoMax >= 2` of a `Config`.
- The `one_shot` module parameter is also a field of `Config`. It is
  writable at run time, so `Read` takes it with each call, and each read in
  a run of calls (`ParrotProperties.Run`) carries its own value.
- The mutex `parrot_device_mutex` is the boolean `held`.
- `message_read` is the boolean `messageRead`.
- Return values are a `Status`: `Ok(n)`, or `Err(errno)` for `-EACCES`,
  `-EBUSY` or `-ENOSPC`. `ReturnValue` gives the C integer.
- A read returns a `Delivery`. `Nothing` means it returned before the copy.
  `Delivered(bytes)` means it reached the copy. The C return value is the
  number of bytes, so it is 0 in both cases when the message is empty.
- Open inspects `f_flags & O_ACCMODE` as a `bv32`, with `O_ACCMODE = 3`,
  `O_WRONLY = 1` and `O_RDWR = 2`.

The read follows the code rather than a tidier description of it:

- It asks the FIFO for `parrot_msg_len[rd]` bytes and ignores the caller's
  buffer length. The `length` argument is therefore not a parameter of
  `Read`.
- It tests only whether the byte FIFO is empty, never whether the length
  table is.
- It sets `message_read` whenever it reaches the copy, even when 0 bytes are
  copied.

One consequence follows from testing only the byte FIFO. A zero-length
write is accepted and takes a table slot. While the FIFO is empty, a read
does not consume that slot (`EmptyFifoKeepsZeroLengthMessages`). Under the
invariant, no read is ever short: a read that reaches the copy takes exactly
`lens[rd]` bytes (`ReadTakesHead`).

## Model

| member | source | states |
|---|---|---|
| ByteFifo.Init | parrot_driver.c:214 | `INIT_KFIFO` gives an empty FIFO with the declared capacity |
| ByteFifo.Avail | parrot_driver.c:132 | free space plus used bytes is the capacity; it is 0 exactly when the FIFO is full |
| ByteFifo.In | parrot_driver.c:143 | `kfifo_in` puts the copied prefix of the buffer on the tail; it copies everything exactly when the buffer fits in the free space |
| ByteFifo.Out | parrot_driver.c:106 | `kfifo_to_user` takes bytes from the head; taken bytes plus remaining bytes are the old contents; it takes all `n` requested bytes exactly when `n` are present |
| ByteFifo.Reset | parrot_driver.c:160 | `kfifo_reset` leaves an empty FIFO with the same capacity, all of it free |
| ByteFifo.OutAfterIn | parrot_driver.c:47 | bytes leave the FIFO in the order they entered |
| MsgTable.Next | parrot_driver.c:112 | `(i+1) % MAX` stays in `[0, MAX)` and wraps to 0 only at the last slot |
| MsgTable.Slot | parrot_driver.c:49-51 | the k-th slot after `rd` is `(rd+k) % MAX` |
| MsgTable.Count | parrot_driver.c:49-51 | the number of pending slots is below MAX, is 0 exactly when `rd == wr`, and walking that many slots from `rd` reaches `wr` |
| MsgTable.Init | parrot_driver.c:49-51 | the statically zeroed table with both indices at 0 has no pending length |
| MsgTable.Push | parrot_driver.c:144-148 | storing in slot `wr` and advancing `wr` appends the length to the pending lengths; `rd` is unchanged |
| MsgTable.AdvanceRead | parrot_driver.c:112 | advancing `rd` on a non-empty table drops the oldest pending length and keeps the rest in order |
| MsgTable.Reset | parrot_driver.c:161 | setting `rd = wr = 0` leaves no pending length and keeps the stored lengths |
| MsgTable.HeadIsReadSlot | parrot_driver.c:106 | the oldest pending length is `parrot_msg_len[rd]` |
| MsgTable.FullIffMaxPending | parrot_driver.c:136-140 | the test `(wr+1) % MAX == rd` holds exactly when MAX-1 lengths are pending, and never more are |
| MsgTable.EmptyIffNoPending | parrot_driver.c:49-51 | `rd == wr` exactly when no length is pending |
| Frames.Join | parrot_driver.c:47-49 | the stream of joined messages is as long as the sum of their lengths |
| Frames.Split | parrot_driver.c:47-49 | cutting a stream by lengths that sum to its size yields messages with those lengths, which join back to the stream |
| Frames.SplitJoin | parrot_driver.c:47-49 | joining messages and then cutting at their lengths gives the same messages back |
| Frames.SplitAppend | parrot_driver.c:143-144 | appending a message's bytes and its length appends the message to the cut |
| Frames.SplitHead | parrot_driver.c:106-112 | the first message is the first `lens[0]` bytes, and the remainder is framed by the remaining lengths |
| Frames.EmptyStreamEmptyMessages | parrot_driver.c:101 | a framed stream is empty exactly when all its messages are empty |
| Parrot.Messages | parrot_driver.c:47-51 | the pending messages join to exactly the FIFO's bytes, and their lengths are the pending table entries |
| Parrot.Init | parrot_driver.c:212-215 | module init gives an empty FIFO, `rd = wr = 0`, a free lock and `message_read` false |
| Parrot.Open | parrot_driver.c:62-82 | write or read-write access yields `-EACCES` before anything else; otherwise a held lock yields `-EBUSY`; errors change nothing; success returns 0, takes the lock, clears `message_read` |
| Parrot.Close | parrot_driver.c:84-89 | returns 0 and frees the lock; FIFO, table and `message_read` are unchanged |
| Parrot.Read | parrot_driver.c:91-116 | one-shot after a delivery, or an empty FIFO, returns nothing and changes nothing; otherwise it takes bytes from the head (all `lens[rd]` of them when present), advances `rd` modulo MAX, sets `message_read`, keeps the lock |
| Parrot.AddToFifo | parrot_driver.c:127-151 | `-ENOSPC` with no change exactly when the payload exceeds the free space or the table is full; otherwise it appends exactly the payload, stores its length in slot `wr`, advances `wr` modulo MAX, returns the whole count, and leaves `rd`, the lock and `message_read` alone |
| Parrot.Reset | parrot_driver.c:154-164 | returns the written count, empties the FIFO, sets `rd = wr = 0`, leaves the lock and `message_read` alone |
| ParrotProperties.InitInv | parrot_driver.c:212-215 | the framing invariant holds at module init, with no message pending |
| ParrotProperties.OpenKeepsMessages | parrot_driver.c:62-82 | open keeps the invariant and the pending messages; a write-mode open returns -13 (`-EACCES`) and a busy one -16 (`-EBUSY`) |
| ParrotProperties.CloseKeepsMessages | parrot_driver.c:84-89 | close returns 0 and keeps the invariant and the pending messages |
| ParrotProperties.AddToFifoAppends | parrot_driver.c:127-151 | an accepted write appends its payload as one new last message; a refused write leaves the messages as they were and returns -28 (`-ENOSPC`); an accepted one returns the payload length; the invariant holds afterwards |
| ParrotProperties.ReadTakesHead | parrot_driver.c:91-116 | a read that reaches the copy returns exactly the oldest message, all `lens[rd]` bytes of it, and leaves the others pending in order; the invariant holds afterwards |
| ParrotProperties.EmptyFifoKeepsZeroLengthMessages | parrot_driver.c:98-104 | with an empty FIFO every pending message is empty, and a read returns nothing and leaves them pending |
| ParrotProperties.ResetEmpties | parrot_driver.c:154-164 | after reset the invariant holds with no message pending, and the next read returns 0 and changes nothing |
| ParrotProperties.PendingBound | parrot_driver.c:136-140 | at most MAX-1 messages are ever pending |
| ParrotProperties.FullTableRefuses | parrot_driver.c:136-140 | with MAX-1 messages pending, every write gets `-ENOSPC` and changes nothing, whatever byte space is left |
| ParrotProperties.RoomAccepts | parrot_driver.c:132-150 | a payload that fits the free space, with a free table slot, is accepted whole |
| ParrotProperties.StepConserves | parrot_driver.c:91-164 | every entry point keeps the invariant; except reset, delivered messages followed by pending ones equal the earlier pending ones followed by accepted ones |
| ParrotProperties.RunKeepsInv | parrot_driver.c:62-164 | the invariant holds after any sequence of opens, closes, reads (each with its own `one_shot` value), writes and resets |
| ParrotProperties.RunFifoOrder | parrot_driver.c:106-112 | over any reset-free run, delivered plus still-pending messages equal initially pending plus accepted messages, in order and byte for byte |
| ParrotProperties.DeliveredIsPrefixOfAccepted | parrot_driver.c:143-148 | from module init, without reset, the delivered messages are a prefix of the accepted ones |
| ParrotProperties.TwoMessages | parrot_driver.c:132-150 | from module init, with 9 bytes and 3 slots, "alpha" and "beta" are both accepted and pending in that order |
| ParrotProperties.OneShotScenario | parrot_driver.c:57 | in one-shot mode one open delivers "alpha", the next read in that open delivers nothing, and after close and reopen the read delivers "beta" |
| ParrotProperties.StreamingScenario | parrot_driver.c:98-113 | with one-shot off, one open delivers "alpha", then "beta", then nothing |
| ParrotProperties.ExclusiveOpen | parrot_driver.c:75-87 | a second read-only open is refused with `-EBUSY` (return value -16) while the device is held, and succeeds after close |

## Left out

- Module init and exit plumbing is not modelled because it is kernel registration, not channel behaviour. This covers chrdev, class, device and sysfs file creation, and their error paths (parrot_driver.c:171-237).
- The `file_operations` table and the `DEVICE_ATTR` declarations are not modelled because they only wire entry points to the kernel (parrot_driver.c:120-124, 167-168). `Step` stands in for that dispatch.
- The `copy_to_user` fault inside `kfifo_to_user` is not modelled because user-space copy behaviour is outside this model. In the source it makes the read return a non-zero `retval` (parrot_driver.c:106, 115).
- The short-read and short-write warnings are not modelled because they are logging only. Under the invariant, the model proves that neither case happens.
- Parrot.Read: the `length` argument and the user buffer are not parameters, because the code never consults them. The model states what is copied, not where it lands.
- The mutex is a plain boolean with atomic transitions, and concurrency is not modelled. Concurrent calls are not modelled, including the reset-versus-read/write race that the source documents (parrot_driver.c:158-159).
- Close always frees the lock. Unlocking a mutex the caller does not hold is undefined in the kernel, but the kernel only calls close after a successful open.
- `dbg`/`warn` logging and the `debug` parameter are not modelled because they have no behavioural effect.
- kfifo internals are not modelled. The in/out counters and index masking are abstracted as a bounded byte sequence of capacity exactly `fifoSize`. kfifo requires that size to be a power of two; the model allows any positive size.
- sysfs limits on the size of a single store are not modelled because they sit outside the driver.
