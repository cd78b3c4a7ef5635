/**
  The circular table of message lengths (`parrot_msg_len`) with its read and
  write indices (`parrot_msg_idx_rd`, `parrot_msg_idx_wr`). Both indices move
  forward by one modulo the table size; the pending messages occupy the
  slots from `rd` up to, but not including, `wr`.
 */
module MsgTable {

  /** The table size is |lens| (PARROT_MSG_FIFO_MAX). */
  datatype Table = Table(lens: seq<nat>, rd: int, wr: int)

  predicate Valid(t: Table)
  {
    && |t.lens| >= 2
    && 0 <= t.rd < |t.lens|
    && 0 <= t.wr < |t.lens|
  }

  /** The index step `(i+1) % max`: it stays in range and wraps to 0 at the end. */
  function Next(i: int, max: int): (j: int)
    requires 0 <= i < max
    ensures 0 <= j < max
    ensures j == if i + 1 < max then i + 1 else 0
  {
    (i + 1) % max
  }

  /** The slot `k` places after `rd`, going round the table. */
  function Slot(rd: int, k: int, max: int): (i: int)
    requires 0 <= rd < max && 0 <= k < max
    ensures 0 <= i < max
    ensures i == (rd + k) % max
  {
    if rd + k < max then rd + k else rd + k - max
  }

  /** Number of pending messages: `wr` is that many slots after `rd`. */
  function Count(t: Table): (n: nat)
    requires Valid(t)
    ensures n < |t.lens|
    ensures Slot(t.rd, n, |t.lens|) == t.wr
    ensures n == 0 <==> t.rd == t.wr
  {
    if t.rd <= t.wr then t.wr - t.rd else t.wr + |t.lens| - t.rd
  }

  /** The lengths of the pending messages, oldest first. */
  function Pending(t: Table): seq<nat>
    requires Valid(t)
  {
    seq(Count(t), k requires 0 <= k < Count(t) => t.lens[Slot(t.rd, k, |t.lens|)])
  }

  /** The table's own "full" test, `(wr+1) % max == rd`. */
  predicate IsFull(t: Table)
    requires Valid(t)
  {
    Next(t.wr, |t.lens|) == t.rd
  }

  predicate IsEmpty(t: Table)
  {
    t.rd == t.wr
  }

  /** The all-zero table with both indices at 0 (static initialisation). */
  function Init(max: nat): (t: Table)
    requires max >= 2
    ensures Valid(t) && |t.lens| == max
    ensures Pending(t) == []
  {
    Table(seq(max, _ => 0), 0, 0)
  }

  /** Records a message length in slot `wr` and advances `wr`. */
  function Push(t: Table, n: nat): (r: Table)
    requires Valid(t) && !IsFull(t)
    ensures Valid(r) && |r.lens| == |t.lens| && r.rd == t.rd
    ensures r.lens[t.wr] == n
    ensures Pending(r) == Pending(t) + [n]
  {
    var r := Table(t.lens[t.wr := n], t.rd, Next(t.wr, |t.lens|));
    assert Count(r) == Count(t) + 1;
    assert forall k :: 0 <= k < Count(t) ==> Slot(t.rd, k, |t.lens|) != t.wr;
    r
  }

  /** Advances `rd` past the head slot; the table is not consulted for emptiness. */
  function AdvanceRead(t: Table): (r: Table)
    requires Valid(t)
    ensures Valid(r) && r.lens == t.lens && r.wr == t.wr
    ensures !IsEmpty(t) ==> Pending(r) == Pending(t)[1..]
  {
    var r := Table(t.lens, Next(t.rd, |t.lens|), t.wr);
    if IsEmpty(t) then r
    else
      assert Count(r) == Count(t) - 1;
      assert forall k :: 0 <= k < Count(r) ==>
        Slot(r.rd, k, |t.lens|) == Slot(t.rd, k + 1, |t.lens|);
      r
  }

  /** Both indices back to 0; the stored lengths are left as they were. */
  function Reset(t: Table): (r: Table)
    requires Valid(t)
    ensures Valid(r) && r.lens == t.lens
    ensures IsEmpty(r) && Pending(r) == []
  {
    Table(t.lens, 0, 0)
  }

  /** The oldest pending length is the one in slot `rd`. */
  lemma HeadIsReadSlot(t: Table)
    requires Valid(t) && !IsEmpty(t)
    ensures Pending(t) != [] && Pending(t)[0] == t.lens[t.rd]
  {
    assert Slot(t.rd, 0, |t.lens|) == t.rd;
  }

  /**
    The full test fires exactly when `max - 1` messages are pending, so the
    table never holds more than `max - 1` of them.
   */
  lemma FullIffMaxPending(t: Table)
    requires Valid(t)
    ensures |Pending(t)| <= |t.lens| - 1
    ensures IsFull(t) <==> |Pending(t)| == |t.lens| - 1
  {
  }

  /** With no pending message the table is empty, and conversely. */
  lemma EmptyIffNoPending(t: Table)
    requires Valid(t)
    ensures IsEmpty(t) <==> Pending(t) == []
  {
    if !IsEmpty(t) {
      HeadIsReadSlot(t);
    }
  }
}
