/**
  The kernel kfifo that holds the bytes of pending messages, seen abstractly
  as a bounded sequence of bytes: new bytes go in at the tail, reads take them
  from the head. The in/out counters and index masking of the real kfifo
  are not modelled; its capacity is exactly the declared size.
 */
module ByteFifo {

  newtype byte = x: int | 0 <= x < 256

  /** A FIFO of capacity `cap` currently holding `data` (head first). */
  datatype Fifo = Fifo(cap: nat, data: seq<byte>)

  predicate Valid(f: Fifo)
  {
    |f.data| <= f.cap
  }

  predicate IsEmpty(f: Fifo)
  {
    |f.data| == 0
  }

  /** INIT_KFIFO: an empty FIFO of the declared capacity. */
  function Init(cap: nat): (f: Fifo)
    ensures Valid(f) && IsEmpty(f) && f.cap == cap
  {
    Fifo(cap, [])
  }

  /** kfifo_avail: the free space, so that used plus free is the capacity. */
  function Avail(f: Fifo): (n: nat)
    requires Valid(f)
    ensures |f.data| + n == f.cap
    ensures n == 0 <==> |f.data| == f.cap
  {
    f.cap - |f.data|
  }

  /**
    kfifo_in: copies as much of `buf` as fits onto the tail and returns the
    new FIFO with the number of bytes copied.
   */
  function In(f: Fifo, buf: seq<byte>): (r: (Fifo, nat))
    requires Valid(f)
    ensures Valid(r.0) && r.0.cap == f.cap
    ensures r.1 <= |buf| && r.1 <= Avail(f)
    ensures r.1 == |buf| <==> |buf| <= Avail(f)
    ensures r.1 < |buf| ==> Avail(r.0) == 0
    ensures r.0.data == f.data + buf[..r.1]
  {
    var copied := if |buf| <= Avail(f) then |buf| else Avail(f);
    (Fifo(f.cap, f.data + buf[..copied]), copied)
  }

  /**
    kfifo_to_user without the user-copy fault: takes up to `n` bytes from
    the head and returns them with the remaining FIFO.
   */
  function Out(f: Fifo, n: nat): (r: (seq<byte>, Fifo))
    requires Valid(f)
    ensures Valid(r.1) && r.1.cap == f.cap
    ensures r.0 + r.1.data == f.data
    ensures |r.0| == n <==> n <= |f.data|
    ensures |r.0| < n ==> IsEmpty(r.1)
  {
    var copied := if n <= |f.data| then n else |f.data|;
    (f.data[..copied], Fifo(f.cap, f.data[copied..]))
  }

  /** kfifo_reset: drops every byte, keeps the capacity. */
  function Reset(f: Fifo): (r: Fifo)
    ensures Valid(r) && IsEmpty(r) && r.cap == f.cap
    ensures Avail(r) == f.cap
  {
    Fifo(f.cap, [])
  }

  /**
    Bytes leave in the order they came: after an `In`, reading back as many
    bytes as were already queued yields exactly the old contents, and what
    stays behind is exactly the part of `buf` that was copied.
   */
  lemma OutAfterIn(f: Fifo, buf: seq<byte>)
    requires Valid(f)
    ensures Out(In(f, buf).0, |f.data|).0 == f.data
    ensures Out(In(f, buf).0, |f.data|).1.data == buf[..In(f, buf).1]
  {
  }
}
