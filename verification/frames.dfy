/**
  Framing of a byte stream: a sequence of message lengths cuts a flat stream
  of bytes into whole messages. This is how the parrot driver keeps message
  boundaries: the bytes live in one FIFO and the lengths in a separate table.
 */
module Frames {

  /** Total number of bytes described by a sequence of message lengths. */
  function Sum(lens: seq<nat>): nat
  {
    if lens == [] then 0 else lens[0] + Sum(lens[1..])
  }

  /** The lengths of a sequence of messages, in order. */
  function Lengths<T>(msgs: seq<seq<T>>): seq<nat>
  {
    seq(|msgs|, i requires 0 <= i < |msgs| => |msgs[i]|)
  }

  /** Concatenation of messages into one stream; its length is the sum of their lengths. */
  function Join<T>(msgs: seq<seq<T>>): (r: seq<T>)
    ensures |r| == Sum(Lengths(msgs))
  {
    if msgs == [] then []
    else
      assert Lengths(msgs[1..]) == Lengths(msgs)[1..];
      msgs[0] + Join(msgs[1..])
  }

  /** Cuts `data` into consecutive messages of the given lengths. */
  function Split<T>(data: seq<T>, lens: seq<nat>): (r: seq<seq<T>>)
    requires Sum(lens) == |data|
    ensures Lengths(r) == lens
    ensures Join(r) == data
  {
    if lens == [] then []
    else
      var head := data[..lens[0]];
      var rest := Split(data[lens[0]..], lens[1..]);
      assert ([head] + rest)[1..] == rest;
      assert data == head + data[lens[0]..];
      [head] + rest
  }

  lemma {:induction false} SumAppend(lens: seq<nat>, n: nat)
    ensures Sum(lens + [n]) == Sum(lens) + n
  {
    if lens == [] {
      assert lens + [n] == [n];
      assert [n][1..] == [];
    } else {
      assert (lens + [n])[1..] == lens[1..] + [n];
      SumAppend(lens[1..], n);
    }
  }

  lemma {:induction false} JoinAppend<T>(msgs: seq<seq<T>>, m: seq<T>)
    ensures Join(msgs + [m]) == Join(msgs) + m
  {
    if msgs == [] {
      assert msgs + [m] == [m];
      assert [m][1..] == [];
    } else {
      assert (msgs + [m])[1..] == msgs[1..] + [m];
      JoinAppend(msgs[1..], m);
    }
  }

  /** Cutting a joined stream at its messages' lengths gives the messages back. */
  lemma {:induction false} SplitJoin<T>(msgs: seq<seq<T>>)
    ensures Split(Join(msgs), Lengths(msgs)) == msgs
  {
    if msgs != [] {
      var lens := Lengths(msgs);
      assert lens[1..] == Lengths(msgs[1..]);
      assert Join(msgs)[..lens[0]] == msgs[0];
      assert Join(msgs)[lens[0]..] == Join(msgs[1..]);
      SplitJoin(msgs[1..]);
    }
  }

  /** Framing determines the messages: equal streams and equal lengths give equal messages. */
  lemma SplitUnique<T>(msgs: seq<seq<T>>, data: seq<T>, lens: seq<nat>)
    requires Join(msgs) == data && Lengths(msgs) == lens
    ensures Sum(lens) == |data|
    ensures Split(data, lens) == msgs
  {
    SplitJoin(msgs);
  }

  /** Appending one message of length |m| to the stream appends it to the cut. */
  lemma SplitAppend<T>(data: seq<T>, lens: seq<nat>, m: seq<T>)
    requires Sum(lens) == |data|
    ensures Sum(lens + [|m|]) == |data + m|
    ensures Split(data + m, lens + [|m|]) == Split(data, lens) + [m]
  {
    var msgs := Split(data, lens) + [m];
    JoinAppend(Split(data, lens), m);
    assert Lengths(msgs) == lens + [|m|];
    SplitUnique(msgs, data + m, lens + [|m|]);
  }

  /** Removing the head message of a framed stream leaves the remaining messages framed. */
  lemma SplitHead<T>(data: seq<T>, lens: seq<nat>)
    requires Sum(lens) == |data| && lens != []
    ensures lens[0] <= |data|
    ensures Sum(lens[1..]) == |data| - lens[0]
    ensures Split(data, lens)[0] == data[..lens[0]]
    ensures Split(data, lens)[1..] == Split(data[lens[0]..], lens[1..])
  {
  }

  /** A framed stream is empty exactly when every one of its messages is empty. */
  lemma {:induction false} EmptyStreamEmptyMessages<T>(data: seq<T>, lens: seq<nat>)
    requires Sum(lens) == |data|
    ensures |data| == 0 ==> forall i :: 0 <= i < |lens| ==> Split(data, lens)[i] == []
    ensures |data| > 0 ==> exists i :: 0 <= i < |lens| && Split(data, lens)[i] != []
  {
    if lens != [] {
      var msgs := Split(data, lens);
      var rest := Split(data[lens[0]..], lens[1..]);
      assert msgs[1..] == rest;
      EmptyStreamEmptyMessages(data[lens[0]..], lens[1..]);
      if |data| == 0 {
        forall i | 0 <= i < |lens|
          ensures msgs[i] == []
        {
          if i > 0 {
            assert msgs[i] == rest[i - 1];
          }
        }
      } else if lens[0] == 0 {
        var i :| 0 <= i < |lens| - 1 && rest[i] != [];
        assert msgs[i + 1] == rest[i];
      } else {
        assert |msgs[0]| == Lengths(msgs)[0] == lens[0];
      }
    }
  }
}
