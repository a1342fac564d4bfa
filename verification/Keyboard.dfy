/** The keyboard ring: a fixed array with two cursors that keeps one slot free. */
module Keyboard {
  import opened Bits

  const BUFFER_SIZE: nat := 64

  /** The circular slice of `buf` from `tail` up to `head`. */
  function Ring(buf: seq<Byte>, head: nat, tail: nat): (q: seq<Byte>)
    requires |buf| == BUFFER_SIZE && head < BUFFER_SIZE && tail < BUFFER_SIZE
    ensures |q| < BUFFER_SIZE
  {
    if tail <= head then buf[tail..head] else buf[tail..] + buf[..head]
  }

  lemma RingAdd(buf: seq<Byte>, head: nat, tail: nat, b: Byte)
    requires |buf| == BUFFER_SIZE && head < BUFFER_SIZE && tail < BUFFER_SIZE
    ensures (head + 1) % BUFFER_SIZE == tail <==> |Ring(buf, head, tail)| == BUFFER_SIZE - 1
    ensures (head + 1) % BUFFER_SIZE != tail ==>
      Ring(buf[head := b], (head + 1) % BUFFER_SIZE, tail) == Ring(buf, head, tail) + [b]
  {
    NextSlot(head);
  }

  lemma RingPop(buf: seq<Byte>, head: nat, tail: nat)
    requires |buf| == BUFFER_SIZE && head < BUFFER_SIZE && tail < BUFFER_SIZE
    ensures head == tail <==> Ring(buf, head, tail) == []
    ensures head != tail ==> Ring(buf, head, tail) == [buf[tail]] + Ring(buf, head, (tail + 1) % BUFFER_SIZE)
  {
    NextSlot(tail);
    PopTo(buf, head, tail, (tail + 1) % BUFFER_SIZE);
  }

  lemma NextSlot(i: nat)
    requires i < BUFFER_SIZE
    ensures (i + 1) % BUFFER_SIZE == if i + 1 < BUFFER_SIZE then i + 1 else 0
  {
  }

  lemma PopTo(buf: seq<Byte>, head: nat, tail: nat, next: nat)
    requires |buf| == BUFFER_SIZE && head < BUFFER_SIZE && tail < BUFFER_SIZE
    requires next == if tail + 1 < BUFFER_SIZE then tail + 1 else 0
    ensures head == tail <==> Ring(buf, head, tail) == []
    ensures head != tail ==> Ring(buf, head, tail) == [buf[tail]] + Ring(buf, head, next)
  {
    if tail < head {
      assert buf[tail..head] == [buf[tail]] + buf[next..head];
    } else if head < tail {
      var b, low := [buf[tail]], buf[..head];
      if next == 0 {
        assert buf[tail..] == b && Ring(buf, head, 0) == low;
      } else {
        var high := buf[next..];
        assert buf[tail..] == b + high && Ring(buf, head, next) == high + low;
        assert (b + high) + low == b + (high + low);
      }
    }
  }

  class KeyboardBuffer {
    const buffer: array<Byte>
    var head: nat
    var tail: nat
    ghost var accepted: seq<Byte>   // every scancode stored so far
    ghost var popped: seq<Byte>     // every scancode handed out so far

    constructor ()
      ensures Valid() && Queue() == [] && accepted == [] && popped == [] && fresh(buffer)
    {
      buffer := new Byte[BUFFER_SIZE](i => 0);
      head, tail, accepted, popped := 0, 0, [], [];
    }

    /** The scancodes waiting: the circular slice from the tail to the head. */
    ghost function Queue(): (q: seq<Byte>)
      reads this, buffer
      requires buffer.Length == BUFFER_SIZE && head < BUFFER_SIZE && tail < BUFFER_SIZE
      ensures |q| < BUFFER_SIZE
    {
      Ring(buffer[..], head, tail)
    }

    /** What was stored is what was handed out followed by what is waiting. */
    ghost predicate Valid()
      reads this, buffer
    {
      && buffer.Length == BUFFER_SIZE && head < BUFFER_SIZE && tail < BUFFER_SIZE
      && accepted == popped + Queue()
    }

    method AddScancode(b: Byte)
      requires Valid()
      modifies this, buffer
      ensures Valid() && popped == old(popped)
      ensures |old(Queue())| < 63 ==> Queue() == old(Queue()) + [b] && accepted == old(accepted) + [b]
      ensures |old(Queue())| <= 63
      ensures |old(Queue())| == 63 ==> Queue() == old(Queue()) && accepted == old(accepted)
    {
      hide Ring;
      RingAdd(buffer[..], head, tail, b);
      var nextHead := (head + 1) % BUFFER_SIZE;
      if nextHead != tail {
        buffer[head] := b;
        head := nextHead;
        accepted := accepted + [b];
        assert buffer[..] == old(buffer[..])[old(head) := b];
      }
    }

    method PopScancode() returns (r: Option<Byte>)
      requires Valid()
      modifies this
      ensures Valid() && accepted == old(accepted)
      ensures r.None? <==> old(Queue()) == []
      ensures r.None? ==> Queue() == [] && popped == old(popped)
      ensures r.Some? ==> old(Queue()) == [r.value] + Queue() && popped == old(popped) + [r.value]
    {
      hide Ring;
      RingPop(buffer[..], head, tail);
      if head == tail {
        return None;
      }
      var b := buffer[tail];
      tail := (tail + 1) % BUFFER_SIZE;
      popped := popped + [b];
      return Some(b);
    }
  }

  datatype Op = Add(b: Byte) | Pop

  /** A queue of bounded capacity: the answers to the pops of a run, and what is left. */
  function Fifo(q: seq<Byte>, ops: seq<Op>): (seq<Option<Byte>>, seq<Byte>)
    decreases |ops|
  {
    if ops == [] then ([], q)
    else match ops[0]
      case Add(b) => Fifo(if |q| < 63 then q + [b] else q, ops[1..])
      case Pop =>
        if q == [] then
          var (rs, q') := Fifo(q, ops[1..]);
          ([None] + rs, q')
        else
          var (rs, q') := Fifo(q[1..], ops[1..]);
          ([Some(q[0])] + rs, q')
  }

  /** Any interleaving of adds and pops: the ring gives the answers of the bounded queue. */
  method Drive(k: KeyboardBuffer, ops: seq<Op>) returns (rs: seq<Option<Byte>>)
    requires k.Valid()
    modifies k, k.buffer
    ensures k.Valid() && (rs, k.Queue()) == Fifo(old(k.Queue()), ops)
    decreases |ops|
  {
    hide Ring;
    if ops == [] {
      return [];
    }
    match ops[0]
    case Add(b) =>
      k.AddScancode(b);
      rs := Drive(k, ops[1..]);
    case Pop =>
      var r := k.PopScancode();
      var rest := Drive(k, ops[1..]);
      rs := [r] + rest;
  }

  /** The scancodes among the answers. */
  function Values(rs: seq<Option<Byte>>): seq<Byte> {
    if rs == [] then [] else (if rs[0].Some? then [rs[0].value] else []) + Values(rs[1..])
  }

  /** The scancodes that a run stores: all but those that arrive while 63 are waiting. */
  function Stored(q: seq<Byte>, ops: seq<Op>): seq<Byte>
    decreases |ops|
  {
    if ops == [] then []
    else match ops[0]
      case Add(b) => if |q| < 63 then [b] + Stored(q + [b], ops[1..]) else Stored(q, ops[1..])
      case Pop => Stored(if q == [] then q else q[1..], ops[1..])
  }

  /** First in, first out, nothing lost and nothing made up: what waited at first and what was
      stored since is what came out, followed by what is left. */
  lemma {:induction false} FifoOrder(q: seq<Byte>, ops: seq<Op>)
    ensures q + Stored(q, ops) == Values(Fifo(q, ops).0) + Fifo(q, ops).1
    decreases |ops|
  {
    if ops != [] {
      var rest := ops[1..];
      match ops[0]
      case Add(b) =>
        if |q| < 63 {
          FifoOrder(q + [b], rest);
          assert q + ([b] + Stored(q + [b], rest)) == (q + [b]) + Stored(q + [b], rest);
        } else {
          FifoOrder(q, rest);
        }
      case Pop =>
        if q == [] {
          FifoOrder(q, rest);
          var rs := Fifo(q, rest).0;
          assert ([None] + rs)[1..] == rs;
        } else {
          FifoOrder(q[1..], rest);
          var rs := Fifo(q[1..], rest).0;
          assert ([Some(q[0])] + rs)[1..] == rs;
          var out, left := Values(rs), Fifo(q[1..], rest).1;
          assert q == [q[0]] + q[1..];
          assert ([q[0]] + q[1..]) + Stored(q[1..], rest) == [q[0]] + (out + left);
        }
    }
  }
}
