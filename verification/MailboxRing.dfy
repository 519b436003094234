/**
The byte ring of a mailbox (kernel/mbox.cpp): length-prefixed messages, wrapped around a buffer of
1024 bytes, refine a first-in first-out queue of messages. The waiting of `send` and `recv` is the
subject of `MailboxProtocol`; here are the parts that run once the wait is over.
*/
module MailboxRing {
  import opened Base
  import opened Bytes

  const MAX_MBOX: nat := 12
  const MBUFFER_SIZE: nat := 1024
  const HEADER: nat := 4

  /** A message is its content; in memory the length precedes it, as a little-endian 32-bit word. */
  type Message = seq<Byte>

  function Encoded(m: Message): (b: seq<Byte>)
    requires |m| < WORD
    ensures |b| == HEADER + |m|
  {
    Le32(|m|) + m
  }

  /** The bytes of queued messages, oldest first. */
  function Stream(ms: seq<Message>): seq<Byte>
    requires forall i | 0 <= i < |ms| :: |ms[i]| < WORD
  {
    if ms == [] then [] else Encoded(ms[0]) + Stream(ms[1..])
  }

  lemma {:induction false} StreamAppend(ms: seq<Message>, m: Message)
    requires |m| < WORD && forall i | 0 <= i < |ms| :: |ms[i]| < WORD
    ensures Stream(ms + [m]) == Stream(ms) + Encoded(m)
  {
    if ms == [] {
      assert [m][1..] == [];
    } else {
      assert (ms + [m])[1..] == ms[1..] + [m];
      StreamAppend(ms[1..], m);
    }
  }

  function Wrap(pos: nat): (p: nat)
    ensures p < MBUFFER_SIZE
  {
    pos % MBUFFER_SIZE
  }

  lemma WrapAdd(pos: nat, n: nat)
    ensures Wrap(Wrap(pos) + n) == Wrap(pos + n)
  {
  }

  /** Less than a full turn apart, two positions do not coincide. */
  lemma WrapApart(pos: nat, i: nat, j: nat)
    requires i < j < i + MBUFFER_SIZE
    ensures Wrap(pos + i) != Wrap(pos + j)
  {
  }

  /** `n` bytes of a circular buffer from position `pos` on. */
  function Window(buffer: seq<Byte>, pos: nat, n: nat): (w: seq<Byte>)
    requires |buffer| == MBUFFER_SIZE
    ensures |w| == n && forall i {:trigger w[i]} | 0 <= i < n :: w[i] == buffer[Wrap(pos + i)]
  {
    seq(n, i requires 0 <= i => buffer[Wrap(pos + i)])
  }

  lemma WindowSplit(buffer: seq<Byte>, pos: nat, a: nat, b: nat)
    requires |buffer| == MBUFFER_SIZE
    ensures Window(buffer, pos, a + b) == Window(buffer, pos, a) + Window(buffer, Wrap(pos + a), b)
  {
    var whole, left, right := Window(buffer, pos, a + b), Window(buffer, pos, a), Window(buffer, Wrap(pos + a), b);
    forall i | 0 <= i < a + b ensures whole[i] == (left + right)[i] {
      if a <= i { WrapAdd(pos + a, i - a); }
    }
  }

  /** What a mailbox stores: `head` is the first free byte, `tail` the oldest queued one. */
  datatype Box = Box(buffer: seq<Byte>, head: nat, tail: nat, messages: nat) {
    /** `space_available`, in the code's three cases. */
    function Space(): int {
      if tail == head && messages != 0 then 0
      else if tail > head then tail - head
      else tail + MBUFFER_SIZE - head
    }
  }

  /** The buffer holds exactly the queued messages, from `tail` up to `head`. */
  ghost predicate Represents(b: Box, queue: seq<Message>) {
    && |b.buffer| == MBUFFER_SIZE && b.head < MBUFFER_SIZE && b.tail < MBUFFER_SIZE
    && b.messages == |queue|
    && (forall i | 0 <= i < |queue| :: |queue[i]| < WORD)
    && var s := Stream(queue);
       |s| <= MBUFFER_SIZE && b.head == Wrap(b.tail + |s|) && Window(b.buffer, b.tail, |s|) == s
  }

  /** Where `head` and `tail` meet, `messages` tells full from empty: the space is what is unused. */
  lemma SpaceIsUnused(b: Box, queue: seq<Message>)
    requires Represents(b, queue)
    ensures b.Space() == MBUFFER_SIZE - |Stream(queue)|
  {
    assert queue != [] ==> HEADER <= |Stream(queue)|;
  }

  /** One byte written `i` places behind `head` extends that window and leaves the queued bytes alone. */
  lemma WriteBehind(buffer: seq<Byte>, head: nat, tail: nat, used: nat, i: nat, b: Byte)
    requires |buffer| == MBUFFER_SIZE && used + i < MBUFFER_SIZE && head == Wrap(tail + used)
    ensures var after := buffer[Wrap(head + i) := b];
            && Window(after, head, i + 1) == Window(buffer, head, i) + [b]
            && Window(after, tail, used) == Window(buffer, tail, used)
  {
    var after := buffer[Wrap(head + i) := b];
    var w, v := Window(after, head, i + 1), Window(after, tail, used);
    forall j | 0 <= j < i ensures w[j] == Window(buffer, head, i)[j] { WrapApart(head, j, i); }
    forall j | 0 <= j < used ensures v[j] == Window(buffer, tail, used)[j] {
      WrapApart(tail, j, used + i);
      WrapAdd(tail + used, i);
    }
  }

  /** The copying loop of `send`. */
  function Overwrite(buffer: seq<Byte>, pos: nat, bytes: seq<Byte>): (r: seq<Byte>)
    requires |buffer| == MBUFFER_SIZE
    ensures |r| == MBUFFER_SIZE
  {
    var n := |bytes| - 1;
    if bytes == [] then buffer else Overwrite(buffer, pos, bytes[..n])[Wrap(pos + n) := bytes[n]]
  }

  lemma {:induction false} OverwriteBehind(buffer: seq<Byte>, head: nat, tail: nat, used: nat, bytes: seq<Byte>)
    requires |buffer| == MBUFFER_SIZE && used + |bytes| <= MBUFFER_SIZE && head == Wrap(tail + used)
    ensures Window(Overwrite(buffer, head, bytes), head, |bytes|) == bytes
    ensures Window(Overwrite(buffer, head, bytes), tail, used) == Window(buffer, tail, used)
  {
    if bytes != [] {
      var n := |bytes| - 1;
      OverwriteBehind(buffer, head, tail, used, bytes[..n]);
      WriteBehind(Overwrite(buffer, head, bytes[..n]), head, tail, used, n, bytes[n]);
      assert bytes == bytes[..n] + [bytes[n]];
    }
  }

  /** `send` once there is space. */
  function Put(b: Box, m: Message): Box
    requires |b.buffer| == MBUFFER_SIZE && |m| < WORD
  {
    Box(Overwrite(b.buffer, b.head, Encoded(m)), Wrap(b.head + HEADER + |m|), b.tail, b.messages + 1)
  }

  /** `recv` once there is a message: the length first, since the header may be split over the end. */
  function Get(b: Box): (Message, Box)
    requires |b.buffer| == MBUFFER_SIZE && 0 < b.messages
  {
    var size := FromLe32(Window(b.buffer, b.tail, HEADER));
    (Window(b.buffer, b.tail, HEADER + size)[HEADER..],
     b.(tail := Wrap(b.tail + HEADER + size), messages := b.messages - 1))
  }

  lemma PutAppends(b: Box, queue: seq<Message>, m: Message)
    requires Represents(b, queue) && |m| < WORD && HEADER + |m| <= b.Space()
    ensures Represents(Put(b, m), queue + [m])
  {
    var used, size, b' := |Stream(queue)|, HEADER + |m|, Put(b, m);
    SpaceIsUnused(b, queue);
    StreamAppend(queue, m);
    OverwriteBehind(b.buffer, b.head, b.tail, used, Encoded(m));
    WindowSplit(b'.buffer, b.tail, used, size);
    WrapAdd(b.tail + used, size);
  }

  lemma OldestFirst(b: Box, queue: seq<Message>)
    requires Represents(b, queue) && queue != []
    ensures var m := queue[0];
            && Window(b.buffer, b.tail, HEADER) == Le32(|m|)
            && Window(b.buffer, b.tail, HEADER + |m|) == Encoded(m)
            && Represents(b.(tail := Wrap(b.tail + HEADER + |m|), messages := b.messages - 1), queue[1..])
  {
    var m, rest := queue[0], |Stream(queue[1..])|;
    var size := HEADER + |m|;
    WindowSplit(b.buffer, b.tail, size, rest);
    assert Stream(queue)[..size] == Encoded(m) && Stream(queue)[size..] == Stream(queue[1..]);
    assert Window(b.buffer, b.tail, size + rest)[..size] == Window(b.buffer, b.tail, size);
    assert Window(b.buffer, b.tail, size + rest)[size..] == Window(b.buffer, Wrap(b.tail + size), rest);
    WindowSplit(b.buffer, b.tail, HEADER, |m|);
    assert Encoded(m)[..HEADER] == Le32(|m|);
    assert Window(b.buffer, b.tail, size)[..HEADER] == Window(b.buffer, b.tail, HEADER);
    WrapAdd(b.tail + size, rest);
  }

  lemma GetRemoves(b: Box, queue: seq<Message>)
    requires Represents(b, queue) && queue != []
    ensures Get(b).0 == queue[0] && Represents(Get(b).1, queue[1..])
  {
    OldestFirst(b, queue);
    Le32RoundTrip(|queue[0]|);
  }

  // ---------------------------------------------------------------- runs

  datatype Op = Sent(m: Message) | Received(m: Message)

  ghost predicate OpStep(b: Box, op: Op, b': Box) {
    |b.buffer| == MBUFFER_SIZE &&
    match op
    case Sent(m) => |m| < WORD && HEADER + |m| <= b.Space() && b' == Put(b, m)
    case Received(m) => 0 < b.messages && Get(b) == (m, b')
  }

  /** Any sends and receives on a mailbox that starts empty, wherever its head and tail stand. */
  ghost predicate Run(bs: seq<Box>, ops: seq<Op>) {
    && |bs| == |ops| + 1 && Represents(bs[0], [])
    && forall i {:trigger ops[i]} | 0 <= i < |ops| :: OpStep(bs[i], ops[i], bs[i + 1])
  }

  function SentIn(ops: seq<Op>): seq<Message> {
    if ops == [] then [] else SentIn(ops[..|ops| - 1]) + SentBy(ops[|ops| - 1])
  }

  function ReceivedIn(ops: seq<Op>): seq<Message> {
    if ops == [] then [] else ReceivedIn(ops[..|ops| - 1]) + ReceivedBy(ops[|ops| - 1])
  }

  function SentBy(op: Op): seq<Message> { match op case Sent(m) => [m] case Received(_) => [] }

  function ReceivedBy(op: Op): seq<Message> { match op case Sent(_) => [] case Received(m) => [m] }

  /** One operation keeps the received and the queued messages together equal to the sent ones. */
  lemma OpKeepsOrder(b: Box, op: Op, b': Box, queue: seq<Message>, received: seq<Message>) returns (queue': seq<Message>)
    requires Represents(b, queue) && OpStep(b, op, b')
    ensures Represents(b', queue') && received + ReceivedBy(op) + queue' == received + queue + SentBy(op)
  {
    match op {
      case Sent(m) =>
        PutAppends(b, queue, m);
        queue' := queue + [m];
        assert received + [] + queue' == received + queue + [m];
      case Received(m) =>
        GetRemoves(b, queue);
        queue' := queue[1..];
        assert received + [m] + queue' == received + queue + [];
    }
  }

  /**
  First in, first out: after any sends and receives, what was received followed by what the buffer
  still holds is exactly what was sent, in order.
  */
  lemma {:induction false} FirstInFirstOut(bs: seq<Box>, ops: seq<Op>, i: nat) returns (queue: seq<Message>)
    requires Run(bs, ops) && i <= |ops|
    ensures Represents(bs[i], queue)
    ensures ReceivedIn(ops[..i]) + queue == SentIn(ops[..i])
  {
    if i == 0 {
      queue := [];
    } else {
      var before := FirstInFirstOut(bs, ops, i - 1);
      assert ops[..i][..i - 1] == ops[..i - 1];
      assert OpStep(bs[i - 1], ops[i - 1], bs[i]);
      queue := OpKeepsOrder(bs[i - 1], ops[i - 1], bs[i], before, ReceivedIn(ops[..i - 1]));
    }
  }

  // ---------------------------------------------------------------- the mailbox in place

  class Mbox {
    var owners: nat
    var messages: nat
    var head: nat
    var tail: nat
    const buffer: array<Byte>
    /** The messages sent and not yet received. */
    ghost var queue: seq<Message>

    ghost function View(): Box
      reads this, buffer
    {
      Box(buffer[..], head, tail, messages)
    }

    ghost predicate Valid()
      reads this, buffer
    {
      Represents(View(), queue)
    }

    constructor ()
      ensures Valid() && queue == [] && owners == 0 && fresh(buffer)
    {
      owners, messages, head, tail, queue := 0, 0, 0, 0, [];
      buffer := new Byte[MBUFFER_SIZE](_ => 0);
    }

    method SpaceAvailable() returns (space: int)
      requires Valid()
      ensures space == View().Space() == MBUFFER_SIZE - |Stream(queue)|
    {
      SpaceIsUnused(View(), queue);
      if tail == head && messages != 0 { return 0; }
      if tail > head { return tail - head; }
      return tail + MBUFFER_SIZE - head;
    }

    /** `send` after its wait: copy the message in, byte by byte, and count it. */
    method PutMessage(m: Message)
      requires Valid() && |m| < WORD && HEADER + |m| <= View().Space()
      modifies this`head, this`messages, this`queue, buffer
      ensures View() == Put(old(View()), m)
      ensures Valid() && queue == old(queue) + [m]
    {
      PutAppends(View(), queue, m);
      var msize, bytes := HEADER + |m|, Encoded(m);
      ghost var before := buffer[..];
      for i := 0 to msize
        modifies buffer
        invariant buffer[..] == Overwrite(before, head, bytes[..i])
      {
        assert bytes[..i + 1][..i] == bytes[..i];
        buffer[Wrap(head + i)] := bytes[i];
      }
      assert bytes[..msize] == bytes;
      head := Wrap(head + msize);
      messages := messages + 1;
      queue := queue + [m];
    }

    method RingCopyOut(pos: nat, n: nat) returns (out: seq<Byte>)
      requires buffer.Length == MBUFFER_SIZE
      ensures out == Window(buffer[..], pos, n)
    {
      out := [];
      for i := 0 to n
        invariant out == Window(buffer[..], pos, i)
      {
        out := out + [buffer[Wrap(pos + i)]];
      }
    }

    /** `recv` after its wait. */
    method GetMessage() returns (m: Message)
      requires Valid() && messages != 0
      modifies this`tail, this`messages, this`queue
      ensures (m, View()) == Get(old(View()))
      ensures Valid() && [m] + queue == old(queue)
    {
      GetRemoves(View(), queue);
      var header := RingCopyOut(tail, HEADER);
      var msize := HEADER + FromLe32(header);
      var bytes := RingCopyOut(tail, msize);
      m := bytes[HEADER..];
      tail := Wrap(tail + msize);
      messages := messages - 1;
      queue := queue[1..];
    }

    /** `mbox_open` on this box: an unowned empty one is reset, and nothing queued is lost. */
    method Open()
      requires Valid()
      modifies this
      ensures Valid() && queue == old(queue) && owners == old(owners) + 1
      ensures old(owners) == 0 && queue == [] ==> head == 0 && tail == 0
      ensures !(old(owners) == 0 && queue == []) ==> View() == old(View())
    {
      if owners == 0 && messages == 0 {
        head, tail, messages := 0, 0, 0;
      }
      owners := owners + 1;
    }

    method Close() returns (r: int)
      requires Valid()
      modifies this`owners
      ensures Valid() && queue == old(queue)
      ensures r == (if old(owners) == 0 then -1 else 1) && owners == if old(owners) == 0 then 0 else old(owners) - 1
    {
      if owners == 0 { return -1; }
      owners := owners - 1;
      return 1;
    }
  }

  /** `mbox_open`: the box with that key, opened; null, for the code's -1, if there is none. */
  method MboxOpen(mboxes: array<Mbox>, key: int) returns (m: Mbox?)
    requires mboxes.Length == MAX_MBOX && (0 <= key < MAX_MBOX ==> mboxes[key].Valid())
    modifies if 0 <= key < mboxes.Length then {mboxes[key]} else {}
    ensures m == null <==> !(0 <= key < MAX_MBOX)
    ensures m != null ==> m == mboxes[key] && m.Valid() && m.queue == old(mboxes[key].queue) && m.owners == old(mboxes[key].owners) + 1
  {
    if key >= MAX_MBOX || key < 0 { return null; }
    mboxes[key].Open();
    m := mboxes[key];
  }
}
