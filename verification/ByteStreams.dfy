/** The bounded byte stream of src/byte_stream.hh and src/byte_stream.cc. */
module ByteStreams {
  import opened Words

  /** The stream as a value: everything the writer ever got accepted, and how much of it was read. */
  datatype Stream = Stream(capacity: nat, pushed: seq<Byte>, popped: nat, closed: bool, error: bool) {
    ghost predicate Valid() {
      popped <= |pushed| <= popped + capacity
    }

    function View(): seq<Byte>
      requires Valid()
    {
      pushed[popped..]
    }

    function Available(): nat
      requires Valid()
    {
      capacity - (|pushed| - popped)
    }

    /** The writer keeps only as much as fits. */
    function Push(data: seq<Byte>): (s: Stream)
      requires Valid()
      ensures s.Valid()
    {
      this.(pushed := pushed + data[..Min(|data|, Available())])
    }

    function Pop(len: nat): (s: Stream)
      requires Valid()
      ensures s.Valid()
    {
      this.(popped := popped + Min(len, |pushed| - popped))
    }

    predicate IsFinished()
      requires Valid()
    {
      closed && popped == |pushed|
    }
  }

  function Fresh(capacity: nat): Stream {
    Stream(capacity, [], 0, false, false)
  }

  datatype Op = DoPush(data: seq<Byte>) | DoPop(len: nat) | DoClose

  function Apply(s: Stream, op: Op): (t: Stream)
    requires s.Valid()
    ensures t.Valid()
  {
    match op
    case DoPush(data) => s.Push(data)
    case DoPop(len) => s.Pop(len)
    case DoClose => s.(closed := true)
  }

  function Run(s: Stream, ops: seq<Op>): (t: Stream)
    requires s.Valid()
    ensures t.Valid()
    decreases |ops|
  {
    if ops == [] then s else Run(Apply(s, ops[0]), ops[1..])
  }

  /** What one operation hands to the reader: a pop takes the front of the view. */
  function TakenBy(s: Stream, op: Op): seq<Byte>
    requires s.Valid()
  {
    if op.DoPop? then s.View()[..Min(op.len, |s.View()|)] else []
  }

  /** What one operation gets accepted from the writer. */
  function AcceptedBy(s: Stream, op: Op): seq<Byte>
    requires s.Valid()
  {
    if op.DoPush? then op.data[..Min(|op.data|, s.capacity - |s.View()|)] else []
  }

  function Taken(s: Stream, ops: seq<Op>): seq<Byte>
    requires s.Valid()
    decreases |ops|
  {
    if ops == [] then [] else TakenBy(s, ops[0]) + Taken(Apply(s, ops[0]), ops[1..])
  }

  function Accepted(s: Stream, ops: seq<Op>): seq<Byte>
    requires s.Valid()
    decreases |ops|
  {
    if ops == [] then [] else AcceptedBy(s, ops[0]) + Accepted(Apply(s, ops[0]), ops[1..])
  }

  lemma OneOp(s: Stream, op: Op)
    requires s.Valid()
    ensures TakenBy(s, op) + Apply(s, op).View() == s.View() + AcceptedBy(s, op)
    ensures Apply(s, op).capacity == s.capacity
  {
  }

  /** First in, first out: over every run, what was taken followed by what is still buffered is
      what was buffered at the start followed by what was accepted, and the capacity is respected. */
  lemma {:induction false} FirstInFirstOut(s: Stream, ops: seq<Op>)
    requires s.Valid()
    ensures Taken(s, ops) + Run(s, ops).View() == s.View() + Accepted(s, ops)
    ensures |Run(s, ops).View()| <= Run(s, ops).capacity == s.capacity
    decreases |ops|
  {
    if ops != [] {
      hide Apply, TakenBy, AcceptedBy;
      var t := Apply(s, ops[0]);
      FirstInFirstOut(t, ops[1..]);
      OneOp(s, ops[0]);
      Glue(TakenBy(s, ops[0]), Taken(t, ops[1..]), Run(t, ops[1..]).View(), t.View(),
           Accepted(t, ops[1..]), s.View(), AcceptedBy(s, ops[0]));
    }
  }

  /** The flat array behind the stream. */
  class FlatBuffer {
    var storage: array<Byte>
    var writeIndex: nat
    var readIndex: nat
    const capacity: nat

    ghost predicate Valid()
      reads this, storage
    {
      storage.Length == capacity && readIndex <= writeIndex <= capacity
    }

    ghost function View(): seq<Byte>
      requires Valid()
      reads this, storage
    {
      storage[readIndex..writeIndex]
    }

    function BytesBuffered(): nat
      requires Valid()
      reads this, storage
    {
      writeIndex - readIndex
    }

    constructor (size: nat)
      ensures Valid() && fresh(storage) && View() == [] && capacity == size
    {
      capacity := size;
      storage := new Byte[size];
      writeIndex, readIndex := 0, 0;
    }

    /** `memcpy` of `len` bytes of `data` to the write position. */
    method CopyIn(data: seq<Byte>, len: nat)
      requires Valid() && len <= |data| && len <= capacity - writeIndex
      modifies storage
      ensures Valid()
      ensures storage[..writeIndex] == old(storage[..writeIndex])
      ensures storage[writeIndex..writeIndex + len] == data[..len]
    {
      forall i | 0 <= i < len {
        storage[writeIndex + i] := data[i];
      }
    }

    /** The loop over the bytes, from the front: source and target may overlap. */
    method MoveByByte()
      requires Valid()
      modifies storage
      ensures forall k :: 0 <= k < writeIndex - readIndex ==> storage[k] == old(storage[readIndex + k])
    {
      var i := 0;
      while i < writeIndex - readIndex
        invariant 0 <= i <= writeIndex - readIndex
        invariant forall k :: 0 <= k < i ==> storage[k] == old(storage[readIndex + k])
        invariant forall k :: readIndex + i <= k < writeIndex ==> storage[k] == old(storage[k])
      {
        storage[i] := storage[i + readIndex];
        i := i + 1;
      }
    }

    /** `memcpy` within the array, when source and target do not overlap. */
    method MoveAtOnce()
      requires Valid() && readIndex >= writeIndex - readIndex
      modifies storage
      ensures forall k :: 0 <= k < writeIndex - readIndex ==> storage[k] == old(storage[readIndex + k])
    {
      forall i | 0 <= i < writeIndex - readIndex {
        storage[i] := storage[readIndex + i];
      }
    }

    /** Moves the buffered bytes to the head of the array: by `memcpy` when source and target do not
        overlap, otherwise byte by byte from the front. */
    method Compact()
      requires Valid()
      modifies this, storage
      ensures Valid() && storage == old(storage)
      ensures readIndex == 0 && View() == old(View())
    {
      var buffered := BytesBuffered();
      ghost var view := View();
      assert forall k :: 0 <= k < buffered ==> view[k] == storage[readIndex + k];
      if buffered > 0 && readIndex >= buffered {
        MoveAtOnce();
      } else {
        MoveByByte();
      }
      assert forall k :: 0 <= k < buffered ==> storage[k] == view[k];
      assert storage[..buffered] == view;
      writeIndex := writeIndex - readIndex;
      readIndex := 0;
    }

    /** Appends `len` bytes. When they fit the capacity, the branch that would grow the array is dead. */
    method Push(data: seq<Byte>, len: nat)
      requires Valid() && len <= |data| && len <= capacity - BytesBuffered()
      modifies this, storage
      ensures Valid() && storage == old(storage)
      ensures View() == old(View()) + data[..len]
    {
      if len == 0 {
        return;
      }
      var toTail, toHead := storage.Length - writeIndex, readIndex;
      if toTail < len {
        if toHead + toTail < len {
          assert false;
        }
        Compact();
      }
      Append(data, len);
    }

    method Append(data: seq<Byte>, len: nat)
      requires Valid() && len <= |data| && len <= capacity - writeIndex
      modifies this`writeIndex, storage
      ensures Valid() && View() == old(View()) + data[..len]
    {
      ghost var view := View();
      CopyIn(data, len);
      assert View() == view by {
        assert View() == storage[..writeIndex][readIndex..];
      }
      writeIndex := writeIndex + len;
      assert View() == storage[readIndex..writeIndex - len] + storage[writeIndex - len..writeIndex];
    }

    method Pop(len: nat)
      requires Valid() && len <= BytesBuffered()
      modifies this`readIndex
      ensures Valid() && View() == old(View())[len..]
    {
      readIndex := readIndex + len;
    }
  }

  class ByteStream {
    const capacity: nat
    var closed: bool
    var error: bool
    var bytesPushed: nat
    var bytesPopped: nat
    const buffer: FlatBuffer
    ghost var history: seq<Byte>

    ghost predicate Valid()
      reads this, buffer, buffer.storage
    {
      && buffer.Valid() && buffer.capacity == capacity
      && |history| == bytesPushed && bytesPopped <= bytesPushed
      && buffer.View() == history[bytesPopped..]
    }

    /** The stream as a value. */
    ghost function State(): (s: Stream)
      requires Valid()
      reads this, buffer, buffer.storage
      ensures s.Valid() && s.View() == buffer.View()
    {
      Stream(capacity, history, bytesPopped, closed, error)
    }

    constructor (size: nat)
      ensures Valid() && fresh(buffer) && fresh(buffer.storage) && State() == Fresh(size)
    {
      capacity := size;
      buffer := new FlatBuffer(size);
      closed, error, bytesPushed, bytesPopped, history := false, false, 0, 0, [];
    }

    function AvailableCapacity(): (n: nat)
      requires Valid()
      reads this, buffer, buffer.storage
      ensures n == State().Available()
    {
      capacity - buffer.BytesBuffered()
    }

    function Peek(): (view: seq<Byte>)
      requires Valid()
      reads this, buffer, buffer.storage
      ensures view == State().View()
    {
      buffer.storage[buffer.readIndex..buffer.writeIndex]
    }

    function IsFinished(): (b: bool)
      requires Valid()
      reads this, buffer, buffer.storage
      ensures b == State().IsFinished()
    {
      closed && buffer.writeIndex == buffer.readIndex
    }

    method Push(data: seq<Byte>)
      requires Valid()
      modifies this, buffer, buffer.storage
      ensures Valid() && buffer.storage == old(buffer.storage)
      ensures State() == old(State()).Push(data)
    {
      var len := Min(|data|, AvailableCapacity());
      bytesPushed := bytesPushed + len;
      buffer.Push(data, len);
      history := history + data[..len];
      assert history[bytesPopped..] == old(history)[bytesPopped..] + data[..len];
    }

    method Pop(len: nat)
      requires Valid()
      modifies this, buffer
      ensures Valid() && buffer.storage == old(buffer.storage)
      ensures State() == old(State()).Pop(len)
      ensures bytesPushed == old(bytesPushed) && bytesPopped == old(bytesPopped) + Min(len, old(buffer.BytesBuffered()))
    {
      var n := Min(len, buffer.BytesBuffered());
      bytesPopped := bytesPopped + n;
      buffer.Pop(n);
      assert history[bytesPopped..] == old(history[bytesPopped..])[n..];
    }

    method Close()
      requires Valid()
      modifies this`closed
      ensures Valid() && State() == old(State()).(closed := true)
    {
      closed := true;
    }

    method SetError()
      requires Valid()
      modifies this`error
      ensures Valid() && State() == old(State()).(error := true)
    {
      error := true;
    }
  }
}
