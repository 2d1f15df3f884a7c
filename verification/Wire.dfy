/** Big-endian parsing and serializing over chunked buffers (util/parser.hh). */
module Wire {
  import opened Words

  // ----- big-endian integers -----

  function BigEndian(b: seq<Byte>): nat {
    if b == [] then 0 else BigEndian(b[..|b| - 1]) * 256 + b[|b| - 1]
  }

  function Bytes(v: nat, width: nat): (b: seq<Byte>)
    ensures |b| == width
  {
    if width == 0 then [] else Bytes(v / 256, width - 1) + [v % 256]
  }

  function Pow256(n: nat): (p: nat)
    ensures p > 0
  {
    if n == 0 then 1 else Pow256(n - 1) * 256
  }

  lemma {:induction false} ReadBack(v: nat, width: nat)
    requires v < Pow256(width)
    ensures BigEndian(Bytes(v, width)) == v
  {
    if width > 0 {
      ReadBack(v / 256, width - 1);
      assert Bytes(v, width)[..width - 1] == Bytes(v / 256, width - 1);
    }
  }

  lemma {:induction false} WriteBack(b: seq<Byte>)
    ensures BigEndian(b) < Pow256(|b|) && Bytes(BigEndian(b), |b|) == b
  {
    if b != [] {
      WriteBack(b[..|b| - 1]);
      assert BigEndian(b) / 256 == BigEndian(b[..|b| - 1]);
    }
  }

  /** The bytes from the most significant down: byte `i` counts 256^(width - 1 - i). */
  lemma {:induction false} MostSignificantFirst(v: nat, width: nat, i: nat)
    requires i < width
    ensures Bytes(v, width)[i] == v / Pow256(width - 1 - i) % 256
    decreases width
  {
    if i < width - 1 {
      MostSignificantFirst(v / 256, width - 1, i);
      QuotientOfQuotient(v, 256, Pow256(width - 2 - i));
      assert Pow256(width - 1 - i) == Pow256(width - 2 - i) * 256 == 256 * Pow256(width - 2 - i);
    }
  }

  lemma OneByteOrder(v: nat)
    requires v < 0x100
    ensures Bytes(v, 1) == [v]
  {
    assert Bytes(v / 256, 0) == [];
  }

  lemma TwoByteOrder(v: nat)
    requires v < 0x1_0000
    ensures Bytes(v, 2) == [v / 0x100, v % 0x100]
  {
    OneByteOrder(v / 256);
    hide Pow256;
    assert Bytes(v, 2) == Bytes(v / 256, 1) + [v % 256];
  }

  lemma ThreeByteOrder(v: nat)
    requires v < 0x100_0000
    ensures Bytes(v, 3) == [v / 0x1_0000, v / 0x100 % 0x100, v % 0x100]
  {
    TwoByteOrder(v / 256);
    QuotientOfQuotient(v, 256, 256);
    assert Bytes(v, 3) == Bytes(v / 256, 2) + [v % 256];
  }

  /** A four-byte integer on the wire: its first byte is its value divided by 2^24, and so on down. */
  lemma FourByteOrder(v: nat)
    requires v < 0x1_0000_0000
    ensures Bytes(v, 4) == [v / 0x100_0000, v / 0x1_0000 % 0x100, v / 0x100 % 0x100, v % 0x100]
  {
    ThreeByteOrder(v / 256);
    QuotientOfQuotient(v, 256, 256);
    QuotientOfQuotient(v, 256, 0x1_0000);
    assert Bytes(v, 4) == Bytes(v / 256, 3) + [v % 256];
  }

  // ----- chunks -----

  function Concat(chunks: seq<seq<Byte>>): seq<Byte> {
    if chunks == [] then [] else chunks[0] + Concat(chunks[1..])
  }

  lemma {:induction false} ConcatOfSum(a: seq<seq<Byte>>, b: seq<seq<Byte>>)
    ensures Concat(a + b) == Concat(a) + Concat(b)
  {
    if a == [] {
      assert a + b == b;
    } else {
      assert (a + b)[0] == a[0] && (a + b)[1..] == a[1..] + b;
      ConcatOfSum(a[1..], b);
    }
  }

  lemma ConcatOfOne(c: seq<Byte>)
    ensures Concat([c]) == c
  {
    assert [c][1..] == [];
  }

  ghost predicate NoneEmpty(chunks: seq<seq<Byte>>) {
    forall i :: 0 <= i < |chunks| ==> chunks[i] != []
  }

  /** The queue of buffers a parser reads from. */
  class BufferList {
    var size: nat
    var buffers: seq<seq<Byte>>
    var skip: nat

    ghost predicate Valid()
      reads this
    {
      && (if buffers == [] then skip == 0 else skip <= |buffers[0]|)
      && size == |Concat(buffers)| - skip
    }

    /** What is left to read. */
    ghost function Rest(): seq<Byte>
      requires Valid()
      reads this
    {
      assert buffers != [] ==> |Concat(buffers)| >= |buffers[0]|;
      Concat(buffers)[skip..]
    }

    /** No buffer is empty and the first is not used up, so its front byte can be looked at. */
    ghost predicate Readable()
      reads this
    {
      NoneEmpty(buffers) && (buffers != [] ==> skip < |buffers[0]|)
    }

    constructor (chunks: seq<seq<Byte>>)
      ensures Valid() && Rest() == Concat(chunks)
      ensures NoneEmpty(chunks) ==> Readable()
    {
      size, buffers, skip := 0, [], 0;
      new;
      for i := 0 to |chunks|
        invariant Valid() && skip == 0 && buffers == chunks[..i]
      {
        ConcatOfSum(buffers, [chunks[i]]);
        ConcatOfOne(chunks[i]);
        size := size + |chunks[i]|;
        buffers := buffers + [chunks[i]];
      }
      assert chunks[..|chunks|] == chunks;
    }

    function Peek(): (view: seq<Byte>)
      requires Valid() && buffers != []
      reads this
      ensures view <= Rest()
    {
      buffers[0][skip..]
    }

    method RemovePrefix(len: nat)
      requires Valid()
      modifies this
      ensures Valid() && Rest() == old(Rest())[Min(len, |old(Rest())|)..]
      ensures old(Readable()) ==> Readable()
    {
      var left: nat := len;
      ghost var all, taken := Rest(), 0;
      while left > 0 && buffers != []
        invariant Valid() && left + taken == len && taken <= |all| && Rest() == all[taken..]
        invariant old(Readable()) ==> Readable()
        decreases left + |buffers|
      {
        var popNow := Min(left, |Peek()|);
        ghost var here := Rest();
        assert |here| == |all| - taken;
        Advance(popNow);
        assert here[popNow..] == all[taken + popNow..];
        left := left - popNow;
        taken := taken + popNow;
      }
      assert buffers == [] ==> Rest() == [];
      assert taken == Min(len, |all|);
    }

    method Advance(n: nat)
      requires Valid() && buffers != [] && n <= |Peek()|
      modifies this
      ensures Valid() && n <= |old(Rest())| && Rest() == old(Rest())[n..]
      ensures old(Readable()) && (n > 0 || |old(Peek())| > 0) ==> Readable()
      ensures if n == |old(Peek())| then |buffers| < |old(buffers)| else buffers == old(buffers)
    {
      ghost var before := Rest();
      skip := skip + n;
      size := size - n;
      assert Concat(buffers) == buffers[0] + Concat(buffers[1..]);
      if skip == |buffers[0]| {
        assert before[n..] == Concat(buffers[1..]);
        buffers := buffers[1..];
        skip := 0;
      }
    }
  }

  /** `Parser`: a buffer list and an error flag. A failed read leaves its target as it was. */
  class Parser {
    const input: BufferList
    var error: bool

    ghost predicate Valid()
      reads input
    {
      input.Valid() && input.Readable()
    }

    ghost function Rest(): seq<Byte>
      requires Valid()
      reads input
    {
      input.Rest()
    }

    constructor (chunks: seq<seq<Byte>>)
      requires NoneEmpty(chunks)
      ensures Valid() && fresh(input) && Rest() == Concat(chunks) && !error
    {
      input := new BufferList(chunks);
      error := false;
    }

    method SetError()
      modifies this`error
      ensures error
    {
      error := true;
    }

    method RemovePrefix(n: nat)
      requires Valid()
      modifies input
      ensures Valid() && Rest() == old(Rest())[Min(n, |old(Rest())|)..]
    {
      input.RemovePrefix(n);
    }

    /** The first byte of what is left, and one step on. */
    method TakeByte() returns (b: Byte)
      requires Valid() && Rest() != []
      modifies input
      ensures Valid() && b == old(Rest())[0] && Rest() == old(Rest())[1..]
    {
      b := input.Peek()[0];
      input.RemovePrefix(1);
    }

    /** Reads an unsigned integer of `width` bytes over whatever chunks it spans. */
    method Integer(width: nat, target: nat) returns (v: nat)
      requires Valid() && width > 0
      modifies this`error, input
      ensures Valid()
      ensures error == (old(error) || width > |old(Rest())|)
      ensures error ==> v == target && Rest() == old(Rest())
      ensures !error ==> v == BigEndian(old(Rest())[..width]) && Rest() == old(Rest())[width..] && v < Pow256(width)
    {
      if width > input.size {
        error := true;
      }
      if error {
        return target;
      }
      ghost var all := Rest();
      v := 0;
      for i := 0 to width
        invariant Valid() && !error
        invariant Rest() == all[i..] && v == BigEndian(all[..i])
      {
        var b := TakeByte();
        assert all[..i + 1][..i] == all[..i];
        v := v * 256 + b;
      }
      WriteBack(all[..width]);
    }

    /** The front chunk, but no more than `n` bytes of it. */
    method TakePart(n: nat) returns (part: seq<Byte>)
      requires Valid() && Rest() != [] && n > 0
      modifies input
      ensures Valid() && 0 < |part| <= n
      ensures part <= old(Rest()) && Rest() == old(Rest())[|part|..]
    {
      var view := input.Peek();
      part := view[..Min(|view|, n)];
      input.RemovePrefix(|part|);
    }

    /** Reads a string of `n` bytes, chunk by chunk. */
    method String(n: nat, target: seq<Byte>) returns (s: seq<Byte>)
      requires Valid()
      modifies this`error, input
      ensures Valid()
      ensures error == (old(error) || n > |old(Rest())|)
      ensures error ==> s == target && Rest() == old(Rest())
      ensures !error ==> s == old(Rest())[..n] && Rest() == old(Rest())[n..]
    {
      if n > input.size {
        error := true;
      }
      if error {
        return target;
      }
      ghost var all := Rest();
      s := [];
      while |s| < n
        invariant Valid() && !error && |s| <= n
        invariant s == all[..|s|] && Rest() == all[|s|..]
        decreases n - |s|
      {
        var part := TakePart(n - |s|);
        assert part == all[|s|..][..|part|];
        s := s + part;
      }
    }
  }

  /** `Serializer`: finished buffers and the one being filled. */
  class Serializer {
    var output: seq<seq<Byte>>
    var buffer: seq<Byte>

    /** Everything serialized so far. */
    ghost function Written(): seq<Byte>
      reads this
    {
      Concat(output) + buffer
    }

    constructor ()
      ensures Written() == [] && output == [] && buffer == []
    {
      output, buffer := [], [];
    }

    method Integer(v: nat, width: nat)
      requires v < Pow256(width)
      modifies this`buffer
      ensures Written() == old(Written()) + Bytes(v, width)
    {
      ghost var before := buffer;
      ShiftedOut(v, width);
      for i := 0 to width
        invariant buffer == before + Bytes(Shifted(v, width - i), i)
      {
        assert Shifted(v, width - i) == Shifted(v, width - i - 1) / 256;
        buffer := buffer + [Shifted(v, width - i - 1) % 256];
      }
      assert Shifted(v, 0) == v;
      assert Concat(output) + (before + Bytes(v, width)) == Concat(output) + before + Bytes(v, width);
    }

    method Flush()
      modifies this
      ensures Written() == old(Written()) && buffer == []
      ensures output == old(output) + [old(buffer)]
    {
      ConcatOfSum(output, [buffer]);
      ConcatOfOne(buffer);
      output := output + [buffer];
      buffer := [];
    }

    method Buffer(b: seq<Byte>)
      modifies this
      ensures Written() == old(Written()) + b && buffer == []
    {
      Flush();
      ConcatOfSum(output, [b]);
      ConcatOfOne(b);
      output := output + [b];
    }

    method Output() returns (chunks: seq<seq<Byte>>)
      modifies this
      ensures Concat(chunks) == old(Written()) && chunks == old(output) + [old(buffer)]
    {
      Flush();
      chunks := output;
    }
  }

  /** `v >> (8 * n)`: `n` times by eight bits. */
  function Shifted(v: nat, n: nat): nat {
    if n == 0 then v else Shifted(v, n - 1) / 256
  }

  lemma {:induction false} ShiftFirst(v: nat, n: nat)
    requires n > 0
    ensures Shifted(v, n) == Shifted(v / 256, n - 1)
  {
    if n > 1 {
      ShiftFirst(v, n - 1);
    }
  }

  lemma {:induction false} ShiftedOut(v: nat, width: nat)
    requires v < Pow256(width)
    ensures Shifted(v, width) == 0
  {
    if width > 0 {
      ShiftFirst(v, width);
      ShiftedOut(v / 256, width - 1);
    }
  }
}
