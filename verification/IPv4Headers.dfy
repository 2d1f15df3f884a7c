/** The IPv4 header codec (util/ipv4_header.cc), RFC 791 section 3.1. Bit fields are written with `/` and `%`:
    the or-ed parts of a byte never overlap. */
module IPv4Headers {
  import opened Words
  import opened Wire
  import opened Checksums

  const LENGTH: nat := 20

  datatype Header = Header(
    ver: Byte, hlen: Byte, tos: Byte, len: U16, id: U16, df: bool, mf: bool, offset: U16,
    ttl: Byte, proto: Byte, cksum: U16, src: U32, dst: U32)

  function FirstByte(h: Header): Byte {
    (h.ver * 16) % 256 + h.hlen % 16
  }

  function FragmentWord(h: Header): U16 {
    Count(h.df) * 0x4000 + Count(h.mf) * 0x2000 + h.offset % 0x2000
  }

  /** The ten header bytes before the checksum field. */
  function Front(h: Header): (b: seq<Byte>)
    ensures |b| == 10
  {
    Bytes(FirstByte(h), 1) + Bytes(h.tos, 1) + Bytes(h.len, 2) + Bytes(h.id, 2) + Bytes(FragmentWord(h), 2)
      + Bytes(h.ttl, 1) + Bytes(h.proto, 1)
  }

  function HeaderBytes(h: Header): (b: seq<Byte>)
    ensures |b| == LENGTH
  {
    Front(h) + Bytes(h.cksum, 2) + Bytes(h.src, 4) + Bytes(h.dst, 4)
  }

  /** The integer of `width` bytes at an offset. */
  function Field(b: seq<Byte>, at: nat, width: nat): nat
    requires at + width <= |b|
  {
    BigEndian(b[at..at + width])
  }

  lemma FieldFits(b: seq<Byte>, at: nat, width: nat)
    requires at + width <= |b|
    ensures Field(b, at, width) < Pow256(width)
  {
    WriteBack(b[at..at + width]);
  }

  lemma PowersOf256()
    ensures Pow256(1) == 0x100 && Pow256(2) == 0x1_0000 && Pow256(4) == 0x1_0000_0000
  {
    assert Pow256(3) == 0x100_0000;
  }

  ghost predicate Fits(h: Header) {
    h.ver < 16 && h.hlen < 16 && h.offset < 0x2000
  }

  /** The header that the first twenty bytes spell out. */
  ghost predicate Spells(b: seq<Byte>, h: Header)
    requires |b| >= LENGTH
  {
    && h.ver == Field(b, 0, 1) / 16 && h.hlen == Field(b, 0, 1) % 16
    && h.tos == Field(b, 1, 1) && h.len == Field(b, 2, 2) && h.id == Field(b, 4, 2)
    && h.df == (Field(b, 6, 2) / 0x4000 % 2 == 1) && h.mf == (Field(b, 6, 2) / 0x2000 % 2 == 1)
    && h.offset == Field(b, 6, 2) % 0x2000
    && h.ttl == Field(b, 8, 1) && h.proto == Field(b, 9, 1) && h.cksum == Field(b, 10, 2)
    && h.src == Field(b, 12, 4) && h.dst == Field(b, 16, 4)
  }

  /** A field right behind a prefix of the data reads back as what was written; the prefix is one too. */
  lemma FieldBehind(b: seq<Byte>, before: seq<Byte>, v: nat, width: nat)
    requires v < Pow256(width) && before + Bytes(v, width) <= b
    ensures before <= b && |before| + width <= |b| && Field(b, |before|, width) == v
  {
    ReadBack(v, width);
    assert b[..|before| + width] == before + Bytes(v, width);
    assert b[|before|..|before| + width] == b[..|before| + width][|before|..];
    assert before == b[..|before|];
  }

  lemma FragmentParts(h: Header)
    requires h.offset < 0x2000
    ensures var w := FragmentWord(h);
      w / 0x4000 % 2 == Count(h.df) && w / 0x2000 % 2 == Count(h.mf) && w % 0x2000 == h.offset && w < 0x8000
  {
  }

  lemma FrontFields(h: Header, b: seq<Byte>)
    requires Front(h) <= b
    ensures |b| >= 10
    ensures Field(b, 0, 1) == FirstByte(h) && Field(b, 1, 1) == h.tos && Field(b, 2, 2) == h.len && Field(b, 4, 2) == h.id
    ensures Field(b, 6, 2) == FragmentWord(h) && Field(b, 8, 1) == h.ttl && Field(b, 9, 1) == h.proto
  {
    PowersOf256();
    hide Bytes, Field, FirstByte, FragmentWord, Pow256;
    var p1 := Bytes(FirstByte(h), 1);
    var p2 := p1 + Bytes(h.tos, 1);
    var p3 := p2 + Bytes(h.len, 2);
    var p4 := p3 + Bytes(h.id, 2);
    var p5 := p4 + Bytes(FragmentWord(h), 2);
    var p6 := p5 + Bytes(h.ttl, 1);
    FieldBehind(b, p6, h.proto, 1);
    FieldBehind(b, p5, h.ttl, 1);
    FieldBehind(b, p4, FragmentWord(h), 2);
    FieldBehind(b, p3, h.id, 2);
    FieldBehind(b, p2, h.len, 2);
    FieldBehind(b, p1, h.tos, 1);
    assert [] + p1 == p1;
    FieldBehind(b, [], FirstByte(h), 1);
  }

  /** Serialized headers spell themselves out, whatever follows. */
  lemma SerializedSpells(h: Header, b: seq<Byte>)
    requires Fits(h) && HeaderBytes(h) <= b
    ensures |b| >= LENGTH && Spells(b, h)
  {
    PowersOf256();
    hide Bytes, Field, Front, Pow256;
    var p8 := Front(h) + Bytes(h.cksum, 2);
    FieldBehind(b, p8 + Bytes(h.src, 4), h.dst, 4);
    FieldBehind(b, p8, h.src, 4);
    FieldBehind(b, Front(h), h.cksum, 2);
    FrontFields(h, b);
    FragmentParts(h);
    hide FragmentWord;
  }

  function Decode(b: seq<Byte>): (h: Header)
    requires |b| >= LENGTH
    ensures Spells(b, h) && Fits(h)
  {
    PowersOf256();
    FieldFits(b, 0, 1); FieldFits(b, 1, 1); FieldFits(b, 2, 2); FieldFits(b, 4, 2); FieldFits(b, 6, 2);
    FieldFits(b, 8, 1); FieldFits(b, 9, 1); FieldFits(b, 10, 2); FieldFits(b, 12, 4); FieldFits(b, 16, 4);
    Header(Field(b, 0, 1) / 16, Field(b, 0, 1) % 16, Field(b, 1, 1), Field(b, 2, 2), Field(b, 4, 2),
           Field(b, 6, 2) / 0x4000 % 2 == 1, Field(b, 6, 2) / 0x2000 % 2 == 1, Field(b, 6, 2) % 0x2000,
           Field(b, 8, 1), Field(b, 9, 1), Field(b, 10, 2), Field(b, 12, 4), Field(b, 16, 4))
  }

  lemma SpellsUniquely(b: seq<Byte>, g: Header, h: Header)
    requires |b| >= LENGTH && Spells(b, g) && Spells(b, h)
    ensures g == h
  {
    hide Field;
  }

  // ----- the checksum -----

  /** The checksum of the header: over its bytes with a zero checksum field. */
  function Checksum(h: Header): U16 {
    0xFFFF - Fold(WordSum(HeaderBytes(h.(cksum := 0)), false))
  }

  lemma {:induction false} WordSumBound(data: seq<Byte>, odd: bool)
    ensures WordSum(data, odd) <= 0xFF00 * |data|
  {
    if data != [] {
      WordSumBound(data[1..], !odd);
    }
  }

  lemma WordOf(v: U16)
    ensures WordSum(Bytes(v, 2), false) == v
  {
    var b := Bytes(v, 2);
    assert b[0] == v / 256 && b[1] == v % 256;
    assert b[1..][1..] == [];
    assert WordSum(b[1..], true) == b[1];
  }

  /** The checksum field contributes its own value to the sum. */
  lemma SumSplits(h: Header)
    ensures WordSum(HeaderBytes(h), false) == WordSum(HeaderBytes(h.(cksum := 0)), false) + h.cksum
    ensures h.ver == 4 ==> WordSum(HeaderBytes(h), false) > 0
  {
    SumParts(h);
    SumParts(h.(cksum := 0));
    assert Front(h) == Front(h.(cksum := 0));
    hide WordSum, Bytes;
    FrontIsPositive(h);
  }

  lemma SumParts(h: Header)
    ensures WordSum(HeaderBytes(h), false) == WordSum(Front(h), false) + h.cksum + WordSum(Bytes(h.src, 4) + Bytes(h.dst, 4), false)
  {
    var f, c, t := Front(h), Bytes(h.cksum, 2), Bytes(h.src, 4) + Bytes(h.dst, 4);
    hide WordSum, Bytes, Front;
    assert HeaderBytes(h) == f + (c + t);
    WordSumOfSum(f, c + t, false);
    WordSumOfSum(c, t, false);
    WordOf(h.cksum);
  }

  lemma FrontIsPositive(h: Header)
    ensures h.ver == 4 ==> WordSum(Front(h), false) > 0
  {
    var f := Front(h);
    assert f[0] == FirstByte(h) by {
      assert Bytes(FirstByte(h), 1)[0] == FirstByte(h);
    }
    hide Front, Bytes;
    assert WordSum(f, false) == f[0] * 256 + WordSum(f[1..], true);
  }

  /** A header with its checksum filled in sums to all ones: what a receiver checks (RFC 1071). */
  lemma CompletedHeaderSums(h: Header)
    requires h.ver == 4 && h.cksum == Checksum(h)
    ensures Fold(WordSum(HeaderBytes(h), false)) == 0xFFFF
  {
    hide WordSum, HeaderBytes, Fold;
    SumSplits(h);
    SumSplits(h.(cksum := 0));
    CompletedSum(WordSum(HeaderBytes(h.(cksum := 0)), false));
  }

  /** The time to live is the high half of its word. */
  lemma SumOfTtl(h: Header, ttl: Byte)
    ensures WordSum(HeaderBytes(h.(ttl := ttl)), false) == WordSum(HeaderBytes(h), false) + 256 * (ttl - h.ttl)
  {
    SumParts(h);
    SumParts(h.(ttl := ttl));
    hide HeaderBytes, WordSum;
    FrontOfTtl(h, ttl);
  }

  lemma FrontOfTtl(h: Header, ttl: Byte)
    ensures WordSum(Front(h.(ttl := ttl)), false) == WordSum(Front(h), false) + 256 * (ttl - h.ttl)
  {
    hide Bytes, FirstByte, FragmentWord, WordSum, Front;
    FrontAroundTtl(h);
    FrontAroundTtl(h.(ttl := ttl));
    var before, behind := BeforeTtl(h), Bytes(h.proto, 1);
    SameBefore(h, ttl);
    SumAroundTtl(before, h.ttl, behind);
    SumAroundTtl(before, ttl, behind);
  }

  function BeforeTtl(h: Header): seq<Byte> {
    Bytes(FirstByte(h), 1) + Bytes(h.tos, 1) + Bytes(h.len, 2) + Bytes(h.id, 2) + Bytes(FragmentWord(h), 2)
  }

  lemma SameBefore(h: Header, ttl: Byte)
    ensures BeforeTtl(h.(ttl := ttl)) == BeforeTtl(h) && |BeforeTtl(h)| == 8
  {
    hide Bytes;
  }

  lemma FrontAroundTtl(h: Header)
    ensures Front(h) == BeforeTtl(h) + (Bytes(h.ttl, 1) + Bytes(h.proto, 1))
  {
    hide Bytes, FirstByte, FragmentWord;
  }

  lemma SumAroundTtl(before: seq<Byte>, ttl: Byte, behind: seq<Byte>)
    requires |before| == 8
    ensures WordSum(before + (Bytes(ttl, 1) + behind), false) == WordSum(before, false) + 256 * ttl + WordSum(behind, true)
  {
    OneByte(ttl);
    hide Bytes, WordSum;
    WordSumOfSum(before, Bytes(ttl, 1) + behind, false);
    WordSumOfSum(Bytes(ttl, 1), behind, false);
  }

  lemma OneByte(b: Byte)
    ensures WordSum(Bytes(b, 1), false) == 256 * b
  {
    assert Bytes(b, 1) == [b];
    assert [b][1..] == [];
  }

  /** Folding tells apart sums that differ by 256. */
  lemma FoldOfLess(x: nat)
    requires x > 256
    ensures Fold(x) != Fold(x - 256)
  {
    hide Fold;
    var k := FoldIsResidue(x);
    var n := FoldIsResidue(x - 256);
  }

  /** A correct checksum is stale once the time to live has been counted down, as the router does without
      recomputing it: no header that is forwarded so is accepted by `parse`. */
  lemma CountedDownIsRejected(h: Header, payload: seq<Byte>)
    requires Fits(h) && h.ver == 4 && h.ttl > 1 && h.cksum == Checksum(h)
    ensures var forwarded := h.(ttl := h.ttl - 1);
      forwarded.cksum != Checksum(forwarded) && !Accepts(HeaderBytes(forwarded) + payload)
  {
    var forwarded, zero := h.(ttl := h.ttl - 1), h.(cksum := 0);
    assert forwarded.(cksum := 0) == zero.(ttl := zero.ttl - 1);
    hide HeaderBytes, WordSum, Fold, Accepts;
    SumOfTtl(zero, zero.ttl - 1);
    SumAboveTtl(zero);
    FoldOfLess(WordSum(HeaderBytes(zero), false));
    RoundTrip(forwarded, payload);
  }

  lemma SumAboveTtl(h: Header)
    requires h.ttl > 1
    ensures WordSum(HeaderBytes(h), false) > 256
  {
    hide HeaderBytes, WordSum;
    SumOfTtl(h, 0);
  }

  // ----- serialize, compute_checksum, parse -----

  method Put(s: Serializer, ghost start: seq<Byte>, ghost before: seq<Byte>, v: nat, width: nat)
    requires v < Pow256(width) && s.Written() == start + before
    modifies s`buffer
    ensures s.Written() == start + (before + Bytes(v, width))
  {
    s.Integer(v, width);
  }

  /** Throws for any version but 4. */
  method Serialize(h: Header, s: Serializer) returns (thrown: bool)
    modifies s`buffer
    ensures thrown <==> h.ver != 4
    ensures !thrown ==> s.Written() == old(s.Written()) + HeaderBytes(h)
  {
    if h.ver != 4 {
      return true;
    }
    PowersOf256();
    hide Bytes, Pow256, FirstByte, FragmentWord, Serializer.Written;
    ghost var start := s.Written();
    assert start + [] == start;
    ghost var p1 := [] + Bytes(FirstByte(h), 1);
    Put(s, start, [], FirstByte(h), 1);
    ghost var p2 := p1 + Bytes(h.tos, 1);
    Put(s, start, p1, h.tos, 1);
    ghost var p3 := p2 + Bytes(h.len, 2);
    Put(s, start, p2, h.len, 2);
    ghost var p4 := p3 + Bytes(h.id, 2);
    Put(s, start, p3, h.id, 2);
    ghost var p5 := p4 + Bytes(FragmentWord(h), 2);
    Put(s, start, p4, FragmentWord(h), 2);
    ghost var p6 := p5 + Bytes(h.ttl, 1);
    Put(s, start, p5, h.ttl, 1);
    ghost var p7 := p6 + Bytes(h.proto, 1);
    Put(s, start, p6, h.proto, 1);
    ghost var p8 := p7 + Bytes(h.cksum, 2);
    Put(s, start, p7, h.cksum, 2);
    ghost var p9 := p8 + Bytes(h.src, 4);
    Put(s, start, p8, h.src, 4);
    Put(s, start, p9, h.dst, 4);
    assert p1 == Bytes(FirstByte(h), 1);
    assert p9 + Bytes(h.dst, 4) == HeaderBytes(h);
    return false;
  }

  /** Serializing throws for any version but 4, and so does this. */
  method ComputeChecksum(h: Header) returns (r: Header, thrown: bool)
    ensures thrown <==> h.ver != 4
    ensures !thrown ==> r == h.(cksum := Checksum(h))
  {
    hide HeaderBytes, WordSum, Fold;
    r := h.(cksum := 0);
    var s := new Serializer();
    thrown := Serialize(r, s);
    if !thrown {
      var chunks := s.Output();
      var check := new InternetChecksum(0);
      check.AddAll(chunks);
      assert Concat(chunks) == HeaderBytes(r);
      WordSumBound(HeaderBytes(r), false);
      var v := check.Value();
      r := r.(cksum := v);
    }
  }

  /** Reads the field at a known offset of the data. */
  method Get(p: Parser, ghost all: seq<Byte>, ghost at: nat, width: nat, target: nat) returns (v: nat)
    requires p.Valid() && width > 0 && (!p.error ==> at <= |all| && p.Rest() == all[at..])
    modifies p`error, p.input
    ensures p.Valid()
    ensures p.error == (old(p.error) || at + width > |all|)
    ensures p.error ==> v == target
    ensures !p.error ==> v == Field(all, at, width) && p.Rest() == all[at + width..] && v < Pow256(width)
  {
    v := p.Integer(width, target);
    if !p.error {
      assert all[at..][..width] == all[at..at + width];
      assert all[at..][width..] == all[at + width..];
    }
  }

  method ReadFront(p: Parser, ghost all: seq<Byte>, prior: Header) returns (first: Byte, tos: Byte, len: U16, id: U16, fo: U16)
    requires p.Valid() && p.Rest() == all
    modifies p`error, p.input
    ensures p.Valid() && p.error == (old(p.error) || |all| < 8)
    ensures !p.error ==> first == Field(all, 0, 1) && tos == Field(all, 1, 1) && len == Field(all, 2, 2)
    ensures !p.error ==> id == Field(all, 4, 2) && fo == Field(all, 6, 2) && p.Rest() == all[8..]
    ensures first == if old(p.error) || all == [] then 0 else Field(all, 0, 1)
  {
    PowersOf256();
    hide Field, Pow256, Parser.Valid, Parser.Rest;
    assert all[0..] == all;
    first := Get(p, all, 0, 1, 0);
    tos := Get(p, all, 1, 1, prior.tos);
    len := Get(p, all, 2, 2, prior.len);
    id := Get(p, all, 4, 2, prior.id);
    fo := Get(p, all, 6, 2, 0);
  }

  method ReadRear(p: Parser, ghost all: seq<Byte>, prior: Header) returns (ttl: Byte, proto: Byte, cksum: U16, src: U32, dst: U32)
    requires p.Valid() && (!p.error ==> |all| >= 8 && p.Rest() == all[8..])
    modifies p`error, p.input
    ensures p.Valid() && p.error == (old(p.error) || |all| < LENGTH)
    ensures !p.error ==> ttl == Field(all, 8, 1) && proto == Field(all, 9, 1) && cksum == Field(all, 10, 2)
    ensures !p.error ==> src == Field(all, 12, 4) && dst == Field(all, 16, 4) && p.Rest() == all[LENGTH..]
  {
    PowersOf256();
    hide Field, Pow256, Parser.Valid, Parser.Rest;
    ttl := Get(p, all, 8, 1, prior.ttl);
    proto := Get(p, all, 9, 1, prior.proto);
    cksum := Get(p, all, 10, 2, prior.cksum);
    src := Get(p, all, 12, 4, prior.src);
    dst := Get(p, all, 16, 4, prior.dst);
  }

  /** The header fields of the input; a short input sets the error flag. Fields it does not reach keep
      their prior values, except those cut out of the first byte and of the fragment word, which become zero. */
  method ReadFields(p: Parser, prior: Header) returns (h: Header)
    requires p.Valid()
    modifies p`error, p.input
    ensures p.Valid()
    ensures p.error == (old(p.error) || |old(p.Rest())| < LENGTH)
    ensures !p.error ==> h == Decode(old(p.Rest())) && p.Rest() == old(p.Rest())[LENGTH..]
    ensures h.ver == if old(p.error) || old(p.Rest()) == [] then 0 else Field(old(p.Rest()), 0, 1) / 16
  {
    hide Field, Pow256, Parser.Valid, Parser.Rest, Decode;
    ghost var all := p.Rest();
    var first, tos, len, id, fo := ReadFront(p, all, prior);
    var ttl, proto, cksum, src, dst := ReadRear(p, all, prior);
    h := Header(first / 16, first % 16, tos, len, id, fo / 0x4000 % 2 == 1, fo / 0x2000 % 2 == 1, fo % 0x2000, ttl, proto, cksum, src, dst);
  }

  /** Which inputs parse: long enough, at least five words of header, and the right checksum. */
  ghost predicate Accepts(b: seq<Byte>) {
    |b| >= LENGTH && Decode(b).hlen >= 5 && Decode(b).cksum == Checksum(Decode(b))
  }

  /** `remove_prefix` with what the header length says beyond the fixed part; a 64-bit difference. */
  method SkipOptions(p: Parser, hlen: Byte, ghost all: seq<Byte>)
    requires p.Valid() && (!p.error ==> |all| >= LENGTH && p.Rest() == all[LENGTH..])
    modifies p.input
    ensures p.Valid()
    ensures !p.error && 5 <= hlen ==> p.Rest() == all[Min(4 * hlen, |all|)..]
  {
    hide Parser.Valid, Parser.Rest;
    p.RemovePrefix(Low64(hlen * 4 - LENGTH));
    if !p.error && 5 <= hlen {
      OptionsSkipped(all, hlen);
    }
  }

  /** Parsing succeeds exactly on accepted inputs of version 4. For any other version, for an empty input and for
      a parser already in error, it throws: computing the checksum serializes. Options are skipped. */
  method Parse(p: Parser, prior: Header) returns (h: Header, thrown: bool)
    requires p.Valid()
    modifies p`error, p.input
    ensures p.Valid()
    ensures thrown <==> old(p.error) || old(p.Rest()) == [] || Field(old(p.Rest()), 0, 1) / 16 != 4
    ensures !thrown ==> (!p.error <==> Accepts(old(p.Rest())))
    ensures !thrown && !p.error ==> h == Decode(old(p.Rest()))
    ensures !thrown && !p.error ==> p.Rest() == old(p.Rest())[Min(4 * h.hlen, |old(p.Rest())|)..]
  {
    hide Field, Parser.Valid, Parser.Rest, Decode, Checksum, Accepts;
    ghost var all := p.Rest();
    h := ReadFields(p, prior);
    if h.ver != 4 {
      p.SetError();
    }
    if h.hlen < 5 {
      p.SetError();
    }
    SkipOptions(p, h.hlen, all);
    var given := h.cksum;
    h, thrown := ComputeChecksum(h);
    if thrown {
      return;
    }
    if h.cksum != given {
      p.SetError();
    }
    AcceptsIs(all);
  }

  lemma AcceptsIs(b: seq<Byte>)
    ensures |b| >= LENGTH ==>
      var h := Decode(b);
      (Accepts(b) <==> h.hlen >= 5 && h.cksum == Checksum(h))
    ensures |b| < LENGTH ==> !Accepts(b)
  {
    hide Decode, Checksum;
  }

  lemma OptionsSkipped(all: seq<Byte>, hlen: Byte)
    requires |all| >= LENGTH && 5 <= hlen
    ensures all[LENGTH..][Min(Low64(hlen * 4 - LENGTH), |all[LENGTH..]|)..] == all[Min(4 * hlen, |all|)..]
  {
  }

  /** Round trip: a serialized header, followed by anything, decodes to itself, and it is accepted exactly when
      it claims at least five words and carries the right checksum. */
  lemma RoundTrip(h: Header, payload: seq<Byte>)
    requires Fits(h)
    ensures Decode(HeaderBytes(h) + payload) == h
    ensures Accepts(HeaderBytes(h) + payload) <==> h.hlen >= 5 && h.cksum == Checksum(h)
  {
    var b := HeaderBytes(h) + payload;
    hide HeaderBytes, Spells, Decode, Checksum;
    SerializedSpells(h, b);
    SpellsUniquely(b, h, Decode(b));
  }

  /** The other way round: the first twenty bytes of an input are the bytes of its decoded header exactly when
      the reserved flag bit, which decoding forgets, is clear. */
  lemma SerializesBack(b: seq<Byte>)
    requires |b| >= LENGTH
    ensures HeaderBytes(Decode(b)) == b[..LENGTH] <==> Field(b, 6, 2) < 0x8000
  {
    var h := Decode(b);
    FragmentBack(b, h);
    if Field(b, 6, 2) < 0x8000 {
      WrittenBack(b, h);
    } else {
      SerializedSpells(h, HeaderBytes(h));
      FragmentParts(h);
      FrontFields(h, HeaderBytes(h));
      hide FragmentWord, HeaderBytes, Decode;
      assert b[..LENGTH][6..8] == b[6..8];
    }
  }

  lemma FragmentBack(b: seq<Byte>, h: Header)
    requires |b| >= LENGTH && Spells(b, h)
    ensures FirstByte(h) == Field(b, 0, 1)
    ensures Field(b, 6, 2) < 0x8000 ==> FragmentWord(h) == Field(b, 6, 2)
  {
    PowersOf256();
    FieldFits(b, 0, 1);
    hide Field;
  }

  lemma FieldBack(b: seq<Byte>, at: nat, width: nat)
    requires at + width <= |b|
    ensures Bytes(Field(b, at, width), width) == b[at..at + width]
  {
    WriteBack(b[at..at + width]);
  }

  lemma WrittenBack(b: seq<Byte>, h: Header)
    requires |b| >= LENGTH && Spells(b, h) && FirstByte(h) == Field(b, 0, 1) && FragmentWord(h) == Field(b, 6, 2)
    ensures HeaderBytes(h) == b[..LENGTH]
  {
    hide Bytes, Field, FirstByte, FragmentWord;
    FieldBack(b, 0, 1);
    FieldBack(b, 1, 1);
    FieldBack(b, 2, 2);
    FieldBack(b, 4, 2);
    FieldBack(b, 6, 2);
    FieldBack(b, 8, 1);
    FieldBack(b, 9, 1);
    FieldBack(b, 10, 2);
    FieldBack(b, 12, 4);
    FieldBack(b, 16, 4);
    assert Front(h) == b[..10] by {
      assert b[0..1] + b[1..2] + b[2..4] + b[4..6] + b[6..8] + b[8..9] + b[9..10] == b[..10];
    }
    hide Front;
    assert b[..10] + b[10..12] + b[12..16] + b[16..20] == b[..20];
  }

  // ----- through the buffers (util/parser.hh:227-243) -----

  /** `serialize`: a single buffer. */
  method ToChunks(h: Header) returns (chunks: seq<seq<Byte>>, thrown: bool)
    ensures thrown <==> h.ver != 4
    ensures !thrown ==> chunks == [HeaderBytes(h)]
  {
    hide HeaderBytes;
    chunks := [];
    var s := new Serializer();
    thrown := Serialize(h, s);
    if !thrown {
      assert s.buffer == HeaderBytes(h) by {
        assert s.Written() == [] + HeaderBytes(h) == HeaderBytes(h);
        assert Concat(s.output) == [];
        assert s.Written() == [] + s.buffer == s.buffer;
      }
      chunks := s.Output();
    }
  }

  /** `parse`: whatever the chunks, the outcome depends on their concatenation only. */
  method FromChunks(chunks: seq<seq<Byte>>, prior: Header) returns (h: Header, ok: bool, thrown: bool)
    requires NoneEmpty(chunks)
    ensures thrown <==> Concat(chunks) == [] || Field(Concat(chunks), 0, 1) / 16 != 4
    ensures !thrown ==> (ok <==> Accepts(Concat(chunks))) && (ok ==> h == Decode(Concat(chunks)))
  {
    hide Field, Decode, Accepts;
    var p := new Parser(chunks);
    h, thrown := Parse(p, prior);
    ok := !p.error;
  }

  /** A header of version 4 that is serialized and parsed again comes back as it was, without error, exactly
      when it claims at least five words and carries the right checksum. */
  method ThereAndBack(h: Header, prior: Header) returns (g: Header, ok: bool)
    requires Fits(h) && h.ver == 4
    ensures ok <==> h.hlen >= 5 && h.cksum == Checksum(h)
    ensures ok ==> g == h
  {
    hide HeaderBytes, Decode, Checksum, Accepts, Field;
    var chunks, refused := ToChunks(h);
    ConcatOfOne(HeaderBytes(h));
    assert HeaderBytes(h) + [] == HeaderBytes(h);
    RoundTrip(h, []);
    SerializedSpells(h, HeaderBytes(h));
    var thrown: bool;
    g, ok, thrown := FromChunks(chunks, prior);
  }

  // ----- one header in bytes -----

  /** A UDP header as it stands on the wire: 115 bytes from 192.168.0.1 to 192.168.0.199, not to be fragmented. */
  const EXAMPLE := Header(4, 5, 0, 0x73, 0, true, false, 0, 0x40, 0x11, 0xb861, 0xc0a8_0001, 0xc0a8_00c7)

  lemma ExampleInBytes()
    ensures HeaderBytes(EXAMPLE) ==
      [0x45, 0x00, 0x00, 0x73, 0x00, 0x00, 0x40, 0x00, 0x40, 0x11, 0xb8, 0x61, 0xc0, 0xa8, 0x00, 0x01, 0xc0, 0xa8, 0x00, 0xc7]
  {
  }

  /** Its checksum is the right one. */
  lemma ExampleIsRight()
    ensures EXAMPLE.cksum == Checksum(EXAMPLE)
  {
    hide WordSum, HeaderBytes, Fold, SumOf;
    ZeroedExample();
    TotalOfExample();
    FoldsOnce(0x2_479c);
  }

  function ZeroedBytes(): seq<Byte> {
    [0x45, 0x00, 0x00, 0x73, 0x00, 0x00, 0x40, 0x00, 0x40, 0x11, 0x00, 0x00, 0xc0, 0xa8, 0x00, 0x01, 0xc0, 0xa8, 0x00, 0xc7]
  }

  lemma ZeroedInBytes()
    ensures HeaderBytes(EXAMPLE.(cksum := 0)) == ZeroedBytes()
  {
  }

  lemma ZeroedExample()
    ensures WordSum(HeaderBytes(EXAMPLE.(cksum := 0)), false)
      == SumOf([0x4500, 0x0073, 0x0000, 0x4000, 0x4011, 0x0000, 0xc0a8, 0x0001, 0xc0a8, 0x00c7])
  {
    hide WordSum, HeaderBytes, SumOf, Front, Bytes;
    ZeroedInBytes();
    var words: seq<nat> := [0x4500, 0x0073, 0x0000, 0x4000, 0x4011, 0x0000, 0xc0a8, 0x0001, 0xc0a8, 0x00c7];
    PairsOfExample(words);
    hide ZeroedBytes;
    SumOfPairs(ZeroedBytes(), words);
  }

  lemma PairsOfExample(words: seq<nat>)
    requires words == [0x4500, 0x0073, 0x0000, 0x4000, 0x4011, 0x0000, 0xc0a8, 0x0001, 0xc0a8, 0x00c7]
    ensures |ZeroedBytes()| == 2 * |words|
    ensures forall i :: 0 <= i < |words| ==> words[i] == ZeroedBytes()[2 * i] as int * 256 + ZeroedBytes()[2 * i + 1] as int
  {
  }

  function SumOf(words: seq<nat>): nat {
    if words == [] then 0 else words[0] + SumOf(words[1..])
  }

  lemma TotalOfExample()
    ensures SumOf([0x4500, 0x0073, 0x0000, 0x4000, 0x4011, 0x0000, 0xc0a8, 0x0001, 0xc0a8, 0x00c7]) == 0x2_479c
  {
  }

  lemma FoldsOnce(x: nat)
    requires x / 0x1_0000 + x % 0x1_0000 <= 0xFFFF < x
    ensures Fold(x) == x / 0x1_0000 + x % 0x1_0000
  {
  }

  /** The sum is over the 16-bit words, high byte first. */
  lemma {:induction false} SumOfPairs(b: seq<Byte>, words: seq<nat>)
    requires |b| == 2 * |words| && forall i :: 0 <= i < |words| ==> words[i] == b[2 * i] as int * 256 + b[2 * i + 1] as int
    ensures WordSum(b, false) == SumOf(words)
    decreases |words|
  {
    if words != [] {
      assert b[1..][1..] == b[2..];
      assert WordSum(b[1..], true) == b[1] + WordSum(b[2..], false);
      forall i | 0 <= i < |words[1..]|
        ensures words[1..][i] == b[2..][2 * i] as int * 256 + b[2..][2 * i + 1] as int
      {
        assert words[1..][i] == words[i + 1];
      }
      SumOfPairs(b[2..], words[1..]);
    }
  }
}
