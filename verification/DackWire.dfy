/** The DACK on the wire: what `prepDACK` puts and pushes (vmac/dack.c), and what
    `vmac_rx` pulls (vmac/rx.c). The packed structs are little-endian. */
module DackWire {
  import opened VmacTypes

  const HDR_80211: nat := 30   // struct ieee80211_hdr
  const HDR_VMAC: nat := 9     // u64 enc, u8 type
  const HDR_DACK: nat := 4     // u16 holes, u16 round
  const HOLE_SIZE: nat := 4    // u16 le, u16 re
  const BUFFER_ROOM: nat := 120
  const TYPE_DACK: u8 := 2

  type Bytes = seq<u8>

  datatype DackFrame = DackFrame(enc: nat, kind: u8, round: u16, holes: seq<Hole>)

  /** The n low bytes of x, lowest first. */
  function LowBytes(x: nat, n: nat): (b: Bytes)
    ensures |b| == n
  {
    if n == 0 then [] else [x % 0x100] + LowBytes(x / 0x100, n - 1)
  }

  function Value(b: Bytes): nat {
    if b == [] then 0 else b[0] + 0x100 * Value(b[1..])
  }

  function Word(b: Bytes): (x: u16)
    requires |b| == 2
    ensures x == Value(b)
  {
    assert Value(b[1..]) == b[1] + 0x100 * Value(b[1..][1..]);
    (b[0] as int) + 0x100 * (b[1] as int)
  }

  function HoleBytes(hole: Hole): Bytes {
    LowBytes(hole.le, 2) + LowBytes(hole.re, 2)
  }

  function HolesBytes(holes: seq<Hole>): (b: Bytes)
    ensures |b| == HOLE_SIZE * |holes|
  {
    if holes == [] then [] else HolesBytes(holes[..|holes| - 1]) + HoleBytes(holes[|holes| - 1])
  }

  function Encode(enc: u64, round: u16, holes: seq<Hole>): Bytes
    requires |holes| < U16_LIMIT
  {
    LowBytes(enc, 8) + [TYPE_DACK] + LowBytes(|holes|, 2) + LowBytes(round, 2) + HolesBytes(holes)
  }

  /** The number of holes the header announces. */
  function Announced(b: Bytes): u16
    requires |b| >= HDR_VMAC + HDR_DACK
  {
    Word(b[HDR_VMAC..HDR_VMAC + 2])
  }

  /** As long as its own header announces; the code does not test this. */
  predicate Complete(b: Bytes) {
    |b| >= HDR_VMAC + HDR_DACK && |b| >= HDR_VMAC + HDR_DACK + HOLE_SIZE * Announced(b)
  }

  function HoleAt(b: Bytes): Hole
    requires |b| >= HOLE_SIZE
  {
    Hole(Word(b[0..2]), Word(b[2..4]))
  }

  /** skb_pull: a buffer shorter than n is left alone. */
  function Pulled(b: Bytes, n: nat): Bytes {
    if n <= |b| then b[n..] else b
  }

  /** The next n holes; `behind` is what lies in memory behind the frame. */
  function PullHoles(b: Bytes, behind: Bytes, n: nat): seq<Hole>
    requires |behind| >= HOLE_SIZE
  {
    if n == 0 then [] else [HoleAt(b + behind)] + PullHoles(Pulled(b, HOLE_SIZE), behind, n - 1)
  }

  /** What the parser makes of a frame of any length. */
  function Decode(b: Bytes, behind: Bytes): DackFrame
    requires |behind| >= HDR_VMAC
  {
    var inner := Pulled(b, HDR_VMAC);
    var header := (inner + behind)[..HDR_DACK];
    DackFrame(Value((b + behind)[..8]), (b + behind)[8], Word(header[2..]),
              PullHoles(Pulled(inner, HDR_DACK), behind, Word(header[..2])))
  }

  /** A socket buffer: its bytes, and the room left before and behind them. */
  class Skb {
    var data: Bytes
    var headroom: nat
    var tailroom: nat

    constructor (pad: nat, size: nat)
      ensures data == [] && headroom == pad && tailroom == size
    {
      data, headroom, tailroom := [], pad, size;
    }

    /** skb_put: the kernel stops if the room does not suffice. */
    method Put(bytes: Bytes)
      requires |bytes| <= tailroom
      modifies this
      ensures data == old(data) + bytes && tailroom == old(tailroom) - |bytes| && headroom == old(headroom)
    {
      data, tailroom := data + bytes, tailroom - |bytes|;
    }

    /** skb_push. */
    method Push(bytes: Bytes)
      requires |bytes| <= headroom
      modifies this
      ensures data == bytes + old(data) && headroom == old(headroom) - |bytes| && tailroom == old(tailroom)
    {
      data, headroom := bytes + data, headroom - |bytes|;
    }

    method Pull(n: nat)
      modifies this
      ensures data == Pulled(old(data), n) && tailroom == old(tailroom)
      ensures headroom + |data| == old(headroom) + |old(data)|
    {
      if n <= |data| {
        data, headroom := data[n..], headroom + n;
      }
    }
  }

  /** The serialisation in `prepDACK`. All that is put fits the allocation with tailroom to
      spare; the 802.11 header that is pushed in front later fits if the allocator's padding
      has room for both headers. */
  method BuildFrame(enc: u64, round: u16, holesy: array<Hole>, holes: nat, pad: nat) returns (skb: Skb)
    requires holes <= holesy.Length == HOLES_MAX && HDR_VMAC <= pad
    ensures fresh(skb) && skb.data == Encode(enc, round, holesy[..holes])
    ensures skb.tailroom == HDR_80211 + HDR_VMAC + BUFFER_ROOM && skb.headroom == pad - HDR_VMAC
    ensures HDR_80211 <= skb.headroom <==> HDR_VMAC + HDR_80211 <= pad
  {
    skb := new Skb(pad, HDR_80211 + HDR_VMAC + HDR_DACK + holes * HOLE_SIZE + BUFFER_ROOM);
    skb.Put(LowBytes(holes, 2) + LowBytes(round, 2));
    var i := 0;
    assert holesy[..0] == [];
    while i < holes
      invariant i <= holes && fresh(skb)
      invariant skb.data == LowBytes(holes, 2) + LowBytes(round, 2) + HolesBytes(holesy[..i])
      invariant skb.tailroom == HDR_80211 + HDR_VMAC + (holes - i) * HOLE_SIZE + BUFFER_ROOM && skb.headroom == pad
    {
      skb.Put(HoleBytes(holesy[i]));
      assert holesy[..i + 1][..i] == holesy[..i];
      i := i + 1;
    }
    skb.Push(LowBytes(enc, 8) + [TYPE_DACK]);
    assert skb.data == Encode(enc, round, holesy[..holes]);
  }

  /** The parsing in `vmac_rx`: header, DACK header, then hole after hole. */
  method ParseFrame(skb: Skb, behind: Bytes) returns (frame: DackFrame)
    requires |behind| >= HDR_VMAC
    modifies skb
    ensures frame == Decode(old(skb.data), behind)
  {
    var head := skb.data + behind;
    var enc, kind := Value(head[..8]), head[8];
    skb.Pull(HDR_VMAC);
    var inner := skb.data + behind;
    assert inner[..HDR_DACK][..2] == inner[..2] && inner[..HDR_DACK][2..] == inner[2..4];
    var holes, round := Word(inner[..2]), Word(inner[2..4]);
    skb.Pull(HDR_DACK);
    ghost var body := skb.data;
    var i, list := 0, [];
    while i < holes
      invariant i <= holes
      invariant list + PullHoles(skb.data, behind, holes - i) == PullHoles(body, behind, holes)
    {
      ghost var rest := skb.data;
      list := list + [HoleAt(skb.data + behind)];
      skb.Pull(HOLE_SIZE);
      assert PullHoles(rest, behind, holes - i) ==
             [HoleAt(rest + behind)] + PullHoles(skb.data, behind, holes - i - 1);
      i := i + 1;
    }
    frame := DackFrame(enc, kind, round, list);
  }

  // ---- what one side writes, the other reads ----

  /** x has at most n bytes. */
  predicate Fits(x: nat, n: nat) {
    if n == 0 then x == 0 else Fits(x / 0x100, n - 1)
  }

  lemma {:induction false} LowBytesValue(x: nat, n: nat)
    requires Fits(x, n)
    ensures Value(LowBytes(x, n)) == x
  {
    if n > 0 { LowBytesValue(x / 0x100, n - 1); }
  }

  lemma {:induction false} ValueLowBytes(b: Bytes)
    ensures LowBytes(Value(b), |b|) == b
  {
    if b != [] {
      ValueLowBytes(b[1..]);
      assert Value(b) % 0x100 == b[0] && Value(b) / 0x100 == Value(b[1..]);
    }
  }

  lemma WordOf(x: u16)
    ensures Word(LowBytes(x, 2)) == x
  {
    assert Fits(x / 0x100, 1);
    LowBytesValue(x, 2);
  }

  /** 256 to the power n. */
  function Limit(n: nat): nat {
    if n == 0 then 1 else 0x100 * Limit(n - 1)
  }

  lemma {:induction false} BelowFits(x: nat, n: nat)
    requires x < Limit(n)
    ensures Fits(x, n)
  {
    if n > 0 { BelowFits(x / 0x100, n - 1); }
  }

  lemma LongFits(x: u64)
    ensures Fits(x, 8)
  {
    assert Limit(4) == U32_LIMIT;
    assert Limit(8) == U64_LIMIT;
    BelowFits(x, 8);
  }

  lemma HolesBytesCons(hole: Hole, holes: seq<Hole>)
    ensures HolesBytes([hole] + holes) == HoleBytes(hole) + HolesBytes(holes)
  {
    if holes == [] {
      assert [hole][..0] == [];
      assert [hole] + holes == [hole];
    } else {
      var front, last := holes[..|holes| - 1], holes[|holes| - 1];
      HolesBytesCons(hole, front);
      assert ([hole] + holes)[..|holes|] == [hole] + front;
      assert ([hole] + holes)[|holes|] == last;
    }
  }

  lemma HoleRoundTrip(hole: Hole, rest: Bytes)
    ensures HoleAt(HoleBytes(hole) + rest) == hole
  {
    var b := HoleBytes(hole) + rest;
    assert b[0..2] == LowBytes(hole.le, 2) && b[2..4] == LowBytes(hole.re, 2);
    WordOf(hole.le);
    WordOf(hole.re);
  }

  lemma {:induction false} HolesRoundTrip(holes: seq<Hole>, behind: Bytes)
    requires |behind| >= HOLE_SIZE
    ensures PullHoles(HolesBytes(holes), behind, |holes|) == holes
  {
    if holes != [] {
      var first, rest := holes[0], holes[1..];
      HolesRoundTrip(rest, behind);
      assert holes == [first] + rest;
      HolesBytesCons(first, rest);
      assert HolesBytes(holes) + behind == HoleBytes(first) + (HolesBytes(rest) + behind);
      HoleRoundTrip(first, HolesBytes(rest) + behind);
      assert Pulled(HolesBytes(holes), HOLE_SIZE) == HolesBytes(rest);
    }
  }

  lemma StartOf(b: Bytes, behind: Bytes, n: nat)
    requires n <= |b|
    ensures (b + behind)[..n] == b[..n]
  {
  }

  lemma FourBytes(b: Bytes, i: nat)
    requires i + 4 <= |b|
    ensures b[i..][..4][..2] == b[i..i + 2] && b[i..][..4][2..] == b[i + 2..i + 4] && b[i..][4..] == b[i + 4..]
  {
  }

  /** A frame with both headers: what lies behind it can only show in its holes. */
  lemma DecodeHeaders(b: Bytes, behind: Bytes)
    requires |b| >= HDR_VMAC + HDR_DACK && |behind| >= HDR_VMAC
    ensures Decode(b, behind) ==
            DackFrame(Value(b[..8]), b[8], Word(b[11..13]), PullHoles(b[13..], behind, Announced(b)))
  {
    StartOf(b, behind, 8);
    StartOf(b[HDR_VMAC..], behind, HDR_DACK);
    FourBytes(b, HDR_VMAC);
  }

  /** Parsing a built DACK recovers its encoding, type, round and holes, whatever lies behind. */
  lemma DecodeOfEncode(enc: u64, round: u16, holes: seq<Hole>, behind: Bytes)
    requires |holes| <= HOLES_MAX && |behind| >= HDR_VMAC
    ensures var b := Encode(enc, round, holes);
            Complete(b) && Decode(b, behind) == DackFrame(enc, TYPE_DACK, round, holes)
  {
    var b := Encode(enc, round, holes);
    assert b[..8] == LowBytes(enc, 8) && b[8] == TYPE_DACK;
    assert b[9..11] == LowBytes(|holes|, 2) && b[11..13] == LowBytes(round, 2) && b[13..] == HolesBytes(holes);
    DecodeHeaders(b, behind);
    WordOf(|holes|);
    WordOf(round);
    LongFits(enc);
    LowBytesValue(enc, 8);
    HolesRoundTrip(holes, behind);
  }

  /** From where a frame runs short, all its holes are the same. */
  lemma {:induction false} ShortHoles(b: Bytes, behind: Bytes, n: nat)
    requires |behind| >= HOLE_SIZE > |b|
    ensures |PullHoles(b, behind, n)| == n
    ensures forall j :: 0 <= j < n ==> PullHoles(b, behind, n)[j] == HoleAt(b + behind)
  {
    if n > 0 { ShortHoles(b, behind, n - 1); }
  }

  lemma HoleWithin(b: Bytes, behind: Bytes)
    requires |b| >= HOLE_SIZE
    ensures HoleAt(b + behind) == HoleAt(b)
  {
    assert (b + behind)[0..2] == b[0..2] && (b + behind)[2..4] == b[2..4];
  }

  lemma RestOfRest(b: Bytes, k: nat)
    requires HOLE_SIZE * (k + 1) <= |b|
    ensures b[HOLE_SIZE..][HOLE_SIZE * k..] == b[HOLE_SIZE * (k + 1)..]
  {
  }

  /** Hole j of a frame of any length: its own four bytes; and from where the frame runs short,
      always the same, the bytes left over and what lies behind them. */
  lemma {:induction false} HolesAt(b: Bytes, behind: Bytes, n: nat, j: nat)
    requires |behind| >= HOLE_SIZE && j < n
    ensures |PullHoles(b, behind, n)| == n
    ensures var whole := |b| / HOLE_SIZE;
            PullHoles(b, behind, n)[j] ==
              if j < whole then HoleAt(b[HOLE_SIZE * j..]) else HoleAt(b[HOLE_SIZE * whole..] + behind)
    decreases n
  {
    if |b| < HOLE_SIZE {
      ShortHoles(b, behind, n);
      assert b[0..] == b;
    } else {
      var next, whole := b[HOLE_SIZE..], |b| / HOLE_SIZE;
      assert |next| / HOLE_SIZE == whole - 1;
      HoleWithin(b, behind);
      if j == 0 {
        assert b[0..] == b;
        if n > 1 { HolesAt(next, behind, n - 1, 0); }
      } else {
        HolesAt(next, behind, n - 1, j - 1);
        RestOfRest(b, if j < whole then j - 1 else whole - 1);
      }
    }
  }

  /** The sixteen-bit field at place i. */
  function Field(b: Bytes, i: nat): int
    requires i + 1 < |b|
  {
    (b[i] as int) + 256 * (b[i + 1] as int)
  }

  lemma TwoBytes(x: u16)
    ensures LowBytes(x, 2) == [x % 256, x / 256]
  {
    assert x / 256 % 256 == x / 256;
    assert LowBytes(x / 256, 1) == [x / 256];
  }

  lemma {:induction false} HolesInPlace(holes: seq<Hole>, k: nat)
    requires k < |holes|
    ensures var b := HolesBytes(holes);
            Field(b, 4 * k) == holes[k].le && Field(b, 4 * k + 2) == holes[k].re
  {
    var front, last := holes[..|holes| - 1], holes[|holes| - 1];
    TwoBytes(last.le);
    TwoBytes(last.re);
    if k < |front| { HolesInPlace(front, k); }
  }

  lemma ValueByWords(b: Bytes)
    requires |b| >= 2
    ensures Value(b) == Field(b, 0) + 65536 * Value(b[2..])
  {
    assert b[1..][1..] == b[2..];
  }

  /** The encoding, sixteen bits at a time. */
  lemma FourWords(x: u64)
    ensures var b := LowBytes(x, 8);
            x == Field(b, 0) + 65536 * (Field(b, 2) + 65536 * (Field(b, 4) + 65536 * Field(b, 6)))
  {
    var b := LowBytes(x, 8);
    LongFits(x);
    LowBytesValue(x, 8);
    ValueByWords(b);
    ValueByWords(b[2..]);
    ValueByWords(b[4..]);
    ValueByWords(b[6..]);
    assert b[2..][2..] == b[4..] && b[4..][2..] == b[6..] && b[6..][2..] == [];
  }

  /** Where each field of a built DACK stands, low byte first: the encoding at 0, the type, two,
      at 8, the number of holes at 9, the round at 11, and from 13 on, four bytes each, the left
      and the right edge of the holes. */
  lemma FieldsInPlace(enc: u64, round: u16, holes: seq<Hole>, k: nat)
    requires |holes| <= HOLES_MAX
    ensures var b := Encode(enc, round, holes);
            && |b| == 13 + 4 * |holes|
            && enc == Field(b, 0) + 65536 * (Field(b, 2) + 65536 * (Field(b, 4) + 65536 * Field(b, 6))) && b[8] == 2
            && Field(b, 9) == |holes| && Field(b, 11) == round
            && (k < |holes| ==> Field(b, 13 + 4 * k) == holes[k].le && Field(b, 15 + 4 * k) == holes[k].re)
  {
    var b := Encode(enc, round, holes);
    FourWords(enc);
    assert b[..8] == LowBytes(enc, 8);
    TwoBytes(|holes|);
    TwoBytes(round);
    assert b[9..11] == LowBytes(|holes|, 2) && b[11..13] == LowBytes(round, 2) && b[13..] == HolesBytes(holes);
    if k < |holes| {
      HolesInPlace(holes, k);
      assert b[13..][4 * k] == b[13 + 4 * k] && b[13..][4 * k + 1] == b[14 + 4 * k];
      assert b[13..][4 * k + 2] == b[15 + 4 * k] && b[13..][4 * k + 3] == b[16 + 4 * k];
    }
  }

  lemma HoleAtBytes(b: Bytes)
    requires |b| >= HOLE_SIZE
    ensures HoleBytes(HoleAt(b)) == b[..HOLE_SIZE]
  {
    ValueLowBytes(b[0..2]);
    ValueLowBytes(b[2..4]);
    assert b[..4] == b[0..2] + b[2..4];
  }

  lemma {:induction false} PulledHolesBytes(b: Bytes, behind: Bytes, n: nat)
    requires |b| == HOLE_SIZE * n && |behind| >= HOLE_SIZE
    ensures |PullHoles(b, behind, n)| == n && HolesBytes(PullHoles(b, behind, n)) == b
    decreases n
  {
    if n > 0 {
      PulledHolesBytes(b[HOLE_SIZE..], behind, n - 1);
      HoleWithin(b, behind);
      HolesBytesCons(HoleAt(b), PullHoles(b[HOLE_SIZE..], behind, n - 1));
      HoleAtBytes(b);
      assert b == b[..HOLE_SIZE] + b[HOLE_SIZE..];
    }
  }

  /** And the other way: a DACK whose length is what it announces is the encoding of what is
      parsed from it, so no two frames parse alike. */
  lemma EncodeOfDecode(b: Bytes, behind: Bytes)
    requires |behind| >= HDR_VMAC
    requires Complete(b) && |b| == HDR_VMAC + HDR_DACK + HOLE_SIZE * Announced(b) && b[8] == TYPE_DACK
    ensures var frame := Decode(b, behind);
            |frame.holes| < U16_LIMIT && frame.enc < U64_LIMIT && Encode(frame.enc, frame.round, frame.holes) == b
  {
    DecodeHeaders(b, behind);
    PulledHolesBytes(b[13..], behind, Announced(b));
    ValueLowBytes(b[..8]);
    ValueLowBytes(b[9..11]);
    ValueLowBytes(b[11..13]);
    EightBytesFit(b[..8]);
    assert b == b[..8] + [b[8]] + b[9..11] + b[11..13] + b[13..];
  }

  lemma EightBytesFit(b: Bytes)
    requires |b| == 8
    ensures Value(b) < U64_LIMIT
  {
    var b1 := b[1..];
    var b2 := b1[1..];
    var b3 := b2[1..];
    var b4 := b3[1..];
    var b5 := b4[1..];
    var b6 := b5[1..];
    var b7 := b6[1..];
    assert Value(b7) < 0x100 && Value(b6) < 0x1_0000 && Value(b5) < 0x100_0000 && Value(b4) < 0x1_0000_0000;
    assert Value(b3) < 0x100_0000_0000 && Value(b2) < 0x1_0000_0000_0000 && Value(b1) < 0x100_0000_0000_0000;
  }
}
