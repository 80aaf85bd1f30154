/** What the walks of include/encode_main.h put into the two streams, as a function of the leaves in
    walk order: the inline stream of SerializeToString_DFS and the side stream of
    SendMetadataToFPGA. */
module Walk {
  import opened Words
  import opened Varint
  import opened Messages
  import opened Wire

  datatype Stream = Inline(codec: Codec, skip: bool) | Side

  function LeafBytes(st: Stream, l: Leaf): seq<byte>
    requires FitsLeaf(l.fd.kind, l.v)
  {
    match st
    case Inline(c, skip) => if skip && Long(l.v) then [] else Frame(c, l.fd, l.v)
    case Side => SideBytes(l.v)
  }

  function LeafSize(st: Stream, l: Leaf): nat
    requires FitsLeaf(l.fd.kind, l.v)
  {
    match st
    case Inline(c, skip) => if skip && Long(l.v) then 0 else 2 + BodySize(c, l.fd, l.v)
    case Side => SideSize(l.v)
  }

  ghost predicate AllFit(ls: seq<Leaf>) {
    forall l :: l in ls ==> FitsLeaf(l.fd.kind, l.v)
  }

  ghost predicate AllTagged(ls: seq<Leaf>) {
    forall l :: l in ls ==> FitsLeaf(l.fd.kind, l.v) && l.fd.id < 128
  }

  ghost function Flat(st: Stream, ls: seq<Leaf>): seq<byte>
    requires AllFit(ls)
  {
    if ls == [] then [] else LeafBytes(st, ls[0]) + Flat(st, ls[1..])
  }

  ghost function FlatSize(st: Stream, ls: seq<Leaf>): nat
    requires AllFit(ls)
  {
    if ls == [] then 0 else LeafSize(st, ls[0]) + FlatSize(st, ls[1..])
  }

  lemma {:induction false} FlatConcat(st: Stream, xs: seq<Leaf>, ys: seq<Leaf>)
    requires AllFit(xs) && AllFit(ys)
    ensures AllFit(xs + ys)
    ensures Flat(st, xs + ys) == Flat(st, xs) + Flat(st, ys)
  {
    hide LeafBytes;
    if xs == [] {
      assert xs + ys == ys;
    } else {
      FlatConcat(st, xs[1..], ys);
      assert (xs + ys)[1..] == xs[1..] + ys;
    }
  }

  lemma FlatNone(st: Stream)
    ensures Flat(st, []) == []
  {
  }

  lemma FlatOne(st: Stream, l: Leaf)
    requires FitsLeaf(l.fd.kind, l.v)
    ensures Flat(st, [l]) == LeafBytes(st, l)
  {
    hide LeafBytes;
    assert Flat(st, [l]) == LeafBytes(st, l) + Flat(st, []);
  }

  lemma LeafSizeExact(st: Stream, l: Leaf)
    requires FitsLeaf(l.fd.kind, l.v) && l.fd.id < 128
    ensures |LeafBytes(st, l)| == LeafSize(st, l)
  {
    hide Body, BodySize, Prefix16, SideBytes, SideSize, LittleEndian;
    if st.Side? {
      SideSizeExact(l.v);
    } else {
      BodySizeExact(st.codec, l.fd, l.v);
    }
  }

  /** The predicted total is the written total: for both codecs, both values of the skip flag and
      any tree, and for the side stream as well. */
  lemma {:induction false} SizePrediction(st: Stream, ls: seq<Leaf>)
    requires AllTagged(ls)
    ensures |Flat(st, ls)| == FlatSize(st, ls)
  {
    hide LeafBytes, LeafSize;
    if ls != [] {
      LeafSizeExact(st, ls[0]);
      SizePrediction(st, ls[1..]);
    }
  }

  /** The side stream is made of whole 64-byte lines. */
  lemma {:induction false} SideStreamAligned(ls: seq<Leaf>)
    requires AllFit(ls)
    ensures |Flat(Side, ls)| == FlatSize(Side, ls) && FlatSize(Side, ls) % 64 == 0
  {
    hide SideBytes, SideSize;
    if ls != [] {
      SideSizeExact(ls[0].v);
      SideStreamAligned(ls[1..]);
      SumAligned(SideSize(ls[0].v), FlatSize(Side, ls[1..]));
    }
  }

  /** Every field is in exactly one of the two streams, the long strings in the side stream. */
  lemma Partition(c: Codec, l: Leaf)
    requires FitsLeaf(l.fd.kind, l.v)
    ensures LeafBytes(Inline(c, true), l) == [] <==> Long(l.v)
    ensures LeafBytes(Side, l) == [] <==> !Long(l.v)
    ensures Long(l.v) ==> IsText(l.fd.kind.atom)
  {
    hide Body, Prefix16, LittleEndian;
    SideSizeExact(l.v);
    if Long(l.v) {
      LongIsText(l.fd.kind, l.v);
    }
  }

  ghost predicate NoneLong(ls: seq<Leaf>) {
    forall l :: l in ls ==> !Long(l.v)
  }

  lemma {:induction false} SkipShortens(c: Codec, ls: seq<Leaf>)
    requires AllFit(ls)
    ensures var x, y := Flat(Inline(c, true), ls), Flat(Inline(c, false), ls);
      |x| <= |y| && (NoneLong(ls) ==> x == y) && (!NoneLong(ls) ==> |x| < |y|)
  {
    hide Body, Prefix16, Long, LittleEndian;
    if ls != [] {
      SkipShortens(c, ls[1..]);
      assert forall l :: l in ls <==> l == ls[0] || l in ls[1..];
    }
  }

  /** The skip flag changes the inline stream exactly when some string is long. */
  lemma SkipFlagMatters(c: Codec, ls: seq<Leaf>)
    requires AllFit(ls)
    ensures Flat(Inline(c, true), ls) == Flat(Inline(c, false), ls) <==> NoneLong(ls)
  {
    SkipShortens(c, ls);
  }

  /** The fields of any tree of a valid schema can be tagged. */
  lemma TreeTagged(sch: Schema, m: Message)
    requires ValidSchema(sch) && Typed(sch, m)
    ensures AllTagged(AllLeaves(sch, m))
  {
    forall l | l in AllLeaves(sch, m) ensures l.fd.id < 128 {
      LeavesValid(sch, m, |m.vals|, l);
    }
  }

  // ----- framing -----

  /** The bodies that are framed, in order. */
  ghost function Bodies(skip: bool, ls: seq<Leaf>): seq<seq<byte>>
    requires AllFit(ls)
  {
    if ls == [] then []
    else if skip && Long(ls[0].v) then Bodies(skip, ls[1..])
    else [Body(Base128, ls[0].fd, ls[0].v)] + Bodies(skip, ls[1..])
  }

  datatype Scanned = Frames(bodies: seq<seq<byte>>) | Broken

  /** A reader that knows nothing but the 16-bit length prefixes. */
  function Scan(s: seq<byte>): Scanned {
    if s == [] then Frames([])
    else if |s| < 2 then Broken
    else
      var n := FromLittleEndian(s[..2]);
      if 2 + n > |s| then Broken
      else match Scan(s[2 + n..])
        case Broken => Broken
        case Frames(bs) => Frames([s[2..2 + n]] + bs)
  }

  ghost predicate AllShort(bs: seq<seq<byte>>) {
    forall b :: b in bs ==> |b| < TWO16
  }

  lemma {:induction false} ScannedAreShort(s: seq<byte>)
    ensures Scan(s).Frames? ==> AllShort(Scan(s).bodies)
    decreases |s|
  {
    if |s| >= 2 {
      WordSizes();
      FromLittleEndianBound(s[..2]);
      var n := FromLittleEndian(s[..2]);
      if 2 + n <= |s| {
        ScannedAreShort(s[2 + n..]);
      }
    }
  }

  lemma ScanFrame(b: seq<byte>, rest: seq<byte>)
    requires |b| < TWO16
    ensures Scan(LittleEndian(|b|, 2) + b + rest)
         == match Scan(rest) case Broken => Broken case Frames(bs) => Frames([b] + bs)
  {
    hide LittleEndian, FromLittleEndian, Pow256;
    WordSizes();
    LittleEndianRoundTrip(|b|, 2);
    var s := LittleEndian(|b|, 2) + b + rest;
    assert s[..2] == LittleEndian(|b|, 2);
    assert s[2..2 + |b|] == b;
    assert s[2 + |b|..] == rest;
  }

  lemma {:induction false} ShortFraming(skip: bool, ls: seq<Leaf>)
    requires AllTagged(ls) && AllShort(Bodies(skip, ls))
    ensures Scan(Flat(Inline(Base128, skip), ls)) == Frames(Bodies(skip, ls))
  {
    hide Body, Prefix16, LittleEndian, FromLittleEndian, Long;
    if ls != [] {
      var l, st, tail := ls[0], Inline(Base128, skip), Flat(Inline(Base128, skip), ls[1..]);
      if skip && Long(l.v) {
        assert Flat(st, ls) == tail;
        ShortFraming(skip, ls[1..]);
      } else {
        var b := Body(Base128, l.fd, l.v);
        assert Bodies(skip, ls)[0] == b;
        assert forall x :: x in Bodies(skip, ls[1..]) ==> x in Bodies(skip, ls);
        ShortFraming(skip, ls[1..]);
        PrefixExact(l.fd, l.v);
        ScanFrame(b, tail);
        assert Flat(st, ls) == LittleEndian(|b|, 2) + b + tail;
      }
    }
  }

  /** The scanner recovers every boundary of the inline stream exactly when every body fits in
      16 bits. */
  lemma Framing(skip: bool, ls: seq<Leaf>)
    requires AllTagged(ls)
    ensures Scan(Flat(Inline(Base128, skip), ls)) == Frames(Bodies(skip, ls))
       <==> AllShort(Bodies(skip, ls))
  {
    if AllShort(Bodies(skip, ls)) {
      ShortFraming(skip, ls);
    } else {
      ScannedAreShort(Flat(Inline(Base128, skip), ls));
    }
  }

  /** Framing of the inline stream of a whole tree, one frame per field that is not skipped, in the
      order of the backward walk. */
  lemma TreeFraming(sch: Schema, m: Message, skip: bool)
    requires ValidSchema(sch) && Typed(sch, m)
    ensures var ls := AllLeaves(sch, m);
      Scan(Flat(Inline(Base128, skip), ls)) == Frames(Bodies(skip, ls)) <==> AllShort(Bodies(skip, ls))
  {
    TreeTagged(sch, m);
    Framing(skip, AllLeaves(sch, m));
  }
}
