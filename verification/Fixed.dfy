/** Reading the fixed-width codec back (include/no_encode.h, include/no_encode_main.h). The repository has
    no parser for it, so this reader is a definition: every number and every length is one little-endian
    word, and it shares nothing with the writers but the words. */
module Fixed {
  import opened Words
  import opened Messages
  import opened Wire
  import opened Walk

  // ----- one field -----

  function NumberWidth(k: AtomKind): nat {
    match k
    case Int64 => 8
    case UInt64 => 8
    case Double => 8
    case Fix64 => 8
    case _ => 4
  }

  function NumberOf(k: AtomKind, u: nat): int {
    match k
    case Int32 => ToSigned(u, TWO32)
    case SInt32 => ToSigned(u, TWO32)
    case Enum => ToSigned(u, TWO32)
    case Fix32 => ToSigned(u, TWO32)
    case Int64 => ToSigned(u, TWO64)
    case _ => u
  }

  function ReadAtom4(k: AtomKind, s: seq<byte>): (r: Read<Atom>)
    ensures r.Got? ==> 0 < r.used <= |s|
  {
    if k.Str? || k.Bytes? then
      var len := ReadWord(s, 4);
      if len.Bad? || 4 + len.value > |s| then Bad else Got(Text(s[4..4 + len.value]), 4 + len.value)
    else
      var w := ReadWord(s, NumberWidth(k));
      if w.Bad? then Bad else Got(Num(NumberOf(k, w.value)), w.used)
  }

  function ReadItems4(k: AtomKind, s: seq<byte>, size: int): (r: Read<seq<Atom>>)
    ensures r.Got? ==> r.used <= |s|
    decreases |s|
  {
    if size <= 0 then Got([], 0)
    else
      var a := ReadAtom4(k, s);
      if a.Bad? then Bad
      else
        var rest := ReadItems4(k, s[a.used..], size - a.used);
        if rest.Bad? then Bad else Got([a.value] + rest.value, a.used + rest.used)
  }

  /** The length in front of a list counts bytes, but one for a bool although four are written. */
  function ReadPayload4(kind: Kind, s: seq<byte>): (r: Read<Value>)
    requires !kind.Child?
    ensures r.Got? ==> r.used <= |s|
  {
    match kind
    case Single(k) =>
      var a := ReadAtom4(k, s);
      if a.Bad? then Bad else Got(One(a.value), a.used)
    case Rep(k) =>
      var len := ReadWord(s, 4);
      if len.Bad? then Bad
      else
        var items := ReadItems4(k, s[4..], if k.Bool? || k.BoolByte? then 4 * len.value else len.value);
        if items.Bad? then Bad else Got(Many(items.value), 4 + items.used)
  }

  // Lengths that fit in the words in front of them.
  predicate Fits4(kind: Kind, v: Value)
    requires FitsLeaf(kind, v)
  {
    match kind
    case Single(_) => v.a.Text? ==> |v.a.s| < TWO32
    case Rep(k) =>
      && ItemsCounted(FixedWidth, k, v.items) < TWO32
      && forall i :: 0 <= i < |v.items| && v.items[i].Text? ==> |v.items[i].s| < TWO32
  }

  lemma NumberBack(k: AtomKind, n: int)
    requires !IsText(k) && FitsAtom(k, Num(n))
    ensures NumberWidth(k) == Width(k) && Raw(k, n) < Modulus(k)
    ensures Num(NumberOf(k, Raw(k, n))) == NormalAtom(k, Num(n))
  {
    var m := Modulus(k);
    if IsBool(k) {
      SmallMod(Raw(k, n), m);
    } else {
      hide ToSigned;
      if IsSigned(k) {
        SignedBack(n, m);
      } else {
        SmallMod(n, m);
      }
    }
  }

  lemma AtomBack(k: AtomKind, a: Atom, rest: seq<byte>)
    requires FitsAtom(k, a) && (a.Text? ==> |a.s| < TWO32)
    ensures ReadAtom4(k, AtomBytes(FixedWidth, k, a) + rest)
         == Got(NormalAtom(k, a), |AtomBytes(FixedWidth, k, a)|)
  {
    hide LittleEndian, ReadWord, Raw, NumberOf, NormalAtom, Pow256;
    WordSizes();
    if a.Text? {
      TextIsNormal(k, a);
      SmallMod(|a.s|, TWO32);
      var len, w := LittleEndian(|a.s|, 4), LittleEndian(|a.s|, 4) + a.s;
      ReadWordBack(|a.s|, 4, a.s + rest);
      assert w + rest == len + (a.s + rest);
      assert (w + rest)[4..4 + |a.s|] == a.s;
    } else {
      NumberBack(k, a.n);
      ReadWordBack(Raw(k, a.n), Width(k), rest);
    }
  }

  lemma NoItems4(k: AtomKind, s: seq<byte>)
    ensures ReadItems4(k, s, 0) == Got([], 0)
  {
  }

  lemma Items4Step(k: AtomKind, a: seq<byte>, t: seq<byte>, n: nat)
    requires ReadAtom4(k, a + t).Got? && ReadAtom4(k, a + t).used == |a| && ReadItems4(k, t, n).Got?
    ensures ReadItems4(k, a + t, |a| + n)
         == Got([ReadAtom4(k, a + t).value] + ReadItems4(k, t, n).value, |a| + ReadItems4(k, t, n).used)
  {
    hide ReadAtom4;
    assert (a + t)[|a|..] == t;
  }

  lemma {:induction false} ItemsBack(k: AtomKind, items: seq<Atom>, rest: seq<byte>)
    requires FitsAll(k, items)
    requires forall i :: 0 <= i < |items| && items[i].Text? ==> |items[i].s| < TWO32
    ensures var w := ItemsBytes(FixedWidth, k, items);
      ReadItems4(k, w + rest, |w|) == Got(NormalItems(k, items), |w|)
  {
    hide AtomBytes, ReadAtom4, ReadItems4, NormalAtom;
    if items == [] {
      NoItems4(k, ItemsBytes(FixedWidth, k, items) + rest);
    } else {
      var a, tail := AtomBytes(FixedWidth, k, items[0]), ItemsBytes(FixedWidth, k, items[1..]);
      AtomBack(k, items[0], tail + rest);
      ItemsBack(k, items[1..], rest);
      Items4Step(k, a, tail + rest, |tail|);
      assert (a + tail) + rest == a + (tail + rest);
    }
  }

  /** What the length in front of a list says about the bytes behind it. */
  lemma {:induction false} CountedBytes(k: AtomKind, items: seq<Atom>)
    requires FitsAll(k, items)
    ensures var n := |ItemsBytes(FixedWidth, k, items)|;
      if IsBool(k) then n == 4 * |items| && ItemsCounted(FixedWidth, k, items) == |items|
      else ItemsCounted(FixedWidth, k, items) == n
  {
    if items != [] {
      CountedBytes(k, items[1..]);
      AtomSizeExact(FixedWidth, k, items[0]);
    }
  }

  lemma ListBack(k: AtomKind, items: seq<Atom>, rest: seq<byte>)
    requires FitsLeaf(Rep(k), Many(items)) && Fits4(Rep(k), Many(items))
    ensures var w := Payload(FixedWidth, Rep(k), Many(items));
      ReadPayload4(Rep(k), w + rest) == Got(Many(NormalItems(k, items)), |w|)
  {
    hide LittleEndian, ReadWord, ItemsBytes, ItemsCounted, ReadItems4, NormalItems, Pow256;
    WordSizes();
    var n, b := ItemsCounted(FixedWidth, k, items), ItemsBytes(FixedWidth, k, items);
    CountedBytes(k, items);
    SmallMod(n, TWO32);
    var len, w := LittleEndian(n, 4), LittleEndian(n, 4) + b;
    ReadWordBack(n, 4, b + rest);
    assert w + rest == len + (b + rest);
    assert (w + rest)[4..] == b + rest;
    ItemsBack(k, items, rest);
  }

  /** Every value of every kind is read back from its fixed-width payload, in front of any suffix. */
  lemma PayloadBack(kind: Kind, v: Value, rest: seq<byte>)
    requires FitsLeaf(kind, v) && Fits4(kind, v)
    ensures var w := Payload(FixedWidth, kind, v);
      ReadPayload4(kind, w + rest) == Got(Normal(kind, v), |w|)
  {
    hide AtomBytes, ReadAtom4, ReadItems4, NormalAtom, NormalItems;
    match kind
    case Single(k) => AtomBack(k, v.a, rest);
    case Rep(k) => ListBack(k, v.items, rest);
  }

  lemma SingleCounted(k: AtomKind, a: Atom)
    requires FitsAtom(k, a)
    ensures CountedSize(FixedWidth, k, a) == if IsBool(k) then 1 else AtomSize(FixedWidth, k, a)
    ensures IsBool(k) ==> AtomSize(FixedWidth, k, a) == 4
  {
  }

  // The number of bools in a field.
  function Bools(kind: Kind, v: Value): nat
    requires FitsLeaf(kind, v)
  {
    if !IsBool(kind.atom) then 0 else if kind.Single? then 1 else |v.items|
  }

  /** The 16-bit prefix is the length of the body exactly when that is below 65536 and no bool is in it:
      the prefix counts one byte per bool, the writer writes four. */
  lemma PrefixExact4(fd: FieldDesc, v: Value)
    requires FitsLeaf(fd.kind, v)
    ensures Prefix16(FixedWidth, fd, v) == |Body(FixedWidth, fd, v)|
       <==> |Body(FixedWidth, fd, v)| < TWO16 && (IsBool(fd.kind.atom) ==> v == Many([]))
    ensures Prefix16(FixedWidth, fd, v) == (|Body(FixedWidth, fd, v)| - 3 * Bools(fd.kind, v)) % TWO16
  {
    hide AtomBytes, ItemsBytes, LittleEndian, ItemsCounted, AtomSize;
    match fd.kind
    case Single(k) =>
      AtomSizeExact(FixedWidth, k, v.a);
      SingleCounted(k, v.a);
    case Rep(k) =>
      CountedBytes(k, v.items);
      CounterAdds16(ItemsCounted(FixedWidth, k, v.items), 8);
  }

  // ----- a stream of fields -----

  datatype Framed = Framed(length: nat, value: Value)

  /** A 16-bit length, the tag of the field as a word, and the payload. */
  function ReadFrame4(fd: FieldDesc, s: seq<byte>): (r: Read<Framed>)
    requires !fd.kind.Child?
    ensures r.Got? ==> r.used <= |s|
  {
    var len := ReadWord(s, 2);
    if len.Bad? then Bad
    else
      var tag := ReadWord(s[2..], 4);
      if tag.Bad? || tag.value != fd.id * 8 + WireType(fd.kind) then Bad
      else
        var v := ReadPayload4(fd.kind, s[6..]);
        if v.Bad? then Bad else Got(Framed(len.value, v.value), 6 + v.used)
  }

  lemma FrameBack(fd: FieldDesc, v: Value, rest: seq<byte>)
    requires FitsLeaf(fd.kind, v) && Fits4(fd.kind, v) && fd.id < 128
    ensures var w := Frame(FixedWidth, fd, v);
      ReadFrame4(fd, w + rest) == Got(Framed(Prefix16(FixedWidth, fd, v), Normal(fd.kind, v)), |w|)
  {
    hide Payload, ReadPayload4, LittleEndian, ReadWord, Prefix16, Normal, Fits4, Pow256;
    WordSizes();
    var n, t, p := Prefix16(FixedWidth, fd, v), fd.id * 8 + WireType(fd.kind), Payload(FixedWidth, fd.kind, v);
    var x, y := LittleEndian(n, 2), LittleEndian(t, 4);
    var w := Frame(FixedWidth, fd, v) + rest;
    assert w == x + (y + (p + rest));
    assert w[2..] == y + (p + rest);
    assert w[6..] == p + rest;
    ReadWordBack(n, 2, y + (p + rest));
    ReadWordBack(t, 4, p + rest);
    PayloadBack(fd.kind, v, rest);
  }

  /** Reads one field for every descriptor. */
  ghost function ReadStream4(fds: seq<FieldDesc>, s: seq<byte>): (r: Read<seq<Value>>)
    requires forall i :: 0 <= i < |fds| ==> !fds[i].kind.Child?
    ensures r.Got? ==> r.used <= |s|
  {
    if fds == [] then Got([], 0)
    else
      var f := ReadFrame4(fds[0], s);
      if f.Bad? then Bad
      else
        var rest := ReadStream4(fds[1..], s[f.used..]);
        if rest.Bad? then Bad else Got([f.value.value] + rest.value, f.used + rest.used)
  }

  // The fields that are written, and their values as they come back.
  ghost function Descriptors(skip: bool, ls: seq<Leaf>): (r: seq<FieldDesc>)
    requires AllFit(ls)
    ensures forall i :: 0 <= i < |r| ==> !r[i].kind.Child?
  {
    if ls == [] then []
    else (if skip && Long(ls[0].v) then [] else [ls[0].fd]) + Descriptors(skip, ls[1..])
  }

  ghost function Values(skip: bool, ls: seq<Leaf>): seq<Value>
    requires AllFit(ls)
  {
    if ls == [] then []
    else (if skip && Long(ls[0].v) then [] else [Normal(ls[0].fd.kind, ls[0].v)]) + Values(skip, ls[1..])
  }

  ghost predicate AllFit4(ls: seq<Leaf>) {
    forall l :: l in ls ==> FitsLeaf(l.fd.kind, l.v) && Fits4(l.fd.kind, l.v)
  }

  lemma Stream4Step(fd: FieldDesc, fds: seq<FieldDesc>, x: seq<byte>, tail: seq<byte>)
    requires !fd.kind.Child? && forall i :: 0 <= i < |fds| ==> !fds[i].kind.Child?
    requires ReadFrame4(fd, x + tail).Got? && ReadFrame4(fd, x + tail).used == |x| && ReadStream4(fds, tail).Got?
    ensures forall i :: 0 <= i < |[fd] + fds| ==> !([fd] + fds)[i].kind.Child?
    ensures ReadStream4([fd] + fds, x + tail)
         == Got([ReadFrame4(fd, x + tail).value.value] + ReadStream4(fds, tail).value,
                |x| + ReadStream4(fds, tail).used)
  {
    hide ReadFrame4;
    assert ([fd] + fds)[1..] == fds;
    assert (x + tail)[|x|..] == tail;
  }

  /** The fixed-width stream of any leaves, with either skip flag: a reader that knows the fields gets
      every value back in order and stops at the suffix. */
  lemma {:induction false} StreamBack(skip: bool, ls: seq<Leaf>, rest: seq<byte>)
    requires AllTagged(ls) && AllFit4(ls)
    ensures var w := Flat(Inline(FixedWidth, skip), ls);
      ReadStream4(Descriptors(skip, ls), w + rest) == Got(Values(skip, ls), |w|)
  {
    hide Frame, Long, ReadFrame4, Normal, Fits4;
    var st := Inline(FixedWidth, skip);
    if ls == [] {
      FlatNone(st);
    } else {
      var l, tail := ls[0], Flat(st, ls[1..]);
      StreamBack(skip, ls[1..], rest);
      if skip && Long(l.v) {
        assert Flat(st, ls) == tail;
        assert Descriptors(skip, ls) == Descriptors(skip, ls[1..]) && Values(skip, ls) == Values(skip, ls[1..]);
      } else {
        var x := Frame(FixedWidth, l.fd, l.v);
        FrameBack(l.fd, l.v, tail + rest);
        Stream4Step(l.fd, Descriptors(skip, ls[1..]), x, tail + rest);
        assert (x + tail) + rest == x + (tail + rest);
      }
    }
  }

  /** The same for what SerializeToString_DFS writes for a tree. */
  lemma TreeBack(sch: Schema, m: Message, skip: bool, rest: seq<byte>)
    requires ValidSchema(sch) && Typed(sch, m) && AllFit4(AllLeaves(sch, m))
    ensures var ls := AllLeaves(sch, m);
      var w := Flat(Inline(FixedWidth, skip), ls);
      ReadStream4(Descriptors(skip, ls), w + rest) == Got(Values(skip, ls), |w|)
  {
    TreeTagged(sch, m);
    StreamBack(skip, AllLeaves(sch, m), rest);
  }
}
