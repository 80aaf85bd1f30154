/** The bytes of one field: the `Write*ToArray` writers and size functions of include/encode.h
    (base-128) and include/no_encode.h (fixed width), the readers of include/decode.h, and the
    64-byte blocks of the side stream (include/encode_main.h, SendMetadataToFPGA). */
module Wire {
  import opened Words
  import opened Varint
  import opened Messages

  datatype Codec = Base128 | FixedWidth

  // WriteVarint32ToArray and VarintSize32.
  function Word32(c: Codec, v: nat): seq<byte> {
    if c.Base128? then EncodeVarint(v) else LittleEndian(v, 4)
  }

  function Word32Size(c: Codec, v: nat): nat {
    if c.Base128? then VarintSize(v) else 4
  }

  // ----- one value without its tag: the Write*NoTagToArray writers -----

  // The bits of the value in a word of its own width.
  function Raw(k: AtomKind, n: int): nat {
    if IsBool(k) then (if n != 0 then 1 else 0) else n % Modulus(k)
  }

  // The uint64_t a varint writer starts from: 32-bit signed values are sign-extended.
  function Extended(k: AtomKind, n: int): nat {
    if IsBool(k) then (if n != 0 then 1 else 0) else n % TWO64
  }

  predicate ByCopy(c: Codec, k: AtomKind) {
    IsFixed(k) || c.FixedWidth?
  }

  function NumBytes(c: Codec, k: AtomKind, n: int): seq<byte> {
    if ByCopy(c, k) then LittleEndian(Raw(k, n), Width(k)) else EncodeVarint(Extended(k, n))
  }

  function AtomBytes(c: Codec, k: AtomKind, a: Atom): seq<byte> {
    if a.Num? then NumBytes(c, k, a.n) else Word32(c, |a.s| % TWO32) + a.s
  }

  // Int32Size, Int64Size, ..., StringSize and the constants ByteSizeLong adds.
  function AtomSize(c: Codec, k: AtomKind, a: Atom): nat {
    if a.Text? then |a.s| + Word32Size(c, |a.s| % TWO32)
    else if ByCopy(c, k) then Width(k)
    else if IsBool(k) then 1
    else VarintSize(Extended(k, a.n))
  }

  // The size that goes into length prefixes: SerializeToString_DFS and WriteRepeatedBoolToArray
  // count one byte per bool in both codecs.
  function CountedSize(c: Codec, k: AtomKind, a: Atom): nat {
    if IsBool(k) then 1 else AtomSize(c, k, a)
  }

  lemma WordSizeExact(c: Codec, v: nat)
    requires v < TWO64
    ensures |Word32(c, v)| == Word32Size(c, v)
  {
    if c.Base128? {
      VarintSizeExact(v);
    }
  }

  lemma AtomSizeExact(c: Codec, k: AtomKind, a: Atom)
    requires FitsAtom(k, a)
    ensures |AtomBytes(c, k, a)| == AtomSize(c, k, a) > 0
    ensures c.Base128? ==> CountedSize(c, k, a) == AtomSize(c, k, a)
  {
    if a.Text? {
      WordSizeExact(c, |a.s| % TWO32);
    } else if !ByCopy(c, k) {
      VarintSizeExact(Extended(k, a.n));
    }
  }

  lemma SignedBack64(n: int)
    requires -TWO63 <= n < TWO64
    ensures n < TWO63 ==> ToSigned(n % TWO64, TWO64) == n
    ensures n >= 0 ==> n % TWO64 == n
    ensures n < 0 ==> TWO63 <= n % TWO64 < TWO64
  {
    assert n < 0 ==> n % TWO64 == n + TWO64;
  }

  /** A number that is not copied goes out as a 64-bit varint: a 64-bit reader gets it back with its sign,
      so a negative one takes ten bytes whatever its width. */
  lemma SignExtended(k: AtomKind, n: int, rest: seq<byte>)
    requires !IsText(k) && !IsFixed(k) && FitsAtom(k, Num(n))
    ensures var w := AtomBytes(Base128, k, Num(n));
      var r := ReadVarint(w + rest, TWO64);
      && r.Got? && r.used == |w|
      && (if k.Bool? || k.BoolByte? then r.value == (if n != 0 then 1 else 0)
          else if k.UInt32? || k.UInt64? then r.value == n
          else ToSigned(r.value, TWO64) == n)
      && (n < 0 ==> |w| == 10)
  {
    hide EncodeVarint, ReadVarint, ToSigned, Log2Floor, OrOne;
    var v := Extended(k, n);
    VarintRoundTrip(v, rest, TWO64);
    if !IsBool(k) {
      SignedBack64(n);
      if n < 0 {
        VarintSizeExact(v);
        Log2Top(v);
      }
    }
  }

  // ----- repeated fields -----

  function ItemsBytes(c: Codec, k: AtomKind, items: seq<Atom>): seq<byte> {
    if items == [] then [] else AtomBytes(c, k, items[0]) + ItemsBytes(c, k, items[1..])
  }

  function ItemsSize(c: Codec, k: AtomKind, items: seq<Atom>): nat {
    if items == [] then 0 else AtomSize(c, k, items[0]) + ItemsSize(c, k, items[1..])
  }

  function ItemsCounted(c: Codec, k: AtomKind, items: seq<Atom>): nat {
    if items == [] then 0 else CountedSize(c, k, items[0]) + ItemsCounted(c, k, items[1..])
  }

  lemma {:induction false} ItemsSizeExact(c: Codec, k: AtomKind, items: seq<Atom>)
    requires FitsAll(k, items)
    ensures |ItemsBytes(c, k, items)| == ItemsSize(c, k, items)
    ensures c.Base128? ==> ItemsCounted(c, k, items) == ItemsSize(c, k, items)
  {
    if items != [] {
      AtomSizeExact(c, k, items[0]);
      ItemsSizeExact(c, k, items[1..]);
    }
  }

  lemma {:induction false} ItemsSnoc(c: Codec, k: AtomKind, items: seq<Atom>, i: nat)
    requires i < |items|
    ensures ItemsBytes(c, k, items[..i + 1]) == ItemsBytes(c, k, items[..i]) + AtomBytes(c, k, items[i])
  {
    hide AtomBytes;
    if i == 0 {
      assert items[..1] == [items[0]];
    } else {
      ItemsSnoc(c, k, items[1..], i - 1);
      assert items[..i + 1][1..] == items[1..][..i];
      assert items[..i][1..] == items[1..][..i - 1];
    }
  }

  lemma {:induction false} SizesSnoc(c: Codec, k: AtomKind, items: seq<Atom>, i: nat)
    requires i < |items|
    ensures ItemsSize(c, k, items[..i + 1]) == ItemsSize(c, k, items[..i]) + AtomSize(c, k, items[i])
    ensures ItemsCounted(c, k, items[..i + 1]) == ItemsCounted(c, k, items[..i]) + CountedSize(c, k, items[i])
  {
    hide AtomSize, CountedSize;
    if i == 0 {
      assert items[..1] == [items[0]];
    } else {
      SizesSnoc(c, k, items[1..], i - 1);
      assert items[..i + 1][1..] == items[1..][..i];
      assert items[..i][1..] == items[1..][..i - 1];
    }
  }

  lemma {:induction false} ItemsPrefix(c: Codec, k: AtomKind, items: seq<Atom>, i: nat)
    requires i <= |items|
    ensures |ItemsBytes(c, k, items[..i])| <= |ItemsBytes(c, k, items)|
    decreases |items| - i
  {
    hide AtomBytes, ItemsBytes;
    if i < |items| {
      ItemsSnoc(c, k, items, i);
      ItemsPrefix(c, k, items, i + 1);
    } else {
      assert items[..i] == items;
    }
  }

  // ----- a field with its tag, and framed by a 16-bit length -----

  function WireType(kind: Kind): nat {
    match kind
    case Child => 2
    case Rep(_) => 2
    case Single(k) =>
      if IsText(k) then 2
      else if k.Double? || k.Fix64? then 1
      else if k.Float? || k.Fix32? then 5
      else 0
  }

  function TagBytes(c: Codec, fd: FieldDesc): seq<byte> {
    Word32(c, fd.id * 8 + WireType(fd.kind))
  }

  // TAG_SIZE
  function TagSize(c: Codec, id: nat): nat {
    if c.FixedWidth? then 4 else if id < 16 then 1 else 2
  }

  lemma TagSizeExact(c: Codec, fd: FieldDesc)
    requires fd.id < 128
    ensures |TagBytes(c, fd)| == TagSize(c, fd.id)
  {
    var v := fd.id * 8 + WireType(fd.kind);
    if c.Base128? && v >= 128 {
      assert EncodeVarint(v) == [v % 128 + 128] + EncodeVarint(v / 128);
    }
  }

  function Payload(c: Codec, kind: Kind, v: Value): seq<byte>
    requires FitsLeaf(kind, v)
  {
    match kind
    case Single(k) => AtomBytes(c, k, v.a)
    case Rep(k) => Word32(c, ItemsCounted(c, k, v.items) % TWO32) + ItemsBytes(c, k, v.items)
  }

  function Body(c: Codec, fd: FieldDesc, v: Value): seq<byte>
    requires FitsLeaf(fd.kind, v)
  {
    TagBytes(c, fd) + Payload(c, fd.kind, v)
  }

  /** What ByteSizeLong adds for a field, less the two bytes of its length prefix. */
  function BodySize(c: Codec, fd: FieldDesc, v: Value): nat
    requires FitsLeaf(fd.kind, v)
  {
    match fd.kind
    case Single(k) => TagSize(c, fd.id) + AtomSize(c, k, v.a)
    case Rep(k) =>
      var n := ItemsSize(c, k, v.items);
      n + TagSize(c, fd.id) + Word32Size(c, n % TWO32)
  }

  /** The uint16_t `current_field_size` that SerializeToString_DFS accumulates and writes. */
  function Prefix16(c: Codec, fd: FieldDesc, v: Value): (r: nat)
    requires FitsLeaf(fd.kind, v)
    ensures r < TWO16
  {
    match fd.kind
    case Single(k) => (TagSize(c, fd.id) + CountedSize(c, k, v.a)) % TWO16
    case Rep(k) =>
      var n := ItemsCounted(c, k, v.items) % TWO16;
      (n + TagSize(c, fd.id) + Word32Size(c, n)) % TWO16
  }

  function Frame(c: Codec, fd: FieldDesc, v: Value): seq<byte>
    requires FitsLeaf(fd.kind, v)
  {
    LittleEndian(Prefix16(c, fd, v), 2) + Body(c, fd, v)
  }

  /** The predicted size is the written size for every value, however long: both sides truncate the
      inner length to 32 bits alike. */
  lemma BodySizeExact(c: Codec, fd: FieldDesc, v: Value)
    requires FitsLeaf(fd.kind, v) && fd.id < 128
    ensures |Body(c, fd, v)| == BodySize(c, fd, v)
  {
    TagSizeExact(c, fd);
    match fd.kind
    case Single(k) => AtomSizeExact(c, k, v.a);
    case Rep(k) =>
      ItemsSizeExact(c, k, v.items);
      WordSizeExact(c, ItemsCounted(c, k, v.items) % TWO32);
  }

  /** The 16-bit prefix is the length of the body exactly when the body fits in 16 bits. */
  lemma PrefixExact(fd: FieldDesc, v: Value)
    requires FitsLeaf(fd.kind, v) && fd.id < 128
    ensures Prefix16(Base128, fd, v) == |Body(Base128, fd, v)| <==> |Body(Base128, fd, v)| < TWO16
  {
    hide AtomBytes, ItemsBytes, AtomSize, ItemsSize, VarintSize, Body, EncodeVarint;
    BodySizeExact(Base128, fd, v);
    match fd.kind
    case Single(k) => AtomSizeExact(Base128, k, v.a);
    case Rep(k) =>
      ItemsSizeExact(Base128, k, v.items);
      if |Body(Base128, fd, v)| < TWO16 {
        assert ItemsCounted(Base128, k, v.items) < TWO16;
      }
  }

  /** Beyond 65535 the prefix is the length reduced to 16 bits, except that it counts the inner length of
      a list at the size that its low 16 bits would take. */
  lemma PrefixWraps(fd: FieldDesc, v: Value)
    requires FitsLeaf(fd.kind, v) && fd.id < 128
    ensures var b := |Body(Base128, fd, v)|;
      if fd.kind.Single? then Prefix16(Base128, fd, v) == b % TWO16
      else
        var n := |ItemsBytes(Base128, fd.kind.atom, v.items)|;
        Prefix16(Base128, fd, v) == (b - VarintSize(n % TWO32) + VarintSize(n % TWO16)) % TWO16
  {
    hide AtomBytes, ItemsBytes, AtomSize, ItemsSize, VarintSize, Body, EncodeVarint, CountedSize, ItemsCounted;
    BodySizeExact(Base128, fd, v);
    match fd.kind
    case Single(k) => AtomSizeExact(Base128, k, v.a);
    case Rep(k) =>
      ItemsSizeExact(Base128, k, v.items);
      var n := ItemsSize(Base128, k, v.items);
      CounterAdds16(n, TagSize(Base128, fd.id) + VarintSize(n % TWO16));
  }

  // ----- reading a field back -----

  // What the parser stores from the word it read.
  function FromRaw(k: AtomKind, u: nat): int {
    if k.Bool? then (if u != 0 then 1 else 0)
    else if k.BoolByte? then u % 256
    else if IsSigned(k) then ToSigned(u, Modulus(k))
    else u
  }

  // A length of 2^31 or more turns negative in `int string_length`, and assign throws.
  function ReadText(s: seq<byte>): (r: Read<Atom>)
    ensures r.Got? ==> 0 < r.used <= |s|
  {
    var len := ReadVarint(s, TWO32);
    if len.Bad? || len.value >= TWO31 || len.used + len.value > |s| then Bad
    else Got(Text(s[len.used..len.used + len.value]), len.used + len.value)
  }

  function ReadAtom(k: AtomKind, s: seq<byte>): (r: Read<Atom>)
    ensures r.Got? ==> 0 < r.used <= |s|
  {
    if IsText(k) then ReadText(s)
    else
      var w := if IsFixed(k) then ReadWord(s, Width(k)) else ReadVarint(s, Modulus(k));
      if w.Bad? then Bad else Got(Num(FromRaw(k, w.value)), w.used)
  }

  // `while (current_buffer_addr - before < size)`
  function ReadItems(k: AtomKind, s: seq<byte>, size: int): (r: Read<seq<Atom>>)
    ensures r.Got? ==> r.used <= |s|
    decreases |s|
  {
    if size <= 0 then Got([], 0)
    else
      var a := ReadAtom(k, s);
      if a.Bad? then Bad
      else
        var rest := ReadItems(k, s[a.used..], size - a.used);
        if rest.Bad? then Bad else Got([a.value] + rest.value, a.used + rest.used)
  }

  function ReadPayload(kind: Kind, s: seq<byte>): (r: Read<Value>)
    requires !kind.Child?
    ensures r.Got? ==> r.used <= |s|
  {
    match kind
    case Single(k) =>
      var a := ReadAtom(k, s);
      if a.Bad? then Bad else Got(One(a.value), a.used)
    case Rep(k) =>
      var len := ReadVarint(s, TWO32);
      if len.Bad? then Bad
      else
        var items := ReadItems(k, s[len.used..], len.value);
        if items.Bad? then Bad else Got(Many(items.value), len.used + items.used)
  }

  /** ReadFieldLength and ReadVarint32 for the tag; both values are ignored by the parser. */
  function ReadHeader(s: seq<byte>): (r: Read<nat>)
    ensures r.Got? ==> r.used <= |s|
  {
    if |s| < 2 then Bad
    else
      var tag := ReadVarint(s[2..], TWO32);
      if tag.Bad? then Bad else Got(tag.value, 2 + tag.used)
  }

  // What a fresh object holds in a field before parsing.
  function Blank(kind: Kind): Value
    requires !kind.Child?
  {
    match kind
    case Single(k) => One(if IsText(k) then Text([]) else Num(0))
    case Rep(_) => Many([])
  }

  // Repeated bools come back as 0 or 1; everything else comes back as it was.
  function NormalAtom(k: AtomKind, a: Atom): Atom
    requires FitsAtom(k, a)
  {
    if k.BoolByte? then Num(if a.n != 0 then 1 else 0) else a
  }

  function NormalItems(k: AtomKind, items: seq<Atom>): seq<Atom>
    requires FitsAll(k, items)
  {
    if items == [] then [] else [NormalAtom(k, items[0])] + NormalItems(k, items[1..])
  }

  function Normal(kind: Kind, v: Value): Value
    requires FitsLeaf(kind, v)
  {
    match kind
    case Single(k) => One(NormalAtom(k, v.a))
    case Rep(k) => Many(NormalItems(k, v.items))
  }

  /** The length in front of a string of any size, in either codec, is its size reduced to 32 bits; the
      string follows whole. */
  lemma TextLengthTruncates(k: AtomKind, s: seq<byte>, rest: seq<byte>)
    ensures var w := AtomBytes(Base128, k, Text(s)) + rest;
      var len := ReadVarint(w, TWO32);
      len.Got? && len.value == |s| % TWO32 && w[len.used..] == s + rest
    ensures var w := AtomBytes(FixedWidth, k, Text(s)) + rest;
      ReadWord(w, 4) == Got(|s| % TWO32, 4) && w[4..] == s + rest
  {
    hide EncodeVarint, ReadVarint, LittleEndian, ReadWord, Pow256;
    WordSizes();
    var n := |s| % TWO32;
    SmallMod(n, TWO32);
    VarintRoundTrip(n, s + rest, TWO32);
    ReadWordBack(n, 4, s + rest);
    var x, y := EncodeVarint(n), LittleEndian(n, 4);
    assert (x + s) + rest == x + (s + rest) && (x + (s + rest))[|x|..] == s + rest;
    assert (y + s) + rest == y + (s + rest) && (y + (s + rest))[4..] == s + rest;
  }

  /** The same for the length in front of a list, in bytes. */
  lemma ListLengthTruncates(k: AtomKind, items: seq<Atom>, rest: seq<byte>)
    requires FitsAll(k, items)
    ensures var w := Payload(Base128, Rep(k), Many(items)) + rest;
      var len := ReadVarint(w, TWO32);
      && len.Got? && len.value == |ItemsBytes(Base128, k, items)| % TWO32
      && w[len.used..] == ItemsBytes(Base128, k, items) + rest
  {
    hide EncodeVarint, ReadVarint, ItemsBytes, ItemsCounted, ItemsSize;
    ItemsSizeExact(Base128, k, items);
    var b := ItemsBytes(Base128, k, items);
    var n := |b| % TWO32;
    SmallMod(n, TWO32);
    VarintRoundTrip(n, b + rest, TWO32);
    var x := EncodeVarint(n);
    assert (x + b) + rest == x + (b + rest) && (x + (b + rest))[|x|..] == b + rest;
  }

  /** The lengths the formats can carry: strings below 2^31, repeated payloads below 2^32. */
  predicate InLimits(kind: Kind, v: Value)
    requires FitsLeaf(kind, v)
  {
    match kind
    case Single(_) => v.a.Text? ==> |v.a.s| < TWO31
    case Rep(k) =>
      && |v.items| < TWO31
      && ItemsSize(Base128, k, v.items) < TWO32
      && forall i :: 0 <= i < |v.items| && v.items[i].Text? ==> |v.items[i].s| < TWO31
  }

  lemma TextIsNormal(k: AtomKind, a: Atom)
    requires FitsAtom(k, a) && a.Text?
    ensures NormalAtom(k, a) == a && IsText(k)
  {
  }

  lemma RawRoundTrip(k: AtomKind, a: Atom)
    requires FitsAtom(k, a) && a.Num?
    ensures Num(FromRaw(k, Raw(k, a.n))) == NormalAtom(k, a)
    ensures Raw(k, a.n) < Modulus(k)
    ensures Extended(k, a.n) < TWO64 && Extended(k, a.n) % Modulus(k) == Raw(k, a.n)
  {
    var m := Modulus(k);
    if IsBool(k) {
      SmallMod(Raw(k, a.n), m);
    } else {
      hide ToSigned;
      TruncateExtended(a.n);
      assert Extended(k, a.n) % m == a.n % m;
      if IsSigned(k) {
        SignedBack(a.n, m);
      } else {
        SmallMod(a.n, m);
      }
    }
  }

  lemma TextRoundTrip(s: seq<byte>, rest: seq<byte>)
    requires |s| < TWO31
    ensures var w := EncodeVarint(|s|) + s; ReadText(w + rest) == Got(Text(s), |w|)
  {
    hide EncodeVarint, ReadVarint;
    var len, w := EncodeVarint(|s|), EncodeVarint(|s|) + s;
    VarintRoundTrip(|s|, s + rest, TWO32);
    assert w + rest == len + (s + rest);
    assert (w + rest)[|len|..|len| + |s|] == s;
  }

  lemma AtomRoundTrip(k: AtomKind, a: Atom, rest: seq<byte>)
    requires FitsAtom(k, a) && (a.Text? ==> |a.s| < TWO31)
    ensures ReadAtom(k, AtomBytes(Base128, k, a) + rest)
         == Got(NormalAtom(k, a), |AtomBytes(Base128, k, a)|)
  {
    hide EncodeVarint, ReadVarint, ReadWord, Extended, Raw, FromRaw, NormalAtom, LittleEndian, ReadText;
    if a.Text? {
      TextRoundTrip(a.s, rest);
      TextIsNormal(k, a);
    } else {
      RawRoundTrip(k, a);
      if IsFixed(k) {
        WordSizes();
        ReadWordBack(Raw(k, a.n), Width(k), rest);
      } else {
        VarintRoundTrip(Extended(k, a.n), rest, Modulus(k));
      }
    }
  }

  lemma ReadNoItems(k: AtomKind, s: seq<byte>)
    ensures ReadItems(k, s, 0) == Got([], 0)
  {
  }

  lemma ReadItemsStep(k: AtomKind, a: seq<byte>, t: seq<byte>, n: nat)
    requires ReadAtom(k, a + t).Got? && ReadAtom(k, a + t).used == |a| && ReadItems(k, t, n).Got?
    ensures ReadItems(k, a + t, |a| + n)
         == Got([ReadAtom(k, a + t).value] + ReadItems(k, t, n).value, |a| + ReadItems(k, t, n).used)
  {
    hide ReadAtom;
    assert (a + t)[|a|..] == t;
  }

  lemma ReadItemsFirst(k: AtomKind, s: seq<byte>, size: int)
    requires size > 0
    ensures var a := ReadAtom(k, s);
      ReadItems(k, s, size) == (if a.Bad? then Bad else
        var rest := ReadItems(k, s[a.used..], size - a.used);
        if rest.Bad? then Bad else Got([a.value] + rest.value, a.used + rest.used))
  {
    hide ReadAtom;
  }

  lemma NegativeItems(k: AtomKind, s: seq<byte>, size: int)
    requires size <= 0
    ensures ReadItems(k, s, size) == Got([], 0)
  {
  }

  lemma TextTooLong(s: seq<byte>, w: seq<byte>)
    requires |s| >= TWO31 && ReadVarint(w, TWO32).Got? && ReadVarint(w, TWO32).value == |s| % TWO32
    ensures ReadText(w).Got? ==> ReadText(w).value != Text(s)
  {
    hide ReadVarint;
    var n := |s| % TWO32;
    if |s| < TWO32 { SmallMod(|s|, TWO32); }
    var r := ReadText(w);
    if r.Got? {
      assert |r.value.s| == n < TWO31;
    }
  }

  /** A string comes back from its bytes exactly if it is shorter than 2^31; from there on its length is
      negative for the reader, and from 2^32 on it is another length. */
  lemma TextExact(k: AtomKind, s: seq<byte>, rest: seq<byte>)
    requires IsText(k)
    ensures var w := AtomBytes(Base128, k, Text(s));
      ReadAtom(k, w + rest) == Got(Text(s), |w|) <==> |s| < TWO31
  {
    hide EncodeVarint, ReadVarint, ReadText;
    TextLengthTruncates(k, s, rest);
    var w := AtomBytes(Base128, k, Text(s));
    if |s| < TWO31 {
      SmallMod(|s|, TWO32);
      TextRoundTrip(s, rest);
    } else {
      TextTooLong(s, w + rest);
    }
  }

  /** The element loop on any bytes: it returns the elements that start before `size`, all of them, and
      fails exactly when one of those cannot be read. `p` is where the last one starts. */
  lemma {:induction false} ItemsStop(k: AtomKind, s: seq<byte>, size: int) returns (p: nat)
    requires size > 0
    ensures p < size && p <= |s| && ReadItems(k, s, p).Got? && ReadItems(k, s, p).used == p
    ensures var before, r := ReadItems(k, s, p).value, ReadItems(k, s, size);
      var a := ReadAtom(k, s[p..]);
      if r.Bad? then a.Bad?
      else a.Got? && r == Got(before + [a.value], p + a.used) && size <= p + a.used
    decreases |s|
  {
    hide ReadAtom, ReadItems;
    var a := ReadAtom(k, s);
    ReadItemsFirst(k, s, size);
    ReadNoItems(k, s);
    assert s[0..] == s;
    if a.Bad? {
      p := 0;
    } else {
      var t := s[a.used..];
      ReadNoItems(k, t);
      if size <= a.used {
        p := 0;
        NegativeItems(k, t, size - a.used);
        assert [a.value] + [] == [] + [a.value];
      } else {
        var q := ItemsStop(k, t, size - a.used);
        p := a.used + q;
        ReadItemsFirst(k, s, p);
        assert s[p..] == t[q..];
        var x := ReadAtom(k, t[q..]);
        if x.Got? {
          var before := ReadItems(k, t, q).value;
          assert [a.value] + (before + [x.value]) == ([a.value] + before) + [x.value];
        }
      }
    }
  }

  lemma {:induction false} ItemsRoundTrip(k: AtomKind, items: seq<Atom>, rest: seq<byte>)
    requires FitsAll(k, items)
    requires forall i :: 0 <= i < |items| && items[i].Text? ==> |items[i].s| < TWO31
    ensures var w := ItemsBytes(Base128, k, items);
      ReadItems(k, w + rest, |w|) == Got(NormalItems(k, items), |w|)
  {
    hide AtomBytes, ReadAtom, ReadItems, NormalAtom, AtomSize, CountedSize;
    if items != [] {
      var a, tail := AtomBytes(Base128, k, items[0]), ItemsBytes(Base128, k, items[1..]);
      AtomSizeExact(Base128, k, items[0]);
      AtomRoundTrip(k, items[0], tail + rest);
      ItemsRoundTrip(k, items[1..], rest);
      ReadItemsStep(k, a, tail + rest, |tail|);
      assert (a + tail) + rest == a + (tail + rest);
    } else {
      ReadNoItems(k, ItemsBytes(Base128, k, items) + rest);
    }
  }

  lemma RepeatedRoundTrip(k: AtomKind, items: seq<Atom>, rest: seq<byte>)
    requires FitsAll(k, items) && |ItemsBytes(Base128, k, items)| < TWO32
    requires forall i :: 0 <= i < |items| && items[i].Text? ==> |items[i].s| < TWO31
    ensures var w := ItemsBytes(Base128, k, items);
      var len := EncodeVarint(|w|);
      ReadPayload(Rep(k), len + w + rest) == Got(Many(NormalItems(k, items)), |len| + |w|)
  {
    hide ItemsBytes, ReadItems, EncodeVarint, ReadVarint, NormalItems, ReadAtom;
    var w := ItemsBytes(Base128, k, items);
    var len := EncodeVarint(|w|);
    VarintRoundTrip(|w|, w + rest, TWO32);
    assert len + w + rest == len + (w + rest);
    assert (len + w + rest)[|len|..] == w + rest;
    ItemsRoundTrip(k, items, rest);
  }

  lemma PayloadRoundTrip(kind: Kind, v: Value, rest: seq<byte>)
    requires FitsLeaf(kind, v) && InLimits(kind, v)
    ensures var w := Payload(Base128, kind, v);
      ReadPayload(kind, w + rest) == Got(Normal(kind, v), |w|)
  {
    hide AtomBytes, ReadAtom, NormalAtom, ItemsBytes, ReadItems, ItemsSize, ItemsCounted, NormalItems;
    hide EncodeVarint, ReadVarint;
    match kind
    case Single(k) => AtomRoundTrip(k, v.a, rest);
    case Rep(k) =>
      ItemsSizeExact(Base128, k, v.items);
      RepeatedRoundTrip(k, v.items, rest);
  }

  /** A framed field, read as the parser does, gives back its value and stops at its end. */
  lemma FrameRoundTrip(fd: FieldDesc, v: Value, rest: seq<byte>)
    requires FitsLeaf(fd.kind, v) && InLimits(fd.kind, v) && fd.id < 128
    ensures var w := Frame(Base128, fd, v);
      var h := ReadHeader(w + rest);
      && h.Got? && h.used <= |w|
      && ReadPayload(fd.kind, (w + rest)[h.used..]) == Got(Normal(fd.kind, v), |w| - h.used)
  {
    hide Prefix16, Payload, EncodeVarint, ReadVarint, ReadPayload, LittleEndian, Normal, InLimits;
    var len := LittleEndian(Prefix16(Base128, fd, v), 2);
    var tag, p := TagBytes(Base128, fd), Payload(Base128, fd.kind, v);
    var w := Frame(Base128, fd, v);
    assert w + rest == len + (tag + (p + rest));
    assert (w + rest)[2..] == tag + (p + rest);
    VarintRoundTrip(fd.id * 8 + WireType(fd.kind), p + rest, TWO32);
    assert (w + rest)[2 + |tag|..] == p + rest;
    PayloadRoundTrip(fd.kind, v, rest);
  }

  // ----- what the wire type promises -----

  /** How far a reader that knows only the wire type moves past a payload: a varint, 8 bytes, a length
      and that many bytes, or 4 bytes. */
  function SkipPayload(wireType: nat, s: seq<byte>): Read<()> {
    if wireType == 0 then
      var v := ReadVarint(s, TWO64);
      if v.Bad? then Bad else Got((), v.used)
    else if wireType == 1 then (if |s| < 8 then Bad else Got((), 8))
    else if wireType == 5 then (if |s| < 4 then Bad else Got((), 4))
    else if wireType == 2 then
      var len := ReadVarint(s, TWO32);
      if len.Bad? || len.used + len.value > |s| then Bad else Got((), len.used + len.value)
    else Bad
  }

  lemma DelimitedSkips(s: seq<byte>, rest: seq<byte>)
    requires |s| < TWO32
    ensures var w := EncodeVarint(|s|) + s; SkipPayload(2, w + rest) == Got((), |w|)
  {
    hide EncodeVarint, ReadVarint;
    var len := EncodeVarint(|s|);
    VarintRoundTrip(|s|, s + rest, TWO32);
    assert (len + s) + rest == len + (s + rest);
  }

  lemma PayloadSkips(kind: Kind, v: Value, rest: seq<byte>)
    requires FitsLeaf(kind, v) && InLimits(kind, v)
    ensures SkipPayload(WireType(kind), Payload(Base128, kind, v) + rest) == Got((), |Payload(Base128, kind, v)|)
  {
    hide EncodeVarint, ReadVarint, LittleEndian, ItemsBytes, ItemsCounted, ItemsSize;
    if kind.Rep? {
      ItemsSizeExact(Base128, kind.atom, v.items);
      DelimitedSkips(ItemsBytes(Base128, kind.atom, v.items), rest);
    } else if v.a.Text? {
      DelimitedSkips(v.a.s, rest);
    } else if !IsFixed(kind.atom) {
      RawRoundTrip(kind.atom, v.a);
      hide Extended;
      VarintRoundTrip(Extended(kind.atom, v.a.n), rest, TWO64);
    }
  }

  /** Every tag read back gives the field number and a wire type that describes the payload behind it:
      a reader ignorant of the schema can step over any field. */
  lemma TagDescribesPayload(fd: FieldDesc, v: Value, rest: seq<byte>)
    requires FitsLeaf(fd.kind, v) && InLimits(fd.kind, v) && fd.id < 128
    ensures var w := Body(Base128, fd, v) + rest;
      var tag := ReadVarint(w, TWO32);
      && tag.Got? && tag.used <= |Body(Base128, fd, v)| && tag.value / 8 == fd.id
      && SkipPayload(tag.value % 8, w[tag.used..]) == Got((), |Body(Base128, fd, v)| - tag.used)
  {
    hide Payload, SkipPayload, EncodeVarint, ReadVarint, InLimits;
    var tag, p := TagBytes(Base128, fd), Payload(Base128, fd.kind, v);
    var w := Body(Base128, fd, v) + rest;
    assert w == tag + (p + rest);
    assert w[|tag|..] == p + rest;
    VarintRoundTrip(fd.id * 8 + WireType(fd.kind), p + rest, TWO32);
    PayloadSkips(fd.kind, v, rest);
  }

  // ----- the side stream -----

  predicate LongAtom(a: Atom) {
    a.Text? && |a.s| > 1024
  }

  /** A string or bytes field that travels in the side stream: longer than 1024 bytes, or repeated
      with an element longer than that. */
  predicate Long(v: Value) {
    match v
    case One(a) => LongAtom(a)
    case Many(items) => exists i :: 0 <= i < |items| && LongAtom(items[i])
    case Sub(_) => false
  }

  function Strings(v: Value): seq<Atom>
    requires !v.Sub?
  {
    if v.One? then [v.a] else v.items
  }

  lemma InlineLength(k: AtomKind, a: Atom)
    requires IsText(k) && a.Text? && |a.s| < TWO31
    ensures |AtomBytes(Base128, k, a)| > 1026 <==> |a.s| > 1024
  {
    SmallMod(|a.s|, TWO32);
    var n := |a.s|;
    if 1024 < n {
      assert |EncodeVarint(n)| >= 2;
    } else if n >= 128 {
      assert EncodeVarint(n) == [n % 128 + 128] + EncodeVarint(n / 128);
    }
  }

  /** A field is long exactly if one of its strings takes more than 1026 bytes inline, its length
      included; one such element is enough, wherever it stands in a list. */
  lemma LongMeaning(kind: Kind, v: Value)
    requires FitsLeaf(kind, v) && IsText(kind.atom)
    requires forall a :: a in Strings(v) ==> a.Text? && |a.s| < TWO31
    ensures Long(v) <==> exists a :: a in Strings(v) && |AtomBytes(Base128, kind.atom, a)| > 1026
  {
    hide AtomBytes;
    forall a | a in Strings(v) ensures LongAtom(a) <==> |AtomBytes(Base128, kind.atom, a)| > 1026 {
      InlineLength(kind.atom, a);
    }
    if v.Many? && Long(v) {
      var i :| 0 <= i < |v.items| && LongAtom(v.items[i]);
      assert v.items[i] in Strings(v);
    }
  }

  function Align64(n: nat): (r: nat)
    ensures n <= r < n + 64 && r % 64 == 0
  {
    (n + 63) / 64 * 64
  }

  function Padded(s: seq<byte>): seq<byte> {
    s + Zeros(Align64(|s|) - |s|)
  }

  // A size_t followed by seven zero words.
  function Line(v: nat): (s: seq<byte>)
    ensures |s| == 64
  {
    LittleEndian(v, 8) + Zeros(56)
  }

  function TextOf(a: Atom): seq<byte> {
    if a.Text? then a.s else []
  }

  function Block(a: Atom): seq<byte> {
    Line(Align64(|TextOf(a)|)) + Padded(TextOf(a))
  }

  /** A block byte for byte: the padded length in eight bytes, 56 zeros, the string, zeros. */
  lemma BlockLayout(a: Atom, i: nat)
    requires i < |Block(a)|
    ensures 64 <= |Block(a)| && (|TextOf(a)| < TWO31 ==> Weighted(Block(a)[..8], 8) == |Block(a)| - 64)
    ensures 8 <= i < 64 ==> Block(a)[i] == 0
    ensures 64 <= i < 64 + |TextOf(a)| ==> Block(a)[i] == TextOf(a)[i - 64]
    ensures 64 + |TextOf(a)| <= i ==> Block(a)[i] == 0
  {
    var n := Align64(|TextOf(a)|);
    assert Block(a)[..8] == LittleEndian(n, 8);
    if |TextOf(a)| < TWO31 {
      WordSizes();
      LittleEndianWeights(n, 8);
    }
  }

  /** The line in front of a list: its count in eight bytes and 56 zeros. */
  lemma LineLayout(v: nat, i: nat)
    requires v < TWO64
    ensures Weighted(Line(v)[..8], 8) == v && (8 <= i < 64 ==> Line(v)[i] == 0)
  {
    WordSizes();
    LittleEndianWeights(v, 8);
    assert Line(v)[..8] == LittleEndian(v, 8);
  }

  predicate AllText(items: seq<Atom>) {
    forall i :: 0 <= i < |items| ==> items[i].Text?
  }

  // Blocks are written from the last element to the first.
  function Blocks(items: seq<Atom>): seq<byte> {
    if items == [] then [] else Blocks(items[1..]) + Block(items[0])
  }

  function SideBytes(v: Value): seq<byte> {
    if !Long(v) then [] else if v.One? then Block(v.a) else Line(|v.items|) + Blocks(v.items)
  }

  function ReadBlock(s: seq<byte>): (r: Read<Atom>)
    ensures r.Got? ==> r.used <= |s|
  {
    if |s| < 64 then Bad
    else
      var n := FromLittleEndian(s[..8]);
      if 64 + n > |s| then Bad else Got(Text(s[64..64 + n]), 64 + n)
  }

  function ReadBlocks(s: seq<byte>, n: nat): (r: Read<seq<Atom>>)
    ensures r.Got? ==> r.used <= |s|
    decreases n
  {
    if n == 0 then Got([], 0)
    else
      var a := ReadBlock(s);
      if a.Bad? then Bad
      else
        var rest := ReadBlocks(s[a.used..], n - 1);
        if rest.Bad? then Bad else Got(rest.value + [a.value], a.used + rest.used)
  }

  function ReadSide(kind: Kind, s: seq<byte>): (r: Read<Value>)
    requires !kind.Child?
    ensures r.Got? ==> r.used <= |s|
  {
    if kind.Single? then
      var a := ReadBlock(s);
      if a.Bad? then Bad else Got(One(a.value), a.used)
    else if |s| < 64 then Bad
    else
      var items := ReadBlocks(s[64..], FromLittleEndian(s[..8]));
      if items.Bad? then Bad else Got(Many(items.value), 64 + items.used)
  }

  function PaddedAtom(a: Atom): Atom {
    if a.Text? then Text(Padded(a.s)) else a
  }

  function PaddedItems(items: seq<Atom>): seq<Atom> {
    if items == [] then [] else [PaddedAtom(items[0])] + PaddedItems(items[1..])
  }

  function PaddedValue(v: Value): Value
    requires !v.Sub?
  {
    if v.One? then One(PaddedAtom(v.a)) else Many(PaddedItems(v.items))
  }

  lemma BlockRoundTrip(a: Atom, rest: seq<byte>)
    requires a.Text? && |a.s| < TWO31
    ensures ReadBlock(Block(a) + rest) == Got(PaddedAtom(a), |Block(a)|)
  {
    var n, p := Align64(|a.s|), Padded(a.s);
    WordSizes();
    LittleEndianRoundTrip(n, 8);
    var w := Block(a) + rest;
    assert w[..8] == LittleEndian(n, 8);
    assert w[64..64 + n] == p;
  }

  lemma ReadBlocksStep(b: seq<byte>, tail: seq<byte>, n: nat)
    requires ReadBlock(b + tail).Got? && ReadBlock(b + tail).used == |b| && ReadBlocks(tail, n).Got?
    ensures ReadBlocks(b + tail, n + 1)
         == Got(ReadBlocks(tail, n).value + [ReadBlock(b + tail).value], |b| + ReadBlocks(tail, n).used)
  {
    assert (b + tail)[|b|..] == tail;
  }

  lemma {:induction false} BlocksSnoc(items: seq<Atom>)
    requires items != []
    ensures var last := |items| - 1;
      && Blocks(items) == Block(items[last]) + Blocks(items[..last])
      && PaddedItems(items) == PaddedItems(items[..last]) + [PaddedAtom(items[last])]
  {
    hide Block, PaddedAtom;
    if |items| > 1 {
      BlocksSnoc(items[1..]);
      assert items[1..][..|items| - 2] == items[..|items| - 1][1..];
    }
  }

  lemma {:induction false} BlocksRoundTrip(items: seq<Atom>, rest: seq<byte>)
    requires AllText(items)
    requires forall i :: 0 <= i < |items| && items[i].Text? ==> |items[i].s| < TWO31
    ensures ReadBlocks(Blocks(items) + rest, |items|) == Got(PaddedItems(items), |Blocks(items)|)
  {
    hide Block, ReadBlock, PaddedAtom;
    if items != [] {
      var init, a := items[..|items| - 1], items[|items| - 1];
      BlocksSnoc(items);
      var b, bs := Block(a), Blocks(init);
      BlockRoundTrip(a, bs + rest);
      BlocksRoundTrip(init, rest);
      ReadBlocksStep(b, bs + rest, |init|);
      assert (b + bs) + rest == b + (bs + rest);
    }
  }

  // The part of the limits the side stream needs.
  predicate TextLimits(v: Value) {
    match v
    case One(a) => a.Text? ==> |a.s| < TWO31
    case Many(items) => |items| < TWO31 && forall i :: 0 <= i < |items| && items[i].Text? ==> |items[i].s| < TWO31
    case Sub(_) => true
  }

  lemma LongIsText(kind: Kind, v: Value)
    requires FitsLeaf(kind, v) && Long(v)
    ensures IsText(kind.atom)
    ensures v.One? ==> v.a.Text?
    ensures v.Many? ==> AllText(v.items)
  {
    if v.Many? {
      var i :| 0 <= i < |v.items| && LongAtom(v.items[i]);
      assert FitsAtom(kind.atom, v.items[i]);
    }
  }

  /** The side stream alone gives a long field back, up to its zero padding. */
  lemma SideRoundTrip(kind: Kind, v: Value, rest: seq<byte>)
    requires FitsLeaf(kind, v) && TextLimits(v) && Long(v)
    ensures ReadSide(kind, SideBytes(v) + rest) == Got(PaddedValue(v), |SideBytes(v)|)
  {
    hide Block, ReadBlock, Blocks, ReadBlocks, PaddedItems, PaddedAtom, LittleEndian, FromLittleEndian, ItemsSize;
    LongIsText(kind, v);
    if v.One? {
      BlockRoundTrip(v.a, rest);
    } else {
      var line, bs := Line(|v.items|), Blocks(v.items);
      WordSizes();
      LittleEndianRoundTrip(|v.items|, 8);
      BlocksRoundTrip(v.items, rest);
      assert ((line + bs) + rest)[..8] == LittleEndian(|v.items|, 8);
      assert ((line + bs) + rest)[64..] == bs + rest;
    }
  }

  /** Only zeros are added, fewer than 64 of them, and the length becomes a multiple of 64. */
  lemma PaddingIsSmall(s: seq<byte>)
    ensures |s| <= |Padded(s)| < |s| + 64 && |Padded(s)| % 64 == 0
    ensures Padded(s)[..|s|] == s
    ensures forall i :: |s| <= i < |Padded(s)| ==> Padded(s)[i] == 0
  {
    assert Padded(s)[..|s|] == s;
  }

  // 64 + aligned length per string, and 64 for the count of a repeated field.
  function BlocksSize(items: seq<Atom>): nat {
    if items == [] then 0 else 64 + Align64(|TextOf(items[0])|) + BlocksSize(items[1..])
  }

  function SideSize(v: Value): nat {
    if !Long(v) then 0
    else if v.One? then 64 + Align64(|TextOf(v.a)|)
    else 64 + BlocksSize(v.items)
  }

  lemma SumAligned(x: nat, y: nat)
    requires x % 64 == 0 && y % 64 == 0
    ensures (x + y) % 64 == 0
  {
  }

  lemma BlockSizeExact(a: Atom)
    ensures |Block(a)| == 64 + Align64(|TextOf(a)|) && |Block(a)| % 64 == 0
  {
    hide Line, Zeros, TextOf, Align64;
    SumAligned(64, Align64(|TextOf(a)|));
  }

  lemma {:induction false} BlocksSizeExact(items: seq<Atom>)
    ensures |Blocks(items)| == BlocksSize(items) && BlocksSize(items) % 64 == 0
  {
    if items != [] {
      BlocksSizeExact(items[1..]);
      BlockSizeExact(items[0]);
      SumAligned(64 + Align64(|TextOf(items[0])|), BlocksSize(items[1..]));
    }
  }

  lemma SideSizeExact(v: Value)
    ensures |SideBytes(v)| == SideSize(v) && SideSize(v) % 64 == 0
  {
    hide Blocks, BlocksSize, LittleEndian;
    if Long(v) {
      if v.Many? {
        BlocksSizeExact(v.items);
        SumAligned(64, BlocksSize(v.items));
      } else {
        BlockSizeExact(v.a);
      }
    }
  }
}
