/** The imperative walks of include/encode_main.h (and, with the fixed-width codec,
    include/no_encode_main.h): ByteSizeLong forward, SerializeToString_DFS and ParseFromString_DFS
    backward, with the in-place writers and cursor readers they call. */
module Serializer {
  import opened Words
  import opened Buffer
  import opened Varint
  import opened Messages
  import opened Wire
  import opened Walk
  import opened ClassTable
  import opened Reader

  // ----- sizes -----

  lemma NoItemsSize(c: Codec, k: AtomKind)
    ensures ItemsSize(c, k, []) == 0 && ItemsCounted(c, k, []) == 0
    ensures ItemsBytes(c, k, []) == []
  {
  }

  /** The element loop of ByteSizeLong for a repeated field; it stops at the first long string when
      long strings are skipped. */
  method RepeatedSize(c: Codec, k: AtomKind, items: seq<Atom>, skip: bool) returns (size: nat, skipped: bool)
    ensures skipped <==> skip && Long(Many(items))
    ensures !skipped ==> size == ItemsSize(c, k, items)
  {
    hide AtomSize, ItemsSize;
    size, skipped := 0, false;
    NoItemsSize(c, k);
    var j := 0;
    while j < |items|
      invariant 0 <= j <= |items| && size == ItemsSize(c, k, items[..j])
      invariant forall i :: 0 <= i < j ==> !(skip && LongAtom(items[i]))
    {
      if skip && LongAtom(items[j]) {
        return size, true;
      }
      SizesSnoc(c, k, items, j);
      size := size + AtomSize(c, k, items[j]);
      j := j + 1;
    }
    assert items[..j] == items;
  }

  /** ByteSizeLong walks the fields forward and predicts the bytes the backward walk writes. */
  method ByteSizeLong(sch: Schema, m: Message, c: Codec, skip: bool) returns (outputSize: nat)
    requires ValidSchema(sch) && Typed(sch, m)
    ensures outputSize == |Flat(Inline(c, skip), AllLeaves(sch, m))|
    decreases m
  {
    hide LeafBytes, BodySize, AtomSize, ItemsSize, Flat, FieldLeaves;
    ghost var st := Inline(c, skip);
    outputSize := 0;
    FlatNone(st);
    var i := 0;
    while i < |m.vals|
      invariant 0 <= i <= |m.vals|
      invariant outputSize == |Flat(st, Leaves(sch, m, i))|
    {
      var size := FieldSize(sch, m, i, c, skip);
      FlatConcat(st, FieldLeaves(sch, m, i), Leaves(sch, m, i));
      outputSize := outputSize + size;
      i := i + 1;
    }
  }

  method FieldSize(sch: Schema, m: Message, i: nat, c: Codec, skip: bool) returns (size: nat)
    requires ValidSchema(sch) && Typed(sch, m) && i < |m.vals|
    ensures size == |Flat(Inline(c, skip), FieldLeaves(sch, m, i))|
    decreases m, 0
  {
    hide LeafBytes, AtomSize, ItemsSize, Flat, AllLeaves;
    ghost var st := Inline(c, skip);
    var fd, v := sch[m.cls][i], m.vals[i];
    if fd.kind.Child? {
      size := ByteSizeLong(sch, v.m, c, skip);
    } else {
      ghost var l := Leaf(fd, v);
      FlatOne(st, l);
      LeafSizeExact(st, l);
      if fd.kind.Single? {
        size := if skip && LongAtom(v.a) then 0 else TagSize(c, fd.id) + 2 + AtomSize(c, fd.kind.atom, v.a);
      } else {
        var n, skipped := RepeatedSize(c, fd.kind.atom, v.items, skip);
        size := if skipped then 0 else n + TagSize(c, fd.id) + 2 + Word32Size(c, n % TWO32);
      }
    }
  }

  // ----- writers -----

  method WriteWord32(c: Codec, v: nat, buf: array<byte>, at: nat) returns (next: nat)
    requires at + |Word32(c, v)| <= buf.Length
    modifies buf
    ensures next == at + |Word32(c, v)| && Wrote(old(buf[..]), buf[..], at, Word32(c, v))
  {
    if c.Base128? {
      next := UnsafeVarint(v, buf, at);
    } else {
      next := CopyIn(LittleEndian(v, 4), buf, at);
    }
  }

  method WriteAtom(c: Codec, k: AtomKind, a: Atom, buf: array<byte>, at: nat) returns (next: nat)
    requires at + |AtomBytes(c, k, a)| <= buf.Length
    modifies buf
    ensures next == at + |AtomBytes(c, k, a)| && Wrote(old(buf[..]), buf[..], at, AtomBytes(c, k, a))
  {
    hide Word32, EncodeVarint, Raw, Extended, LittleEndian, Wrote;
    if a.Text? {
      next := WriteWord32(c, |a.s| % TWO32, buf, at);
      ghost var mid := buf[..];
      next := CopyIn(a.s, buf, next);
      WroteThen(old(buf[..]), mid, buf[..], at, Word32(c, |a.s| % TWO32), a.s);
    } else if ByCopy(c, k) {
      next := CopyIn(LittleEndian(Raw(k, a.n), Width(k)), buf, at);
    } else {
      next := UnsafeVarint(Extended(k, a.n), buf, at);
    }
  }

  // `uint32_t length` of the WriteRepeated*ToArray writers.
  method CountItems(c: Codec, k: AtomKind, items: seq<Atom>) returns (length: nat)
    ensures length == ItemsCounted(c, k, items) % TWO32
  {
    hide CountedSize, ItemsCounted;
    length := 0;
    NoItemsSize(c, k);
    var j := 0;
    while j < |items|
      invariant 0 <= j <= |items| && length == ItemsCounted(c, k, items[..j]) % TWO32
    {
      SizesSnoc(c, k, items, j);
      CounterAdds32(ItemsCounted(c, k, items[..j]), CountedSize(c, k, items[j]));
      length := (length + CountedSize(c, k, items[j])) % TWO32;
      j := j + 1;
    }
    assert items[..j] == items;
  }

  method WriteItems(c: Codec, k: AtomKind, items: seq<Atom>, buf: array<byte>, at: nat) returns (next: nat)
    requires at + |ItemsBytes(c, k, items)| <= buf.Length
    modifies buf
    ensures next == at + |ItemsBytes(c, k, items)| && Wrote(old(buf[..]), buf[..], at, ItemsBytes(c, k, items))
  {
    hide AtomBytes, ItemsBytes, Wrote;
    next := at;
    var i := 0;
    NoItemsSize(c, k);
    WroteNothing(buf[..], at);
    while i < |items|
      invariant 0 <= i <= |items| && next == at + |ItemsBytes(c, k, items[..i])|
      invariant Wrote(old(buf[..]), buf[..], at, ItemsBytes(c, k, items[..i]))
    {
      ghost var mid := buf[..];
      ItemsSnoc(c, k, items, i);
      ItemsPrefix(c, k, items, i + 1);
      next := WriteAtom(c, k, items[i], buf, next);
      WroteThen(old(buf[..]), mid, buf[..], at, ItemsBytes(c, k, items[..i]), AtomBytes(c, k, items[i]));
      i := i + 1;
    }
    assert items[..i] == items;
  }

  method WritePayload(c: Codec, kind: Kind, v: Value, buf: array<byte>, at: nat) returns (next: nat)
    requires FitsLeaf(kind, v) && at + |Payload(c, kind, v)| <= buf.Length
    modifies buf
    ensures next == at + |Payload(c, kind, v)| && Wrote(old(buf[..]), buf[..], at, Payload(c, kind, v))
  {
    hide Word32, AtomBytes, ItemsBytes, ItemsCounted, Wrote;
    if kind.Single? {
      next := WriteAtom(c, kind.atom, v.a, buf, at);
    } else {
      var length := CountItems(c, kind.atom, v.items);
      next := WriteWord32(c, length, buf, at);
      ghost var mid := buf[..];
      next := WriteItems(c, kind.atom, v.items, buf, next);
      WroteThen(old(buf[..]), mid, buf[..], at, Word32(c, length), ItemsBytes(c, kind.atom, v.items));
    }
  }

  /** WriteInt32ToArray, ..., WriteRepeatedStringToArray: the tag and then the payload. */
  method WriteBody(c: Codec, fd: FieldDesc, v: Value, buf: array<byte>, at: nat) returns (next: nat)
    requires FitsLeaf(fd.kind, v) && at + |Body(c, fd, v)| <= buf.Length
    modifies buf
    ensures next == at + |Body(c, fd, v)| && Wrote(old(buf[..]), buf[..], at, Body(c, fd, v))
  {
    hide Word32, Payload, Wrote;
    next := WriteWord32(c, fd.id * 8 + WireType(fd.kind), buf, at);
    ghost var mid := buf[..];
    next := WritePayload(c, fd.kind, v, buf, next);
    WroteThen(old(buf[..]), mid, buf[..], at, TagBytes(c, fd), Payload(c, fd.kind, v));
  }

  /** The element loop of SerializeToString_DFS, in `uint16_t current_field_size`. */
  method RepeatedCount16(c: Codec, k: AtomKind, items: seq<Atom>, skip: bool) returns (size: nat, skipped: bool)
    ensures skipped <==> skip && Long(Many(items))
    ensures !skipped ==> size == ItemsCounted(c, k, items) % TWO16
  {
    hide CountedSize, ItemsCounted;
    size, skipped := 0, false;
    NoItemsSize(c, k);
    var j := 0;
    while j < |items|
      invariant 0 <= j <= |items| && size == ItemsCounted(c, k, items[..j]) % TWO16
      invariant forall i :: 0 <= i < j ==> !(skip && LongAtom(items[i]))
    {
      if skip && LongAtom(items[j]) {
        return size, true;
      }
      SizesSnoc(c, k, items, j);
      CounterAdds16(ItemsCounted(c, k, items[..j]), CountedSize(c, k, items[j]));
      size := (size + CountedSize(c, k, items[j])) % TWO16;
      j := j + 1;
    }
    assert items[..j] == items;
  }

  method WriteLeaf(c: Codec, skip: bool, fd: FieldDesc, v: Value, buf: array<byte>, at: nat) returns (next: nat)
    requires FitsLeaf(fd.kind, v) && at + |LeafBytes(Inline(c, skip), Leaf(fd, v))| <= buf.Length
    modifies buf
    ensures next == at + |LeafBytes(Inline(c, skip), Leaf(fd, v))|
    ensures Wrote(old(buf[..]), buf[..], at, LeafBytes(Inline(c, skip), Leaf(fd, v)))
  {
    hide AtomBytes, ItemsBytes, ItemsCounted, Wrote, Body, LittleEndian;
    var size: nat, skipped;
    if fd.kind.Single? {
      skipped := skip && LongAtom(v.a);
      size := (TagSize(c, fd.id) + CountedSize(c, fd.kind.atom, v.a)) % TWO16;
    } else {
      size, skipped := RepeatedCount16(c, fd.kind.atom, v.items, skip);
      size := (size + TagSize(c, fd.id) + Word32Size(c, size)) % TWO16;
    }
    if skipped {
      WroteNothing(buf[..], at);
      return at;
    }
    assert size == Prefix16(c, fd, v);
    next := CopyIn(LittleEndian(size, 2), buf, at);
    ghost var mid := buf[..];
    next := WriteBody(c, fd, v, buf, next);
    WroteThen(old(buf[..]), mid, buf[..], at, LittleEndian(size, 2), Body(c, fd, v));
  }

  lemma Regroup(a: seq<byte>, b: seq<byte>, c: seq<byte>)
    ensures (a + b) + c == a + (b + c) && a + [] == a
  {
  }

  /** The stream of the fields below `i + 1` starts with that of field `i`. */
  lemma FlatLeaves(st: Stream, sch: Schema, m: Message, i: nat)
    requires Typed(sch, m) && i < |m.vals|
    ensures Flat(st, Leaves(sch, m, i + 1)) == Flat(st, FieldLeaves(sch, m, i)) + Flat(st, Leaves(sch, m, i))
    ensures Leaves(sch, m, |m.vals|) == AllLeaves(sch, m)
  {
    hide Flat, FieldLeaves;
    FlatConcat(st, FieldLeaves(sch, m, i), Leaves(sch, m, i));
  }

  /** SerializeToString_DFS: writes the fields from last to first at the cursor, in place, and leaves
      everything else in the buffer alone. */
  method SerializeToStringDfs(sch: Schema, m: Message, buf: array<byte>, at: nat, c: Codec, skip: bool)
      returns (next: nat)
    requires ValidSchema(sch) && Typed(sch, m)
    requires at + |Flat(Inline(c, skip), AllLeaves(sch, m))| <= buf.Length
    modifies buf
    ensures next == at + |Flat(Inline(c, skip), AllLeaves(sch, m))|
    ensures Wrote(old(buf[..]), buf[..], at, Flat(Inline(c, skip), AllLeaves(sch, m)))
    decreases m
  {
    ghost var st := Inline(c, skip);
    assert Leaves(sch, m, |m.vals|) == AllLeaves(sch, m) && Leaves(sch, m, 0) == [];
    hide LeafBytes, Flat, FieldLeaves, Leaves, AllLeaves, Wrote;
    next := at;
    ghost var done := [];
    WroteNothing(buf[..], at);
    FlatNone(st);
    var i := |m.vals|;
    while i > 0
      invariant 0 <= i <= |m.vals|
      invariant done + Flat(st, Leaves(sch, m, i)) == Flat(st, AllLeaves(sch, m))
      invariant next == at + |done| && Wrote(old(buf[..]), buf[..], at, done)
    {
      i := i - 1;
      ghost var mid, x := buf[..], Flat(st, FieldLeaves(sch, m, i));
      FlatLeaves(st, sch, m, i);
      Regroup(done, x, Flat(st, Leaves(sch, m, i)));
      next := SerializeField(sch, m, i, buf, next, c, skip);
      WroteThen(old(buf[..]), mid, buf[..], at, done, x);
      done := done + x;
    }
    Regroup(done, [], []);
  }

  method SerializeField(sch: Schema, m: Message, i: nat, buf: array<byte>, at: nat, c: Codec, skip: bool)
      returns (next: nat)
    requires ValidSchema(sch) && Typed(sch, m) && i < |m.vals|
    requires at + |Flat(Inline(c, skip), FieldLeaves(sch, m, i))| <= buf.Length
    modifies buf
    ensures next == at + |Flat(Inline(c, skip), FieldLeaves(sch, m, i))|
    ensures Wrote(old(buf[..]), buf[..], at, Flat(Inline(c, skip), FieldLeaves(sch, m, i)))
    decreases m, 0
  {
    hide LeafBytes, Flat, AllLeaves, Wrote;
    var fd, v := sch[m.cls][i], m.vals[i];
    if fd.kind.Child? {
      next := SerializeToStringDfs(sch, v.m, buf, at, c, skip);
    } else {
      FlatOne(Inline(c, skip), Leaf(fd, v));
      next := WriteLeaf(c, skip, fd, v, buf, at);
    }
  }

  /** SerializeToString returns output + ByteSizeLong without looking at the cursor of the second
      walk; the two are the same. */
  method SerializeToString(sch: Schema, m: Message, output: array<byte>, c: Codec, skip: bool, total0: nat)
      returns (end: nat, totalSize: nat)
    requires ValidSchema(sch) && Typed(sch, m)
    requires |Flat(Inline(c, skip), AllLeaves(sch, m))| <= output.Length
    modifies output
    ensures totalSize == total0 + end && end <= output.Length
    ensures output[..end] == Flat(Inline(c, skip), AllLeaves(sch, m))
    ensures output[end..] == old(output[end..])
  {
    hide Flat, AllLeaves;
    var size := ByteSizeLong(sch, m, c, skip);
    totalSize := total0 + size;
    end := size;
    var cursor := SerializeToStringDfs(sch, m, output, 0, c, skip);
    assert cursor == end;
  }

  // ----- readers -----

  method ReadAtomAt(k: AtomKind, data: seq<byte>, p: nat) returns (r: Read<Atom>)
    requires p <= |data|
    ensures r == ReadAtom(k, data[p..])
  {
    hide ReadVarint, ReadWord, FromRaw;
    if IsText(k) {
      var len := VarintParse(data, p, TWO32);
      if len.Bad? || len.value >= TWO31 || p + len.used + len.value > |data| {
        return Bad;
      }
      var q := p + len.used;
      assert data[p..][len.used..len.used + len.value] == data[q..q + len.value];
      return Got(Text(data[q..q + len.value]), len.used + len.value);
    }
    var w;
    if IsFixed(k) {
      w := ReadWord(data[p..], Width(k));
    } else {
      w := VarintParse(data, p, Modulus(k));
    }
    return if w.Bad? then Bad else Got(Num(FromRaw(k, w.value)), w.used);
  }

  ghost function Prepend(done: seq<Atom>, used: nat, rest: Read<seq<Atom>>): Read<seq<Atom>> {
    if rest.Bad? then Bad else Got(done + rest.value, used + rest.used)
  }

  lemma PrependNothing(r: Read<seq<Atom>>)
    ensures Prepend([], 0, r) == r
  {
    if r.Got? { assert [] + r.value == r.value; }
  }

  // One turn of the element loop; and its end.
  lemma PrependItem(k: AtomKind, data: seq<byte>, q: nat, size: int, done: seq<Atom>, used: nat)
    requires q <= |data|
    ensures var a := ReadAtom(k, data[q..]);
      Prepend(done, used, ReadItems(k, data[q..], size))
      == if size <= 0 then Got(done, used) else if a.Bad? then Bad
         else Prepend(done + [a.value], used + a.used, ReadItems(k, data[q + a.used..], size - a.used))
  {
    hide ReadAtom;
    var a := ReadAtom(k, data[q..]);
    if size <= 0 {
      assert done + [] == done;
    } else if a.Got? {
      assert data[q..][a.used..] == data[q + a.used..];
      var tail := ReadItems(k, data[q + a.used..], size - a.used);
      if tail.Got? {
        assert done + ([a.value] + tail.value) == (done + [a.value]) + tail.value;
      }
    }
  }

  /** The while loop of a repeated field: reads elements until at least `size` bytes are consumed. */
  method ReadItemsAt(k: AtomKind, data: seq<byte>, p: nat, size: nat) returns (r: Read<seq<Atom>>)
    requires p <= |data|
    ensures r == ReadItems(k, data[p..], size)
  {
    hide ReadAtom, ReadItems, Prepend;
    var items, q := [], p;
    ghost var all := ReadItems(k, data[p..], size);
    PrependNothing(all);
    while q - p < size
      invariant p <= q <= |data|
      invariant all == Prepend(items, q - p, ReadItems(k, data[q..], size - (q - p)))
      decreases |data| - q
    {
      PrependItem(k, data, q, size - (q - p), items, q - p);
      var a := ReadAtomAt(k, data, q);
      if a.Bad? {
        return Bad;
      }
      items, q := items + [a.value], q + a.used;
    }
    PrependItem(k, data, q, size - (q - p), items, q - p);
    return Got(items, q - p);
  }

  method ReadPayloadAt(kind: Kind, data: seq<byte>, p: nat) returns (r: Read<Value>)
    requires p <= |data| && !kind.Child?
    ensures r == ReadPayload(kind, data[p..])
  {
    hide ReadAtom, ReadItems, ReadVarint;
    if kind.Single? {
      var a := ReadAtomAt(kind.atom, data, p);
      return if a.Bad? then Bad else Got(One(a.value), a.used);
    }
    var len := VarintParse(data, p, TWO32);
    if len.Bad? {
      return Bad;
    }
    assert data[p..][len.used..] == data[p + len.used..];
    var items := ReadItemsAt(kind.atom, data, p + len.used, len.value);
    return if items.Bad? then Bad else Got(Many(items.value), len.used + items.used);
  }

  method ReadLeafAt(kind: Kind, skipped: bool, data: seq<byte>, p: nat) returns (r: Read<Value>)
    requires p <= |data| && !kind.Child?
    ensures r == ReadLeaf(INLINE, kind, skipped, data[p..])
  {
    hide ReadPayload, ReadVarint;
    var q := p;
    if !skipped {
      if p + 2 > |data| {
        return Bad;
      }
      assert data[p..][2..] == data[p + 2..];
      var tag := VarintParse(data, p + 2, TWO32);
      if tag.Bad? {
        return Bad;
      }
      q := p + 2 + tag.used;
      assert data[p..][2 + tag.used..] == data[q..];
    } else if IsText(kind.atom) {
      return Got(Blank(kind), 0);
    }
    var v := ReadPayloadAt(kind, data, q);
    return if v.Bad? then Bad else Got(v.value, q - p + v.used);
  }

  ghost function Resume(rest: Read<seq<Value>>, done: seq<Value>, used: nat): Read<seq<Value>> {
    if rest.Bad? then Bad else Got(rest.value + done, used + rest.used)
  }

  lemma ResumeNothing(r: Read<seq<Value>>)
    ensures Resume(r, [], 0) == r
  {
    if r.Got? { assert r.value + [] == r.value; }
  }

  // One turn of the field loop; and its end.
  lemma ResumeField(sch: Schema, t: Table, stack: set<nat>, cls: nat, k: nat, data: seq<byte>, q: nat,
                    done: seq<Value>, used: nat)
    requires cls in sch && k <= |sch[cls]| && q <= |data|
    ensures Resume(ReadFields(INLINE, sch, t, stack, cls, k, data[q..]), done, used)
         == if k == 0 then Got(done, used)
            else
              var v := ReadField(INLINE, sch, t, stack, cls, k - 1, data[q..]);
              if v.Bad? then Bad
              else Resume(ReadFields(INLINE, sch, t, stack, cls, k - 1, data[q + v.used..]), [v.value] + done,
                          used + v.used)
  {
    hide ReadField;
    if k == 0 {
      assert [] + done == done;
    } else {
      var v := ReadField(INLINE, sch, t, stack, cls, k - 1, data[q..]);
      if v.Got? {
        assert data[q..][v.used..] == data[q + v.used..];
        var rest := ReadFields(INLINE, sch, t, stack, cls, k - 1, data[q + v.used..]);
        if rest.Got? {
          assert (rest.value + [v.value]) + done == rest.value + ([v.value] + done);
        }
      }
    }
  }

  /** ParseFromString_DFS: fills the fields from last to first while the cursor moves forward. */
  method ParseFromStringDfs(sch: Schema, t: Table, stack: set<nat>, cls: nat, data: seq<byte>, p: nat)
      returns (r: Read<seq<Value>>)
    requires cls in sch && p <= |data|
    ensures r == ReadFields(INLINE, sch, t, stack, cls, |sch[cls]|, data[p..])
    decreases sch.Keys - stack
  {
    hide ReadField, ReadFields, Resume;
    var vals, q := [], p;
    var i := |sch[cls]|;
    ghost var all := ReadFields(INLINE, sch, t, stack, cls, i, data[p..]);
    ResumeNothing(all);
    while i > 0
      invariant 0 <= i <= |sch[cls]| && p <= q <= |data|
      invariant all == Resume(ReadFields(INLINE, sch, t, stack, cls, i, data[q..]), vals, q - p)
    {
      ResumeField(sch, t, stack, cls, i, data, q, vals, q - p);
      i := i - 1;
      var v := ParseField(sch, t, stack, cls, i, data, q);
      if v.Bad? {
        return Bad;
      }
      vals, q := [v.value] + vals, q + v.used;
    }
    ResumeField(sch, t, stack, cls, 0, data, q, vals, q - p);
    return Got(vals, q - p);
  }

  method ParseField(sch: Schema, t: Table, stack: set<nat>, cls: nat, i: nat, data: seq<byte>, p: nat)
      returns (r: Read<Value>)
    requires cls in sch && i < |sch[cls]| && p <= |data|
    ensures r == ReadField(INLINE, sch, t, stack, cls, i, data[p..])
    decreases sch.Keys - stack, 0
  {
    hide ReadLeaf, ReadFields;
    var fd := sch[cls][i];
    if cls !in t || fd.id !in t[cls].fields {
      return Bad;
    }
    var e := t[cls].fields[fd.id];
    if !fd.kind.Child? {
      r := ReadLeafAt(fd.kind, Skipped(e), data, p);
    } else if e.subClass !in sch || e.subClass in stack {
      r := Bad;
    } else {
      var vs := ParseFromStringDfs(sch, t, stack + {e.subClass}, e.subClass, data, p);
      r := if vs.Bad? then Bad else Got(Sub(Message(e.subClass, vs.value)), vs.used);
    }
  }

  method ParseFromString(sch: Schema, t: Table, cls: nat, data: seq<byte>) returns (r: Read<Message>)
    requires cls in sch
    ensures r == Parse(INLINE, sch, t, cls, data)
  {
    hide ReadFields;
    assert data[0..] == data;
    var vs := ParseFromStringDfs(sch, t, {cls}, cls, data, 0);
    return if vs.Bad? then Bad else Got(Message(cls, vs.value), vs.used);
  }
}
