/** The length-prefixed nesting of include/paralizer.h with the skip flag off (section
    "Length-Delimited Records" of the Protocol Buffers Encoding specification): a forward walk that
    writes the tag and the predicted size of a child before the child itself. */
module Nested {
  import opened Words
  import opened Buffer
  import opened Varint
  import opened Messages
  import opened Wire
  import opened Serializer

  ghost function NestedBytes(sch: Schema, m: Message): seq<byte>
    requires Typed(sch, m)
    decreases m, |m.vals| + 1
  {
    NestedFrom(sch, m, 0)
  }

  ghost function NestedFrom(sch: Schema, m: Message, i: nat): seq<byte>
    requires Typed(sch, m) && i <= |m.vals|
    decreases m, |m.vals| - i
  {
    if i == |m.vals| then [] else NestedField(sch, m, i) + NestedFrom(sch, m, i + 1)
  }

  /** ByteSizeLong of include/paralizer.h. */
  ghost function NestedSize(sch: Schema, m: Message): nat
    requires Typed(sch, m)
    decreases m, |m.vals| + 1
  {
    NestedSizeTo(sch, m, |m.vals|)
  }

  ghost function NestedField(sch: Schema, m: Message, i: nat): seq<byte>
    requires Typed(sch, m) && i < |m.vals|
    decreases m, 0
  {
    if m.vals[i].Sub? then
      TagBytes(Base128, sch[m.cls][i])
      + (EncodeVarint(NestedSize(sch, m.vals[i].m) % TWO32) + NestedBytes(sch, m.vals[i].m))
    else Body(Base128, sch[m.cls][i], m.vals[i])
  }

  ghost function NestedSizeTo(sch: Schema, m: Message, k: nat): nat
    requires Typed(sch, m) && k <= |m.vals|
    decreases m, k
  {
    if k == 0 then 0 else NestedSizeTo(sch, m, k - 1) + FieldSizeOf(sch, m, k - 1)
  }

  ghost function FieldSizeOf(sch: Schema, m: Message, i: nat): nat
    requires Typed(sch, m) && i < |m.vals|
    decreases m, i
  {
    if m.vals[i].Sub? then
      var n := NestedSize(sch, m.vals[i].m);
      n + TagSize(Base128, sch[m.cls][i].id) + VarintSize(n % TWO32)
    else BodySize(Base128, sch[m.cls][i], m.vals[i])
  }

  // ----- size prediction -----

  lemma {:induction false} NestedFieldSize(sch: Schema, m: Message, i: nat)
    requires ValidSchema(sch) && Typed(sch, m) && i < |m.vals|
    ensures |NestedField(sch, m, i)| == FieldSizeOf(sch, m, i)
    decreases m, 0
  {
    hide Body, BodySize, TagBytes, TagSize, EncodeVarint, VarintSize, NestedBytes;
    var fd := sch[m.cls][i];
    if m.vals[i].Sub? {
      var c := m.vals[i].m;
      TagSizeExact(Base128, fd);
      VarintSizeExact(NestedSize(sch, c) % TWO32);
      NestedSizeExact(sch, c);
    } else {
      BodySizeExact(Base128, fd, m.vals[i]);
    }
  }

  lemma {:induction false} NestedFromSize(sch: Schema, m: Message, i: nat)
    requires ValidSchema(sch) && Typed(sch, m) && i <= |m.vals|
    ensures NestedSizeTo(sch, m, i) + |NestedFrom(sch, m, i)| == NestedSize(sch, m)
    decreases m, |m.vals| - i
  {
    hide NestedField, FieldSizeOf;
    if i < |m.vals| {
      NestedFieldSize(sch, m, i);
      NestedFromSize(sch, m, i + 1);
    }
  }

  /** At every depth the predicted size is the number of bytes written, for any tree. */
  lemma {:induction false} NestedSizeExact(sch: Schema, m: Message)
    requires ValidSchema(sch) && Typed(sch, m)
    ensures |NestedBytes(sch, m)| == NestedSize(sch, m)
    decreases m, |m.vals| + 1
  {
    hide NestedField, FieldSizeOf;
    NestedFromSize(sch, m, 0);
  }

  /** A reader of the varint in front of a child learns the length of what follows exactly when that
      length is below 2^32; the writer truncates it. */
  lemma ChildLengthPrefix(sch: Schema, m: Message, i: nat, rest: seq<byte>)
    requires ValidSchema(sch) && Typed(sch, m) && i < |m.vals| && m.vals[i].Sub?
    ensures var tag := |TagBytes(Base128, sch[m.cls][i])|;
      var child := NestedBytes(sch, m.vals[i].m);
      && tag <= |NestedField(sch, m, i)|
      && var r := ReadVarint((NestedField(sch, m, i) + rest)[tag..], TWO32);
      && r.Got? && (r.value == |child| <==> |child| < TWO32)
      && (NestedField(sch, m, i) + rest)[tag + r.used..] == child + rest
  {
    hide ReadVarint, EncodeVarint, NestedBytes, NestedSize;
    var tag, child := TagBytes(Base128, sch[m.cls][i]), NestedBytes(sch, m.vals[i].m);
    NestedSizeExact(sch, m.vals[i].m);
    var n := |child| % TWO32;
    VarintRoundTrip(n, child + rest, TWO32);
    var w := NestedField(sch, m, i) + rest;
    assert w == tag + (EncodeVarint(n) + (child + rest));
    assert w[|tag|..] == EncodeVarint(n) + (child + rest);
    assert w[|tag| + |EncodeVarint(n)|..] == child + rest;
  }

  // ----- equal bytes, equal messages -----

  /** Same classes at the same places. */
  ghost predicate SameShape(a: Message, b: Message)
    decreases a
  {
    && a.cls == b.cls && |a.vals| == |b.vals|
    && forall i :: 0 <= i < |a.vals| ==>
         && (a.vals[i].Sub? <==> b.vals[i].Sub?)
         && (a.vals[i].Sub? ==> SameShape(a.vals[i].m, b.vals[i].m))
  }

  /** Lengths the format can carry, and repeated bools holding 0 or 1 (vector<bool> in that file). */
  ghost predicate Carriable(sch: Schema, m: Message)
    requires Typed(sch, m)
    decreases m
  {
    forall i :: 0 <= i < |m.vals| ==>
      if m.vals[i].Sub? then Carriable(sch, m.vals[i].m)
      else var kind := sch[m.cls][i].kind; InLimits(kind, m.vals[i]) && Normal(kind, m.vals[i]) == m.vals[i]
  }

  lemma LeafInjective(fd: FieldDesc, v: Value, w: Value, r: seq<byte>, s: seq<byte>)
    requires FitsLeaf(fd.kind, v) && InLimits(fd.kind, v) && Normal(fd.kind, v) == v
    requires FitsLeaf(fd.kind, w) && InLimits(fd.kind, w) && Normal(fd.kind, w) == w
    requires Body(Base128, fd, v) + r == Body(Base128, fd, w) + s
    ensures v == w && r == s
  {
    hide Payload, ReadPayload, TagBytes, Normal, InLimits;
    var tag := TagBytes(Base128, fd);
    var p, q := Payload(Base128, fd.kind, v), Payload(Base128, fd.kind, w);
    assert (Body(Base128, fd, v) + r)[|tag|..] == p + r;
    assert (Body(Base128, fd, w) + s)[|tag|..] == q + s;
    PayloadRoundTrip(fd.kind, v, r);
    PayloadRoundTrip(fd.kind, w, s);
    assert (p + r)[|p|..] == r && (q + s)[|q|..] == s;
  }

  lemma {:induction false} FieldInjective(sch: Schema, a: Message, b: Message, i: nat, r: seq<byte>, s: seq<byte>)
    requires ValidSchema(sch) && Typed(sch, a) && Typed(sch, b) && SameShape(a, b)
    requires Carriable(sch, a) && Carriable(sch, b) && i < |a.vals|
    requires NestedField(sch, a, i) + r == NestedField(sch, b, i) + s
    ensures a.vals[i] == b.vals[i] && r == s
    decreases a, 0
  {
    hide Body, InLimits, Normal, ReadVarint, NestedBytes;
    if a.vals[i].Sub? {
      ChildLengthPrefix(sch, a, i, r);
      ChildLengthPrefix(sch, b, i, s);
      hide NestedField;
      NestedInjective(sch, a.vals[i].m, b.vals[i].m, r, s);
    } else {
      LeafInjective(sch[a.cls][i], a.vals[i], b.vals[i], r, s);
    }
  }

  lemma SameLength(a: Message, b: Message)
    requires SameShape(a, b)
    ensures a.cls == b.cls && |a.vals| == |b.vals|
  {
  }

  lemma {:induction false} FromInjective(sch: Schema, a: Message, b: Message, i: nat, r: seq<byte>, s: seq<byte>)
    requires ValidSchema(sch) && Typed(sch, a) && Typed(sch, b) && SameShape(a, b)
    requires Carriable(sch, a) && Carriable(sch, b) && i <= |a.vals|
    requires NestedFrom(sch, a, i) + r == NestedFrom(sch, b, i) + s
    ensures a.vals[i..] == b.vals[i..] && r == s
    decreases a, |a.vals| - i
  {
    hide NestedField, SameShape, Carriable;
    SameLength(a, b);
    if i == |a.vals| {
      assert [] + r == r && [] + s == s;
    } else {
      var x, y := NestedField(sch, a, i), NestedField(sch, b, i);
      var xs, ys := NestedFrom(sch, a, i + 1), NestedFrom(sch, b, i + 1);
      assert (x + xs) + r == x + (xs + r) && (y + ys) + s == y + (ys + s);
      FieldInjective(sch, a, b, i, xs + r, ys + s);
      FromInjective(sch, a, b, i + 1, r, s);
      assert a.vals[i..] == [a.vals[i]] + a.vals[i + 1..];
      assert b.vals[i..] == [b.vals[i]] + b.vals[i + 1..];
    }
  }

  /** Messages of the same shape with the same bytes, whatever follows them, are the same message;
      and no message's bytes are a proper prefix of another's. */
  lemma {:induction false} NestedInjective(sch: Schema, a: Message, b: Message, r: seq<byte>, s: seq<byte>)
    requires ValidSchema(sch) && Typed(sch, a) && Typed(sch, b) && SameShape(a, b)
    requires Carriable(sch, a) && Carriable(sch, b)
    requires NestedBytes(sch, a) + r == NestedBytes(sch, b) + s
    ensures a == b && r == s
    decreases a, |a.vals| + 1
  {
    hide Carriable, NestedFrom;
    FromInjective(sch, a, b, 0, r, s);
    assert a.vals[0..] == a.vals && b.vals[0..] == b.vals;
  }

  // ----- the walks -----

  method ByteSizeLong(sch: Schema, m: Message) returns (outputSize: nat)
    requires ValidSchema(sch) && Typed(sch, m)
    ensures outputSize == |NestedBytes(sch, m)|
    decreases m
  {
    hide FieldSizeOf, NestedBytes;
    NestedSizeExact(sch, m);
    outputSize := 0;
    var i := 0;
    while i < |m.vals|
      invariant 0 <= i <= |m.vals| && outputSize == NestedSizeTo(sch, m, i)
    {
      var size := FieldSize(sch, m, i);
      outputSize := outputSize + size;
      i := i + 1;
    }
  }

  method FieldSize(sch: Schema, m: Message, i: nat) returns (size: nat)
    requires ValidSchema(sch) && Typed(sch, m) && i < |m.vals|
    ensures size == FieldSizeOf(sch, m, i)
    decreases m, 0
  {
    hide AtomSize, ItemsSize, NestedBytes, VarintSize;
    var fd, v := sch[m.cls][i], m.vals[i];
    if fd.kind.Child? {
      NestedSizeExact(sch, v.m);
      size := ByteSizeLong(sch, v.m);
      size := size + TagSize(Base128, fd.id) + VarintSize(size % TWO32);
    } else if fd.kind.Single? {
      size := TagSize(Base128, fd.id) + AtomSize(Base128, fd.kind.atom, v.a);
    } else {
      var n, skipped := RepeatedSize(Base128, fd.kind.atom, v.items, false);
      size := n + TagSize(Base128, fd.id) + VarintSize(n % TWO32);
    }
  }

  method SerializeToStringDfs(sch: Schema, m: Message, buf: array<byte>, at: nat) returns (next: nat)
    requires ValidSchema(sch) && Typed(sch, m) && at + |NestedBytes(sch, m)| <= buf.Length
    modifies buf
    ensures next == at + |NestedBytes(sch, m)| && Wrote(old(buf[..]), buf[..], at, NestedBytes(sch, m))
    decreases m
  {
    hide NestedField, Wrote;
    next := at;
    ghost var done := [];
    WroteNothing(buf[..], at);
    var i := 0;
    while i < |m.vals|
      invariant 0 <= i <= |m.vals|
      invariant done + NestedFrom(sch, m, i) == NestedBytes(sch, m)
      invariant next == at + |done| && Wrote(old(buf[..]), buf[..], at, done)
    {
      ghost var mid, x := buf[..], NestedField(sch, m, i);
      assert done + (x + NestedFrom(sch, m, i + 1)) == (done + x) + NestedFrom(sch, m, i + 1);
      next := SerializeField(sch, m, i, buf, next);
      WroteThen(old(buf[..]), mid, buf[..], at, done, x);
      done := done + x;
      i := i + 1;
    }
    assert done + [] == done;
  }

  method SerializeField(sch: Schema, m: Message, i: nat, buf: array<byte>, at: nat) returns (next: nat)
    requires ValidSchema(sch) && Typed(sch, m) && i < |m.vals| && at + |NestedField(sch, m, i)| <= buf.Length
    modifies buf
    ensures next == at + |NestedField(sch, m, i)| && Wrote(old(buf[..]), buf[..], at, NestedField(sch, m, i))
    decreases m, 0
  {
    hide Wrote, EncodeVarint, Body, NestedBytes, NestedSize;
    var fd, v := sch[m.cls][i], m.vals[i];
    if fd.kind.Child? {
      ghost var b0 := buf[..];
      NestedSizeExact(sch, v.m);
      next := WriteWord32(Base128, fd.id * 8 + WireType(fd.kind), buf, at);
      ghost var b1, p1 := buf[..], next;
      var size := ByteSizeLong(sch, v.m);
      next := WriteWord32(Base128, size % TWO32, buf, next);
      ghost var b2 := buf[..];
      next := SerializeToStringDfs(sch, v.m, buf, next);
      WroteThen(b1, b2, buf[..], p1, EncodeVarint(size % TWO32), NestedBytes(sch, v.m));
      WroteThen(b0, b1, buf[..], at, TagBytes(Base128, fd),
                EncodeVarint(size % TWO32) + NestedBytes(sch, v.m));
    } else {
      next := WriteBody(Base128, fd, v, buf, at);
    }
  }
}
