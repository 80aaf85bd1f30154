/** Reading the nested form of include/paralizer.h forward again. The repository's parser beside that
    writer reads another form, so these readers are definitions, after sections "Message Structure" and
    "Length-Delimited Records" of the Protocol Buffers Encoding specification: one that knows which object
    stands where and checks every tag, and one that knows nothing and steps from tag to tag. */
module NestedReader {
  import opened Words
  import opened Varint
  import opened Messages
  import opened Wire
  import opened Nested

  // ----- with the schema -----

  /** Reads fields `i` and up; `shape` says which class each child has. */
  ghost function ReadFrom(sch: Schema, shape: Message, i: nat, s: seq<byte>): (r: Read<seq<Value>>)
    requires Typed(sch, shape) && i <= |shape.vals|
    ensures r.Got? ==> r.used <= |s|
    decreases shape, |shape.vals| - i
  {
    if i == |shape.vals| then Got([], 0)
    else
      var v := ReadOne(sch, shape, i, s);
      if v.Bad? then Bad
      else
        var rest := ReadFrom(sch, shape, i + 1, s[v.used..]);
        if rest.Bad? then Bad else Got([v.value] + rest.value, v.used + rest.used)
  }

  ghost function ReadOne(sch: Schema, shape: Message, i: nat, s: seq<byte>): (r: Read<Value>)
    requires Typed(sch, shape) && i < |shape.vals|
    ensures r.Got? ==> r.used <= |s|
    decreases shape, 0
  {
    var fd, tag := sch[shape.cls][i], ReadVarint(s, TWO32);
    if tag.Bad? || tag.value / 8 != fd.id then Bad
    else if shape.vals[i].Sub? then
      var len := ReadVarint(s[tag.used..], TWO32);
      if tag.value % 8 != 2 || len.Bad? || tag.used + len.used + len.value > |s| then Bad
      else
        var at := tag.used + len.used;
        var child := ReadFrom(sch, shape.vals[i].m, 0, s[at..at + len.value]);
        if child.Bad? || child.used != len.value then Bad
        else Got(Sub(Message(shape.vals[i].m.cls, child.value)), at + len.value)
    else if tag.value % 8 != WireType(fd.kind) then Bad
    else
      var v := ReadPayload(fd.kind, s[tag.used..]);
      if v.Bad? then Bad else Got(v.value, tag.used + v.used)
  }

  ghost function ReadMessage(sch: Schema, shape: Message, s: seq<byte>): Read<Message>
    requires Typed(sch, shape)
  {
    var r := ReadFrom(sch, shape, 0, s);
    if r.Bad? then Bad else Got(Message(shape.cls, r.value), r.used)
  }

  /** Every child is shorter than 2^32 bytes, so its length prefix is not truncated. */
  ghost predicate ChildrenFit(sch: Schema, m: Message)
    requires Typed(sch, m)
    decreases m
  {
    forall i :: 0 <= i < |m.vals| && m.vals[i].Sub? ==>
      |NestedBytes(sch, m.vals[i].m)| < TWO32 && ChildrenFit(sch, m.vals[i].m)
  }

  ghost predicate FieldFits(sch: Schema, m: Message, i: nat)
    requires Typed(sch, m) && i < |m.vals|
  {
    m.vals[i].Sub? ==> |NestedBytes(sch, m.vals[i].m)| < TWO32 && ChildrenFit(sch, m.vals[i].m)
  }

  /** The parts of a child field; the length is truncated to 32 bits. */
  lemma ChildParts(sch: Schema, m: Message, i: nat, rest: seq<byte>)
    requires ValidSchema(sch) && Typed(sch, m) && i < |m.vals| && m.vals[i].Sub?
    ensures var c, w := NestedBytes(sch, m.vals[i].m), NestedField(sch, m, i) + rest;
      var tag := ReadVarint(w, TWO32);
      && tag.Got? && tag.used <= |w| && tag.value == sch[m.cls][i].id * 8 + 2
      && var len := ReadVarint(w[tag.used..], TWO32);
         && len.Got? && len.value == |c| % TWO32
         && tag.used + len.used + |c| == |NestedField(sch, m, i)|
         && w[tag.used + len.used..] == c + rest
  {
    hide ReadVarint, EncodeVarint, NestedBytes, NestedSize;
    var fd, c := sch[m.cls][i], NestedBytes(sch, m.vals[i].m);
    assert Fits(fd.kind, m.vals[i]) && fd.kind.Child?;
    NestedSizeExact(sch, m.vals[i].m);
    var n := |c| % TWO32;
    var t, l := TagBytes(Base128, fd), EncodeVarint(n);
    SmallMod(n, TWO32);
    var w := NestedField(sch, m, i) + rest;
    assert w == t + (l + (c + rest));
    VarintRoundTrip(fd.id * 8 + 2, l + (c + rest), TWO32);
    SmallMod(fd.id * 8 + 2, TWO32);
    assert w[|t|..] == l + (c + rest);
    VarintRoundTrip(n, c + rest, TWO32);
    assert w[|t| + |l|..] == c + rest;
  }

  lemma LeafParts(fd: FieldDesc, v: Value, rest: seq<byte>)
    requires FitsLeaf(fd.kind, v) && InLimits(fd.kind, v) && fd.id < 128
    ensures var w := Body(Base128, fd, v) + rest;
      var tag := ReadVarint(w, TWO32);
      && tag.Got? && tag.used <= |Body(Base128, fd, v)| && tag.value == fd.id * 8 + WireType(fd.kind)
      && ReadPayload(fd.kind, w[tag.used..]) == Got(Normal(fd.kind, v), |Body(Base128, fd, v)| - tag.used)
  {
    hide Payload, ReadPayload, ReadVarint, EncodeVarint, InLimits, Normal;
    var t, p := TagBytes(Base128, fd), Payload(Base128, fd.kind, v);
    var w := Body(Base128, fd, v) + rest;
    assert w == t + (p + rest);
    assert w[|t|..] == p + rest;
    var n := fd.id * 8 + WireType(fd.kind);
    SmallMod(n, TWO32);
    VarintRoundTrip(n, p + rest, TWO32);
    PayloadRoundTrip(fd.kind, v, rest);
  }

  lemma ChildrenFitField(sch: Schema, m: Message, i: nat)
    requires Typed(sch, m) && ChildrenFit(sch, m) && i < |m.vals|
    ensures FieldFits(sch, m, i)
  {
  }

  lemma TagDigits(id: nat, t: nat)
    requires t < 8
    ensures (id * 8 + t) / 8 == id && (id * 8 + t) % 8 == t
  {
  }

  lemma {:induction false} FieldBack(sch: Schema, shape: Message, m: Message, i: nat, rest: seq<byte>)
    requires ValidSchema(sch) && Typed(sch, shape) && Typed(sch, m) && SameShape(shape, m)
    requires Carriable(sch, m) && i < |m.vals| && FieldFits(sch, m, i)
    ensures ReadOne(sch, shape, i, NestedField(sch, m, i) + rest) == Got(m.vals[i], |NestedField(sch, m, i)|)
    decreases m, 0
  {
    hide ReadVarint, ReadPayload, Body, NestedBytes, NestedFrom, ReadFrom, InLimits, Normal;
    var fd, w := sch[m.cls][i], NestedField(sch, m, i) + rest;
    TagDigits(fd.id, if m.vals[i].Sub? then 2 else WireType(fd.kind));
    if m.vals[i].Sub? {
      var c := m.vals[i].m;
      ChildParts(sch, m, i, rest);
      SmallMod(|NestedBytes(sch, c)|, TWO32);
      MessageBack(sch, shape.vals[i].m, c, []);
      hide NestedField;
      var b := NestedBytes(sch, c);
      assert b + [] == b;
      var tag := ReadVarint(w, TWO32);
      var at := tag.used + ReadVarint(w[tag.used..], TWO32).used;
      assert w[at..at + |b|] == b by { assert w[at..][..|b|] == (b + rest)[..|b|]; }
    } else {
      LeafParts(fd, m.vals[i], rest);
    }
  }

  lemma {:induction false} FromBack(sch: Schema, shape: Message, m: Message, i: nat, rest: seq<byte>)
    requires ValidSchema(sch) && Typed(sch, shape) && Typed(sch, m) && SameShape(shape, m)
    requires Carriable(sch, m) && ChildrenFit(sch, m) && i <= |m.vals| && |shape.vals| == |m.vals|
    ensures ReadFrom(sch, shape, i, NestedFrom(sch, m, i) + rest) == Got(m.vals[i..], |NestedFrom(sch, m, i)|)
    decreases m, |m.vals| - i
  {
    hide NestedField, ReadOne, SameShape, Carriable, ChildrenFit;
    if i < |m.vals| {
      var x, y := NestedField(sch, m, i), NestedFrom(sch, m, i + 1);
      assert (x + y) + rest == x + (y + rest);
      assert (x + (y + rest))[|x|..] == y + rest;
      ChildrenFitField(sch, m, i);
      FieldBack(sch, shape, m, i, y + rest);
      FromBack(sch, shape, m, i + 1, rest);
      assert m.vals[i..] == [m.vals[i]] + m.vals[i + 1..];
    } else {
      assert m.vals[i..] == [];
    }
  }

  /** Every message comes back from its nested form, in front of any suffix. */
  lemma {:induction false} MessageBack(sch: Schema, shape: Message, m: Message, rest: seq<byte>)
    requires ValidSchema(sch) && Typed(sch, shape) && Typed(sch, m) && SameShape(shape, m)
    requires Carriable(sch, m) && ChildrenFit(sch, m)
    ensures ReadMessage(sch, shape, NestedBytes(sch, m) + rest) == Got(m, |NestedBytes(sch, m)|)
    ensures ReadFrom(sch, shape, 0, NestedBytes(sch, m) + rest) == Got(m.vals, |NestedBytes(sch, m)|)
    decreases m, |m.vals| + 1
  {
    hide ReadFrom, NestedFrom, Carriable, ChildrenFit;
    FromBack(sch, shape, m, 0, rest);
    assert m.vals[0..] == m.vals;
  }

  // ----- more bytes change nothing -----

  lemma {:induction false} DecodeMore(s: seq<byte>, t: seq<byte>, budget: nat)
    requires DecodeVarint(s, budget).Value?
    ensures DecodeVarint(s + t, budget) == DecodeVarint(s, budget)
  {
    if s[0] >= 128 {
      DecodeMore(s[1..], t, budget - 1);
      assert (s + t)[1..] == s[1..] + t;
    }
  }

  lemma VarintMore(s: seq<byte>, t: seq<byte>, m: int)
    requires m > 0 && ReadVarint(s, m).Got?
    ensures ReadVarint(s + t, m) == ReadVarint(s, m)
  {
    hide DecodeVarint;
    DecodeMore(s, t, 10);
  }

  lemma Drop(s: seq<byte>, t: seq<byte>, n: nat)
    requires n <= |s|
    ensures (s + t)[n..] == s[n..] + t && (s + t)[..n] == s[..n]
  {
  }

  lemma TextMore(s: seq<byte>, t: seq<byte>)
    requires ReadText(s).Got?
    ensures ReadText(s + t) == ReadText(s)
  {
    hide ReadVarint;
    VarintMore(s, t, TWO32);
    var len := ReadVarint(s, TWO32);
    assert (s + t)[len.used..len.used + len.value] == s[len.used..len.used + len.value];
  }

  lemma AtomMore(k: AtomKind, s: seq<byte>, t: seq<byte>)
    requires ReadAtom(k, s).Got?
    ensures ReadAtom(k, s + t) == ReadAtom(k, s)
  {
    hide ReadVarint, ReadText, FromRaw;
    if IsText(k) {
      TextMore(s, t);
    } else if IsFixed(k) {
      Drop(s, t, Width(k));
    } else {
      VarintMore(s, t, Modulus(k));
    }
  }

  lemma {:induction false} ItemsMore(k: AtomKind, s: seq<byte>, t: seq<byte>, size: int)
    requires ReadItems(k, s, size).Got?
    ensures ReadItems(k, s + t, size) == ReadItems(k, s, size)
    decreases |s|
  {
    hide ReadAtom, ReadItems;
    if size > 0 {
      ReadItemsFirst(k, s, size);
      ReadItemsFirst(k, s + t, size);
      AtomMore(k, s, t);
      var a := ReadAtom(k, s);
      ItemsMore(k, s[a.used..], t, size - a.used);
      Drop(s, t, a.used);
    } else {
      NegativeItems(k, s, size);
      NegativeItems(k, s + t, size);
    }
  }

  lemma PayloadMore(kind: Kind, s: seq<byte>, t: seq<byte>)
    requires !kind.Child? && ReadPayload(kind, s).Got?
    ensures ReadPayload(kind, s + t) == ReadPayload(kind, s)
  {
    hide ReadAtom, ReadItems, ReadVarint;
    match kind
    case Single(k) => AtomMore(k, s, t);
    case Rep(k) =>
      VarintMore(s, t, TWO32);
      var len := ReadVarint(s, TWO32);
      Drop(s, t, len.used);
      ItemsMore(k, s[len.used..], t, len.value);
  }

  lemma OneMore(sch: Schema, shape: Message, i: nat, s: seq<byte>, t: seq<byte>)
    requires Typed(sch, shape) && i < |shape.vals| && ReadOne(sch, shape, i, s).Got?
    ensures ReadOne(sch, shape, i, s + t) == ReadOne(sch, shape, i, s)
  {
    hide ReadVarint, ReadPayload, ReadFrom, WireType;
    var fd, tag := sch[shape.cls][i], ReadVarint(s, TWO32);
    VarintMore(s, t, TWO32);
    Drop(s, t, tag.used);
    if shape.vals[i].Sub? {
      var len := ReadVarint(s[tag.used..], TWO32);
      VarintMore(s[tag.used..], t, TWO32);
      var at := tag.used + len.used;
      assert (s + t)[at..at + len.value] == s[at..at + len.value];
    } else {
      PayloadMore(fd.kind, s[tag.used..], t);
    }
  }

  lemma {:induction false} FromMore(sch: Schema, shape: Message, i: nat, s: seq<byte>, t: seq<byte>)
    requires Typed(sch, shape) && i <= |shape.vals| && ReadFrom(sch, shape, i, s).Got?
    ensures ReadFrom(sch, shape, i, s + t) == ReadFrom(sch, shape, i, s)
    decreases |shape.vals| - i
  {
    hide ReadOne;
    if i < |shape.vals| {
      var v := ReadOne(sch, shape, i, s);
      OneMore(sch, shape, i, s, t);
      Drop(s, t, v.used);
      FromMore(sch, shape, i + 1, s[v.used..], t);
    }
  }

  // ----- exactly -----

  lemma TruncatedWindow(w: seq<byte>, at: nat, n: nat, b: seq<byte>, rest: seq<byte>)
    requires at <= |w| && w[at..] == b + rest && n <= |b|
    ensures at + n <= |w| && w[at..at + n] == b[..n]
  {
    assert w[at..at + n] == w[at..][..n];
  }

  /** A child of 2^32 bytes or more, or with such a child below it, does not come back: its bytes do not
      end where the truncated length says. */
  lemma {:induction false} FieldNeedsFit(sch: Schema, shape: Message, m: Message, i: nat, rest: seq<byte>)
    requires ValidSchema(sch) && Typed(sch, shape) && Typed(sch, m) && SameShape(shape, m)
    requires Carriable(sch, m) && i < |m.vals|
    requires var r := ReadOne(sch, shape, i, NestedField(sch, m, i) + rest); r.Got? && r.value == m.vals[i]
    ensures FieldFits(sch, m, i)
    decreases m, 0
  {
    hide ReadVarint, ReadPayload, Body, NestedBytes, NestedField, NestedFrom, ReadFrom, InLimits, Normal;
    if m.vals[i].Sub? {
      var c, b := m.vals[i].m, NestedBytes(sch, m.vals[i].m);
      var w := NestedField(sch, m, i) + rest;
      ChildParts(sch, m, i, rest);
      var tag := ReadVarint(w, TWO32);
      var at, n := tag.used + ReadVarint(w[tag.used..], TWO32).used, |b| % TWO32;
      TruncatedWindow(w, at, n, b, rest);
      FromMore(sch, shape.vals[i].m, 0, b[..n], b[n..]);
      assert b[..n] + b[n..] == b == b + [];
      NeedsFit(sch, shape.vals[i].m, c, []);
      MessageBack(sch, shape.vals[i].m, c, []);
    }
  }

  lemma {:induction false} FromNeedsFit(sch: Schema, shape: Message, m: Message, i: nat, rest: seq<byte>, j: nat)
    requires ValidSchema(sch) && Typed(sch, shape) && Typed(sch, m) && SameShape(shape, m)
    requires Carriable(sch, m) && i <= j < |m.vals| && |shape.vals| == |m.vals|
    requires var r := ReadFrom(sch, shape, i, NestedFrom(sch, m, i) + rest); r.Got? && r.value == m.vals[i..]
    ensures FieldFits(sch, m, j)
    decreases m, |m.vals| - i
  {
    hide NestedField, ReadOne, SameShape, Carriable, FieldFits;
    var x, y := NestedField(sch, m, i), NestedFrom(sch, m, i + 1);
    assert (x + y) + rest == x + (y + rest);
    assert (x + (y + rest))[|x|..] == y + rest;
    assert m.vals[i..] == [m.vals[i]] + m.vals[i + 1..];
    FieldNeedsFit(sch, shape, m, i, y + rest);
    FieldBack(sch, shape, m, i, y + rest);
    if i < j {
      FromNeedsFit(sch, shape, m, i + 1, rest, j);
    }
  }

  lemma {:induction false} NeedsFit(sch: Schema, shape: Message, m: Message, rest: seq<byte>)
    requires ValidSchema(sch) && Typed(sch, shape) && Typed(sch, m) && SameShape(shape, m) && Carriable(sch, m)
    requires var r := ReadFrom(sch, shape, 0, NestedBytes(sch, m) + rest); r.Got? && r.value == m.vals
    ensures ChildrenFit(sch, m)
    decreases m, |m.vals| + 1
  {
    hide NestedFrom, ReadFrom, Carriable;
    assert m.vals[0..] == m.vals;
    forall j | 0 <= j < |m.vals| && m.vals[j].Sub?
      ensures |NestedBytes(sch, m.vals[j].m)| < TWO32 && ChildrenFit(sch, m.vals[j].m)
    {
      FromNeedsFit(sch, shape, m, 0, rest, j);
    }
  }

  /** The nested form gives a message back, in front of any suffix, exactly when every child in it is
      shorter than 2^32 bytes. */
  lemma NestedExact(sch: Schema, shape: Message, m: Message, rest: seq<byte>)
    requires ValidSchema(sch) && Typed(sch, shape) && Typed(sch, m) && SameShape(shape, m) && Carriable(sch, m)
    ensures ReadMessage(sch, shape, NestedBytes(sch, m) + rest) == Got(m, |NestedBytes(sch, m)|)
       <==> ChildrenFit(sch, m)
  {
    hide NestedBytes, ReadFrom, Carriable, ChildrenFit;
    if ChildrenFit(sch, m) {
      MessageBack(sch, shape, m, rest);
    }
    if ReadMessage(sch, shape, NestedBytes(sch, m) + rest) == Got(m, |NestedBytes(sch, m)|) {
      NeedsFit(sch, shape, m, rest);
    }
  }

  // ----- without the schema -----

  /** The field numbers of a message, or Bad, to a reader that knows only tags and wire types. */
  function FieldNumbers(s: seq<byte>): Read<seq<nat>>
    decreases |s|
  {
    if s == [] then Got([], 0)
    else
      var tag := ReadVarint(s, TWO32);
      if tag.Bad? then Bad
      else
        var p := SkipPayload(tag.value % 8, s[tag.used..]);
        if p.Bad? || tag.used + p.used > |s| then Bad
        else
          var rest := FieldNumbers(s[tag.used + p.used..]);
          if rest.Bad? then Bad else Got([tag.value / 8] + rest.value, tag.used + p.used + rest.used)
  }

  /** Any field of the nested form, child or not, is one tag with the field number and a wire type that
      steps over exactly what follows. */
  lemma FieldDescribed(sch: Schema, m: Message, i: nat, rest: seq<byte>)
    requires ValidSchema(sch) && Typed(sch, m) && Carriable(sch, m) && ChildrenFit(sch, m) && i < |m.vals|
    ensures var w := NestedField(sch, m, i) + rest;
      var tag := ReadVarint(w, TWO32);
      && tag.Got? && 0 < tag.used <= |NestedField(sch, m, i)| && tag.value / 8 == sch[m.cls][i].id
      && SkipPayload(tag.value % 8, w[tag.used..]) == Got((), |NestedField(sch, m, i)| - tag.used)
  {
    hide ReadVarint, Body, NestedBytes, InLimits, Normal;
    if m.vals[i].Sub? {
      ChildParts(sch, m, i, rest);
      SmallMod(|NestedBytes(sch, m.vals[i].m)|, TWO32);
      TagDigits(sch[m.cls][i].id, 2);
      hide NestedField;
      var w := NestedField(sch, m, i) + rest;
      var tag := ReadVarint(w, TWO32);
      assert |w[tag.used..]| == |w| - tag.used;
    } else {
      TagDescribesPayload(sch[m.cls][i], m.vals[i], rest);
    }
  }

  ghost function Numbers(fields: seq<FieldDesc>, i: nat): seq<nat>
    requires i <= |fields|
    decreases |fields| - i
  {
    if i == |fields| then [] else [fields[i].id] + Numbers(fields, i + 1)
  }

  lemma {:induction false} NumbersBack(sch: Schema, m: Message, i: nat)
    requires ValidSchema(sch) && Typed(sch, m) && Carriable(sch, m) && ChildrenFit(sch, m) && i <= |m.vals|
    ensures FieldNumbers(NestedFrom(sch, m, i)) == Got(Numbers(sch[m.cls], i), |NestedFrom(sch, m, i)|)
    decreases |m.vals| - i
  {
    hide NestedField, ReadVarint, SkipPayload, Carriable, ChildrenFit;
    if i < |m.vals| {
      var x, y := NestedField(sch, m, i), NestedFrom(sch, m, i + 1);
      FieldDescribed(sch, m, i, y);
      NumbersBack(sch, m, i + 1);
      assert (x + y)[|x|..] == y;
    }
  }

  /** A reader without the schema finds the fields of any message, children included, in the order of the
      schema, and ends at its last byte. */
  lemma NestedNumbers(sch: Schema, m: Message)
    requires ValidSchema(sch) && Typed(sch, m) && Carriable(sch, m) && ChildrenFit(sch, m)
    ensures FieldNumbers(NestedBytes(sch, m)) == Got(Numbers(sch[m.cls], 0), |NestedBytes(sch, m)|)
  {
    hide NestedFrom, FieldNumbers, Carriable, ChildrenFit;
    NumbersBack(sch, m, 0);
  }
}
