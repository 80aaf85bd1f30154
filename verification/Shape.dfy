/** The inline stream alone, which is all the host parser reads. It may come back although objects of one
    class disagree, when a misread happens to give a blank field. This module proves the parser exact
    over a shape, the tree without its contents: objects of one class agree if and only if every tree of
    the shape comes back, whatever its fields hold. */
module Shape {
  import opened Words
  import opened Varint
  import opened Messages
  import opened Wire
  import opened Walk
  import opened ClassTable
  import opened Reader
  import opened Agreement

  // ----- marked fields -----

  /** The payload does not start like that of an empty string. */
  predicate Marked(kind: Kind, v: Value)
    requires FitsLeaf(kind, v)
  {
    var p := Payload(Base128, kind, v);
    p != [] && p[0] % 128 != 0
  }

  ghost predicate AllMarked(ls: seq<Leaf>)
    requires AllFit(ls)
  {
    forall l :: l in ls ==> Long(l.v) || Marked(l.fd.kind, l.v)
  }

  /** No string field reads as empty here. */
  ghost predicate NoBlank(z: seq<byte>) {
    forall kind: Kind :: !kind.Child? && IsText(kind.atom) ==>
      var r := ReadLeaf(INLINE, kind, false, z); r.Got? ==> r.value != Blank(kind)
  }

  lemma NoBlankAtEnd()
    ensures NoBlank([])
  {
  }

  lemma LowOfSum(b: byte, v: nat)
    requires b >= 128
    ensures (b - 128 + 128 * v) % TWO32 % 128 == b % 128
  {
    var x: int := b - 128 + 128 * v;
    var w := v - (x / TWO32) * 0x200_0000;
    assert x % TWO32 == (b - 128) + 128 * w;
  }

  lemma DecodedLow(s: seq<byte>, budget: nat)
    ensures var d := DecodeVarint(s, budget); d.Value? ==> s != [] && d.v % TWO32 % 128 == s[0] % 128
  {
    if budget > 0 && s != [] && s[0] >= 128 {
      var d := DecodeVarint(s[1..], budget - 1);
      if d.Value? { LowOfSum(s[0], d.v); }
    }
  }

  lemma VarintLow(s: seq<byte>)
    ensures var r := ReadVarint(s, TWO32); r.Got? ==> s != [] && r.value % 128 == s[0] % 128
  {
    hide DecodeVarint;
    DecodedLow(s, 10);
  }

  lemma PayloadNoBlank(kind: Kind, s: seq<byte>)
    requires !kind.Child? && IsText(kind.atom) && s != [] && s[0] % 128 != 0
    ensures var r := ReadPayload(kind, s); r.Got? ==> r.value != Blank(kind)
  {
    hide ReadVarint;
    VarintLow(s);
  }

  lemma FrameNoBlank(l: Leaf, z: seq<byte>)
    requires FitsLeaf(l.fd.kind, l.v) && l.fd.id < 128 && Marked(l.fd.kind, l.v)
    ensures NoBlank(Frame(Base128, l.fd, l.v) + z)
  {
    hide Prefix16, Payload, EncodeVarint, ReadVarint, ReadPayload, LittleEndian, Blank;
    var fd, v := l.fd, l.v;
    var tag, p := TagBytes(Base128, fd), Payload(Base128, fd.kind, v);
    var w := Frame(Base128, fd, v) + z;
    assert w == LittleEndian(Prefix16(Base128, fd, v), 2) + (tag + (p + z));
    assert w[2..] == tag + (p + z);
    VarintRoundTrip(fd.id * 8 + WireType(fd.kind), p + z, TWO32);
    assert w[2 + |tag|..] == p + z;
    forall kind: Kind | !kind.Child? && IsText(kind.atom)
      ensures var r := ReadLeaf(INLINE, kind, false, w); r.Got? ==> r.value != Blank(kind)
    {
      PayloadNoBlank(kind, p + z);
    }
  }

  lemma {:induction false} FlatNoBlank(ls: seq<Leaf>, z: seq<byte>)
    requires AllTagged(ls) && AllMarked(ls) && NoBlank(z)
    ensures NoBlank(Flat(INLINE, ls) + z)
  {
    hide NoBlank, Frame, Marked, Long;
    if ls == [] {
      assert Flat(INLINE, ls) + z == z;
    } else {
      var tail := Flat(INLINE, ls[1..]);
      FlatNoBlank(ls[1..], z);
      if Long(ls[0].v) {
        assert Flat(INLINE, ls) == tail;
      } else {
        FrameNoBlank(ls[0], tail + z);
        assert Flat(INLINE, ls) + z == Frame(Base128, ls[0].fd, ls[0].v) + (tail + z);
      }
    }
  }

  // ----- with a table that skips strings only -----

  ghost predicate SkipsText(sch: Schema, t: Table, c: nat, i: nat)
    requires c in sch && i < |sch[c]|
  {
    var fd := sch[c][i];
    c in t && fd.id in t[c].fields && Skipped(t[c].fields[fd.id]) ==> !fd.kind.Child? && IsText(fd.kind.atom)
  }

  ghost predicate AllSkipText(sch: Schema, t: Table, cs: set<nat>) {
    forall c, i :: c in cs && c in sch && 0 <= i < |sch[c]| ==> SkipsText(sch, t, c, i)
  }

  lemma MarkedIsNotBlank(kind: Kind, v: Value)
    requires FitsLeaf(kind, v) && IsText(kind.atom) && Marked(kind, v)
    ensures v != Blank(kind)
  {
  }

  lemma InlineLeaf(sch: Schema, t: Table, stack: set<nat>, m: Message, i: nat, z: seq<byte>)
    requires ValidSchema(sch) && Typed(sch, m) && i < |m.vals| && !m.vals[i].Sub? && NoBlank(z)
    requires var l := Leaf(sch[m.cls][i], m.vals[i]);
      && InLimits(l.fd.kind, l.v) && (Long(l.v) || Marked(l.fd.kind, l.v))
      && SkipsText(sch, t, m.cls, i)
      && RecoversField(INLINE, sch, t, stack, m, i, LeafBytes(INLINE, l) + z)
    ensures var w := LeafBytes(INLINE, Leaf(sch[m.cls][i], m.vals[i]));
      ReadField(INLINE, sch, t, stack, m.cls, i, w + z).used == |w|
    ensures Right(sch, t, m, i)
  {
    hide InLimits, Marked, Frame, Blank, Normal, ReadPayload, ReadHeader, Long;
    var fd, v := sch[m.cls][i], m.vals[i];
    var l := Leaf(fd, v);
    var e := EntryOf(sch, t, m, i);
    LeafRoundTrip(INLINE, l, z);
    if Long(v) {
      LongIsText(fd.kind, v);
      assert LeafBytes(INLINE, l) + z == z;
      assert Skipped(e);
    } else if Skipped(e) {
      NormalText(fd.kind, v);
      MarkedIsNotBlank(fd.kind, v);
      assert false;
    }
  }

  lemma MarkedSplit(xs: seq<Leaf>, ys: seq<Leaf>)
    requires AllFit(xs) && AllFit(ys) && AllFit(xs + ys) && AllInLimits(xs + ys) && AllMarked(xs + ys)
    ensures AllInLimits(xs) && AllInLimits(ys) && AllMarked(xs) && AllMarked(ys)
  {
    hide InLimits, Marked, Long;
    assert forall l :: l in xs || l in ys ==> l in xs + ys;
  }

  lemma LeavesTagged(sch: Schema, m: Message, k: nat)
    requires ValidSchema(sch) && Typed(sch, m) && k <= |m.vals|
    ensures AllTagged(Leaves(sch, m, k))
  {
    forall l | l in Leaves(sch, m, k) ensures l.fd.id < 128 {
      LeavesValid(sch, m, k, l);
    }
  }

  /** In front of bytes that do not read as blank, marked fields come back only with the right table. */
  lemma {:induction false} InlineCursor(sch: Schema, t: Table, stack: set<nat>, m: Message, k: nat, z: seq<byte>,
                                        n: Message, i: nat)
    requires ValidSchema(sch) && Typed(sch, m) && k <= |m.vals| && NoBlank(z)
    requires AllSkipText(sch, t, ClassesOf(Nodes(m)))
    requires AllInLimits(Leaves(sch, m, k)) && AllMarked(Leaves(sch, m, k))
    requires Recovers(INLINE, sch, t, stack, m, k, Flat(INLINE, Leaves(sch, m, k)) + z)
    requires Typed(sch, n) && i < |n.vals|
    ensures var w := Flat(INLINE, Leaves(sch, m, k));
      ReadFields(INLINE, sch, t, stack, m.cls, k, w + z).used == |w|
    ensures Reaches(m, k, n, i) ==> Right(sch, t, n, i)
    decreases m, k
  {
    hide Recovers, RecoversField, Right, ReadFields, ReadField, Flat, FieldLeaves, NoBlank, InLimits, Marked, Long;
    hide AllSkipText;
    if k == 0 {
      FlatNone(INLINE);
      ReadNoFields(INLINE, sch, t, stack, m.cls, [] + z);
    } else {
      var j := k - 1;
      var head, tail := FieldLeaves(sch, m, j), Leaves(sch, m, j);
      FlatConcat(INLINE, head, tail);
      var x, y := Flat(INLINE, head), Flat(INLINE, tail);
      assert (x + y) + z == x + (y + z);
      assert (x + (y + z))[|x|..] == y + z;
      MarkedSplit(head, tail);
      LeavesTagged(sch, m, j);
      FlatNoBlank(tail, z);
      RecoversLast(INLINE, sch, t, stack, m, k, x + (y + z));
      InlineFieldCursor(sch, t, stack, m, j, y + z, n, i);
      InlineCursor(sch, t, stack, m, j, z, n, i);
    }
  }

  lemma {:induction false} InlineFieldCursor(sch: Schema, t: Table, stack: set<nat>, m: Message, j: nat, z: seq<byte>,
                                             n: Message, i: nat)
    requires ValidSchema(sch) && Typed(sch, m) && j < |m.vals| && NoBlank(z)
    requires AllSkipText(sch, t, ClassesOf(Nodes(m)))
    requires AllInLimits(FieldLeaves(sch, m, j)) && AllMarked(FieldLeaves(sch, m, j))
    requires RecoversField(INLINE, sch, t, stack, m, j, Flat(INLINE, FieldLeaves(sch, m, j)) + z)
    requires Typed(sch, n) && i < |n.vals|
    ensures var w := Flat(INLINE, FieldLeaves(sch, m, j));
      var r := ReadField(INLINE, sch, t, stack, m.cls, j, w + z);
      r.Got? && r.used == |w|
    ensures ReachesField(m, j, n, i) ==> Right(sch, t, n, i)
    decreases m, j
  {
    hide Recovers, Right, ReadFields, ReadField, Flat, Leaves, NoBlank, InLimits, Marked, Long, SkipsText;
    var w := Flat(INLINE, FieldLeaves(sch, m, j));
    if m.vals[j].Sub? {
      var c := m.vals[j].m;
      RecoversChild(INLINE, sch, t, stack, m, j, w + z);
      ChildRight(sch, t, m, j);
      ChildNodes(m, |m.vals|, j);
      InlineCursor(sch, t, stack + {c.cls}, c, |c.vals|, z, n, i);
      assert n in Nodes(c) ==> Reaches(c, |c.vals|, n, i);
    } else {
      var l := Leaf(sch[m.cls][j], m.vals[j]);
      FlatOne(INLINE, l);
      assert l in FieldLeaves(sch, m, j) && m in Nodes(m);
      InlineLeaf(sch, t, stack, m, j, z);
    }
  }

  lemma EntryOfText(kind: Kind, v: Value)
    requires Fits(kind, v)
    ensures Skipped(EntryFor(kind, v)) ==> !kind.Child? && IsText(kind.atom)
  {
    EntrySkips(kind, v);
    if !kind.Child? && Long(v) { LongIsText(kind, v); }
  }

  lemma LookupSkipsText(sch: Schema, t: Table, c: nat, i: nat)
    requires c in sch && i < |sch[c]|
    ensures var e := Lookup(t, c, sch[c][i].id);
      SkipsText(sch, t, c, i) <==>
        (e.Some? && Skipped(e.value) ==> !sch[c][i].kind.Child? && IsText(sch[c][i].kind.atom))
  {
  }

  /** Whatever the table held before, the walk leaves entries that skip only strings for the classes it
      meets, and no new ones for others. */
  lemma SendSkipsText(sch: Schema, st: SendState, m: Message, c: nat, i: nat)
    requires TableSchema(sch) && Typed(sch, m) && c in sch && i < |sch[c]|
    requires SkipsText(sch, st.table, c, i) || c in ClassesOf(Nodes(m))
    ensures SkipsText(sch, Send(sch, st, m).table, c, i)
  {
    hide EntryFor, Send, SkipsText, Skipped, Lookup, LastBelow;
    var id := sch[c][i].id;
    SendLast(sch, st, m, c, id);
    LookupSkipsText(sch, st.table, c, i);
    LookupSkipsText(sch, Send(sch, st, m).table, c, i);
    if LastBelow(sch, m, |m.vals|, c, id).Some? {
      var n, j := LastFrom(sch, m, |m.vals|, c, id);
      SameField(sch, c, i, j);
      EntryOfText(sch[c][i].kind, n.vals[i]);
    } else if c in ClassesOf(Nodes(m)) {
      var n :| n in Nodes(m) && n.cls == c;
      NodesTyped(sch, m, n);
      LastExists(sch, m, |m.vals|, n, i);
    }
  }

  /** A tree whose short fields are all marked comes back from the inline stream exactly when its objects
      agree. */
  lemma MarkedExact(sch: Schema, start: SendState, m: Message)
    requires TableSchema(sch) && Typed(sch, m) && AllInLimits(AllLeaves(sch, m)) && AllMarked(AllLeaves(sch, m))
    ensures Returns(INLINE, sch, start, m, []) <==> Agree(sch, Nodes(m))
  {
    hide Agree, Send, InLimits, Marked, NoBlank, SkipsText, Flat, Leaves, ReadFields, ValuesBack, Right;
    if Agree(sch, Nodes(m)) {
      SplitRoundTrip(INLINE, sch, start, m, []);
    }
    if Returns(INLINE, sch, start, m, []) {
      var t := Send(sch, start, m).table;
      forall c, i | c in ClassesOf(Nodes(m)) && c in sch && 0 <= i < |sch[c]| ensures SkipsText(sch, t, c, i) {
        SendSkipsText(sch, start, m, c, i);
      }
      NoBlankAtEnd();
      forall n, i | n in Nodes(m) && Typed(sch, n) && 0 <= i < |n.vals| ensures Right(sch, t, n, i) {
        InlineCursor(sch, t, {m.cls}, m, |m.vals|, [], n, i);
      }
      RightAgree(sch, t, m);
    }
  }

  // ----- whatever the fields contain -----

  /** The same tree of classes with the same fields long: all that the class table records. */
  ghost predicate SameShape(sch: Schema, a: Message, b: Message)
    requires Typed(sch, a) && Typed(sch, b)
    decreases a
  {
    && a.cls == b.cls
    && forall i :: 0 <= i < |a.vals| ==>
         if a.vals[i].Sub? then b.vals[i].Sub? && SameShape(sch, a.vals[i].m, b.vals[i].m)
         else !b.vals[i].Sub? && (Long(a.vals[i]) <==> Long(b.vals[i]))
  }

  lemma {:induction false} SameShapeSym(sch: Schema, a: Message, b: Message)
    requires Typed(sch, a) && Typed(sch, b) && SameShape(sch, a, b)
    ensures SameShape(sch, b, a)
    decreases a
  {
    forall i | 0 <= i < |b.vals| && b.vals[i].Sub? ensures SameShape(sch, b.vals[i].m, a.vals[i].m) {
      assert a.vals[i].Sub?;
      SameShapeSym(sch, a.vals[i].m, b.vals[i].m);
    }
  }

  lemma {:induction false} Counterpart(sch: Schema, a: Message, b: Message, n: Message) returns (c: Message)
    requires Typed(sch, a) && Typed(sch, b) && SameShape(sch, a, b) && n in Nodes(a)
    ensures Typed(sch, n) && Typed(sch, c) && c in Nodes(b) && SameShape(sch, n, c)
    decreases a
  {
    if n == a {
      c := b;
    } else {
      var i := WhichChild(a, |a.vals|, n);
      c := Counterpart(sch, a.vals[i].m, b.vals[i].m, n);
      ChildNodes(b, |b.vals|, i);
    }
  }

  lemma SameShapeEntry(sch: Schema, a: Message, b: Message, i: nat)
    requires Typed(sch, a) && Typed(sch, b) && SameShape(sch, a, b) && i < |a.vals|
    ensures EntryFor(sch[a.cls][i].kind, a.vals[i]) == EntryFor(sch[a.cls][i].kind, b.vals[i])
  {
    hide Long;
  }

  lemma SameShapeClass(sch: Schema, a: Message, b: Message)
    requires Typed(sch, a) && Typed(sch, b) && SameShape(sch, a, b)
    ensures a.cls == b.cls
  {
  }

  lemma SameShapeAgree(sch: Schema, a: Message, b: Message)
    requires Typed(sch, a) && Typed(sch, b) && SameShape(sch, a, b) && Agree(sch, Nodes(b))
    ensures Agree(sch, Nodes(a))
  {
    hide SameShape, EntryFor, Nodes;
    forall n | n in Nodes(a) ensures Typed(sch, n) {
      NodesTyped(sch, a, n);
    }
    forall n1, n2, i | n1 in Nodes(a) && n2 in Nodes(a) && n1.cls == n2.cls && 0 <= i < |n1.vals|
      ensures EntryFor(sch[n1.cls][i].kind, n1.vals[i]) == EntryFor(sch[n1.cls][i].kind, n2.vals[i])
    {
      var c1 := Counterpart(sch, a, b, n1);
      var c2 := Counterpart(sch, a, b, n2);
      SameShapeClass(sch, n1, c1);
      SameShapeClass(sch, n2, c2);
      SameShapeEntry(sch, n1, c1, i);
      SameShapeEntry(sch, n2, c2, i);
    }
  }

  // ----- a marked tree of every shape -----

  // A value of the kind, long or marked.
  function SampleLeaf(kind: Kind, long: bool): Value
    requires !kind.Child?
  {
    var a := if long then Text(Zeros(1025)) else if IsText(kind.atom) then Text([1]) else Num(1);
    if kind.Single? then One(a) else Many([a])
  }

  ghost function SampleValues(sch: Schema, m: Message, k: nat): (r: seq<Value>)
    requires Typed(sch, m) && k <= |m.vals|
    ensures |r| == k
    decreases m, k
  {
    if k == 0 then [] else SampleValues(sch, m, k - 1) + [SampleValue(sch, m, k - 1)]
  }

  ghost function SampleValue(sch: Schema, m: Message, i: nat): Value
    requires Typed(sch, m) && i < |m.vals|
    decreases m, i
  {
    if m.vals[i].Sub? then Sub(Sample(sch, m.vals[i].m)) else SampleLeaf(sch[m.cls][i].kind, Long(m.vals[i]))
  }

  /** A tree of the same shape whose short fields are all marked. */
  ghost function Sample(sch: Schema, m: Message): Message
    requires Typed(sch, m)
    decreases m, |m.vals| + 1
  {
    Message(m.cls, SampleValues(sch, m, |m.vals|))
  }

  lemma {:induction false} SampleAt(sch: Schema, m: Message, k: nat, i: nat)
    requires Typed(sch, m) && i < k <= |m.vals|
    ensures SampleValues(sch, m, k)[i] == SampleValue(sch, m, i)
  {
    hide SampleValue;
    if i < k - 1 {
      SampleAt(sch, m, k - 1, i);
    }
  }

  lemma OneItem(k: AtomKind, a: Atom)
    ensures ItemsSize(Base128, k, [a]) == AtomSize(Base128, k, a)
    ensures ItemsCounted(Base128, k, [a]) == CountedSize(Base128, k, a)
  {
    hide AtomSize, CountedSize;
    assert ItemsSize(Base128, k, [a]) == AtomSize(Base128, k, a) + ItemsSize(Base128, k, []);
    assert ItemsCounted(Base128, k, [a]) == CountedSize(Base128, k, a) + ItemsCounted(Base128, k, []);
  }

  lemma LongSample(kind: Kind)
    requires !kind.Child? && IsText(kind.atom)
    ensures var r := SampleLeaf(kind, true); FitsLeaf(kind, r) && Long(r) && InLimits(kind, r)
  {
    hide VarintSize;
    var a := Text(Zeros(1025));
    VarintSizeExact(1025);
    OneItem(kind.atom, a);
    assert LongAtom([a][0]);
  }

  lemma OneByte(n: nat)
    requires n < 128
    ensures EncodeVarint(n) == [n] && VarintSize(1) == 1
  {
  }

  lemma FirstOfOne(w: nat)
    requires w > 0
    ensures LittleEndian(1, w)[0] == 1
  {
  }

  lemma ShortNumber(k: AtomKind)
    requires !IsText(k)
    ensures FitsAtom(k, Num(1)) && Raw(k, 1) == 1 && Extended(k, 1) == 1
  {
    SmallMod(1, Modulus(k));
  }

  lemma ShortAtom(k: AtomKind, a: Atom)
    requires a == if IsText(k) then Text([1]) else Num(1)
    ensures FitsAtom(k, a) && AtomBytes(Base128, k, a) != [] && AtomBytes(Base128, k, a)[0] == 1
    ensures AtomSize(Base128, k, a) < 128 && 0 < CountedSize(Base128, k, a) < 128
  {
    OneByte(1);
    FirstOfOne(Width(k));
    if !IsText(k) {
      ShortNumber(k);
    }
    hide LittleEndian, EncodeVarint, Raw, Extended, VarintSize;
  }

  lemma ShortList(k: AtomKind, a: Atom)
    requires FitsAtom(k, a) && AtomSize(Base128, k, a) < 128 && 0 < CountedSize(Base128, k, a) < 128
    requires a.Text? ==> |a.s| == 1
    ensures FitsAll(k, [a]) && InLimits(Rep(k), Many([a])) && Marked(Rep(k), Many([a])) && !Long(Many([a]))
  {
    hide AtomBytes, AtomSize, CountedSize, ItemsBytes, ItemsSize, ItemsCounted, FitsAtom, EncodeVarint;
    OneItem(k, a);
    var n := CountedSize(Base128, k, a);
    OneByte(n);
    SmallMod(n, TWO32);
    assert Payload(Base128, Rep(k), Many([a])) == [n] + ItemsBytes(Base128, k, [a]);
  }

  lemma ShortSample(kind: Kind)
    requires !kind.Child?
    ensures var r := SampleLeaf(kind, false);
      FitsLeaf(kind, r) && !Long(r) && InLimits(kind, r) && Marked(kind, r)
  {
    hide AtomBytes, AtomSize, CountedSize, ItemsBytes, ItemsSize, ItemsCounted, FitsAtom, FitsAll, EncodeVarint;
    var k := kind.atom;
    var a := if IsText(k) then Text([1]) else Num(1);
    ShortAtom(k, a);
    assert SampleLeaf(kind, false) == if kind.Single? then One(a) else Many([a]);
    if kind.Rep? {
      ShortList(k, a);
      hide InLimits, Marked, Long;
    }
  }

  lemma SampleLeafFits(kind: Kind, v: Value)
    requires FitsLeaf(kind, v)
    ensures var r := SampleLeaf(kind, Long(v));
      && FitsLeaf(kind, r) && (Long(r) <==> Long(v))
      && InLimits(kind, r) && (Long(r) || Marked(kind, r))
  {
    if Long(v) {
      LongIsText(kind, v);
      LongSample(kind);
    } else {
      ShortSample(kind);
    }
  }

  lemma SampleFieldFits(sch: Schema, m: Message, i: nat)
    requires Typed(sch, m) && i < |m.vals| && !m.vals[i].Sub?
    ensures var kind, v := sch[m.cls][i].kind, m.vals[i];
      var r := SampleLeaf(kind, Long(v));
      && FitsLeaf(kind, v) && Fits(kind, r) && !r.Sub? && (Long(v) <==> Long(r))
      && InLimits(kind, r) && (Long(r) || Marked(kind, r))
  {
    hide InLimits, Marked, Long;
    SampleLeafFits(sch[m.cls][i].kind, m.vals[i]);
  }

  lemma {:induction false} SampleTyped(sch: Schema, m: Message)
    requires Typed(sch, m)
    ensures Typed(sch, Sample(sch, m)) && SameShape(sch, m, Sample(sch, m))
    decreases m
  {
    hide SampleLeaf, FitsAtom, FitsAll, Long;
    var r := Sample(sch, m);
    forall i | 0 <= i < |m.vals|
      ensures Fits(sch[m.cls][i].kind, r.vals[i]) && (r.vals[i].Sub? ==> Typed(sch, r.vals[i].m))
      ensures if m.vals[i].Sub? then r.vals[i].Sub? && SameShape(sch, m.vals[i].m, r.vals[i].m)
              else !r.vals[i].Sub? && (Long(m.vals[i]) <==> Long(r.vals[i]))
    {
      SampleAt(sch, m, |m.vals|, i);
      assert Fits(sch[m.cls][i].kind, m.vals[i]);
      if m.vals[i].Sub? {
        assert sch[m.cls][i].kind.Child?;
        SampleTyped(sch, m.vals[i].m);
      } else {
        SampleFieldFits(sch, m, i);
      }
    }
  }

  lemma {:induction false} SampleMarked(sch: Schema, m: Message, k: nat, l: Leaf)
    requires Typed(sch, m) && k <= |m.vals|
    ensures var r := Sample(sch, m);
      && Typed(sch, r) && |r.vals| == |m.vals|
      && (l in Leaves(sch, r, k) ==>
            FitsLeaf(l.fd.kind, l.v) && InLimits(l.fd.kind, l.v) && (Long(l.v) || Marked(l.fd.kind, l.v)))
    decreases m, k
  {
    hide InLimits, Marked, Long, SampleLeaf;
    SampleTyped(sch, m);
    if k > 0 {
      var i := k - 1;
      SampleMarked(sch, m, i, l);
      SampleAt(sch, m, |m.vals|, i);
      var r := Sample(sch, m);
      assert Leaves(sch, r, k) == FieldLeaves(sch, r, i) + Leaves(sch, r, i);
      if m.vals[i].Sub? {
        var c := m.vals[i].m;
        assert FieldLeaves(sch, r, i) == Leaves(sch, Sample(sch, c), |c.vals|);
        SampleMarked(sch, m.vals[i].m, |m.vals[i].m.vals|, l);
      } else {
        SampleFieldFits(sch, m, i);
      }
    }
  }

  lemma AgreeReturns(sch: Schema, start: SendState, m: Message, rest: seq<byte>)
    requires TableSchema(sch) && Typed(sch, m) && Agree(sch, Nodes(m)) && AllInLimits(AllLeaves(sch, m))
    ensures Returns(INLINE, sch, start, m, rest)
  {
    hide Send, Agree, Flat, Parse, InLimits;
    SplitRoundTrip(INLINE, sch, start, m, rest);
  }

  /** The parser of the inline stream, exactly: objects of one class agree if and only if every tree of
      this shape comes back, whatever its fields contain. */
  lemma ShapeExact(sch: Schema, start: SendState, m: Message)
    requires TableSchema(sch) && Typed(sch, m)
    ensures Agree(sch, Nodes(m)) <==>
      forall r, rest :: Typed(sch, r) && SameShape(sch, m, r) && AllInLimits(AllLeaves(sch, r)) ==>
        Returns(INLINE, sch, start, r, rest)
  {
    hide Agree, Nodes, InLimits, Marked, Long, SameShape, Returns, Send, Leaves, Sample;
    if Agree(sch, Nodes(m)) {
      forall r, rest | Typed(sch, r) && SameShape(sch, m, r) && AllInLimits(AllLeaves(sch, r))
        ensures Returns(INLINE, sch, start, r, rest)
      {
        SameShapeSym(sch, m, r);
        SameShapeAgree(sch, r, m);
        AgreeReturns(sch, start, r, rest);
      }
    } else {
      var r := Sample(sch, m);
      SampleTyped(sch, m);
      forall l | l in AllLeaves(sch, r) ensures InLimits(l.fd.kind, l.v) && (Long(l.v) || Marked(l.fd.kind, l.v)) {
        SampleMarked(sch, m, |m.vals|, l);
      }
      MarkedExact(sch, start, r);
      if Agree(sch, Nodes(r)) { SameShapeAgree(sch, m, r); }
      assert !Returns(INLINE, sch, start, r, []);
    }
  }
}
