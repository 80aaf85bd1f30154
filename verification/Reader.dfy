/** ParseFromString_DFS (include/encode_main.h:1566-1834) and the decoder the side stream admits, as
    functions of the bytes, the schema and the class table; and the theorem that together they undo
    the two writing walks. */
module Reader {
  import opened Words
  import opened Varint
  import opened Messages
  import opened Wire
  import opened Walk
  import opened ClassTable

  const INLINE := Inline(Base128, true)

  // ----- one field -----

  /** The parser reads the header of a field unless the table says the field is skipped; a skipped
      string stays as the fresh object has it. */
  function ReadLeaf(st: Stream, kind: Kind, skipped: bool, s: seq<byte>): (r: Read<Value>)
    requires !kind.Child?
    ensures r.Got? ==> r.used <= |s|
  {
    match st
    case Side => if skipped then ReadSide(kind, s) else Got(Blank(kind), 0)
    case Inline(_, _) =>
      if skipped then (if IsText(kind.atom) then Got(Blank(kind), 0) else ReadPayload(kind, s))
      else
        var h := ReadHeader(s);
        if h.Bad? then Bad
        else
          var v := ReadPayload(kind, s[h.used..]);
          if v.Bad? then Bad else Got(v.value, h.used + v.used)
  }

  // ----- the walk -----

  /** Reads fields k-1 down to 0 of an object of class `cls`. `stack` holds the classes of the objects
      being read: child pointers are always followed and the child class is fixed by the table, so
      coming back to a class on the stack would recurse for ever. */
  function ReadFields(st: Stream, sch: Schema, t: Table, stack: set<nat>, cls: nat, k: nat, s: seq<byte>)
      : (r: Read<seq<Value>>)
    requires cls in sch && k <= |sch[cls]|
    ensures r.Got? ==> r.used <= |s| && |r.value| == k
    decreases sch.Keys - stack, k
  {
    if k == 0 then Got([], 0)
    else
      var v := ReadField(st, sch, t, stack, cls, k - 1, s);
      if v.Bad? then Bad
      else
        var rest := ReadFields(st, sch, t, stack, cls, k - 1, s[v.used..]);
        if rest.Bad? then Bad else Got(rest.value + [v.value], v.used + rest.used)
  }

  function ReadField(st: Stream, sch: Schema, t: Table, stack: set<nat>, cls: nat, i: nat, s: seq<byte>)
      : (r: Read<Value>)
    requires cls in sch && i < |sch[cls]|
    ensures r.Got? ==> r.used <= |s|
    decreases sch.Keys - stack, i
  {
    var fd := sch[cls][i];
    if cls !in t || fd.id !in t[cls].fields then Bad
    else
      var e := t[cls].fields[fd.id];
      if !fd.kind.Child? then ReadLeaf(st, fd.kind, Skipped(e), s)
      else
        var next := e.subClass;
        if next !in sch || next in stack then Bad
        else
          var vs := ReadFields(st, sch, t, stack + {next}, next, |sch[next]|, s);
          if vs.Bad? then Bad else Got(Sub(Message(next, vs.value)), vs.used)
  }

  function Parse(st: Stream, sch: Schema, t: Table, cls: nat, s: seq<byte>): Read<Message>
    requires cls in sch
  {
    var vs := ReadFields(st, sch, t, {cls}, cls, |sch[cls]|, s);
    if vs.Bad? then Bad else Got(Message(cls, vs.value), vs.used)
  }

  // ----- what comes back -----

  /** Inline: the value with repeated bools as 0/1, blank if long. Side: the padded strings of a long
      field, blank otherwise. */
  function LeafBack(st: Stream, kind: Kind, v: Value): Value
    requires FitsLeaf(kind, v)
  {
    if st.Side? then (if Long(v) then PaddedValue(v) else Blank(kind))
    else if Long(v) then Blank(kind)
    else Normal(kind, v)
  }

  ghost function ValuesBack(st: Stream, sch: Schema, m: Message, k: nat): (r: seq<Value>)
    requires Typed(sch, m) && k <= |m.vals|
    ensures |r| == k
    decreases m, k
  {
    if k == 0 then [] else ValuesBack(st, sch, m, k - 1) + [ValueBack(st, sch, m, k - 1)]
  }

  ghost function ValueBack(st: Stream, sch: Schema, m: Message, i: nat): Value
    requires Typed(sch, m) && i < |m.vals|
    decreases m, i
  {
    if m.vals[i].Sub? then Sub(Back(st, sch, m.vals[i].m))
    else LeafBack(st, sch[m.cls][i].kind, m.vals[i])
  }

  ghost function Back(st: Stream, sch: Schema, m: Message): Message
    requires Typed(sch, m)
    decreases m, |m.vals| + 1
  {
    Message(m.cls, ValuesBack(st, sch, m, |m.vals|))
  }

  ghost predicate AllInLimits(ls: seq<Leaf>)
    requires AllFit(ls)
  {
    forall l :: l in ls ==> InLimits(l.fd.kind, l.v)
  }

  // ----- no class lies below itself -----

  ghost function ClassesBelow(m: Message, k: nat): set<nat>
    requires k <= |m.vals|
  {
    ClassesOf(NodesBelow(m, k))
  }

  lemma {:induction false} SubtreeCoherent(sch: Schema, t: Table, m: Message, i: nat)
    requires Typed(sch, m) && Coherent(sch, t, m) && i < |m.vals| && m.vals[i].Sub?
    ensures Coherent(sch, t, m.vals[i].m)
  {
    hide Shows;
    ChildNodes(m, |m.vals|, i);
  }

  lemma ChildClass(sch: Schema, t: Table, m: Message, i: nat)
    requires Typed(sch, m) && Coherent(sch, t, m) && i < |m.vals| && m.vals[i].Sub?
    ensures sch[m.cls][i].kind.Child?
    ensures m.cls in t && sch[m.cls][i].id in t[m.cls].fields
    ensures t[m.cls].fields[sch[m.cls][i].id].subClass == m.vals[i].m.cls
  {
    assert m in Nodes(m);
    assert Shows(sch, t, m, i);
  }

  lemma ClassesBelowStep(m: Message, k: nat)
    requires 0 < k <= |m.vals| && m.vals[k - 1].Sub?
    ensures var c := m.vals[k - 1].m;
      ClassesBelow(m, k) == ClassesBelow(m, k - 1) + {c.cls} + ClassesBelow(c, |c.vals|)
  {
    var c := m.vals[k - 1].m;
    assert NodesBelow(m, k) == NodesBelow(m, k - 1) + ({c} + NodesBelow(c, |c.vals|));
  }

  /** Described by one table, objects of the same class have the same classes below them. */
  lemma {:induction false} SameClassesBelow(sch: Schema, t: Table, a: Message, b: Message, k: nat)
    requires Typed(sch, a) && Typed(sch, b) && a.cls == b.cls && k <= |a.vals|
    requires Coherent(sch, t, a) && Coherent(sch, t, b)
    ensures ClassesBelow(a, k) == ClassesBelow(b, k)
    decreases a, k
  {
    hide Shows, Coherent;
    if k > 0 {
      SameClassesBelow(sch, t, a, b, k - 1);
      if a.vals[k - 1].Sub? {
        ChildClass(sch, t, a, k - 1);
        ChildClass(sch, t, b, k - 1);
        SubtreeCoherent(sch, t, a, k - 1);
        SubtreeCoherent(sch, t, b, k - 1);
        var x, y := a.vals[k - 1].m, b.vals[k - 1].m;
        SameClassesBelow(sch, t, x, y, |x.vals|);
        ClassesBelowStep(a, k);
        ClassesBelowStep(b, k);
      } else {
        assert NodesBelow(a, k) == NodesBelow(a, k - 1);
        assert !b.vals[k - 1].Sub? && NodesBelow(b, k) == NodesBelow(b, k - 1);
      }
    }
  }

  lemma {:induction false} NodeCoherent(sch: Schema, t: Table, m: Message, n: Message)
    requires Typed(sch, m) && Coherent(sch, t, m) && n in Nodes(m)
    ensures Typed(sch, n) && Coherent(sch, t, n)
    decreases m
  {
    hide Shows, Coherent;
    if n != m {
      var i := WhichChild(m, |m.vals|, n);
      SubtreeCoherent(sch, t, m, i);
      NodeCoherent(sch, t, m.vals[i].m, n);
    }
  }

  ghost function Count(m: Message): nat
    decreases m, |m.vals| + 1
  {
    1 + CountBelow(m, |m.vals|)
  }

  ghost function CountBelow(m: Message, k: nat): nat
    requires k <= |m.vals|
    decreases m, k
  {
    if k == 0 then 0
    else CountBelow(m, k - 1) + if m.vals[k - 1].Sub? then Count(m.vals[k - 1].m) else 0
  }

  lemma {:induction false} NodesAreSmaller(m: Message, k: nat, n: Message)
    requires k <= |m.vals| && n in NodesBelow(m, k)
    ensures Count(n) <= CountBelow(m, k)
    decreases m, k
  {
    if n in NodesBelow(m, k - 1) {
      NodesAreSmaller(m, k - 1, n);
    } else {
      var c := m.vals[k - 1].m;
      if n != c {
        NodesAreSmaller(c, |c.vals|, n);
      }
    }
  }

  /** A finite tree that one table describes never has a class below itself: an object of the same
      class would need another one below it, and so on for ever. */
  lemma {:induction false} NoClassBelowItself(sch: Schema, t: Table, m: Message)
    requires Typed(sch, m) && Coherent(sch, t, m)
    ensures m.cls !in ClassesBelow(m, |m.vals|)
    decreases Count(m)
  {
    hide Shows, Coherent;
    if m.cls in ClassesBelow(m, |m.vals|) {
      var n :| n in NodesBelow(m, |m.vals|) && n.cls == m.cls;
      NodesAreSmaller(m, |m.vals|, n);
      NodeCoherent(sch, t, m, n);
      SameClassesBelow(sch, t, n, m, |n.vals|);
      NoClassBelowItself(sch, t, n);
    }
  }

  // ----- the round trip -----

  ghost predicate Undoes(st: Stream) {
    st.Side? || st == Inline(Base128, true)
  }

  lemma LimitsOfText(kind: Kind, v: Value)
    requires FitsLeaf(kind, v) && InLimits(kind, v)
    ensures TextLimits(v)
  {
  }

  lemma NoSideBytes(v: Value)
    requires !Long(v)
    ensures SideBytes(v) == []
  {
  }

  lemma LeafRoundTrip(st: Stream, l: Leaf, rest: seq<byte>)
    requires Undoes(st) && FitsLeaf(l.fd.kind, l.v) && InLimits(l.fd.kind, l.v) && l.fd.id < 128
    ensures ReadLeaf(st, l.fd.kind, Long(l.v), LeafBytes(st, l) + rest)
         == Got(LeafBack(st, l.fd.kind, l.v), |LeafBytes(st, l)|)
  {
    hide InLimits, ReadPayload, ReadHeader, ReadSide, Frame, SideBytes, PaddedValue, Normal, Blank;
    if Long(l.v) {
      LongIsText(l.fd.kind, l.v);
    }
    if st.Side? {
      if Long(l.v) {
        LimitsOfText(l.fd.kind, l.v);
        SideRoundTrip(l.fd.kind, l.v, rest);
      } else {
        NoSideBytes(l.v);
      }
    } else if !Long(l.v) {
      FrameRoundTrip(l.fd, l.v, rest);
    }
  }

  lemma LimitsSplit(xs: seq<Leaf>, ys: seq<Leaf>)
    requires AllFit(xs) && AllFit(ys) && AllFit(xs + ys) && AllInLimits(xs + ys)
    ensures AllInLimits(xs) && AllInLimits(ys)
  {
    hide InLimits;
    assert forall l :: l in xs || l in ys ==> l in xs + ys;
  }

  lemma ReadNoFields(st: Stream, sch: Schema, t: Table, stack: set<nat>, cls: nat, s: seq<byte>)
    requires cls in sch
    ensures ReadFields(st, sch, t, stack, cls, 0, s) == Got([], 0)
  {
  }

  /** A field and the fields before it, read one behind the other. */
  lemma ReadFieldsJoin(st: Stream, sch: Schema, t: Table, stack: set<nat>, cls: nat, i: nat,
                       x: seq<byte>, y: seq<byte>, rest: seq<byte>)
    requires cls in sch && i < |sch[cls]|
    requires var v := ReadField(st, sch, t, stack, cls, i, x + (y + rest)); v.Got? && v.used == |x|
    requires var vs := ReadFields(st, sch, t, stack, cls, i, y + rest); vs.Got? && vs.used == |y|
    ensures ReadFields(st, sch, t, stack, cls, i + 1, (x + y) + rest)
         == Got(ReadFields(st, sch, t, stack, cls, i, y + rest).value
                + [ReadField(st, sch, t, stack, cls, i, x + (y + rest)).value], |x + y|)
  {
    hide ReadField;
    assert (x + y) + rest == x + (y + rest);
    assert (x + (y + rest))[|x|..] == y + rest;
  }

  lemma {:induction false} FieldsRoundTrip(st: Stream, sch: Schema, t: Table, stack: set<nat>, m: Message, k: nat,
                                           rest: seq<byte>)
    requires Undoes(st) && ValidSchema(sch) && Typed(sch, m) && Coherent(sch, t, m)
    requires k <= |m.vals| && AllInLimits(Leaves(sch, m, k))
    requires m.cls in stack && stack !! ClassesBelow(m, |m.vals|)
    ensures var w := Flat(st, Leaves(sch, m, k));
      ReadFields(st, sch, t, stack, m.cls, k, w + rest) == Got(ValuesBack(st, sch, m, k), |w|)
    decreases m, k
  {
    hide Shows, Coherent, Flat, FieldLeaves, ReadFields, ReadField, ValueBack, ClassesBelow, InLimits;
    if k == 0 {
      FlatNone(st);
      ReadNoFields(st, sch, t, stack, m.cls, [] + rest);
    } else {
      var i := k - 1;
      var head, tail := FieldLeaves(sch, m, i), Leaves(sch, m, i);
      FlatConcat(st, head, tail);
      var x, y := Flat(st, head), Flat(st, tail);
      LimitsSplit(head, tail);
      FieldRoundTrip(st, sch, t, stack, m, i, y + rest);
      FieldsRoundTrip(st, sch, t, stack, m, i, rest);
      ReadFieldsJoin(st, sch, t, stack, m.cls, i, x, y, rest);
    }
  }

  lemma ClassesBelowChild(m: Message, i: nat)
    requires i < |m.vals| && m.vals[i].Sub?
    ensures var c := m.vals[i].m;
      c.cls in ClassesBelow(m, |m.vals|) && ClassesBelow(c, |c.vals|) <= ClassesBelow(m, |m.vals|)
  {
    ChildNodes(m, |m.vals|, i);
    assert m.vals[i].m in Nodes(m.vals[i].m);
  }

  lemma LeafEntry(sch: Schema, t: Table, m: Message, i: nat)
    requires Typed(sch, m) && Coherent(sch, t, m) && i < |m.vals| && !m.vals[i].Sub?
    ensures var fd := sch[m.cls][i];
      && !fd.kind.Child? && m.cls in t && fd.id in t[m.cls].fields
      && (Skipped(t[m.cls].fields[fd.id]) <==> Long(m.vals[i]))
  {
    assert m in Nodes(m);
    assert Shows(sch, t, m, i);
    EntrySkips(sch[m.cls][i].kind, m.vals[i]);
  }

  lemma {:induction false} FieldRoundTrip(st: Stream, sch: Schema, t: Table, stack: set<nat>, m: Message, i: nat,
                                          rest: seq<byte>)
    requires Undoes(st) && ValidSchema(sch) && Typed(sch, m) && Coherent(sch, t, m)
    requires i < |m.vals| && AllInLimits(FieldLeaves(sch, m, i))
    requires m.cls in stack && stack !! ClassesBelow(m, |m.vals|)
    ensures var w := Flat(st, FieldLeaves(sch, m, i));
      ReadField(st, sch, t, stack, m.cls, i, w + rest) == Got(ValueBack(st, sch, m, i), |w|)
    decreases m, i
  {
    hide LeafBytes, ReadLeaf, LeafBack, InLimits, EntryFor, Coherent;
    if m.vals[i].Sub? {
      var c := m.vals[i].m;
      ChildClass(sch, t, m, i);
      SubtreeCoherent(sch, t, m, i);
      NoClassBelowItself(sch, t, c);
      ChildNodes(m, |m.vals|, i);
      ClassesBelowChild(m, i);
      FieldsRoundTrip(st, sch, t, stack + {c.cls}, c, |c.vals|, rest);
    } else {
      var l := Leaf(sch[m.cls][i], m.vals[i]);
      assert l in FieldLeaves(sch, m, i);
      FlatOne(st, l);
      LeafEntry(sch, t, m, i);
      LeafRoundTrip(st, l, rest);
    }
  }

  /** Split round trip, for either stream: walk a tree whose same-class objects agree to build the
      table, write the stream, and parse it in front of any suffix with that table. The tree comes
      back with the fields of the other stream blank, and the cursor stops exactly at the suffix. */
  lemma SplitRoundTrip(st: Stream, sch: Schema, start: SendState, m: Message, rest: seq<byte>)
    requires Undoes(st) && TableSchema(sch) && Typed(sch, m) && Agree(sch, Nodes(m))
    requires AllInLimits(AllLeaves(sch, m))
    ensures var t := Send(sch, start, m).table;
      var w := Flat(st, AllLeaves(sch, m));
      Parse(st, sch, t, m.cls, w + rest) == Got(Back(st, sch, m), |w|)
  {
    hide Send, Coherent, Agree, LeafBytes, InLimits;
    var t := Send(sch, start, m).table;
    ClassTableRight(sch, start, m);
    NoClassBelowItself(sch, t, m);
    FieldsRoundTrip(st, sch, t, {m.cls}, m, |m.vals|, rest);
  }

  /** The parser steps over a header without looking at it: with any two bytes for the length and any
      varint for the tag the field comes back, so lengths that do not fit in 16 bits do no harm. */
  lemma HeadersIgnored(kind: Kind, v: Value, len: seq<byte>, tag: nat, rest: seq<byte>)
    requires FitsLeaf(kind, v) && InLimits(kind, v) && |len| == 2 && tag < TWO64
    ensures var p := Payload(Base128, kind, v);
      ReadLeaf(INLINE, kind, false, len + (EncodeVarint(tag) + (p + rest)))
      == Got(Normal(kind, v), 2 + |EncodeVarint(tag)| + |p|)
  {
    hide Payload, ReadPayload, EncodeVarint, ReadVarint, Normal, InLimits;
    var p, t := Payload(Base128, kind, v), EncodeVarint(tag);
    var s := len + (t + (p + rest));
    assert s[2..] == t + (p + rest);
    VarintRoundTrip(tag, p + rest, TWO32);
    assert s[2 + |t|..] == p + rest;
    PayloadRoundTrip(kind, v, rest);
  }

  /** On a number the skip bit means only that no header is there. */
  lemma SkippedNumber(kind: Kind, v: Value, rest: seq<byte>)
    requires FitsLeaf(kind, v) && InLimits(kind, v) && !IsText(kind.atom)
    ensures var p := Payload(Base128, kind, v);
      ReadLeaf(INLINE, kind, true, p + rest) == Got(Normal(kind, v), |p|)
  {
    hide Payload, ReadPayload, Normal, InLimits;
    PayloadRoundTrip(kind, v, rest);
  }

  // ----- nothing to skip -----

  ghost predicate AllNormal(ls: seq<Leaf>)
    requires AllFit(ls)
  {
    forall l :: l in ls ==> Normal(l.fd.kind, l.v) == l.v
  }

  lemma {:induction false} PlainFields(sch: Schema, m: Message, k: nat)
    requires Typed(sch, m) && k <= |m.vals|
    requires NoneLong(Leaves(sch, m, k)) && AllNormal(Leaves(sch, m, k))
    ensures ValuesBack(INLINE, sch, m, k) == m.vals[..k]
    decreases m, k
  {
    hide Normal, Long;
    if k > 0 {
      var i := k - 1;
      assert forall l :: l in FieldLeaves(sch, m, i) || l in Leaves(sch, m, i) ==> l in Leaves(sch, m, k);
      PlainFields(sch, m, i);
      if m.vals[i].Sub? {
        var c := m.vals[i].m;
        assert FieldLeaves(sch, m, i) == Leaves(sch, c, |c.vals|);
        assert forall l :: l in Leaves(sch, c, |c.vals|) ==> l in Leaves(sch, m, k);
        PlainFields(sch, c, |c.vals|);
        assert c.vals[..|c.vals|] == c.vals;
        assert Back(INLINE, sch, c) == c;
      } else {
        var l := Leaf(sch[m.cls][i], m.vals[i]);
        assert l in FieldLeaves(sch, m, i);
        assert !Long(l.v) && Normal(l.fd.kind, l.v) == l.v;
      }
      assert ValueBack(INLINE, sch, m, i) == m.vals[i];
      assert m.vals[..k] == m.vals[..i] + [m.vals[i]];
    }
  }

  /** A message without long strings, its repeated bools holding 0 or 1, comes back as it was, with
      either skip flag. */
  lemma PlainRoundTrip(sch: Schema, start: SendState, m: Message, skip: bool, rest: seq<byte>)
    requires TableSchema(sch) && Typed(sch, m) && Agree(sch, Nodes(m))
    requires var ls := AllLeaves(sch, m); AllInLimits(ls) && NoneLong(ls) && AllNormal(ls)
    ensures var w := Flat(Inline(Base128, skip), AllLeaves(sch, m));
      Parse(INLINE, sch, Send(sch, start, m).table, m.cls, w + rest) == Got(m, |w|)
  {
    hide Send, Agree, Flat, Parse, InLimits, Normal, Long;
    SplitRoundTrip(INLINE, sch, start, m, rest);
    SkipFlagMatters(Base128, AllLeaves(sch, m));
    PlainFields(sch, m, |m.vals|);
    assert m.vals[..|m.vals|] == m.vals;
  }

  // ----- merging the two streams -----

  /** Takes each field from the message parsed from the stream that carries it. */
  ghost function Merge(sch: Schema, t: Table, a: Message, b: Message): Message
    decreases a, |a.vals| + 1
  {
    Message(a.cls, MergeValues(sch, t, a, b, |a.vals|))
  }

  ghost function MergeValues(sch: Schema, t: Table, a: Message, b: Message, k: nat): seq<Value>
    requires k <= |a.vals|
    decreases a, k
  {
    if k == 0 then [] else MergeValues(sch, t, a, b, k - 1) + [MergeValue(sch, t, a, b, k - 1)]
  }

  ghost function MergeValue(sch: Schema, t: Table, a: Message, b: Message, i: nat): Value
    requires i < |a.vals|
    decreases a, i
  {
    if i >= |b.vals| then a.vals[i]
    else if a.vals[i].Sub? then
      if b.vals[i].Sub? then Sub(Merge(sch, t, a.vals[i].m, b.vals[i].m)) else a.vals[i]
    else if a.cls in sch && i < |sch[a.cls]| && a.cls in t && sch[a.cls][i].id in t[a.cls].fields
            && Skipped(t[a.cls].fields[sch[a.cls][i].id]) then b.vals[i]
    else a.vals[i]
  }

  /** Equal but for the zero padding of strings in long fields and for repeated bools read as 0/1. */
  ghost predicate UpToPadding(sch: Schema, m: Message, r: Message)
    requires Typed(sch, m)
    decreases m
  {
    && r.cls == m.cls && |r.vals| == |m.vals|
    && forall i :: 0 <= i < |m.vals| ==>
         if m.vals[i].Sub? then r.vals[i].Sub? && UpToPadding(sch, m.vals[i].m, r.vals[i].m)
         else r.vals[i] == if Long(m.vals[i]) then PaddedValue(m.vals[i]) else Normal(sch[m.cls][i].kind, m.vals[i])
  }

  lemma {:induction false} BackAt(st: Stream, sch: Schema, m: Message, k: nat, i: nat)
    requires Typed(sch, m) && i < k <= |m.vals|
    ensures ValuesBack(st, sch, m, k)[i] == ValueBack(st, sch, m, i)
  {
    hide ValueBack;
    if i < k - 1 {
      BackAt(st, sch, m, k - 1, i);
    }
  }

  lemma {:induction false} MergeAt(sch: Schema, t: Table, a: Message, b: Message, k: nat, i: nat)
    requires i < k <= |a.vals|
    ensures |MergeValues(sch, t, a, b, k)| == k
    ensures MergeValues(sch, t, a, b, k)[i] == MergeValue(sch, t, a, b, i)
    decreases k
  {
    hide MergeValue;
    if i < k - 1 {
      MergeAt(sch, t, a, b, k - 1, i);
    } else if k > 1 {
      MergeAt(sch, t, a, b, k - 1, k - 2);
    }
  }

  lemma LeafBackIsLeaf(st: Stream, kind: Kind, v: Value)
    requires FitsLeaf(kind, v)
    ensures !LeafBack(st, kind, v).Sub?
  {
  }

  lemma {:induction false} MergeBack(sch: Schema, t: Table, m: Message)
    requires Typed(sch, m) && Coherent(sch, t, m)
    ensures UpToPadding(sch, m, Merge(sch, t, Back(INLINE, sch, m), Back(Side, sch, m)))
    decreases m
  {
    hide Coherent, PaddedValue, Normal, Blank;
    var a, b := Back(INLINE, sch, m), Back(Side, sch, m);
    var r := Merge(sch, t, a, b);
    if |m.vals| > 0 { MergeAt(sch, t, a, b, |a.vals|, 0); }
    forall i | 0 <= i < |m.vals|
      ensures if m.vals[i].Sub? then r.vals[i].Sub? && UpToPadding(sch, m.vals[i].m, r.vals[i].m)
              else r.vals[i] == if Long(m.vals[i]) then PaddedValue(m.vals[i])
                                else Normal(sch[m.cls][i].kind, m.vals[i])
    {
      MergeAt(sch, t, a, b, |a.vals|, i);
      BackAt(INLINE, sch, m, |m.vals|, i);
      BackAt(Side, sch, m, |m.vals|, i);
      if m.vals[i].Sub? {
        SubtreeCoherent(sch, t, m, i);
        MergeBack(sch, t, m.vals[i].m);
      } else {
        LeafEntry(sch, t, m, i);
        LeafBackIsLeaf(INLINE, sch[m.cls][i].kind, m.vals[i]);
      }
    }
  }

  /** Partition and merge: parsing the two streams with the table, each on its own, and merging what
      they give recovers the whole message up to zero padding. */
  lemma MergeRoundTrip(sch: Schema, start: SendState, m: Message, rest1: seq<byte>, rest2: seq<byte>)
    requires TableSchema(sch) && Typed(sch, m) && Agree(sch, Nodes(m)) && AllInLimits(AllLeaves(sch, m))
    ensures var t := Send(sch, start, m).table;
      var p := Parse(INLINE, sch, t, m.cls, Flat(INLINE, AllLeaves(sch, m)) + rest1);
      var q := Parse(Side, sch, t, m.cls, Flat(Side, AllLeaves(sch, m)) + rest2);
      p.Got? && q.Got? && UpToPadding(sch, m, Merge(sch, t, p.value, q.value))
  {
    hide Send, Coherent, Agree, Parse, Back, Merge, UpToPadding, Flat, InLimits;
    SplitRoundTrip(INLINE, sch, start, m, rest1);
    SplitRoundTrip(Side, sch, start, m, rest2);
    ClassTableRight(sch, start, m);
    MergeBack(sch, Send(sch, start, m).table, m);
  }
}
