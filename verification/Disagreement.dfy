/** Two concrete trees whose objects of one class disagree: one loses data, the other comes back from the
    inline stream by accident. In both an object has two children of one class, which the walks visit
    last to first; the entries of the child at index 0 are the ones that stay in the table. */
module Disagreement {
  import opened Words
  import opened Messages
  import opened Wire
  import opened Walk
  import opened ClassTable
  import opened Reader
  import opened Agreement

  const TEXT := FieldDesc(Single(Str), 1)

  const NOTE := FieldDesc(Single(Str), 2)

  function PairSchema(fields: seq<FieldDesc>): Schema {
    map[1 := [FieldDesc(Child, 1), FieldDesc(Child, 2)], 2 := fields]
  }

  function Object(texts: seq<seq<byte>>): Message {
    Message(2, seq(|texts|, i requires 0 <= i < |texts| => One(Text(texts[i]))))
  }

  function Pair(a: Message, b: Message): Message {
    Message(1, [Sub(a), Sub(b)])
  }

  // Children of class 2 whose fields are single strings.
  ghost predicate TextObject(fields: seq<FieldDesc>, a: Message) {
    && fields <= [TEXT, NOTE] && a.cls == 2 && |a.vals| == |fields|
    && forall i :: 0 <= i < |a.vals| ==> a.vals[i].One? && a.vals[i].a.Text?
  }

  lemma PairTable(fields: seq<FieldDesc>)
    requires fields <= [TEXT, NOTE]
    ensures TableSchema(PairSchema(fields))
    ensures forall i :: 0 <= i < |fields| ==> fields[i].kind == Single(Str)
  {
    assert forall i :: 0 <= i < |fields| ==> fields[i] == [TEXT, NOTE][i];
  }

  lemma PairTyped(fields: seq<FieldDesc>, a: Message, b: Message)
    requires TextObject(fields, a) && TextObject(fields, b)
    ensures var sch := PairSchema(fields);
      TableSchema(sch) && Typed(sch, a) && Typed(sch, b) && Typed(sch, Pair(a, b))
  {
    PairTable(fields);
    hide TableSchema;
  }

  lemma OnlyNode(m: Message, k: nat)
    requires k <= |m.vals| && forall i :: 0 <= i < |m.vals| ==> !m.vals[i].Sub?
    ensures NodesBelow(m, k) == {}
  {
  }

  /** After the walk of an object without children its entries describe it and no other class changed. */
  lemma SendObject(fields: seq<FieldDesc>, st: SendState, a: Message)
    requires TextObject(fields, a)
    ensures Typed(PairSchema(fields), a)
    ensures var t := Send(PairSchema(fields), st, a).table;
      && Coherent(PairSchema(fields), t, a)
      && (1 in st.table ==> 1 in t && t[1] == st.table[1])
  {
    hide Send, Coherent;
    PairTyped(fields, a, a);
    OnlyNode(a, |a.vals|);
    assert Nodes(a) == {a};
    ClassTableRight(PairSchema(fields), st, a);
  }

  lemma SendIs(sch: Schema, st: SendState, m: Message)
    requires Typed(sch, m) && |m.vals| == 2
    ensures Send(sch, st, m)
         == Leave(SendField(sch, SendField(sch, Enter(st, m.cls), m, 1), m, 0), m.cls, sch[m.cls])
  {
    hide SendField;
    var st0 := Enter(st, m.cls);
    var st1 := SendField(sch, st0, m, 1);
    var st2 := SendField(sch, st1, m, 0);
    assert SendFields(sch, st0, m, 2) == SendFields(sch, st1, m, 1) == SendFields(sch, st2, m, 0) == st2;
  }

  ghost predicate NamesChild(t: Table, id: nat) {
    1 in t && id in t[1].fields && t[1].fields[id].subClass == 2
  }

  lemma SendChild(fields: seq<FieldDesc>, st: SendState, m: Message, i: nat)
    requires |m.vals| == 2 && i < 2 && m.cls == 1 && m.vals[0].Sub? && m.vals[1].Sub? && 1 in st.table
    requires TextObject(fields, m.vals[0].m) && TextObject(fields, m.vals[1].m)
    ensures Typed(PairSchema(fields), m)
    ensures var sch := PairSchema(fields);
      var t := SendField(sch, st, m, i).table;
      && Coherent(sch, t, m.vals[i].m)
      && NamesChild(t, i + 1) && (NamesChild(st.table, 2) ==> NamesChild(t, 2))
  {
    hide Send, Coherent;
    var a, b := m.vals[0].m, m.vals[1].m;
    PairTyped(fields, a, b);
    assert m == Pair(a, b);
    var sch := PairSchema(fields);
    var st' := st.(table := PutField(sch, st.table, m, i));
    SendObject(fields, st', m.vals[i].m);
  }

  lemma LeaveKeeps(fields: seq<FieldDesc>, st: SendState, a: Message)
    requires TextObject(fields, a) && Coherent(PairSchema(fields), st.table, a) && 1 in st.table
    ensures var t := Leave(st, 1, PairSchema(fields)[1]).table;
      && Coherent(PairSchema(fields), t, a)
      && (NamesChild(st.table, 1) ==> NamesChild(t, 1)) && (NamesChild(st.table, 2) ==> NamesChild(t, 2))
  {
    hide MaxId, ClassLength, EntryFor;
    OnlyNode(a, |a.vals|);
    assert Nodes(a) == {a};
    var sch := PairSchema(fields);
    forall i | 0 <= i < |a.vals| && Typed(sch, a) ensures Shows(sch, Leave(st, 1, sch[1]).table, a, i) {
      assert Shows(sch, st.table, a, i);
    }
  }

  /** After the walk of a pair the entries of class 2 are those of the child at index 0. */
  lemma SendPair(fields: seq<FieldDesc>, start: SendState, a: Message, b: Message)
    requires TextObject(fields, a) && TextObject(fields, b)
    ensures Typed(PairSchema(fields), Pair(a, b))
    ensures var sch := PairSchema(fields);
      var t := Send(sch, start, Pair(a, b)).table;
      Coherent(sch, t, a) && NamesChild(t, 1) && NamesChild(t, 2)
  {
    hide Send, SendField, Coherent;
    PairTyped(fields, a, b);
    var sch, m := PairSchema(fields), Pair(a, b);
    SendIs(sch, start, m);
    var st0 := Enter(start, 1);
    var st1 := SendField(sch, st0, m, 1);
    SendChild(fields, st0, m, 1);
    var st2 := SendField(sch, st1, m, 0);
    SendChild(fields, st1, m, 0);
    LeaveKeeps(fields, st2, a);
  }

  /** The two children are parsed one behind the other, the one at index 1 first. */
  lemma ParsePair(fields: seq<FieldDesc>, t: Table, s: seq<byte>)
    requires NamesChild(t, 1) && NamesChild(t, 2)
    ensures var sch := PairSchema(fields);
      var b := ReadFields(INLINE, sch, t, {1, 2}, 2, |fields|, s);
      b.Got? ==>
        var a := ReadFields(INLINE, sch, t, {1, 2}, 2, |fields|, s[b.used..]);
        a.Got? ==> Parse(INLINE, sch, t, 1, s) == Got(Pair(Message(2, a.value), Message(2, b.value)), b.used + a.used)
  {
    var sch := PairSchema(fields);
    var b := ReadFields(INLINE, sch, t, {1, 2}, 2, |fields|, s);
    if b.Got? {
      var s' := s[b.used..];
      var a := ReadFields(INLINE, sch, t, {1, 2}, 2, |fields|, s');
      if a.Got? {
        assert {1} + {2} == {1, 2};
        var x, y := Sub(Message(2, a.value)), Sub(Message(2, b.value));
        assert ReadField(INLINE, sch, t, {1}, 1, 1, s) == Got(y, b.used);
        assert ReadField(INLINE, sch, t, {1}, 1, 0, s') == Got(x, a.used);
        assert ReadFields(INLINE, sch, t, {1}, 1, 0, s'[a.used..]) == Got([], 0);
        assert [] + [x] == [x] && [x] + [y] == [x, y];
        assert ReadFields(INLINE, sch, t, {1}, 1, 1, s') == Got([x], a.used);
      }
    }
  }

  lemma PairLeaves(fields: seq<FieldDesc>, a: Message, b: Message)
    requires TextObject(fields, a) && TextObject(fields, b)
    ensures var sch := PairSchema(fields);
      && Typed(sch, a) && Typed(sch, b) && Typed(sch, Pair(a, b))
      && AllLeaves(sch, Pair(a, b)) == AllLeaves(sch, b) + AllLeaves(sch, a)
  {
    PairTyped(fields, a, b);
    var sch, m := PairSchema(fields), Pair(a, b);
    hide PairSchema;
    assert Leaves(sch, m, 1) == FieldLeaves(sch, m, 0) + Leaves(sch, m, 0) == AllLeaves(sch, a);
    assert Leaves(sch, m, 2) == FieldLeaves(sch, m, 1) + Leaves(sch, m, 1);
  }

  /** Objects that agree have the same fields long. */
  lemma AgreeLong(sch: Schema, u: set<Message>, a: Message, b: Message, i: nat)
    requires Agree(sch, u) && a in u && b in u && a.cls == b.cls && i < |a.vals|
    requires !a.vals[i].Sub? && !b.vals[i].Sub?
    ensures Long(a.vals[i]) <==> Long(b.vals[i])
  {
    hide Long, EntryFor;
    EntrySkips(sch[a.cls][i].kind, a.vals[i]);
    EntrySkips(sch[a.cls][i].kind, b.vals[i]);
  }

  lemma PairDisagrees(fields: seq<FieldDesc>, a: Message, b: Message, i: nat)
    requires TextObject(fields, a) && TextObject(fields, b) && i < |fields|
    requires Long(a.vals[i]) != Long(b.vals[i])
    ensures !Agree(PairSchema(fields), Nodes(Pair(a, b)))
  {
    hide Long, Agree, EntryFor;
    var u := Nodes(Pair(a, b));
    ChildNodes(Pair(a, b), 2, 0);
    ChildNodes(Pair(a, b), 2, 1);
    assert a in Nodes(a) && b in Nodes(b);
    if Agree(PairSchema(fields), u) {
      AgreeLong(PairSchema(fields), u, a, b, i);
    }
  }

  // ----- data is lost -----

  lemma ReadSkippedText(t: Table, s: seq<byte>)
    requires 2 in t && 1 in t[2].fields && Skipped(t[2].fields[1])
    ensures ReadFields(INLINE, PairSchema([TEXT]), t, {1, 2}, 2, 1, s) == Got([One(Text([]))], 0)
  {
    var sch := PairSchema([TEXT]);
    assert ReadField(INLINE, sch, t, {1, 2}, 2, 0, s) == Got(One(Text([])), 0);
    assert s[0..] == s && [] + [One(Text([]))] == [One(Text([]))];
    assert ReadFields(INLINE, sch, t, {1, 2}, 2, 0, s) == Got([], 0);
    assert ReadFields(INLINE, sch, t, {1, 2}, 2, 1, s) == Got([One(Text([]))], 0);
  }

  lemma TextLeaves(a: Message)
    requires TextObject([TEXT], a)
    ensures Typed(PairSchema([TEXT]), a)
    ensures AllLeaves(PairSchema([TEXT]), a) == [Leaf(TEXT, a.vals[0])]
  {
    PairTyped([TEXT], a, a);
    var sch := PairSchema([TEXT]);
    assert Leaves(sch, a, 1) == FieldLeaves(sch, a, 0) + Leaves(sch, a, 0);
  }

  /** Two objects of one class, the first with a long string and the second with a short one: the
      parser takes both for skipped, loses the short string and consumes nothing. */
  lemma DisagreementLosesData(start: SendState, long: seq<byte>, short: seq<byte>)
    requires |long| > 1024 && 0 < |short| <= 1024
    ensures var sch, m := PairSchema([TEXT]), Pair(Object([long]), Object([short]));
      && Typed(sch, m) && TableSchema(sch) && !Agree(sch, Nodes(m))
      && Parse(INLINE, sch, Send(sch, start, m).table, 1, Flat(INLINE, AllLeaves(sch, m)))
      == Got(Pair(Object([[]]), Object([[]])), 0)
      && Flat(INLINE, AllLeaves(sch, m)) != []
  {
    hide Send, Flat, AllLeaves, Coherent, Agree, Frame;
    var sch, a, b := PairSchema([TEXT]), Object([long]), Object([short]);
    PairTyped([TEXT], a, b);
    PairDisagrees([TEXT], a, b, 0);
    SendPair([TEXT], start, a, b);
    var t := Send(sch, start, Pair(a, b)).table;
    LeafEntry(sch, t, a, 0);
    PairLeaves([TEXT], a, b);
    TextLeaves(a);
    TextLeaves(b);
    var l := Leaf(TEXT, b.vals[0]);
    FlatConcat(INLINE, [l], AllLeaves(sch, a));
    FlatOne(INLINE, l);
    Partition(Base128, l);
    var s := Flat(INLINE, AllLeaves(sch, Pair(a, b)));
    ReadSkippedText(t, s);
    assert s[0..] == s;
    ParsePair([TEXT], t, s);
    assert [One(Text([]))] == Object([[]]).vals;
  }

  // ----- or comes back by accident -----

  // The table keeps TEXT inline and skips NOTE.
  lemma ReadTextOnly(t: Table, v: Value, rest: seq<byte>, fd: FieldDesc)
    requires FitsLeaf(TEXT.kind, v) && InLimits(TEXT.kind, v) && fd.kind == TEXT.kind && fd.id < 128
    requires 2 in t && 1 in t[2].fields && 2 in t[2].fields
    requires !Skipped(t[2].fields[1]) && Skipped(t[2].fields[2])
    ensures var w := Frame(Base128, fd, v);
      ReadFields(INLINE, PairSchema([TEXT, NOTE]), t, {1, 2}, 2, 2, w + rest) == Got([v, One(Text([]))], |w|)
  {
    var sch, w, blank := PairSchema([TEXT, NOTE]), Frame(Base128, fd, v), One(Text([]));
    var s := w + rest;
    FrameRoundTrip(fd, v, rest);
    hide Frame, ReadHeader, ReadPayload;
    assert ReadField(INLINE, sch, t, {1, 2}, 2, 1, s) == Got(blank, 0);
    assert ReadField(INLINE, sch, t, {1, 2}, 2, 0, s) == Got(v, |w|);
    assert ReadFields(INLINE, sch, t, {1, 2}, 2, 0, s[|w|..]) == Got([], 0);
    assert s[0..] == s && [] + [v] == [v] && [v] + [blank] == [v, blank];
    assert ReadFields(INLINE, sch, t, {1, 2}, 2, 1, s) == Got([v], |w|);
  }

  lemma TextNoteLeaves(a: Message)
    requires TextObject([TEXT, NOTE], a)
    ensures Typed(PairSchema([TEXT, NOTE]), a)
    ensures AllLeaves(PairSchema([TEXT, NOTE]), a) == [Leaf(NOTE, a.vals[1]), Leaf(TEXT, a.vals[0])]
  {
    PairTyped([TEXT, NOTE], a, a);
    var sch := PairSchema([TEXT, NOTE]);
    assert Leaves(sch, a, 1) == FieldLeaves(sch, a, 0) + Leaves(sch, a, 0);
    assert Leaves(sch, a, 2) == FieldLeaves(sch, a, 1) + Leaves(sch, a, 1);
  }

  lemma StreamOfTwo(x: Leaf, y: Leaf)
    requires FitsLeaf(x.fd.kind, x.v) && FitsLeaf(y.fd.kind, y.v)
    ensures AllFit([x, y]) && Flat(INLINE, [x, y]) == LeafBytes(INLINE, x) + LeafBytes(INLINE, y)
  {
    hide LeafBytes;
    FlatConcat(INLINE, [x], [y]);
    FlatOne(INLINE, x);
    FlatOne(INLINE, y);
    assert [x] + [y] == [x, y];
  }

  lemma BackOfTwo(sch: Schema, m: Message)
    requires Typed(sch, m) && |m.vals| == 2
    ensures Back(INLINE, sch, m) == Message(m.cls, [ValueBack(INLINE, sch, m, 0), ValueBack(INLINE, sch, m, 1)])
  {
    hide ValueBack;
    assert ValuesBack(INLINE, sch, m, 1) == ValuesBack(INLINE, sch, m, 0) + [ValueBack(INLINE, sch, m, 0)];
    assert ValuesBack(INLINE, sch, m, 2) == ValuesBack(INLINE, sch, m, 1) + [ValueBack(INLINE, sch, m, 1)];
  }

  lemma AccidentStream(a: Message, b: Message)
    requires TextObject([TEXT, NOTE], a) && TextObject([TEXT, NOTE], b)
    requires !Long(a.vals[0]) && Long(a.vals[1]) && Long(b.vals[0]) && !Long(b.vals[1])
    ensures Typed(PairSchema([TEXT, NOTE]), Pair(a, b))
    ensures Flat(INLINE, AllLeaves(PairSchema([TEXT, NOTE]), Pair(a, b)))
         == Frame(Base128, NOTE, b.vals[1]) + Frame(Base128, TEXT, a.vals[0])
  {
    hide Frame, Long, Flat, AllLeaves;
    var sch := PairSchema([TEXT, NOTE]);
    PairLeaves([TEXT, NOTE], a, b);
    TextNoteLeaves(a);
    TextNoteLeaves(b);
    FlatConcat(INLINE, AllLeaves(sch, b), AllLeaves(sch, a));
    StreamOfTwo(Leaf(NOTE, b.vals[1]), Leaf(TEXT, b.vals[0]));
    StreamOfTwo(Leaf(NOTE, a.vals[1]), Leaf(TEXT, a.vals[0]));
  }

  lemma AccidentBack(a: Message, b: Message)
    requires TextObject([TEXT, NOTE], a) && TextObject([TEXT, NOTE], b)
    requires !Long(a.vals[0]) && Long(a.vals[1]) && Long(b.vals[0]) && b.vals[1] == One(Text([]))
    ensures Typed(PairSchema([TEXT, NOTE]), Pair(a, b))
    ensures var blank := One(Text([]));
      Back(INLINE, PairSchema([TEXT, NOTE]), Pair(a, b))
      == Pair(Message(2, [a.vals[0], blank]), Message(2, [blank, blank]))
  {
    assert !Long(b.vals[1]);
    hide Back, ValuesBack, Long;
    var sch := PairSchema([TEXT, NOTE]);
    PairTyped([TEXT, NOTE], a, b);
    BackOfTwo(sch, Pair(a, b));
    BackOfTwo(sch, a);
    BackOfTwo(sch, b);
  }

  lemma EmptyInLimits()
    ensures FitsLeaf(TEXT.kind, One(Text([]))) && InLimits(TEXT.kind, One(Text([])))
  {
  }

  lemma AccidentParse(t: Table, v: Value, rest: seq<byte>)
    requires FitsLeaf(TEXT.kind, v) && InLimits(TEXT.kind, v) && NamesChild(t, 1) && NamesChild(t, 2)
    requires 2 in t && 1 in t[2].fields && 2 in t[2].fields
    requires !Skipped(t[2].fields[1]) && Skipped(t[2].fields[2])
    ensures var blank := One(Text([]));
      var w := Frame(Base128, NOTE, blank) + Frame(Base128, TEXT, v);
      Parse(INLINE, PairSchema([TEXT, NOTE]), t, 1, w + rest)
      == Got(Pair(Message(2, [v, blank]), Message(2, [blank, blank])), |w|)
  {
    hide Frame, Parse, ReadFields, InLimits;
    var blank := One(Text([]));
    EmptyInLimits();
    var x, y := Frame(Base128, NOTE, blank), Frame(Base128, TEXT, v);
    ReadTextOnly(t, blank, y + rest, NOTE);
    ReadTextOnly(t, v, rest, TEXT);
    assert (x + y) + rest == x + (y + rest);
    assert (x + (y + rest))[|x|..] == y + rest;
    ParsePair([TEXT, NOTE], t, x + (y + rest));
  }

  lemma AccidentReturns(start: SendState, a: Message, b: Message, rest: seq<byte>)
    requires TextObject([TEXT, NOTE], a) && TextObject([TEXT, NOTE], b)
    requires !Long(a.vals[0]) && Long(a.vals[1]) && Long(b.vals[0]) && b.vals[1] == One(Text([]))
    ensures Typed(PairSchema([TEXT, NOTE]), Pair(a, b))
    ensures Returns(INLINE, PairSchema([TEXT, NOTE]), start, Pair(a, b), rest)
  {
    assert !Long(b.vals[1]) && InLimits(TEXT.kind, a.vals[0]);
    hide Send, Flat, AllLeaves, Coherent, Frame, Parse, Long, Back, InLimits;
    var sch := PairSchema([TEXT, NOTE]);
    PairTyped([TEXT, NOTE], a, b);
    SendPair([TEXT, NOTE], start, a, b);
    var t := Send(sch, start, Pair(a, b)).table;
    LeafEntry(sch, t, a, 0);
    LeafEntry(sch, t, a, 1);
    AccidentStream(a, b);
    AccidentBack(a, b);
    AccidentParse(t, a.vals[0], rest);
  }

  /** Agreement is not necessary for the inline stream of one tree: here the frame of an empty string is
      read in place of a long one, which is blank as well, and every later field is in place again. */
  lemma AccidentalReturn(start: SendState, short: seq<byte>, note: seq<byte>, long: seq<byte>, rest: seq<byte>)
    requires |short| <= 1024 && |note| > 1024 && |long| > 1024
    ensures var sch, m := PairSchema([TEXT, NOTE]), Pair(Object([short, note]), Object([long, []]));
      && Typed(sch, m) && TableSchema(sch) && !Agree(sch, Nodes(m))
      && Returns(INLINE, sch, start, m, rest)
  {
    var a, b := Object([short, note]), Object([long, []]);
    assert !Long(a.vals[0]) && Long(a.vals[1]) && Long(b.vals[0]);
    hide Returns, Agree, Long, PairSchema;
    PairTyped([TEXT, NOTE], a, b);
    PairDisagrees([TEXT, NOTE], a, b, 0);
    AccidentReturns(start, a, b, rest);
  }
}
