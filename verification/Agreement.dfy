/** When the split round trip holds. The class table has one entry per class and field, so its last
    visitor decides for all objects of the class: this module says what an entry must say for a parser
    to give a field back, whatever the table and the bytes, and proves that the two streams together
    come back exactly when objects of one class agree. */
module Agreement {
  import opened Words
  import opened Messages
  import opened Wire
  import opened Walk
  import opened ClassTable
  import opened Reader

  // ----- what an entry must say -----

  ghost predicate HasEntry(sch: Schema, t: Table, n: Message, i: nat)
    requires Typed(sch, n) && i < |n.vals|
  {
    n.cls in t && sch[n.cls][i].id in t[n.cls].fields
  }

  ghost function EntryOf(sch: Schema, t: Table, n: Message, i: nat): FieldEntry
    requires Typed(sch, n) && i < |n.vals| && HasEntry(sch, t, n, i)
  {
    t[n.cls].fields[sch[n.cls][i].id]
  }

  /** What the entry says if the parser gives field `i` of object `n` back: the class of the child; in
      the inline stream only long or blank strings are skipped; in the side stream long ones are. */
  ghost predicate Serves(st: Stream, sch: Schema, t: Table, n: Message, i: nat)
    requires Typed(sch, n) && i < |n.vals|
  {
    var kind, v := sch[n.cls][i].kind, n.vals[i];
    && HasEntry(sch, t, n, i)
    && var e := EntryOf(sch, t, n, i);
      if v.Sub? then e.subClass == v.m.cls
      else if st.Side? then Long(v) ==> Skipped(e)
      else IsText(kind.atom) && Skipped(e) ==> Long(v) || v == Blank(kind)
  }

  // Object `n` is below field `k` of `m`, or is `m` and its field `i` is.
  ghost predicate Reaches(m: Message, k: nat, n: Message, i: nat)
    requires k <= |m.vals|
  {
    (n == m && i < k) || n in NodesBelow(m, k)
  }

  ghost predicate ReachesField(m: Message, j: nat, n: Message, i: nat)
    requires j < |m.vals|
  {
    (n == m && i == j) || (m.vals[j].Sub? && n in Nodes(m.vals[j].m))
  }

  ghost predicate Recovers(st: Stream, sch: Schema, t: Table, stack: set<nat>, m: Message, k: nat, s: seq<byte>)
    requires Typed(sch, m) && k <= |m.vals|
  {
    var r := ReadFields(st, sch, t, stack, m.cls, k, s);
    r.Got? && r.value == ValuesBack(st, sch, m, k)
  }

  ghost predicate RecoversField(st: Stream, sch: Schema, t: Table, stack: set<nat>, m: Message, i: nat, s: seq<byte>)
    requires Typed(sch, m) && i < |m.vals|
  {
    var r := ReadField(st, sch, t, stack, m.cls, i, s);
    r.Got? && r.value == ValueBack(st, sch, m, i)
  }

  lemma Last(vs: seq<Value>, v: Value)
    ensures (vs + [v])[..|vs|] == vs && (vs + [v])[|vs|] == v
  {
  }

  /** The last field and the fields before it are recovered one behind the other. */
  lemma RecoversLast(st: Stream, sch: Schema, t: Table, stack: set<nat>, m: Message, k: nat, s: seq<byte>)
    requires Typed(sch, m) && 0 < k <= |m.vals| && Recovers(st, sch, t, stack, m, k, s)
    ensures RecoversField(st, sch, t, stack, m, k - 1, s)
    ensures ReadField(st, sch, t, stack, m.cls, k - 1, s).Got?
    ensures var u := ReadField(st, sch, t, stack, m.cls, k - 1, s).used;
      && Recovers(st, sch, t, stack, m, k - 1, s[u..])
      && ReadFields(st, sch, t, stack, m.cls, k, s).used
      == u + ReadFields(st, sch, t, stack, m.cls, k - 1, s[u..]).used
  {
    hide ReadField, ValueBack;
    var v := ReadField(st, sch, t, stack, m.cls, k - 1, s);
    var rest := ReadFields(st, sch, t, stack, m.cls, k - 1, s[v.used..]);
    Last(rest.value, v.value);
    Last(ValuesBack(st, sch, m, k - 1), ValueBack(st, sch, m, k - 1));
  }

  /** A child is recovered only if the table names its class. */
  lemma RecoversChild(st: Stream, sch: Schema, t: Table, stack: set<nat>, m: Message, i: nat, s: seq<byte>)
    requires Typed(sch, m) && i < |m.vals| && m.vals[i].Sub? && RecoversField(st, sch, t, stack, m, i, s)
    ensures Serves(st, sch, t, m, i)
    ensures var c := m.vals[i].m;
      && Recovers(st, sch, t, stack + {c.cls}, c, |c.vals|, s)
      && ReadField(st, sch, t, stack, m.cls, i, s).used
      == ReadFields(st, sch, t, stack + {c.cls}, c.cls, |c.vals|, s).used
  {
    hide ValuesBack;
    var fd, c := sch[m.cls][i], m.vals[i].m;
    assert Fits(fd.kind, m.vals[i]) && fd.kind.Child?;
    assert ValueBack(st, sch, m, i) == Sub(Message(c.cls, ValuesBack(st, sch, c, |c.vals|)));
    var next := EntryOf(sch, t, m, i).subClass;
    var vs := ReadFields(st, sch, t, stack + {next}, next, |sch[next]|, s);
    assert ReadField(st, sch, t, stack, m.cls, i, s) == Got(Sub(Message(next, vs.value)), vs.used);
  }

  lemma PaddedIsNotBlank(kind: Kind, v: Value)
    requires FitsLeaf(kind, v) && Long(v)
    ensures PaddedValue(v) != Blank(kind)
  {
    if v.Many? {
      assert PaddedItems(v.items) != [];
    }
  }

  lemma {:induction false} NormalTexts(k: AtomKind, items: seq<Atom>)
    requires FitsAll(k, items) && IsText(k)
    ensures NormalItems(k, items) == items
  {
    if items != [] {
      NormalTexts(k, items[1..]);
    }
  }

  lemma NormalText(kind: Kind, v: Value)
    requires FitsLeaf(kind, v) && IsText(kind.atom)
    ensures Normal(kind, v) == v
  {
    if v.Many? { NormalTexts(kind.atom, v.items); }
  }

  lemma RecoversLeaf(st: Stream, sch: Schema, t: Table, stack: set<nat>, m: Message, i: nat, s: seq<byte>)
    requires Undoes(st) && Typed(sch, m) && i < |m.vals| && !m.vals[i].Sub?
    requires RecoversField(st, sch, t, stack, m, i, s)
    ensures Serves(st, sch, t, m, i)
  {
    hide ReadPayload, ReadHeader, ReadSide, Normal, Blank, Long;
    var kind, v := sch[m.cls][i].kind, m.vals[i];
    if st.Side? {
      if Long(v) { PaddedIsNotBlank(kind, v); }
    } else if IsText(kind.atom) {
      NormalText(kind, v);
    }
  }

  /** Whatever the table and whatever the bytes: if the parser gives the fields of an object back, the
      table serves every field of every object read. */
  lemma {:induction false} RecoveredIsServed(st: Stream, sch: Schema, t: Table, stack: set<nat>, m: Message, k: nat,
                                             s: seq<byte>, n: Message, i: nat)
    requires Undoes(st) && Typed(sch, m) && k <= |m.vals| && Recovers(st, sch, t, stack, m, k, s)
    requires Typed(sch, n) && i < |n.vals| && Reaches(m, k, n, i)
    ensures Serves(st, sch, t, n, i)
    decreases m, k
  {
    hide Recovers, RecoversField, Serves, ReadFields, ReadField;
    var j := k - 1;
    RecoversLast(st, sch, t, stack, m, k, s);
    if Reaches(m, j, n, i) {
      RecoveredIsServed(st, sch, t, stack, m, j, s[ReadField(st, sch, t, stack, m.cls, j, s).used..], n, i);
    } else if m.vals[j].Sub? {
      RecoversChild(st, sch, t, stack, m, j, s);
      if n != m || i != j {
        var c := m.vals[j].m;
        assert n in Nodes(c);
        RecoveredIsServed(st, sch, t, stack + {c.cls}, c, |c.vals|, s, n, i);
      }
    } else {
      RecoversLeaf(st, sch, t, stack, m, j, s);
    }
  }

  lemma ParsedIsServed(st: Stream, sch: Schema, t: Table, m: Message, s: seq<byte>, n: Message, i: nat)
    requires Undoes(st) && Typed(sch, m) && n in Nodes(m) && i < |n.vals|
    requires var r := Parse(st, sch, t, m.cls, s); r.Got? && r.value == Back(st, sch, m)
    ensures Typed(sch, n) && Serves(st, sch, t, n, i)
  {
    NodesTyped(sch, m, n);
    hide Serves, ReadFields, ValuesBack;
    RecoveredIsServed(st, sch, t, {m.cls}, m, |m.vals|, s, n, i);
  }

  // ----- the side stream, exactly -----

  // The bytes read for a list of strings and for a field: 64 each and what was read.
  function BlocksCost(items: seq<Atom>): nat {
    if items == [] then 0
    else BlocksCost(items[..|items| - 1]) + 64 + |TextOf(items[|items| - 1])|
  }

  function SideCost(v: Value): nat
    requires !v.Sub?
  {
    64 + if v.One? then |TextOf(v.a)| else BlocksCost(v.items)
  }

  lemma {:induction false} BlocksUsed(s: seq<byte>, n: nat)
    ensures var r := ReadBlocks(s, n); r.Got? ==> r.used == BlocksCost(r.value)
    decreases n
  {
    var r := ReadBlocks(s, n);
    if n > 0 && r.Got? {
      var a := ReadBlock(s);
      BlocksUsed(s[a.used..], n - 1);
      assert r.value[..|r.value| - 1] == ReadBlocks(s[a.used..], n - 1).value;
    }
  }

  lemma SideUsed(kind: Kind, s: seq<byte>)
    requires !kind.Child?
    ensures var r := ReadSide(kind, s); r.Got? ==> !r.value.Sub? && r.used == SideCost(r.value)
  {
    if kind.Rep? && |s| >= 64 {
      BlocksUsed(s[64..], FromLittleEndian(s[..8]));
    }
  }

  lemma BlockCostPadded(a: Atom)
    requires a.Text?
    ensures 64 + |TextOf(PaddedAtom(a))| == |Block(a)|
  {
  }

  lemma {:induction false} BlocksCostPadded(items: seq<Atom>)
    requires AllText(items)
    ensures BlocksCost(PaddedItems(items)) == |Blocks(items)|
  {
    hide Block, PaddedAtom;
    if items != [] {
      var last := |items| - 1;
      BlocksSnoc(items);
      BlocksCostPadded(items[..last]);
      var init := PaddedItems(items[..last]);
      assert (init + [PaddedAtom(items[last])])[..|init|] == init;
      BlockCostPadded(items[last]);
    }
  }

  lemma SideCostPadded(kind: Kind, v: Value)
    requires FitsLeaf(kind, v) && Long(v)
    ensures SideCost(PaddedValue(v)) == |SideBytes(v)|
  {
    hide Block, PaddedAtom, PaddedItems, BlocksCost, Blocks;
    LongIsText(kind, v);
    if v.Many? {
      BlocksCostPadded(v.items);
    } else {
      BlockCostPadded(v.a);
    }
  }

  /** The entry names the child's class, or skips the field exactly if it is long. */
  ghost predicate Right(sch: Schema, t: Table, n: Message, i: nat)
    requires Typed(sch, n) && i < |n.vals|
  {
    && HasEntry(sch, t, n, i)
    && var e := EntryOf(sch, t, n, i);
      if n.vals[i].Sub? then e.subClass == n.vals[i].m.cls else Skipped(e) <==> Long(n.vals[i])
  }

  lemma BlankCost(kind: Kind)
    requires !kind.Child?
    ensures !Blank(kind).Sub? && SideCost(Blank(kind)) >= 64
  {
  }

  lemma SideLeaf(sch: Schema, t: Table, stack: set<nat>, m: Message, i: nat, s: seq<byte>)
    requires Typed(sch, m) && i < |m.vals| && !m.vals[i].Sub?
    requires RecoversField(Side, sch, t, stack, m, i, s)
    ensures var u := ReadField(Side, sch, t, stack, m.cls, i, s).used;
      && u >= |SideBytes(m.vals[i])|
      && (u == |SideBytes(m.vals[i])| ==> Right(sch, t, m, i))
  {
    hide ReadSide, SideBytes, SideCost, PaddedValue, Blank, Long;
    var kind, v := sch[m.cls][i].kind, m.vals[i];
    RecoversLeaf(Side, sch, t, stack, m, i, s);
    SideUsed(kind, s);
    if Long(v) {
      SideCostPadded(kind, v);
    } else {
      NoSideBytes(v);
      BlankCost(kind);
    }
  }

  /** If the side parser gives the fields of an object back it has read at least the bytes written for
      them, and exactly those only if the table has the right entry for every field of every object. */
  lemma {:induction false} SideCursor(sch: Schema, t: Table, stack: set<nat>, m: Message, k: nat, s: seq<byte>,
                                      n: Message, i: nat)
    requires Typed(sch, m) && k <= |m.vals| && Recovers(Side, sch, t, stack, m, k, s)
    requires Typed(sch, n) && i < |n.vals|
    ensures var u, w := ReadFields(Side, sch, t, stack, m.cls, k, s).used, Flat(Side, Leaves(sch, m, k));
      u >= |w| && (u == |w| && Reaches(m, k, n, i) ==> Right(sch, t, n, i))
    decreases m, k
  {
    hide Recovers, RecoversField, Right, ReadFields, ReadField, Flat, FieldLeaves;
    if k == 0 {
      FlatNone(Side);
      ReadNoFields(Side, sch, t, stack, m.cls, s);
    } else {
      var j := k - 1;
      RecoversLast(Side, sch, t, stack, m, k, s);
      var rest := s[ReadField(Side, sch, t, stack, m.cls, j, s).used..];
      FlatConcat(Side, FieldLeaves(sch, m, j), Leaves(sch, m, j));
      SideFieldCursor(sch, t, stack, m, j, s, n, i);
      SideCursor(sch, t, stack, m, j, rest, n, i);
    }
  }

  lemma ChildRight(sch: Schema, t: Table, m: Message, i: nat)
    requires Typed(sch, m) && i < |m.vals| && m.vals[i].Sub?
    requires Serves(Side, sch, t, m, i) || Serves(INLINE, sch, t, m, i)
    ensures Right(sch, t, m, i)
  {
  }

  lemma {:induction false} SideFieldCursor(sch: Schema, t: Table, stack: set<nat>, m: Message, j: nat, s: seq<byte>,
                                           n: Message, i: nat)
    requires Typed(sch, m) && j < |m.vals| && RecoversField(Side, sch, t, stack, m, j, s)
    requires Typed(sch, n) && i < |n.vals|
    ensures ReadField(Side, sch, t, stack, m.cls, j, s).Got?
    ensures var u, w := ReadField(Side, sch, t, stack, m.cls, j, s).used, Flat(Side, FieldLeaves(sch, m, j));
      u >= |w| && (u == |w| && ReachesField(m, j, n, i) ==> Right(sch, t, n, i))
    decreases m, j
  {
    hide Recovers, Right, ReadFields, ReadField, Flat, Leaves;
    if m.vals[j].Sub? {
      var c := m.vals[j].m;
      RecoversChild(Side, sch, t, stack, m, j, s);
      ChildRight(sch, t, m, j);
      SideCursor(sch, t, stack + {c.cls}, c, |c.vals|, s, n, i);
      assert n in Nodes(c) ==> Reaches(c, |c.vals|, n, i);
    } else {
      FlatOne(Side, Leaf(sch[m.cls][j], m.vals[j]));
      SideLeaf(sch, t, stack, m, j, s);
    }
  }

  ghost predicate AllRight(sch: Schema, t: Table, m: Message) {
    forall n, i :: n in Nodes(m) && Typed(sch, n) && 0 <= i < |n.vals| ==> Right(sch, t, n, i)
  }

  lemma SideParsedIsRight(sch: Schema, t: Table, m: Message, s: seq<byte>)
    requires Typed(sch, m)
    requires Parse(Side, sch, t, m.cls, s) == Got(Back(Side, sch, m), |Flat(Side, AllLeaves(sch, m))|)
    ensures AllRight(sch, t, m)
  {
    hide Right, ReadFields, ValuesBack, Flat, Leaves;
    forall n, i | n in Nodes(m) && Typed(sch, n) && 0 <= i < |n.vals| ensures Right(sch, t, n, i) {
      SideCursor(sch, t, {m.cls}, m, |m.vals|, s, n, i);
    }
  }

  lemma SameEntry(sch: Schema, t: Table, a: Message, b: Message, i: nat)
    requires Typed(sch, a) && Typed(sch, b) && a.cls == b.cls && i < |a.vals|
    requires Right(sch, t, a, i) && Right(sch, t, b, i)
    ensures EntryFor(sch[a.cls][i].kind, a.vals[i]) == EntryFor(sch[a.cls][i].kind, b.vals[i])
  {
  }

  lemma RightAgree(sch: Schema, t: Table, m: Message)
    requires Typed(sch, m) && AllRight(sch, t, m)
    ensures Agree(sch, Nodes(m))
  {
    hide Right, EntryFor, Nodes;
    var u := Nodes(m);
    forall a | a in u ensures Typed(sch, a) {
      NodesTyped(sch, m, a);
    }
    forall a, b, i | a in u && b in u && a.cls == b.cls && 0 <= i < |a.vals|
      ensures EntryFor(sch[a.cls][i].kind, a.vals[i]) == EntryFor(sch[a.cls][i].kind, b.vals[i])
    {
      SameEntry(sch, t, a, b, i);
    }
  }

  /** No table and no byte string make the side parser return a tree whose objects disagree and stop
      where the writer did. */
  lemma SideRecoveredAgrees(sch: Schema, t: Table, m: Message, s: seq<byte>)
    requires Typed(sch, m)
    requires Parse(Side, sch, t, m.cls, s) == Got(Back(Side, sch, m), |Flat(Side, AllLeaves(sch, m))|)
    ensures Agree(sch, Nodes(m))
  {
    hide Parse, Back, Agree, AllRight, Flat;
    SideParsedIsRight(sch, t, m, s);
    RightAgree(sch, t, m);
  }

  // ----- exactly -----

  /** With the table its walk built, the tree comes back from the stream in front of `rest` and the
      cursor stops at `rest`. */
  ghost predicate Returns(st: Stream, sch: Schema, start: SendState, m: Message, rest: seq<byte>)
    requires Typed(sch, m)
  {
    var w := Flat(st, AllLeaves(sch, m));
    Parse(st, sch, Send(sch, start, m).table, m.cls, w + rest) == Got(Back(st, sch, m), |w|)
  }

  /** The side stream of a tree comes back exactly when objects of one class agree. */
  lemma SideExact(sch: Schema, start: SendState, m: Message, rest: seq<byte>)
    requires TableSchema(sch) && Typed(sch, m) && AllInLimits(AllLeaves(sch, m))
    ensures Returns(Side, sch, start, m, rest) <==> Agree(sch, Nodes(m))
  {
    hide Parse, Back, Agree, Flat, Send, InLimits;
    if Agree(sch, Nodes(m)) {
      SplitRoundTrip(Side, sch, start, m, rest);
    }
    if Returns(Side, sch, start, m, rest) {
      SideRecoveredAgrees(sch, Send(sch, start, m).table, m, Flat(Side, AllLeaves(sch, m)) + rest);
    }
  }

  /** The split round trip, exactly: both streams come back, each in front of any suffix, if and only if
      objects of one class agree on which strings are long and on the classes of their children. */
  lemma SplitExact(sch: Schema, start: SendState, m: Message, rest1: seq<byte>, rest2: seq<byte>)
    requires TableSchema(sch) && Typed(sch, m) && AllInLimits(AllLeaves(sch, m))
    ensures Returns(INLINE, sch, start, m, rest1) && Returns(Side, sch, start, m, rest2)
       <==> Agree(sch, Nodes(m))
  {
    hide Parse, Back, Agree, Flat, Send, InLimits;
    SideExact(sch, start, m, rest2);
    if Agree(sch, Nodes(m)) {
      SplitRoundTrip(INLINE, sch, start, m, rest1);
    }
  }

  // ----- the inline stream alone -----

  /** The entry hides a string or a list of strings that is short and not empty. */
  ghost predicate Hides(sch: Schema, t: Table, n: Message, i: nat)
    requires Typed(sch, n) && i < |n.vals|
  {
    var kind, v := sch[n.cls][i].kind, n.vals[i];
    && !v.Sub? && IsText(kind.atom) && !Long(v) && v != Blank(kind)
    && HasEntry(sch, t, n, i) && Skipped(EntryOf(sch, t, n, i))
  }

  /** A tree with a hidden field does not come back from any bytes at all. */
  lemma HiddenIsLost(sch: Schema, t: Table, m: Message, n: Message, i: nat, s: seq<byte>)
    requires Typed(sch, m) && n in Nodes(m) && Typed(sch, n) && i < |n.vals| && Hides(sch, t, n, i)
    ensures var r := Parse(INLINE, sch, t, m.cls, s); !(r.Got? && r.value == Back(INLINE, sch, m))
  {
    hide Parse, Back, Long, Blank;
    var r := Parse(INLINE, sch, t, m.cls, s);
    if r.Got? && r.value == Back(INLINE, sch, m) {
      ParsedIsServed(INLINE, sch, t, m, s, n, i);
    }
  }

  /** Nor does a tree in which two objects of one class have children of different classes, with any
      table. */
  lemma ChildClassIsLost(st: Stream, sch: Schema, t: Table, m: Message, a: Message, b: Message, i: nat, s: seq<byte>)
    requires Undoes(st) && Typed(sch, m) && a in Nodes(m) && b in Nodes(m) && a.cls == b.cls
    requires i < |a.vals| && i < |b.vals| && a.vals[i].Sub? && b.vals[i].Sub? && a.vals[i].m.cls != b.vals[i].m.cls
    ensures var r := Parse(st, sch, t, m.cls, s); !(r.Got? && r.value == Back(st, sch, m))
  {
    hide Parse, Back;
    var r := Parse(st, sch, t, m.cls, s);
    if r.Got? && r.value == Back(st, sch, m) {
      ParsedIsServed(st, sch, t, m, s, a, i);
      ParsedIsServed(st, sch, t, m, s, b, i);
    }
  }
}
