/** The tree walk over the asynchronous writers (test_suite/dsa_offload/dsa_no_encode_main.h). It is the walk
    of include/no_encode_main.h but for one call: repeated bytes go through WriteRepeatedBytesToArray
    (line 700) instead of WriteRepeatedStringToArray (include/no_encode_main.h:1538), which puts down
    another tag and the number of elements instead of their length. */
module AsyncWalk {
  import opened Words
  import opened Buffer
  import opened Messages
  import opened Wire
  import opened Walk
  import opened Serializer
  import opened Fixed
  import opened AsyncCopy

  // ----- the calls of the walk -----

  function BodyWrite(fd: FieldDesc, v: Value): Write
    requires FitsLeaf(fd.kind, v)
  {
    match fd.kind
    case Single(k) => if IsText(k) then WString(fd.id, k, v.a.s) else WOther(Body(FixedWidth, fd, v))
    case Rep(Str) => WRepeatedString(fd.id, Str, v.items)
    case Rep(Bytes) => WRepeatedBytes(fd.id, v.items)
    case _ => WOther(Body(FixedWidth, fd, v))
  }

  /** WriteLengthToArray and then the writer of the field, unless it is skipped. */
  function LeafWrites(skip: bool, l: Leaf): seq<Write>
    requires FitsLeaf(l.fd.kind, l.v)
  {
    if skip && Long(l.v) then []
    else [WOther(LittleEndian(Prefix16(FixedWidth, l.fd, l.v), 2)), BodyWrite(l.fd, l.v)]
  }

  ghost function TreeWrites(skip: bool, ls: seq<Leaf>): seq<Write>
    requires AllFit(ls)
  {
    if ls == [] then [] else LeafWrites(skip, ls[0]) + TreeWrites(skip, ls[1..])
  }

  ghost predicate AllGood(ws: seq<Write>) {
    forall i :: 0 <= i < |ws| ==> GoodWrite(ws[i])
  }

  lemma BodyWriteGood(fd: FieldDesc, v: Value)
    requires FitsLeaf(fd.kind, v)
    ensures GoodWrite(BodyWrite(fd, v))
  {
  }

  lemma OtherGood(bytes: seq<byte>)
    ensures GoodWrite(WOther(bytes))
  {
  }

  lemma {:induction false} TreeWritesGood(skip: bool, ls: seq<Leaf>)
    requires AllFit(ls)
    ensures AllGood(TreeWrites(skip, ls))
  {
    hide GoodWrite, BodyWrite, Long;
    if ls != [] {
      BodyWriteGood(ls[0].fd, ls[0].v);
      OtherGood(LittleEndian(Prefix16(FixedWidth, ls[0].fd, ls[0].v), 2));
      TreeWritesGood(skip, ls[1..]);
    }
  }

  // ----- what they put down -----

  lemma FirstByte(v: nat)
    requires v < TWO32
    ensures Fixed32(v) == LittleEndian(v, 4) && LittleEndian(v, 4)[0] == v % 256
  {
    SmallMod(v, TWO32);
  }

  lemma CloseBytesDiffer(x: nat, y: nat)
    requires y < x < y + 256
    ensures x % 256 != y % 256
  {
  }

  lemma TagsDiffer(id: nat)
    requires id < 128
    ensures Fixed32(RepeatedBytesTag(id))[0] != Word32(FixedWidth, id * 8 + 2)[0]
  {
    hide LittleEndian, Fixed32;
    FirstByte(RepeatedBytesTag(id));
    FirstByte(id * 8 + 2);
    CloseBytesDiffer(RepeatedBytesTag(id), id * 8 + 2);
  }

  /** One writer differs from the synchronous walk, in bytes but not in length. */
  lemma BodyWriteExact(fd: FieldDesc, v: Value)
    requires FitsLeaf(fd.kind, v) && fd.id < 128
    ensures GoodWrite(BodyWrite(fd, v))
    ensures var x, y := SyncWrite(BodyWrite(fd, v)), Body(FixedWidth, fd, v);
      |x| == |y| && (x == y <==> fd.kind != Rep(Bytes))
  {
    hide AtomBytes, ItemsBytes, ItemsCounted, LittleEndian;
    BodyWriteGood(fd, v);
    if fd.kind == Rep(Bytes) {
      TagsDiffer(fd.id);
      var x, y := SyncWrite(BodyWrite(fd, v)), Body(FixedWidth, fd, v);
      assert x[0] == Fixed32(RepeatedBytesTag(fd.id))[0];
      assert y[0] == TagBytes(FixedWidth, fd)[0];
    }
  }

  /** Strings behind a 4-byte length each, as many as the count says. */
  function ReadStrings4(s: seq<byte>, n: nat): (r: Read<seq<Atom>>)
    ensures r.Got? ==> r.used <= |s|
    decreases n
  {
    if n == 0 then Got([], 0)
    else
      var a := ReadAtom4(Bytes, s);
      if a.Bad? then Bad
      else
        var rest := ReadStrings4(s[a.used..], n - 1);
        if rest.Bad? then Bad else Got([a.value] + rest.value, a.used + rest.used)
  }

  lemma {:induction false} StringsBack(items: seq<Atom>, rest: seq<byte>)
    requires FitsAll(Bytes, items) && forall i :: 0 <= i < |items| && items[i].Text? ==> |items[i].s| < TWO32
    ensures var w := ItemsBytes(FixedWidth, Bytes, items);
      ReadStrings4(w + rest, |items|) == Got(items, |w|)
  {
    hide AtomBytes, ReadAtom4;
    if items != [] {
      var a, tail := AtomBytes(FixedWidth, Bytes, items[0]), ItemsBytes(FixedWidth, Bytes, items[1..]);
      AtomBack(Bytes, items[0], tail + rest);
      TextIsNormal(Bytes, items[0]);
      StringsBack(items[1..], rest);
      assert (a + tail) + rest == a + (tail + rest);
      assert (a + (tail + rest))[|a|..] == tail + rest;
      assert [items[0]] + items[1..] == items;
    }
  }

  /** A list of bytes as the asynchronous walk writes it: the tag, the number of elements, the elements. */
  lemma ByteListBack(id: nat, items: seq<Atom>, rest: seq<byte>)
    requires id < 128 && |items| < TWO32 && AllText(items) && FitsAll(Bytes, items)
    requires forall i :: 0 <= i < |items| ==> |items[i].s| < TWO32
    ensures var w := SyncWrite(WRepeatedBytes(id, items));
      && |w| >= 8
      && ReadWord(w + rest, 4) == Got(RepeatedBytesTag(id), 4)
      && ReadWord((w + rest)[4..], 4) == Got(|items|, 4)
      && ReadStrings4((w + rest)[8..], |items|) == Got(items, |w| - 8)
  {
    hide LittleEndian, ReadWord, ItemsBytes, ReadStrings4, Pow256;
    WordSizes();
    var t, n, b := RepeatedBytesTag(id), |items|, ItemsBytes(FixedWidth, Bytes, items);
    SmallMod(t, TWO32);
    SmallMod(n, TWO32);
    var x, y := LittleEndian(t, 4), LittleEndian(n, 4);
    var w := SyncWrite(WRepeatedBytes(id, items)) + rest;
    assert w == x + (y + (b + rest));
    assert w[4..] == y + (b + rest);
    assert w[8..] == b + rest;
    ReadWordBack(t, 4, y + (b + rest));
    ReadWordBack(n, 4, b + rest);
    StringsBack(items, rest);
  }

  /** No field that is written is a list of bytes. */
  ghost predicate NoByteLists(skip: bool, ls: seq<Leaf>) {
    forall l :: l in ls && l.fd.kind == Rep(Bytes) ==> skip && Long(l.v)
  }

  lemma {:induction false} SyncAppend(xs: seq<Write>, ys: seq<Write>)
    requires AllGood(xs) && AllGood(ys)
    ensures AllGood(xs + ys) && AllSync(xs + ys) == AllSync(xs) + AllSync(ys)
  {
    hide SyncWrite, GoodWrite;
    if xs == [] {
      assert xs + ys == ys;
    } else {
      assert (xs + ys)[1..] == xs[1..] + ys;
      SyncAppend(xs[1..], ys);
    }
  }

  lemma SyncOther(bytes: seq<byte>)
    ensures SyncWrite(WOther(bytes)) == bytes
  {
  }

  lemma SyncPair(bytes: seq<byte>, w: Write)
    requires GoodWrite(w)
    ensures AllGood([WOther(bytes), w]) && AllSync([WOther(bytes), w]) == bytes + SyncWrite(w)
  {
    hide SyncWrite;
    assert [WOther(bytes), w][1..] == [w] && [w][1..] == [];
    assert AllSync([w]) == SyncWrite(w) + AllSync([]);
    assert SyncWrite(WOther(bytes)) == bytes by { SyncOther(bytes); }
  }

  lemma Aligned(a: seq<byte>, b: seq<byte>, x: seq<byte>, y: seq<byte>)
    requires |a| == |x|
    ensures a + b == x + y <==> a == x && b == y
  {
    if a + b == x + y {
      assert a == (a + b)[..|a|] && b == (a + b)[|a|..];
      assert x == (x + y)[..|x|] && y == (x + y)[|x|..];
    }
  }

  lemma LeafWritesSync(skip: bool, l: Leaf)
    requires FitsLeaf(l.fd.kind, l.v) && l.fd.id < 128
    ensures AllGood(LeafWrites(skip, l))
    ensures var x, y := AllSync(LeafWrites(skip, l)), LeafBytes(Inline(FixedWidth, skip), l);
      |x| == |y| && (x == y <==> l.fd.kind != Rep(Bytes) || (skip && Long(l.v)))
  {
    hide BodyWrite, Long, Body, LittleEndian, Prefix16;
    BodyWriteExact(l.fd, l.v);
    var len, w := LittleEndian(Prefix16(FixedWidth, l.fd, l.v), 2), BodyWrite(l.fd, l.v);
    SyncPair(len, w);
    Aligned(len, SyncWrite(w), len, Body(FixedWidth, l.fd, l.v));
  }

  lemma NothingSync()
    ensures AllSync([]) == []
  {
  }

  /** The calls of the walk put down as many bytes as the synchronous walk, and the same bytes exactly
      if no list of bytes is written. */
  lemma {:induction false} TreeWritesExact(skip: bool, ls: seq<Leaf>)
    requires AllTagged(ls)
    ensures AllGood(TreeWrites(skip, ls))
    ensures var x, y := AllSync(TreeWrites(skip, ls)), Flat(Inline(FixedWidth, skip), ls);
      |x| == |y| && (x == y <==> NoByteLists(skip, ls))
  {
    hide LeafWrites, LeafBytes, Long, AllSync;
    TreeWritesGood(skip, ls);
    if ls != [] {
      TreeWritesExact(skip, ls[1..]);
      LeafWritesSync(skip, ls[0]);
      SyncAppend(LeafWrites(skip, ls[0]), TreeWrites(skip, ls[1..]));
      Aligned(AllSync(LeafWrites(skip, ls[0])), AllSync(TreeWrites(skip, ls[1..])),
              LeafBytes(Inline(FixedWidth, skip), ls[0]), Flat(Inline(FixedWidth, skip), ls[1..]));
      assert forall l :: l in ls <==> l == ls[0] || l in ls[1..];
    } else {
      NothingSync();
    }
  }

  lemma WroteOnce(a: seq<byte>, b: seq<byte>, at: nat, x: seq<byte>, y: seq<byte>)
    requires Wrote(a, b, at, x) && |x| == |y|
    ensures Wrote(a, b, at, y) <==> x == y
  {
  }

  /** For every tree, either value of the skip flag, every interleaving and every order of completion:
      the walk ends behind the last byte of the synchronous walk, and the buffer is the one
      SerializeToStringDfs leaves exactly if no list of bytes is written. */
  lemma AsyncTreeExact(sch: Schema, m: Message, skip: bool, c: Config, trace: seq<Event>, d: Config)
    requires ValidSchema(sch) && Typed(sch, m)
    requires Idle(c) && c.prog == AllPuts(TreeWrites(skip, AllLeaves(sch, m)))
    requires IsRun(c, trace, d) && d.prog == [] && AllLanded(d.st)
    ensures var w := Flat(Inline(FixedWidth, skip), AllLeaves(sch, m));
      && d.st.cursor == c.st.cursor + |w|
      && (Wrote(c.st.buf, d.st.buf, c.st.cursor, w) <==> NoByteLists(skip, AllLeaves(sch, m)))
  {
    hide Wrote, AllPuts, IsRun, NoByteLists;
    var ls := AllLeaves(sch, m);
    TreeTagged(sch, m);
    TreeWritesExact(skip, ls);
    var ws := TreeWrites(skip, ls);
    WritersRefineSync(ws, c, trace, d);
    WritesAreSync(ws);
    AsyncRefinesSync(c, trace, d);
    WroteOnce(c.st.buf, d.st.buf, c.st.cursor, AllSync(ws), Flat(Inline(FixedWidth, skip), ls));
  }

  // The strings of the fields that are written, one after the other.
  ghost function AllStrings(ws: seq<Write>): seq<seq<byte>> {
    if ws == [] then [] else StringsOf(ws[0]) + AllStrings(ws[1..])
  }

  /** The walk hands the accelerator exactly the strings of more than 256 bytes, in walk order. */
  lemma {:induction false} WritesSubmit(ws: seq<Write>)
    ensures Submitted(AllPuts(ws)) == Over256(AllStrings(ws))
  {
    hide Puts, StringsOf;
    if ws != [] {
      WriteSubmits(ws[0]);
      WritesSubmit(ws[1..]);
      SubmittedConcat(Puts(ws[0]), AllPuts(ws[1..]));
      Over256Concat(StringsOf(ws[0]), AllStrings(ws[1..]));
    }
  }

  // ----- the walk -----

  ghost function Program(skip: bool, ls: seq<Leaf>): seq<Put>
    requires AllFit(ls)
  {
    AllPuts(TreeWrites(skip, ls))
  }

  lemma {:induction false} PutsAppend(xs: seq<Write>, ys: seq<Write>)
    ensures AllPuts(xs + ys) == AllPuts(xs) + AllPuts(ys)
  {
    hide Puts;
    if xs == [] {
      assert xs + ys == ys;
    } else {
      assert (xs + ys)[1..] == xs[1..] + ys;
      PutsAppend(xs[1..], ys);
    }
  }

  lemma ProgramNone(skip: bool)
    ensures Program(skip, []) == []
  {
  }

  lemma {:induction false} ProgramConcat(skip: bool, xs: seq<Leaf>, ys: seq<Leaf>)
    requires AllFit(xs) && AllFit(ys)
    ensures AllFit(xs + ys) && Program(skip, xs + ys) == Program(skip, xs) + Program(skip, ys)
  {
    hide LeafWrites, AllPuts;
    if xs == [] {
      assert xs + ys == ys;
      ProgramNone(skip);
    } else {
      var a, tail := LeafWrites(skip, xs[0]), TreeWrites(skip, xs[1..]);
      ProgramConcat(skip, xs[1..], ys);
      assert (xs + ys)[1..] == xs[1..] + ys;
      PutsAppend(a, TreeWrites(skip, xs[1..] + ys));
      PutsAppend(a, tail);
    }
  }

  lemma ProgramOne(skip: bool, l: Leaf)
    requires FitsLeaf(l.fd.kind, l.v)
    ensures Program(skip, [l]) == AllPuts(LeafWrites(skip, l))
  {
    hide LeafWrites, AllPuts;
    assert TreeWrites(skip, [l]) == LeafWrites(skip, l) + TreeWrites(skip, []);
    assert TreeWrites(skip, [l]) == LeafWrites(skip, l);
  }

  lemma TwoPuts(a: Write, b: Write)
    ensures AllPuts([a]) == Puts(a) && AllPuts([a, b]) == Puts(a) + Puts(b)
  {
    hide Puts;
    assert [a, b][1..] == [b] && [a][1..] == [] && [b][1..] == [];
    assert AllPuts([b]) == Puts(b) + AllPuts([]);
  }

  /** SerializeToString_DFS: the calls of the backward walk, one after the other. */
  method SerializeToStringDfs(w: DsaWriter, sch: Schema, m: Message, target: nat, skip: bool) returns (next: nat)
    requires Typed(sch, m) && HasRoom(w.At(target), Program(skip, AllLeaves(sch, m)), w.slots)
    modifies w, w.buf
    ensures w.At(next) == ExecAll(old(w.At(target)), Program(skip, AllLeaves(sch, m)))
    decreases m
  {
    hide Program, FieldLeaves, Exec, ExecAll, SyncBytes, Copies;
    next := target;
    var i := |m.vals|;
    while i > 0
      invariant 0 <= i <= |m.vals| && HasRoom(w.At(next), Program(skip, Leaves(sch, m, i)), w.slots)
      invariant ExecAll(w.At(next), Program(skip, Leaves(sch, m, i)))
             == ExecAll(old(w.At(target)), Program(skip, AllLeaves(sch, m)))
    {
      i := i - 1;
      var p, q := Program(skip, FieldLeaves(sch, m, i)), Program(skip, Leaves(sch, m, i));
      ProgramConcat(skip, FieldLeaves(sch, m, i), Leaves(sch, m, i));
      ExecConcat(w.At(next), p, q);
      next := SerializeField(w, sch, m, i, next, skip);
    }
    ProgramNone(skip);
    ExecNone(w.At(next));
  }

  lemma PutsNone()
    ensures AllPuts([]) == []
  {
  }

  lemma LeafPuts(len: seq<byte>, b: Write)
    ensures AllPuts([WOther(len), b]) == [Store(len)] + Puts(b)
  {
    TwoPuts(WOther(len), b);
  }

  lemma PutsOther(st: State, bytes: seq<byte>)
    ensures Puts(WOther(bytes)) == [Store(bytes)] && SyncBytes([Store(bytes)]) == bytes
    ensures st.cursor + |bytes| <= |st.buf| ==> ExecAll(st, [Store(bytes)]) == Exec(st, Store(bytes))
  {
    SyncTwo(Store(bytes), Store(bytes));
    if st.cursor + |bytes| <= |st.buf| {
      ExecOne(st, Store(bytes));
    }
  }

  // The writers of other types only store.
  method WriteOther(w: DsaWriter, fd: FieldDesc, v: Value, target: nat) returns (next: nat)
    requires FitsLeaf(fd.kind, v) && target + |Body(FixedWidth, fd, v)| <= w.buf.Length
    modifies w.buf
    ensures w.At(next) == Exec(old(w.At(target)), Store(Body(FixedWidth, fd, v)))
  {
    hide Body;
    next := WriteBody(FixedWidth, fd, v, w.buf, target);
    assert w.buf[..] == w.buf[..target] + w.buf[target..next] + w.buf[next..];
  }

  method WriteField(w: DsaWriter, fd: FieldDesc, v: Value, target: nat) returns (next: nat)
    requires FitsLeaf(fd.kind, v) && HasRoom(w.At(target), Puts(BodyWrite(fd, v)), w.slots)
    modifies w, w.buf
    ensures w.At(next) == ExecAll(old(w.At(target)), Puts(BodyWrite(fd, v)))
  {
    hide Exec, ExecAll, SyncBytes, Copies, Body, Puts;
    if fd.kind.Single? && IsText(fd.kind.atom) {
      next := w.WriteStringToArray(fd.id, fd.kind.atom, v.a.s, target);
    } else if fd.kind == Rep(Str) {
      next := w.WriteRepeatedStringToArray(fd.id, Str, v.items, target);
    } else if fd.kind == Rep(Bytes) {
      next := w.WriteRepeatedBytesToArray(fd.id, v.items, target);
    } else {
      PutsOther(w.At(target), Body(FixedWidth, fd, v));
      next := WriteOther(w, fd, v, target);
    }
  }

  method WriteLeaf(w: DsaWriter, fd: FieldDesc, v: Value, target: nat, skip: bool) returns (next: nat)
    requires FitsLeaf(fd.kind, v)
    requires HasRoom(w.At(target), AllPuts(LeafWrites(skip, Leaf(fd, v))), w.slots)
    modifies w, w.buf
    ensures w.At(next) == ExecAll(old(w.At(target)), AllPuts(LeafWrites(skip, Leaf(fd, v))))
  {
    hide Exec, ExecAll, SyncBytes, Copies, LittleEndian, BodyWrite, AllPuts, ItemsCounted, CountedSize;
    var size: nat, skipped;
    if fd.kind.Single? {
      skipped := skip && LongAtom(v.a);
      size := (TagSize(FixedWidth, fd.id) + CountedSize(FixedWidth, fd.kind.atom, v.a)) % TWO16;
    } else {
      size, skipped := RepeatedCount16(FixedWidth, fd.kind.atom, v.items, skip);
      size := (size + TagSize(FixedWidth, fd.id) + Word32Size(FixedWidth, size)) % TWO16;
    }
    if skipped {
      ExecNone(w.At(target));
      PutsNone();
      return target;
    }
    assert size == Prefix16(FixedWidth, fd, v);
    var len := LittleEndian(size, 2);
    LeafPuts(len, BodyWrite(fd, v));
    ExecConcat(w.At(target), [Store(len)], Puts(BodyWrite(fd, v)));
    ExecOne(w.At(target), Store(len));
    next := w.Memcpy(len, target);
    next := WriteField(w, fd, v, next);
  }

  method SerializeField(w: DsaWriter, sch: Schema, m: Message, i: nat, target: nat, skip: bool) returns (next: nat)
    requires Typed(sch, m) && i < |m.vals|
    requires HasRoom(w.At(target), Program(skip, FieldLeaves(sch, m, i)), w.slots)
    modifies w, w.buf
    ensures w.At(next) == ExecAll(old(w.At(target)), Program(skip, FieldLeaves(sch, m, i)))
    decreases m, 0
  {
    hide Program, Exec, ExecAll, SyncBytes, Copies, AllLeaves, LeafWrites;
    var fd, v := sch[m.cls][i], m.vals[i];
    if fd.kind.Child? {
      next := SerializeToStringDfs(w, sch, v.m, target, skip);
    } else {
      ProgramOne(skip, Leaf(fd, v));
      next := WriteLeaf(w, fd, v, target, skip);
    }
  }
}
