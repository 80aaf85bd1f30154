/** SendMetadataToFPGA (include/encode_main.h:411-817): one backward walk that fills the class table,
    tracks the range of class ids and streams the long strings out in 64-byte lines. */
module Sender {
  import opened Words
  import opened Buffer
  import opened Messages
  import opened Wire
  import opened Walk
  import opened ClassTable

  lemma SendFieldsStep(sch: Schema, st: SendState, m: Message, k: nat)
    requires Typed(sch, m) && k <= |m.vals| && m.cls in st.table
    ensures SendFields(sch, st, m, k)
         == if k == 0 then st else SendFields(sch, SendField(sch, st, m, k - 1), m, k - 1)
  {
    hide SendField;
  }

  lemma NotLong(v: Value)
    requires !Long(v)
    ensures SideBytes(v) == [] && SideSize(v) == 0
  {
  }

  lemma NoFields()
    ensures MaxId([]) == 0 && ClassLength([]) == 0
  {
  }

  lemma FieldsFrom(fields: seq<FieldDesc>, i: nat)
    requires i < |fields|
    ensures MaxId(fields[i..]) == if fields[i].id > MaxId(fields[i + 1..]) then fields[i].id else MaxId(fields[i + 1..])
    ensures ClassLength(fields[i..]) == FieldLength(fields[i].kind) + ClassLength(fields[i + 1..])
  {
    assert fields[i..][1..] == fields[i + 1..];
  }

  lemma BlocksFrom(items: seq<Atom>, j: nat)
    requires j <= |items|
    ensures Blocks(items[j..]) == if j == |items| then [] else Blocks(items[j + 1..]) + Block(items[j])
    ensures BlocksSize(items[j..])
         == if j == |items| then 0 else 64 + Align64(|TextOf(items[j])|) + BlocksSize(items[j + 1..])
  {
    hide Block;
    if j < |items| {
      assert items[j..][1..] == items[j + 1..];
    }
  }

  lemma {:induction false} BlocksFit(items: seq<Atom>, j: nat)
    requires j <= |items|
    ensures |Blocks(items[j..])| <= |Blocks(items)|
  {
    hide Block, Blocks;
    if j > 0 {
      BlocksFrom(items, j - 1);
      BlocksFit(items, j - 1);
    } else {
      assert items[0..] == items;
    }
  }

  class MetadataSender {
    // FPGA_metadataVec, p_c2h_buffer_size, min_class_id and max_class_id
    var table: Table
    var bufferSize: nat
    var minClassId: nat
    var maxClassId: nat

    constructor (table: Table)
      ensures State([]) == SendState(table, [], 0, 65535, 0)
    {
      this.table := table;
      bufferSize, minClassId, maxClassId := 0, 65535, 0;
    }

    /** The state as the specification sees it, `side` being the stream written so far. */
    ghost function State(side: seq<byte>): SendState
      reads this
    {
      SendState(table, side, bufferSize, minClassId, maxClassId)
    }

    method SendMetadata(sch: Schema, m: Message, buf: array<byte>, at: nat, ghost side: seq<byte>)
        returns (next: nat)
      requires Typed(sch, m)
      requires at + |Flat(Side, AllLeaves(sch, m))| <= buf.Length
      modifies this, buf
      ensures var w := Flat(Side, AllLeaves(sch, m));
        && next == at + |w|
        && Wrote(old(buf[..]), buf[..], at, w)
        && State(side + w) == Send(sch, old(State(side)), m)
      decreases m
    {
      hide Flat, AllLeaves, SendFields, Wrote, MaxId, ClassLength;
      var c := m.cls;
      if c > maxClassId { maxClassId := c; }
      if c < minClassId { minClassId := c; }
      table := table[c := if c in table then table[c].(classId := c) else ClassEntry(c, 0, 0, map[])];
      assert State(side) == Enter(old(State(side)), c);
      var maxField, length;
      next, maxField, length := SendAllFields(sch, m, buf, at, side);
      table := table[c := table[c].(maxField := maxField, length := length)];
    }

    method SendAllFields(sch: Schema, m: Message, buf: array<byte>, at: nat, ghost side: seq<byte>)
        returns (next: nat, maxField: nat, length: nat)
      requires Typed(sch, m) && m.cls in table
      requires at + |Flat(Side, AllLeaves(sch, m))| <= buf.Length
      modifies this, buf
      ensures var w := Flat(Side, AllLeaves(sch, m));
        && next == at + |w|
        && Wrote(old(buf[..]), buf[..], at, w)
        && State(side + w) == SendFields(sch, old(State(side)), m, |m.vals|)
      ensures m.cls in table && maxField == MaxId(sch[m.cls]) && length == ClassLength(sch[m.cls])
      decreases m, |m.vals|
    {
      hide Flat, FieldLeaves, SendField, SendFields, Wrote, MaxId, ClassLength, FieldLength;
      var fields := sch[m.cls];
      ghost var start := State(side);
      maxField, length, next := 0, 0, at;
      NoFields();
      FlatNone(Side);
      WroteNothing(buf[..], at);
      ghost var w := [];
      assert side + w == side && fields[|fields|..] == [];
      var i := |m.vals|;
      while i > 0
        invariant 0 <= i <= |m.vals| && m.cls in table
        invariant maxField == MaxId(fields[i..]) && length == ClassLength(fields[i..])
        invariant w + Flat(Side, Leaves(sch, m, i)) == Flat(Side, AllLeaves(sch, m))
        invariant next == at + |w| && Wrote(old(buf[..]), buf[..], at, w)
        invariant SendFields(sch, State(side + w), m, i) == SendFields(sch, start, m, |m.vals|)
      {
        SendFieldsStep(sch, State(side + w), m, i);
        i := i - 1;
        FieldsFrom(fields, i);
        if fields[i].id > maxField { maxField := fields[i].id; }
        length := length + FieldLength(fields[i].kind);
        ghost var mid, x := buf[..], Flat(Side, FieldLeaves(sch, m, i));
        FlatConcat(Side, FieldLeaves(sch, m, i), Leaves(sch, m, i));
        assert (w + x) + Flat(Side, Leaves(sch, m, i)) == w + (x + Flat(Side, Leaves(sch, m, i)));
        next := SendOneField(sch, m, i, buf, next, side + w);
        WroteThen(old(buf[..]), mid, buf[..], at, w, x);
        assert (side + w) + x == side + (w + x);
        w := w + x;
      }
      assert w + [] == w && fields[0..] == fields;
      SendFieldsStep(sch, State(side + w), m, 0);
    }

    method SendOneField(sch: Schema, m: Message, i: nat, buf: array<byte>, at: nat, ghost side: seq<byte>)
        returns (next: nat)
      requires Typed(sch, m) && i < |m.vals| && m.cls in table
      requires at + |Flat(Side, FieldLeaves(sch, m, i))| <= buf.Length
      modifies this, buf
      ensures var w := Flat(Side, FieldLeaves(sch, m, i));
        && next == at + |w|
        && Wrote(old(buf[..]), buf[..], at, w)
        && State(side + w) == SendField(sch, old(State(side)), m, i)
        && m.cls in table
      decreases m, 0
    {
      hide Flat, Wrote, Send, AllLeaves, SideBytes, SideSize, Long;
      var c, fd, v := m.cls, sch[m.cls][i], m.vals[i];
      if fd.kind.Child? {
        table := Put(table, c, fd.id, FieldEntry(1 + 4 * 11, v.m.cls));
        assert table == PutField(sch, old(table), m, i);
        next := SendMetadata(sch, v.m, buf, at, side);
      } else {
        FlatOne(Side, Leaf(fd, v));
        var long := IsLong(v);
        var repeated := if fd.kind.Rep? then 2 else 0;
        table := Put(table, c, fd.id, FieldEntry((if long then 0 else 1) + repeated + 4 * FpgaType(fd.kind.atom), 0));
        assert table == PutField(sch, old(table), m, i);
        if long {
          next := SendLong(v, buf, at);
        } else {
          NotLong(v);
          WroteNothing(buf[..], at);
          next := at;
          assert side + [] == side;
        }
      }
    }

    // The scan for an element longer than 1024 bytes.
    method IsLong(v: Value) returns (long: bool)
      requires !v.Sub?
      ensures long <==> Long(v)
    {
      if v.One? {
        return LongAtom(v.a);
      }
      var j := 0;
      while j < |v.items|
        invariant 0 <= j <= |v.items| && forall i :: 0 <= i < j ==> !LongAtom(v.items[i])
      {
        if LongAtom(v.items[j]) {
          return true;
        }
        j := j + 1;
      }
      return false;
    }

    method SendLong(v: Value, buf: array<byte>, at: nat) returns (next: nat)
      requires Long(v) && at + |SideBytes(v)| <= buf.Length
      modifies this`bufferSize, buf
      ensures next == at + |SideBytes(v)| && Wrote(old(buf[..]), buf[..], at, SideBytes(v))
      ensures bufferSize == old(bufferSize) + SideSize(v)
    {
      hide Block, Wrote, Blocks, BlocksSize, Line, Align64;
      if v.One? {
        next := SendBlock(v.a, buf, at);
        return;
      }
      var n := |v.items|;
      next := WriteLine(n, buf, at);
      bufferSize := bufferSize + 64;
      ghost var w := Line(n);
      var j := n;
      BlocksFrom(v.items, n);
      assert w + [] == w;
      while j > 0
        invariant 0 <= j <= n
        invariant w == Line(n) + Blocks(v.items[j..])
        invariant next == at + |w| && Wrote(old(buf[..]), buf[..], at, w)
        invariant bufferSize == old(bufferSize) + 64 + BlocksSize(v.items[j..])
      {
        j := j - 1;
        ghost var mid, b := buf[..], Block(v.items[j]);
        BlocksFrom(v.items, j);
        BlocksFit(v.items, j);
        assert (Line(n) + Blocks(v.items[j + 1..])) + b == Line(n) + (Blocks(v.items[j + 1..]) + b);
        next := SendBlock(v.items[j], buf, next);
        WroteThen(old(buf[..]), mid, buf[..], at, w, b);
        w := w + b;
      }
      assert v.items[0..] == v.items;
    }

    // A size_t and seven zeroed words.
    method WriteLine(v: nat, buf: array<byte>, at: nat) returns (next: nat)
      requires at + 64 <= buf.Length
      modifies buf
      ensures next == at + 64 && Wrote(old(buf[..]), buf[..], at, Line(v))
    {
      hide Wrote, LittleEndian;
      next := CopyIn(LittleEndian(v, 8), buf, at);
      ghost var mid := buf[..];
      next := CopyIn(Zeros(56), buf, next);
      WroteThen(old(buf[..]), mid, buf[..], at, LittleEndian(v, 8), Zeros(56));
    }

    /** The aligned size in a line of its own, the string, and zeros up to the aligned size. */
    method SendBlock(a: Atom, buf: array<byte>, at: nat) returns (next: nat)
      requires at + |Block(a)| <= buf.Length
      modifies this`bufferSize, buf
      ensures next == at + |Block(a)| && Wrote(old(buf[..]), buf[..], at, Block(a))
      ensures bufferSize == old(bufferSize) + 64 + Align64(|TextOf(a)|)
    {
      hide Wrote, Line, Align64;
      var s := TextOf(a);
      var aligned := Align64(|s|);
      next := WriteLine(aligned, buf, at);
      ghost var b1, p1 := buf[..], next;
      next := CopyIn(s, buf, next);
      ghost var b2 := buf[..];
      next := CopyIn(Zeros(aligned - |s|), buf, next);
      WroteThen(b1, b2, buf[..], p1, s, Zeros(aligned - |s|));
      WroteThen(old(buf[..]), b1, buf[..], at, Line(aligned), Padded(s));
      bufferSize := bufferSize + 64 + aligned;
    }
  }
}
