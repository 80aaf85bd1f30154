/** The class table and the state SendMetadataToFPGA threads through its walk
    (include/encode_main.h:411-817), as a function of the message tree. */
module ClassTable {
  import opened Words
  import opened Messages
  import opened Wire
  import opened Walk

  // FPGA_Field; its `reserve` byte is always written as zero.
  datatype FieldEntry = FieldEntry(fieldType: nat, subClass: nat)

  // FPGA_Metadata; `fields` holds the entries that have been written.
  datatype ClassEntry = ClassEntry(classId: nat, maxField: nat, length: nat, fields: map<nat, FieldEntry>)

  type Table = map<nat, ClassEntry>

  function FpgaType(k: AtomKind): nat {
    match k
    case Double => 1
    case Float => 2
    case Int64 => 3
    case UInt64 => 4
    case Int32 => 5
    case Bool => 8
    case BoolByte => 8
    case Str => 9
    case Bytes => 12
    case UInt32 => 13
    case Enum => 14
    case Fix32 => 15
    case Fix64 => 16
    case SInt32 => 17
  }

  /** Bit 0: the field is in the inline stream. Bit 1: it is repeated. Above: its hardware type. */
  function EntryFor(kind: Kind, v: Value): FieldEntry
    requires Fits(kind, v)
  {
    if kind.Child? then FieldEntry(1 + 4 * 11, v.m.cls)
    else
      var inline := if Long(v) then 0 else 1;
      FieldEntry(inline + (if kind.Rep? then 2 else 0) + 4 * FpgaType(kind.atom), 0)
  }

  predicate Skipped(e: FieldEntry) {
    e.fieldType % 2 == 0
  }

  lemma EntrySkips(kind: Kind, v: Value)
    requires Fits(kind, v)
    ensures Skipped(EntryFor(kind, v)) <==> Long(v)
    ensures EntryFor(kind, v).fieldType < 256
  {
  }

  // What a field adds to class_length.
  function FieldLength(kind: Kind): nat {
    if kind.Single? && !IsText(kind.atom) then Width(kind.atom) else 8
  }

  function ClassLength(fields: seq<FieldDesc>): nat {
    if fields == [] then 0 else FieldLength(fields[0].kind) + ClassLength(fields[1..])
  }

  function MaxId(fields: seq<FieldDesc>): nat {
    if fields == [] then 0
    else
      var rest := MaxId(fields[1..]);
      if fields[0].id > rest then fields[0].id else rest
  }

  function Put(t: Table, c: nat, id: nat, e: FieldEntry): Table
    requires c in t
  {
    t[c := t[c].(fields := t[c].fields[id := e])]
  }

  // ----- the walk -----

  datatype SendState = SendState(table: Table, side: seq<byte>, size: nat, lo: nat, hi: nat)

  function Enter(st: SendState, c: nat): SendState {
    var e := if c in st.table then st.table[c].(classId := c) else ClassEntry(c, 0, 0, map[]);
    st.(table := st.table[c := e],
        lo := if c < st.lo then c else st.lo,
        hi := if c > st.hi then c else st.hi)
  }

  function Leave(st: SendState, c: nat, fields: seq<FieldDesc>): SendState
    requires c in st.table
  {
    st.(table := st.table[c := st.table[c].(maxField := MaxId(fields), length := ClassLength(fields))])
  }

  ghost function Send(sch: Schema, st: SendState, m: Message): (r: SendState)
    requires Typed(sch, m)
    ensures st.table.Keys <= r.table.Keys && m.cls in r.table
    decreases m, |m.vals| + 1
  {
    Leave(SendFields(sch, Enter(st, m.cls), m, |m.vals|), m.cls, sch[m.cls])
  }

  ghost function SendFields(sch: Schema, st: SendState, m: Message, k: nat): (r: SendState)
    requires Typed(sch, m) && k <= |m.vals| && m.cls in st.table
    ensures st.table.Keys <= r.table.Keys
    decreases m, k
  {
    if k == 0 then st else SendFields(sch, SendField(sch, st, m, k - 1), m, k - 1)
  }

  ghost function PutField(sch: Schema, t: Table, m: Message, i: nat): (r: Table)
    requires Typed(sch, m) && i < |m.vals| && m.cls in t
    ensures r.Keys == t.Keys
  {
    Put(t, m.cls, sch[m.cls][i].id, EntryFor(sch[m.cls][i].kind, m.vals[i]))
  }

  ghost function SendField(sch: Schema, st: SendState, m: Message, i: nat): (r: SendState)
    requires Typed(sch, m) && i < |m.vals| && m.cls in st.table
    ensures st.table.Keys <= r.table.Keys
    decreases m, i
  {
    var v := m.vals[i];
    var st' := st.(table := PutField(sch, st.table, m, i));
    if v.Sub? then Send(sch, st', v.m)
    else st'.(side := st.side + SideBytes(v), size := st.size + SideSize(v))
  }

  // ----- the side stream and its accounting -----

  /** At every depth the side stream grows by the blocks of the long leaves in walk order, and the
      byte counter by exactly as much. */
  lemma {:induction false} SendStream(sch: Schema, st: SendState, m: Message)
    requires Typed(sch, m)
    ensures var w := Flat(Side, AllLeaves(sch, m));
      && Send(sch, st, m).side == st.side + w
      && Send(sch, st, m).size == st.size + |w|
      && |w| % 64 == 0
    decreases m, |m.vals| + 1
  {
    SendFieldsStream(sch, Enter(st, m.cls), m, |m.vals|);
    SideStreamAligned(AllLeaves(sch, m));
  }

  lemma {:induction false} SendFieldStream(sch: Schema, st: SendState, m: Message, i: nat)
    requires Typed(sch, m) && i < |m.vals| && m.cls in st.table
    ensures var w := Flat(Side, FieldLeaves(sch, m, i));
      && SendField(sch, st, m, i).side == st.side + w
      && SendField(sch, st, m, i).size == st.size + |w|
    decreases m, i
  {
    hide SideBytes, SideSize, EntryFor, Send;
    if m.vals[i].Sub? {
      SendStream(sch, st.(table := PutField(sch, st.table, m, i)), m.vals[i].m);
    } else {
      FlatOne(Side, Leaf(sch[m.cls][i], m.vals[i]));
      SideSizeExact(m.vals[i]);
    }
  }

  lemma {:induction false} SendFieldsStream(sch: Schema, st: SendState, m: Message, k: nat)
    requires Typed(sch, m) && k <= |m.vals| && m.cls in st.table
    ensures var w := Flat(Side, Leaves(sch, m, k));
      && SendFields(sch, st, m, k).side == st.side + w
      && SendFields(sch, st, m, k).size == st.size + |w|
    decreases m, k
  {
    hide SendField, FieldLeaves, Flat;
    if k == 0 {
      FlatNone(Side);
    } else {
      var i := k - 1;
      var st' := SendField(sch, st, m, i);
      SendFieldStream(sch, st, m, i);
      SendFieldsStream(sch, st', m, i);
      var head, tail := FieldLeaves(sch, m, i), Leaves(sch, m, i);
      FlatConcat(Side, head, tail);
      assert st.side + Flat(Side, head) + Flat(Side, tail) == st.side + (Flat(Side, head) + Flat(Side, tail));
    }
  }

  // ----- what the table says afterwards -----

  ghost predicate ClassRight(sch: Schema, t: Table, c: nat) {
    && c in sch && c in t
    && t[c].classId == c
    && t[c].maxField == MaxId(sch[c])
    && t[c].length == ClassLength(sch[c])
  }

  /** The entry of field `i` of object `n`'s class describes `n`. */
  ghost predicate Shows(sch: Schema, t: Table, n: Message, i: nat)
    requires Typed(sch, n) && i < |n.vals|
  {
    var fd := sch[n.cls][i];
    && n.cls in t
    && fd.id in t[n.cls].fields
    && t[n.cls].fields[fd.id] == EntryFor(fd.kind, n.vals[i])
  }

  /** Objects of the same class agree on which fields are long and on the classes of their children.
      The table has one entry per class and field, so no table describes objects that disagree
      (CoherentAgree). */
  ghost predicate Agree(sch: Schema, u: set<Message>) {
    && (forall a :: a in u ==> Typed(sch, a))
    && forall a, b, i :: a in u && b in u && a.cls == b.cls && 0 <= i < |a.vals| ==>
         EntryFor(sch[a.cls][i].kind, a.vals[i]) == EntryFor(sch[a.cls][i].kind, b.vals[i])
  }

  // ----- who wrote last -----

  datatype Option<T> = None | Some(value: T)

  function Lookup(t: Table, c: nat, id: nat): Option<FieldEntry> {
    if c in t && id in t[c].fields then Some(t[c].fields[id]) else None
  }

  function Or<T>(a: Option<T>, b: Option<T>): Option<T> {
    if a.Some? then a else b
  }

  /** The entry that stays, found by reading the tree forward: fields are visited last to first, so the
      first field of an object that says anything about the class and id has the last word. */
  ghost function LastBelow(sch: Schema, m: Message, k: nat, c: nat, id: nat): Option<FieldEntry>
    requires Typed(sch, m) && k <= |m.vals|
    decreases m, k
  {
    if k == 0 then None else Or(LastBelow(sch, m, k - 1, c, id), LastAt(sch, m, k - 1, c, id))
  }

  // The entry of a child pointer is written before the child is visited.
  ghost function LastAt(sch: Schema, m: Message, i: nat, c: nat, id: nat): Option<FieldEntry>
    requires Typed(sch, m) && i < |m.vals|
    decreases m, i
  {
    Or(if m.vals[i].Sub? then LastBelow(sch, m.vals[i].m, |m.vals[i].m.vals|, c, id) else None,
       if m.cls == c && sch[c][i].id == id then Some(EntryFor(sch[c][i].kind, m.vals[i])) else None)
  }

  lemma PutLookup(sch: Schema, t: Table, m: Message, i: nat, c: nat, id: nat)
    requires Typed(sch, m) && i < |m.vals| && m.cls in t
    ensures Lookup(PutField(sch, t, m, i), c, id)
         == if m.cls == c && sch[c][i].id == id then Some(EntryFor(sch[c][i].kind, m.vals[i])) else Lookup(t, c, id)
  {
    hide EntryFor;
  }

  lemma EnterLookup(st: SendState, d: nat, c: nat, id: nat)
    ensures Lookup(Enter(st, d).table, c, id) == Lookup(st.table, c, id)
  {
  }

  lemma LeaveLookup(st: SendState, d: nat, fields: seq<FieldDesc>, c: nat, id: nat)
    requires d in st.table
    ensures Lookup(Leave(st, d, fields).table, c, id) == Lookup(st.table, c, id)
  {
    hide MaxId, ClassLength;
  }

  lemma EnterKeys(st: SendState, c: nat)
    ensures c in Enter(st, c).table
  {
  }

  /** After the walk of any tree, whether its objects agree or not, every field entry of every class is
      the last one written for it, or what was in the table before. */
  lemma {:induction false} SendLast(sch: Schema, st: SendState, m: Message, c: nat, id: nat)
    requires Typed(sch, m)
    ensures Lookup(Send(sch, st, m).table, c, id)
         == Or(LastBelow(sch, m, |m.vals|, c, id), Lookup(st.table, c, id))
    decreases m, |m.vals| + 1
  {
    hide Enter, Leave, Lookup, LastBelow, SendFields, EntryFor;
    EnterKeys(st, m.cls);
    EnterLookup(st, m.cls, c, id);
    SendFieldsLast(sch, Enter(st, m.cls), m, |m.vals|, c, id);
    LeaveLookup(SendFields(sch, Enter(st, m.cls), m, |m.vals|), m.cls, sch[m.cls], c, id);
  }

  lemma {:induction false} SendFieldsLast(sch: Schema, st: SendState, m: Message, k: nat, c: nat, id: nat)
    requires Typed(sch, m) && k <= |m.vals| && m.cls in st.table
    ensures Lookup(SendFields(sch, st, m, k).table, c, id)
         == Or(LastBelow(sch, m, k, c, id), Lookup(st.table, c, id))
    decreases m, k
  {
    hide SendField, Lookup, LastAt, EntryFor;
    if k > 0 {
      SendFieldLast(sch, st, m, k - 1, c, id);
      SendFieldsLast(sch, SendField(sch, st, m, k - 1), m, k - 1, c, id);
    }
  }

  lemma {:induction false} SendFieldLast(sch: Schema, st: SendState, m: Message, i: nat, c: nat, id: nat)
    requires Typed(sch, m) && i < |m.vals| && m.cls in st.table
    ensures Lookup(SendField(sch, st, m, i).table, c, id)
         == Or(LastAt(sch, m, i, c, id), Lookup(st.table, c, id))
    decreases m, i
  {
    hide Send, Lookup, LastBelow, EntryFor, PutField, SideBytes, SideSize;
    PutLookup(sch, st.table, m, i, c, id);
    if m.vals[i].Sub? {
      SendLast(sch, st.(table := PutField(sch, st.table, m, i)), m.vals[i].m, c, id);
    }
  }

  /** The last word about a class and id is an object's of that class in the tree. */
  lemma {:induction false} LastFrom(sch: Schema, m: Message, k: nat, c: nat, id: nat) returns (n: Message, i: nat)
    requires Typed(sch, m) && k <= |m.vals| && LastBelow(sch, m, k, c, id).Some?
    ensures n == m || n in NodesBelow(m, k)
    ensures Typed(sch, n) && n.cls == c && i < |n.vals| && sch[c][i].id == id
    ensures LastBelow(sch, m, k, c, id).value == EntryFor(sch[c][i].kind, n.vals[i])
    decreases m, k
  {
    hide EntryFor;
    if LastBelow(sch, m, k - 1, c, id).Some? {
      n, i := LastFrom(sch, m, k - 1, c, id);
    } else {
      var v := m.vals[k - 1];
      if v.Sub? && LastBelow(sch, v.m, |v.m.vals|, c, id).Some? {
        n, i := LastFrom(sch, v.m, |v.m.vals|, c, id);
      } else {
        n, i := m, k - 1;
      }
    }
  }

  /** Every object of the tree has had a word about each of its fields. */
  lemma {:induction false} LastExists(sch: Schema, m: Message, k: nat, n: Message, i: nat)
    requires Typed(sch, m) && k <= |m.vals| && Typed(sch, n) && i < |n.vals|
    requires (n == m && i < k) || n in NodesBelow(m, k)
    ensures LastBelow(sch, m, k, n.cls, sch[n.cls][i].id).Some?
    decreases m, k
  {
    hide EntryFor;
    if (n == m && i < k - 1) || n in NodesBelow(m, k - 1) {
      LastExists(sch, m, k - 1, n, i);
    } else if n != m || i != k - 1 {
      var c := m.vals[k - 1].m;
      assert n in Nodes(c);
      LastExists(sch, c, |c.vals|, n, i);
    }
  }

  lemma SameField(sch: Schema, c: nat, i: nat, j: nat)
    requires TableSchema(sch) && c in sch && i < |sch[c]| && j < |sch[c]| && sch[c][i].id == sch[c][j].id
    ensures i == j
  {
  }

  /** Whether objects agree or not, the final entry of every field of every class in the tree is the one
      of some object of that class. */
  lemma EntryFromObject(sch: Schema, st: SendState, m: Message, n: Message, i: nat) returns (a: Message)
    requires TableSchema(sch) && Typed(sch, m) && n in Nodes(m) && Typed(sch, n) && i < |n.vals|
    ensures a in Nodes(m) && Typed(sch, a) && a.cls == n.cls && Shows(sch, Send(sch, st, m).table, a, i)
  {
    hide EntryFor, Send, LastBelow;
    var c, id := n.cls, sch[n.cls][i].id;
    SendLast(sch, st, m, c, id);
    LastExists(sch, m, |m.vals|, n, i);
    var j;
    a, j := LastFrom(sch, m, |m.vals|, c, id);
    SameField(sch, c, i, j);
  }

  /** After the walk the table describes every object of the tree, however often its class occurs. */
  lemma SendShows(sch: Schema, u: set<Message>, st: SendState, m: Message, n: Message, i: nat)
    requires TableSchema(sch) && Agree(sch, u) && Nodes(m) <= u && n in Nodes(m) && i < |n.vals|
    ensures Shows(sch, Send(sch, st, m).table, n, i)
  {
    hide EntryFor, Send;
    assert m in Nodes(m);
    var a := EntryFromObject(sch, st, m, n, i);
  }

  ghost function ClassesOf(u: set<Message>): set<nat> {
    set n | n in u :: n.cls
  }

  lemma {:induction false} SendKeepsClass(sch: Schema, st: SendState, m: Message, c: nat)
    requires Typed(sch, m)
    ensures ClassRight(sch, st.table, c) ==> ClassRight(sch, Send(sch, st, m).table, c)
    ensures (forall n :: n in Nodes(m) ==> n.cls != c) && c in st.table ==>
              Send(sch, st, m).table[c] == st.table[c]
    ensures (forall n :: n in Nodes(m) ==> n.cls != c) && c !in st.table ==>
              c !in Send(sch, st, m).table
    decreases m, |m.vals| + 1
  {
    hide EntryFor, MaxId, ClassLength;
    assert m in Nodes(m);
    SendFieldsKeepClass(sch, Enter(st, m.cls), m, |m.vals|, c);
  }

  lemma {:induction false} SendFieldsKeepClass(sch: Schema, st: SendState, m: Message, k: nat, c: nat)
    requires Typed(sch, m) && k <= |m.vals| && m.cls in st.table
    ensures ClassRight(sch, st.table, c) ==> ClassRight(sch, SendFields(sch, st, m, k).table, c)
    ensures m.cls != c && (forall n :: n in NodesBelow(m, k) ==> n.cls != c) ==>
              && (c in st.table ==> SendFields(sch, st, m, k).table[c] == st.table[c])
              && (c !in st.table ==> c !in SendFields(sch, st, m, k).table)
    decreases m, k
  {
    hide EntryFor, MaxId, ClassLength;
    if k > 0 {
      var i := k - 1;
      var st' := st.(table := PutField(sch, st.table, m, i));
      if m.vals[i].Sub? {
        SendKeepsClass(sch, st', m.vals[i].m, c);
      }
      SendFieldsKeepClass(sch, SendField(sch, st, m, i), m, i, c);
    }
  }

  lemma {:induction false} SendKeepsClassId(sch: Schema, st: SendState, m: Message, c: nat)
    requires Typed(sch, m) && c in st.table && st.table[c].classId == c
    ensures c in Send(sch, st, m).table && Send(sch, st, m).table[c].classId == c
    decreases m, |m.vals| + 1
  {
    hide EntryFor, MaxId, ClassLength;
    SendFieldsKeepClassId(sch, Enter(st, m.cls), m, |m.vals|, c);
  }

  lemma {:induction false} SendFieldsKeepClassId(sch: Schema, st: SendState, m: Message, k: nat, c: nat)
    requires Typed(sch, m) && k <= |m.vals| && m.cls in st.table && c in st.table && st.table[c].classId == c
    ensures c in SendFields(sch, st, m, k).table && SendFields(sch, st, m, k).table[c].classId == c
    decreases m, k
  {
    hide EntryFor;
    if k > 0 {
      var i := k - 1;
      if m.vals[i].Sub? {
        SendKeepsClassId(sch, st.(table := PutField(sch, st.table, m, i)), m.vals[i].m, c);
      }
      SendFieldsKeepClassId(sch, SendField(sch, st, m, i), m, i, c);
    }
  }

  lemma {:induction false} SendClassRight(sch: Schema, st: SendState, m: Message, n: Message)
    requires Typed(sch, m) && n in Nodes(m)
    ensures ClassRight(sch, Send(sch, st, m).table, n.cls)
    decreases m, |m.vals| + 1
  {
    hide EntryFor, MaxId, ClassLength;
    if n == m {
      SendFieldsKeepClassId(sch, Enter(st, m.cls), m, |m.vals|, m.cls);
    } else {
      SendFieldsClassRight(sch, Enter(st, m.cls), m, |m.vals|, n);
    }
  }

  lemma {:induction false} SendFieldsClassRight(sch: Schema, st: SendState, m: Message, k: nat, n: Message)
    requires Typed(sch, m) && k <= |m.vals| && m.cls in st.table && n in NodesBelow(m, k)
    ensures ClassRight(sch, SendFields(sch, st, m, k).table, n.cls)
    decreases m, k
  {
    hide EntryFor, MaxId, ClassLength;
    var i := k - 1;
    var st' := SendField(sch, st, m, i);
    if n in NodesBelow(m, i) {
      SendFieldsClassRight(sch, st', m, i, n);
    } else {
      SendClassRight(sch, st.(table := PutField(sch, st.table, m, i)), m.vals[i].m, n);
      SendFieldsKeepClass(sch, st', m, i, n.cls);
    }
  }

  lemma {:induction false} SendBounds(sch: Schema, st: SendState, m: Message)
    requires Typed(sch, m)
    ensures var r := Send(sch, st, m);
      && r.lo <= st.lo && st.hi <= r.hi
      && (forall c :: c in ClassesOf(Nodes(m)) ==> r.lo <= c <= r.hi)
      && r.lo in ClassesOf(Nodes(m)) + {st.lo} && r.hi in ClassesOf(Nodes(m)) + {st.hi}
    decreases m, |m.vals| + 1
  {
    hide EntryFor, MaxId, ClassLength;
    SendFieldsBounds(sch, Enter(st, m.cls), m, |m.vals|);
    assert ClassesOf(Nodes(m)) == {m.cls} + ClassesOf(NodesBelow(m, |m.vals|));
  }

  lemma {:induction false} SendFieldsBounds(sch: Schema, st: SendState, m: Message, k: nat)
    requires Typed(sch, m) && k <= |m.vals| && m.cls in st.table
    ensures var r := SendFields(sch, st, m, k);
      && r.lo <= st.lo && st.hi <= r.hi
      && (forall c :: c in ClassesOf(NodesBelow(m, k)) ==> r.lo <= c <= r.hi)
      && r.lo in ClassesOf(NodesBelow(m, k)) + {st.lo} && r.hi in ClassesOf(NodesBelow(m, k)) + {st.hi}
    decreases m, k
  {
    hide EntryFor;
    if k > 0 {
      var i := k - 1;
      SendFieldsBounds(sch, SendField(sch, st, m, i), m, i);
      if m.vals[i].Sub? {
        var child := m.vals[i].m;
        SendBounds(sch, st.(table := PutField(sch, st.table, m, i)), child);
        assert ClassesOf(NodesBelow(m, k)) == ClassesOf(NodesBelow(m, i)) + ClassesOf(Nodes(child));
      } else {
        assert NodesBelow(m, k) == NodesBelow(m, i);
      }
    }
  }

  // ----- the table as a whole -----

  ghost predicate Coherent(sch: Schema, t: Table, m: Message) {
    forall n, i :: n in Nodes(m) && Typed(sch, n) && 0 <= i < |n.vals| ==> Shows(sch, t, n, i)
  }

  /** A table that describes every object of a tree makes objects of one class agree: both equal the
      one entry. */
  lemma CoherentAgree(sch: Schema, t: Table, m: Message)
    requires Typed(sch, m) && Coherent(sch, t, m)
    ensures Agree(sch, Nodes(m))
  {
    hide EntryFor, Nodes;
    var u := Nodes(m);
    forall a | a in u ensures Typed(sch, a) {
      NodesTyped(sch, m, a);
    }
    forall a, b, i | a in u && b in u && a.cls == b.cls && 0 <= i < |a.vals|
      ensures EntryFor(sch[a.cls][i].kind, a.vals[i]) == EntryFor(sch[a.cls][i].kind, b.vals[i])
    {
      assert Shows(sch, t, a, i) && Shows(sch, t, b, i);
    }
  }

  lemma ClassRightIn(sch: Schema, t: Table, c: nat)
    requires ClassRight(sch, t, c)
    ensures c in t
  {
  }

  /** After the walk of any tree: every class in it has the right id, length and maximum field id;
      no other class is touched; and every field entry has the kind bits, skip bit and child class of
      every object exactly when objects of one class agree. */
  lemma ClassTableRight(sch: Schema, st: SendState, m: Message)
    requires TableSchema(sch) && Typed(sch, m)
    ensures var t := Send(sch, st, m).table;
      && t.Keys == st.table.Keys + ClassesOf(Nodes(m))
      && (forall n :: n in Nodes(m) ==> ClassRight(sch, t, n.cls))
      && (forall c :: c in st.table && c !in ClassesOf(Nodes(m)) ==> t[c] == st.table[c])
      && (Agree(sch, Nodes(m)) <==> Coherent(sch, t, m))
  {
    hide Send, Shows, ClassRight, Nodes;
    var t := Send(sch, st, m).table;
    forall n | n in Nodes(m) ensures ClassRight(sch, t, n.cls) && n.cls in t {
      SendClassRight(sch, st, m, n);
      ClassRightIn(sch, t, n.cls);
    }
    forall c | c !in ClassesOf(Nodes(m))
      ensures (c in t <==> c in st.table) && (c in st.table ==> t[c] == st.table[c])
    {
      assert forall n :: n in Nodes(m) ==> n.cls in ClassesOf(Nodes(m));
      SendKeepsClass(sch, st, m, c);
    }
    if Agree(sch, Nodes(m)) {
      forall n, i | n in Nodes(m) && Typed(sch, n) && 0 <= i < |n.vals| ensures Shows(sch, t, n, i) {
        SendShows(sch, Nodes(m), st, m, n, i);
      }
    }
    if Coherent(sch, t, m) {
      CoherentAgree(sch, t, m);
    }
  }

  /** Started at 65535 and 0, the class-id bounds come out as the least and greatest id present. */
  lemma ClassBoundsTight(sch: Schema, st: SendState, m: Message)
    requires TableSchema(sch) && Typed(sch, m) && st.lo == 65535 && st.hi == 0
    ensures var r := Send(sch, st, m);
      && r.lo in ClassesOf(Nodes(m)) && r.hi in ClassesOf(Nodes(m))
      && forall c :: c in ClassesOf(Nodes(m)) ==> r.lo <= c <= r.hi
  {
    hide Send;
    SendBounds(sch, st, m);
    assert m in Nodes(m);
    assert m.cls in ClassesOf(Nodes(m));
  }
}
