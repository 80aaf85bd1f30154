/** Messages, their class metadata (include/config.h) and the field values the serializers
    switch over. The twenty-four wire types the switches handle are thirteen kinds of single
    field, ten kinds of repeated field and the child pointer. */
module Messages {
  import opened Words

  // BoolByte is an element of a repeated bool, which the source keeps in a vector<uint8_t>.
  datatype AtomKind =
    | Int32 | Int64 | UInt32 | UInt64 | Bool | BoolByte | SInt32 | Enum
    | Double | Float | Fix32 | Fix64 | Str | Bytes

  datatype Kind = Single(atom: AtomKind) | Rep(atom: AtomKind) | Child

  datatype FieldDesc = FieldDesc(kind: Kind, id: nat)

  /** metadataVec: the field descriptors of every class, by class id. */
  type Schema = map<nat, seq<FieldDesc>>

  // Floats and doubles are their bit patterns.
  datatype Atom = Num(n: int) | Text(s: seq<byte>)

  datatype Value = One(a: Atom) | Many(items: seq<Atom>) | Sub(m: Message)

  datatype Message = Message(cls: nat, vals: seq<Value>)

  predicate IsText(k: AtomKind) {
    k.Str? || k.Bytes?
  }

  predicate IsHandled(kind: Kind) {
    match kind
    case Single(k) => !k.BoolByte?
    case Rep(k) => !(k.Bool? || k.SInt32? || k.Double? || k.Fix32?)
    case Child => true
  }

  predicate IsBool(k: AtomKind) {
    k.Bool? || k.BoolByte?
  }

  predicate IsSigned(k: AtomKind) {
    k.Int32? || k.SInt32? || k.Enum? || k.Fix32? || k.Int64?
  }

  // Written by memcpy in both codecs.
  predicate IsFixed(k: AtomKind) {
    k.Double? || k.Float? || k.Fix32? || k.Fix64?
  }

  // sizeof the C++ type handed to the writer.
  function Width(k: AtomKind): nat {
    if k.Int64? || k.UInt64? || k.Double? || k.Fix64? then 8 else 4
  }

  function Modulus(k: AtomKind): int {
    if Width(k) == 8 then TWO64 else TWO32
  }

  predicate FitsAtom(k: AtomKind, a: Atom) {
    if IsText(k) then a.Text?
    else
      && a.Num?
      && if k.Bool? then 0 <= a.n < 2
         else if k.BoolByte? then 0 <= a.n < 256
         else if IsSigned(k) then -Modulus(k) <= 2 * a.n < Modulus(k)
         else 0 <= a.n < Modulus(k)
  }

  predicate FitsAll(k: AtomKind, items: seq<Atom>) {
    forall i :: 0 <= i < |items| ==> FitsAtom(k, items[i])
  }

  // A value of a field that is not a child pointer.
  predicate FitsLeaf(kind: Kind, v: Value) {
    match kind
    case Single(k) => v.One? && FitsAtom(k, v.a)
    case Rep(k) => v.Many? && FitsAll(k, v.items)
    case Child => false
  }

  predicate Fits(kind: Kind, v: Value) {
    if kind.Child? then v.Sub? else FitsLeaf(kind, v)
  }

  /** Field ids are chars, so at most 127; the class table has room for ids up to 45. */
  predicate ValidSchema(sch: Schema) {
    forall c, i :: c in sch && 0 <= i < |sch[c]| ==> IsHandled(sch[c][i].kind) && sch[c][i].id < 128
  }

  ghost predicate TableSchema(sch: Schema) {
    && ValidSchema(sch)
    && (forall c :: c in sch ==> c < TWO16)
    && (forall c, i :: c in sch && 0 <= i < |sch[c]| ==> sch[c][i].id < 46)
    && (forall c, i, j :: c in sch && 0 <= i < j < |sch[c]| ==> sch[c][i].id != sch[c][j].id)
  }

  /** Every object has the fields of its class, and every child pointer points at an object. */
  ghost predicate Typed(sch: Schema, m: Message) {
    && m.cls in sch
    && |m.vals| == |sch[m.cls]|
    && forall i :: 0 <= i < |m.vals| ==>
         && Fits(sch[m.cls][i].kind, m.vals[i])
         && (m.vals[i].Sub? ==> Typed(sch, m.vals[i].m))
  }

  /** All objects of a tree. */
  ghost function Nodes(m: Message): set<Message>
    decreases m, |m.vals| + 1
  {
    {m} + NodesBelow(m, |m.vals|)
  }

  ghost function NodesBelow(m: Message, k: nat): set<Message>
    requires k <= |m.vals|
    decreases m, k
  {
    if k == 0 then {}
    else NodesBelow(m, k - 1) + if m.vals[k - 1].Sub? then Nodes(m.vals[k - 1].m) else {}
  }

  lemma {:induction false} ChildNodes(m: Message, k: nat, i: nat)
    requires i < k <= |m.vals| && m.vals[i].Sub?
    ensures Nodes(m.vals[i].m) <= NodesBelow(m, k)
  {
    if i < k - 1 {
      ChildNodes(m, k - 1, i);
    }
  }

  /** Every object below `m` sits in the tree of one of its children. */
  lemma {:induction false} WhichChild(m: Message, k: nat, n: Message) returns (i: nat)
    requires k <= |m.vals| && n in NodesBelow(m, k)
    ensures i < k && m.vals[i].Sub? && n in Nodes(m.vals[i].m)
  {
    if n in NodesBelow(m, k - 1) {
      i := WhichChild(m, k - 1, n);
    } else {
      i := k - 1;
    }
  }

  lemma {:induction false} NodesTyped(sch: Schema, m: Message, n: Message)
    requires Typed(sch, m) && n in Nodes(m)
    ensures Typed(sch, n)
    decreases m
  {
    if n != m {
      var i := WhichChild(m, |m.vals|, n);
      NodesTyped(sch, m.vals[i].m, n);
    }
  }

  /** The field values of a tree that are not child pointers, in the order of the backward walk. */
  datatype Leaf = Leaf(fd: FieldDesc, v: Value)

  ghost function Leaves(sch: Schema, m: Message, k: nat): (r: seq<Leaf>)
    requires Typed(sch, m) && k <= |m.vals|
    ensures forall l :: l in r ==> FitsLeaf(l.fd.kind, l.v)
    decreases m, k
  {
    if k == 0 then [] else FieldLeaves(sch, m, k - 1) + Leaves(sch, m, k - 1)
  }

  ghost function FieldLeaves(sch: Schema, m: Message, i: nat): (r: seq<Leaf>)
    requires Typed(sch, m) && i < |m.vals|
    ensures forall l :: l in r ==> FitsLeaf(l.fd.kind, l.v)
    decreases m, i
  {
    if m.vals[i].Sub? then AllLeaves(sch, m.vals[i].m)
    else [Leaf(sch[m.cls][i], m.vals[i])]
  }

  ghost function AllLeaves(sch: Schema, m: Message): (r: seq<Leaf>)
    requires Typed(sch, m)
    ensures forall l :: l in r ==> FitsLeaf(l.fd.kind, l.v)
    decreases m, |m.vals| + 1
  {
    Leaves(sch, m, |m.vals|)
  }

  lemma {:induction false} LeavesValid(sch: Schema, m: Message, k: nat, l: Leaf)
    requires ValidSchema(sch) && Typed(sch, m) && k <= |m.vals| && l in Leaves(sch, m, k)
    ensures IsHandled(l.fd.kind) && l.fd.id < 128
    decreases m, k
  {
    if l in Leaves(sch, m, k - 1) {
      LeavesValid(sch, m, k - 1, l);
    } else if m.vals[k - 1].Sub? {
      assert l in FieldLeaves(sch, m, k - 1);
      LeavesValid(sch, m.vals[k - 1].m, |m.vals[k - 1].m.vals|, l);
    }
  }
}
