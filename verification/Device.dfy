/** What the device makes of the class table (src/chisel/serialiation/Interface.scala:46-92,
    src/chisel/rpcnic/Control.scala:106-109): the bits of a field entry and the two tables it looks the
    hardware type up in. */
module Device {
  import opened Words
  import opened Messages
  import opened Wire
  import opened Walk
  import opened ClassTable

  // detailedTypeToWireType
  const WIRE_TYPES: seq<nat> := [0, 1, 5, 0, 0, 0, 1, 5, 0, 2, 3, 2, 2, 0, 0, 5, 1, 0, 0]

  // detailedTypeToCppSizeLog2
  const SIZES_LOG2: seq<nat> := [0, 3, 2, 3, 3, 2, 3, 2, 2, 3, 0, 3, 3, 2, 2, 2, 3, 2, 3]

  function Shifted(n: nat): nat {
    if n == 0 then 1 else 2 * Shifted(n - 1)
  }

  datatype Seen = Seen(isHost: bool, repeated: bool, fieldType: nat, subClass: nat)

  // data(0), data(1), data(6, 2) and data(31, 16) of an entry.
  function See(e: FieldEntry): Seen {
    Seen(e.fieldType % 2 == 1, (e.fieldType / 2) % 2 == 1, (e.fieldType / 4) % 32, e.subClass % TWO16)
  }

  /** The list of hardware types (include/config.h:20-37) read from number to meaning. */
  datatype Meaning = Scalar(kind: AtomKind) | Submessage | Unused

  function MeaningOf(t: nat): Meaning {
    match t
    case 1 => Scalar(Double)
    case 2 => Scalar(Float)
    case 3 => Scalar(Int64)
    case 4 => Scalar(UInt64)
    case 5 => Scalar(Int32)
    case 8 => Scalar(Bool)
    case 9 => Scalar(Str)
    case 11 => Submessage
    case 12 => Scalar(Bytes)
    case 13 => Scalar(UInt32)
    case 14 => Scalar(Enum)
    case 15 => Scalar(Fix32)
    case 16 => Scalar(Fix64)
    case 17 => Scalar(SInt32)
    case _ => Unused
  }

  // Elements of a repeated bool share the type of a bool.
  function MeaningOfKind(kind: Kind): Meaning {
    if kind.Child? then Submessage
    else if kind.atom.BoolByte? then Scalar(Bool)
    else Scalar(kind.atom)
  }

  lemma NoSubLong(v: Value)
    requires v.Sub?
    ensures !Long(v)
  {
  }

  lemma TypeRange()
    ensures forall k :: 0 < FpgaType(k) < 19
  {
  }

  lemma EntryBits(kind: Kind, v: Value)
    requires Fits(kind, v)
    ensures var t := EntryFor(kind, v).fieldType;
      && t % 2 == (if Long(v) then 0 else 1) && (t / 2) % 2 == (if kind.Rep? then 1 else 0)
      && t / 4 == (if kind.Child? then 11 else FpgaType(kind.atom)) && t / 4 < 19
  {
    hide FpgaType, FitsAll, FitsAtom;
    TypeRange();
    if kind.Child? { NoSubLong(v); }
    hide Long;
  }

  /** An entry tells the device whether the field is in the inline stream, whether it is repeated, its
      type, and the class of the child. */
  lemma EntrySeen(kind: Kind, v: Value)
    requires Fits(kind, v) && (v.Sub? ==> v.m.cls < TWO16)
    ensures var s := See(EntryFor(kind, v));
      && (s.isHost <==> !Long(v)) && (s.repeated <==> kind.Rep?)
      && MeaningOf(s.fieldType) == MeaningOfKind(kind)
      && s.subClass == (if v.Sub? then v.m.cls else 0)
  {
    hide Long, FitsAll, FitsAtom;
    var long := Long(v);
    if kind.Child? {
      assert !long by { NoSubLong(v); }
    }
    EntryBits(kind, v);
  }

  lemma TypeTables(kind: Kind)
    ensures var t := if kind.Child? then 11 else FpgaType(kind.atom);
      && t < |WIRE_TYPES| == |SIZES_LOG2|
      && WIRE_TYPES[t] == WireType(if kind.Rep? then Single(kind.atom) else kind)
      && (!kind.Rep? ==> Shifted(SIZES_LOG2[t]) == FieldLength(kind))
  {
    assert Shifted(2) == 4 && Shifted(3) == 8;
  }

  lemma TypeSeen(kind: Kind, v: Value)
    requires Fits(kind, v)
    ensures See(EntryFor(kind, v)).fieldType == if kind.Child? then 11 else FpgaType(kind.atom)
  {
    EntryBits(kind, v);
    hide EntryFor, FpgaType;
  }

  /** The device's own tables agree with the host: the wire type it expects for the type of an entry is
      the one in the host's tag, and the bytes it takes for a field are those the class length counts. */
  lemma TablesAgree(kind: Kind, v: Value)
    requires Fits(kind, v)
    ensures var t := See(EntryFor(kind, v)).fieldType;
      && t < |WIRE_TYPES| == |SIZES_LOG2|
      && WIRE_TYPES[t] == WireType(if kind.Rep? then Single(kind.atom) else kind)
      && (!kind.Rep? ==> Shifted(SIZES_LOG2[t]) == FieldLength(kind))
      && (kind.Rep? ==> FieldLength(kind) == 8)
  {
    TypeSeen(kind, v);
    TypeTables(kind);
    assert kind.Rep? ==> FieldLength(kind) == 8;
    hide See, EntryFor, Fits, WireType, FieldLength, Shifted, FpgaType;
  }

  lemma SeenKind(kind: Kind, v: Value)
    requires Fits(kind, v)
    ensures var s := See(EntryFor(kind, v));
      (s.repeated <==> kind.Rep?) && MeaningOf(s.fieldType) == MeaningOfKind(kind)
  {
    hide Long, FitsAll, FitsAtom;
    EntryBits(kind, v);
  }

  /** For every object of the tree, whether objects agree or not: the device finds the right kind in the
      entry of each of its fields. */
  lemma DeviceKinds(sch: Schema, start: SendState, m: Message, n: Message, i: nat)
    requires TableSchema(sch) && Typed(sch, m) && n in Nodes(m) && i < |n.vals|
    ensures var t := Send(sch, start, m).table;
      && n.cls in sch && i < |sch[n.cls]| && n.cls in t && sch[n.cls][i].id in t[n.cls].fields
      && var kind, s := sch[n.cls][i].kind, See(t[n.cls].fields[sch[n.cls][i].id]);
         && (s.repeated <==> kind.Rep?) && MeaningOf(s.fieldType) == MeaningOfKind(kind)
         && s.fieldType < |WIRE_TYPES|
         && WIRE_TYPES[s.fieldType] == WireType(if kind.Rep? then Single(kind.atom) else kind)
  {
    hide Send, EntryFor, See, MeaningOf, MeaningOfKind, WireType;
    NodesTyped(sch, m, n);
    var a := EntryFromObject(sch, start, m, n, i);
    SeenKind(sch[n.cls][i].kind, a.vals[i]);
    TablesAgree(sch[n.cls][i].kind, a.vals[i]);
  }

  /** And, if they agree, what of it is in the inline stream and which class the child has. */
  lemma DeviceSees(sch: Schema, start: SendState, m: Message, n: Message, i: nat)
    requires TableSchema(sch) && Typed(sch, m) && Agree(sch, Nodes(m)) && n in Nodes(m) && i < |n.vals|
    ensures var t, v := Send(sch, start, m).table, n.vals[i];
      && n.cls in sch && i < |sch[n.cls]| && n.cls in t && sch[n.cls][i].id in t[n.cls].fields
      && var s := See(t[n.cls].fields[sch[n.cls][i].id]);
         (s.isHost <==> !Long(v)) && s.subClass == (if v.Sub? then v.m.cls else 0)
  {
    hide Send, EntryFor, See, Long;
    NodesTyped(sch, m, n);
    SendShows(sch, Nodes(m), start, m, n, i);
    if n.vals[i].Sub? {
      assert n.vals[i].m.cls in sch;
    }
    EntrySeen(sch[n.cls][i].kind, n.vals[i]);
  }

  // ----- the numbers of a class -----

  /** max_field_number is the largest field id, and zero without fields. */
  lemma {:induction false} MaxIdMeaning(fields: seq<FieldDesc>)
    ensures forall i :: 0 <= i < |fields| ==> fields[i].id <= MaxId(fields)
    ensures if fields == [] then MaxId(fields) == 0 else exists i :: 0 <= i < |fields| && fields[i].id == MaxId(fields)
  {
    if fields != [] {
      var rest := fields[1..];
      MaxIdMeaning(rest);
      forall i | 0 <= i < |fields| ensures fields[i].id <= MaxId(fields) {
        if i > 0 { assert fields[i] == rest[i - 1]; }
      }
      if fields[0].id == MaxId(fields) || rest == [] {
        assert fields[0].id == MaxId(fields);
      } else {
        var i :| 0 <= i < |rest| && rest[i].id == MaxId(rest);
        assert fields[i + 1] == rest[i];
      }
    }
  }

  /** What a field adds to the length: a pointer of eight bytes if it is repeated, else the size in the
      table of the device. */
  function DeviceSize(s: Seen): nat {
    if s.repeated then 8 else if s.fieldType < |SIZES_LOG2| then Shifted(SIZES_LOG2[s.fieldType]) else 0
  }

  ghost function DeviceLength(sch: Schema, m: Message, k: nat): nat
    requires Typed(sch, m) && k <= |m.vals|
  {
    if k == 0 then 0
    else DeviceLength(sch, m, k - 1) + DeviceSize(See(EntryFor(sch[m.cls][k - 1].kind, m.vals[k - 1])))
  }

  lemma {:induction false} LengthSnoc(fields: seq<FieldDesc>, k: nat)
    requires k < |fields|
    ensures ClassLength(fields[..k + 1]) == ClassLength(fields[..k]) + FieldLength(fields[k].kind)
  {
    hide FieldLength;
    if k == 0 {
      assert fields[..1][1..] == [] && fields[..0] == [];
    } else {
      LengthSnoc(fields[1..], k - 1);
      assert fields[..k + 1][1..] == fields[1..][..k] && fields[..k][1..] == fields[1..][..k - 1];
    }
  }

  lemma SizeAgrees(kind: Kind, v: Value)
    requires Fits(kind, v)
    ensures DeviceSize(See(EntryFor(kind, v))) == FieldLength(kind)
  {
    TablesAgree(kind, v);
    SeenKind(kind, v);
    hide FpgaType, Shifted, MeaningOf, MeaningOfKind, Long, FitsAll, FitsAtom, FieldLength;
  }

  lemma {:induction false} LengthTo(sch: Schema, m: Message, k: nat)
    requires Typed(sch, m) && k <= |m.vals|
    ensures ClassLength(sch[m.cls][..k]) == DeviceLength(sch, m, k)
  {
    hide See, EntryFor, FieldLength, DeviceSize;
    if k > 0 {
      LengthTo(sch, m, k - 1);
      LengthSnoc(sch[m.cls], k - 1);
      SizeAgrees(sch[m.cls][k - 1].kind, m.vals[k - 1]);
    }
  }

  /** class_length is the sum over the entries of an object, by the sizes of the device. */
  lemma LengthAgrees(sch: Schema, m: Message)
    requires Typed(sch, m)
    ensures ClassLength(sch[m.cls]) == DeviceLength(sch, m, |m.vals|)
  {
    LengthTo(sch, m, |m.vals|);
    assert sch[m.cls][..|m.vals|] == sch[m.cls];
  }
}
