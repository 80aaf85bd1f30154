/** Asynchronous string copies (test_suite/dsa_offload/dsa_no_encode.h): strings over 256 bytes become
    copy jobs of the data streaming accelerator while the cursor moves on. The writers are programs of
    stores and submitted copies; the bytes of a submitted copy land one at a time, in any order and at
    any later moment, between any two steps of the program. */
module AsyncCopy {
  import opened Words
  import opened Buffer
  import opened Messages
  import opened Wire
  import opened Serializer

  const USE_DSA_SIZE := 256

  // One memcpy of the processor, or one job handed to the accelerator.
  datatype Put = Store(bytes: seq<byte>) | Copy(bytes: seq<byte>)

  // A submitted job: where it writes, what, and which of its bytes have arrived.
  datatype Job = Job(dst: nat, src: seq<byte>, landed: set<nat>)

  datatype State = State(buf: seq<byte>, cursor: nat, jobs: seq<Job>)

  // A writer under way; `slots` is the length of jobs_list.
  datatype Config = Config(st: State, prog: seq<Put>, slots: nat)

  datatype Event = Cpu | Land(job: nat, index: nat)

  function Splice(b: seq<byte>, at: nat, bytes: seq<byte>): (r: seq<byte>)
    requires at + |bytes| <= |b|
    ensures |r| == |b|
  {
    b[..at] + bytes + b[at + |bytes|..]
  }

  function Exec(st: State, put: Put): State
    requires st.cursor + |put.bytes| <= |st.buf|
  {
    if put.Store? then State(Splice(st.buf, st.cursor, put.bytes), st.cursor + |put.bytes|, st.jobs)
    else State(st.buf, st.cursor + |put.bytes|, st.jobs + [Job(st.cursor, put.bytes, {})])
  }

  predicate IsPending(st: State, j: nat, i: nat) {
    j < |st.jobs| && i < |st.jobs[j].src| && i !in st.jobs[j].landed
  }

  function Landing(st: State, j: nat, i: nat): State
    requires IsPending(st, j, i) && st.jobs[j].dst + i < |st.buf|
  {
    var job := st.jobs[j];
    State(st.buf[job.dst + i := job.src[i]], st.cursor, st.jobs[j := job.(landed := job.landed + {i})])
  }

  predicate Enabled(c: Config, e: Event) {
    match e
    case Cpu =>
      && c.prog != []
      && c.st.cursor + |c.prog[0].bytes| <= |c.st.buf|
      && (c.prog[0].Copy? ==> |c.st.jobs| < c.slots)
    case Land(j, i) => IsPending(c.st, j, i) && c.st.jobs[j].dst + i < |c.st.buf|
  }

  function Step(c: Config, e: Event): Config
    requires Enabled(c, e)
  {
    match e
    case Cpu => c.(st := Exec(c.st, c.prog[0]), prog := c.prog[1..])
    case Land(j, i) => c.(st := Landing(c.st, j, i))
  }

  /** `trace` leads from `c` to `d`: any interleaving of program steps and landing bytes. */
  ghost predicate IsRun(c: Config, trace: seq<Event>, d: Config)
    decreases |trace|
  {
    if trace == [] then c == d
    else Enabled(c, trace[0]) && IsRun(Step(c, trace[0]), trace[1..], d)
  }

  /** What the synchronous writers put down, one after the other. */
  function SyncBytes(prog: seq<Put>): seq<byte> {
    if prog == [] then [] else prog[0].bytes + SyncBytes(prog[1..])
  }

  predicate AllLanded(st: State) {
    forall j, i :: 0 <= j < |st.jobs| && 0 <= i < |st.jobs[j].src| ==> i in st.jobs[j].landed
  }

  // ----- the invariant -----

  ghost predicate PendingAt(st: State, x: nat) {
    exists j: nat, i: nat :: IsPending(st, j, i) && st.jobs[j].dst + i == x
  }

  // A job lies below the cursor and carries the wanted bytes.
  ghost predicate JobRight(want: seq<byte>, cursor: nat, job: Job) {
    && job.dst + |job.src| <= cursor <= |want|
    && want[job.dst..job.dst + |job.src|] == job.src
  }

  /** Destinations are pairwise disjoint, each job after the one before it. */
  ghost predicate InOrder(st: State) {
    forall j, k :: 0 <= j < k < |st.jobs| ==> st.jobs[j].dst + |st.jobs[j].src| <= st.jobs[k].dst
  }

  /** Every byte of the buffer is as wanted or still has a wanted byte on its way. */
  ghost predicate Inv(want: seq<byte>, st: State) {
    && |st.buf| == |want| && st.cursor <= |want|
    && (forall j :: 0 <= j < |st.jobs| ==> JobRight(want, st.cursor, st.jobs[j]))
    && (forall x :: 0 <= x < |want| ==> st.buf[x] == want[x] || PendingAt(st, x))
    && InOrder(st)
  }

  lemma SpliceBelow(b: seq<byte>, at: nat, bytes: seq<byte>, lo: nat, hi: nat)
    requires at + |bytes| <= |b| && lo <= hi <= at
    ensures Splice(b, at, bytes)[lo..hi] == b[lo..hi]
  {
  }

  lemma StoreKeeps(want: seq<byte>, st: State, bytes: seq<byte>)
    requires Inv(want, st) && st.cursor + |bytes| <= |want|
    ensures Inv(Splice(want, st.cursor, bytes), Exec(st, Store(bytes)))
  {
    var want', st' := Splice(want, st.cursor, bytes), Exec(st, Store(bytes));
    forall j | 0 <= j < |st'.jobs| ensures JobRight(want', st'.cursor, st'.jobs[j]) {
      assert JobRight(want, st.cursor, st.jobs[j]);
      SpliceBelow(want, st.cursor, bytes, st.jobs[j].dst, st.jobs[j].dst + |st.jobs[j].src|);
    }
    forall x | 0 <= x < |want'| ensures st'.buf[x] == want'[x] || PendingAt(st', x) {
      assert st.buf[x] == want[x] || PendingAt(st, x);
      if PendingAt(st, x) {
        var j: nat, i: nat :| IsPending(st, j, i) && st.jobs[j].dst + i == x;
        assert IsPending(st', j, i);
      }
    }
  }

  lemma NewPending(st: State, bytes: seq<byte>, x: nat)
    requires st.cursor <= x < st.cursor + |bytes| <= |st.buf|
    ensures PendingAt(Exec(st, Copy(bytes)), x)
  {
    var st' := Exec(st, Copy(bytes));
    assert IsPending(st', |st.jobs|, x - st.cursor);
  }

  lemma OldPending(st: State, bytes: seq<byte>, x: nat)
    requires st.cursor + |bytes| <= |st.buf|
    ensures PendingAt(st, x) ==> PendingAt(Exec(st, Copy(bytes)), x)
  {
    if PendingAt(st, x) {
      var j: nat, i: nat :| IsPending(st, j, i) && st.jobs[j].dst + i == x;
      assert IsPending(Exec(st, Copy(bytes)), j, i);
    }
  }

  lemma CopyKeeps(want: seq<byte>, st: State, bytes: seq<byte>)
    requires Inv(want, st) && st.cursor + |bytes| <= |want|
    ensures Inv(Splice(want, st.cursor, bytes), Exec(st, Copy(bytes)))
  {
    var want', st' := Splice(want, st.cursor, bytes), Exec(st, Copy(bytes));
    var n := |st.jobs|;
    hide PendingAt;
    forall j | 0 <= j < |st'.jobs| ensures JobRight(want', st'.cursor, st'.jobs[j]) {
      if j < n {
        assert JobRight(want, st.cursor, st.jobs[j]);
        SpliceBelow(want, st.cursor, bytes, st.jobs[j].dst, st.jobs[j].dst + |st.jobs[j].src|);
      }
    }
    forall x | 0 <= x < |want'| ensures st'.buf[x] == want'[x] || PendingAt(st', x) {
      if st.cursor <= x < st'.cursor {
        NewPending(st, bytes, x);
      } else {
        assert st.buf[x] == want[x] || PendingAt(st, x);
        OldPending(st, bytes, x);
      }
    }
    forall j, k | 0 <= j < k < |st'.jobs| ensures st'.jobs[j].dst + |st'.jobs[j].src| <= st'.jobs[k].dst {
      assert JobRight(want, st.cursor, st.jobs[j]);
    }
  }

  lemma StillPending(st: State, j: nat, i: nat, x: nat)
    requires IsPending(st, j, i) && st.jobs[j].dst + i < |st.buf| && x != st.jobs[j].dst + i
    ensures PendingAt(st, x) ==> PendingAt(Landing(st, j, i), x)
  {
    if PendingAt(st, x) {
      var k: nat, l: nat :| IsPending(st, k, l) && st.jobs[k].dst + l == x;
      assert IsPending(Landing(st, j, i), k, l);
    }
  }

  lemma LandKeeps(want: seq<byte>, st: State, j: nat, i: nat)
    requires Inv(want, st) && IsPending(st, j, i)
    ensures st.jobs[j].dst + i < |st.buf| && Inv(want, Landing(st, j, i))
  {
    assert JobRight(want, st.cursor, st.jobs[j]);
    var job := st.jobs[j];
    assert want[job.dst..job.dst + |job.src|][i] == job.src[i];
    var st' := Landing(st, j, i);
    forall k | 0 <= k < |st'.jobs| ensures JobRight(want, st'.cursor, st'.jobs[k]) {
      assert JobRight(want, st.cursor, st.jobs[k]);
    }
    forall x | 0 <= x < |want| ensures st'.buf[x] == want[x] || PendingAt(st', x) {
      if x != job.dst + i {
        StillPending(st, j, i, x);
      }
    }
  }

  /** `d` has executed the first `done` steps of `c`'s program, and its buffer is on its way to
      `want'`, which is `want` with the bytes of those steps written synchronously. */
  ghost predicate Reached(want: seq<byte>, c: Config, d: Config, want': seq<byte>, done: nat) {
    && done <= |c.prog| && d.prog == c.prog[done..]
    && c.st.cursor + |SyncBytes(c.prog[..done])| <= |want|
    && d.st.cursor == c.st.cursor + |SyncBytes(c.prog[..done])|
    && want' == Splice(want, c.st.cursor, SyncBytes(c.prog[..done]))
    && Inv(want', d.st)
  }

  lemma InvBounds(want: seq<byte>, st: State)
    requires Inv(want, st)
    ensures |st.buf| == |want| && st.cursor <= |want|
  {
  }

  lemma SpliceNothing(want: seq<byte>, st: State)
    requires Inv(want, st)
    ensures st.cursor <= |want| && Splice(want, st.cursor, []) == want
  {
    assert want[..st.cursor] + want[st.cursor..] == want;
  }

  lemma ReachedAtOnce(want: seq<byte>, c: Config)
    requires Inv(want, c.st)
    ensures Reached(want, c, c, want, 0)
  {
    SpliceNothing(want, c.st);
    hide Inv, Splice;
    InvBounds(want, c.st);
    assert c.prog[..0] == [];
  }

  lemma SyncFirst(prog: seq<Put>, n: nat)
    requires n < |prog|
    ensures SyncBytes(prog[..n + 1]) == prog[0].bytes + SyncBytes(prog[1..][..n])
    ensures prog[1..][n..] == prog[n + 1..]
  {
    assert prog[..n + 1][1..] == prog[1..][..n];
  }

  lemma SpliceTwice(b: seq<byte>, at: nat, x: seq<byte>, y: seq<byte>)
    requires at + |x| + |y| <= |b|
    ensures Splice(Splice(b, at, x), at + |x|, y) == Splice(b, at, x + y)
  {
    var m := Splice(b, at, x);
    assert m[..at + |x|] == b[..at] + x;
    assert m[at + |x| + |y|..] == b[at + |x| + |y|..];
  }

  lemma ReachedAfterCpu(want: seq<byte>, c: Config, d: Config, want': seq<byte>, n: nat)
    requires Enabled(c, Cpu) && |want| == |c.st.buf|
    requires Reached(Splice(want, c.st.cursor, c.prog[0].bytes), Step(c, Cpu), d, want', n)
    ensures Reached(want, c, d, want', n + 1)
  {
    hide Inv, Splice, SyncBytes;
    SyncFirst(c.prog, n);
    SpliceTwice(want, c.st.cursor, c.prog[0].bytes, SyncBytes(c.prog[1..][..n]));
  }

  lemma ReachedAfterLand(want: seq<byte>, c: Config, e: Event, d: Config, want': seq<byte>, n: nat)
    requires e.Land? && Enabled(c, e) && Reached(want, Step(c, e), d, want', n)
    ensures Reached(want, c, d, want', n)
  {
    hide Inv, Splice, SyncBytes;
  }

  lemma ExecKeeps(want: seq<byte>, st: State, put: Put)
    requires Inv(want, st) && st.cursor + |put.bytes| <= |st.buf|
    ensures st.cursor + |put.bytes| <= |want|
    ensures Inv(Splice(want, st.cursor, put.bytes), Exec(st, put))
    ensures |want| == |st.buf|
  {
    InvBounds(want, st);
    hide Inv;
    if put.Store? {
      StoreKeeps(want, st, put.bytes);
    } else {
      CopyKeeps(want, st, put.bytes);
    }
  }

  /** Along every run the invariant holds for the buffer the synchronous writers would have so far. */
  lemma {:induction false} RunKeeps(want: seq<byte>, c: Config, trace: seq<Event>, d: Config)
    returns (want': seq<byte>, done: nat)
    requires Inv(want, c.st) && IsRun(c, trace, d)
    ensures Reached(want, c, d, want', done)
    decreases |trace|
  {
    hide Inv, Splice, Exec, Landing, Reached;
    if trace == [] {
      want', done := want, 0;
      ReachedAtOnce(want, c);
    } else {
      var e := trace[0];
      if e.Cpu? {
        var put := c.prog[0];
        ExecKeeps(want, c.st, put);
        var n;
        want', n := RunKeeps(Splice(want, c.st.cursor, put.bytes), Step(c, e), trace[1..], d);
        done := n + 1;
        ReachedAfterCpu(want, c, d, want', n);
      } else {
        LandKeeps(want, c.st, e.job, e.index);
        want', done := RunKeeps(want, Step(c, e), trace[1..], d);
        ReachedAfterLand(want, c, e, d, want', done);
      }
    }
  }

  ghost predicate Idle(c: Config) {
    c.st.jobs == [] && c.st.cursor <= |c.st.buf|
  }

  lemma IdleInv(c: Config)
    requires Idle(c)
    ensures Inv(c.st.buf, c.st)
  {
  }

  lemma PendingBelow(want: seq<byte>, st: State, x: nat)
    requires Inv(want, st)
    ensures PendingAt(st, x) ==> x < st.cursor
  {
    if PendingAt(st, x) {
      var j: nat, i: nat :| IsPending(st, j, i) && st.jobs[j].dst + i == x;
      assert JobRight(want, st.cursor, st.jobs[j]);
    }
  }

  /** At every moment of every run pending destinations are pairwise disjoint and below the cursor,
      and bytes from the cursor on have not been touched. */
  lemma DestinationsApart(c: Config, trace: seq<Event>, d: Config)
    requires Idle(c) && IsRun(c, trace, d)
    ensures InOrder(d.st) && c.st.cursor <= d.st.cursor <= |d.st.buf| == |c.st.buf|
    ensures forall j :: 0 <= j < |d.st.jobs| ==> d.st.jobs[j].dst + |d.st.jobs[j].src| <= d.st.cursor
    ensures d.st.buf[d.st.cursor..] == c.st.buf[d.st.cursor..]
  {
    IdleInv(c);
    var want, done := RunKeeps(c.st.buf, c, trace, d);
    assert forall j :: 0 <= j < |d.st.jobs| ==> JobRight(want, d.st.cursor, d.st.jobs[j]);
    forall x | d.st.cursor <= x < |want| ensures d.st.buf[x] == c.st.buf[x] {
      PendingBelow(want, d.st, x);
    }
  }

  lemma NonePending(st: State, x: nat)
    requires AllLanded(st)
    ensures !PendingAt(st, x)
  {
  }

  lemma LandedIsWanted(want: seq<byte>, st: State)
    requires Inv(want, st) && AllLanded(st)
    ensures st.buf == want
  {
    forall x | 0 <= x < |want| ensures st.buf[x] == want[x] {
      NonePending(st, x);
    }
  }

  /** Whatever the interleaving and the order of completion: once the program has run and all copies
      have landed, the buffer is what the synchronous writers produce. */
  lemma AsyncRefinesSync(c: Config, trace: seq<Event>, d: Config)
    requires Idle(c) && IsRun(c, trace, d) && d.prog == [] && AllLanded(d.st)
    ensures d.st.cursor == c.st.cursor + |SyncBytes(c.prog)|
    ensures Wrote(c.st.buf, d.st.buf, c.st.cursor, SyncBytes(c.prog))
  {
    IdleInv(c);
    var want, done := RunKeeps(c.st.buf, c, trace, d);
    assert c.prog[..done] == c.prog;
    LandedIsWanted(want, d.st);
  }

  // ----- the writers -----

  /** A call of one of the writers of dsa_no_encode.h; any other writer only stores. */
  datatype Write =
    | WString(id: nat, k: AtomKind, s: seq<byte>)
    | WStringNoTag(s: seq<byte>)
    | WRepeatedString(id: nat, k: AtomKind, items: seq<Atom>)
    | WRepeatedBytes(id: nat, items: seq<Atom>)
    | WOther(bytes: seq<byte>)

  predicate GoodWrite(w: Write) {
    match w
    case WString(_, k, _) => IsText(k)
    case WRepeatedString(_, k, items) => IsText(k) && AllText(items)
    case WRepeatedBytes(_, items) => AllText(items)
    case _ => true
  }

  function Fixed32(v: nat): seq<byte> {
    LittleEndian(v % TWO32, 4)
  }

  // (id << 3) | 29: the type sw_repeated_bytes_type has five bits and sets the low two of the id.
  function RepeatedBytesTag(id: nat): nat {
    8 * (id - id % 4 + 3) + 5
  }

  /** The tag of a repeated bytes field: its low five bits are the 29, the bits above them those of the id
      shifted by three. A reader takes 5 for its wire type and the id with its low two bits set for the
      field number, which is the id of the field only if they were set already. */
  lemma RepeatedBytesTagMeaning(id: nat)
    ensures var t := RepeatedBytesTag(id);
      && t % 32 == 29 && t / 32 == (8 * id) / 32
      && t % 8 == 5 && t / 8 == id + (3 - id % 4)
      && (t / 8 == id <==> id % 4 == 3)
  {
    var q, r := id / 4, id % 4;
    assert id == 4 * q + r;
    assert RepeatedBytesTag(id) == 32 * q + 29;
  }

  // The length and then the string: stored if short, submitted if long.
  function StringPuts(s: seq<byte>): seq<Put> {
    [Store(Fixed32(|s|)), if |s| > USE_DSA_SIZE then Copy(s) else Store(s)]
  }

  function ItemsPuts(items: seq<Atom>): seq<Put> {
    if items == [] then [] else StringPuts(TextOf(items[0])) + ItemsPuts(items[1..])
  }

  function Puts(w: Write): seq<Put> {
    match w
    case WString(id, k, s) => [Store(TagBytes(FixedWidth, FieldDesc(Single(k), id)))] + StringPuts(s)
    case WStringNoTag(s) => StringPuts(s)
    case WRepeatedString(id, k, items) =>
      [Store(TagBytes(FixedWidth, FieldDesc(Rep(k), id))), Store(Fixed32(ItemsCounted(FixedWidth, k, items)))]
      + ItemsPuts(items)
    case WRepeatedBytes(id, items) =>
      [Store(Fixed32(RepeatedBytesTag(id))), Store(Fixed32(|items|))] + ItemsPuts(items)
    case WOther(bytes) => [Store(bytes)]
  }

  /** The same call of the writers of include/no_encode.h. */
  function SyncWrite(w: Write): seq<byte>
    requires GoodWrite(w)
  {
    match w
    case WString(id, k, s) => Body(FixedWidth, FieldDesc(Single(k), id), One(Text(s)))
    case WStringNoTag(s) => AtomBytes(FixedWidth, Str, Text(s))
    case WRepeatedString(id, k, items) => Body(FixedWidth, FieldDesc(Rep(k), id), Many(items))
    case WRepeatedBytes(id, items) =>
      Fixed32(RepeatedBytesTag(id)) + Fixed32(|items|) + ItemsBytes(FixedWidth, Bytes, items)
    case WOther(bytes) => bytes
  }

  lemma SyncCons(a: Put, p: seq<Put>)
    ensures SyncBytes([a] + p) == a.bytes + SyncBytes(p)
  {
    assert ([a] + p)[1..] == p;
  }

  lemma {:induction false} SyncConcat(p: seq<Put>, q: seq<Put>)
    ensures SyncBytes(p + q) == SyncBytes(p) + SyncBytes(q)
  {
    if p == [] {
      assert p + q == q;
    } else {
      hide SyncBytes;
      var a, rest := p[0], p[1..];
      assert p == [a] + rest && p + q == [a] + (rest + q);
      SyncConcat(rest, q);
      SyncCons(a, rest);
      SyncCons(a, rest + q);
      assert (a.bytes + SyncBytes(rest)) + SyncBytes(q) == a.bytes + (SyncBytes(rest) + SyncBytes(q));
    }
  }

  lemma SyncTwo(a: Put, b: Put)
    ensures SyncBytes([a]) == a.bytes && SyncBytes([a, b]) == a.bytes + b.bytes
  {
    assert [a, b][1..] == [b] && [b][1..] == [];
  }

  lemma {:induction false} ItemsPutsSync(k: AtomKind, items: seq<Atom>)
    requires IsText(k) && AllText(items)
    ensures SyncBytes(ItemsPuts(items)) == ItemsBytes(FixedWidth, k, items)
  {
    hide LittleEndian;
    if items != [] {
      ItemsPutsSync(k, items[1..]);
      var p := StringPuts(items[0].s);
      SyncTwo(p[0], p[1]);
      SyncConcat(p, ItemsPuts(items[1..]));
    }
  }

  /** Run to the letter, each writer puts down what its synchronous counterpart does. */
  lemma WriteIsSync(w: Write)
    requires GoodWrite(w)
    ensures SyncBytes(Puts(w)) == SyncWrite(w)
  {
    hide LittleEndian, ItemsPuts, ItemsBytes, ItemsCounted;
    match w
    case WString(id, k, s) =>
      var p, tag := StringPuts(s), Store(TagBytes(FixedWidth, FieldDesc(Single(k), id)));
      SyncTwo(p[0], p[1]);
      SyncTwo(tag, p[0]);
      SyncConcat([tag], p);
    case WStringNoTag(s) =>
      SyncTwo(StringPuts(s)[0], StringPuts(s)[1]);
    case WRepeatedString(id, k, items) =>
      var tag := Store(TagBytes(FixedWidth, FieldDesc(Rep(k), id)));
      var len := Store(Fixed32(ItemsCounted(FixedWidth, k, items)));
      SyncTwo(tag, len);
      SyncConcat([tag, len], ItemsPuts(items));
      ItemsPutsSync(k, items);
    case WRepeatedBytes(id, items) =>
      var tag, count := Store(Fixed32(RepeatedBytesTag(id))), Store(Fixed32(|items|));
      SyncTwo(tag, count);
      SyncConcat([tag, count], ItemsPuts(items));
      ItemsPutsSync(Bytes, items);
    case WOther(bytes) =>
      SyncTwo(Store(bytes), Store(bytes));
  }

  function AllPuts(ws: seq<Write>): seq<Put> {
    if ws == [] then [] else Puts(ws[0]) + AllPuts(ws[1..])
  }

  function AllSync(ws: seq<Write>): seq<byte>
    requires forall i :: 0 <= i < |ws| ==> GoodWrite(ws[i])
  {
    if ws == [] then [] else SyncWrite(ws[0]) + AllSync(ws[1..])
  }

  lemma {:induction false} WritesAreSync(ws: seq<Write>)
    requires forall i :: 0 <= i < |ws| ==> GoodWrite(ws[i])
    ensures SyncBytes(AllPuts(ws)) == AllSync(ws)
  {
    hide Puts, SyncWrite;
    if ws != [] {
      assert GoodWrite(ws[0]);
      WriteIsSync(ws[0]);
      WritesAreSync(ws[1..]);
      SyncConcat(Puts(ws[0]), AllPuts(ws[1..]));
    }
  }

  /** For every sequence of writer calls, every interleaving and every order of completion, the final
      buffer is the one the synchronous writers of include/no_encode.h leave. */
  lemma WritersRefineSync(ws: seq<Write>, c: Config, trace: seq<Event>, d: Config)
    requires forall i :: 0 <= i < |ws| ==> GoodWrite(ws[i])
    requires Idle(c) && c.prog == AllPuts(ws) && IsRun(c, trace, d) && d.prog == [] && AllLanded(d.st)
    ensures Wrote(c.st.buf, d.st.buf, c.st.cursor, AllSync(ws))
  {
    WritesAreSync(ws);
    AsyncRefinesSync(c, trace, d);
  }

  // ----- what is handed to the accelerator -----

  function Submitted(prog: seq<Put>): seq<seq<byte>> {
    if prog == [] then []
    else (if prog[0].Copy? then [prog[0].bytes] else []) + Submitted(prog[1..])
  }

  function Texts(items: seq<Atom>): seq<seq<byte>> {
    if items == [] then [] else [TextOf(items[0])] + Texts(items[1..])
  }

  // The strings a call writes, and those of more than 256 bytes among a list.
  function StringsOf(w: Write): seq<seq<byte>> {
    match w
    case WString(_, _, s) => [s]
    case WStringNoTag(s) => [s]
    case WRepeatedString(_, _, items) => Texts(items)
    case WRepeatedBytes(_, items) => Texts(items)
    case WOther(_) => []
  }

  function Over256(ss: seq<seq<byte>>): seq<seq<byte>> {
    if ss == [] then [] else (if |ss[0]| > 256 then [ss[0]] else []) + Over256(ss[1..])
  }

  lemma SubmittedCons(a: Put, p: seq<Put>)
    ensures Submitted([a] + p) == (if a.Copy? then [a.bytes] else []) + Submitted(p)
  {
    assert ([a] + p)[1..] == p;
  }

  lemma NothingSubmitted()
    ensures Submitted([]) == []
  {
  }

  lemma {:induction false} SubmittedConcat(p: seq<Put>, q: seq<Put>)
    ensures Submitted(p + q) == Submitted(p) + Submitted(q)
  {
    hide Submitted;
    if p == [] {
      NothingSubmitted();
      assert p + q == q;
    } else {
      var a, rest := p[0], p[1..];
      assert p == [a] + rest && p + q == [a] + (rest + q);
      SubmittedConcat(rest, q);
      SubmittedCons(a, rest);
      SubmittedCons(a, rest + q);
    }
  }

  lemma Over256Cons(s: seq<byte>, ts: seq<seq<byte>>)
    ensures Over256([s] + ts) == (if |s| > 256 then [s] else []) + Over256(ts)
  {
    assert ([s] + ts)[1..] == ts;
  }

  lemma NothingOver256()
    ensures Over256([]) == []
  {
  }

  lemma {:induction false} Over256Concat(ss: seq<seq<byte>>, ts: seq<seq<byte>>)
    ensures Over256(ss + ts) == Over256(ss) + Over256(ts)
  {
    hide Over256;
    if ss == [] {
      NothingOver256();
      assert ss + ts == ts;
    } else {
      var s, rest := ss[0], ss[1..];
      assert ss == [s] + rest && ss + ts == [s] + (rest + ts);
      Over256Concat(rest, ts);
      Over256Cons(s, rest);
      Over256Cons(s, rest + ts);
    }
  }

  lemma SubmittedTwo(a: Put, b: Put)
    requires a.Store?
    ensures Submitted([a]) == [] && Submitted([a, b]) == if b.Copy? then [b.bytes] else []
  {
    assert [a, b][1..] == [b] && [a][1..] == [] && [b][1..] == [];
  }

  lemma StringSubmitted(s: seq<byte>)
    ensures Submitted(StringPuts(s)) == Over256([s])
  {
    hide Submitted, LittleEndian;
    SubmittedTwo(StringPuts(s)[0], StringPuts(s)[1]);
    assert [s][1..] == [];
  }

  lemma {:induction false} ItemsSubmitted(items: seq<Atom>)
    ensures Submitted(ItemsPuts(items)) == Over256(Texts(items))
  {
    hide StringPuts;
    if items != [] {
      StringSubmitted(TextOf(items[0]));
      ItemsSubmitted(items[1..]);
      SubmittedConcat(StringPuts(TextOf(items[0])), ItemsPuts(items[1..]));
      Over256Concat([TextOf(items[0])], Texts(items[1..]));
    }
  }

  /** A call submits exactly its strings of more than 256 bytes, in order; everything else is stored by
      the processor. */
  lemma WriteSubmits(w: Write)
    ensures Submitted(Puts(w)) == Over256(StringsOf(w))
  {
    hide LittleEndian, TagBytes, StringPuts, ItemsPuts, ItemsCounted, Submitted, Over256;
    match w
    case WString(id, k, s) =>
      var tag := Store(TagBytes(FixedWidth, FieldDesc(Single(k), id)));
      SubmittedTwo(tag, tag);
      SubmittedConcat([tag], StringPuts(s));
      StringSubmitted(s);
    case WStringNoTag(s) =>
      StringSubmitted(s);
    case WRepeatedString(id, k, items) =>
      var tag := Store(TagBytes(FixedWidth, FieldDesc(Rep(k), id)));
      var len := Store(Fixed32(ItemsCounted(FixedWidth, k, items)));
      SubmittedTwo(tag, len);
      SubmittedConcat([tag, len], ItemsPuts(items));
      ItemsSubmitted(items);
    case WRepeatedBytes(id, items) =>
      var tag, count := Store(Fixed32(RepeatedBytesTag(id))), Store(Fixed32(|items|));
      SubmittedTwo(tag, count);
      SubmittedConcat([tag, count], ItemsPuts(items));
      ItemsSubmitted(items);
    case WOther(bytes) =>
      SubmittedTwo(Store(bytes), Store(bytes));
      NothingOver256();
  }

  // ----- the writers as they are called -----

  function Copies(prog: seq<Put>): nat {
    if prog == [] then 0 else (if prog[0].Copy? then 1 else 0) + Copies(prog[1..])
  }

  ghost predicate HasRoom(st: State, prog: seq<Put>, slots: nat) {
    && st.cursor + |SyncBytes(prog)| <= |st.buf|
    && |st.jobs| + Copies(prog) <= slots
  }

  // The state a program leaves when nothing lands in between.
  ghost function ExecAll(st: State, prog: seq<Put>): State
    requires st.cursor + |SyncBytes(prog)| <= |st.buf|
    decreases |prog|
  {
    if prog == [] then st else ExecAll(Exec(st, prog[0]), prog[1..])
  }

  lemma {:induction false} ExecConcat(st: State, p: seq<Put>, q: seq<Put>)
    requires st.cursor + |SyncBytes(p + q)| <= |st.buf|
    ensures |SyncBytes(p + q)| == |SyncBytes(p)| + |SyncBytes(q)|
    ensures ExecAll(st, p).cursor == st.cursor + |SyncBytes(p)|
    ensures |ExecAll(st, p).buf| == |st.buf|
    ensures |ExecAll(st, p).jobs| == |st.jobs| + Copies(p)
    ensures Copies(p + q) == Copies(p) + Copies(q)
    ensures ExecAll(st, p + q) == ExecAll(ExecAll(st, p), q)
    decreases |p|
  {
    SyncConcat(p, q);
    if p == [] {
      assert p + q == q;
    } else {
      assert (p + q)[1..] == p[1..] + q;
      ExecConcat(Exec(st, p[0]), p[1..], q);
    }
  }

  /** Calling the writers without letting anything land is one of the runs. */
  lemma {:induction false} ExecIsRun(st: State, prog: seq<Put>, slots: nat)
    requires HasRoom(st, prog, slots)
    ensures IsRun(Config(st, prog, slots), seq(|prog|, _ => Cpu), Config(ExecAll(st, prog), [], slots))
    decreases |prog|
  {
    if prog != [] {
      ExecIsRun(Exec(st, prog[0]), prog[1..], slots);
      assert seq(|prog|, _ => Cpu)[1..] == seq(|prog| - 1, _ => Cpu);
    }
  }

  function Sources(jobs: seq<Job>): seq<seq<byte>> {
    seq(|jobs|, i requires 0 <= i < |jobs| => jobs[i].src)
  }

  /** The jobs after a program are those before it and one for each submitted string. */
  lemma {:induction false} ExecSubmits(st: State, prog: seq<Put>)
    requires st.cursor + |SyncBytes(prog)| <= |st.buf|
    ensures Sources(ExecAll(st, prog).jobs) == Sources(st.jobs) + Submitted(prog)
    decreases |prog|
  {
    if prog != [] {
      var st' := Exec(st, prog[0]);
      ExecSubmits(st', prog[1..]);
      if prog[0].Copy? {
        assert Sources(st'.jobs) == Sources(st.jobs) + [prog[0].bytes];
      }
    }
  }

  lemma ExecNone(st: State)
    ensures SyncBytes([]) == [] && (st.cursor <= |st.buf| ==> ExecAll(st, []) == st)
  {
  }

  lemma ExecOne(st: State, a: Put)
    requires st.cursor + |SyncBytes([a])| <= |st.buf|
    ensures SyncBytes([a]) == a.bytes && ExecAll(st, [a]) == Exec(st, a)
    ensures Copies([a]) == if a.Copy? then 1 else 0
  {
    hide Exec;
    assert [a][1..] == [];
    assert Copies([]) == 0;
  }

  lemma StringPutsExec(st: State, s: seq<byte>)
    requires st.cursor + |SyncBytes(StringPuts(s))| <= |st.buf|
    ensures var p := StringPuts(s);
      && |SyncBytes(p)| == 4 + |s|
      && ExecAll(st, p) == Exec(Exec(st, p[0]), p[1])
      && Copies(p) == (if |s| > USE_DSA_SIZE then 1 else 0)
      && Exec(st, p[0]).cursor == st.cursor + 4
  {
    var p := StringPuts(s);
    SyncTwo(p[0], p[1]);
    assert [p[0]] + [p[1]] == p;
    ExecConcat(st, [p[0]], [p[1]]);
    ExecOne(st, p[0]);
    ExecOne(Exec(st, p[0]), p[1]);
  }

  lemma ItemsFrom(items: seq<Atom>, i: nat)
    requires i <= |items|
    ensures ItemsPuts(items[i..])
         == if i == |items| then [] else StringPuts(TextOf(items[i])) + ItemsPuts(items[i + 1..])
  {
    hide StringPuts;
    if i < |items| {
      assert items[i..][1..] == items[i + 1..];
    }
  }

  lemma TwoThenItems(st: State, a: seq<byte>, b: seq<byte>, items: seq<Atom>)
    requires var p := [Store(a), Store(b)] + ItemsPuts(items);
      st.cursor + |SyncBytes(p)| <= |st.buf|
    ensures var p := [Store(a), Store(b)] + ItemsPuts(items);
      && |SyncBytes(p)| == |a| + |b| + |SyncBytes(ItemsPuts(items))|
      && Copies(p) == Copies(ItemsPuts(items))
      && ExecAll(st, p) == ExecAll(Exec(Exec(st, Store(a)), Store(b)), ItemsPuts(items))
      && Exec(st, Store(a)).cursor == st.cursor + |a|
      && Exec(Exec(st, Store(a)), Store(b)).cursor == st.cursor + |a| + |b|
      && Exec(Exec(st, Store(a)), Store(b)).jobs == st.jobs
  {
    var two := [Store(a), Store(b)];
    SyncTwo(Store(a), Store(b));
    ExecConcat(st, two, ItemsPuts(items));
    assert [Store(a)] + [Store(b)] == two;
    ExecConcat(st, [Store(a)], [Store(b)]);
    ExecOne(st, Store(a));
    ExecOne(Exec(st, Store(a)), Store(b));
  }

  class DsaWriter {
    const buf: array<byte>
    const slots: nat            // |jobs_list|
    var jobs: seq<Job>          // jobs_list[..now_job_idx]

    constructor (buf: array<byte>, slots: nat)
      ensures this.buf == buf && this.slots == slots && jobs == []
    {
      this.buf, this.slots, jobs := buf, slots, [];
    }

    ghost function At(target: nat): State
      reads this, buf
    {
      State(buf[..], target, jobs)
    }

    method Memcpy(bytes: seq<byte>, target: nat) returns (next: nat)
      requires target + |bytes| <= buf.Length
      modifies buf
      ensures At(next) == Exec(old(At(target)), Store(bytes))
    {
      next := CopyIn(bytes, buf, target);
      assert buf[..] == buf[..target] + buf[target..next] + buf[next..];
    }

    /** dml_wait_job on every submitted job (test_suite/dsa_offload/dsa_sw_micro.cpp): whatever has not
        arrived yet arrives, and the buffer is the one that was wanted. */
    method WaitJobs(target: nat, ghost want: seq<byte>)
      requires Inv(want, At(target))
      modifies this, buf
      ensures AllLanded(At(target)) && buf[..] == want
    {
      hide Inv, Landing;
      var j := 0;
      while j < |jobs|
        invariant 0 <= j <= |jobs| && Inv(want, At(target))
        invariant forall k, l :: 0 <= k < j && 0 <= l < |jobs[k].src| ==> l in jobs[k].landed
        decreases |jobs| - j
      {
        ghost var n := |jobs|;
        var i := 0;
        while i < |jobs[j].src|
          invariant |jobs| == n && j < n && 0 <= i <= |jobs[j].src| && Inv(want, At(target))
          invariant forall k, l :: 0 <= k < j && 0 <= l < |jobs[k].src| ==> l in jobs[k].landed
          invariant forall l :: 0 <= l < i ==> l in jobs[j].landed
          decreases |jobs[j].src| - i
        {
          if i !in jobs[j].landed {
            LandOne(j, i, target, want);
          }
          i := i + 1;
        }
        j := j + 1;
      }
      LandedIsWanted(want, At(target));
    }

    method LandOne(j: nat, i: nat, target: nat, ghost want: seq<byte>)
      requires Inv(want, At(target)) && IsPending(At(target), j, i)
      modifies this, buf
      ensures Inv(want, At(target))
      ensures jobs == old(jobs)[j := old(jobs)[j].(landed := old(jobs)[j].landed + {i})]
    {
      hide Inv;
      LandKeeps(want, At(target), j, i);
      var job := jobs[j];
      buf[job.dst + i] := job.src[i];
      jobs := jobs[j := job.(landed := job.landed + {i})];
      assert At(target) == Landing(old(At(target)), j, i);
    }

    // Fills the next job and submits it: nothing is written yet.
    method Submit(s: seq<byte>, target: nat) returns (next: nat)
      requires target + |s| <= buf.Length && |jobs| < slots
      modifies this
      ensures At(next) == Exec(old(At(target)), Copy(s))
    {
      jobs := jobs + [Job(target, s, {})];
      next := target + |s|;
    }

    /** WriteStringNoTagToArray and WriteBytesNoTagToArray. */
    method WriteStringNoTagToArray(s: seq<byte>, target: nat) returns (next: nat)
      requires HasRoom(At(target), Puts(WStringNoTag(s)), slots)
      modifies this, buf
      ensures At(next) == ExecAll(old(At(target)), Puts(WStringNoTag(s)))
    {
      hide LittleEndian, Exec, ExecAll, SyncBytes, Copies;
      StringPutsExec(At(target), s);
      next := Memcpy(Fixed32(|s|), target);
      if |s| > USE_DSA_SIZE {
        next := Submit(s, next);
      } else {
        next := Memcpy(s, next);
      }
    }

    /** WriteStringToArray and WriteBytesToArray. */
    method WriteStringToArray(id: nat, k: AtomKind, s: seq<byte>, target: nat) returns (next: nat)
      requires HasRoom(At(target), Puts(WString(id, k, s)), slots)
      modifies this, buf
      ensures At(next) == ExecAll(old(At(target)), Puts(WString(id, k, s)))
    {
      hide LittleEndian, StringPuts, Exec, TagBytes;
      var tag := TagBytes(FixedWidth, FieldDesc(Single(k), id));
      ExecConcat(At(target), [Store(tag)], StringPuts(s));
      ExecOne(At(target), Store(tag));
      hide ExecAll, SyncBytes, Copies;
      next := Memcpy(tag, target);
      next := WriteStringNoTagToArray(s, next);
    }

    method WriteItems(items: seq<Atom>, target: nat) returns (next: nat)
      requires HasRoom(At(target), ItemsPuts(items), slots)
      modifies this, buf
      ensures At(next) == ExecAll(old(At(target)), ItemsPuts(items))
    {
      hide LittleEndian, StringPuts, Exec, ExecAll, SyncBytes, Copies, ItemsPuts;
      next := target;
      var i := 0;
      assert items[0..] == items;
      while i < |items|
        invariant 0 <= i <= |items| && HasRoom(At(next), ItemsPuts(items[i..]), slots)
        invariant ExecAll(At(next), ItemsPuts(items[i..])) == ExecAll(old(At(target)), ItemsPuts(items))
      {
        ItemsFrom(items, i);
        ExecConcat(At(next), StringPuts(TextOf(items[i])), ItemsPuts(items[i + 1..]));
        next := WriteStringNoTagToArray(TextOf(items[i]), next);
        i := i + 1;
      }
      ItemsFrom(items, i);
      ExecNone(At(next));
    }

    /** WriteRepeatedStringToArray. */
    method WriteRepeatedStringToArray(id: nat, k: AtomKind, items: seq<Atom>, target: nat) returns (next: nat)
      requires HasRoom(At(target), Puts(WRepeatedString(id, k, items)), slots)
      modifies this, buf
      ensures At(next) == ExecAll(old(At(target)), Puts(WRepeatedString(id, k, items)))
    {
      hide LittleEndian, Exec, ExecAll, SyncBytes, Copies, ItemsPuts, TagBytes;
      var tag := TagBytes(FixedWidth, FieldDesc(Rep(k), id));
      var length := CountItems(FixedWidth, k, items);
      TwoThenItems(At(target), tag, LittleEndian(length, 4), items);
      next := Memcpy(tag, target);
      next := Memcpy(LittleEndian(length, 4), next);
      next := WriteItems(items, next);
    }

    /** WriteRepeatedBytesToArray: a count instead of a length. */
    method WriteRepeatedBytesToArray(id: nat, items: seq<Atom>, target: nat) returns (next: nat)
      requires HasRoom(At(target), Puts(WRepeatedBytes(id, items)), slots)
      modifies this, buf
      ensures At(next) == ExecAll(old(At(target)), Puts(WRepeatedBytes(id, items)))
    {
      hide LittleEndian, Exec, ExecAll, SyncBytes, Copies, ItemsPuts;
      var tag := RepeatedBytesTag(id);
      TwoThenItems(At(target), Fixed32(tag), Fixed32(|items|), items);
      next := Memcpy(Fixed32(tag), target);
      next := Memcpy(Fixed32(|items|), next);
      next := WriteItems(items, next);
    }
  }
}
