/** The pool allocator of utils/QDMAController.cpp (MemCtl): first fit over an ordered map of free
    chunks, carving from the high end, and coalescing on free.

    Line 301 takes `std::prev` of an iterator that is `begin()` when no free chunk starts below the
    freed pointer; the language leaves that undefined. `Freed` reads that case as "no predecessor",
    and `UndefinedPrevExact` says when it arises. */
module Allocator {
  import opened Words

  // free_chunk and used_chunk: start address to size.
  datatype Chunks = Chunks(free: map<nat, nat>, used: map<nat, nat>)

  datatype Pool = Pool(base: nat, size: nat)

  /** A mapped pool: not at address zero, not empty, page-aligned, inside the address space. */
  predicate ValidPool(p: Pool) {
    p.base > 0 && p.size > 0 && p.base % 64 == 0 && p.size % 64 == 0 && p.base + p.size <= TWO64
  }

  // The constructor's free_chunk.emplace.
  function Initial(p: Pool): Chunks {
    Chunks(map[p.base := p.size], map[])
  }

  // (size + 64UL - 1) & ~(64UL - 1) in 64-bit arithmetic.
  function RoundUp(size: nat): (r: nat)
    ensures r % 64 == 0 && r < TWO64
  {
    var s := (size + 63) % TWO64;
    s - s % 64
  }

  /** The rounded size is the least multiple of 64 that holds the request, except that requests of
      zero and those within 63 of 2^64 round to zero. */
  lemma RoundUpMeaning(size: nat)
    requires size < TWO64
    ensures RoundUp(size) == 0 <==> size == 0 || size > TWO64 - 64
    ensures RoundUp(size) != 0 ==> size <= RoundUp(size) < size + 64
  {
  }

  // ----- ordered-map lookups -----

  ghost predicate IsLeast(s: set<nat>, a: nat) {
    a in s && forall b :: b in s ==> a <= b
  }

  ghost predicate IsGreatest(s: set<nat>, a: nat) {
    a in s && forall b :: b in s ==> b <= a
  }

  lemma {:induction false} Extremes(s: set<nat>)
    requires s != {}
    ensures exists lo :: IsLeast(s, lo)
    ensures exists hi :: IsGreatest(s, hi)
    decreases |s|
  {
    var x :| x in s;
    var rest := s - {x};
    assert s == rest + {x};
    if rest == {} {
      assert IsLeast(s, x) && IsGreatest(s, x);
    } else {
      Extremes(rest);
      var lo :| IsLeast(rest, lo);
      var hi :| IsGreatest(rest, hi);
      assert IsLeast(s, if x < lo then x else lo);
      assert IsGreatest(s, if x > hi then x else hi);
    }
  }

  ghost function Least(s: set<nat>): (a: nat)
    requires s != {}
    ensures IsLeast(s, a)
  {
    Extremes(s);
    var a :| IsLeast(s, a);
    a
  }

  ghost function Greatest(s: set<nat>): (a: nat)
    requires s != {}
    ensures IsGreatest(s, a)
  {
    Extremes(s);
    var a :| IsGreatest(s, a);
    a
  }

  // The chunks findFreeChunk would accept, and the keys on either side of upper_bound(p).
  ghost function Fitting(free: map<nat, nat>, n: nat): set<nat> {
    set a | a in free && free[a] >= n
  }

  ghost function Above(free: map<nat, nat>, p: nat): set<nat> {
    set a | a in free && a > p
  }

  ghost function UpTo(free: map<nat, nat>, p: nat): set<nat> {
    set a | a in free && a <= p
  }

  // ----- alloc and free on the two maps -----

  datatype Allocated = Ptr(addr: nat) | Null

  function Carved(st: Chunks, a: nat, n: nat): (r: Chunks)
    requires a in st.free && st.free[a] >= n
  {
    var sz := st.free[a];
    if sz > n then Chunks(st.free[a := sz - n], st.used[a + sz - n := n])
    else Chunks(st.free - {a}, st.used[a := n])
  }

  /** MemCtl::alloc: the lowest chunk that is large enough, carved from its high end. */
  ghost function AllocState(st: Chunks, size: nat): Chunks {
    var n := RoundUp(size);
    if Fitting(st.free, n) == {} then st else Carved(st, Least(Fitting(st.free, n)), n)
  }

  ghost function AllocResult(st: Chunks, size: nat): Allocated {
    var n := RoundUp(size);
    if Fitting(st.free, n) == {} then Null
    else var a: nat := Least(Fitting(st.free, n)); Ptr(a + st.free[a] - n)
  }

  /** MemCtl::free of a pointer in used_chunk: join with the chunk before, then with the one after. */
  ghost function Freed(st: Chunks, p: nat): Chunks
    requires p in st.used
  {
    var n, below, above := st.used[p], UpTo(st.free, p), Above(st.free, p);
    var joinLeft := below != {} && Greatest(below) + st.free[Greatest(below)] == p;
    var start := if joinLeft then Greatest(below) else p;
    var size := if joinLeft then n + st.free[Greatest(below)] else n;
    var joinRight := above != {} && start + size == Least(above);
    Chunks(if joinRight then (st.free - {Least(above)})[start := size + st.free[Least(above)]]
           else st.free[start := size],
           st.used - {p})
  }

  /** Where line 301 steps back from begin(). */
  predicate UndefinedPrev(st: Chunks, p: nat) {
    st.free != map[] && forall a :: a in st.free ==> a > p
  }

  // ----- the invariant -----

  predicate Covers(m: map<nat, nat>, a: nat, x: nat) {
    a in m && a <= x < a + m[a]
  }

  ghost predicate Covered(m: map<nat, nat>, x: nat) {
    exists a :: Covers(m, a, x)
  }

  ghost predicate Aligned(m: map<nat, nat>) {
    forall a :: a in m ==> a % 64 == 0 && m[a] % 64 == 0
  }

  // Non-empty, inside the pool and pairwise disjoint.
  ghost predicate Placed(p: Pool, m: map<nat, nat>) {
    && (forall a :: a in m ==> m[a] > 0)
    && (forall a :: a in m ==> p.base <= a && a + m[a] <= p.base + p.size)
    && (forall a, b :: a in m && b in m && a < b ==> a + m[a] <= b)
  }

  ghost predicate Apart(f: map<nat, nat>, u: map<nat, nat>) {
    forall a, b :: a in f && b in u ==> a + f[a] <= b || b + u[b] <= a
  }

  ghost predicate CoversPool(p: Pool, st: Chunks) {
    forall x :: p.base <= x < p.base + p.size ==> Covered(st.free, x) || Covered(st.used, x)
  }

  ghost predicate NoTouch(f: map<nat, nat>) {
    forall a, b :: a in f && b in f ==> a + f[a] != b
  }

  /** Free and used chunks are non-empty, aligned, pairwise disjoint and inside the pool; together
      they cover it byte for byte; and no two free chunks touch. */
  ghost predicate Inv(p: Pool, st: Chunks) {
    && Placed(p, st.free) && Placed(p, st.used) && Apart(st.free, st.used)
    && CoversPool(p, st)
    && NoTouch(st.free)
    && Aligned(st.free) && Aligned(st.used)
  }

  lemma InitialInv(p: Pool)
    requires ValidPool(p)
    ensures Inv(p, Initial(p))
  {
    forall x | p.base <= x < p.base + p.size ensures Covered(Initial(p).free, x) {
      assert Covers(Initial(p).free, p.base, x);
    }
  }

  lemma Multiples(a: nat, b: nat)
    requires a % 64 == 0 && b % 64 == 0
    ensures (a + b) % 64 == 0 && (a >= b ==> (a - b) % 64 == 0)
  {
    var x, y := a / 64, b / 64;
    assert a + b == 64 * (x + y) && a - b == 64 * (x - y);
  }

  // ----- alloc keeps it -----

  lemma CarvedCovers(p: Pool, st: Chunks, a: nat, n: nat)
    requires CoversPool(p, st) && Apart(st.free, st.used) && a in st.free && st.free[a] >= n > 0
    ensures CoversPool(p, Carved(st, a, n))
  {
    var r, q: nat := Carved(st, a, n), a + st.free[a] - n;
    forall x: nat | p.base <= x < p.base + p.size ensures Covered(r.free, x) || Covered(r.used, x) {
      if Covered(st.free, x) {
        var b: nat :| Covers(st.free, b, x);
        if b != a || x < q {
          assert Covers(r.free, b, x);
        } else {
          assert Covers(r.used, q, x);
        }
      } else {
        var b: nat :| Covers(st.used, b, x);
        assert Covers(r.used, b, x);
      }
    }
  }

  lemma CarvedShrinks(st: Chunks, a: nat, n: nat)
    requires a in st.free && st.free[a] >= n
    ensures var f := Carved(st, a, n).free;
      && (a in f <==> st.free[a] > n) && (a in f ==> f[a] == st.free[a] - n)
      && forall b :: b != a ==> (b in f <==> b in st.free) && (b in f ==> f[b] == st.free[b])
  {
  }

  lemma CarvedRecord(st: Chunks, a: nat, n: nat)
    requires a in st.free && st.free[a] >= n
    ensures Carved(st, a, n).used == st.used[a + st.free[a] - n := n]
  {
  }

  lemma CarvedFree(p: Pool, st: Chunks, a: nat, n: nat)
    requires Placed(p, st.free) && NoTouch(st.free) && a in st.free && st.free[a] >= n > 0
    ensures Placed(p, Carved(st, a, n).free) && NoTouch(Carved(st, a, n).free)
  {
    CarvedShrinks(st, a, n);
    hide Carved;
  }

  lemma CarvedUsed(p: Pool, st: Chunks, a: nat, n: nat)
    requires Placed(p, st.free) && Placed(p, st.used) && Apart(st.free, st.used)
    requires a in st.free && st.free[a] >= n > 0
    ensures Placed(p, Carved(st, a, n).used)
  {
    CarvedRecord(st, a, n);
    hide Carved;
  }

  lemma CarvedAligned(st: Chunks, a: nat, n: nat)
    requires Aligned(st.free) && Aligned(st.used) && a in st.free && st.free[a] >= n && n % 64 == 0
    ensures Aligned(Carved(st, a, n).free) && Aligned(Carved(st, a, n).used)
  {
    Multiples(st.free[a], n);
    Multiples(a, st.free[a] - n);
  }

  lemma CarvedApart(p: Pool, st: Chunks, a: nat, n: nat)
    requires Placed(p, st.free) && Apart(st.free, st.used) && a in st.free && st.free[a] >= n > 0
    ensures Apart(Carved(st, a, n).free, Carved(st, a, n).used)
  {
  }

  lemma CarvedInv(p: Pool, st: Chunks, a: nat, n: nat)
    requires Inv(p, st) && a in st.free && st.free[a] >= n > 0 && n % 64 == 0
    ensures Inv(p, Carved(st, a, n))
  {
    hide CoversPool, Placed, Apart, NoTouch, Carved, Aligned;
    CarvedCovers(p, st, a, n);
    CarvedFree(p, st, a, n);
    CarvedUsed(p, st, a, n);
    CarvedApart(p, st, a, n);
    CarvedAligned(st, a, n);
  }

  lemma AllocKeepsInv(p: Pool, st: Chunks, size: nat)
    requires Inv(p, st) && RoundUp(size) != 0
    ensures Inv(p, AllocState(st, size))
  {
    hide Inv, Carved, RoundUp;
    var n := RoundUp(size);
    if Fitting(st.free, n) != {} {
      CarvedInv(p, st, Least(Fitting(st.free, n)), n);
    }
  }

  lemma ZeroCarve(st: Chunks, size: nat)
    requires RoundUp(size) == 0 && st.free != map[] && forall a :: a in st.free ==> st.free[a] > 0
    ensures Fitting(st.free, 0) == st.free.Keys && st.free.Keys != {}
    ensures var a := Least(st.free.Keys);
      && AllocState(st, size) == Chunks(st.free, st.used[a + st.free[a] := 0])
      && AllocResult(st, size) == Ptr(a + st.free[a])
  {
    hide RoundUp;
    assert Fitting(st.free, 0) == st.free.Keys;
    var b :| b in st.free;
    assert b in st.free.Keys;
    var a := Least(st.free.Keys);
    assert st.free[a := st.free[a]] == st.free;
  }

  /** A request that rounds to zero breaks the invariant exactly when something is free: it is then
      recorded as an empty chunk just past the first free one. */
  lemma AllocInvExact(p: Pool, st: Chunks, size: nat)
    requires Inv(p, st)
    ensures Inv(p, AllocState(st, size)) <==> RoundUp(size) != 0 || st.free == map[]
  {
    hide RoundUp, CoversPool;
    if RoundUp(size) != 0 {
      AllocKeepsInv(p, st, size);
    } else if st.free == map[] {
      assert Fitting(st.free, 0) == {};
    } else {
      ZeroCarve(st, size);
      var a := Least(st.free.Keys);
      assert AllocState(st, size).used[a + st.free[a]] == 0;
    }
  }

  // ----- free keeps it -----

  /** Freeing replaces the freed chunk and its free neighbours by the one chunk [s, e) they span. */
  ghost predicate FreedShape(st: Chunks, q: nat, r: Chunks, s: nat, e: nat)
    requires q in st.used
  {
    var n := st.used[q];
    && s <= q && q + n <= e
    && (s == q || (s in st.free && s + st.free[s] == q))
    && (e == q + n || (q + n in st.free && q + n + st.free[q + n] == e))
    && (forall a :: a in st.free ==> a + st.free[a] != s && a != e)
    && r == Chunks((st.free - {q + n})[s := e - s], st.used - {q})
  }

  // The free chunk that ends at q, if any, is the greatest one up to q; likewise above.
  lemma NeighbourLeft(p: Pool, st: Chunks, q: nat, a: nat)
    requires Inv(p, st) && q in st.used && a in st.free && a + st.free[a] == q
    ensures UpTo(st.free, q) != {} && a == Greatest(UpTo(st.free, q))
  {
    hide CoversPool;
    assert a in UpTo(st.free, q);
    var g := Greatest(UpTo(st.free, q));
    assert g in st.free && a <= g <= q;
  }

  lemma NeighbourRight(p: Pool, st: Chunks, q: nat)
    requires Inv(p, st) && q in st.used
    ensures var above, e := Above(st.free, q), q + st.used[q];
      e in st.free ==> above != {} && e == Least(above)
  {
    hide CoversPool;
    var e := q + st.used[q];
    if e in st.free {
      assert e in Above(st.free, q);
      var l := Least(Above(st.free, q));
      assert l in st.free && q < l <= e;
    }
  }

  lemma Ends(p: Pool, st: Chunks, q: nat, s: nat, e: nat)
    requires Inv(p, st) && q in st.used
    requires (s == q && forall a :: a in st.free ==> a + st.free[a] != q) || (s in st.free && s + st.free[s] == q)
    requires var n := st.used[q]; e == if q + n in st.free then q + n + st.free[q + n] else q + n
    ensures forall a :: a in st.free ==> a + st.free[a] != s && a != e
  {
    hide CoversPool;
  }

  lemma FreedIs(st: Chunks, q: nat, s: nat, e: nat)
    requires q in st.used
    requires (s == q && forall a :: a in st.free ==> a + st.free[a] != q)
          || (s in st.free && s + st.free[s] == q && UpTo(st.free, q) != {} && s == Greatest(UpTo(st.free, q)))
    requires var n := st.used[q]; e == if q + n in st.free then q + n + st.free[q + n] else q + n
    requires var n := st.used[q]; q + n in st.free ==> Above(st.free, q) != {} && q + n == Least(Above(st.free, q))
    ensures s <= e && Freed(st, q) == Chunks((st.free - {q + st.used[q]})[s := e - s], st.used - {q})
  {
    var n := st.used[q];
    if UpTo(st.free, q) != {} {
      assert Greatest(UpTo(st.free, q)) in st.free;
    }
    if Above(st.free, q) != {} {
      assert Least(Above(st.free, q)) in st.free;
    }
    if q + n !in st.free {
      assert st.free - {q + n} == st.free;
    }
  }

  lemma FreedHasShape(p: Pool, st: Chunks, q: nat) returns (s: nat, e: nat)
    requires Inv(p, st) && q in st.used
    ensures FreedShape(st, q, Freed(st, q), s, e)
  {
    hide Inv, UpTo, Above, Freed;
    var n := st.used[q];
    NeighbourRight(p, st, q);
    e := if q + n in st.free then q + n + st.free[q + n] else q + n;
    s := q;
    if exists a :: a in st.free && a + st.free[a] == q {
      s :| s in st.free && s + st.free[s] == q;
      NeighbourLeft(p, st, q, s);
    }
    Ends(p, st, q, s, e);
    FreedIs(st, q, s, e);
  }

  lemma KeptOutside(p: Pool, st: Chunks, q: nat, r: Chunks, s: nat, e: nat)
    requires Placed(p, st.free) && Placed(p, st.used) && Apart(st.free, st.used)
    requires q in st.used && FreedShape(st, q, r, s, e)
    ensures s in r.free && r.free[s] == e - s
    ensures forall b :: b in st.free && (b < s || b + st.free[b] > e) ==> b in r.free && r.free[b] == st.free[b]
    ensures forall b :: b in st.used && b != q ==> b in r.used && r.used[b] == st.used[b]
    ensures s <= q && q + st.used[q] <= e
  {
    forall b | b in st.free && (b < s || b + st.free[b] > e) ensures b in r.free && r.free[b] == st.free[b] {
      assert b != q + st.used[q];
      assert b + st.free[b] <= q || q + st.used[q] <= b;
    }
  }

  lemma FreedCovers(p: Pool, st: Chunks, q: nat, r: Chunks, s: nat, e: nat)
    requires CoversPool(p, st) && Placed(p, st.used) && Placed(p, st.free) && Apart(st.free, st.used)
    requires q in st.used && FreedShape(st, q, r, s, e)
    ensures CoversPool(p, r)
  {
    KeptOutside(p, st, q, r, s, e);
    hide FreedShape, Placed, Apart;
    forall x: nat | p.base <= x < p.base + p.size ensures Covered(r.free, x) || Covered(r.used, x) {
      if s <= x < e {
        assert Covers(r.free, s, x);
      } else if Covered(st.free, x) {
        var b: nat :| Covers(st.free, b, x);
        assert Covers(r.free, b, x);
      } else {
        var b: nat :| Covers(st.used, b, x);
        assert Covers(r.used, b, x);
      }
    }
  }

  lemma FreedAligned(st: Chunks, q: nat, r: Chunks, s: nat, e: nat)
    requires Aligned(st.free) && Aligned(st.used) && q in st.used && FreedShape(st, q, r, s, e)
    ensures Aligned(r.free) && Aligned(r.used)
  {
    var n := st.used[q];
    Multiples(q, n);
    if e != q + n { Multiples(q + n, st.free[q + n]); }
    Multiples(e, s);
  }

  lemma FreeOutside(p: Pool, st: Chunks, q: nat, r: Chunks, s: nat, e: nat)
    requires Placed(p, st.free) && Placed(p, st.used) && Apart(st.free, st.used)
    requires q in st.used && FreedShape(st, q, r, s, e)
    ensures forall a :: a in r.free && a != s ==> a in st.free && r.free[a] == st.free[a]
                                                  && (a + st.free[a] < s || e < a)
  {
    var n := st.used[q];
    forall a | a in r.free && a != s
      ensures a in st.free && r.free[a] == st.free[a] && (a + st.free[a] < s || e < a)
    {
      assert a in st.free && a != q + n;
      assert a + st.free[a] <= q || q + n <= a;
    }
  }

  lemma FreedBounds(p: Pool, st: Chunks, q: nat, r: Chunks, s: nat, e: nat)
    requires Placed(p, st.free) && Placed(p, st.used) && q in st.used && FreedShape(st, q, r, s, e)
    ensures p.base <= s < e <= p.base + p.size && s in r.free && r.free[s] == e - s
    ensures e !in r.free
  {
  }

  lemma FreedNoTouch(p: Pool, st: Chunks, q: nat, r: Chunks, s: nat, e: nat)
    requires Placed(p, st.free) && Placed(p, st.used) && Apart(st.free, st.used) && NoTouch(st.free)
    requires q in st.used && FreedShape(st, q, r, s, e)
    ensures NoTouch(r.free)
  {
    hide FreedShape;
    FreeOutside(p, st, q, r, s, e);
    FreedBounds(p, st, q, r, s, e);
    hide Placed, Apart;
  }

  lemma FreedFree(p: Pool, st: Chunks, q: nat, r: Chunks, s: nat, e: nat)
    requires Placed(p, st.free) && Placed(p, st.used) && Apart(st.free, st.used) && NoTouch(st.free)
    requires q in st.used && FreedShape(st, q, r, s, e)
    ensures Placed(p, r.free) && NoTouch(r.free)
  {
    hide FreedShape;
    FreeOutside(p, st, q, r, s, e);
    FreedBounds(p, st, q, r, s, e);
    assert Placed(p, r.free);
    FreedNoTouch(p, st, q, r, s, e);
  }

  lemma UsedOutside(p: Pool, st: Chunks, q: nat, r: Chunks, s: nat, e: nat)
    requires Placed(p, st.free) && Placed(p, st.used) && Apart(st.free, st.used)
    requires q in st.used && FreedShape(st, q, r, s, e)
    ensures forall b :: b in r.used ==> b in st.used && r.used[b] == st.used[b] && (b + st.used[b] <= s || e <= b)
  {
  }

  lemma FreedApart(p: Pool, st: Chunks, q: nat, r: Chunks, s: nat, e: nat)
    requires Placed(p, st.free) && Placed(p, st.used) && Apart(st.free, st.used)
    requires q in st.used && FreedShape(st, q, r, s, e)
    ensures Placed(p, r.used) && Apart(r.free, r.used)
  {
    hide FreedShape;
    UsedOutside(p, st, q, r, s, e);
    FreeOutside(p, st, q, r, s, e);
    FreedBounds(p, st, q, r, s, e);
  }

  lemma FreedInv(p: Pool, st: Chunks, q: nat, r: Chunks, s: nat, e: nat)
    requires Inv(p, st) && q in st.used && FreedShape(st, q, r, s, e)
    ensures Inv(p, r)
  {
    hide CoversPool, Placed, Apart, NoTouch, Aligned, FreedShape;
    FreedAligned(st, q, r, s, e);
    FreedCovers(p, st, q, r, s, e);
    FreedFree(p, st, q, r, s, e);
    FreedApart(p, st, q, r, s, e);
  }

  lemma FreeKeepsInv(p: Pool, st: Chunks, q: nat)
    requires Inv(p, st) && q in st.used
    ensures Inv(p, Freed(st, q))
  {
    hide Inv, Freed, FreedShape;
    var s, e := FreedHasShape(p, st, q);
    FreedInv(p, st, q, Freed(st, q), s, e);
  }

  // ----- every run -----

  datatype Op = Alloc(size: nat) | Free(ptr: nat)

  // free() of a pointer that is not in used_chunk ends the process.
  datatype Run = Running(st: Chunks) | Exited

  ghost function Step(st: Chunks, op: Op): Run {
    match op
    case Alloc(size) => Running(AllocState(st, size))
    case Free(ptr) => if ptr in st.used then Running(Freed(st, ptr)) else Exited
  }

  ghost function RunAll(st: Chunks, ops: seq<Op>): Run
    decreases |ops|
  {
    if ops == [] then Running(st)
    else match Step(st, ops[0])
      case Exited => Exited
      case Running(next) => RunAll(next, ops[1..])
  }

  predicate GoodRequest(op: Op) {
    op.Alloc? ==> 0 < op.size <= TWO64 - 64
  }

  lemma {:induction false} RunKeepsInv(p: Pool, st: Chunks, ops: seq<Op>)
    requires Inv(p, st) && forall i :: 0 <= i < |ops| ==> GoodRequest(ops[i])
    ensures RunAll(st, ops).Running? ==> Inv(p, RunAll(st, ops).st)
    decreases |ops|
  {
    hide Inv, AllocState, Freed, RoundUp;
    if ops != [] {
      var op := ops[0];
      assert GoodRequest(op);
      match op {
        case Alloc(size) =>
          RoundUpMeaning(size);
          AllocKeepsInv(p, st, size);
        case Free(ptr) =>
          if ptr in st.used { FreeKeepsInv(p, st, ptr); }
      }
      if Step(st, op).Running? {
        RunKeepsInv(p, Step(st, op).st, ops[1..]);
      }
    }
  }

  /** The invariant holds after any sequence of requests, from the fresh pool on. */
  lemma EveryRunKeepsInv(p: Pool, ops: seq<Op>)
    requires ValidPool(p) && forall i :: 0 <= i < |ops| ==> GoodRequest(ops[i])
    ensures RunAll(Initial(p), ops).Running? ==> Inv(p, RunAll(Initial(p), ops).st)
  {
    InitialInv(p);
    RunKeepsInv(p, Initial(p), ops);
  }

  // ----- recovery -----

  /** With nothing allocated, the free map is the one initial chunk. */
  lemma NothingUsed(p: Pool, st: Chunks)
    requires ValidPool(p) && Inv(p, st) && st.used == map[]
    ensures st == Initial(p)
  {
    var end := p.base + p.size;
    assert Covered(st.free, p.base);
    var a: nat :| Covers(st.free, a, p.base);
    assert a == p.base;
    var x: nat := if a + st.free[a] < end then a + st.free[a] else p.base;
    assert Covered(st.free, x);
    var c: nat :| Covers(st.free, c, x);
    assert a + st.free[a] == end;
    assert forall b :: b in st.free ==> b == a;
    assert st.free == map[p.base := p.size];
  }

  function Frees(order: seq<nat>): seq<Op> {
    seq(|order|, i requires 0 <= i < |order| => Free(order[i]))
  }

  predicate NoRepeats(order: seq<nat>) {
    forall i, j :: 0 <= i < j < |order| ==> order[i] != order[j]
  }

  lemma FreedUsed(st: Chunks, q: nat)
    requires q in st.used
    ensures Freed(st, q).used == st.used - {q}
  {
  }

  /** From any state with the invariant, freeing all live allocations in any order gives back the
      single initial chunk. */
  lemma {:induction false} RecoverAnyOrder(p: Pool, st: Chunks, order: seq<nat>)
    requires ValidPool(p) && Inv(p, st)
    requires NoRepeats(order) && forall q :: q in order <==> q in st.used
    ensures RunAll(st, Frees(order)) == Running(Initial(p))
    decreases |order|
  {
    hide Inv, Freed;
    if order == [] {
      assert st.used == map[];
      NothingUsed(p, st);
    } else {
      var q, rest := order[0], order[1..];
      assert q in order;
      FreeKeepsInv(p, st, q);
      FreedUsed(st, q);
      forall x ensures x in rest <==> x in Freed(st, q).used {
        assert x in order <==> x == q || x in rest;
      }
      RecoverAnyOrder(p, Freed(st, q), rest);
      assert Frees(order)[1..] == Frees(rest);
    }
  }

  // ----- failure is exact -----

  lemma FreeIsUnused(p: Pool, st: Chunks, a: nat, x: nat)
    requires Inv(p, st) && Covers(st.free, a, x)
    ensures !Covered(st.used, x) && p.base <= x < p.base + p.size
  {
    hide CoversPool, Aligned, NoTouch;
  }

  ghost predicate FreeRun(st: Chunks, x: nat, n: nat) {
    forall y: nat :: x <= y < x + n ==> Covered(st.free, y)
  }

  /** Because free chunks never touch, a run of free bytes lies inside one chunk. */
  lemma {:induction false} RunInOneChunk(p: Pool, st: Chunks, x: nat, n: nat) returns (a: nat)
    requires Inv(p, st) && n > 0 && FreeRun(st, x, n)
    ensures a in st.free && a <= x && x + n <= a + st.free[a]
  {
    hide CoversPool;
    if n == 1 {
      assert Covered(st.free, x);
      a :| Covers(st.free, a, x);
    } else {
      a := RunInOneChunk(p, st, x, n - 1);
      var y := x + n - 1;
      assert Covered(st.free, y);
      var b: nat :| Covers(st.free, b, y);
      if b != a {
        assert false;
      }
    }
  }

  lemma RunFits(p: Pool, st: Chunks, x: nat, n: nat)
    requires Inv(p, st) && n > 0 && FreeRun(st, x, n)
    ensures Fitting(st.free, n) != {}
  {
    var a: nat := RunInOneChunk(p, st, x, n);
    assert a in Fitting(st.free, n);
  }

  /** alloc returns null exactly when no contiguous run of free bytes of the rounded size exists
      anywhere in the pool. */
  lemma NullExactly(p: Pool, st: Chunks, size: nat)
    requires Inv(p, st) && RoundUp(size) != 0
    ensures AllocResult(st, size) == Null <==> !exists x :: FreeRun(st, x, RoundUp(size))
  {
    var n := RoundUp(size);
    hide RoundUp, Inv;
    if AllocResult(st, size) != Null {
      var a: nat := Least(Fitting(st.free, n));
      assert a in st.free && st.free[a] >= n;
      forall y: nat | a <= y < a + n ensures Covered(st.free, y) {
        assert Covers(st.free, a, y);
      }
      assert FreeRun(st, a, n);
    } else if exists x :: FreeRun(st, x, n) {
      var x: nat :| FreeRun(st, x, n);
      RunFits(p, st, x, n);
    }
  }

  /** What alloc hands out is a fresh chunk of the rounded size, at the high end of the lowest free
      chunk that is large enough; every other allocation stays as it was. */
  lemma AllocGivesFresh(p: Pool, st: Chunks, size: nat)
    requires Inv(p, st) && RoundUp(size) != 0 && AllocResult(st, size).Ptr?
    ensures var q, n := AllocResult(st, size).addr, RoundUp(size);
      && q !in st.used && AllocState(st, size).used == st.used[q := n]
      && FreeRun(st, q, n) && q % 64 == 0 && p.base <= q && q + n <= p.base + p.size
      && exists a :: a in st.free && q + n == a + st.free[a] && (forall b :: b in st.free && b < a ==> st.free[b] < n)
  {
    var n := RoundUp(size);
    hide RoundUp, CoversPool, NoTouch;
    var a: nat := Least(Fitting(st.free, n));
    assert a in st.free && st.free[a] >= n;
    forall b | b in st.free && b < a ensures st.free[b] < n {
      assert b !in Fitting(st.free, n);
    }
    Multiples(st.free[a], n);
    var q := a + st.free[a] - n;
    Multiples(a, st.free[a] - n);
    forall y: nat | q <= y < q + n ensures Covered(st.free, y) {
      assert Covers(st.free, a, y);
    }
  }

  /** What alloc does to both maps, for every state and every request: without a chunk large enough it
      returns null and touches neither; otherwise the lowest such chunk loses its high end, or goes, and
      the piece is recorded. */
  lemma AllocExactly(st: Chunks, size: nat)
    ensures var n, r, t := RoundUp(size), AllocResult(st, size), AllocState(st, size);
      && (r == Null <==> forall b :: b in st.free ==> st.free[b] < n)
      && (r == Null ==> t == st)
      && (r.Ptr? ==> exists a ::
            && a in st.free && st.free[a] >= n && r.addr + n == a + st.free[a]
            && (forall b :: b in st.free && b < a ==> st.free[b] < n)
            && t.used == st.used[r.addr := n]
            && (a in t.free <==> st.free[a] > n) && (a in t.free ==> t.free[a] == st.free[a] - n)
            && forall b :: b != a ==> (b in t.free <==> b in st.free) && (b in t.free ==> t.free[b] == st.free[b]))
  {
    var n := RoundUp(size);
    hide RoundUp;
    if AllocResult(st, size) == Null {
      forall b | b in st.free ensures st.free[b] < n {
        assert b !in Fitting(st.free, n);
      }
    } else {
      var a: nat := Least(Fitting(st.free, n));
      assert a in st.free && st.free[a] >= n;
      forall b | b in st.free && b < a ensures st.free[b] < n {
        assert b !in Fitting(st.free, n);
      }
    }
  }

  // ----- the free map is determined -----

  lemma UnusedIsFree(p: Pool, s: Chunks, t: Chunks, a: nat)
    requires Inv(p, s) && Inv(p, t) && s.used == t.used && a in s.free
    ensures FreeRun(t, a, s.free[a])
  {
    hide Aligned, NoTouch;
    forall y: nat | a <= y < a + s.free[a] ensures Covered(t.free, y) {
      FreeIsUnused(p, s, a, y);
    }
  }

  lemma FreeChunkShared(p: Pool, s: Chunks, t: Chunks, a: nat)
    requires Inv(p, s) && Inv(p, t) && s.used == t.used && a in s.free
    ensures a in t.free && t.free[a] == s.free[a]
  {
    hide CoversPool, Aligned, NoTouch, Apart;
    hide FreeRun;
    UnusedIsFree(p, s, t, a);
    var b: nat := RunInOneChunk(p, t, a, s.free[a]);
    UnusedIsFree(p, t, s, b);
    var c: nat := RunInOneChunk(p, s, b, t.free[b]);
    assert c == a;
  }

  /** The invariant leaves one free map for the live allocations: whatever the requests were and their
      order, states with the same live allocations are equal. */
  lemma UsedDeterminesFree(p: Pool, s: Chunks, t: Chunks)
    requires Inv(p, s) && Inv(p, t) && s.used == t.used
    ensures s == t
  {
    hide Inv;
    forall a | a in s.free ensures a in t.free && t.free[a] == s.free[a] {
      FreeChunkShared(p, s, t, a);
    }
    forall a | a in t.free ensures a in s.free {
      FreeChunkShared(p, t, s, a);
    }
    assert s.free == t.free;
  }

  // ----- alloc then free -----

  lemma AllocCarves(st: Chunks, size: nat) returns (a: nat)
    requires AllocResult(st, size).Ptr?
    ensures a in st.free && st.free[a] >= RoundUp(size)
    ensures AllocState(st, size) == Carved(st, a, RoundUp(size))
    ensures AllocResult(st, size) == Ptr(a + st.free[a] - RoundUp(size))
  {
    hide RoundUp, Carved, Least;
    a := Least(Fitting(st.free, RoundUp(size)));
  }

  lemma UncarvedMaps(st: Chunks, a: nat, n: nat)
    requires a in st.free && st.free[a] >= n
    requires var c, q := Carved(st, a, n), a + st.free[a] - n; q + n !in c.free && q !in st.used
    ensures var c, q := Carved(st, a, n), a + st.free[a] - n;
      Chunks((c.free - {q + n})[a := st.free[a]], c.used - {q}) == st
  {
    var c, q: nat := Carved(st, a, n), a + st.free[a] - n;
    assert c.free - {q + n} == c.free;
    assert c.free[a := st.free[a]] == st.free;
    assert c.used - {q} == st.used;
  }

  lemma CarvedNeighbours(p: Pool, st: Chunks, a: nat, n: nat)
    requires Inv(p, st) && a in st.free && st.free[a] >= n > 0
    ensures var c, q := Carved(st, a, n), a + st.free[a] - n;
      && q in c.used && c.used[q] == n && q !in st.used && q + n !in c.free
      && if st.free[a] > n then a in c.free && a + c.free[a] == q
         else forall b :: b in c.free ==> b + c.free[b] != q
  {
    hide CoversPool, Aligned;
    assert a + st.free[a] !in st.free;
  }

  lemma UncarveRestores(p: Pool, st: Chunks, a: nat, n: nat)
    requires Inv(p, st) && a in st.free && st.free[a] >= n > 0 && Inv(p, Carved(st, a, n))
    ensures Freed(Carved(st, a, n), a + st.free[a] - n) == st
  {
    hide Inv, Freed, Carved, Greatest, UpTo, Above;
    var c, q: nat := Carved(st, a, n), a + st.free[a] - n;
    CarvedNeighbours(p, st, a, n);
    if st.free[a] > n {
      NeighbourLeft(p, c, q, a);
    }
    FreedIs(c, q, a, q + n);
    UncarvedMaps(st, a, n);
  }

  lemma CarvedRecords(st: Chunks, a: nat, n: nat)
    requires a in st.free && st.free[a] >= n
    ensures a + st.free[a] - n in Carved(st, a, n).used
  {
  }

  /** Freeing what was just allocated restores both maps exactly, in the carving branch and in the
      exact-fit branch. */
  lemma AllocThenFree(p: Pool, st: Chunks, size: nat)
    requires Inv(p, st) && RoundUp(size) != 0 && AllocResult(st, size).Ptr?
    ensures var q := AllocResult(st, size).addr;
      q in AllocState(st, size).used && Freed(AllocState(st, size), q) == st
  {
    hide RoundUp, Inv, Freed, Carved, AllocState, AllocResult;
    AllocKeepsInv(p, st, size);
    var a := AllocCarves(st, size);
    CarvedRecords(st, a, RoundUp(size));
    UncarveRestores(p, st, a, RoundUp(size));
  }

  // ----- where the code goes wrong -----

  lemma OnlyFit(a: nat, sz: nat, n: nat)
    requires sz >= n
    ensures Fitting(map[a := sz], n) == {a} && Least({a}) == a
  {
    assert IsLeast({a}, Least({a}));
  }

  /** A request of zero bytes right after an allocation returns that allocation's own address and
      overwrites its record with an empty chunk: its bytes are no longer in either map. */
  lemma ZeroRequestForgets(p: Pool)
    requires ValidPool(p) && p.size > 64
    ensures var st := AllocState(Initial(p), 64);
      && AllocResult(Initial(p), 64) == AllocResult(st, 0) == Ptr(p.base + p.size - 64)
      && st.used == map[p.base + p.size - 64 := 64]
      && AllocState(st, 0) == Chunks(st.free, map[p.base + p.size - 64 := 0])
      && !Covered(AllocState(st, 0).free, p.base + p.size - 64)
      && !Covered(AllocState(st, 0).used, p.base + p.size - 64)
  {
    var st := AllocState(Initial(p), 64);
    OnlyFit(p.base, p.size, 64);
    assert st == Chunks(map[p.base := p.size - 64], map[p.base + p.size - 64 := 64]);
    OnlyFit(p.base, p.size - 64, 0);
    assert Fitting(st.free, 0) == {p.base};
  }

  /** In general: a zero request while something is free returns the end of the first free chunk, and
      freeing that pointer drops its record. So the allocation that lived there, if one did, is neither
      free nor live any more. */
  lemma ZeroRequestLeaks(p: Pool, st: Chunks, size: nat)
    requires Inv(p, st) && RoundUp(size) == 0 && st.free != map[]
    ensures AllocResult(st, size).Ptr?
    ensures var t, q := AllocState(st, size), AllocResult(st, size).addr;
      && t.free == st.free && t.used == st.used[q := 0]
      && Freed(t, q) == Chunks(st.free, st.used - {q})
  {
    hide RoundUp, CoversPool, Aligned;
    ZeroCarve(st, size);
    var t, q := AllocState(st, size), AllocResult(st, size).addr;
    var a: nat := Least(st.free.Keys);
    assert q == a + st.free[a] && t.free == st.free;
    assert a in UpTo(t.free, q);
    var g: nat := Greatest(UpTo(t.free, q));
    assert g in st.free && a <= g <= q;
    assert g == a;
    assert st.free[a := st.free[a]] == st.free;
    assert st.used[q := 0] - {q} == st.used - {q};
  }

  /** Some byte of the pool belongs to no live allocation. */
  ghost predicate Spare(p: Pool, used: map<nat, nat>) {
    exists x :: p.base <= x < p.base + p.size && !Covered(used, x)
  }

  lemma SpareIsFree(p: Pool, st: Chunks)
    requires Inv(p, st)
    ensures Spare(p, st.used) <==> st.free != map[]
  {
    hide Aligned, NoTouch;
    if Spare(p, st.used) {
      var x :| p.base <= x < p.base + p.size && !Covered(st.used, x);
      var a: nat :| Covers(st.free, a, x);
    } else if st.free != map[] {
      var a: nat :| a in st.free;
      FreeIsUnused(p, st, a, a);
    }
  }

  /** Exactly when `free` steps back from begin(), in terms of the live allocations alone: the pool is
      not full, and every byte below the freed pointer belongs to a live allocation. */
  lemma UndefinedPrevExact(p: Pool, st: Chunks, q: nat)
    requires Inv(p, st) && q in st.used
    ensures UndefinedPrev(st, q)
       <==> Spare(p, st.used) && forall x :: p.base <= x < q ==> Covered(st.used, x)
  {
    SpareIsFree(p, st);
    if UndefinedPrev(st, q) {
      forall x: nat | p.base <= x < q ensures Covered(st.used, x) {
        assert !Covered(st.free, x);
      }
    } else if st.free != map[] {
      var a: nat :| a in st.free && a <= q;
      FreeIsUnused(p, st, a, a);
      assert a != q;
    }
  }

  lemma RunThree(s0: Chunks, a: Op, s1: Chunks, b: Op, s2: Chunks, c: Op, s3: Chunks)
    requires Step(s0, a) == Running(s1) && Step(s1, b) == Running(s2) && Step(s2, c) == Running(s3)
    ensures RunAll(s0, [a, b, c]) == Running(s3)
  {
    hide Step;
    assert [a, b, c][1..] == [b, c] && [b, c][1..] == [c] && [c][1..] == [];
    assert RunAll(s2, [c]) == RunAll(s3, []);
  }

  /** In every pool of more than one line there is a run of valid requests after which the next free
      steps back from begin(): two allocations fill the pool, and the upper one is freed first. */
  lemma UndefinedPrevIsReached(p: Pool)
    requires ValidPool(p) && 64 < p.size <= TWO64 - 64
    ensures var r := RunAll(Initial(p), [Alloc(64), Alloc(p.size - 64), Free(p.base + p.size - 64)]);
      && r.Running? && p.base in r.st.used && UndefinedPrev(r.st, p.base)
  {
    var top: nat, most: nat := p.base + p.size - 64, p.size - 64;
    Multiples(p.size, 64);
    var st0 := Initial(p);
    var st1 := Chunks(map[p.base := most], map[top := 64]);
    var st2 := Chunks(map[], map[top := 64, p.base := most]);
    var st3 := Chunks(map[top := 64], map[p.base := most]);
    OnlyFit(p.base, p.size, 64);
    assert AllocState(st0, 64) == st1;
    OnlyFit(p.base, most, most);
    assert RoundUp(most) == most;
    assert AllocState(st1, most) == st2;
    assert UpTo(st2.free, top) == {} && Above(st2.free, top) == {};
    assert Freed(st2, top) == st3;
    RunThree(st0, Alloc(64), st1, Alloc(most), st2, Free(top), st3);
  }

  // ----- MemCtl -----

  class MemCtl {
    var freeChunk: map<nat, nat>
    var usedChunk: map<nat, nat>

    constructor (p: Pool)
      requires ValidPool(p)
      ensures State() == Initial(p)
    {
      freeChunk, usedChunk := map[p.base := p.size], map[];
    }

    ghost function State(): Chunks
      reads this
    {
      Chunks(freeChunk, usedChunk)
    }

    // The next key of an ordered map.
    static method First(keys: set<nat>) returns (a: nat)
      requires keys != {}
      ensures a == Least(keys)
    {
      a :| a in keys;
      var rest := keys - {a};
      while rest != {}
        invariant a in keys && rest <= keys && forall b :: b in keys && b !in rest ==> a <= b
        decreases rest
      {
        var b :| b in rest;
        rest := rest - {b};
        if b < a { a := b; }
      }
      assert IsLeast(keys, Least(keys));
    }

    /** findFreeChunk: visits the chunks in address order and takes the first that is large enough. */
    static method FindFreeChunk(freeChunk: map<nat, nat>, n: nat) returns (addr: nat, size: nat)
      ensures if Fitting(freeChunk, n) == {} then addr == size == 0
              else addr == Least(Fitting(freeChunk, n)) && size == freeChunk[addr]
    {
      var rest := freeChunk.Keys;
      while rest != {}
        invariant rest <= freeChunk.Keys
        invariant forall b :: b in freeChunk && b !in rest ==> freeChunk[b] < n
        decreases rest
      {
        var a := First(rest);
        if freeChunk[a] >= n {
          assert a in Fitting(freeChunk, n);
          assert forall b :: b in Fitting(freeChunk, n) ==> b in rest;
          assert IsLeast(Fitting(freeChunk, n), Least(Fitting(freeChunk, n)));
          return a, freeChunk[a];
        }
        rest := rest - {a};
      }
      assert Fitting(freeChunk, n) == {};
      return 0, 0;
    }

    /** MemCtl::alloc. No chunk starts at address zero, which stands for failure. */
    method Alloc(size: nat) returns (ptr: Allocated)
      requires 0 !in freeChunk
      modifies this
      ensures ptr == AllocResult(old(State()), size)
      ensures State() == AllocState(old(State()), size)
      ensures ptr == Null ==> State() == old(State())
    {
      hide RoundUp;
      var n := RoundUp(size);
      var addr, sz := FindFreeChunk(freeChunk, n);
      if addr == 0 {
        return Null;
      }
      if sz > n {
        freeChunk := freeChunk[addr := sz - n];
        usedChunk := usedChunk[addr + sz - n := n];
        return Ptr(addr + sz - n);
      } else {
        freeChunk := freeChunk - {addr};
        usedChunk := usedChunk[addr := n];
        return Ptr(addr);
      }
    }

    /** The free chunks on either side of upper_bound(ptr), if there are any. */
    method Neighbours(ptr: nat) returns (hasPrev: bool, prev: nat, hasNext: bool, next: nat)
      ensures hasPrev <==> UpTo(freeChunk, ptr) != {}
      ensures hasPrev ==> prev == Greatest(UpTo(freeChunk, ptr))
      ensures hasNext <==> Above(freeChunk, ptr) != {}
      ensures hasNext ==> next == Least(Above(freeChunk, ptr))
    {
      hasPrev, prev, hasNext, next := false, 0, false, 0;
      var rest := freeChunk.Keys;
      ghost var seen: set<nat> := {};
      while rest != {}
        invariant rest <= freeChunk.Keys && seen == freeChunk.Keys - rest
        invariant hasPrev <==> exists a :: a in seen && a <= ptr
        invariant hasNext <==> exists a :: a in seen && a > ptr
        invariant hasPrev ==> prev in seen && prev <= ptr && forall a :: a in seen && a <= ptr ==> a <= prev
        invariant hasNext ==> next in seen && next > ptr && forall a :: a in seen && a > ptr ==> next <= a
        decreases rest
      {
        var a := First(rest);
        rest, seen := rest - {a}, seen + {a};
        if a <= ptr {
          if !hasPrev || a > prev { prev := a; }
          hasPrev := true;
        } else {
          if !hasNext || a < next { next := a; }
          hasNext := true;
        }
      }
      assert seen == freeChunk.Keys;
      if hasPrev { assert prev in UpTo(freeChunk, ptr); }
      if hasNext { assert next in Above(freeChunk, ptr); }
    }

    /** MemCtl::free. `exited` stands for the exit(1) of an unknown pointer. */
    method Free(ptr: nat) returns (exited: bool)
      modifies this
      ensures exited <==> ptr !in old(usedChunk)
      ensures State() == if exited then old(State()) else Freed(old(State()), ptr)
    {
      if ptr !in usedChunk {
        return true;
      }
      var start, size := ptr, usedChunk[ptr];
      usedChunk := usedChunk - {ptr};
      var hasPrev, prev, hasNext, next := Neighbours(ptr);
      if hasPrev && prev + freeChunk[prev] == ptr {
        size := size + freeChunk[prev];
        start := prev;
      }
      if hasNext && start + size == next {
        size := size + freeChunk[next];
        freeChunk := freeChunk - {next};
      }
      freeChunk := freeChunk[start := size];
      return false;
    }
  }
}
