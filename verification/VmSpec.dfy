/** What the operations of vm.c do to memory and to the uses of its frames, and the steps of their proofs. */
module VmSpec {
  import opened Params
  import opened PageTable
  import opened PageCount

  const PGSIZE := 0x1000
  const KERNBASE := KERNPAGE * PGSIZE

  /** perm | PTE_P */
  function OrPresent(perm: nat): (r: nat)
    requires perm < 0x1000
    ensures r % 2 == 1 && perm <= r < 0x1000
  {
    if perm % 2 == 1 then perm else perm + 1
  }

  lemma {:induction false} OrPresentOdd(p: nat, perm: nat)
    requires p < NPAGES && perm < 0x1000
    ensures Present(Entry(p, OrPresent(perm))) && Frame(Entry(p, OrPresent(perm))) == p
  {
  }

  lemma {:induction false} FlagsRange(w: Word)
    ensures Flags(w) < 0x1000
    ensures Present(w) ==> OrPresent(Flags(w)) == Flags(w)
  {
  }

  function Junk(): Page {
    seq<Word>(NENTRIES, _ => 0x0101_0101)
  }

  function PgRoundUp(sz: nat): nat {
    (sz + PGSIZE - 1) / PGSIZE
  }

  lemma {:induction false} PgRoundUpOrder(x: nat, y: nat)
    ensures x >= y ==> PgRoundUp(x) >= PgRoundUp(y)
    ensures x <= y ==> PgRoundUp(x) <= PgRoundUp(y)
    ensures y <= KERNBASE ==> PgRoundUp(y) <= KERNPAGE
  {
  }

  lemma {:induction false} PgRoundUpCursor(a: nat, sz: nat)
    ensures a * PGSIZE < sz <==> a < PgRoundUp(sz)
    ensures sz <= KERNBASE ==> PgRoundUp(sz) <= KERNPAGE
  {
  }

  /** Every page of a size below 2^32 is a page. */
  lemma {:induction false} LastPage(sz: nat)
    requires sz < WORD_RANGE
    ensures PgRoundUp(sz) <= NPAGES && forall a: nat :: a * PGSIZE < sz ==> a < NPAGES
  {
  }

  lemma {:induction false} FirstPage(sz: nat)
    requires sz > 0
    ensures PgRoundUp(0) == 0 < PgRoundUp(sz)
  {
  }

  /** How many of the pages v0 .. last lie below KERNBASE. */
  function UserPages(v0: nat, last: nat): nat {
    if v0 >= KERNPAGE || last < v0 then 0 else if last < KERNPAGE then last + 1 - v0 else KERNPAGE - v0
  }

  lemma {:induction false} PageMath(v: nat, f: nat)
    ensures v * PGSIZE / PGSIZE == v == (v * PGSIZE + PGSIZE - 1) / PGSIZE
    ensures f * PGSIZE / PGSIZE == f && f * PGSIZE % PGSIZE == 0
    ensures v < KERNPAGE ==> UserPages(v, v) == 1
  {
  }

  function Descending(a: nat, b: nat): (s: seq<nat>)
    requires a <= b
    ensures |s| == b - a && forall i :: 0 <= i < |s| ==> s[i] == b - 1 - i
  {
    seq(b - a, i requires 0 <= i < b - a => b - 1 - i)
  }

  lemma {:induction false} DescendingHas(a: nat, b: nat)
    requires a <= b
    ensures forall f: nat :: f in Descending(a, b) <==> a <= f < b
  {
    forall f: nat | a <= f < b ensures f in Descending(a, b) {
      assert Descending(a, b)[b - 1 - f] == f;
    }
  }

  // ------------------------------------------------------------ extending a directory

  /** What extending directory pd leaves alone: every other use of every frame, the contents of all
      frames but pd's own tables, and the mappings of every other directory. New frames become page
      tables of pd, and frames without a use may become pages of pd. */
  ghost predicate Extends(m: Memory, owner: Owner, m': Memory, owner': Owner, pd: nat) {
    && m.Keys <= m'.Keys
    && (forall d :: IsDir(owner', d) <==> IsDir(owner, d))
    && (forall f :: f in owner ==>
        f in owner' && (owner'[f] == owner[f] || (owner[f].Other? && owner'[f].User? && owner'[f].pd == pd)))
    && (forall f :: f in owner' && f !in owner ==> owner'[f].Table? && owner'[f].pd == pd)
    && (forall f :: f in owner && f in m && f != pd && !(owner[f].Table? && owner[f].pd == pd) ==> m'[f] == m[f])
    && (forall d, v :: IsDir(owner, d) && d != pd && 0 <= v < NPAGES ==> Pte(m', d, v) == Pte(m, d, v))
  }

  lemma {:induction false} ExtendsSelf(m: Memory, owner: Owner, pd: nat)
    ensures Extends(m, owner, m, owner, pd)
  {
  }

  lemma {:induction false} ExtendsTrans(m: Memory, owner: Owner, m1: Memory, owner1: Owner, m2: Memory, owner2: Owner,
                                        pd: nat)
    requires Extends(m, owner, m1, owner1, pd) && Extends(m1, owner1, m2, owner2, pd)
    ensures Extends(m, owner, m2, owner2, pd)
  {
    hide Pte;
    forall d, v | IsDir(owner, d) && d != pd && 0 <= v < NPAGES ensures Pte(m2, d, v) == Pte(m, d, v) {
      assert IsDir(owner1, d) && Pte(m1, d, v) == Pte(m, d, v);
    }
  }

  lemma {:induction false} DirFrame(lo: nat, m: Memory, free: seq<nat>, owner: Owner, pd: nat, v: nat)
    requires Core(lo, m, free, owner) && IsDir(owner, pd) && v < NPAGES
    ensures pd in m && Present(m[pd][v / NENTRIES]) ==> Frame(m[pd][v / NENTRIES]) != 0 && TableOf(m, pd, v) in m
    ensures pd in m
  {
    hide Frame, Present;
  }

  lemma {:induction false} PteAt(lo: nat, m: Memory, free: seq<nat>, owner: Owner, pd: nat, v: nat)
    requires Core(lo, m, free, owner) && IsDir(owner, pd) && v < NPAGES && pd in m && Present(m[pd][v / NENTRIES])
    ensures TableOf(m, pd, v) in m && Pte(m, pd, v) == m[TableOf(m, pd, v)][v % NENTRIES]
  {
    hide Frame, Present;
  }

  lemma {:induction false} PteWalk(lo: nat, m: Memory, free: seq<nat>, owner: Owner, pd: nat, v: nat, t: nat)
    requires Core(lo, m, free, owner) && IsDir(owner, pd) && v < NPAGES && pd in m
    requires t != 0 ==> Present(m[pd][v / NENTRIES]) && t == TableOf(m, pd, v)
    requires t == 0 ==> !Present(m[pd][v / NENTRIES])
    ensures t != 0 ==> t in m && m[t][v % NENTRIES] == Pte(m, pd, v)
    ensures t == 0 ==> !Present(Pte(m, pd, v))
  {
    if t != 0 {
      PteAt(lo, m, free, owner, pd, v);
    }
  }

  lemma {:induction false} MappedHasTable(lo: nat, m: Memory, free: seq<nat>, owner: Owner, pd: nat, v: nat)
    requires Core(lo, m, free, owner) && IsDir(owner, pd) && v < NPAGES
    ensures Present(Pte(m, pd, v)) ==> Present(DirAt(m, pd)[v / NENTRIES])
  {
  }

  /** A user page's frame is a pool frame, and so not frame 0. */
  lemma {:induction false} UserFrame(lo: nat, m: Memory, free: seq<nat>, owner: Owner, pd: nat, v: nat)
    requires Inv(lo, m, free, owner) && IsDir(owner, pd) && v < NPAGES && Present(Pte(m, pd, v))
    ensures v < KERNPAGE ==> Frame(Pte(m, pd, v)) != 0 && Pool(lo, Frame(Pte(m, pd, v)))
  {
    hide Pte, Frame, Present;
  }

  lemma {:induction false} PoolPositive(lo: nat, m: Memory, free: seq<nat>, owner: Owner)
    requires Core(lo, m, free, owner)
    ensures lo > 0 && !Pool(lo, 0)
  {
  }

  lemma {:induction false} OwnedInPool(lo: nat, m: Memory, free: seq<nat>, owner: Owner, f: nat)
    requires Core(lo, m, free, owner) && f in owner
    ensures Pool(lo, f) && f in m
  {
  }

  /** Attaching a freshly taken frame as a page table, seen from before it was taken. */
  lemma {:induction false} MadeTable(lo: nat, m0: Memory, owner0: Owner, m: Memory, free: seq<nat>, owner: Owner,
                                     pd: nat, i: nat, t: nat)
    requires Core(lo, m0, free, owner) && owner == owner0[t := Other] && t !in owner0
    requires m == m0[t := ZeroPage()] && IsDir(owner0, pd) && i < NENTRIES && pd in m && pd in m0
    requires !Present(m0[pd][i]) && t < NFRAMES
    ensures var m', owner' := m[pd := m[pd][i := Entry(t, PTE_P + PTE_W + PTE_U)]], owner[t := Table(pd, i)];
            && Core(lo, m', free, owner') && IsDir(owner', pd)
            && Extends(m0, owner0, m', owner', pd)
            && SameMaps(m0, owner0, m')
            && (Users(m0, owner) ==> Users(m', owner'))
  {
    hide Tables, Users, FreeList, Pte, Frame;
    var m', owner' := m[pd := m[pd][i := Entry(t, PTE_P + PTE_W + PTE_U)]], owner[t := Table(pd, i)];
    WriteOther(lo, m0, free, owner, t, ZeroPage());
    NewTable(lo, m, free, owner, pd, i, t);
    forall d, v | IsDir(owner0, d) && 0 <= v < NPAGES ensures Pte(m', d, v) == Pte(m0, d, v) {
      assert IsDir(owner, d);
      assert Pte(m, d, v) == Pte(m0, d, v);
    }
  }

  /** Frame p has no use yet, as a user page's frame should. */
  ghost predicate SpareAt(owner: Owner, v: nat, p: nat) {
    v < KERNPAGE && p in owner && owner[p] == Other
  }

  /** A frame without a use becomes the user page's; no other frame changes its use. */
  ghost function Taken(owner: Owner, pd: nat, v: nat, p: nat): Owner {
    if SpareAt(owner, v, p) then owner[p := User(pd, v)] else owner
  }

  /** Storing one present entry in a page table that exists. */
  lemma {:induction false} MapOne(lo: nat, m: Memory, free: seq<nat>, owner: Owner, pd: nat, v: nat, w: Word)
    requires Core(lo, m, free, owner) && IsDir(owner, pd) && v < NPAGES && pd in m && Present(m[pd][v / NENTRIES])
    requires !Present(Pte(m, pd, v)) && Present(w)
    ensures TableOf(m, pd, v) in m
    ensures var m', owner' := SetPte(m, pd, v, w), Taken(owner, pd, v, Frame(w));
            && Core(lo, m', free, owner') && IsDir(owner', pd)
            && (Users(m, owner) && (v < KERNPAGE ==> SpareAt(owner, v, Frame(w))) ==> Users(m', owner'))
            && Extends(m, owner, m', owner', pd)
            && (forall u :: 0 <= u < NPAGES ==> Pte(m', pd, u) == if u == v then w else Pte(m, pd, u))
            && DirAt(m', pd) == DirAt(m, pd)
  {
    var m', owner' := SetPte(m, pd, v, w), Taken(owner, pd, v, Frame(w));
    if SpareAt(owner, v, Frame(w)) {
      MapUser(lo, m, free, owner, pd, v, w);
    } else {
      MapEntry(lo, m, free, owner, pd, v, w);
    }
    hide Users, FreeList, Pte, Frame, Present;
    forall d, u | IsDir(owner, d) && 0 <= u < NPAGES
      ensures Pte(m', d, u) == if d == pd && u == v then w else Pte(m, d, u)
    {
      SetPteAt(lo, m, owner, pd, v, w, d, u);
    }
    assert owner[TableOf(m, pd, v)] == Table(pd, v / NENTRIES);
    SetPteKeys(m, pd, v, w);
  }

  // ------------------------------------------------------------ mapping a range

  /** Frames without a use yet. */
  ghost predicate Spare(owner: Owner, from: nat, to: nat) {
    forall f :: from <= f < to ==> f in owner && owner[f] == Other
  }

  lemma {:induction false} SpareNone(owner: Owner, p: nat)
    ensures Spare(owner, p, p)
  {
  }

  /** Frames outside a .. b keep their use. */
  ghost predicate UsesKept(owner: Owner, owner': Owner, a: nat, b: nat) {
    forall f :: f in owner && !(a <= f < b) ==> f in owner' && owner'[f] == owner[f]
  }

  /** Relative to m0, exactly the n pages from v0 on have changed, to consecutive frames from p0 on. */
  ghost predicate MapsRange(m0: Memory, m: Memory, pd: nat, v0: nat, n: nat, p0: nat, perm: nat)
  {
    && perm < 0x1000 && p0 + n <= NPAGES
    && forall v :: 0 <= v < NPAGES ==>
         Pte(m, pd, v) == if v0 <= v < v0 + n then Entry(p0 + v - v0, OrPresent(perm)) else Pte(m0, pd, v)
  }

  lemma {:induction false} MapsNext(m0: Memory, m: Memory, m': Memory, pd: nat, v0: nat, n: nat, p0: nat, perm: nat)
    requires MapsRange(m0, m, pd, v0, n, p0, perm) && v0 + n < NPAGES && p0 + n < NPAGES
    requires forall v :: 0 <= v < NPAGES ==>
               Pte(m', pd, v) == if v == v0 + n then Entry(p0 + n, OrPresent(perm)) else Pte(m, pd, v)
    ensures MapsRange(m0, m', pd, v0, n + 1, p0, perm)
  {
    hide Pte, Entry;
  }

  /** Page v of pd, and no other page of it, now maps to frame p; a user page is that frame's use. */
  ghost predicate OneMapped(m: Memory, owner: Owner, m': Memory, owner': Owner, pd: nat, v: nat, p: nat, perm: nat)
    requires p < NPAGES && perm < 0x1000
  {
    && Extends(m, owner, m', owner', pd)
    && (forall u :: 0 <= u < NPAGES ==> Pte(m', pd, u) == if u == v then Entry(p, OrPresent(perm)) else Pte(m, pd, u))
    && (forall f :: f in owner ==> f in owner' && owner'[f] == Taken(owner, pd, v, p)[f])
  }

  datatype MapResult = Done | NoMemory | Remap

  /** Pages a .. b of pd are not mapped. */
  ghost predicate Clear(m: Memory, pd: nat, a: nat, b: nat) {
    forall v :: a <= v < b && v < NPAGES ==> !Present(Pte(m, pd, v))
  }

  /** The n pages from v0 on were not mapped, and of n0 free frames `left` remain after mapping them. */
  ghost predicate Passed(m0: Memory, n0: nat, m: Memory, left: nat, pd: nat, v0: nat, n: nat) {
    Clear(m0, pd, v0, v0 + n) && Spent(n0, DirAt(m0, pd), left, DirAt(m, pd), Slots(v0, v0 + n), 0)
  }

  lemma {:induction false} PassedNone(m: Memory, n: nat, pd: nat, v0: nat)
    ensures Passed(m, n, m, n, pd, v0, 0)
  {
    hide Spent, Pte;
    SpentNone(n, DirAt(m, pd), v0);
  }

  lemma {:induction false} PassedNext(m0: Memory, n0: nat, m1: Memory, n1: nat, m: Memory, left: nat,
                                      pd: nat, v0: nat, n: nat)
    requires Passed(m0, n0, m1, n1, pd, v0, n) && v0 + n < NPAGES && !Present(Pte(m0, pd, v0 + n))
    requires Spent(n1, DirAt(m1, pd), left, DirAt(m, pd), Slots(v0 + n, v0 + n + 1), 0)
    ensures Passed(m0, n0, m, left, pd, v0, n + 1)
  {
    hide Spent, Pte, Slots, DirAt, Present;
    SpentNext(n0, DirAt(m0, pd), n1, DirAt(m1, pd), left, DirAt(m, pd), v0, v0 + n, v0 + n + 1, 0, 0);
  }

  lemma {:induction false} PassedShort(m0: Memory, n0: nat, m: Memory, left: nat, pd: nat, v0: nat, n: nat)
    requires Passed(m0, n0, m, left, pd, v0, n) && left < Missing(DirAt(m, pd), Slots(v0 + n, v0 + n + 1))
    ensures n0 < Missing(DirAt(m0, pd), Slots(v0, v0 + n + 1))
  {
    hide Spent, Pte, Slots, Missing, DirAt;
    CannotPay(n0, DirAt(m0, pd), left, DirAt(m, pd), v0, v0 + n, v0 + n + 1, 0, 0);
  }

  /** How far mappages came, from page v0 towards page last with n0 free frames: n pages are mapped, and it
      stopped at the end, at a page that was mapped already, or at a page table it could not pay for. */
  ghost predicate Stopped(m0: Memory, n0: nat, m: Memory, left: nat, pd: nat, v0: nat, n: nat, last: nat,
                          r: MapResult) {
    && v0 + n <= last + 1 && last < NPAGES && Passed(m0, n0, m, left, pd, v0, n)
    && (r == Done <==> v0 + n == last + 1)
    && (r == Remap ==> Present(Pte(m0, pd, v0 + n)))
    && (r == NoMemory ==> !Present(Pte(m0, pd, v0 + n)) && n0 < Missing(DirAt(m0, pd), Slots(v0, v0 + n + 1)))
  }

  /** Over unmapped pages mappages fails exactly when the free frames do not suffice for the page tables. */
  lemma {:induction false} StoppedClear(m0: Memory, n0: nat, m: Memory, left: nat, pd: nat, v0: nat, n: nat,
                                        last: nat, r: MapResult)
    requires Stopped(m0, n0, m, left, pd, v0, n, last, r) && v0 <= last && Clear(m0, pd, v0, last + 1)
    ensures r != Remap && (r == NoMemory <==> n0 < Missing(DirAt(m0, pd), Slots(v0, last + 1)))
    ensures r == Done ==> Spent(n0, DirAt(m0, pd), left, DirAt(m, pd), Slots(v0, last + 1), 0)
  {
    hide Pte, Slots, Missing, DirAt, Hooked, Present;
    if r == NoMemory {
      SlotsJoin(v0, v0 + n + 1, last + 1);
      MissingMonotone(DirAt(m0, pd), Slots(v0, v0 + n + 1), Slots(v0, last + 1));
    }
  }

  /** mappages' loop after n pages. */
  ghost predicate Mapping(m0: Memory, owner0: Owner, m: Memory, owner: Owner, pd: nat, v0: nat, n: nat, p0: nat,
                          perm: nat, last: nat) {
    && Extends(m0, owner0, m, owner, pd)
    && MapsRange(m0, m, pd, v0, n, p0, perm)
    && (Spare(owner0, p0, p0 + UserPages(v0, last)) ==>
          Spare(owner, p0 + n, p0 + UserPages(v0, last)) && (Users(m0, owner0) ==> Users(m, owner)))
    && UsesKept(owner0, owner, p0, p0 + n) && UsesKept(owner0, owner, p0, p0 + UserPages(v0, last))
  }

  lemma {:induction false} MappingStart(m: Memory, owner: Owner, pd: nat, v0: nat, p0: nat, perm: nat, last: nat)
    requires perm < 0x1000 && p0 <= NPAGES
    ensures Mapping(m, owner, m, owner, pd, v0, 0, p0, perm, last)
  {
    hide Pte;
    ExtendsSelf(m, owner, pd);
  }

  /** The next page is as it was at the start, and its frame is still without a use if it was then. */
  lemma {:induction false} MappingAt(m0: Memory, owner0: Owner, m: Memory, owner: Owner, pd: nat, v0: nat, n: nat,
                                     p0: nat, perm: nat, last: nat)
    requires Mapping(m0, owner0, m, owner, pd, v0, n, p0, perm, last) && v0 + n <= last < NPAGES
    ensures Pte(m, pd, v0 + n) == Pte(m0, pd, v0 + n)
    ensures Spare(owner0, p0, p0 + UserPages(v0, last)) && v0 + n < KERNPAGE ==> SpareAt(owner, v0 + n, p0 + n)
    ensures Extends(m0, owner0, m, owner, pd) && MapsRange(m0, m, pd, v0, n, p0, perm)
    ensures UsesKept(owner0, owner, p0, p0 + n) && UsesKept(owner0, owner, p0, p0 + UserPages(v0, last))
    ensures Spare(owner0, p0, p0 + UserPages(v0, last)) && Users(m0, owner0) ==> Users(m, owner)
  {
    hide Pte, Extends;
  }

  lemma {:induction false} MappingNext(m0: Memory, owner0: Owner, m: Memory, owner: Owner, m': Memory, owner': Owner,
                                       pd: nat, v0: nat, n: nat, p0: nat, perm: nat, last: nat)
    requires Mapping(m0, owner0, m, owner, pd, v0, n, p0, perm, last) && v0 + n <= last < NPAGES && p0 + n < NPAGES
    requires perm < 0x1000
    requires OneMapped(m, owner, m', owner', pd, v0 + n, p0 + n, perm)
    requires Users(m, owner) && (v0 + n < KERNPAGE ==> SpareAt(owner, v0 + n, p0 + n)) ==> Users(m', owner')
    ensures Mapping(m0, owner0, m', owner', pd, v0, n + 1, p0, perm, last)
  {
    hide Pte, Extends, MapsRange, Entry, Users;
    MappingAt(m0, owner0, m, owner, pd, v0, n, p0, perm, last);
    ExtendsTrans(m0, owner0, m, owner, m', owner', pd);
    MapsNext(m0, m, m', pd, v0, n, p0, perm);
  }

  lemma {:induction false} MappingDone(m0: Memory, owner0: Owner, m: Memory, owner: Owner, pd: nat, v0: nat, n: nat,
                                       p0: nat, perm: nat, last: nat)
    requires Mapping(m0, owner0, m, owner, pd, v0, n, p0, perm, last)
    ensures Extends(m0, owner0, m, owner, pd) && MapsRange(m0, m, pd, v0, n, p0, perm)
    ensures UsesKept(owner0, owner, p0, p0 + n) && UsesKept(owner0, owner, p0, p0 + UserPages(v0, last))
    ensures Spare(owner0, p0, p0 + UserPages(v0, last)) && Users(m0, owner0) ==> Users(m, owner)
  {
  }

  // ------------------------------------------------------------ freeing a range

  predicate InRange(u: Use, pd: nat, a: nat, b: nat) {
    u.User? && u.pd == pd && a <= u.v < b
  }

  /** Relative to m and owner, exactly the user pages a .. b of pd are gone: unmapped, their frames
      without a use; every other mapping, use and content stands. */
  ghost predicate Shrinks(m: Memory, owner: Owner, m': Memory, owner': Owner, pd: nat, a: nat, b: nat) {
    && m'.Keys == m.Keys
    && (forall f :: f in owner' <==> f in owner && !InRange(owner[f], pd, a, b))
    && (forall f :: f in owner' ==> owner'[f] == owner[f])
    && (forall f :: f in owner' && f in m && !(owner[f].Table? && owner[f].pd == pd) ==> m'[f] == m[f])
    && (forall d, v :: IsDir(owner, d) && 0 <= v < NPAGES ==>
          Pte(m', d, v) == if d == pd && a <= v < b && Present(Pte(m, d, v)) then 0 else Pte(m, d, v))
  }

  /** The kernel's mapping of page v once the first k ranges of kmap are in place: physical memory
      linearly above KERNBASE, read-only for the kernel's text, and devices at their own address. */
  function KernelPte(data: nat, k: nat, v: nat): Word
    requires data < NFRAMES && v < NPAGES
  {
    if k > 0 && KERNPAGE <= v < KERNPAGE + EXTPAGE then Entry(v - KERNPAGE, PTE_P + PTE_W)
    else if k > 1 && KERNPAGE + EXTPAGE <= v < KERNPAGE + data then Entry(v - KERNPAGE, PTE_P)
    else if k > 2 && KERNPAGE + data <= v < KERNPAGE + NFRAMES then Entry(v - KERNPAGE, PTE_P + PTE_W)
    else if k > 3 && DEVPAGE <= v then Entry(v, PTE_P + PTE_W)
    else 0
  }

  /** The new size, the panic at a frame that cannot be freed, or the freeing of a frame that the page does not
      own. */
  datatype Freed = Size(size: nat) | BadFree | Foreign

  /** One turn of deallocuvm's loop: on to page b, or an end. */
  datatype Turn = Next(b: nat) | Stop(r: Freed)

  /** The kernel's part of a directory, as setupkvm makes it. */
  ghost predicate KernelPart(m: Memory, pd: nat, data: nat) {
    data < NFRAMES && forall v :: KERNPAGE <= v < NPAGES ==> Pte(m, pd, v) == KernelPte(data, 4, v)
  }

  /** Above KERNBASE nothing is for user processes; physical memory and devices are mapped, and all of it but
      the kernel's text can be written. */
  ghost predicate KernelRights(m: Memory, pd: nat, data: nat) {
    forall v :: KERNPAGE <= v < NPAGES ==>
      var r := RightsOf(m, pd, v);
      && !r.user && (r.mapped <==> v < KERNPAGE + NFRAMES || DEVPAGE <= v)
      && (r.write <==> r.mapped && !(KERNPAGE + EXTPAGE <= v < KERNPAGE + data))
  }

  lemma {:induction false} KernelPteRights(data: nat, v: nat)
    requires EXTPAGE < data < NFRAMES && KERNPAGE <= v < NPAGES
    ensures var w := KernelPte(data, 4, v);
            && (Present(w) <==> v < KERNPAGE + NFRAMES || DEVPAGE <= v) && !ForUser(w)
            && (Writable(w) <==> Present(w) && !(KERNPAGE + EXTPAGE <= v < KERNPAGE + data))
  {
  }

  lemma {:induction false} KernelPartRights(lo: nat, m: Memory, free: seq<nat>, owner: Owner, pd: nat, data: nat)
    requires KernelPart(m, pd, data) && EXTPAGE < data && Core(lo, m, free, owner) && IsDir(owner, pd)
    ensures KernelRights(m, pd, data)
  {
    hide Pte, RightsOf, Tables, FreeList, KernelPte, Present, Writable, ForUser;
    forall v | KERNPAGE <= v < NPAGES
      ensures var r := RightsOf(m, pd, v);
              && !r.user && (r.mapped <==> v < KERNPAGE + NFRAMES || DEVPAGE <= v)
              && (r.write <==> r.mapped && !(KERNPAGE + EXTPAGE <= v < KERNPAGE + data))
    {
      RightsAre(lo, m, owner, pd, v);
      KernelPteRights(data, v);
    }
  }

  /** A page table that walkpgdir finds or makes withholds no right. */
  lemma {:induction false} WalkOpen(lo: nat, m: Memory, free: seq<nat>, owner: Owner, pd: nat, i: nat)
    requires Core(lo, m, free, owner) && IsDir(owner, pd) && i < NENTRIES
    ensures pd in m && (Present(m[pd][i]) ==> Open(m[pd][i]))
  {
    hide Present, Open, Frame;
  }

  lemma {:induction false} KernelPartKept(m0: Memory, owner0: Owner, m: Memory, owner: Owner, pd: nat, data: nat,
                                          a: nat, b: nat)
    requires KernelPart(m0, pd, data) && IsDir(owner0, pd) && Shrinks(m0, owner0, m, owner, pd, a, b) && b <= KERNPAGE
    ensures KernelPart(m, pd, data)
  {
    hide Pte, KernelPte;
  }

  /** What freeing the frame of a kernel page comes to. */
  function KernelFree(lo: nat, f: nat): Freed {
    if Pool(lo, f) then Foreign else BadFree
  }

  lemma {:induction false} KernelPageAt(m: Memory, pd: nat, data: nat, lo: nat, v: nat)
    requires KernelPart(m, pd, data) && EXTPAGE < data && KERNPAGE <= v < NPAGES && lo > 0
    ensures Present(Pte(m, pd, v)) <==> v < KERNPAGE + NFRAMES || DEVPAGE <= v
    ensures v < KERNPAGE + NFRAMES ==> Frame(Pte(m, pd, v)) == v - KERNPAGE
    ensures DEVPAGE <= v ==> KernelFree(lo, Frame(Pte(m, pd, v))) == BadFree
    ensures v == KERNPAGE ==> KernelFree(lo, Frame(Pte(m, pd, v))) == BadFree
  {
    hide Pte;
  }

  /** Where deallocuvm starts, in 32-bit arithmetic. */
  function FreeStart(newsz: nat, oldsz: nat): nat {
    if newsz >= oldsz then PgRoundUp(newsz) else PgRoundUp(newsz) % NPAGES
  }

  /** How deallocuvm ends on a directory with the kernel's part. Above KERNBASE the first kernel page in its
      range decides: page KERNBASE has frame 0, and so on up to PHYSTOP; the devices lie beyond. */
  function FreeFate(lo: nat, oldsz: nat, newsz: nat): Freed {
    var s, e := FreeStart(newsz, oldsz), PgRoundUp(oldsz);
    if newsz >= oldsz then Size(oldsz)
    else if e <= KERNPAGE || s >= e then Size(newsz)
    else if s <= KERNPAGE then BadFree
    else if s < KERNPAGE + NFRAMES then KernelFree(lo, s - KERNPAGE)
    else if e <= DEVPAGE then Size(newsz)
    else BadFree
  }

  lemma {:induction false} FreeFateLow(lo: nat, oldsz: nat, newsz: nat)
    requires oldsz <= KERNBASE
    ensures FreeFate(lo, oldsz, newsz) == Size(if newsz >= oldsz then oldsz else newsz)
    ensures FreeStart(newsz, oldsz) == PgRoundUp(newsz) && Min(PgRoundUp(oldsz), KERNPAGE) == PgRoundUp(oldsz)
  {
  }

  lemma {:induction false} ShrinksNone(m: Memory, owner: Owner, pd: nat, a: nat, b: nat)
    requires b <= a
    ensures Shrinks(m, owner, m, owner, pd, a, b)
  {
    hide Pte;
  }

  lemma {:induction false} MissingTable(m: Memory, pd: nat, a: nat, b: nat)
    requires pd in m && a < NPAGES && !Present(m[pd][a / NENTRIES])
    requires b <= (a / NENTRIES + 1) * NENTRIES && b <= NPAGES
    ensures forall v :: a <= v < b ==> !Present(Pte(m, pd, v))
  {
    forall v | a <= v < b ensures !Present(Pte(m, pd, v)) {
      assert v / NENTRIES == a / NENTRIES;
    }
  }

  /** The page table survives the freeing of the page. */
  lemma {:induction false} UnmapTable(lo: nat, m: Memory, free: seq<nat>, owner: Owner, pd: nat, v: nat, f: nat)
    requires Inv(lo, m, free, owner) && IsDir(owner, pd) && v < NPAGES && pd in m && Present(m[pd][v / NENTRIES])
    requires f in owner && owner[f].User?
    ensures TableOf(m, pd, v) in m && TableOf(m[f := Junk()], pd, v) == TableOf(m, pd, v) != f
    ensures m[f := Junk()].Keys == m.Keys
  {
    hide Frame, Present;
    assert owner[TableOf(m, pd, v)] == Table(pd, v / NENTRIES);
    OwnedInPool(lo, m, free, owner, f);
  }

  /** Pages without a mapping need no freeing. */
  lemma {:induction false} ShrinksSkip(lo: nat, m0: Memory, owner0: Owner, m: Memory, free: seq<nat>, owner: Owner,
                                       pd: nat, s: nat, a: nat, b: nat)
    requires Shrinks(m0, owner0, m, owner, pd, s, a) && Inv(lo, m, free, owner) && IsDir(owner, pd)
    requires s <= a <= b <= KERNPAGE
    requires forall v :: a <= v < b ==> !Present(Pte(m, pd, v))
    ensures Shrinks(m0, owner0, m, owner, pd, s, b)
  {
    hide Pte, Frame, Present;
    forall f | f in owner ensures !InRange(owner[f], pd, a, b) {
      if owner[f].User? && owner[f].pd == pd { assert Present(Pte(m, pd, owner[f].v)); }
    }
  }

  lemma {:induction false} ShrinksNext(lo: nat, m0: Memory, owner0: Owner, m: Memory, free: seq<nat>, owner: Owner,
                                       m': Memory, owner': Owner, pd: nat, s: nat, a: nat)
    requires Shrinks(m0, owner0, m, owner, pd, s, a) && IsDir(owner, pd) && s <= a < KERNPAGE && Present(Pte(m, pd, a))
    requires Inv(lo, m, free, owner) && pd in m && Present(m[pd][a / NENTRIES])
    requires var f := Frame(Pte(m, pd, a));
             && f in owner && owner[f] == User(pd, a) && owner' == owner - {f}
             && TableOf(m, pd, a) in m
             && m' == m[f := Junk()][TableOf(m, pd, a) := m[TableOf(m, pd, a)][a % NENTRIES := 0]]
    requires m'.Keys == m.Keys
    requires forall d, u :: IsDir(owner, d) && 0 <= u < NPAGES ==>
               Pte(m', d, u) == if d == pd && u == a then 0 else Pte(m, d, u)
    ensures Shrinks(m0, owner0, m', owner', pd, s, a + 1)
  {
    hide Pte, Frame, Present;
    assert owner[TableOf(m, pd, a)] == Table(pd, a / NENTRIES);
    forall f | f in owner && owner[f] == User(pd, a) ensures f == Frame(Pte(m, pd, a)) {
    }
    forall d, v | IsDir(owner0, d) && 0 <= v < NPAGES
      ensures Pte(m', d, v) == if d == pd && s <= v < a + 1 && Present(Pte(m0, d, v)) then 0 else Pte(m0, d, v)
    {
      assert IsDir(owner, d);
    }
  }

  // ------------------------------------------------------------ freeing an address space

  /** Nothing of the address space of pd is left, and everything else is as before. */
  ghost predicate Gone(m: Memory, owner: Owner, m': Memory, owner': Owner, pd: nat) {
    && m'.Keys == m.Keys
    && (forall f :: f in owner' <==> f in owner && !Belongs(owner[f], f, pd))
    && (forall f :: f in owner' ==> owner'[f] == owner[f] && (f in m ==> m'[f] == m[f]))
    && (forall d, v :: IsDir(owner', d) && 0 <= v < NPAGES ==> Pte(m', d, v) == Pte(m, d, v))
  }

  lemma {:induction false} NoUsersLeft(lo: nat, m0: Memory, owner0: Owner, m: Memory, free: seq<nat>, owner: Owner,
                                       pd: nat)
    requires Inv(lo, m, free, owner) && Shrinks(m0, owner0, m, owner, pd, PgRoundUp(0), PgRoundUp(KERNBASE))
    ensures forall f :: f in owner && owner[f].User? ==> owner[f].pd != pd
  {
    hide Pte, Frame;
    assert PgRoundUp(0) == 0 && PgRoundUp(KERNBASE) == KERNPAGE;
  }

  lemma {:induction false} DirRemains(lo: nat, m: Memory, free: seq<nat>, owner: Owner, pd: nat, i: nat)
    requires Inv(lo, m, free, owner) && IsDir(owner, pd)
    ensures pd in m && pd in Remaining(owner, pd, i) && Remaining(owner, pd, i)[pd] == Other
  {
  }

  lemma {:induction false} RemainingStep(lo: nat, m: Memory, free: seq<nat>, owner: Owner, pd: nat, i: nat)
    requires Inv(lo, m, free, owner) && IsDir(owner, pd) && i < NENTRIES
    ensures pd in m
    ensures var f, r := Frame(m[pd][i]), Remaining(owner, pd, i);
            if Present(m[pd][i]) then f in r && r[f] == Other && f != pd && Remaining(owner, pd, i + 1) == r - {f}
            else Remaining(owner, pd, i + 1) == r
  {
    RemainingNext(lo, m, owner, pd, i);
  }

  lemma {:induction false} UserPagesLow(lo: nat, m: Memory, free: seq<nat>, owner: Owner)
    requires Inv(lo, m, free, owner)
    ensures forall f :: f in owner && owner[f].User? ==> owner[f].v < KERNPAGE
  {
    hide Pte, Frame;
  }

  lemma {:induction false} RemainingAll(lo: nat, m: Memory, free: seq<nat>, owner: Owner, owner': Owner, pd: nat)
    requires Inv(lo, m, free, owner) && IsDir(owner, pd) && owner' == Remaining(owner, pd, NENTRIES) - {pd}
    requires forall f :: f in owner && owner[f].User? ==> owner[f].pd != pd
    ensures forall f :: f in owner' <==> f in owner && !Belongs(owner[f], f, pd)
    ensures forall f :: f in owner' ==> owner'[f] == owner[f]
  {
    hide Pte, Frame;
  }

  lemma {:induction false} PteByContents(lo: nat, m: Memory, free: seq<nat>, owner: Owner, m': Memory, owner': Owner,
                                         d: nat, v: nat, pd: nat)
    requires Inv(lo, m, free, owner) && IsDir(owner, d) && IsDir(owner, pd) && d != pd && v < NPAGES
    requires m'.Keys == m.Keys
    requires forall f :: f in owner && !Belongs(owner[f], f, pd) ==> f in owner'
    requires forall f :: f in owner' && f in m' ==> m'[f] == m[f]
    ensures Pte(m', d, v) == Pte(m, d, v)
  {
    hide Frame, Present;
    assert d in owner' && m'[d] == m[d];
    var pde := m[d][v / NENTRIES];
    if Present(pde) {
      assert owner[Frame(pde)] == Table(d, v / NENTRIES);
    }
  }

  lemma {:induction false} AllGone(lo: nat, m0: Memory, free0: seq<nat>, owner0: Owner, m1: Memory, free1: seq<nat>,
                                   owner1: Owner, m: Memory, owner: Owner, pd: nat)
    requires Inv(lo, m0, free0, owner0) && Inv(lo, m1, free1, owner1) && IsDir(owner0, pd) && IsDir(owner1, pd)
    requires Shrinks(m0, owner0, m1, owner1, pd, PgRoundUp(0), PgRoundUp(KERNBASE))
    requires owner == Remaining(owner1, pd, NENTRIES) - {pd} && m.Keys == m1.Keys
    requires forall f :: f in owner && f in m ==> m[f] == m1[f]
    requires forall f :: f in owner1 && owner1[f].User? ==> owner1[f].pd != pd
    ensures Gone(m0, owner0, m, owner, pd)
  {
    hide Pte, Frame, Core, Users;
    assert PgRoundUp(0) == 0 && PgRoundUp(KERNBASE) == KERNPAGE;
    RemainingAll(lo, m1, free1, owner1, owner, pd);
    UserPagesLow(lo, m0, free0, owner0);
    forall d, v | IsDir(owner, d) && 0 <= v < NPAGES ensures Pte(m, d, v) == Pte(m0, d, v) {
      assert IsDir(owner1, d) && d != pd && IsDir(owner0, d);
      PteByContents(lo, m1, free1, owner1, m, owner, d, v, pd);
    }
  }

  lemma {:induction false} BackOnList(lo: nat, m0: Memory, free0: seq<nat>, owner0: Owner, m: Memory, free: seq<nat>,
                                      owner: Owner, pd: nat)
    requires Inv(lo, m0, free0, owner0) && Inv(lo, m, free, owner) && Gone(m0, owner0, m, owner, pd)
    ensures forall f :: f in owner0 && Belongs(owner0[f], f, pd) ==> f in free
  {
    hide Pte, Frame, Users;
  }

  // ------------------------------------------------------------ growing an address space

  /** Growing address space pd keeps every use and every content outside pd's own tables, and adds
      only frames that belong to pd. */
  ghost predicate Keeps(m0: Memory, owner0: Owner, m: Memory, owner: Owner, pd: nat) {
    && m0.Keys <= m.Keys
    && (forall f :: f in owner0 ==> f in owner && owner[f] == owner0[f])
    && (forall f :: f in owner && f !in owner0 ==> Belongs(owner[f], f, pd))
    && (forall f :: f in owner0 && f in m0 && f != pd && !(owner0[f].Table? && owner0[f].pd == pd) ==> m[f] == m0[f])
    && (forall d, v :: IsDir(owner0, d) && d != pd && 0 <= v < NPAGES ==> Pte(m, d, v) == Pte(m0, d, v))
  }

  lemma {:induction false} KeepsSelf(m: Memory, owner: Owner, pd: nat)
    ensures Keeps(m, owner, m, owner, pd)
  {
    hide Pte;
  }

  lemma {:induction false} KeepsTrans(m0: Memory, owner0: Owner, m1: Memory, owner1: Owner, m2: Memory, owner2: Owner,
                                      pd: nat)
    requires Keeps(m0, owner0, m1, owner1, pd) && Keeps(m1, owner1, m2, owner2, pd)
    ensures Keeps(m0, owner0, m2, owner2, pd)
  {
    hide Pte;
    forall d, v | IsDir(owner0, d) && d != pd && 0 <= v < NPAGES ensures Pte(m2, d, v) == Pte(m0, d, v) {
      assert IsDir(owner1, d);
    }
  }

  lemma {:induction false} KeepsMapped(m0: Memory, owner0: Owner, m: Memory, owner: Owner, m': Memory, owner': Owner,
                                       pd: nat, p: nat)
    requires Keeps(m0, owner0, m, owner, pd) && Extends(m, owner, m', owner', pd) && UsesKept(owner, owner', p, p)
    ensures Keeps(m0, owner0, m', owner', pd)
  {
    hide Pte;
    forall d, v | IsDir(owner0, d) && d != pd && 0 <= v < NPAGES ensures Pte(m', d, v) == Pte(m0, d, v) {
      assert IsDir(owner, d);
    }
  }

  datatype Added = NoFrame | NoTable | Mapped | InUse

  lemma {:induction false} FilledFrame(lo: nat, m: Memory, free: seq<nat>, owner0: Owner, owner: Owner, f: nat, p: Page)
    requires Inv(lo, m, free, owner) && f !in owner0 && owner == owner0[f := Other]
    ensures Inv(lo, m[f := p], free, owner) && Spare(owner, f, f + 1)
    ensures forall d :: IsDir(owner, d) <==> IsDir(owner0, d)
    ensures forall d, v :: IsDir(owner, d) && 0 <= v < NPAGES ==> Pte(m[f := p], d, v) == Pte(m, d, v)
  {
    hide Core, Users, Pte;
    WriteOther(lo, m, free, owner, f, p);
  }

  /** mappages over a single page. */
  lemma {:induction false} OnePage(lo: nat, m0: Memory, m1: Memory, free1: seq<nat>, owner1: Owner, m: Memory,
                                   left: nat, pd: nat, v: nat, n: nat, r: MapResult)
    requires Core(lo, m1, free1, owner1) && IsDir(owner1, pd)
    requires pd in m0 && pd in m1 && m1[pd] == m0[pd] && v < NPAGES
    requires Stopped(m1, |free1|, m, left, pd, v, n, v, r)
    ensures n <= 1 && (r == Done <==> n == 1)
    ensures r == Remap <==> Present(Pte(m1, pd, v))
    ensures r == NoMemory <==> |free1| < Missing(DirAt(m0, pd), Slots(v, v + 1))
    ensures r == Done ==> Spent(|free1|, DirAt(m0, pd), left, DirAt(m, pd), Slots(v, v + 1), 0)
  {
    MappedHasTable(lo, m1, free1, owner1, pd, v);
    OneSlot(DirAt(m1, pd), v);
    hide Core, Pte, Present, Spent, Missing, Slots;
    if !Present(Pte(m1, pd, v)) {
      StoppedClear(m1, |free1|, m, left, pd, v, n, v, r);
    }
  }

  lemma {:induction false} AddedPage(lo: nat, m0: Memory, owner0: Owner, m1: Memory, owner1: Owner, m: Memory,
                                     free: seq<nat>, owner: Owner, pd: nat, v: nat, f: nat, flags: nat)
    requires IsDir(owner0, pd) && f !in owner0 && owner1 == owner0[f := Other] && f in m1 && m0.Keys <= m1.Keys
    requires v < KERNPAGE
    requires forall d, u :: IsDir(owner0, d) && 0 <= u < NPAGES ==> Pte(m1, d, u) == Pte(m0, d, u)
    requires forall g :: g in owner0 && g in m0 ==> m1[g] == m0[g]
    requires Inv(lo, m, free, owner) && IsDir(owner, pd) && flags < 0x1000
    requires Extends(m1, owner1, m, owner, pd) && UsesKept(owner1, owner, f, f + 1)
    requires MapsRange(m1, m, pd, v, 1, f, flags)
    ensures Keeps(m0, owner0, m, owner, pd) && f in owner && f in m && m[f] == m1[f] && f < NPAGES
    ensures forall u :: 0 <= u < NPAGES ==>
              Pte(m, pd, u) == if u == v then Entry(f, OrPresent(flags)) else Pte(m0, pd, u)
  {
    hide Pte, Present, Entry, Tables, FreeList, OrPresent;
    forall u | 0 <= u < NPAGES ensures Pte(m, pd, u) == if u == v then Entry(f, OrPresent(flags)) else Pte(m0, pd, u) {
      assert Pte(m1, pd, u) == Pte(m0, pd, u);
    }
    OrPresentOdd(f, flags);
    assert owner[f] == User(pd, v);
    forall d, u | IsDir(owner0, d) && d != pd && 0 <= u < NPAGES ensures Pte(m, d, u) == Pte(m0, d, u) {
      assert IsDir(owner1, d);
    }
  }

  lemma {:induction false} FreeFramesExist(lo: nat, m1: Memory, free1: seq<nat>, owner1: Owner, m2: Memory,
                                           free2: seq<nat>, owner2: Owner, f: nat)
    requires Inv(lo, m1, free1, owner1) && Inv(lo, m2, free2, owner2) && f in owner2
    ensures f in m1
  {
  }

  lemma {:induction false} SpareInvisible(lo: nat, m1: Memory, owner1: Owner, m2: Memory, free2: seq<nat>,
                                          owner2: Owner, f: nat)
    requires Inv(lo, m2, free2, owner2) && f !in owner1 && owner2 == owner1[f := Other] && f in m1 && f in m2
    requires m2 == m1[f := m2[f]]
    ensures forall d, v :: IsDir(owner1, d) && 0 <= v < NPAGES ==> Pte(m2, d, v) == Pte(m1, d, v)
  {
    hide Core, Users, Pte;
    WriteOther(lo, m2, free2, owner2, f, m1[f]);
    assert m2[f := m1[f]] == m1;
    forall d, v | IsDir(owner1, d) && 0 <= v < NPAGES ensures Pte(m2, d, v) == Pte(m1, d, v) {
      assert IsDir(owner2, d);
    }
  }

  ghost predicate FreshPte(owner0: Owner, m: Memory, w: Word) {
    && Present(w) && Flags(w) == PTE_P + PTE_W + PTE_U
    && Frame(w) !in owner0 && Frame(w) in m && m[Frame(w)] == ZeroPage()
  }

  /** Pages s .. e of pd are mapped, user-writable, to zeroed frames that nothing used before; every
      other page is as before. */
  ghost predicate FreshPages(m0: Memory, owner0: Owner, m: Memory, pd: nat, s: nat, e: nat) {
    forall v :: 0 <= v < NPAGES ==>
      if s <= v < e then FreshPte(owner0, m, Pte(m, pd, v)) else Pte(m, pd, v) == Pte(m0, pd, v)
  }

  /** A user process may read and write the pages s .. e. */
  ghost predicate UserWritable(m: Memory, pd: nat, s: nat, e: nat) {
    forall v :: s <= v < e && v < NPAGES ==> RightsOf(m, pd, v) == Rights(true, true, true)
  }

  lemma {:induction false} FreshWritable(lo: nat, m0: Memory, owner0: Owner, m: Memory, free: seq<nat>, owner: Owner,
                                         pd: nat, s: nat, e: nat)
    requires FreshPages(m0, owner0, m, pd, s, e) && Core(lo, m, free, owner) && IsDir(owner, pd)
    ensures UserWritable(m, pd, s, e)
  {
    hide Pte, RightsOf, Tables, FreeList, Frame;
    forall v | s <= v < e && v < NPAGES ensures RightsOf(m, pd, v) == Rights(true, true, true) {
      RightsAre(lo, m, owner, pd, v);
      assert FreshPte(owner0, m, Pte(m, pd, v));
    }
  }

  lemma {:induction false} FreshNone(m: Memory, owner: Owner, pd: nat, s: nat)
    ensures FreshPages(m, owner, m, pd, s, s)
  {
    hide Pte;
  }

  lemma {:induction false} FreshUnmapped(m0: Memory, owner0: Owner, m: Memory, pd: nat, s: nat, e: nat, v: nat)
    requires FreshPages(m0, owner0, m, pd, s, e) && v >= e && v < NPAGES
    ensures Pte(m, pd, v) == Pte(m0, pd, v)
  {
    hide Pte;
  }

  lemma {:induction false} FreshNext(lo: nat, m0: Memory, owner0: Owner, m: Memory, free: seq<nat>, owner: Owner,
                                     m': Memory, owner': Owner, pd: nat, s: nat, a: nat, f: nat)
    requires FreshPages(m0, owner0, m, pd, s, a) && Keeps(m0, owner0, m, owner, pd) && Keeps(m, owner, m', owner', pd)
    requires Inv(lo, m, free, owner) && IsDir(owner, pd)
    requires s <= a < KERNPAGE && f !in owner && f < NPAGES && f in m' && m'[f] == ZeroPage()
    requires forall u :: 0 <= u < NPAGES ==>
               Pte(m', pd, u) == if u == a then Entry(f, OrPresent(PTE_W + PTE_U)) else Pte(m, pd, u)
    ensures FreshPages(m0, owner0, m', pd, s, a + 1)
  {
    hide Pte, Tables, FreeList, Frame, Present;
    OrPresentOdd(f, PTE_W + PTE_U);
    forall v | 0 <= v < NPAGES
      ensures if s <= v < a + 1 then FreshPte(owner0, m', Pte(m', pd, v)) else Pte(m', pd, v) == Pte(m0, pd, v)
    {
      if s <= v < a {
        assert FreshPte(owner0, m, Pte(m, pd, v));
        assert owner[Frame(Pte(m, pd, v))] == User(pd, v);
      }
    }
  }

  /** Pages s .. e are unmapped, and the others mapped as before. */
  ghost predicate Unmapped(m0: Memory, m: Memory, pd: nat, s: nat, e: nat) {
    forall v :: 0 <= v < NPAGES ==>
      && (Present(Pte(m, pd, v)) <==> Present(Pte(m0, pd, v)) && !(s <= v < e))
      && (Present(Pte(m, pd, v)) ==> Pte(m, pd, v) == Pte(m0, pd, v))
  }

  /** k is the first mapped page from s up to e, or e. */
  ghost predicate FirstMapped(m: Memory, pd: nat, s: nat, e: nat, k: nat) {
    s <= k <= e && Clear(m, pd, s, k) && (k < e ==> k < NPAGES && Present(Pte(m, pd, k)))
  }

  /** The new size (0 without memory for it), or mappages' panic. */
  datatype Grown = Grown(size: nat) | Remapped

  lemma {:induction false} FirstRange(m: Memory, pd: nat, s: nat, e: nat, k: nat)
    requires FirstMapped(m, pd, s, e, k)
    ensures s <= k <= e && Clear(m, pd, s, k)
  {
  }

  /** How far allocuvm of pages s .. e has to pay: up to the first mapped page, for which it still takes a
      frame, or the end. */
  function PaidTo(e: nat, k: nat): nat {
    if k < e then k + 1 else e
  }

  lemma {:induction false} FirstUnmapped(m: Memory, pd: nat, s: nat, e: nat, k: nat, a: nat)
    requires FirstMapped(m, pd, s, e, k) && s <= a <= k && a < e <= NPAGES
    ensures Present(Pte(m, pd, a)) <==> a == k
  {
    hide Pte, Present;
  }

  lemma {:induction false} FindMapped(m: Memory, pd: nat, s: nat, e: nat) returns (k: nat)
    requires s <= e <= NPAGES
    ensures FirstMapped(m, pd, s, e, k)
  {
    hide Pte, Present;
    k := s;
    while k < e && !Present(Pte(m, pd, k))
      invariant s <= k <= e && Clear(m, pd, s, k)
    {
      k := k + 1;
    }
  }

  lemma {:induction false} SpareSurvives(m: Memory, owner: Owner, m': Memory, owner': Owner, pd: nat, a: nat, b: nat,
                                         f: nat)
    requires Shrinks(m, owner, m', owner', pd, a, b) && f in owner && owner[f] == Other
    ensures f in owner' && owner'[f] == Other
  {
    hide Pte;
  }

  /** Shrinking and then freeing a frame taken just before is shrinking alone. */
  lemma {:induction false} ShrinksSpare(lo: nat, m1: Memory, free1: seq<nat>, owner1: Owner, m2: Memory,
                                        free2: seq<nat>, owner2: Owner,
                                        m3: Memory, owner3: Owner, m4: Memory, owner4: Owner, pd: nat, a: nat,
                                        b: nat, f: nat)
    requires Inv(lo, m1, free1, owner1) && Inv(lo, m2, free2, owner2) && f !in owner1 && owner2 == owner1[f := Other]
    requires f in m2 && m2 == m1[f := m2[f]] && Shrinks(m2, owner2, m3, owner3, pd, a, b)
    requires m4 == m3[f := Junk()] && owner4 == owner3 - {f} && SameMaps(m3, owner3, m4)
    ensures Shrinks(m1, owner1, m4, owner4, pd, a, b)
  {
    hide Pte, Core, Users;
    FreeFramesExist(lo, m1, free1, owner1, m2, free2, owner2, f);
    SpareInvisible(lo, m1, owner1, m2, free2, owner2, f);
    forall d, v | IsDir(owner1, d) && 0 <= v < NPAGES
      ensures Pte(m4, d, v) == if d == pd && a <= v < b && Present(Pte(m1, d, v)) then 0 else Pte(m1, d, v)
    {
      assert IsDir(owner2, d) && IsDir(owner3, d);
      assert Pte(m2, d, v) == Pte(m1, d, v);
    }
  }

  /** A failed allocuvm: the pages of the range are unmapped, also those that were mapped before. */
  lemma {:induction false} RangeGone(m0: Memory, owner0: Owner, m1: Memory, owner1: Owner,
                                     m: Memory, owner: Owner, pd: nat, s: nat, a: nat, e: nat)
    requires IsDir(owner1, pd) && s <= a <= e <= KERNPAGE
    requires FreshPages(m0, owner0, m1, pd, s, a) && Shrinks(m1, owner1, m, owner, pd, s, e)
    ensures Unmapped(m0, m, pd, s, e)
  {
    hide Pte, FreshPte;
    forall v | 0 <= v < NPAGES
      ensures Present(Pte(m, pd, v)) <==> Present(Pte(m0, pd, v)) && !(s <= v < e)
      ensures Present(Pte(m, pd, v)) ==> Pte(m, pd, v) == Pte(m0, pd, v)
    {
      assert !(s <= v < a) ==> Pte(m1, pd, v) == Pte(m0, pd, v);
    }
  }

  /** If none was, what was added is gone again, and nothing else. */
  lemma {:induction false} RolledBack(lo: nat, m0: Memory, free0: seq<nat>, owner0: Owner, m1: Memory, owner1: Owner,
                                      m: Memory, owner: Owner, pd: nat, s: nat, a: nat, e: nat)
    requires Inv(lo, m0, free0, owner0) && IsDir(owner0, pd) && s <= a <= e <= KERNPAGE && Clear(m0, pd, s, e)
    requires Keeps(m0, owner0, m1, owner1, pd) && FreshPages(m0, owner0, m1, pd, s, a)
    requires Shrinks(m1, owner1, m, owner, pd, s, e)
    ensures Keeps(m0, owner0, m, owner, pd)
  {
    hide Pte, Frame, Tables, FreeList, FreshPte;
    assert IsDir(owner1, pd);
    forall f | f in owner0 ensures !InRange(owner0[f], pd, s, e) {
      if owner0[f].User? && owner0[f].pd == pd { assert Present(Pte(m0, pd, owner0[f].v)); }
    }
    forall d, v | IsDir(owner0, d) && d != pd && 0 <= v < NPAGES ensures Pte(m, d, v) == Pte(m0, d, v) {
      assert IsDir(owner1, d);
    }
  }

  // ------------------------------------------------------------ the kernel's part

  /** One entry of the kmap table, in pages. */
  datatype KmapEntry = KmapEntry(virt: nat, start: nat, end: nat, perm: nat)

  function Kmap(data: nat, k: nat): KmapEntry {
    if k == 0 then KmapEntry(KERNPAGE, 0, EXTPAGE, PTE_W)
    else if k == 1 then KmapEntry(KERNPAGE + EXTPAGE, EXTPAGE, data, 0)
    else if k == 2 then KmapEntry(KERNPAGE + data, data, NFRAMES, PTE_W)
    else KmapEntry(DEVPAGE, DEVPAGE, NPAGES, PTE_W)
  }

  /** Range k of kmap in pages: well formed, above KERNBASE, and disjoint from the ranges before it. */
  lemma {:induction false} KmapUnmapped(data: nat, k: nat)
    requires EXTPAGE < data < NFRAMES && k < 4
    ensures var e := Kmap(data, k);
            var va, size, pa := e.virt * PGSIZE, (e.end - e.start) * PGSIZE, e.start * PGSIZE;
            && e.start < e.end && va + size <= WORD_RANGE && pa % PGSIZE == 0 && e.perm < 0x1000
            && va / PGSIZE == e.virt && (va + size - 1) / PGSIZE == e.virt + (e.end - e.start) - 1
            && pa / PGSIZE == e.start
            && e.end <= NPAGES && e.virt + e.end - e.start <= NPAGES
            && UserPages(va / PGSIZE, (va + size - 1) / PGSIZE) == 0
            && forall v :: e.virt <= v < e.virt + (e.end - e.start) ==> KernelPte(data, k, v) == 0
  {
  }

  lemma {:induction false} KernelSlotsNext(data: nat, k: nat)
    requires EXTPAGE < data < NFRAMES && k < 4
    ensures var e := Kmap(data, k);
            && KernelUpTo(data, k + 1) == KernelUpTo(data, k) + Slots(e.virt, e.virt + e.end - e.start)
            && KernelUpTo(data, k + 1) <= KernelSlots()
  {
    hide Slots;
    SlotsJoin(KERNPAGE, KERNPAGE + EXTPAGE, KERNPAGE + data);
    SlotsJoin(KERNPAGE, KERNPAGE + data, KERNPAGE + NFRAMES);
    SlotsJoin(KERNPAGE, KERNPAGE + EXTPAGE, KERNPAGE + NFRAMES);
  }

  /** When range k of the kernel's part cannot be paid for, neither can the whole of it. */
  lemma {:induction false} KernelCannotPay(n0: nat, n: nat, dir: Page, data: nat, k: nat)
    requires EXTPAGE < data < NFRAMES && k < 4 && Spent(n0, ZeroPage(), n, dir, KernelUpTo(data, k), 1)
    requires var e := Kmap(data, k); n < Missing(dir, Slots(e.virt, e.virt + e.end - e.start))
    ensures n0 < KERNFRAMES
  {
    hide KernelUpTo, KernelSlots, Slots, Hooked, Missing, ZeroPage;
    var e := Kmap(data, k);
    KernelSlotsNext(data, k);
    MissingMore(ZeroPage(), dir, KernelUpTo(data, k), Slots(e.virt, e.virt + e.end - e.start));
    MissingMonotone(ZeroPage(), KernelUpTo(data, k + 1), KernelSlots());
    KernelTables();
  }

  lemma {:induction false} KernelSpentNone(n: nat, m: Memory, pd: nat, data: nat)
    requires pd in m && m[pd] == ZeroPage()
    ensures Spent(n + 1, ZeroPage(), n, DirAt(m, pd), KernelUpTo(data, 0), 1)
  {
    hide ZeroPage, Present;
    SpentNone(n, ZeroPage(), 0);
  }

  lemma {:induction false} KernelSpentNext(n0: nat, n: nat, dir: Page, n': nat, dir': Page, data: nat, k: nat)
    requires EXTPAGE < data < NFRAMES && k < 4 && Spent(n0, ZeroPage(), n, dir, KernelUpTo(data, k), 1)
    requires var e := Kmap(data, k); Spent(n, dir, n', dir', Slots(e.virt, e.virt + e.end - e.start), 0)
    ensures Spent(n0, ZeroPage(), n', dir', KernelUpTo(data, k + 1), 1)
  {
    hide KernelUpTo, Slots, Spent, ZeroPage;
    var e := Kmap(data, k);
    KernelSlotsNext(data, k);
    SpentMore(n0, ZeroPage(), n, dir, n', dir', KernelUpTo(data, k), Slots(e.virt, e.virt + e.end - e.start), 1, 0);
  }

  lemma {:induction false} KernelSpentAll(n0: nat, n: nat, dir: Page, data: nat)
    requires Spent(n0, ZeroPage(), n, dir, KernelUpTo(data, 4), 1)
    ensures n0 == n + KERNFRAMES && Hooked(ZeroPage(), dir, KernelSlots())
  {
    hide KernelSlots, Missing, Hooked, ZeroPage;
    KernelTables();
  }

  /** Range k of the kernel's part is unmapped before it is mapped, so only its page tables count. */
  lemma {:induction false} KernelRange(m1: Memory, n1: nat, m: Memory, left: nat, pd: nat, data: nat, k: nat, n: nat,
                                       r: MapResult)
    requires EXTPAGE < data < NFRAMES && k < 4
    requires forall v :: 0 <= v < NPAGES ==> Pte(m1, pd, v) == KernelPte(data, k, v)
    requires var e := Kmap(data, k); Stopped(m1, n1, m, left, pd, e.virt, n, e.virt + (e.end - e.start) - 1, r)
    ensures var e := Kmap(data, k); var slots := Slots(e.virt, e.virt + e.end - e.start);
            && r != Remap && (r == NoMemory <==> n1 < Missing(DirAt(m1, pd), slots))
            && (r == Done ==> n == e.end - e.start && Spent(n1, DirAt(m1, pd), left, DirAt(m, pd), slots, 0))
  {
    hide Pte, Slots, Missing, Spent, DirAt, KernelPte;
    var e := Kmap(data, k);
    KmapUnmapped(data, k);
    StoppedClear(m1, n1, m, left, pd, e.virt, n, e.virt + (e.end - e.start) - 1, r);
  }

  lemma {:induction false} StartKernel(lo: nat, m0: Memory, free0: seq<nat>, owner0: Owner, m: Memory, free: seq<nat>,
                                       owner: Owner, pd: nat, data: nat)
    requires pd !in owner0 && owner == owner0[pd := Other] && m == m0[pd := ZeroPage()] && data < NFRAMES
    requires forall d, v :: IsDir(owner, d) && 0 <= v < NPAGES ==> Pte(m, d, v) == Pte(m0, d, v)
    requires forall v :: 0 <= v < NPAGES ==> Pte(m, pd, v) == 0
    ensures Keeps(m0, owner0, m, owner[pd := Dir], pd)
    ensures forall v :: 0 <= v < NPAGES ==> Pte(m, pd, v) == KernelPte(data, 0, v)
  {
    hide Pte;
    forall d, v | IsDir(owner0, d) && d != pd && 0 <= v < NPAGES ensures Pte(m, d, v) == Pte(m0, d, v) {
      assert IsDir(owner, d);
    }
  }

  lemma {:induction false} KernelNext(data: nat, k: nat, m: Memory, m': Memory, pd: nat, n: nat)
    requires EXTPAGE < data < NFRAMES && k < 4
    requires var e := Kmap(data, k); n == e.end - e.start && MapsRange(m, m', pd, e.virt, n, e.start, e.perm)
    requires forall v :: 0 <= v < NPAGES ==> Pte(m, pd, v) == KernelPte(data, k, v)
    ensures forall v :: 0 <= v < NPAGES ==> Pte(m', pd, v) == KernelPte(data, k + 1, v)
  {
    hide Pte, Entry;
    forall v | 0 <= v < NPAGES ensures Pte(m', pd, v) == KernelPte(data, k + 1, v) {
      assert Pte(m, pd, v) == KernelPte(data, k, v);
    }
  }

  /** The same frames are free as before, every other frame has its use and contents back, and every
      directory maps what it did. */
  ghost predicate Restored(m0: Memory, free0: seq<nat>, owner0: Owner, m: Memory, free: seq<nat>, owner: Owner) {
    && owner == owner0
    && (forall f :: f in free <==> f in free0)
    && (forall f :: f in owner0 && f in m0 ==> f in m && m[f] == m0[f])
    && (forall d, v :: IsDir(owner0, d) && 0 <= v < NPAGES ==> Pte(m, d, v) == Pte(m0, d, v))
  }

  lemma {:induction false} RestoredSelf(m: Memory, free: seq<nat>, owner: Owner)
    ensures Restored(m, free, owner, m, free, owner)
  {
    hide Pte;
  }

  /** Freeing an address space made since m0, owner0 leads back there. */
  lemma {:induction false} GoneRestores(lo: nat, m0: Memory, free0: seq<nat>, owner0: Owner, m1: Memory, owner1: Owner,
                                        m: Memory, free: seq<nat>, owner: Owner, pd: nat)
    requires Inv(lo, m0, free0, owner0) && pd !in owner0 && Keeps(m0, owner0, m1, owner1, pd)
    requires Gone(m1, owner1, m, owner, pd) && Inv(lo, m, free, owner)
    ensures Restored(m0, free0, owner0, m, free, owner)
  {
    hide Pte, Frame, Present;
    forall f | f in owner0 ensures !Belongs(owner0[f], f, pd) {
      if owner0[f].Table? || owner0[f].User? { assert IsDir(owner0, owner0[f].pd); }
    }
    assert owner.Keys == owner0.Keys;
    forall f ensures f in free <==> f in free0 {
      assert f in free ==> Pool(lo, f) && f !in owner;
      assert f in free0 ==> Pool(lo, f) && f !in owner0;
    }
    forall d, v | IsDir(owner0, d) && 0 <= v < NPAGES ensures Pte(m, d, v) == Pte(m0, d, v) {
      assert IsDir(owner, d);
    }
  }

  // ------------------------------------------------------------ copies

  /** The copy's directory, no memory for it, or the panic at a page that is not there. */
  datatype Copy = Copy(dir: nat) | NoCopy | NoPage

  /** k is the first of the first n pages that is not mapped, or n. */
  ghost predicate FirstMissing(m: Memory, pd: nat, n: nat, k: nat) {
    k <= n <= NPAGES && (forall v :: 0 <= v < k ==> Present(Pte(m, pd, v))) && (k < n ==> !Present(Pte(m, pd, k)))
  }

  lemma {:induction false} FindMissing(m: Memory, pd: nat, n: nat) returns (k: nat)
    requires n <= NPAGES
    ensures FirstMissing(m, pd, n, k)
  {
    hide Pte, Present;
    k := 0;
    while k < n && Present(Pte(m, pd, k))
      invariant 0 <= k <= n && forall v :: 0 <= v < k ==> Present(Pte(m, pd, v))
    {
      k := k + 1;
    }
  }

  lemma {:induction false} MissingRange(m: Memory, pd: nat, n: nat, k: nat)
    requires FirstMissing(m, pd, n, k)
    ensures k <= n
  {
  }

  lemma {:induction false} MissingAt(m: Memory, pd: nat, n: nat, k: nat, i: nat)
    requires FirstMissing(m, pd, n, k) && i <= k && i < n
    ensures Present(Pte(m, pd, i)) <==> i < k
  {
    hide Pte, Present;
  }

  ghost predicate CopyOf(m0: Memory, owner0: Owner, w0: Word, m: Memory, w: Word) {
    && Present(w) && Flags(w) == Flags(w0)
    && Frame(w) !in owner0
    && Frame(w0) in m0 && Frame(w) in m && m[Frame(w)] == m0[Frame(w0)]
  }

  /** The first n user pages of d are copies of those of pd, and the rest of d is the kernel's. */
  ghost predicate Copied(m0: Memory, owner0: Owner, m: Memory, pd: nat, d: nat, data: nat, n: nat)
  {
    && data < NFRAMES
    && forall v :: 0 <= v < NPAGES ==>
         if v < n then CopyOf(m0, owner0, Pte(m0, pd, v), m, Pte(m, d, v)) else Pte(m, d, v) == KernelPte(data, 4, v)
  }

  /** The first n pages of d have the rights they have in pd. */
  ghost predicate SameRights(m0: Memory, pd: nat, m: Memory, d: nat, n: nat) {
    forall v :: 0 <= v < n && v < NPAGES ==> RightsOf(m, d, v) == RightsOf(m0, pd, v)
  }

  lemma {:induction false} CopiedRights(lo: nat, m0: Memory, free0: seq<nat>, owner0: Owner, m: Memory, free: seq<nat>,
                                        owner: Owner, pd: nat, d: nat, data: nat, n: nat)
    requires Copied(m0, owner0, m, pd, d, data, n) && Core(lo, m0, free0, owner0) && Core(lo, m, free, owner)
    requires IsDir(owner0, pd) && IsDir(owner, d) && n <= KERNPAGE && EXTPAGE < data
    ensures SameRights(m0, pd, m, d, n) && KernelRights(m, d, data)
  {
    hide Pte, RightsOf, Tables, FreeList, Frame, KernelPte, KernelRights;
    KernelPartRights(lo, m, free, owner, d, data);
    forall v | 0 <= v < n && v < NPAGES ensures RightsOf(m, d, v) == RightsOf(m0, pd, v) {
      RightsAre(lo, m0, owner0, pd, v);
      RightsAre(lo, m, owner, d, v);
      assert CopyOf(m0, owner0, Pte(m0, pd, v), m, Pte(m, d, v));
    }
  }

  lemma {:induction false} CopiedNone(m0: Memory, owner0: Owner, m: Memory, pd: nat, d: nat, data: nat)
    requires data < NFRAMES && forall v :: 0 <= v < NPAGES ==> Pte(m, d, v) == KernelPte(data, 4, v)
    ensures Copied(m0, owner0, m, pd, d, data, 0)
  {
    hide Pte;
  }

  lemma {:induction false} ParentKept(lo: nat, m0: Memory, free0: seq<nat>, owner0: Owner, m: Memory, owner: Owner,
                                      pd: nat, d: nat, v: nat)
    requires Inv(lo, m0, free0, owner0) && IsDir(owner0, pd) && d !in owner0 && Keeps(m0, owner0, m, owner, d)
    requires v < KERNPAGE
    ensures Pte(m, pd, v) == Pte(m0, pd, v) && IsDir(owner, pd)
    ensures var f := Frame(Pte(m0, pd, v)); Present(Pte(m0, pd, v)) ==> f in m0 && f in m && m[f] == m0[f]
  {
    hide Pte, Frame, Present;
    if Present(Pte(m0, pd, v)) {
      assert owner0[Frame(Pte(m0, pd, v))] == User(pd, v);
    }
  }

  lemma {:induction false} NotYetCopied(m0: Memory, owner0: Owner, m: Memory, pd: nat, d: nat, data: nat, n: nat)
    requires Copied(m0, owner0, m, pd, d, data, n) && n < KERNPAGE
    ensures !Present(Pte(m, d, n))
  {
    hide Pte;
  }

  lemma {:induction false} KeepsUnspare(lo: nat, m0: Memory, owner0: Owner, m1: Memory, free1: seq<nat>,
                                        owner1: Owner, m2: Memory, free2: seq<nat>, owner2: Owner,
                                        m: Memory, owner: Owner, d: nat, f: nat)
    requires Keeps(m0, owner0, m1, owner1, d) && IsDir(owner1, d) && f !in owner1 && owner2 == owner1[f := Other]
    requires Inv(lo, m1, free1, owner1) && Inv(lo, m2, free2, owner2) && f in m2 && m2 == m1[f := m2[f]]
    requires m == m2[f := Junk()] && owner == owner2 - {f} && SameMaps(m2, owner2, m)
    ensures Keeps(m0, owner0, m, owner, d) && IsDir(owner, d)
  {
    hide Pte, Core, Users;
    FreeFramesExist(lo, m1, free1, owner1, m2, free2, owner2, f);
    SpareInvisible(lo, m1, owner1, m2, free2, owner2, f);
    assert owner == owner1;
    forall x, v | IsDir(owner0, x) && x != d && 0 <= v < NPAGES ensures Pte(m, x, v) == Pte(m0, x, v) {
      assert IsDir(owner1, x) && IsDir(owner2, x);
    }
  }

  lemma {:induction false} CopiedNext(lo: nat, m0: Memory, owner0: Owner, m: Memory, free: seq<nat>, owner: Owner,
                                      m': Memory, owner': Owner,
                                      pd: nat, d: nat, data: nat, i: nat, f: nat, pte: Word)
    requires Copied(m0, owner0, m, pd, d, data, i) && Keeps(m0, owner0, m, owner, d) && Keeps(m, owner, m', owner', d)
    requires Inv(lo, m, free, owner) && IsDir(owner, d) && i < KERNPAGE
    requires pte == Pte(m0, pd, i) && Present(pte) && Frame(pte) in m0 && f !in owner && f < NPAGES && f in m'
    requires m'[f] == m0[Frame(pte)]
    requires forall u :: 0 <= u < NPAGES ==>
               Pte(m', d, u) == if u == i then Entry(f, OrPresent(Flags(pte))) else Pte(m, d, u)
    ensures Copied(m0, owner0, m', pd, d, data, i + 1)
  {
    FlagsRange(pte);
    OrPresentOdd(f, Flags(pte));
    hide Pte, Tables, FreeList, Frame, Present, KernelPte;
    forall v | 0 <= v < NPAGES
      ensures if v < i + 1 then CopyOf(m0, owner0, Pte(m0, pd, v), m', Pte(m', d, v))
              else Pte(m', d, v) == KernelPte(data, 4, v)
    {
      if v < i {
        assert CopyOf(m0, owner0, Pte(m0, pd, v), m, Pte(m, d, v));
        assert owner[Frame(Pte(m, d, v))] == User(d, v);
      }
    }
  }

  // ------------------------------------------------------------ process size

  /** User memory is mapped exactly up to sz. */
  ghost predicate Exactly(m: Memory, pd: nat, sz: nat) {
    forall v :: 0 <= v < KERNPAGE ==> (Present(Pte(m, pd, v)) <==> v < PgRoundUp(sz))
  }

  lemma {:induction false} ExactlyGrown(m0: Memory, owner0: Owner, m: Memory, pd: nat, sz: nat, newsz: nat, k: nat)
    requires Exactly(m0, pd, sz) && sz <= newsz
    ensures var s, e := PgRoundUp(sz), PgRoundUp(newsz);
            && (newsz < KERNBASE && FirstMapped(m0, pd, s, e, k) ==> k == e && PaidTo(e, k) == e)
            && (newsz < KERNBASE && FreshPages(m0, owner0, m, pd, s, e) ==> Exactly(m, pd, newsz))
            && (newsz < KERNBASE && Unmapped(m0, m, pd, s, e) ==> Exactly(m, pd, sz))
  {
    hide Pte, PgRoundUp;
    PgRoundUpOrder(sz, newsz);
    PgRoundUpOrder(newsz, KERNBASE);
    if FreshPages(m0, owner0, m, pd, PgRoundUp(sz), PgRoundUp(newsz)) {
      forall v | 0 <= v < KERNPAGE ensures Present(Pte(m, pd, v)) <==> v < PgRoundUp(newsz) {
        assert Present(Pte(m0, pd, v)) <==> v < PgRoundUp(sz);
      }
    }
    if Unmapped(m0, m, pd, PgRoundUp(sz), PgRoundUp(newsz)) {
      forall v | 0 <= v < KERNPAGE ensures Present(Pte(m, pd, v)) <==> v < PgRoundUp(sz) {
        assert Present(Pte(m0, pd, v)) <==> v < PgRoundUp(sz);
      }
    }
  }

  lemma {:induction false} ExactlyShrunk(m0: Memory, owner0: Owner, m: Memory, owner: Owner, pd: nat, sz: nat,
                                         newsz: nat)
    requires Exactly(m0, pd, sz) && IsDir(owner0, pd) && sz < KERNBASE
    requires Shrinks(m0, owner0, m, owner, pd, PgRoundUp(newsz), PgRoundUp(sz))
    ensures Exactly(m, pd, if newsz >= sz then sz else newsz)
    ensures newsz == 0 < sz ==> !Exactly(m, pd, sz)
  {
    hide Pte;
    PgRoundUpOrder(newsz, sz);
    PgRoundUpOrder(sz, KERNBASE);
    hide PgRoundUp;
    var to := if newsz >= sz then sz else newsz;
    forall v | 0 <= v < KERNPAGE ensures Present(Pte(m, pd, v)) <==> v < PgRoundUp(to) {
      assert Present(Pte(m0, pd, v)) <==> v < PgRoundUp(sz);
    }
    if newsz == 0 < sz {
      FirstPage(sz);
      assert !Present(Pte(m, pd, 0));
    }
  }
}
