/** vm.c and kalloc.c: page tables written in place, frames taken from and returned to the free list. */
module Vm {
  import opened Params
  import opened PageTable
  import opened PageCount
  import opened VmSpec

  class Machine {
    const lo: nat                // first frame after the kernel
    const dataPage: nat          // first page of the kernel's writable data
    var m: Memory
    var free: seq<nat>           // kmem.freelist
    ghost var owner: Owner

    /** The first free frame, or 0. */
    method Kalloc() returns (f: nat)
      requires Core(lo, m, free, owner)
      modifies this`free, this`owner
      ensures old(free) == [] ==> f == 0 && free == old(free) && owner == old(owner)
      ensures old(free) != [] ==>
                && f == old(free)[0] && 0 < f < NFRAMES && free == old(free)[1..]
                && f !in old(owner) && owner == old(owner)[f := Other]
      ensures Core(lo, m, free, owner) && (old(Users(m, owner)) ==> Users(m, owner))
    {
      hide Tables, Users, FreeList;
      if free == [] {
        return 0;
      }
      Take(lo, m, free, owner);
      f := free[0];
      free := free[1..];
      owner := owner[f := Other];
    }

    /** Fill a frame with junk and put it at the head of the free list; a frame outside the pool panics. */
    method Kfree(f: nat)
      requires Pool(lo, f)
      modifies this
      ensures m == old(m)[f := Junk()] && free == [f] + old(free) && owner == old(owner) - {f}
    {
      m := m[f := Junk()];
      free := [f] + free;
      owner := owner - {f};
    }

    /** freerange: kfree each frame from a to b, so that the last one freed is the first on the list. */
    method Freerange(a: nat, b: nat)
      requires lo <= a <= b <= NFRAMES
      modifies this
      ensures free == Descending(a, b) + old(free) && forall f :: f in owner <==> f in old(owner) && !(a <= f < b)
      ensures forall f :: f in owner ==> owner[f] == old(owner)[f]
      ensures forall f :: f in m <==> f in old(m) || a <= f < b
    {
      var p := a;
      while p < b
        invariant a <= p <= b
        invariant free == Descending(a, p) + old(free) && forall f :: f in owner <==> f in old(owner) && !(a <= f < p)
        invariant forall f :: f in owner ==> owner[f] == old(owner)[f]
        invariant forall f :: f in m <==> f in old(m) || a <= f < p
      {
        Kfree(p);
        p := p + 1;
      }
    }

    /** kinit: every frame from the end of the kernel to PHYSTOP is free. */
    constructor (lo: nat, dataPage: nat)
      requires 0 < lo <= NFRAMES
      ensures this.lo == lo && this.dataPage == dataPage && owner == map[]
      ensures Inv(this.lo, m, free, owner)
    {
      this.lo := lo;
      this.dataPage := dataPage;
      m := map[];
      free := [];
      owner := map[];
      new;
      Freerange(lo, NFRAMES);
      DescendingHas(lo, NFRAMES);
    }

    /** The page table holding the entry of page v, made if `alloc`; 0 if there is none. */
    method WalkPgdir(pd: nat, v: nat, alloc: bool) returns (t: nat)
      requires Core(lo, m, free, owner) && IsDir(owner, pd) && v < NPAGES
      modifies this
      ensures Core(lo, m, free, owner) && IsDir(owner, pd) && pd in m
      ensures old(Users(m, owner)) ==> Users(m, owner)
      ensures Extends(old(m), old(owner), m, owner, pd)
      ensures SameMaps(old(m), old(owner), m)
      ensures forall f :: f in old(owner) ==> f in owner && owner[f] == old(owner)[f]
      ensures t != 0 ==> Present(m[pd][v / NENTRIES]) && Open(m[pd][v / NENTRIES]) && t == TableOf(m, pd, v)
      ensures t == 0 ==>
                && !Present(m[pd][v / NENTRIES]) && (alloc ==> free == [])
                && m == old(m) && free == old(free) && owner == old(owner)
      ensures !alloc || Present(DirAt(old(m), pd)[v / NENTRIES]) ==>
                m == old(m) && free == old(free) && owner == old(owner)
      ensures t != 0 && alloc ==>
                Spent(|old(free)|, DirAt(old(m), pd), |free|, DirAt(m, pd), Slots(v, v + 1), 0)
    {
      hide Tables, Users, FreeList, Pte, Frame, Open, Extends, Spent, Slots;
      DirFrame(lo, m, free, owner, pd, v);
      ExtendsSelf(m, owner, pd);
      var i := v / NENTRIES;
      if Present(m[pd][i]) {
        WalkOpen(lo, m, free, owner, pd, i);
        SpentPage(|free|, m[pd], |free|, m[pd], v);
        return Frame(m[pd][i]);
      }
      if !alloc {
        return 0;
      }
      t := Kalloc();
      if t == 0 {
        return 0;
      }
      m := m[t := ZeroPage()];
      MadeTable(lo, old(m), old(owner), m, free, owner, pd, i, t);
      m := m[pd := m[pd][i := Entry(t, PTE_P + PTE_W + PTE_U)]];
      owner := owner[t := Table(pd, i)];
      WalkOpen(lo, m, free, owner, pd, i);
      SpentPage(|old(free)|, old(m)[pd], |free|, m[pd], v);
    }

    /** One turn of mappages' loop: find or make the page table, store the entry. Nothing changes if there
        is no memory for a page table or the page is mapped already. */
    method MapPage(pd: nat, v: nat, p: nat, perm: nat) returns (r: MapResult)
      requires Core(lo, m, free, owner) && IsDir(owner, pd) && v < NPAGES && p < NPAGES && perm < 0x1000
      modifies this
      ensures Core(lo, m, free, owner) && IsDir(owner, pd)
      ensures old(Users(m, owner)) && (v < KERNPAGE ==> SpareAt(old(owner), v, p)) ==> Users(m, owner)
      ensures r == Remap <==> Present(Pte(old(m), pd, v))
      ensures r == NoMemory <==> |old(free)| < Missing(DirAt(old(m), pd), Slots(v, v + 1))
      ensures r != Done ==> m == old(m) && owner == old(owner) && free == old(free)
      ensures r == Done ==> OneMapped(old(m), old(owner), m, owner, pd, v, p, perm)
      ensures r == Done ==> Spent(|old(free)|, DirAt(old(m), pd), |free|, DirAt(m, pd), Slots(v, v + 1), 0)
    {
      hide Core, Users, Pte, Frame, Extends, Present, OrPresent, Slots, Missing, Hooked;
      MappedHasTable(lo, m, free, owner, pd, v);
      OneSlot(DirAt(m, pd), v);
      var t := WalkPgdir(pd, v, true);
      if t == 0 {
        return NoMemory;
      }
      PteAt(lo, m, free, owner, pd, v);
      if Present(m[t][v % NENTRIES]) {
        return Remap;
      }
      ghost var m1, owner1 := m, owner;
      var w := Entry(p, OrPresent(perm));
      OrPresentOdd(p, perm);
      MapOne(lo, m, free, owner, pd, v, w);
      m := m[t := m[t][v % NENTRIES := w]];
      owner := Taken(owner, pd, v, p);
      ExtendsTrans(old(m), old(owner), m1, owner1, m, owner, pd);
      return Done;
    }

    /** mappages' loop, from page v0 to page last. */
    method MapRange(pd: nat, v0: nat, last: nat, p0: nat, perm: nat) returns (r: MapResult, ghost n: nat)
      requires Core(lo, m, free, owner) && IsDir(owner, pd)
      requires v0 <= last < NPAGES && p0 + last - v0 < NPAGES && perm < 0x1000
      modifies this
      ensures Core(lo, m, free, owner) && IsDir(owner, pd)
      ensures old(Users(m, owner)) && Spare(old(owner), p0, p0 + UserPages(v0, last)) ==> Users(m, owner)
      ensures Stopped(old(m), |old(free)|, m, |free|, pd, v0, n, last, r)
      ensures Extends(old(m), old(owner), m, owner, pd) && MapsRange(old(m), m, pd, v0, n, p0, perm)
      ensures n == 0 ==> m == old(m) && free == old(free) && owner == old(owner)
      ensures UsesKept(old(owner), owner, p0, p0 + n) && UsesKept(old(owner), owner, p0, p0 + UserPages(v0, last))
    {
      hide Core, Users, Pte, Frame, Extends, Present, Spare, Entry, UserPages, Mapping, MapsRange, UsesKept, OneMapped;
      hide Passed, Spent, Slots, Missing;
      MappingStart(m, owner, pd, v0, p0, perm, last);
      PassedNone(m, |free|, pd, v0);
      var a, p := v0, p0;
      n := 0;
      while true
        invariant a == v0 + n <= last && p == p0 + n
        invariant Core(lo, m, free, owner) && IsDir(owner, pd)
        invariant Mapping(old(m), old(owner), m, owner, pd, v0, n, p0, perm, last)
        invariant Passed(old(m), |old(free)|, m, |free|, pd, v0, n)
        invariant n == 0 ==> m == old(m) && free == old(free) && owner == old(owner)
        decreases last - a
      {
        ghost var m1, owner1, n1 := m, owner, |free|;
        MappingAt(old(m), old(owner), m, owner, pd, v0, n, p0, perm, last);
        r := MapPage(pd, a, p, perm);
        if r == NoMemory {
          PassedShort(old(m), |old(free)|, m, |free|, pd, v0, n);
        }
        if r != Done {
          return;
        }
        MappingNext(old(m), old(owner), m1, owner1, m, owner, pd, v0, n, p0, perm, last);
        PassedNext(old(m), |old(free)|, m1, n1, m, |free|, pd, v0, n);
        n := n + 1;
        if a == last {
          MappingDone(old(m), old(owner), m, owner, pd, v0, n, p0, perm, last);
          return Done, n;
        }
        a := (a + 1) % NPAGES;
        p := (p + 1) % NPAGES;
      }
    }

    /** mappages over whole pages: n pages of the range are mapped when it stops, all of them unless memory
        ran out or a page of the range is mapped already, which panics. */
    method MapPages(pd: nat, va: nat, size: nat, pa: nat, perm: nat) returns (r: MapResult, ghost n: nat)
      requires Core(lo, m, free, owner) && IsDir(owner, pd)
      requires 0 < size && va + size <= WORD_RANGE && pa % PGSIZE == 0 && perm < 0x1000
      requires pa / PGSIZE + (va + size - 1) / PGSIZE - va / PGSIZE < NPAGES
      modifies this
      ensures Core(lo, m, free, owner) && IsDir(owner, pd)
      ensures && old(Users(m, owner))
              && Spare(old(owner), pa / PGSIZE, pa / PGSIZE + UserPages(va / PGSIZE, (va + size - 1) / PGSIZE))
              ==> Users(m, owner)
      ensures Stopped(old(m), |old(free)|, m, |free|, pd, va / PGSIZE, n, (va + size - 1) / PGSIZE, r)
      ensures Extends(old(m), old(owner), m, owner, pd)
      ensures MapsRange(old(m), m, pd, va / PGSIZE, n, pa / PGSIZE, perm)
      ensures n == 0 ==> m == old(m) && free == old(free) && owner == old(owner)
      ensures UsesKept(old(owner), owner, pa / PGSIZE, pa / PGSIZE + n)
      ensures UsesKept(old(owner), owner, pa / PGSIZE,
                       pa / PGSIZE + UserPages(va / PGSIZE, (va + size - 1) / PGSIZE))
    {
      hide Core, Users, Pte, Extends, MapsRange, Spare, UserPages, UsesKept, Stopped;
      var a := va / PGSIZE;
      var last := (va + size - 1) % WORD_RANGE / PGSIZE;
      r, n := MapRange(pd, a, last, pa / PGSIZE, perm);
    }

    /** One turn of deallocuvm's loop at page a. Kernel pages are not freed here: the turn ends in kfree's or
        deallocuvm's panic, or where kfree would take a frame that is not the page's own. */
    method FreeStep(pd: nat, a: nat, ghost m0: Memory, ghost owner0: Owner, ghost start: nat, ghost end: nat)
      returns (r: Turn)
      requires Inv(lo, m, free, owner) && IsDir(owner, pd) && start <= a < NPAGES && end <= KERNPAGE
      requires (a < end || KERNPAGE <= a) && Shrinks(m0, owner0, m, owner, pd, start, Min(a, end))
      modifies this
      ensures Inv(lo, m, free, owner) && IsDir(owner, pd)
      ensures r.Stop? <==> KERNPAGE <= a && Present(Pte(old(m), pd, a))
      ensures r.Stop? ==> r.r == KernelFree(lo, Frame(Pte(old(m), pd, a)))
      ensures r.Next? ==> a < r.b <= (a / NENTRIES + 1) * NENTRIES
      ensures Shrinks(m0, owner0, m, owner, pd, start, if r.Next? then Min(r.b, end) else Min(a, end))
    {
      hide Users, Pte, Shrinks, Extends, SameMaps, TableOf, Present, Frame, Tables, FreeList;
      var t := WalkPgdir(pd, a, false);
      PteWalk(lo, m, free, owner, pd, a, t);
      if t == 0 {
        var b := (a / NENTRIES + 1) * NENTRIES;
        if a < end {
          MissingTable(m, pd, a, Min(b, end));
          ShrinksSkip(lo, m0, owner0, m, free, owner, pd, start, a, Min(b, end));
        }
        return Next(b);
      }
      var pte := m[t][a % NENTRIES];
      if Present(pte) {
        var f := Frame(pte);
        UserFrame(lo, m, free, owner, pd, a);
        if f == 0 || !Pool(lo, f) {
          assert f == 0 ==> !Pool(lo, f) by { PoolPositive(lo, m, free, owner); }
          return Stop(BadFree);
        }
        if KERNPAGE <= a {
          return Stop(Foreign);
        }
        UnmapUser(lo, m, free, owner, pd, a, Junk());
        ghost var m1, owner1, free1 := m, owner, free;
        Kfree(f);
        UnmapTable(lo, m1, free1, owner1, pd, a, f);
        m := m[t := m[t][a % NENTRIES := 0]];
        ShrinksNext(lo, m0, owner0, m1, free1, owner1, m, owner, pd, start, a);
      } else if a < end {
        ShrinksSkip(lo, m0, owner0, m, free, owner, pd, start, a, a + 1);
      }
      return Next(a + 1);
    }

    /** deallocuvm: the pages from newsz rounded up to oldsz are unmapped and their frames freed. The
        cursor skips 4 MB at a time where a page table is missing. Above KERNBASE the kernel's pages decide how
        it ends; what the model calls Foreign is where it would free a frame that the page does not own. */
    method Deallocuvm(pd: nat, oldsz: nat, newsz: nat) returns (r: Freed)
      requires Inv(lo, m, free, owner) && IsDir(owner, pd) && oldsz < WORD_RANGE
      requires oldsz > KERNBASE ==> KernelPart(m, pd, dataPage) && EXTPAGE < dataPage
      modifies this
      ensures r == FreeFate(lo, oldsz, newsz)
      ensures Inv(lo, m, free, owner) && IsDir(owner, pd)
      ensures Shrinks(old(m), old(owner), m, owner, pd, FreeStart(newsz, oldsz), Min(PgRoundUp(oldsz), KERNPAGE))
    {
      hide Core, Users, Pte, Shrinks, PgRoundUp, KernelPart, Frame, Present;
      PgRoundUpOrder(oldsz, newsz);
      ghost var last := PgRoundUp(oldsz);
      ghost var end := Min(last, KERNPAGE);
      if newsz >= oldsz {
        ShrinksNone(m, owner, pd, PgRoundUp(newsz), end);
        return Size(oldsz);
      }
      var start := PgRoundUp(newsz) % NPAGES;
      var a := start;
      if start >= end {
        ShrinksNone(m, owner, pd, start, end);
      } else {
        ShrinksNone(m, owner, pd, start, start);
      }
      LastPage(oldsz);
      while a * PGSIZE < oldsz
        invariant start <= a && (a == start || a <= KERNPAGE || (KERNPAGE + NFRAMES <= start && a <= DEVPAGE))
        invariant Inv(lo, m, free, owner) && IsDir(owner, pd)
        invariant Shrinks(old(m), old(owner), m, owner, pd, start, Min(a, end))
        decreases oldsz - a * PGSIZE
      {
        PgRoundUpCursor(a, oldsz);
        if KERNPAGE <= a {
          KernelPartKept(old(m), old(owner), m, owner, pd, dataPage, start, Min(a, end));
          PoolPositive(lo, m, free, owner);
          KernelPageAt(m, pd, dataPage, lo, a);
        }
        var turn := FreeStep(pd, a, old(m), old(owner), start, end);
        if turn.Stop? {
          return turn.r;
        }
        a := turn.b;
      }
      PgRoundUpCursor(a, oldsz);
      return Size(newsz);
    }

    /** freevm: every frame of the address space goes back to the free list; nothing else changes. */
    method Freevm(pd: nat)
      requires Inv(lo, m, free, owner) && IsDir(owner, pd)
      modifies this
      ensures Inv(lo, m, free, owner)
      ensures Gone(old(m), old(owner), m, owner, pd)
      ensures forall f :: f in old(owner) && Belongs(old(owner)[f], f, pd) ==> f in free
    {
      hide Core, Users, Pte, Frame, Shrinks, Gone, Remaining, Pool;
      FreeFateLow(lo, KERNBASE, 0);
      var r := Deallocuvm(pd, KERNBASE, 0);
      ghost var m1, owner1, free1 := m, owner, free;
      NoUsersLeft(lo, old(m), old(owner), m, free, owner, pd);
      Retire(lo, m, free, owner, pd);
      owner := Remaining(owner, pd, 0);
      DirRemains(lo, m1, free1, owner1, pd, 0);
      var i := 0;
      while i < NENTRIES
        invariant 0 <= i <= NENTRIES
        invariant Inv(lo, m, free, owner) && owner == Remaining(owner1, pd, i) && pd in owner && owner[pd] == Other
        invariant m.Keys == m1.Keys && pd in m && forall f :: f in owner && f in m ==> m[f] == m1[f]
      {
        RemainingStep(lo, m1, free1, owner1, pd, i);
        if Present(m[pd][i]) {
          var f := Frame(m[pd][i]);
          Give(lo, m, free, owner, f, Junk());
          OwnedInPool(lo, m, free, owner, f);
          Kfree(f);
        }
        i := i + 1;
      }
      Give(lo, m, free, owner, pd, Junk());
      OwnedInPool(lo, m, free, owner, pd);
      Kfree(pd);
      AllGone(lo, old(m), old(free), old(owner), m1, free1, owner1, m, owner, pd);
      BackOnList(lo, old(m), old(free), old(owner), m, free, owner, pd);
    }

    /** freevm of a directory made since m0, owner0: that state is back. */
    method FreeNew(pd: nat, ghost m0: Memory, ghost free0: seq<nat>, ghost owner0: Owner)
      requires Inv(lo, m, free, owner) && IsDir(owner, pd) && pd !in owner0
      requires Inv(lo, m0, free0, owner0) && Keeps(m0, owner0, m, owner, pd)
      modifies this
      ensures Inv(lo, m, free, owner) && Restored(m0, free0, owner0, m, free, owner)
    {
      hide Core, Users, Pte, Keeps, Restored, Gone;
      ghost var m1, owner1 := m, owner;
      Freevm(pd);
      GoneRestores(lo, m0, free0, owner0, m1, owner1, m, free, owner, pd);
    }

    /** Take a frame, fill it, map it at user page v: the common part of allocuvm and copyuvm. */
    method AddPage(pd: nat, v: nat, contents: Page, flags: nat) returns (st: Added, f: nat)
      requires Inv(lo, m, free, owner) && IsDir(owner, pd) && v < KERNPAGE && flags < 0x1000
      modifies this
      ensures Inv(lo, m, free, owner) && IsDir(owner, pd)
      ensures st == NoFrame ==> m == old(m) && free == old(free) && owner == old(owner)
      ensures st == NoFrame || st == NoTable <==> |old(free)| < 1 + Missing(DirAt(old(m), pd), Slots(v, v + 1))
      ensures st == Mapped ==> !Present(Pte(old(m), pd, v))
      ensures st == InUse ==> Present(Pte(old(m), pd, v))
      ensures st == Mapped ==> Spent(|old(free)|, DirAt(old(m), pd), |free|, DirAt(m, pd), Slots(v, v + 1), 1)
      ensures st != NoFrame ==> f !in old(owner) && f in owner && f in m && m[f] == contents
      ensures st == NoTable ==> owner[f] == Other && owner == old(owner)[f := Other] && m == old(m)[f := contents]
      ensures st == Mapped ==> f < NPAGES && Keeps(old(m), old(owner), m, owner, pd)
      ensures st == Mapped ==> forall u :: 0 <= u < NPAGES ==>
                Pte(m, pd, u) == if u == v then Entry(f, OrPresent(flags)) else Pte(old(m), pd, u)
    {
      hide Core, Users, Pte, Frame, Extends, Present, Keeps, OrPresent, Entry, MapsRange, UsesKept, Slots, Missing;
      hide Hooked;
      hide Stopped, Clear;
      OwnedInPool(lo, m, free, owner, pd);
      f := Kalloc();
      if f == 0 {
        return NoFrame, 0;
      }
      ghost var owner1 := owner;
      FilledFrame(lo, m, free, old(owner), owner, f, contents);
      m := m[f := contents];
      ghost var m1 := m;
      PageMath(v, f);
      ghost var free1 := free;
      var r, n := MapPages(pd, v * PGSIZE, PGSIZE, f * PGSIZE, flags);
      OnePage(lo, old(m), m1, free1, owner1, m, |free|, pd, v, n, r);
      if r == Remap {
        return InUse, f;
      }
      if r == NoMemory {
        return NoTable, f;
      }
      AddedPage(lo, old(m), old(owner), m1, owner1, m, free, owner, pd, v, f, flags);
      return Mapped, f;
    }

    /** allocuvm: fresh zeroed pages from oldsz rounded up to newsz; when memory runs out, none of these pages;
        or mappages' panic at the first page that is mapped already, k. */
    method Allocuvm(pd: nat, oldsz: nat, newsz: nat) returns (r: Grown, ghost k: nat)
      requires Inv(lo, m, free, owner) && IsDir(owner, pd)
      modifies this
      ensures Inv(lo, m, free, owner) && IsDir(owner, pd)
      ensures newsz >= KERNBASE ==> r == Grown(0) && m == old(m) && free == old(free) && owner == old(owner)
      ensures newsz < KERNBASE && newsz < oldsz ==>
                r == Grown(oldsz) && m == old(m) && free == old(free) && owner == old(owner)
      ensures oldsz <= newsz < KERNBASE ==>
                var s, e := PgRoundUp(oldsz), PgRoundUp(newsz);
                var need := Cost(DirAt(old(m), pd), s, PaidTo(e, k));
                && FirstMapped(old(m), pd, s, e, k)
                && r == (if |old(free)| < need then Grown(0) else if k < e then Remapped else Grown(newsz))
                && (k == e ==> Keeps(old(m), old(owner), m, owner, pd))
                && (|old(free)| < need ==> Unmapped(old(m), m, pd, s, e))
                && (r == Grown(newsz) && |old(free)| >= need ==>
                    && FreshPages(old(m), old(owner), m, pd, s, e) && UserWritable(m, pd, s, e)
                    && |old(free)| == |free| + need)
    {
      hide Core, Users, Pte, Keeps, FreshPages, UserWritable, PgRoundUp, Shrinks, OrPresent, Entry, Unmapped;
      hide FirstMapped, Spent, Missing, Slots, DirAt, Present, Clear;
      KeepsSelf(m, owner, pd);
      PgRoundUpOrder(oldsz, newsz);
      k := 0;
      if newsz >= KERNBASE {
        return Grown(0), k;
      }
      if newsz < oldsz {
        return Grown(oldsz), k;
      }
      ghost var start := PgRoundUp(oldsz);
      ghost var end := PgRoundUp(newsz);
      k := FindMapped(m, pd, start, end);
      FirstRange(m, pd, start, end, k);
      var a := PgRoundUp(oldsz);
      FreshNone(m, owner, pd, start);
      SpentNone(|free|, DirAt(m, pd), start);
      while a * PGSIZE < newsz
        invariant start <= a <= k
        invariant Inv(lo, m, free, owner) && IsDir(owner, pd)
        invariant Keeps(old(m), old(owner), m, owner, pd)
        invariant FreshPages(old(m), old(owner), m, pd, start, a)
        invariant Spent(|old(free)|, DirAt(old(m), pd), |free|, DirAt(m, pd), Slots(start, a), a - start)
        decreases newsz - a * PGSIZE
      {
        PgRoundUpCursor(a, newsz);
        ghost var m1, owner1, free1 := m, owner, free;
        FreshUnmapped(old(m), old(owner), m, pd, start, a, a);
        FirstUnmapped(old(m), pd, start, end, k, a);
        var st, f := AddPage(pd, a, ZeroPage(), PTE_W + PTE_U);
        if st == InUse {
          CanPay(|old(free)|, DirAt(old(m), pd), |free1|, DirAt(m1, pd), start, a, a - start, 1);
          return Remapped, k;
        }
        if st != Mapped {
          CannotPay(|old(free)|, DirAt(old(m), pd), |free1|, DirAt(m1, pd), start, a, PaidTo(end, k), a - start, 1);
          ghost var m2, owner2, free2 := m, owner, free;
          FreeFateLow(lo, newsz, oldsz);
          var x := Deallocuvm(pd, newsz, oldsz);
          if st == NoTable {
            ghost var m3, owner3 := m, owner;
            SpareSurvives(m2, owner2, m, owner, pd, start, end, f);
            Give(lo, m, free, owner, f, Junk());
            OwnedInPool(lo, m, free, owner, f);
            Kfree(f);
            ShrinksSpare(lo, m1, free1, owner1, m2, free2, owner2, m3, owner3, m, owner, pd, start, end, f);
          }
          RangeGone(old(m), old(owner), m1, owner1, m, owner, pd, start, a, end);
          if k == end {
            RolledBack(lo, old(m), old(free), old(owner), m1, owner1, m, owner, pd, start, a, end);
          }
          return Grown(0), k;
        }
        KeepsTrans(old(m), old(owner), m1, owner1, m, owner, pd);
        FreshNext(lo, old(m), old(owner), m1, free1, owner1, m, owner, pd, start, a, f);
        SpentNext(|old(free)|, DirAt(old(m), pd), |free1|, DirAt(m1, pd), |free|, DirAt(m, pd), start, a, a + 1,
                  a - start, 1);
        a := a + 1;
      }
      PgRoundUpCursor(a, newsz);
      FreshWritable(lo, old(m), old(owner), m, free, owner, pd, start, end);
      SpentExactly(|old(free)|, DirAt(old(m), pd), |free|, DirAt(m, pd), start, end);
      return Grown(newsz), k;
    }

    /** setupkvm: a directory with exactly the kernel mappings, or 0 with every frame given back. */
    method Setupkvm() returns (pd: nat)
      requires Inv(lo, m, free, owner) && 0x100 < dataPage < NFRAMES
      modifies this
      ensures Inv(lo, m, free, owner)
      ensures pd != 0 ==> pd !in old(owner) && IsDir(owner, pd) && Keeps(old(m), old(owner), m, owner, pd)
      ensures pd != 0 ==> forall v :: 0 <= v < NPAGES ==> Pte(m, pd, v) == KernelPte(dataPage, 4, v)
      ensures pd != 0 ==> KernelRights(m, pd, dataPage)
      ensures pd == 0 <==> |old(free)| < KERNFRAMES
      ensures pd == 0 ==> Restored(old(m), old(free), old(owner), m, free, owner)
      ensures pd != 0 ==> |old(free)| == |free| + KERNFRAMES && Hooked(ZeroPage(), DirAt(m, pd), KernelSlots())
    {
      hide Core, Users, Pte, Keeps, Restored, Gone, Extends, MapsRange, UsesKept, Spare, Kmap, KernelPte;
      hide Spent, Missing, Hooked, KernelUpTo, Slots, Stopped, DirAt, KernelRights;
      pd := Kalloc();
      if pd == 0 {
        RestoredSelf(m, free, owner);
        return;
      }
      FilledFrame(lo, m, free, old(owner), owner, pd, ZeroPage());
      m := m[pd := ZeroPage()];
      NewDir(lo, m, free, owner, pd);
      StartKernel(lo, old(m), old(free), old(owner), m, free, owner, pd, dataPage);
      owner := owner[pd := Dir];
      KernelSpentNone(|free|, m, pd, dataPage);
      var k := 0;
      while k < 4
        invariant 0 <= k <= 4
        invariant Inv(lo, m, free, owner) && IsDir(owner, pd) && Keeps(old(m), old(owner), m, owner, pd)
        invariant forall v :: 0 <= v < NPAGES ==> Pte(m, pd, v) == KernelPte(dataPage, k, v)
        invariant Spent(|old(free)|, ZeroPage(), |free|, DirAt(m, pd), KernelUpTo(dataPage, k), 1)
      {
        ghost var m1, owner1, n1 := m, owner, |free|;
        var e := Kmap(dataPage, k);
        KmapUnmapped(dataPage, k);
        SpareNone(owner, e.start);
        var r, n := MapPages(pd, e.virt * PGSIZE, (e.end - e.start) * PGSIZE, e.start * PGSIZE, e.perm);
        KeepsMapped(old(m), old(owner), m1, owner1, m, owner, pd, e.start);
        KernelRange(m1, n1, m, |free|, pd, dataPage, k, n, r);
        if r == NoMemory {
          KernelCannotPay(|old(free)|, n1, DirAt(m1, pd), dataPage, k);
          FreeNew(pd, old(m), old(free), old(owner));
          return 0;
        }
        KernelSpentNext(|old(free)|, n1, DirAt(m1, pd), |free|, DirAt(m, pd), dataPage, k);
        KernelNext(dataPage, k, m1, m, pd, n);
        k := k + 1;
      }
      KernelSpentAll(|old(free)|, |free|, DirAt(m, pd), dataPage);
      KernelPartRights(lo, m, free, owner, pd, dataPage);
    }

    /** copyuvm: a directory whose user pages are copies of the first pages of pd, same flags, frames of its
        own; no copy, with every frame given back; or the panic at the first page that is missing, k. */
    method Copyuvm(pd: nat, sz: nat) returns (r: Copy, ghost k: nat)
      requires Inv(lo, m, free, owner) && IsDir(owner, pd) && EXTPAGE < dataPage < NFRAMES && sz <= KERNBASE
      modifies this
      ensures Inv(lo, m, free, owner) && FirstMissing(old(m), pd, PgRoundUp(sz), k)
      ensures r == NoCopy <==> |old(free)| < KERNFRAMES + k + UserTables(k)
      ensures r == NoPage <==> |old(free)| >= KERNFRAMES + k + UserTables(k) && k < PgRoundUp(sz)
      ensures r == NoCopy ==> Restored(old(m), old(free), old(owner), m, free, owner)
      ensures r.Copy? ==>
                && r.dir !in old(owner) && IsDir(owner, r.dir) && Keeps(old(m), old(owner), m, owner, r.dir)
                && Copied(old(m), old(owner), m, pd, r.dir, dataPage, PgRoundUp(sz))
                && SameRights(old(m), pd, m, r.dir, PgRoundUp(sz)) && KernelRights(m, r.dir, dataPage)
                && |old(free)| == |free| + KERNFRAMES + k + UserTables(k)
    {
      hide Core, Users, Pte, Keeps, Restored, Copied, PgRoundUp, KernelPte, OrPresent, Entry, Flags, Frame, Present;
      hide Spent, Missing, Hooked, KernelSlots, Slots, DirAt, UserTables, FirstMissing, SameRights, KernelRights;
      PgRoundUpCursor(0, sz);
      k := FindMissing(m, pd, PgRoundUp(sz));
      MissingRange(m, pd, PgRoundUp(sz), k);
      var d := Setupkvm();
      if d == 0 {
        return NoCopy, k;
      }
      CopiedNone(old(m), old(owner), m, pd, d, dataPage);
      ghost var n0, dir0 := |free|, DirAt(m, d);
      SpentNone(n0, dir0, 0);
      UserSlots(dir0, k);
      var i := 0;
      while i * PGSIZE < sz
        invariant 0 <= i <= k
        invariant Inv(lo, m, free, owner) && IsDir(owner, d) && Keeps(old(m), old(owner), m, owner, d)
        invariant Copied(old(m), old(owner), m, pd, d, dataPage, i)
        invariant Spent(n0, dir0, |free|, DirAt(m, d), Slots(0, i), i)
        decreases sz - i * PGSIZE
      {
        PgRoundUpCursor(i, sz);
        ghost var m1, owner1, free1 := m, owner, free;
        ParentKept(lo, old(m), old(free), old(owner), m, owner, pd, d, i);
        NotYetCopied(old(m), old(owner), m, pd, d, dataPage, i);
        MissingAt(old(m), pd, PgRoundUp(sz), k, i);
        DirFrame(lo, m, free, owner, pd, i);
        var t := WalkPgdir(pd, i, false);
        PteWalk(lo, m, free, owner, pd, i, t);
        if t == 0 || !Present(m[t][i % NENTRIES]) {
          SpentExactly(n0, dir0, |free|, DirAt(m, d), 0, k);
          return NoPage, k;
        }
        var pte := m[t][i % NENTRIES];
        FlagsRange(pte);
        var st, f := AddPage(d, i, m[Frame(pte)], Flags(pte));
        if st != Mapped {
          CannotPay(n0, dir0, |free1|, DirAt(m1, d), 0, i, k, i, 1);
          if st == NoTable {
            Give(lo, m, free, owner, f, Junk());
            OwnedInPool(lo, m, free, owner, f);
            ghost var m2, free2, owner2 := m, free, owner;
            Kfree(f);
            KeepsUnspare(lo, old(m), old(owner), m1, free1, owner1, m2, free2, owner2, m, owner, d, f);
          }
          FreeNew(d, old(m), old(free), old(owner));
          return NoCopy, k;
        }
        KeepsTrans(old(m), old(owner), m1, owner1, m, owner, d);
        CopiedNext(lo, old(m), old(owner), m1, free1, owner1, m, owner, pd, d, dataPage, i, f, pte);
        SpentNext(n0, dir0, |free1|, DirAt(m1, d), |free|, DirAt(m, d), 0, i, i + 1, i, 1);
        i := i + 1;
      }
      PgRoundUpCursor(i, sz);
      SpentExactly(n0, dir0, |free|, DirAt(m, d), 0, k);
      CopiedRights(lo, old(m), old(free), old(owner), m, free, owner, pd, d, dataPage, PgRoundUp(sz));
      return Copy(d), k;
    }

    /** growproc on a process whose user memory is exactly [0, sz): n is the 32-bit argument, and the
        size recorded afterwards is sz'. The mapping matches that size except when the process shrinks
        to nothing: then the pages are freed but -1 is returned and the old size stands. */
    method Growproc(pd: nat, sz: nat, n: int) returns (r: int, sz': nat)
      requires Inv(lo, m, free, owner) && IsDir(owner, pd) && sz < KERNBASE && Exactly(m, pd, sz)
      requires -0x8000_0000 <= n < 0x8000_0000
      modifies this
      ensures Inv(lo, m, free, owner) && IsDir(owner, pd)
      ensures r == 0 || (r == -1 && sz' == sz)
      ensures r == 0 ==> sz' == if sz + n < 0 then sz else sz + n
      ensures n <= 0 ==> (r == -1 <==> n < 0 && (sz == 0 || sz + n == 0))
      ensures n > 0 ==>
                (r == -1 <==> sz + n >= KERNBASE
                              || |old(free)| < Cost(DirAt(old(m), pd), PgRoundUp(sz), PgRoundUp(sz + n)))
      ensures Exactly(m, pd, sz') <==> !(n < 0 && sz + n == 0)
    {
      hide Core, Users, Cost, DirAt, Pte, Keeps, FreshPages, FreshPte, Shrinks, PgRoundUp, Exactly;
      sz' := sz;
      if n > 0 {
        var x, k := Allocuvm(pd, sz, (sz + n) % WORD_RANGE);
        ExactlyGrown(old(m), old(owner), m, pd, sz, sz + n, k);
        if x.size == 0 {
          return -1, sz;
        }
        sz' := x.size;
      } else if n < 0 {
        FreeFateLow(lo, sz, (sz + n) % WORD_RANGE);
        var x := Deallocuvm(pd, sz, (sz + n) % WORD_RANGE);
        ExactlyShrunk(old(m), old(owner), m, owner, pd, sz, (sz + n) % WORD_RANGE);
        if x.size == 0 {
          return -1, sz;
        }
        sz' := x.size;
      }
      r := 0;
    }
  }
}
