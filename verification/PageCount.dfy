/** How many page tables a range of pages still needs. */
module PageCount {
  import opened Params
  import opened PageTable
  import opened Sequences

  /** The directory slots of pages a .. b. */
  function Slots(a: nat, b: nat): set<nat> {
    if a >= b then {} else Interval(a / NENTRIES, (b - 1) / NENTRIES + 1)
  }

  /** The slots without a page table. */
  function Absent(dir: Page, slots: set<nat>): set<nat> {
    set i | i in slots && i < NENTRIES && !Present(dir[i])
  }

  function Missing(dir: Page, slots: set<nat>): nat {
    |Absent(dir, slots)|
  }

  function DirAt(m: Memory, pd: nat): Page {
    if pd in m then m[pd] else ZeroPage()
  }

  /** The frames that pages a .. b take: one each, and the page tables that are not there yet. */
  function Cost(dir: Page, a: nat, b: nat): nat {
    Max(a, b) - a + Missing(dir, Slots(a, b))
  }

  /** dir is dir0 with a page table in each of the slots. */
  ghost predicate Hooked(dir0: Page, dir: Page, slots: set<nat>) {
    forall i :: 0 <= i < NENTRIES ==> (Present(dir[i]) <==> Present(dir0[i]) || i in slots)
  }

  /** Of n0 free frames n are left: `pages` frames went to pages, the others to page tables. */
  ghost predicate Spent(n0: nat, dir0: Page, n: nat, dir: Page, slots: set<nat>, pages: nat) {
    n0 == n + pages + Missing(dir0, slots) && Hooked(dir0, dir, slots)
  }

  lemma {:induction false} SpentNone(n: nat, dir: Page, a: nat)
    ensures Spent(n, dir, n, dir, {}, 0) && Slots(a, a) == {}
  {
    assert Absent(dir, {}) == {};
  }

  lemma {:induction false} MissingMore(dir0: Page, dir1: Page, s: set<nat>, t: set<nat>)
    requires Hooked(dir0, dir1, s)
    ensures Missing(dir0, s + t) == Missing(dir0, s) + Missing(dir1, t)
  {
    hide Present;
    assert Absent(dir0, s + t) == Absent(dir0, s) + Absent(dir1, t);
  }

  lemma {:induction false} SpentMore(n0: nat, dir0: Page, n1: nat, dir1: Page, n2: nat, dir2: Page,
                                     s: set<nat>, t: set<nat>, p: nat, q: nat)
    requires Spent(n0, dir0, n1, dir1, s, p) && Spent(n1, dir1, n2, dir2, t, q)
    ensures Spent(n0, dir0, n2, dir2, s + t, p + q)
  {
    hide Present;
    MissingMore(dir0, dir1, s, t);
  }

  lemma {:induction false} SlotsJoin(a: nat, b: nat, c: nat)
    requires a <= b <= c
    ensures Slots(a, c) == Slots(a, b) + Slots(b, c)
  {
  }

  lemma {:induction false} SpentNext(n0: nat, dir0: Page, n1: nat, dir1: Page, n2: nat, dir2: Page,
                                     s: nat, a: nat, b: nat, p: nat, q: nat)
    requires s <= a <= b && Spent(n0, dir0, n1, dir1, Slots(s, a), p) && Spent(n1, dir1, n2, dir2, Slots(a, b), q)
    ensures Spent(n0, dir0, n2, dir2, Slots(s, b), p + q)
  {
    hide Spent, Slots;
    SpentMore(n0, dir0, n1, dir1, n2, dir2, Slots(s, a), Slots(a, b), p, q);
    SlotsJoin(s, a, b);
  }

  lemma {:induction false} MissingMonotone(dir: Page, s: set<nat>, t: set<nat>)
    requires s <= t
    ensures Missing(dir, s) <= Missing(dir, t)
  {
    SubsetSize(Absent(dir, s), Absent(dir, t));
  }

  /** One page needs a page table exactly when its slot has none. */
  lemma {:induction false} OneSlot(dir: Page, v: nat)
    requires v < NPAGES
    ensures Slots(v, v + 1) == {v / NENTRIES}
    ensures Missing(dir, Slots(v, v + 1)) == if Present(dir[v / NENTRIES]) then 0 else 1
  {
    hide Present;
    var i := v / NENTRIES;
    assert Absent(dir, {i}) == if Present(dir[i]) then {} else {i};
  }

  lemma {:induction false} SpentPage(n: nat, dir: Page, n': nat, dir': Page, v: nat)
    requires v < NPAGES
    requires n == n' + if Present(dir[v / NENTRIES]) then 0 else 1
    requires Present(dir'[v / NENTRIES]) && dir' == dir[v / NENTRIES := dir'[v / NENTRIES]]
    ensures Spent(n, dir, n', dir', Slots(v, v + 1), 0)
  {
    hide Present;
    OneSlot(dir, v);
  }

  /** Growing page by page from s: when a page cannot be paid for, neither can the whole range. */
  lemma {:induction false} CannotPay(n0: nat, dir0: Page, n: nat, dir: Page, s: nat, a: nat, e: nat, p: nat, q: nat)
    requires s <= a < e && Spent(n0, dir0, n, dir, Slots(s, a), p)
    requires n < q + Missing(dir, Slots(a, a + 1))
    ensures n0 < p + q + Missing(dir0, Slots(s, e))
  {
    hide Hooked, Absent;
    MissingMore(dir0, dir, Slots(s, a), Slots(a, a + 1));
    SlotsJoin(s, a, a + 1);
    SlotsJoin(s, a + 1, e);
    MissingMonotone(dir0, Slots(s, a + 1), Slots(s, e));
  }

  /** When it can, the range up to it can. */
  lemma {:induction false} CanPay(n0: nat, dir0: Page, n: nat, dir: Page, s: nat, a: nat, p: nat, q: nat)
    requires s <= a && Spent(n0, dir0, n, dir, Slots(s, a), p)
    requires n >= q + Missing(dir, Slots(a, a + 1))
    ensures n0 >= p + q + Missing(dir0, Slots(s, a + 1))
  {
    hide Hooked, Absent;
    MissingMore(dir0, dir, Slots(s, a), Slots(a, a + 1));
    SlotsJoin(s, a, a + 1);
  }

  lemma {:induction false} SpentExactly(n0: nat, dir0: Page, n: nat, dir: Page, s: nat, e: nat)
    requires s <= e && Spent(n0, dir0, n, dir, Slots(s, e), e - s)
    ensures n0 == n + Cost(dir0, s, e) && Cost(dir0, s, e) == e - s + Missing(dir0, Slots(s, e))
  {
    hide Slots, Missing, Hooked;
  }

  // ------------------------------------------------------------ the kernel's page tables

  /** The slots of physical memory above KERNBASE and of the devices. */
  function KernelSlots(): set<nat> {
    Slots(KERNPAGE, KERNPAGE + NFRAMES) + Slots(DEVPAGE, NPAGES)
  }

  /** The slots in use once k ranges of the kernel's part are mapped; its data start at page `data`. */
  function KernelUpTo(data: nat, k: nat): set<nat> {
    if k == 0 then {}
    else if k == 1 then Slots(KERNPAGE, KERNPAGE + EXTPAGE)
    else if k == 2 then Slots(KERNPAGE, KERNPAGE + data)
    else if k == 3 then Slots(KERNPAGE, KERNPAGE + NFRAMES)
    else KernelSlots()
  }

  const KERNFRAMES := 65       // a directory and the page tables of the kernel's part

  lemma {:induction false} TwoRanges(dir: Page, s: set<nat>, t: set<nat>)
    requires s !! t && forall i :: i in s + t ==> i < NENTRIES && !Present(dir[i])
    ensures Missing(dir, s + t) == |s| + |t|
  {
    assert Absent(dir, s + t) == s + t;
  }

  lemma {:induction false} KernelTables()
    ensures Missing(ZeroPage(), KernelSlots()) + 1 == KERNFRAMES
  {
    hide Interval, Missing;
    assert KERNPAGE / NENTRIES == 512 && (KERNPAGE + NFRAMES - 1) / NENTRIES == 567;
    assert DEVPAGE / NENTRIES == 1016 && (NPAGES - 1) / NENTRIES == 1023;
    TwoRanges(ZeroPage(), Interval(512, 568), Interval(1016, 1024));
  }

  /** The page tables of n user pages. */
  function UserTables(n: nat): nat {
    (n + NENTRIES - 1) / NENTRIES
  }

  /** Above the kernel's part, a directory has no page table for any user page. */
  lemma {:induction false} UserSlots(dir: Page, n: nat)
    requires n <= KERNPAGE && Hooked(ZeroPage(), dir, KernelSlots())
    ensures Missing(dir, Slots(0, n)) == UserTables(n)
  {
    assert Slots(0, n) == Interval(0, UserTables(n));
    forall i | i in Slots(0, n) ensures !Present(dir[i]) {
      assert i !in KernelSlots();
    }
    assert Absent(dir, Slots(0, n)) == Slots(0, n);
  }
}
