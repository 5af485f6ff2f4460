/** Two-level page tables as flat maps from virtual page to entry, and who owns each physical frame. */
module PageTable {
  import opened Params

  const NENTRIES := 1024
  const NPAGES := NENTRIES * NENTRIES        // virtual pages: 2^32 / PGSIZE
  const KERNPAGE := 0x8_0000                 // KERNBASE / PGSIZE
  const NFRAMES := 0xE000                    // PHYSTOP / PGSIZE
  const EXTPAGE := 0x100                     // EXTMEM / PGSIZE
  const DEVPAGE := 0xF_E000                  // DEVSPACE / PGSIZE
  const PTE_P := 1
  const PTE_W := 2
  const PTE_U := 4

  type Page = s: seq<Word> | |s| == NENTRIES witness seq(NENTRIES, _ => 0)
  type Memory = map<nat, Page>

  function Frame(w: Word): nat { w / 0x1000 }

  function Flags(w: Word): nat { w % 0x1000 }

  predicate Present(w: Word) { w % 2 == 1 }

  predicate Writable(w: Word) { Flags(w) / PTE_W % 2 == 1 }

  predicate ForUser(w: Word) { Flags(w) / PTE_U % 2 == 1 }

  /** A directory entry that leaves all rights to the page table entries. */
  predicate Open(w: Word) { Writable(w) && ForUser(w) }

  /** frame << 12 | flags */
  function Entry(frame: nat, flags: nat): (w: Word)
    requires frame < NPAGES && flags < 0x1000
    ensures Frame(w) == frame && Flags(w) == flags && (Present(w) <==> flags % 2 == 1)
  {
    frame * 0x1000 + flags
  }

  function ZeroPage(): (p: Page)
    ensures forall i :: 0 <= i < NENTRIES ==> p[i] == 0
  {
    seq<Word>(NENTRIES, _ => 0)
  }

  /** What a frame the kernel can hand out is used for. */
  datatype Use = Dir | Table(pd: nat, i: nat) | User(pd: nat, v: nat) | Other

  type Owner = map<nat, Use>

  /** Frames that kalloc manages: from the end of the kernel, `lo`, to PHYSTOP. */
  predicate Pool(lo: nat, f: nat) {
    lo <= f < NFRAMES
  }

  ghost predicate IsDir(owner: Owner, pd: nat) {
    pd in owner && owner[pd] == Dir
  }

  /** The page table entry for virtual page v, 0 if its page table is missing. */
  function Pte(m: Memory, pd: nat, v: nat): Word
    requires v < NPAGES
  {
    if pd !in m then 0
    else
      var pde := m[pd][v / NENTRIES];
      if !Present(pde) || Frame(pde) !in m then 0 else m[Frame(pde)][v % NENTRIES]
  }

  /** What a page may be used for: the rights that directory entry and page table entry both grant. */
  datatype Rights = Rights(mapped: bool, write: bool, user: bool)

  function RightsOf(m: Memory, pd: nat, v: nat): Rights
    requires v < NPAGES
  {
    if pd !in m || !Present(Pte(m, pd, v)) then Rights(false, false, false)
    else
      var pde, pte := m[pd][v / NENTRIES], Pte(m, pd, v);
      Rights(true, Writable(pde) && Writable(pte), ForUser(pde) && ForUser(pte))
  }

  /** Every pool frame is free or has exactly one use, and every use is recorded: a directory entry
      names a page table used for that slot only, and leaves the rights to it; a user entry names a frame used
      for that page only. */
  ghost predicate Tables(lo: nat, m: Memory, owner: Owner) {
    && (forall f :: f in owner ==> Pool(lo, f) && f in m)
    && (forall f :: f in owner && owner[f].Table? ==>
          var Table(pd, i) := owner[f];
          i < NENTRIES && IsDir(owner, pd) && Present(m[pd][i]) && Frame(m[pd][i]) == f)
    && (forall pd, i :: IsDir(owner, pd) && 0 <= i < NENTRIES && Present(m[pd][i]) ==>
          Frame(m[pd][i]) in owner && owner[Frame(m[pd][i])] == Table(pd, i) && Open(m[pd][i]))
  }

  ghost predicate Users(m: Memory, owner: Owner) {
    && (forall f :: f in owner && owner[f].User? ==>
          var User(pd, v) := owner[f];
          v < KERNPAGE && IsDir(owner, pd) && Present(Pte(m, pd, v)) && Frame(Pte(m, pd, v)) == f)
    && (forall pd, v :: IsDir(owner, pd) && 0 <= v < KERNPAGE && Present(Pte(m, pd, v)) ==>
          Frame(Pte(m, pd, v)) in owner && owner[Frame(Pte(m, pd, v))] == User(pd, v))
  }

  ghost predicate FreeList(lo: nat, m: Memory, free: seq<nat>, owner: Owner) {
    && lo > 0
    && (forall i, j :: 0 <= i < j < |free| ==> free[i] != free[j])
    && (forall i :: 0 <= i < |free| ==> Pool(lo, free[i]) && free[i] !in owner)
    && (forall f: nat :: Pool(lo, f) ==> f in m && (f in free || f in owner))
  }

  /** What mappages keeps whatever frames it is given. */
  ghost predicate Core(lo: nat, m: Memory, free: seq<nat>, owner: Owner) {
    Tables(lo, m, owner) && FreeList(lo, m, free, owner)
  }

  ghost predicate Inv(lo: nat, m: Memory, free: seq<nat>, owner: Owner) {
    Core(lo, m, free, owner) && Users(m, owner)
  }

  // ------------------------------------------------------------ the page table of a slot

  /** Where the entry of page v lives, once its page table exists. */
  function TableOf(m: Memory, pd: nat, v: nat): nat
    requires v < NPAGES && pd in m
  {
    Frame(m[pd][v / NENTRIES])
  }

  function SetPte(m: Memory, pd: nat, v: nat, w: Word): Memory
    requires v < NPAGES && pd in m && TableOf(m, pd, v) in m
  {
    var t := TableOf(m, pd, v);
    m[t := m[t][v % NENTRIES := w]]
  }

  /** Storing an entry changes the mapping of that page of that directory, and of no other. */
  lemma {:induction false} SetPteAt(lo: nat, m: Memory, owner: Owner, pd: nat, v: nat, w: Word, pd': nat, v': nat)
    requires Tables(lo, m, owner) && IsDir(owner, pd) && IsDir(owner, pd') && v < NPAGES && v' < NPAGES
    requires Present(m[pd][v / NENTRIES])
    ensures TableOf(m, pd, v) in m
    ensures Pte(SetPte(m, pd, v, w), pd', v') == if pd' == pd && v' == v then w else Pte(m, pd', v')
    ensures SetPte(m, pd, v, w)[pd'] == m[pd']
  {
    hide Present, Open, Frame;
    var t := TableOf(m, pd, v);
    assert t in owner && owner[t] == Table(pd, v / NENTRIES);
    var pde' := m[pd'][v' / NENTRIES];
    if Present(pde') {
      assert owner[Frame(pde')] == Table(pd', v' / NENTRIES);
      assert v == v / NENTRIES * NENTRIES + v % NENTRIES && v' == v' / NENTRIES * NENTRIES + v' % NENTRIES;
    }
  }

  lemma {:induction false} SetPteTables(lo: nat, m: Memory, owner: Owner, pd: nat, v: nat, w: Word)
    requires Tables(lo, m, owner) && IsDir(owner, pd) && v < NPAGES && Present(m[pd][v / NENTRIES])
    ensures TableOf(m, pd, v) in m && Tables(lo, SetPte(m, pd, v, w), owner)
  {
    hide Present, Open, Frame;
    var t := TableOf(m, pd, v);
    assert owner[t] == Table(pd, v / NENTRIES);
  }

  // ------------------------------------------------------------ single steps

  ghost predicate SameMaps(m: Memory, owner: Owner, m': Memory) {
    forall pd, v :: IsDir(owner, pd) && 0 <= v < NPAGES ==> Pte(m', pd, v) == Pte(m, pd, v)
  }

  /** Mappings depend only on directory and page table frames. */
  lemma {:induction false} PteFrame(lo: nat, m: Memory, owner: Owner, m': Memory)
    requires Tables(lo, m, owner) && m.Keys <= m'.Keys
    requires forall f :: f in owner && (owner[f].Dir? || owner[f].Table?) ==> m'[f] == m[f]
    ensures SameMaps(m, owner, m')
    ensures Tables(lo, m', owner)
  {
    hide Present, Open, Frame;
    forall pd, v | IsDir(owner, pd) && 0 <= v < NPAGES ensures Pte(m', pd, v) == Pte(m, pd, v) {
      var pde := m[pd][v / NENTRIES];
      if Present(pde) { assert owner[Frame(pde)] == Table(pd, v / NENTRIES); }
    }
  }

  /** Users is a matter of the mappings and of who is a directory. */
  lemma {:induction false} UsersFrame(m: Memory, owner: Owner, m': Memory, owner': Owner)
    requires Users(m, owner) && SameMaps(m, owner, m')
    requires forall pd :: IsDir(owner', pd) <==> IsDir(owner, pd)
    requires forall f :: f in owner && owner[f].User? ==> f in owner' && owner'[f] == owner[f]
    requires forall f :: f in owner' && owner'[f].User? ==> f in owner && owner[f] == owner'[f]
    ensures Users(m', owner')
  {
    hide Present, Open, Frame, Pte;
    forall pd, v | IsDir(owner', pd) && 0 <= v < KERNPAGE && Present(Pte(m', pd, v))
      ensures Frame(Pte(m', pd, v)) in owner' && owner'[Frame(Pte(m', pd, v))] == User(pd, v)
    {
      assert IsDir(owner, pd) && Pte(m', pd, v) == Pte(m, pd, v);
    }
    forall f | f in owner' && owner'[f].User?
      ensures var User(pd, v) := owner'[f]; v < KERNPAGE && IsDir(owner', pd) && Pte(m', pd, v) == Pte(m, pd, v)
    {
      assert IsDir(owner, owner[f].pd);
    }
  }

  /** Contents of a frame no page table knows about do not matter to any mapping. */
  lemma {:induction false} WriteOther(lo: nat, m: Memory, free: seq<nat>, owner: Owner, f: nat, p: Page)
    requires Core(lo, m, free, owner) && f in owner && owner[f] == Other
    ensures Core(lo, m[f := p], free, owner) && SameMaps(m, owner, m[f := p])
    ensures Users(m, owner) ==> Users(m[f := p], owner)
  {
    hide Present, Open, Frame;
    PteFrame(lo, m, owner, m[f := p]);
    if Users(m, owner) {
      UsersFrame(m, owner, m[f := p], owner);
    }
  }

  /** Tables is a matter of directory and table uses. */
  lemma {:induction false} TablesOwner(lo: nat, m: Memory, owner: Owner, owner': Owner)
    requires Tables(lo, m, owner)
    requires forall f :: f in owner' ==> Pool(lo, f) && f in m
    requires forall pd :: IsDir(owner', pd) <==> IsDir(owner, pd)
    requires forall f :: f in owner && owner[f].Table? ==> f in owner' && owner'[f] == owner[f]
    requires forall f :: f in owner' && owner'[f].Table? ==> f in owner && owner[f] == owner'[f]
    ensures Tables(lo, m, owner')
  {
    hide Present, Open, Frame;
    forall pd, i | IsDir(owner', pd) && 0 <= i < NENTRIES && Present(m[pd][i])
      ensures Frame(m[pd][i]) in owner' && owner'[Frame(m[pd][i])] == Table(pd, i) && Open(m[pd][i])
    {
      assert IsDir(owner, pd);
      assert owner[Frame(m[pd][i])] == Table(pd, i);
    }
    forall f | f in owner' && owner'[f].Table?
      ensures var Table(pd, i) := owner'[f];
                i < NENTRIES && IsDir(owner', pd) && Present(m[pd][i]) && Frame(m[pd][i]) == f
    {
      assert owner[f] == owner'[f];
    }
  }

  /** kalloc: the first free frame becomes a frame with some other use. */
  lemma {:induction false} Take(lo: nat, m: Memory, free: seq<nat>, owner: Owner)
    requires Core(lo, m, free, owner) && free != []
    ensures free[0] !in owner && 0 < free[0] < NFRAMES
    ensures Core(lo, m, free[1..], owner[free[0] := Other])
    ensures Users(m, owner) ==> Users(m, owner[free[0] := Other])
    ensures forall pd :: IsDir(owner[free[0] := Other], pd) <==> IsDir(owner, pd)
  {
    hide Present, Open, Frame, Pte;
    var f, owner' := free[0], owner[free[0] := Other];
    assert forall pd :: IsDir(owner', pd) <==> IsDir(owner, pd);
    TablesOwner(lo, m, owner, owner');
    if Users(m, owner) {
      UsersFrame(m, owner, m, owner');
    }
    assert free == [f] + free[1..];
  }

  /** kfree of a frame that no page table knows about. */
  lemma {:induction false} Give(lo: nat, m: Memory, free: seq<nat>, owner: Owner, f: nat, junk: Page)
    requires Inv(lo, m, free, owner) && f in owner && owner[f] == Other
    ensures Inv(lo, m[f := junk], [f] + free, owner - {f})
    ensures SameMaps(m, owner, m[f := junk])
    ensures forall pd :: IsDir(owner - {f}, pd) <==> IsDir(owner, pd)
  {
    hide Present, Open, Frame, Pte;
    var m', owner' := m[f := junk], owner - {f};
    WriteOther(lo, m, free, owner, f, junk);
    assert forall pd :: IsDir(owner', pd) <==> IsDir(owner, pd);
    TablesOwner(lo, m', owner, owner');
    UsersFrame(m', owner, m', owner');
  }

  lemma {:induction false} NewEntryOpen(f: nat)
    requires f < NPAGES
    ensures Open(Entry(f, PTE_P + PTE_W + PTE_U))
  {
  }

  lemma {:induction false} NewTableTables(lo: nat, m: Memory, owner: Owner, pd: nat, i: nat, f: nat)
    requires Tables(lo, m, owner) && IsDir(owner, pd) && i < NENTRIES && !Present(m[pd][i])
    requires f in owner && owner[f] == Other
    ensures Tables(lo, m[pd := m[pd][i := Entry(f, PTE_P + PTE_W + PTE_U)]], owner[f := Table(pd, i)])
  {
    hide Present, Open, Frame;
    var m', owner' := m[pd := m[pd][i := Entry(f, PTE_P + PTE_W + PTE_U)]], owner[f := Table(pd, i)];
    NewEntryOpen(f);
    forall d, j | IsDir(owner', d) && 0 <= j < NENTRIES && Present(m'[d][j])
      ensures Frame(m'[d][j]) in owner' && owner'[Frame(m'[d][j])] == Table(d, j) && Open(m'[d][j])
    {
      if d != pd || j != i { assert owner[Frame(m[d][j])] == Table(d, j); }
    }
  }

  /** A zeroed frame becomes the page table of an empty directory slot; no mapping changes. */
  lemma {:induction false} NewTable(lo: nat, m: Memory, free: seq<nat>, owner: Owner, pd: nat, i: nat, f: nat)
    requires Core(lo, m, free, owner) && IsDir(owner, pd) && i < NENTRIES && !Present(m[pd][i])
    requires f in owner && owner[f] == Other && m[f] == ZeroPage()
    ensures var m', owner' := m[pd := m[pd][i := Entry(f, PTE_P + PTE_W + PTE_U)]], owner[f := Table(pd, i)];
            && Core(lo, m', free, owner') && SameMaps(m, owner, m')
            && (Users(m, owner) ==> Users(m', owner'))
    ensures forall d :: IsDir(owner[f := Table(pd, i)], d) <==> IsDir(owner, d)
  {
    hide Present, Open, Frame;
    var m', owner' := m[pd := m[pd][i := Entry(f, PTE_P + PTE_W + PTE_U)]], owner[f := Table(pd, i)];
    assert forall d :: IsDir(owner', d) <==> IsDir(owner, d);
    forall d, v | IsDir(owner, d) && 0 <= v < NPAGES ensures Pte(m', d, v) == Pte(m, d, v) {
      var pde := m[d][v / NENTRIES];
      if Present(pde) { assert owner[Frame(pde)] == Table(d, v / NENTRIES); }
    }
    NewTableTables(lo, m, owner, pd, i, f);
    if Users(m, owner) {
      UsersFrame(m, owner, m', owner');
    }
  }

  lemma {:induction false} SetPteKeys(m: Memory, pd: nat, v: nat, w: Word)
    requires v < NPAGES && pd in m && TableOf(m, pd, v) in m
    ensures SetPte(m, pd, v, w).Keys == m.Keys
  {
  }

  lemma {:induction false} UsersSame(m: Memory, owner: Owner, m': Memory)
    requires Users(m, owner)
    requires forall d, u :: IsDir(owner, d) && 0 <= u < KERNPAGE ==> Pte(m', d, u) == Pte(m, d, u)
    ensures Users(m', owner)
  {
    hide Present, Open, Frame, Pte;
  }

  /** Storing an entry keeps the tables, and above KERNBASE it concerns no owned frame. */
  lemma {:induction false} MapEntry(lo: nat, m: Memory, free: seq<nat>, owner: Owner, pd: nat, v: nat, w: Word)
    requires Core(lo, m, free, owner) && IsDir(owner, pd) && v < NPAGES && Present(m[pd][v / NENTRIES])
    ensures TableOf(m, pd, v) in m && Core(lo, SetPte(m, pd, v, w), free, owner)
    ensures KERNPAGE <= v && Users(m, owner) ==> Users(SetPte(m, pd, v, w), owner)
  {
    hide Present, Open, Frame, Pte, SetPte;
    SetPteTables(lo, m, owner, pd, v, w);
    var m' := SetPte(m, pd, v, w);
    assert m'.Keys == m.Keys by { SetPteKeys(m, pd, v, w); }
    if KERNPAGE <= v && Users(m, owner) {
      forall d, u | IsDir(owner, d) && 0 <= u < KERNPAGE ensures Pte(m', d, u) == Pte(m, d, u) {
        SetPteAt(lo, m, owner, pd, v, w, d, u);
      }
      UsersSame(m, owner, m');
    }
  }

  lemma {:induction false} UsersAdd(m: Memory, owner: Owner, m': Memory, pd: nat, v: nat, w: Word)
    requires Users(m, owner) && IsDir(owner, pd) && v < KERNPAGE
    requires !Present(Pte(m, pd, v)) && Present(w) && Frame(w) in owner && owner[Frame(w)] == Other
    requires forall d, u :: IsDir(owner, d) && 0 <= u < KERNPAGE ==>
               Pte(m', d, u) == if d == pd && u == v then w else Pte(m, d, u)
    ensures Users(m', owner[Frame(w) := User(pd, v)])
  {
    hide Present, Open, Frame, Pte;
    var owner' := owner[Frame(w) := User(pd, v)];
    forall d, u | IsDir(owner', d) && 0 <= u < KERNPAGE && Present(Pte(m', d, u))
      ensures Frame(Pte(m', d, u)) in owner' && owner'[Frame(Pte(m', d, u))] == User(d, u)
    {
      assert IsDir(owner, d);
      if d != pd || u != v { assert owner[Frame(Pte(m, d, u))] == User(d, u); }
    }
    forall f | f in owner' && owner'[f].User?
      ensures var User(d, u) := owner'[f];
                u < KERNPAGE && IsDir(owner', d) && Present(Pte(m', d, u)) && Frame(Pte(m', d, u)) == f
    {
      if f != Frame(w) { assert IsDir(owner, owner[f].pd); }
    }
  }

  /** Mapping a frame with no other use at an empty user page makes it that page's frame. */
  lemma {:induction false} MapUser(lo: nat, m: Memory, free: seq<nat>, owner: Owner, pd: nat, v: nat, w: Word)
    requires Core(lo, m, free, owner) && IsDir(owner, pd) && v < KERNPAGE && Present(m[pd][v / NENTRIES])
    requires !Present(Pte(m, pd, v)) && Present(w) && Frame(w) in owner && owner[Frame(w)] == Other
    ensures TableOf(m, pd, v) in m
    ensures var owner' := owner[Frame(w) := User(pd, v)];
            && Core(lo, SetPte(m, pd, v, w), free, owner')
            && (Users(m, owner) ==> Users(SetPte(m, pd, v, w), owner'))
            && (forall d :: IsDir(owner', d) <==> IsDir(owner, d))
  {
    hide Present, Open, Frame, Pte, SetPte;
    var owner' := owner[Frame(w) := User(pd, v)];
    assert forall d :: IsDir(owner', d) <==> IsDir(owner, d);
    SetPteTables(lo, m, owner, pd, v, w);
    var m' := SetPte(m, pd, v, w);
    SetPteKeys(m, pd, v, w);
    TablesOwner(lo, m', owner, owner');
    forall d, u | IsDir(owner, d) && 0 <= u < KERNPAGE
      ensures Pte(m', d, u) == if d == pd && u == v then w else Pte(m, d, u)
    {
      SetPteAt(lo, m, owner, pd, v, w, d, u);
    }
    if Users(m, owner) {
      UsersAdd(m, owner, m', pd, v, w);
    }
  }

  lemma {:induction false} PtePresent(m: Memory, pd: nat, v: nat)
    requires v < NPAGES && Present(Pte(m, pd, v))
    ensures pd in m && Present(m[pd][v / NENTRIES]) && TableOf(m, pd, v) in m
  {
  }

  /** No directory entry takes a right away: a page has the rights of its page table entry. */
  lemma {:induction false} RightsAre(lo: nat, m: Memory, owner: Owner, pd: nat, v: nat)
    requires Tables(lo, m, owner) && IsDir(owner, pd) && v < NPAGES
    ensures var w := Pte(m, pd, v);
            RightsOf(m, pd, v) ==
            if Present(w) then Rights(true, Writable(w), ForUser(w)) else Rights(false, false, false)
  {
    hide Frame, Writable, ForUser;
    if Present(Pte(m, pd, v)) {
      PtePresent(m, pd, v);
      assert Open(m[pd][v / NENTRIES]);
    }
  }

  lemma {:induction false} UsersRemove(m: Memory, owner: Owner, m': Memory, pd: nat, v: nat)
    requires Users(m, owner) && IsDir(owner, pd) && v < KERNPAGE && Present(Pte(m, pd, v))
    requires forall d, u :: IsDir(owner, d) && 0 <= u < NPAGES ==>
               Pte(m', d, u) == if d == pd && u == v then 0 else Pte(m, d, u)
    ensures Users(m', owner - {Frame(Pte(m, pd, v))})
  {
    hide Frame, Open, Pte;
    var f0 := Frame(Pte(m, pd, v));
    var owner' := owner - {f0};
    assert owner[f0] == User(pd, v);
    forall d, u | IsDir(owner', d) && 0 <= u < KERNPAGE && Present(Pte(m', d, u))
      ensures Frame(Pte(m', d, u)) in owner' && owner'[Frame(Pte(m', d, u))] == User(d, u)
    {
      assert IsDir(owner, d);
      assert d != pd || u != v;
      assert owner[Frame(Pte(m, d, u))] == User(d, u);
    }
    forall f | f in owner' && owner'[f].User?
      ensures var User(d, u) := owner'[f];
                u < KERNPAGE && IsDir(owner', d) && Present(Pte(m', d, u)) && Frame(Pte(m', d, u)) == f
    {
      assert IsDir(owner, owner[f].pd);
    }
  }

  /** Unmapping a user page and freeing its frame. */
  lemma {:induction false} UnmapUser(lo: nat, m: Memory, free: seq<nat>, owner: Owner, pd: nat, v: nat, junk: Page)
    requires Inv(lo, m, free, owner) && IsDir(owner, pd) && v < KERNPAGE && Present(Pte(m, pd, v))
    ensures var f := Frame(Pte(m, pd, v));
            && f in owner && owner[f] == User(pd, v) && f != 0
            && var m1 := m[f := junk];
               && TableOf(m1, pd, v) in m1
               && var m' := SetPte(m1, pd, v, 0);
                  && Inv(lo, m', [f] + free, owner - {f})
                  && (forall d, u :: IsDir(owner, d) && 0 <= u < NPAGES ==>
                      Pte(m', d, u) == if d == pd && u == v then 0 else Pte(m, d, u))
    ensures forall d :: IsDir(owner - {Frame(Pte(m, pd, v))}, d) <==> IsDir(owner, d)
  {
    PtePresent(m, pd, v);
    hide Frame, Open, Pte, SetPte;
    var f := Frame(Pte(m, pd, v));
    assert owner[f] == User(pd, v);
    var m1, owner' := m[f := junk], owner - {f};
    PteFrame(lo, m, owner, m1);
    assert m1[pd] == m[pd];
    assert forall d :: IsDir(owner', d) <==> IsDir(owner, d);
    SetPteTables(lo, m1, owner, pd, v, 0);
    var m' := SetPte(m1, pd, v, 0);
    SetPteKeys(m1, pd, v, 0);
    forall d, u | IsDir(owner, d) && 0 <= u < NPAGES
      ensures Pte(m', d, u) == if d == pd && u == v then 0 else Pte(m, d, u)
    {
      SetPteAt(lo, m1, owner, pd, v, 0, d, u);
    }
    TablesOwner(lo, m', owner, owner');
    UsersRemove(m, owner, m', pd, v);
  }

  // ------------------------------------------------------------ whole address spaces

  /** Frame f, used for u, is part of the address space of pd. */
  predicate Belongs(u: Use, f: nat, pd: nat) {
    f == pd || (u.Table? && u.pd == pd) || (u.User? && u.pd == pd)
  }

  /** Ownership while the tables of pd are being freed: those of the first i slots are gone, and what
      is left of the address space has no recorded use any more. */
  function Remaining(owner: Owner, pd: nat, i: nat): Owner {
    map f | f in owner && !(owner[f].Table? && owner[f].pd == pd && owner[f].i < i) ::
      if Belongs(owner[f], f, pd) then Other else owner[f]
  }

  lemma {:induction false} RetireTables(lo: nat, m: Memory, owner: Owner, pd: nat)
    requires Tables(lo, m, owner) && IsDir(owner, pd)
    ensures Tables(lo, m, Remaining(owner, pd, 0))
  {
    hide Present, Open, Frame;
    var r := Remaining(owner, pd, 0);
    forall f | f in r && r[f].Table?
      ensures var Table(d, i) := r[f]; i < NENTRIES && IsDir(r, d) && Present(m[d][i]) && Frame(m[d][i]) == f
    {
      assert owner[f] == r[f];
    }
    forall d, i | IsDir(r, d) && 0 <= i < NENTRIES && Present(m[d][i])
      ensures Frame(m[d][i]) in r && r[Frame(m[d][i])] == Table(d, i) && Open(m[d][i])
    {
      assert IsDir(owner, d);
      assert owner[Frame(m[d][i])] == Table(d, i);
    }
  }

  /** A directory with no user page left can be forgotten. */
  lemma {:induction false} Retire(lo: nat, m: Memory, free: seq<nat>, owner: Owner, pd: nat)
    requires Inv(lo, m, free, owner) && IsDir(owner, pd)
    requires forall f :: f in owner && owner[f].User? ==> owner[f].pd != pd
    ensures Inv(lo, m, free, Remaining(owner, pd, 0))
    ensures forall d :: IsDir(Remaining(owner, pd, 0), d) <==> IsDir(owner, d) && d != pd
  {
    hide Present, Open, Frame, Pte;
    var r := Remaining(owner, pd, 0);
    assert forall d :: IsDir(r, d) <==> IsDir(owner, d) && d != pd;
    forall f | f in r && r[f].User?
      ensures var User(d, v) := r[f]; v < KERNPAGE && IsDir(r, d) && Present(Pte(m, d, v)) && Frame(Pte(m, d, v)) == f
    {
      assert owner[f] == r[f];
    }
    forall d, v | IsDir(r, d) && 0 <= v < KERNPAGE && Present(Pte(m, d, v))
      ensures Frame(Pte(m, d, v)) in r && r[Frame(Pte(m, d, v))] == User(d, v)
    {
      assert IsDir(owner, d);
    }
    RetireTables(lo, m, owner, pd);
  }

  /** The next page table to free, and that no other slot names it. */
  lemma {:induction false} RemainingNext(lo: nat, m: Memory, owner: Owner, pd: nat, i: nat)
    requires Tables(lo, m, owner) && IsDir(owner, pd) && pd in m && i < NENTRIES
    ensures var f, r := Frame(m[pd][i]), Remaining(owner, pd, i);
            if Present(m[pd][i]) then f in r && r[f] == Other && f != pd && Remaining(owner, pd, i + 1) == r - {f}
            else Remaining(owner, pd, i + 1) == r
  {
    hide Present, Open, Frame;
    var f, r, r' := Frame(m[pd][i]), Remaining(owner, pd, i), Remaining(owner, pd, i + 1);
    forall g | g in owner && owner[g] == Table(pd, i) ensures Present(m[pd][i]) && g == f {
    }
    assert r'.Keys == if Present(m[pd][i]) then r.Keys - {f} else r.Keys;
  }

  lemma {:induction false} NewDirTables(lo: nat, m: Memory, owner: Owner, pd: nat)
    requires Tables(lo, m, owner) && pd in owner && owner[pd] == Other && pd in m && m[pd] == ZeroPage()
    ensures Tables(lo, m, owner[pd := Dir])
  {
    hide Frame, Open;
    var owner' := owner[pd := Dir];
    forall d, i | IsDir(owner', d) && 0 <= i < NENTRIES && Present(m[d][i])
      ensures Frame(m[d][i]) in owner' && owner'[Frame(m[d][i])] == Table(d, i) && Open(m[d][i])
    {
      assert IsDir(owner, d);
      assert owner[Frame(m[d][i])] == Table(d, i);
    }
  }

  /** A zeroed frame becomes a directory that maps nothing. */
  lemma {:induction false} NewDir(lo: nat, m: Memory, free: seq<nat>, owner: Owner, pd: nat)
    requires Inv(lo, m, free, owner) && pd in owner && owner[pd] == Other && pd in m && m[pd] == ZeroPage()
    ensures Inv(lo, m, free, owner[pd := Dir])
    ensures forall v :: 0 <= v < NPAGES ==> Pte(m, pd, v) == 0
    ensures forall d :: IsDir(owner[pd := Dir], d) <==> d == pd || IsDir(owner, d)
  {
    hide Frame, Open;
    var owner' := owner[pd := Dir];
    assert forall d :: IsDir(owner', d) <==> d == pd || IsDir(owner, d);
    assert forall v :: 0 <= v < NPAGES ==> Pte(m, pd, v) == 0;
    NewDirTables(lo, m, owner, pd);
    hide Pte;
    forall d, v | IsDir(owner', d) && 0 <= v < KERNPAGE && Present(Pte(m, d, v))
      ensures Frame(Pte(m, d, v)) in owner' && owner'[Frame(Pte(m, d, v))] == User(d, v)
    {
      assert IsDir(owner, d);
    }
  }
}
