/** umalloc.c: Kernighan and Ritchie's allocator, headers relinked and resized in place. Addresses count
    headers of eight bytes; the user's pointer is the address just after the header. */
module Umalloc {
  import opened Params
  import opened FreeList
  import opened Sequences

  const HEADER := 8
  const MINCORE := 4096

  /** A null pointer, a pointer, or a block recorded in memory that sbrk was not asked for. */
  datatype Pointer = Null | To(addr: nat) | Unbacked

  /** The block size malloc computes, in 32-bit arithmetic. */
  function Units(nbytes: Word): (n: nat)
    ensures n >= 1
  {
    (nbytes + HEADER - 1) % WORD_RANGE / HEADER + 1
  }

  /** The block holds the request exactly when the sum does not wrap: up to 2^32 - 8 bytes, not beyond; it is then
      the smallest that does. */
  lemma {:induction false} UnitsEnough(nbytes: Word)
    ensures (Units(nbytes) - 1) * HEADER >= nbytes <==> nbytes <= WORD_RANGE - HEADER
    ensures nbytes <= WORD_RANGE - HEADER ==> (Units(nbytes) - 2) * HEADER < nbytes
  {
    if nbytes > WORD_RANGE - HEADER {
      assert (nbytes + HEADER - 1) % WORD_RANGE == nbytes + HEADER - 1 - WORD_RANGE;
    }
  }

  /** What morecore passes to sbrk, whose parameter is a signed int. */
  function SbrkArgument(nu: nat): int {
    var bytes := nu * HEADER % WORD_RANGE;
    if bytes < WORD_RANGE / 2 then bytes else bytes - WORD_RANGE
  }

  /** sbrk is asked to grow by the whole block exactly below 2^28 units. */
  lemma {:induction false} SbrkGrows(nu: nat)
    ensures SbrkArgument(nu) == nu * HEADER <==> nu < WORD_RANGE / 2 / HEADER
  {
  }

  // ------------------------------------------------------------ what the free list must be

  ghost predicate FreeUnit(size: Words, live: set<nat>, cover: Words, u: int) {
    u in cover && forall h :: h in live ==> !Inside(size, h, u)
  }

  lemma {:induction false} FreeIff(base: nat, ring: seq<nat>, ptr: Words, size: Words, live: set<nat>, cover: Words,
                                   u: nat)
    requires Heap(base, ring, ptr, size, live, cover)
    ensures FreeUnit(size, live, cover, u) <==> u in cover && cover[u] in ring
  {
    hide Links, Sorted;
    if u in cover {
      assert cover[u] in Held(base, ring, live) && Inside(size, cover[u], u);
      forall h | h in live && Inside(size, h, u) ensures cover[u] == h {
        assert h in Held(base, ring, live);
      }
    }
  }

  /** A run stops at both ends of a free block. */
  lemma {:induction false} RunEnds(base: nat, ring: seq<nat>, ptr: Words, size: Words, live: set<nat>, cover: Words,
                                   j: nat)
    requires Heap(base, ring, ptr, size, live, cover) && 0 < j < |ring|
    ensures var h := ring[j];
            && (forall u :: h <= u < h + size[h] ==> u in cover && cover[u] == h)
            && (h - 1 in cover ==> cover[h - 1] !in ring)
            && (h + size[h] in cover ==> cover[h + size[h]] !in ring)
  {
    hide Links;
    var h := ring[j];
    assert h in Held(base, ring, live);
    forall u | h <= u < h + size[h] ensures u in cover && cover[u] == h {
      assert Inside(size, h, u);
    }
    forall u | u in cover && (u == h - 1 || u == h + size[h]) ensures cover[u] !in ring {
      assert Inside(size, cover[u], u);
    }
  }

  /** The free headers are the starts of the maximal runs of free units, and their sizes the lengths of the
      runs. So the live blocks and the heap's extent determine the free list: how it came about does not
      matter, and nothing that could be merged is left apart. */
  lemma {:induction false} FreeRuns(base: nat, ring: seq<nat>, ptr: Words, size: Words, live: set<nat>, cover: Words,
                                    h: nat)
    requires Heap(base, ring, ptr, size, live, cover) && h != base
    ensures h in ring <==> FreeUnit(size, live, cover, h) && !FreeUnit(size, live, cover, h - 1)
    ensures h in ring ==> h in size && !FreeUnit(size, live, cover, h + size[h])
    ensures h in ring ==> forall u :: h <= u < h + size[h] ==> FreeUnit(size, live, cover, u)
  {
    var held := Held(base, ring, live);
    forall u: nat ensures FreeUnit(size, live, cover, u) <==> u in cover && cover[u] in ring {
      FreeIff(base, ring, ptr, size, live, cover, u);
    }
    if h in ring {
      var j :| 0 <= j < |ring| && ring[j] == h;
      RunEnds(base, ring, ptr, size, live, cover, j);
    } else if FreeUnit(size, live, cover, h) {
      var k := cover[h];
      assert k in held && Inside(size, k, h) && Inside(size, k, h - 1);
    }
  }

  // ------------------------------------------------------------ walking the ring

  function After(n: nat, k: nat): nat
    requires k < n
  {
    if k + 1 < n then k + 1 else 0
  }

  function Hops(n: nat, a: nat, b: nat): nat
    requires a < n && b < n
  {
    if a <= b then b - a else n - a + b
  }

  ghost predicate Sized(ring: seq<nat>, size: Words) {
    forall i :: 0 <= i < |ring| ==> ring[i] in size
  }

  /** The walk is at k and will end at f: every header already passed is too small. */
  ghost predicate Scanned(ring: seq<nat>, size: Words, want: nat, f: nat, k: nat)
    requires f < |ring| && k < |ring| && Sized(ring, size)
  {
    forall j :: 0 <= j < |ring| && Hops(|ring|, k, j) > Hops(|ring|, k, f) ==> size[ring[j]] < want
  }

  lemma {:induction false} ScanStart(ring: seq<nat>, size: Words, want: nat, f: nat)
    requires f < |ring| && Sized(ring, size)
    ensures Scanned(ring, size, want, f, After(|ring|, f))
  {
  }

  lemma {:induction false} ScanNext(ring: seq<nat>, size: Words, want: nat, f: nat, k: nat)
    requires f < |ring| && k < |ring| && k != f && Sized(ring, size)
    requires Scanned(ring, size, want, f, k) && size[ring[k]] < want
    ensures Scanned(ring, size, want, f, After(|ring|, k))
    ensures Hops(|ring|, After(|ring|, k), f) < Hops(|ring|, k, f)
  {
    var n := |ring|;
    forall j | 0 <= j < n && Hops(n, After(n, k), j) > Hops(n, After(n, k), f) ensures size[ring[j]] < want {
      assert j == k || Hops(n, k, j) > Hops(n, k, f);
    }
  }

  /** No free block is large enough. */
  ghost predicate TooSmall(ring: seq<nat>, size: Words, want: nat) {
    forall j :: 0 <= j < |ring| && ring[j] in size ==> size[ring[j]] < want
  }

  /** Some free block has at least n units. */
  ghost predicate Roomy(ring: seq<nat>, size: Words, n: nat) {
    exists j :: 0 <= j < |ring| && ring[j] in size && size[ring[j]] >= n
  }

  lemma {:induction false} ScanEnd(ring: seq<nat>, size: Words, want: nat, f: nat)
    requires f < |ring| && Sized(ring, size)
    requires Scanned(ring, size, want, f, f) && size[ring[f]] < want
    ensures TooSmall(ring, size, want) && !Roomy(ring, size, want)
  {
    forall j | 0 <= j < |ring| ensures size[ring[j]] < want {
      assert j == f || Hops(|ring|, f, j) > Hops(|ring|, f, f);
    }
  }

  /** h is the upper end of the first header after freep that is large enough. */
  ghost predicate FirstFit(ring: seq<nat>, size: Words, freep: nat, want: nat, h: int) {
    && freep in ring && Sized(ring, size)
    && exists f, k :: 0 <= f < |ring| && 0 <= k < |ring| && ring[f] == freep && Scanned(ring, size, want, f, k)
                      && size[ring[k]] >= want && h == ring[k] + size[ring[k]] - want
  }

  lemma {:induction false} Fits(ring: seq<nat>, size: Words, want: nat, freep: nat, f: nat, k: nat)
    requires f < |ring| && k < |ring| && ring[f] == freep && Sized(ring, size) && Scanned(ring, size, want, f, k)
    requires size[ring[k]] >= want
    ensures !TooSmall(ring, size, want) && FirstFit(ring, size, freep, want, ring[k] + size[ring[k]] - want)
  {
    hide Scanned;
  }

  /** The least number of units that is enough for the block and at least 4096. */
  function Amount(nu: nat): (n: nat)
    ensures n >= nu && n >= 4096 && (n == nu || n == 4096)
  {
    if nu < MINCORE then MINCORE else nu
  }

  /** The heap lies above the static header and below the end of the process. */
  ghost predicate Under(base: nat, cover: Words, brk: nat) {
    base < brk && forall u :: u in cover ==> u < brk
  }

  /** The end of the process after a call of sbrk that succeeds: growproc ignores a shrink below nothing. */
  function Moved(brk: nat, bytes: int): nat {
    if brk * HEADER + bytes < 0 then brk else (brk * HEADER + bytes) / HEADER
  }

  lemma {:induction false} StillUnder(base: nat, cover: Words, brk: nat, cover': Words)
    requires cover'.Keys == cover.Keys
    ensures Under(base, cover, brk) ==> Under(base, cover', brk)
  {
    assert forall u :: u in cover' ==> u in cover;
  }

  lemma {:induction false} GrownUnder(base: nat, cover: Words, brk: nat, n: nat, cover': Words)
    requires Under(base, cover, brk) && cover'.Keys == Extend(cover, brk, n).Keys
    ensures Moved(brk, n * HEADER) == brk + n && Under(base, cover', brk + n)
  {
    forall u | u in cover' ensures u < brk + n {
      assert u in Extend(cover, brk, n);
    }
  }

  lemma {:induction false} Next(base: nat, ring: seq<nat>, ptr: Words, size: Words, live: set<nat>, cover: Words,
                                i: nat)
    requires Heap(base, ring, ptr, size, live, cover) && i < |ring|
    ensures ring[i] in ptr && ptr[ring[i]] == NextIn(ring, i) == ring[After(|ring|, i)] && Sized(ring, size)
  {
    hide Covers;
    assert Linked(ring, ptr, i);
  }

  lemma {:induction false} Unique(base: nat, ring: seq<nat>, ptr: Words, size: Words, live: set<nat>, cover: Words,
                                  i: nat, j: nat)
    requires Heap(base, ring, ptr, size, live, cover) && i < |ring| && j < |ring| && ring[i] == ring[j]
    ensures i == j
  {
    SortedDistinct(base, ring, size);
  }

  lemma {:induction false} NoneFits(base: nat, size: Words, want: nat)
    requires want > 0
    ensures TooSmall([], size, want) && TooSmall([base], size[base := 0], want)
  {
  }

  lemma {:induction false} RoomyLess(ring: seq<nat>, size: Words, n: nat, m: nat)
    requires Roomy(ring, size, n) && m <= n
    ensures Roomy(ring, size, m)
  {
    var j :| 0 <= j < |ring| && ring[j] in size && size[ring[j]] >= n;
    assert size[ring[j]] >= m;
  }

  lemma {:induction false} LiveSized(base: nat, ring: seq<nat>, ptr: Words, size: Words, live: set<nat>, cover: Words)
    requires Heap(base, ring, ptr, size, live, cover)
    ensures forall h :: h in live ==> h in size && h !in ring
  {
    hide Links, Sorted;
    assert forall h :: h in live ==> h in Held(base, ring, live);
  }

  lemma {:induction false} RingPositive(base: nat, ring: seq<nat>, ptr: Words, size: Words, live: set<nat>,
                                        cover: Words)
    requires Heap(base, ring, ptr, size, live, cover)
    ensures forall h :: h in ring ==> h > 0
  {
  }

  /** The header after ring[i] has units, so it is not the sentinel. */
  lemma {:induction false} NotBase(base: nat, ring: seq<nat>, ptr: Words, size: Words, live: set<nat>, cover: Words,
                                   i: nat)
    requires Heap(base, ring, ptr, size, live, cover) && i < |ring|
    requires var p := NextIn(ring, i); p in size && size[p] >= 1
    ensures i + 1 < |ring| && NextIn(ring, i) == ring[i + 1]
  {
  }

  lemma {:induction false} LiveOnes(base: nat, ring: seq<nat>, ptr: Words, size: Words, live: set<nat>, cover: Words,
                                    bp: nat)
    requires Heap(base, ring, ptr, size, live, cover) && bp in live
    ensures bp > base && bp !in ring
    ensures forall h :: h in live ==> h in size && h !in ring
  {
    hide Links, Sorted;
    assert forall h :: h in live ==> h in Held(base, ring, live);
  }

  lemma {:induction false} FreeSetting(base: nat, ring: seq<nat>, ptr: Words, size: Words, live: set<nat>,
                                       cover: Words, bp: nat, i: nat)
    requires Heap(base, ring, ptr, size, live, cover) && bp in live && Slot(ring, bp, i)
    ensures bp in size && ring[i] in size && ring[i] in ptr && ptr[ring[i]] == NextIn(ring, i) && bp !in ring
    ensures bp + size[bp] == NextIn(ring, i) ==>
              NextIn(ring, i) in ring && NextIn(ring, i) in size && NextIn(ring, i) in ptr && NextIn(ring, i) != ring[i]
  {
    hide Covers;
    SlotClear(base, ring, ptr, size, live, cover, bp, i);
    assert Linked(ring, ptr, i);
    if i + 1 < |ring| {
      assert Linked(ring, ptr, i + 1);
    }
  }

  /** The fields after free, by which neighbours the block touches. */
  ghost function FreedRing(ring: seq<nat>, bp: nat, i: nat, upper: bool, lower: bool): seq<nat>
    requires i < |ring| && (upper ==> i + 1 < |ring|)
  {
    if upper then if lower then Dropped(ring, i + 1) else ring[i + 1 := bp]
    else if lower then ring else Inserted(ring, i, bp)
  }

  ghost function FreedPtr(ptr: Words, bp: nat, p: nat, up: nat, upper: bool, lower: bool): Words
    requires upper ==> up in ptr
  {
    var x := if upper then ptr[up] else up;
    ptr[bp := x][p := if lower then x else bp]
  }

  ghost function FreedSize(size: Words, bp: nat, p: nat, up: nat, upper: bool, lower: bool): Words
    requires bp in size && p in size && (upper ==> up in size)
  {
    var s := if upper then size[bp := size[bp] + size[up]] else size;
    if lower then s[p := s[p] + s[bp]] else s
  }

  ghost function FreedCover(size: Words, cover: Words, bp: nat, p: nat, up: nat, upper: bool, lower: bool): Words
    requires bp in size && (upper ==> up in size)
  {
    var c := if upper then Recover(cover, up, size[up], bp) else cover;
    if lower then Recover(c, bp, if upper then size[bp] + size[up] else size[bp], p) else c
  }

  /** In all four cases the heap stays well formed. */
  lemma {:induction false} FreeCases(base: nat, ring: seq<nat>, ptr: Words, size: Words, live: set<nat>, cover: Words,
                                     bp: nat, i: nat)
    requires Heap(base, ring, ptr, size, live, cover) && bp in live && i < |ring| && Slot(ring, bp, i)
    requires bp in size && ring[i] in size
    requires var up := NextIn(ring, i); bp + size[bp] == up ==> up in ptr && up in size
    ensures var p, up := ring[i], NextIn(ring, i);
            var upper, lower := bp + size[bp] == up, p + size[p] == bp;
            && (upper ==> i + 1 < |ring|)
            && Heap(base, FreedRing(ring, bp, i, upper, lower), FreedPtr(ptr, bp, p, up, upper, lower),
                    FreedSize(size, bp, p, up, upper, lower), live - {bp},
                    FreedCover(size, cover, bp, p, up, upper, lower))
            && FreedCover(size, cover, bp, p, up, upper, lower).Keys == cover.Keys
  {
    hide Heap, Slot, Inserted, Dropped;
    var p, up := ring[i], NextIn(ring, i);
    if bp + size[bp] == up {
      if p + size[p] == bp {
        FreeBoth(base, ring, ptr, size, live, cover, bp, i);
        assert size[bp := size[bp] + size[up]][p] == size[p];
      } else {
        FreeUpper(base, ring, ptr, size, live, cover, bp, i);
      }
    } else if p + size[p] == bp {
      FreeLower(base, ring, ptr, size, live, cover, bp, i);
    } else {
      FreeAlone(base, ring, ptr, size, live, cover, bp, i);
    }
  }

  lemma {:induction false} FreedRoom(ring: seq<nat>, size: Words, bp: nat, i: nat, up: nat, upper: bool, lower: bool)
    requires i < |ring| && (upper ==> i + 1 < |ring| && up in size) && bp in size && ring[i] in size && bp != ring[i]
    ensures ring[i] in FreedRing(ring, bp, i, upper, lower)
    ensures Roomy(FreedRing(ring, bp, i, upper, lower), FreedSize(size, bp, ring[i], up, upper, lower), size[bp])
  {
    var r, s := FreedRing(ring, bp, i, upper, lower), FreedSize(size, bp, ring[i], up, upper, lower);
    assert r[i] == ring[i];
    var j := if lower then i else i + 1;
    assert r[j] in s && s[r[j]] >= size[bp];
  }

  /** The free header below bp. */
  ghost predicate Below(ring: seq<nat>, bp: nat, p: nat) {
    p in ring && p < bp && forall h :: h in ring ==> h <= p || h > bp
  }

  lemma {:induction false} SlotBelow(base: nat, ring: seq<nat>, ptr: Words, size: Words, live: set<nat>, cover: Words,
                                     bp: nat, i: nat)
    requires Heap(base, ring, ptr, size, live, cover) && Slot(ring, bp, i)
    ensures Below(ring, bp, ring[i])
  {
    hide Covers;
    forall h | h in ring ensures h <= ring[i] || h > bp {
      var j :| 0 <= j < |ring| && ring[j] == h;
    }
  }

  class Allocator {
    const base: nat                // address of the static header `base`
    var ptr: Words
    var size: Words
    var freep: nat                 // 0 before the first call
    var brk: nat                   // the end of the process's memory
    ghost var ring: seq<nat>       // the free list from base up
    ghost var live: set<nat>       // blocks handed out
    ghost var cover: Words         // the block each unit of the heap belongs to

    ghost predicate Ready()
      reads this
    {
      Heap(base, ring, ptr, size, live, cover) && freep in ring
    }

    ghost predicate Valid()
      reads this
    {
      && base > 0 && Under(base, cover, brk)
      && if freep == 0 then ring == [] && live == {} && cover == map[] else Ready()
    }

    constructor (base: nat, brk: nat)
      requires 0 < base < brk
      ensures Valid() && this.base == base && this.brk == brk && live == {} && cover == map[]
    {
      this.base, this.brk := base, brk;
      ptr, size, freep := map[], map[], 0;
      ring, live, cover := [], {}, map[];
    }

    /** free's search for the free header after which a block belongs. */
    method FindPlace(bp: nat) returns (p: nat, ghost i: nat)
      requires Ready() && bp > base && bp !in ring
      ensures i < |ring| && Slot(ring, bp, i) && p == ring[i] && p in ptr && ptr[p] == NextIn(ring, i)
    {
      hide Covers;
      ghost var t := FindSlot(base, ring, size, bp);
      i :| 0 <= i < |ring| && ring[i] == freep;
      p := freep;
      assert Linked(ring, ptr, i);
      while !(bp > p && bp < ptr[p])
        invariant 0 <= i < |ring| && p == ring[i] && Linked(ring, ptr, i)
        decreases Hops(|ring|, i, t)
      {
        if p >= ptr[p] && (bp > p || bp < ptr[p]) {
          break;
        }
        p := ptr[p];
        i := After(|ring|, i);
        assert Linked(ring, ptr, i);
      }
    }

    /** free: the block joins the ring at its place, merged with the neighbours it touches; no other live
        block changes and every unit stays in exactly one block. The next search starts at the free header
        below the block. */
    method Free(ap: nat)
      requires Ready() && ap > 0 && ap - 1 in live
      modifies this
      ensures Ready() && live == old(live) - {ap - 1} && cover.Keys == old(cover).Keys
      ensures forall h :: h in live ==> h in size && h in old(size) && size[h] == old(size)[h]
      ensures Roomy(ring, size, old(size)[ap - 1]) && brk == old(brk) && (old(Valid()) ==> Valid())
      ensures Below(old(ring), ap - 1, freep)
    {
      hide Heap, Slot, NextIn, FreedRing, FreedCover, Roomy, Below;
      var bp := ap - 1;
      LiveOnes(base, ring, ptr, size, live, cover, bp);
      var p;
      ghost var i;
      p, i := FindPlace(bp);
      FreeSetting(base, ring, ptr, size, live, cover, bp, i);
      SlotBelow(base, ring, ptr, size, live, cover, bp, i);
      var up := ptr[p];
      ghost var upper, lower := bp + size[bp] == up, p + size[p] == bp;
      FreeCases(base, ring, ptr, size, live, cover, bp, i);
      ghost var ring', cover' := FreedRing(ring, bp, i, upper, lower), FreedCover(size, cover, bp, p, up, upper, lower);
      FreedRoom(ring, size, bp, i, up, upper, lower);
      ghost var ptr', size' := FreedPtr(ptr, bp, p, up, upper, lower), FreedSize(size, bp, p, up, upper, lower);
      if bp + size[bp] == up {
        size := size[bp := size[bp] + size[up]];
        ptr := ptr[bp := ptr[up]];
      } else {
        ptr := ptr[bp := up];
      }
      if p + size[p] == bp {
        size := size[p := size[p] + size[bp]];
        ptr := ptr[p := ptr[bp]];
      } else {
        ptr := ptr[p := bp];
      }
      assert ptr == ptr' && size == size';
      freep := p;
      ring, live, cover := ring', live - {bp}, cover';
      RingPositive(base, ring, ptr, size, live, cover);
      StillUnder(base, old(cover), brk, cover);
    }

    /** morecore: sbrk's memory, if any, becomes a free block. From 2^28 units on sbrk is asked for less than
        the block, which would then lie outside the process. */
    method Morecore(nu: nat, granted: bool) returns (p: Pointer)
      requires Valid() && Ready() && nu > 0
      modifies this
      ensures p == Null <==> !granted
      ensures p == Unbacked <==> granted && nu >= WORD_RANGE / 2 / HEADER
      ensures !p.To? ==> ring == old(ring) && ptr == old(ptr) && size == old(size) && freep == old(freep)
      ensures !p.To? ==> live == old(live) && cover == old(cover)
      ensures brk == if granted then Moved(old(brk), SbrkArgument(Amount(nu))) else old(brk)
      ensures p != Unbacked ==> Valid()
      ensures p.To? ==> p.addr == freep != 0 && live == old(live) && Roomy(ring, size, nu)
      ensures p.To? ==> cover.Keys == Extend(old(cover), old(brk), Amount(nu)).Keys && brk == old(brk) + Amount(nu)
      ensures Ready() && forall h :: h in live ==> h in size && h in old(size) && size[h] == old(size)[h]
    {
      hide Heap, Roomy, Extend, SbrkArgument, Moved;
      var n := Amount(nu);
      if !granted {
        LiveSized(base, ring, ptr, size, live, cover);
        return Null;
      }
      SbrkGrows(n);
      GrownUnder(base, cover, brk, n, Extend(cover, brk, n));
      var hp := brk;
      brk := Moved(brk, SbrkArgument(n));
      if SbrkArgument(n) != n * HEADER {
        LiveSized(base, ring, ptr, size, live, cover);
        return Unbacked;
      }
      AddCore(base, ring, ptr, size, live, cover, hp, n);
      LiveSized(base, ring, ptr, size, live, cover);
      size := size[hp := n];
      live, cover := live + {hp}, Extend(cover, hp, n);
      Free(hp + 1);
      RoomyLess(ring, size, n, nu);
      RingPositive(base, ring, ptr, size, live, cover);
      p := To(freep);
    }

    /** malloc's last step: all of the free block p, or its upper end, is handed out. */
    method Carve(prevp: nat, p: nat, want: nat, ghost i: nat) returns (h: nat)
      requires Ready() && want > 0 && i < |ring| && prevp == ring[i] && p == NextIn(ring, i)
      requires p in size && size[p] >= want
      modifies this
      ensures Ready() && h !in old(live) && live == old(live) + {h} && cover.Keys == old(cover).Keys
      ensures h in size && size[h] == want && h == p + old(size)[p] - want && freep == prevp && brk == old(brk)
      ensures forall g :: g in old(live) ==> g in size && g in old(size) && size[g] == old(size)[g]
    {
      hide Links, Sorted, Covers, Recover, Inserted, Members;
      NotBase(base, ring, ptr, size, live, cover, i);
      LiveSized(base, ring, ptr, size, live, cover);
      if size[p] == want {
        TakeWhole(base, ring, ptr, size, live, cover, i);
        ptr := ptr[prevp := ptr[p]];
        h := p;
        ring, live := Dropped(ring, i + 1), live + {h};
        assert ring[i] == prevp;
      } else {
        TakeTail(base, ring, ptr, size, live, cover, i + 1, want);
        size := size[p := size[p] - want];
        h := p + size[p];
        size := size[h := want];
        live, cover := live + {h}, Recover(cover, h, want, h);
        assert ring[i] == prevp;
      }
      freep := prevp;
    }

    /** malloc: a block of the computed size that overlaps no live block, the upper end of the first free
        block after freep that is large enough; sbrk is asked only when there is none, and once. Null means
        that it refused, Unbacked that it was asked for less than the block. */
    method Malloc(nbytes: Word, granted: bool) returns (r: Pointer)
      requires Valid()
      modifies this
      ensures Ready() && (r != Unbacked ==> Valid())
      ensures r == Null <==> !granted && TooSmall(old(ring), old(size), Units(nbytes))
      ensures r == Unbacked <==> granted && TooSmall(old(ring), old(size), Units(nbytes))
                                 && Units(nbytes) >= WORD_RANGE / 2 / HEADER
      ensures !r.To? ==> live == old(live)
      ensures r.To? ==> r.addr > 0 && r.addr - 1 !in old(live) && live == old(live) + {r.addr - 1}
      ensures r.To? ==> r.addr - 1 in size && size[r.addr - 1] == Units(nbytes)
      ensures !TooSmall(old(ring), old(size), Units(nbytes)) ==>
                r.To? && FirstFit(old(ring), old(size), old(freep), Units(nbytes), r.addr - 1)
      ensures forall h :: h in old(live) ==> h in size && h in old(size) && size[h] == old(size)[h]
      ensures cover.Keys == if r.To? && TooSmall(old(ring), old(size), Units(nbytes))
                            then Extend(old(cover), old(brk), Amount(Units(nbytes))).Keys else old(cover).Keys
    {
      hide Heap, Scanned, TooSmall, Roomy, Extend, Units, NextIn, FirstFit, Under, Moved, SbrkArgument;
      var nunits := Units(nbytes);
      var prevp := freep;
      if prevp == 0 {
        EmptyHeap(base, ptr, size);
        NoneFits(base, size, nunits);
        ptr, freep, prevp := ptr[base := base], base, base;
        size := size[base := 0];
        ring := [base];
        assert freep == ring[0];
      }
      ghost var ring0, size0 := ring, size;
      assert TooSmall(ring0, size0, nunits) == TooSmall(old(ring), old(size), nunits);
      LiveSized(base, ring, ptr, size, live, cover);
      ghost var i: nat, f: nat := Position(ring, freep), Position(ring, freep);
      Next(base, ring, ptr, size, live, cover, i);
      ScanStart(ring, size, nunits, f);
      var p := ptr[prevp];
      ghost var grown := false;
      while true
        invariant Ready() && i < |ring| && f < |ring| && prevp == ring[i] && ring[f] == freep
        invariant p == ring[After(|ring|, i)]
        invariant Sized(ring, size) && Scanned(ring, size, nunits, f, After(|ring|, i))
        invariant live == old(live) && forall h :: h in live ==> h in size && h in old(size) && size[h] == old(size)[h]
        invariant grown ==> nunits < WORD_RANGE / 2 / HEADER
        invariant Valid()
        invariant if grown then TooSmall(ring0, size0, nunits) && granted && Roomy(ring, size, nunits)
                             && cover.Keys == Extend(old(cover), old(brk), Amount(nunits)).Keys
                  else brk == old(brk) && ring == ring0 && size == size0 && cover == old(cover)
                       && (old(freep) != 0 ==> freep == old(freep))
        decreases !grown, Hops(|ring|, After(|ring|, i), f)
      {
        Next(base, ring, ptr, size, live, cover, i);
        Next(base, ring, ptr, size, live, cover, After(|ring|, i));
        if size[p] >= nunits {
          Fits(ring, size, nunits, freep, f, After(|ring|, i));
          ghost var cover1 := cover;
          var h := Carve(prevp, p, nunits, i);
          RingPositive(base, ring, ptr, size, live, cover);
          StillUnder(base, cover1, brk, cover);
          return To(h + 1);
        }
        if p == freep {
          Unique(base, ring, ptr, size, live, cover, After(|ring|, i), f);
          ScanEnd(ring, size, nunits, f);
          var more := Morecore(nunits, granted);
          if !more.To? {
            return more;
          }
          p := more.addr;
          grown := true;
          i, f := Position(ring, freep), Position(ring, freep);
          Next(base, ring, ptr, size, live, cover, i);
          ScanStart(ring, size, nunits, f);
        } else {
          ScanNext(ring, size, nunits, f, After(|ring|, i));
          i := After(|ring|, i);
        }
        prevp, p := p, ptr[p];
      }
    }
  }
}
