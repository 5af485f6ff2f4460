/** The K&R free list: a circular, address-ordered, coalesced ring of headers, and the units of memory
    that free and live blocks cover. Addresses and sizes are in units of one header. */
module FreeList {
  import opened Sequences

  type Words = map<nat, nat>

  function NextIn(ring: seq<nat>, i: nat): nat
    requires i < |ring|
  {
    if i + 1 < |ring| then ring[i + 1] else ring[0]
  }

  ghost predicate Linked(ring: seq<nat>, ptr: Words, i: nat)
    requires i < |ring|
  {
    ring[i] in ptr && ptr[ring[i]] == NextIn(ring, i)
  }

  /** The ring is in address order with one wrap: each header points to the next, the last to the first. */
  ghost predicate Links(ring: seq<nat>, ptr: Words) {
    forall i :: 0 <= i < |ring| ==> Linked(ring, ptr, i)
  }

  /** The free headers, from the sentinel `base` up; between the end of one block and the next there is a
      gap, so no two could be merged. */
  ghost predicate Sorted(base: nat, ring: seq<nat>, size: Words) {
    && |ring| >= 1 && ring[0] == base && base > 0
    && (forall i :: 0 <= i < |ring| ==> ring[i] in size)
    && size[base] == 0
    && (forall i :: 0 < i < |ring| ==> size[ring[i]] >= 1)
    && (forall i, j :: 0 <= i < j < |ring| ==> ring[i] + size[ring[i]] < ring[j])
  }

  predicate Inside(size: Words, h: nat, u: nat) {
    h in size && h <= u < h + size[h]
  }

  /** `cover` tells which block of `held` each unit of the heap belongs to: exactly one. */
  ghost predicate Covers(held: set<nat>, size: Words, cover: Words) {
    && (forall h :: h in held ==> h in size && size[h] >= 1)
    && (forall u :: u in cover ==> cover[u] in held && Inside(size, cover[u], u))
    && (forall h, u :: h in held && Inside(size, h, u) ==> u in cover && cover[u] == h)
  }

  /** The blocks that hold memory: the live ones, and the free ones but for the sentinel. */
  function Held(base: nat, ring: seq<nat>, live: set<nat>): set<nat> {
    live + (Members(ring) - {base})
  }

  /** A well-formed heap: every unit obtained from sbrk (a key of `cover`) lies in exactly one block, free
      or live. */
  ghost predicate Heap(base: nat, ring: seq<nat>, ptr: Words, size: Words, live: set<nat>, cover: Words) {
    && Sorted(base, ring, size) && Links(ring, ptr)
    && Covers(Held(base, ring, live), size, cover)
    && live !! Members(ring) && forall h :: h in live ==> h > base
  }

  // ------------------------------------------------------------ covering

  function Recover(cover: Words, a: nat, n: nat, h: nat): (r: Words)
    ensures forall u :: u in r <==> u in cover
    ensures forall u :: u in cover ==> r[u] == if a <= u < a + n then h else cover[u]
  {
    map u | u in cover :: if a <= u < a + n then h else cover[u]
  }

  /** Two adjacent blocks become one. */
  lemma {:induction false} MergeCovers(held: set<nat>, size: Words, cover: Words, a: nat, b: nat)
    requires Covers(held, size, cover) && a in held && b in held && a != b && a + size[a] == b
    ensures Covers(held - {b}, size[a := size[a] + size[b]], Recover(cover, b, size[b], a))
  {
    var s, c := size[a := size[a] + size[b]], Recover(cover, b, size[b], a);
    forall u | u in c ensures c[u] in held - {b} && Inside(s, c[u], u) {
      assert cover[u] in held && Inside(size, cover[u], u);
      assert b <= u < b + size[b] ==> Inside(size, b, u);
    }
    forall h: nat, u: nat | h in held - {b} && Inside(s, h, u) ensures u in c && c[u] == h {
      assert Inside(size, if h == a && u >= b then b else h, u);
      assert b <= u < b + size[b] ==> Inside(size, b, u);
    }
  }

  /** The upper part of a block becomes a block of its own. */
  lemma {:induction false} SplitCovers(held: set<nat>, size: Words, cover: Words, a: nat, n: nat)
    requires Covers(held, size, cover) && a in held && 0 < n < size[a]
    ensures var b := a + size[a] - n;
            b !in held && Covers(held + {b}, size[a := size[a] - n][b := n], Recover(cover, b, n, b))
  {
    var b := a + size[a] - n;
    assert Inside(size, a, b);
    assert b in held ==> Inside(size, b, b);
    var s, c := size[a := size[a] - n][b := n], Recover(cover, b, n, b);
    forall u | u in c ensures c[u] in held + {b} && Inside(s, c[u], u) {
      assert cover[u] in held && Inside(size, cover[u], u);
      assert b <= u < b + n ==> Inside(size, a, u);
    }
    forall h: nat, u: nat | h in held + {b} && Inside(s, h, u) ensures u in c && c[u] == h {
      assert Inside(size, if h == b then a else h, u);
      assert b <= u < b + n ==> Inside(size, a, u);
    }
  }

  function Extend(cover: Words, a: nat, n: nat): (r: Words)
    ensures forall u :: u in r <==> u in cover || a <= u < a + n
    ensures forall u :: u in r ==> r[u] == if a <= u < a + n then a else cover[u]
  {
    if n == 0 then cover else Extend(cover, a, n - 1)[a + n - 1 := a]
  }

  /** A new block of fresh units. */
  lemma {:induction false} GrowCovers(held: set<nat>, size: Words, cover: Words, a: nat, n: nat)
    requires Covers(held, size, cover) && n > 0 && forall u :: u in cover ==> u < a
    ensures a !in held && Covers(held + {a}, size[a := n], Extend(cover, a, n))
  {
    assert a in held ==> Inside(size, a, a);
    var s, c := size[a := n], Extend(cover, a, n);
    forall u | u in c ensures c[u] in held + {a} && Inside(s, c[u], u) {
      if u < a { assert Inside(size, cover[u], u); }
    }
    forall h: nat, u: nat | h in held + {a} && Inside(s, h, u) ensures u in c && c[u] == h {
      if h != a { assert Inside(size, h, u); }
    }
  }

  // ------------------------------------------------------------ the place of a block

  /** Where a block at bp belongs: after ring[i]. */
  ghost predicate Slot(ring: seq<nat>, bp: nat, i: nat) {
    && i < |ring| && ring[i] < bp
    && (i + 1 < |ring| ==> bp < ring[i + 1])
  }

  lemma {:induction false} FindSlot(base: nat, ring: seq<nat>, size: Words, bp: nat) returns (i: nat)
    requires Sorted(base, ring, size) && bp > base && bp !in ring
    ensures Slot(ring, bp, i)
  {
    i := 0;
    while i + 1 < |ring| && ring[i + 1] < bp
      invariant 0 <= i < |ring| && ring[i] < bp
    {
      i := i + 1;
    }
  }

  /** A live block keeps clear of its free neighbours. */
  lemma {:induction false} SlotClear(base: nat, ring: seq<nat>, ptr: Words, size: Words, live: set<nat>, cover: Words,
                                     bp: nat, i: nat)
    requires Heap(base, ring, ptr, size, live, cover) && bp in live && Slot(ring, bp, i)
    ensures bp in size && size[bp] >= 1 && bp !in ring
    ensures ring[i] + size[ring[i]] <= bp
    ensures i + 1 < |ring| ==> bp + size[bp] <= ring[i + 1]
  {
    hide Links;
    var held := Held(base, ring, live);
    assert bp in held && Inside(size, bp, bp);
    if i > 0 {
      assert ring[i] in held;
      assert ring[i] + size[ring[i]] > bp ==> Inside(size, ring[i], bp);
    }
    if i + 1 < |ring| {
      assert ring[i + 1] in held && Inside(size, ring[i + 1], ring[i + 1]);
      assert bp + size[bp] > ring[i + 1] ==> Inside(size, bp, ring[i + 1]);
    }
  }

  // ------------------------------------------------------------ rings with one header more or less

  function Inserted(ring: seq<nat>, i: nat, bp: nat): (r: seq<nat>)
    requires i < |ring|
    ensures |r| == |ring| + 1
    ensures forall k :: 0 <= k < |r| ==> r[k] == if k <= i then ring[k] else if k == i + 1 then bp else ring[k - 1]
  {
    ring[..i + 1] + [bp] + ring[i + 1..]
  }

  lemma {:induction false} InsertedMembers(ring: seq<nat>, i: nat, bp: nat)
    requires i < |ring|
    ensures Members(Inserted(ring, i, bp)) == Members(ring) + {bp}
  {
    assert ring == ring[..i + 1] + ring[i + 1..];
  }

  lemma {:induction false} DroppedMembers(ring: seq<nat>, i: nat)
    requires i < |ring| && forall j, k :: 0 <= j < k < |ring| ==> ring[j] != ring[k]
    ensures Members(Dropped(ring, i)) == Members(ring) - {ring[i]}
  {
    var r := Dropped(ring, i);
    forall h | h in ring && h != ring[i] ensures h in r {
      var j :| 0 <= j < |ring| && ring[j] == h;
      assert h == if j < i then r[j] else r[j - 1];
    }
    forall h | h in r ensures h in ring && h != ring[i] {
      var j :| 0 <= j < |r| && r[j] == h;
    }
  }

  lemma {:induction false} SortedDistinct(base: nat, ring: seq<nat>, size: Words)
    requires Sorted(base, ring, size)
    ensures forall j, k :: 0 <= j < k < |ring| ==> ring[j] != ring[k]
  {
  }

  lemma {:induction false} SortedInsert(base: nat, ring: seq<nat>, size: Words, i: nat, bp: nat)
    requires Sorted(base, ring, size) && i < |ring| && bp in size && size[bp] >= 1
    requires ring[i] + size[ring[i]] < bp && (i + 1 < |ring| ==> bp + size[bp] < ring[i + 1])
    ensures Sorted(base, Inserted(ring, i, bp), size)
  {
    var r := Inserted(ring, i, bp);
    forall j, k | 0 <= j < k < |r| ensures r[j] + size[r[j]] < r[k] {
      if j == i + 1 {
        assert k - 1 == i + 1 || ring[i + 1] + size[ring[i + 1]] < ring[k - 1];
      } else if k == i + 1 {
        assert j == i || ring[j] + size[ring[j]] < ring[i];
      }
    }
  }

  lemma {:induction false} LinksInsert(ring: seq<nat>, ptr: Words, i: nat, bp: nat)
    requires Links(ring, ptr) && i < |ring| && bp !in ring
    requires forall j, k :: 0 <= j < k < |ring| ==> ring[j] != ring[k]
    ensures Links(Inserted(ring, i, bp), ptr[bp := NextIn(ring, i)][ring[i] := bp])
  {
    var r, q := Inserted(ring, i, bp), ptr[bp := NextIn(ring, i)][ring[i] := bp];
    forall j | 0 <= j < |r| ensures Linked(r, q, j) {
      if j < i {
        assert Linked(ring, ptr, j);
      } else if j > i + 1 {
        assert Linked(ring, ptr, j - 1);
      }
    }
  }

  /** Replacing a header by one that merges it from below. */
  lemma {:induction false} LinksReplace(ring: seq<nat>, ptr: Words, i: nat, bp: nat)
    requires Links(ring, ptr) && i + 1 < |ring| && bp !in ring
    requires forall j, k :: 0 <= j < k < |ring| ==> ring[j] != ring[k]
    ensures ring[i + 1] in ptr && Links(ring[i + 1 := bp], ptr[bp := ptr[ring[i + 1]]][ring[i] := bp])
  {
    assert Linked(ring, ptr, i + 1);
    var r, q := ring[i + 1 := bp], ptr[bp := ptr[ring[i + 1]]][ring[i] := bp];
    forall j | 0 <= j < |r| ensures Linked(r, q, j) {
      assert Linked(ring, ptr, j);
    }
  }

  lemma {:induction false} ReplacedMembers(ring: seq<nat>, k: nat, bp: nat)
    requires k < |ring| && bp !in ring && forall i, j :: 0 <= i < j < |ring| ==> ring[i] != ring[j]
    ensures Members(ring[k := bp]) == Members(ring) - {ring[k]} + {bp}
  {
    var r := ring[k := bp];
    assert r[k] == bp;
    forall h | h in ring && h != ring[k] ensures h in r {
      var j :| 0 <= j < |ring| && ring[j] == h;
      assert r[j] == h;
    }
    forall h | h in r && h != bp ensures h in ring && h != ring[k] {
      var j :| 0 <= j < |r| && r[j] == h;
      assert ring[j] == h;
    }
  }

  lemma {:induction false} LinksDrop(ring: seq<nat>, ptr: Words, i: nat)
    requires Links(ring, ptr) && i + 1 < |ring|
    requires forall j, k :: 0 <= j < k < |ring| ==> ring[j] != ring[k]
    ensures ring[i + 1] in ptr && Links(Dropped(ring, i + 1), ptr[ring[i] := ptr[ring[i + 1]]])
  {
    assert Linked(ring, ptr, i + 1);
    var r, q := Dropped(ring, i + 1), ptr[ring[i] := ptr[ring[i + 1]]];
    forall j | 0 <= j < |r| ensures Linked(r, q, j) {
      assert Linked(ring, ptr, if j <= i then j else j + 1);
    }
  }

  lemma {:induction false} SortedDrop(base: nat, ring: seq<nat>, size: Words, k: nat)
    requires Sorted(base, ring, size) && 0 < k < |ring|
    ensures Sorted(base, Dropped(ring, k), size)
  {
  }

  // ------------------------------------------------------------ free, case by case

  /** Everything a freed block bp and its place after ring[i] share: the setting of the four cases. */
  ghost predicate Freeing(base: nat, ring: seq<nat>, ptr: Words, size: Words, live: set<nat>, cover: Words, bp: nat,
                          i: nat) {
    Heap(base, ring, ptr, size, live, cover) && bp in live && Slot(ring, bp, i)
  }

  /** No neighbour touches: a new header in the ring. */
  lemma {:induction false} FreeAlone(base: nat, ring: seq<nat>, ptr: Words, size: Words, live: set<nat>, cover: Words,
                                     bp: nat, i: nat)
    requires Freeing(base, ring, ptr, size, live, cover, bp, i)
    requires bp in size && bp + size[bp] != NextIn(ring, i) && ring[i] in size && ring[i] + size[ring[i]] != bp
    ensures Heap(base, Inserted(ring, i, bp), ptr[bp := NextIn(ring, i)][ring[i] := bp], size, live - {bp}, cover)
  {
    SlotClear(base, ring, ptr, size, live, cover, bp, i);
    SortedDistinct(base, ring, size);
    SortedInsert(base, ring, size, i, bp);
    hide Sorted, Links, Covers, Inserted, Members;
    LinksInsert(ring, ptr, i, bp);
    InsertedMembers(ring, i, bp);
    assert Held(base, Inserted(ring, i, bp), live - {bp}) == Held(base, ring, live);
  }

  lemma {:induction false} HeldReplace(base: nat, ms: set<nat>, live: set<nat>, up: nat, bp: nat)
    requires bp in live && live !! ms && up in ms && up != base && bp != base
    ensures (live - {bp}) + ((ms - {up} + {bp}) - {base}) == (live + (ms - {base})) - {up}
    ensures (live - {bp}) !! (ms - {up} + {bp})
  {
  }

  lemma {:induction false} SortedReplace(base: nat, ring: seq<nat>, size: Words, i: nat, bp: nat)
    requires Sorted(base, ring, size) && i + 1 < |ring| && bp in size && size[bp] >= 1 && bp !in ring
    requires ring[i] + size[ring[i]] < bp && bp + size[bp] == ring[i + 1]
    ensures Sorted(base, ring[i + 1 := bp], size[bp := size[bp] + size[ring[i + 1]]])
  {
    var r, s := ring[i + 1 := bp], size[bp := size[bp] + size[ring[i + 1]]];
    forall j, k | 0 <= j < k < |r| ensures r[j] + s[r[j]] < r[k] {
      if k == i + 1 {
        assert j == i || ring[j] + size[ring[j]] < ring[i];
      }
    }
  }

  lemma {:induction false} UpperNeighbour(base: nat, ring: seq<nat>, size: Words, bp: nat, i: nat)
    requires Sorted(base, ring, size) && Slot(ring, bp, i) && bp in size && bp > base
    requires bp + size[bp] == NextIn(ring, i)
    ensures i + 1 < |ring| && NextIn(ring, i) == ring[i + 1] && ring[i + 1] in size && ring[i + 1] > base
  {
  }

  lemma {:induction false} MembersIn(ring: seq<nat>, h: nat)
    ensures h in Members(ring) <==> h in ring
  {
  }

  /** The upper neighbour touches: bp takes its place, with both sizes. */
  lemma {:induction false} FreeUpper(base: nat, ring: seq<nat>, ptr: Words, size: Words, live: set<nat>, cover: Words,
                                     bp: nat, i: nat)
    requires Freeing(base, ring, ptr, size, live, cover, bp, i)
    requires bp in size && bp + size[bp] == NextIn(ring, i) && ring[i] in size && ring[i] + size[ring[i]] != bp
    ensures i + 1 < |ring| && ring[i + 1] in ptr && ring[i + 1] in size
    ensures var up := ring[i + 1];
            Heap(base, ring[i + 1 := bp], ptr[bp := ptr[up]][ring[i] := bp], size[bp := size[bp] + size[up]],
                 live - {bp}, Recover(cover, up, size[up], bp))
  {
    hide Links, Sorted, Covers, Recover, Members, Slot, NextIn;
    SlotClear(base, ring, ptr, size, live, cover, bp, i);
    UpperNeighbour(base, ring, size, bp, i);
    SortedDistinct(base, ring, size);
    var up := ring[i + 1];
    MembersIn(ring, up);
    MembersIn(ring, bp);
    LinksReplace(ring, ptr, i, bp);
    ReplacedMembers(ring, i + 1, bp);
    SortedReplace(base, ring, size, i, bp);
    MergeCovers(Held(base, ring, live), size, cover, bp, up);
    HeldReplace(base, Members(ring), live, up, bp);
  }

  lemma {:induction false} SlotInRing(ring: seq<nat>, bp: nat, i: nat)
    requires Slot(ring, bp, i)
    ensures i < |ring|
  {
  }

  lemma {:induction false} HeldLess(base: nat, ms: set<nat>, live: set<nat>, bp: nat)
    requires bp in live && live !! ms
    ensures (live - {bp}) + (ms - {base}) == (live + (ms - {base})) - {bp} && (live - {bp}) !! ms
  {
  }

  lemma {:induction false} LinksSame(ring: seq<nat>, ptr: Words, bp: nat, x: nat, i: nat)
    requires Links(ring, ptr) && bp !in ring && i < |ring| && x == NextIn(ring, i)
    ensures Links(ring, ptr[bp := x][ring[i] := x])
  {
    var q := ptr[bp := x][ring[i] := x];
    forall j | 0 <= j < |ring| ensures Linked(ring, q, j) {
      assert Linked(ring, ptr, j) && Linked(ring, ptr, i);
      if ring[j] == ring[i] { assert ptr[ring[j]] == ptr[ring[i]]; }
    }
  }

  lemma {:induction false} SortedGrow(base: nat, ring: seq<nat>, size: Words, i: nat, n: nat)
    requires Sorted(base, ring, size) && 0 < i < |ring|
    requires i + 1 < |ring| ==> ring[i] + size[ring[i]] + n < ring[i + 1]
    ensures Sorted(base, ring, size[ring[i] := size[ring[i]] + n])
  {
    var s := size[ring[i] := size[ring[i]] + n];
    forall j, k | 0 <= j < k < |ring| ensures ring[j] + s[ring[j]] < ring[k] {
      if j == i && k > i + 1 {
        assert ring[i + 1] + size[ring[i + 1]] < ring[k];
      }
    }
  }

  lemma {:induction false} NotSentinel(base: nat, ring: seq<nat>, size: Words, i: nat, end: nat)
    requires Sorted(base, ring, size) && i < |ring| && end > base && ring[i] + size[ring[i]] == end
    ensures i > 0 && ring[i] in size && ring[i] != base && ring[i] in Members(ring)
  {
  }

  /** The lower neighbour touches: it swallows bp. */
  lemma {:induction false} FreeLower(base: nat, ring: seq<nat>, ptr: Words, size: Words, live: set<nat>, cover: Words,
                                     bp: nat, i: nat)
    requires Freeing(base, ring, ptr, size, live, cover, bp, i)
    requires bp in size && bp + size[bp] != NextIn(ring, i) && ring[i] in size && ring[i] + size[ring[i]] == bp
    ensures var p := ring[i];
            Heap(base, ring, ptr[bp := NextIn(ring, i)][p := NextIn(ring, i)], size[p := size[p] + size[bp]],
                 live - {bp}, Recover(cover, bp, size[bp], p))
  {
    hide Links, Sorted, Covers, Recover, Members, Slot;
    SlotClear(base, ring, ptr, size, live, cover, bp, i);
    SlotInRing(ring, bp, i);
    NotSentinel(base, ring, size, i, bp);
    var p := ring[i];
    MembersIn(ring, bp);
    MergeCovers(Held(base, ring, live), size, cover, p, bp);
    LinksSame(ring, ptr, bp, NextIn(ring, i), i);
    SortedGrow(base, ring, size, i, size[bp]);
    HeldLess(base, Members(ring), live, bp);
  }

  lemma {:induction false} HeldDrop(base: nat, ms: set<nat>, live: set<nat>, up: nat, bp: nat)
    requires bp in live && live !! ms && up in ms && up != base
    ensures (live - {bp}) + ((ms - {up}) - {base}) == (live + (ms - {base})) - {up} - {bp}
    ensures (live - {bp}) !! (ms - {up})
  {
  }

  lemma {:induction false} BothCovers(held: set<nat>, size: Words, cover: Words, p: nat, bp: nat, up: nat)
    requires Covers(held, size, cover) && p in held && bp in held && up in held && p != bp && bp != up && p != up
    requires p in size && bp in size && up in size && p + size[p] == bp && bp + size[bp] == up
    ensures var n := size[bp] + size[up];
            Covers(held - {up} - {bp}, size[bp := n][p := size[p] + n],
                   Recover(Recover(cover, up, size[up], bp), bp, n, p))
  {
    hide Covers, Recover;
    var n := size[bp] + size[up];
    MergeCovers(held, size, cover, bp, up);
    MergeCovers(held - {up}, size[bp := n], Recover(cover, up, size[up], bp), p, bp);
  }

  lemma {:induction false} LinksExtra(ring: seq<nat>, ptr: Words, bp: nat, x: nat)
    requires Links(ring, ptr) && bp !in ring
    ensures Links(ring, ptr[bp := x])
  {
    var q := ptr[bp := x];
    forall j | 0 <= j < |ring| ensures Linked(ring, q, j) {
      assert Linked(ring, ptr, j);
    }
  }

  lemma {:induction false} BothLinks(ring: seq<nat>, ptr: Words, bp: nat, i: nat)
    requires Links(ring, ptr) && i + 1 < |ring| && bp !in ring
    requires forall j, k :: 0 <= j < k < |ring| ==> ring[j] != ring[k]
    ensures ring[i + 1] in ptr
    ensures var x := ptr[ring[i + 1]]; Links(Dropped(ring, i + 1), ptr[bp := x][ring[i] := x])
  {
    LinksDrop(ring, ptr, i);
    var x := ptr[ring[i + 1]];
    LinksExtra(Dropped(ring, i + 1), ptr[ring[i] := x], bp, x);
    assert ptr[bp := x][ring[i] := x] == ptr[ring[i] := x][bp := x];
  }

  lemma {:induction false} SortedBoth(base: nat, ring: seq<nat>, size: Words, i: nat, bp: nat, n: nat)
    requires Sorted(base, ring, size) && 0 < i && i + 1 < |ring| && bp in size && bp !in ring
    requires ring[i] + size[ring[i]] + n == ring[i + 1] + size[ring[i + 1]]
    ensures Sorted(base, Dropped(ring, i + 1), size[bp := n][ring[i] := size[ring[i]] + n])
  {
    var r, s := Dropped(ring, i + 1), size[bp := n][ring[i] := size[ring[i]] + n];
    forall j, k | 0 <= j < k < |r| ensures r[j] + s[r[j]] < r[k] {
      if j == i {
        assert ring[i + 1] + size[ring[i + 1]] < ring[k + 1];
      }
    }
  }

  /** Both neighbours touch: three blocks become one. */
  lemma {:induction false} FreeBoth(base: nat, ring: seq<nat>, ptr: Words, size: Words, live: set<nat>, cover: Words,
                                    bp: nat, i: nat)
    requires Freeing(base, ring, ptr, size, live, cover, bp, i)
    requires bp in size && bp + size[bp] == NextIn(ring, i) && ring[i] in size && ring[i] + size[ring[i]] == bp
    ensures i + 1 < |ring| && ring[i + 1] in ptr && ring[i + 1] in size
    ensures var p, up := ring[i], ring[i + 1];
            var n := size[bp] + size[up];
            Heap(base, Dropped(ring, i + 1), ptr[bp := ptr[up]][p := ptr[up]], size[bp := n][p := size[p] + n],
                 live - {bp}, Recover(Recover(cover, up, size[up], bp), bp, n, p))
  {
    hide Links, Sorted, Covers, Recover, Dropped, Members, Slot, NextIn;
    SlotClear(base, ring, ptr, size, live, cover, bp, i);
    UpperNeighbour(base, ring, size, bp, i);
    SortedDistinct(base, ring, size);
    var p, up := ring[i], ring[i + 1];
    var n := size[bp] + size[up];
    assert bp !in Members(ring) by { MembersIn(ring, bp); }
    NotSentinel(base, ring, size, i, bp);
    NotSentinel(base, ring, size, i + 1, up + size[up]);
    BothCovers(Held(base, ring, live), size, cover, p, bp, up);
    BothLinks(ring, ptr, bp, i);
    DroppedMembers(ring, i + 1);
    SortedBoth(base, ring, size, i, bp, n);
    HeldDrop(base, Members(ring), live, up, bp);
  }

  // ------------------------------------------------------------ malloc

  /** A free block of exactly the wanted size leaves the ring. */
  lemma {:induction false} TakeWhole(base: nat, ring: seq<nat>, ptr: Words, size: Words, live: set<nat>, cover: Words,
                                     i: nat)
    requires Heap(base, ring, ptr, size, live, cover) && i + 1 < |ring|
    ensures ring[i + 1] in ptr && ring[i + 1] !in live && ring[i + 1] > base
    ensures Heap(base, Dropped(ring, i + 1), ptr[ring[i] := ptr[ring[i + 1]]], size, live + {ring[i + 1]}, cover)
  {
    SortedDistinct(base, ring, size);
    LinksDrop(ring, ptr, i);
    SortedDrop(base, ring, size, i + 1);
    DroppedMembers(ring, i + 1);
    assert ring[0] + size[ring[0]] < ring[i + 1];
    hide Links, Sorted, Covers, Dropped;
    assert Held(base, Dropped(ring, i + 1), live + {ring[i + 1]}) == Held(base, ring, live);
  }

  lemma {:induction false} SortedShrink(base: nat, ring: seq<nat>, size: Words, i: nat, n: nat, h: nat)
    requires Sorted(base, ring, size) && 0 < i < |ring| && 0 < n < size[ring[i]] && h !in ring
    ensures Sorted(base, ring, size[ring[i] := size[ring[i]] - n][h := n])
  {
    var s := size[ring[i] := size[ring[i]] - n][h := n];
    forall j, k | 0 <= j < k < |ring| ensures ring[j] + s[ring[j]] < ring[k] {
      assert ring[j] + size[ring[j]] < ring[k];
    }
  }

  /** A larger one gives up its upper end. */
  lemma {:induction false} TakeTail(base: nat, ring: seq<nat>, ptr: Words, size: Words, live: set<nat>, cover: Words,
                                    i: nat, n: nat)
    requires Heap(base, ring, ptr, size, live, cover) && 0 < i < |ring| && 0 < n < size[ring[i]]
    ensures var p := ring[i]; var h := p + size[p] - n;
            && h !in live && h !in ring && h > base
            && Heap(base, ring, ptr, size[p := size[p] - n][h := n], live + {h}, Recover(cover, h, n, h))
  {
    var p := ring[i];
    var h := p + size[p] - n;
    assert p in Held(base, ring, live);
    SplitCovers(Held(base, ring, live), size, cover, p, n);
    assert h !in ring by { assert h > base; assert h in ring ==> h in Held(base, ring, live); }
    SortedShrink(base, ring, size, i, n, h);
    hide Links, Sorted, Covers, Recover;
    assert Held(base, ring, live + {h}) == Held(base, ring, live) + {h};
  }

  lemma {:induction false} SortedExtra(base: nat, ring: seq<nat>, size: Words, a: nat, n: nat)
    requires Sorted(base, ring, size) && a !in ring
    ensures Sorted(base, ring, size[a := n])
  {
    var s := size[a := n];
    forall j, k | 0 <= j < k < |ring| ensures ring[j] + s[ring[j]] < ring[k] {
    }
  }

  /** Fresh memory from sbrk, above everything, enters as a live block for free to release. */
  lemma {:induction false} AddCore(base: nat, ring: seq<nat>, ptr: Words, size: Words, live: set<nat>, cover: Words,
                                   a: nat, n: nat)
    requires Heap(base, ring, ptr, size, live, cover) && n > 0 && a > base && forall u :: u in cover ==> u < a
    ensures a !in live && a !in ring && Heap(base, ring, ptr, size[a := n], live + {a}, Extend(cover, a, n))
  {
    GrowCovers(Held(base, ring, live), size, cover, a, n);
    assert a !in ring;
    SortedExtra(base, ring, size, a, n);
    hide Links, Sorted, Covers, Extend;
    assert Held(base, ring, live + {a}) == Held(base, ring, live) + {a};
  }

  /** The empty heap that the first malloc sets up. */
  lemma {:induction false} EmptyHeap(base: nat, ptr: Words, size: Words)
    requires base > 0
    ensures Heap(base, [base], ptr[base := base], size[base := 0], {}, map[])
  {
    var ring := [base];
    assert Linked(ring, ptr[base := base], 0);
  }
}
