/** The slab allocator: intrusive free lists over slabs taken from the system. */
module SlabAllocators {

  const ALIGN := 16
  const MAX_SMALL := 512
  const SLAB_SIZE := 0x10_0000
  const CLASSES := 32

  type Class = c: nat | c < CLASSES

  /** The size of a block of a class. */
  function Size(c: Class): nat {
    (c + 1) * ALIGN
  }

  function PerSlab(c: Class): nat {
    SLAB_SIZE / Size(c)
  }

  /** The smallest class whose blocks hold `bytes` bytes. */
  function SizeClass(bytes: nat): (c: Class)
    requires 0 < bytes <= MAX_SMALL
    ensures bytes <= Size(c) && (c > 0 ==> Size(c - 1) < bytes)
  {
    (bytes + ALIGN - 1) / ALIGN - 1
  }

  /** A slab, and the class it was carved for. */
  datatype Slab = Slab(base: nat, cls: Class)

  predicate OnBlock(slab: Slab, j: nat, a: nat, c: Class) {
    slab.cls == c && j < PerSlab(c) && a == slab.base + j * Size(c)
  }

  /** The address is where a block of the class starts. */
  ghost predicate IsBlock(slabs: seq<Slab>, a: nat, c: Class) {
    exists i, j :: 0 <= i < |slabs| && OnBlock(slabs[i], j, a, c)
  }

  predicate Apart(a: nat, n: nat, b: nat, m: nat) {
    a + n <= b || b + m <= a
  }

  /** Slabs as the system hands them out: aligned, not null, and not overlapping. */
  ghost predicate SlabsOk(slabs: seq<Slab>) {
    && (forall i :: 0 <= i < |slabs| ==> slabs[i].base > 0 && slabs[i].base % ALIGN == 0)
    && forall i, k :: 0 <= i < k < |slabs| ==> Apart(slabs[i].base, SLAB_SIZE, slabs[k].base, SLAB_SIZE)
  }

  // ---------------------------------------------------------------------------
  // Geometry
  // ---------------------------------------------------------------------------

  lemma InsideSlab(slab: Slab, j: nat, a: nat, c: Class)
    requires OnBlock(slab, j, a, c)
    ensures slab.base <= a && a + Size(c) <= slab.base + SLAB_SIZE
  {
    var s, n := Size(c), PerSlab(c);
    assert n * s <= SLAB_SIZE;
    hide Size, PerSlab;
    Further(j, n, s);
  }

  lemma Multiple(base: nat, j: nat, c: Class)
    requires base % ALIGN == 0
    ensures (base + j * Size(c)) % ALIGN == 0
  {
    var t := c + 1;
    assert j * (t * ALIGN) == j * t * ALIGN;
    ManyAligns(j * t, base);
  }

  lemma ManyAligns(n: nat, base: nat)
    requires base % ALIGN == 0
    ensures (base + n * ALIGN) % ALIGN == 0
  {
  }

  lemma SameSlabApart(slab: Slab, j: nat, a: nat, k: nat, b: nat, c: Class)
    requires OnBlock(slab, j, a, c) && OnBlock(slab, k, b, c)
    ensures a == b <==> j == k
    ensures a != b ==> Apart(a, Size(c), b, Size(c))
  {
    hide Size, PerSlab;
    if j < k {
      Further(j, k, Size(c));
    } else if k < j {
      Further(k, j, Size(c));
    }
    assert Size(c) > 0 by { SizePositive(c); }
  }

  lemma SizePositive(c: Class)
    ensures Size(c) >= ALIGN
  {
  }

  lemma {:induction false} Further(j: nat, k: nat, s: nat)
    requires j < k
    ensures j * s + s <= k * s
  {
    if k > j + 1 {
      Further(j, k - 1, s);
    }
    assert k * s == (k - 1) * s + s;
  }

  /** Two blocks, of whatever classes, are the same block or do not overlap; every block is aligned and inside a
      slab. */
  lemma BlocksApart(slabs: seq<Slab>, a: nat, c: Class, b: nat, d: Class)
    requires SlabsOk(slabs) && IsBlock(slabs, a, c) && IsBlock(slabs, b, d)
    ensures if a == b then c == d else Apart(a, Size(c), b, Size(d))
    ensures a > 0 && a % ALIGN == 0
    ensures exists i :: 0 <= i < |slabs| && slabs[i].base <= a && a + Size(c) <= slabs[i].base + SLAB_SIZE
  {
    var i, j :| 0 <= i < |slabs| && OnBlock(slabs[i], j, a, c);
    var k, l :| 0 <= k < |slabs| && OnBlock(slabs[k], l, b, d);
    InsideSlab(slabs[i], j, a, c);
    InsideSlab(slabs[k], l, b, d);
    Multiple(slabs[i].base, j, c);
    if i == k {
      SameSlabApart(slabs[i], j, a, l, b, c);
    }
  }

  // ---------------------------------------------------------------------------
  // Free lists
  // ---------------------------------------------------------------------------

  /** Following `next` from `head` visits the blocks of `list`, then null. */
  ghost predicate Chain(next: map<nat, nat>, head: nat, list: seq<nat>)
    decreases list
  {
    if list == [] then head == 0
    else head == list[0] && head > 0 && head in next && Chain(next, next[head], list[1..])
  }

  ghost predicate NoRepeats(list: seq<nat>) {
    forall i, j :: 0 <= i < j < |list| ==> list[i] != list[j]
  }

  lemma {:induction false} ChainFrame(next: map<nat, nat>, next': map<nat, nat>, head: nat, list: seq<nat>)
    requires Chain(next, head, list) && forall a :: a in list && a in next ==> a in next' && next'[a] == next[a]
    ensures Chain(next', head, list)
    decreases list
  {
    if list != [] {
      assert list[0] in list;
      ChainFrame(next, next', next[head], list[1..]);
    }
  }

  function Upto(slab: Slab, n: nat): (list: seq<nat>)
    ensures |list| == n
  {
    if n == 0 then [] else [slab.base + (n - 1) * Size(slab.cls)] + Upto(slab, n - 1)
  }

  lemma {:induction false} UptoIs(slab: Slab, n: nat)
    requires n <= PerSlab(slab.cls)
    ensures forall i :: 0 <= i < n ==> OnBlock(slab, n - 1 - i, Upto(slab, n)[i], slab.cls)
    ensures NoRepeats(Upto(slab, n))
  {
    if n > 0 {
      UptoIs(slab, n - 1);
      var list, rest := Upto(slab, n), Upto(slab, n - 1);
      forall i | 0 <= i < |rest|
        ensures rest[i] != list[0]
      {
        SameSlabApart(slab, n - 1, list[0], n - 2 - i, rest[i], slab.cls);
      }
      assert forall i :: 0 < i < n ==> list[i] == rest[i - 1];
    }
  }

  // ---------------------------------------------------------------------------
  // The allocator
  // ---------------------------------------------------------------------------

  /** Slabs of a class among the first `n`. */
  function SlabCount(slabs: seq<Slab>, c: Class): nat {
    if slabs == [] then 0
    else SlabCount(slabs[..|slabs| - 1], c) + if slabs[|slabs| - 1].cls == c then 1 else 0
  }

  /** The bytes of the live blocks of the classes below `n`. */
  ghost function BytesOf(live: seq<set<nat>>, n: nat): nat
    requires n <= |live| && n <= CLASSES
  {
    if n == 0 then 0 else BytesOf(live, n - 1) + |live[n - 1]| * Size(n - 1)
  }

  lemma {:induction false} BytesChange(live: seq<set<nat>>, c: nat, s: set<nat>, n: nat)
    requires n <= |live| && n <= CLASSES && c < |live|
    ensures BytesOf(live[c := s], n) == BytesOf(live, n) + if c < n then |s| * Size(c) - |live[c]| * Size(c) else 0
  {
    if n > 0 {
      BytesChange(live, c, s, n - 1);
    }
  }

  /** One class: its free list is linked up, free and live blocks are blocks of the class, all different, and all
      there. */
  ghost predicate ClassOk(c: Class, slabs: seq<Slab>, next: map<nat, nat>, head: nat, free: seq<nat>, live: set<nat>) {
    && Chain(next, head, free) && NoRepeats(free)
    && (forall a :: a in free ==> IsBlock(slabs, a, c) && a !in live)
    && (forall a :: a in live ==> IsBlock(slabs, a, c))
    && |free| + |live| == SlabCount(slabs, c) * PerSlab(c)
  }

  lemma PopOk(c: Class, slabs: seq<Slab>, next: map<nat, nat>, head: nat, free: seq<nat>, live: set<nat>)
    requires ClassOk(c, slabs, next, head, free, live) && free != []
    ensures head > 0 && head in next && IsBlock(slabs, head, c) && head !in live
    ensures ClassOk(c, slabs, next, next[head], free[1..], live + {head})
  {
    hide IsBlock, SlabCount, PerSlab;
    assert free[0] in free;
    assert forall a :: a in free[1..] ==> a in free;
    assert |live + {head}| == |live| + 1;
  }

  lemma PushOk(c: Class, slabs: seq<Slab>, next: map<nat, nat>, head: nat, free: seq<nat>, live: set<nat>, p: nat)
    requires ClassOk(c, slabs, next, head, free, live) && p in live && p > 0
    ensures ClassOk(c, slabs, next[p := head], p, [p] + free, live - {p})
  {
    ChainFrame(next, next[p := head], head, free);
    hide IsBlock, SlabCount, PerSlab;
    assert ([p] + free)[1..] == free;
    assert p !in free;
    assert |live - {p}| == |live| - 1;
  }

  lemma OtherOk(d: Class, slabs: seq<Slab>, next: map<nat, nat>, next': map<nat, nat>, head: nat, free: seq<nat>,
      live: set<nat>)
    requires ClassOk(d, slabs, next, head, free, live)
    requires forall a :: a in free && a in next ==> a in next' && next'[a] == next[a]
    ensures ClassOk(d, slabs, next', head, free, live)
  {
    ChainFrame(next, next', head, free);
  }

  class SlabAllocator {
    var heads: seq<nat>
    /** The first word of each free block: the address of the next one. */
    var next: map<nat, nat>
    var slabs: seq<Slab>
    var liveBytes: nat
    var largeBytes: nat
    ghost var free: seq<seq<nat>>
    ghost var live: seq<set<nat>>

    ghost predicate Valid()
      reads this
    {
      && |heads| == |free| == |live| == CLASSES
      && SlabsOk(slabs)
      && (forall c: Class :: ClassOk(c, slabs, next, heads[c], free[c], live[c]))
      && liveBytes == BytesOf(live, CLASSES)
    }

    constructor ()
      ensures Valid() && slabs == [] && liveBytes == 0 && largeBytes == 0 && forall c: Class :: live[c] == {}
    {
      heads := seq(CLASSES, i => 0);
      next, slabs, liveBytes, largeBytes := map[], [], 0, 0;
      free := seq(CLASSES, i => []);
      live := seq(CLASSES, i => {});
      new;
      NoBytes(live, CLASSES);
    }

    /** Memory the system may hand out: a whole slab, aligned, that overlaps none of the others. */
    static ghost predicate FreshSlab(slabs: seq<Slab>, base: nat) {
      && base > 0 && base % ALIGN == 0
      && forall i :: 0 <= i < |slabs| ==> Apart(slabs[i].base, SLAB_SIZE, base, SLAB_SIZE)
    }

    /** Any two blocks, free or live, of the same class or not, are one block or do not overlap. */
    lemma NoOverlap(a: nat, c: Class, b: nat, d: Class)
      requires Valid() && (a in free[c] || a in live[c]) && (b in free[d] || b in live[d])
      ensures if a == b then c == d && (a in live[c] <==> b in live[d]) else Apart(a, Size(c), b, Size(d))
      ensures a % ALIGN == 0 && !(a in free[c] && a in live[c])
      ensures exists i :: 0 <= i < |slabs| && slabs[i].base <= a && a + Size(c) <= slabs[i].base + SLAB_SIZE
    {
      assert ClassOk(c, slabs, next, heads[c], free[c], live[c]) && ClassOk(d, slabs, next, heads[d], free[d], live[d]);
      BlocksApart(slabs, a, c, b, d);
    }

    /** Free and live blocks of a class together are all the blocks of its slabs. */
    lemma Conserved(c: Class)
      requires Valid()
      ensures |free[c]| + |live[c]| == SlabCount(slabs, c) * (SLAB_SIZE / Size(c)) && NoRepeats(free[c])
    {
      assert ClassOk(c, slabs, next, heads[c], free[c], live[c]);
    }

    /** Taking a block. `system` is the memory the system would hand out if asked. */
    method Allocate(bytes: nat, system: nat) returns (p: nat)
      requires Valid() && FreshSlab(slabs, system)
      modifies this
      ensures Valid() && p > 0
      ensures var n := if bytes == 0 then 1 else bytes;
        if n > MAX_SMALL then
          && p == system && largeBytes == old(largeBytes) + n
          && live == old(live) && liveBytes == old(liveBytes) && slabs == old(slabs)
        else
          var c := SizeClass(n);
          && IsBlock(slabs, p, c) && n <= Size(c)
          && |live| == |old(live)| == CLASSES && p !in old(live)[c] && live == old(live)[c := old(live)[c] + {p}]
          && liveBytes == old(liveBytes) + Size(c) && largeBytes == old(largeBytes)
          && (slabs == old(slabs) || slabs == old(slabs) + [Slab(system, c)])
          && (slabs == old(slabs) <==> old(|free|) == CLASSES && old(free)[c] != [])
    {
      var n := if bytes == 0 then 1 else bytes;
      if n > MAX_SMALL {
        largeBytes := largeBytes + n;
        return system;
      }
      var c := SizeClass(n);
      assert ClassOk(c, slabs, next, heads[c], free[c], live[c]);
      assert heads[c] == 0 <==> free[c] == [];
      if heads[c] == 0 {
        Refill(c, system);
      }
      p := Pop(c);
    }

    /** Taking the first block of a free list. */
    method Pop(c: Class) returns (p: nat)
      requires Valid() && free[c] != []
      modifies this
      ensures Valid() && slabs == old(slabs) && largeBytes == old(largeBytes)
      ensures p > 0 && IsBlock(slabs, p, c) && p !in old(live)[c] && live == old(live)[c := old(live)[c] + {p}]
      ensures liveBytes == old(liveBytes) + Size(c)
    {
      hide ClassOk, IsBlock, SlabsOk, BytesOf, Size;
      PopOk(c, slabs, next, heads[c], free[c], live[c]);
      p := heads[c];
      heads := heads[c := next[p]];
      liveBytes := liveBytes + Size(c);
      BytesChange(live, c, live[c] + {p}, CLASSES);
      free := free[c := free[c][1..]];
      live := live[c := live[c] + {p}];
    }

    /** Giving a block back, with the size it was asked for. */
    method Deallocate(p: nat, bytes: nat)
      requires Valid()
      requires p != 0 ==>
        var n := if bytes == 0 then 1 else bytes;
        if n > MAX_SMALL then n <= largeBytes else p in live[SizeClass(n)]
      modifies this
      ensures Valid() && slabs == old(slabs)
      ensures p == 0 ==> live == old(live) && liveBytes == old(liveBytes) && largeBytes == old(largeBytes)
      ensures p != 0 ==>
        var n := if bytes == 0 then 1 else bytes;
        if n > MAX_SMALL then largeBytes == old(largeBytes) - n && live == old(live) && liveBytes == old(liveBytes)
        else
          var c := SizeClass(n);
          && largeBytes == old(largeBytes) && liveBytes == old(liveBytes) - Size(c)
          && |live| == |old(live)| == CLASSES && live == old(live)[c := old(live)[c] - {p}]
          && |free| == |old(free)| == CLASSES && free[c] == [p] + old(free)[c]
    {
      if p == 0 {
        return;
      }
      var n := if bytes == 0 then 1 else bytes;
      if n > MAX_SMALL {
        largeBytes := largeBytes - n;
        return;
      }
      Push(p, SizeClass(n));
    }

    /** Putting a live block at the front of its free list. */
    method Push(p: nat, c: Class)
      requires Valid() && p in live[c]
      modifies this
      ensures Valid() && slabs == old(slabs) && largeBytes == old(largeBytes) && liveBytes == old(liveBytes) - Size(c)
      ensures live == old(live)[c := old(live)[c] - {p}] && free == old(free)[c := [p] + old(free)[c]]
    {
      hide ClassOk, IsBlock, SlabsOk, BytesOf, Size;
      LiveBlock(p, c);
      forall d: Class
        ensures ClassOk(d, slabs, next[p := heads[c]], heads[d], free[d], live[d])
      {
        OneClass(p, c, d);
        OtherOk(d, slabs, next, next[p := heads[c]], heads[d], free[d], live[d]);
      }
      PushOk(c, slabs, next, heads[c], free[c], live[c], p);
      BytesChange(live, c, live[c] - {p}, CLASSES);
      CardLess(live[c], p);
      next := next[p := heads[c]];
      heads := heads[c := p];
      liveBytes := liveBytes - Size(c);
      free := free[c := [p] + free[c]];
      live := live[c := live[c] - {p}];
    }

    lemma LiveBlock(p: nat, c: Class)
      requires Valid() && p in live[c]
      ensures p > 0 && IsBlock(slabs, p, c)
    {
      assert ClassOk(c, slabs, next, heads[c], free[c], live[c]);
      BlocksApart(slabs, p, c, p, c);
    }

    static lemma CardLess(s: set<nat>, p: nat)
      requires p in s
      ensures |s - {p}| == |s| - 1
    {
    }

    /** A live block is on no free list. */
    lemma OneClass(p: nat, c: Class, d: Class)
      requires Valid() && p in live[c]
      ensures p !in free[d]
    {
      assert ClassOk(c, slabs, next, heads[c], free[c], live[c]) && ClassOk(d, slabs, next, heads[d], free[d], live[d]);
      if p in free[d] {
        BlocksApart(slabs, p, c, p, d);
      }
    }

    /** A client may write whatever it likes into a live block. */
    method WriteLive(p: nat, c: Class, word: nat)
      requires Valid() && p in live[c]
      modifies this`next
      ensures Valid() && next == old(next)[p := word]
    {
      forall d: Class
        ensures p !in free[d]
      {
        OneClass(p, c, d);
      }
      hide ClassOk;
      forall d: Class
        ensures ClassOk(d, slabs, next[p := word], heads[d], free[d], live[d])
      {
        OtherOk(d, slabs, next, next[p := word], heads[d], free[d], live[d]);
      }
      next := next[p := word];
    }

    /** Carving a new slab into blocks of one class, linked last to first. */
    method Refill(c: Class, base: nat)
      requires Valid() && free[c] == [] && FreshSlab(slabs, base)
      modifies this
      ensures Valid() && slabs == old(slabs) + [Slab(base, c)]
      ensures free == old(free)[c := Upto(Slab(base, c), PerSlab(c))]
      ensures live == old(live) && liveBytes == old(liveBytes) && largeBytes == old(largeBytes) && free[c] != []
    {
      hide Size, PerSlab, Upto, IsBlock, SlabCount, ClassOk;
      var slab := Slab(base, c);
      var obj, count := Size(c), PerSlab(c);
      var prev: nat := 0;
      var i := 0;
      ghost var next0 := next;
      while i < count
        invariant 0 <= i <= count && Chain(next, prev, Upto(slab, i))
        invariant forall a :: a in next0 && !(base <= a < base + SLAB_SIZE) ==> a in next && next[a] == next0[a]
        invariant heads == old(heads) && free == old(free) && live == old(live) && slabs == old(slabs)
        invariant liveBytes == old(liveBytes) && largeBytes == old(largeBytes)
      {
        var node := base + i * obj;
        LinkBlock(slab, next, prev, i, node);
        next := next[node := prev];
        prev := node;
        i := i + 1;
      }
      forall d: Class
        ensures ClassOk(d, slabs + [slab], next, if d == c then prev else heads[d],
          if d == c then Upto(slab, count) else free[d], live[d])
      {
        assert ClassOk(d, slabs, next0, heads[d], free[d], live[d]);
        RefillOk(d, slabs, slab, next0, next, heads[d], prev, free[d], live[d]);
      }
      OldBlocks(slabs, slab, c, [], {});
      NewBlocks(slabs, slab, count);
      slabs := slabs + [slab];
      heads := heads[c := prev];
      free := free[c := Upto(slab, count)];
    }

    static lemma RefillOk(d: Class, slabs: seq<Slab>, slab: Slab, next0: map<nat, nat>, next: map<nat, nat>, head: nat,
        prev: nat, free: seq<nat>, live: set<nat>)
      requires SlabsOk(slabs) && FreshSlab(slabs, slab.base) && ClassOk(d, slabs, next0, head, free, live)
      requires slab.cls == d ==> free == []
      requires Chain(next, prev, Upto(slab, PerSlab(slab.cls)))
      requires forall a :: a in next0 && !(slab.base <= a < slab.base + SLAB_SIZE) ==> a in next && next[a] == next0[a]
      ensures ClassOk(d, slabs + [slab], next, if d == slab.cls then prev else head,
        if d == slab.cls then Upto(slab, PerSlab(slab.cls)) else free, live)
    {
      OldBlocks(slabs, slab, d, free, live);
      NewBlocks(slabs, slab, PerSlab(slab.cls));
      hide IsBlock, SlabCount, PerSlab, OnBlock;
      if d != slab.cls {
        ChainFrame(next0, next, head, free);
      }
    }

    /** The blocks of older slabs lie outside a new one. */
    static lemma OldBlocks(slabs: seq<Slab>, slab: Slab, d: Class, free: seq<nat>, live: set<nat>)
      requires SlabsOk(slabs) && FreshSlab(slabs, slab.base)
      requires (forall a :: a in free ==> IsBlock(slabs, a, d)) && forall a :: a in live ==> IsBlock(slabs, a, d)
      ensures SlabsOk(slabs + [slab])
      ensures forall a :: a in free || a in live ==>
        IsBlock(slabs + [slab], a, d) && !(slab.base <= a < slab.base + SLAB_SIZE)
      ensures SlabCount(slabs + [slab], d) == SlabCount(slabs, d) + if slab.cls == d then 1 else 0
    {
      assert (slabs + [slab])[..|slabs|] == slabs;
      forall a | a in free || a in live
        ensures IsBlock(slabs + [slab], a, d) && !(slab.base <= a < slab.base + SLAB_SIZE)
      {
        var i, j :| 0 <= i < |slabs| && OnBlock(slabs[i], j, a, d);
        InsideSlab(slabs[i], j, a, d);
        assert OnBlock((slabs + [slab])[i], j, a, d);
      }
    }

    /** The blocks a slab is carved into. */
    static lemma NewBlocks(slabs: seq<Slab>, slab: Slab, count: nat)
      requires count == PerSlab(slab.cls)
      ensures NoRepeats(Upto(slab, count)) && Upto(slab, count) != []
      ensures forall a :: a in Upto(slab, count) ==>
        IsBlock(slabs + [slab], a, slab.cls) && slab.base <= a < slab.base + SLAB_SIZE
      ensures forall k: nat :: (k + 1) * count == k * count + count
    {
      UptoIs(slab, count);
      forall a | a in Upto(slab, count)
        ensures IsBlock(slabs + [slab], a, slab.cls) && slab.base <= a < slab.base + SLAB_SIZE
      {
        var i :| 0 <= i < count && Upto(slab, count)[i] == a;
        InsideSlab(slab, count - 1 - i, a, slab.cls);
        assert OnBlock((slabs + [slab])[|slabs|], count - 1 - i, a, slab.cls);
      }
    }

    static lemma LinkBlock(slab: Slab, next: map<nat, nat>, prev: nat, i: nat, node: nat)
      requires i < PerSlab(slab.cls) && slab.base > 0 && Chain(next, prev, Upto(slab, i))
      requires node == slab.base + i * Size(slab.cls)
      ensures slab.base <= node < slab.base + SLAB_SIZE
      ensures Chain(next[node := prev], node, Upto(slab, i + 1))
    {
      assert OnBlock(slab, i, node, slab.cls);
      InsideSlab(slab, i, node, slab.cls);
      UptoIs(slab, i + 1);
      assert Upto(slab, i + 1) == [node] + Upto(slab, i);
      hide Upto, OnBlock, Size, PerSlab;
      LinkFront(next, prev, Upto(slab, i), node);
    }

    static lemma LinkFront(next: map<nat, nat>, prev: nat, list: seq<nat>, node: nat)
      requires Chain(next, prev, list) && NoRepeats([node] + list) && node > 0
      ensures Chain(next[node := prev], node, [node] + list)
    {
      assert ([node] + list)[1..] == list;
      forall i | 0 <= i < |list|
        ensures list[i] != node
      {
        assert ([node] + list)[0] != ([node] + list)[i + 1];
      }
      ChainFrame(next, next[node := prev], prev, list);
    }

    static lemma {:induction false} NoBytes(live: seq<set<nat>>, n: nat)
      requires n <= |live| && n <= CLASSES && forall i :: 0 <= i < n ==> live[i] == {}
      ensures BytesOf(live, n) == 0
    {
      if n > 0 {
        NoBytes(live, n - 1);
      }
    }
  }
}
