/** The slab back end: for one fixed object layout it keeps free, partial and full slabs,
    hands out objects from the partial slabs first and moves slabs between the three lists as
    their objects are taken and returned.

    A slab is identified by the address of its object buffer. The three slab lists are
    sequences of buffer addresses, top first, and `slabs` maps each buffer address to the
    free-object list of that slab (object addresses, top first). */
module Slabs {
  import opened Common
  import opened Arena

  /** Size of the `Node<Slab>` embedded after the objects of every slab: a buffer pointer, a
      free list (head pointer and length) and the next link, 8 bytes each. */
  const SLAB_NODE_SIZE: nat := 32

  /** Size of `ObjectNode`, the free-list node stored inside every free object. */
  const OBJECT_NODE_SIZE: nat := 8

  datatype SlabError =
    | BadPtrAlignment
    | BadPtrRange
    | DoubleFree
    | SlabFullInternalError
    | PageAllocationError

  /** `pages_per_slab`: 0 for a zero-sized layout; otherwise the fewest pages that hold the
      object, plus one more page when the space left over after packing objects into those
      pages is smaller than the embedded slab node. Alignments above a page fail the
      assertion. */
  function PagesPerSlab(size: nat, align: nat): nat
    requires size == 0 || align == 0 || align <= PAGE_SIZE
  {
    if size == 0 || align == 0 then 0
    else
      var minPages := DivCeil(size, PAGE_SIZE);
      if (minPages * PAGE_SIZE) % size < SLAB_NODE_SIZE then minPages + 1 else minPages
  }

  /** `obj_per_slab`: how many objects fit in the pages of a slab once the slab node is set
      aside. */
  function ObjPerSlab(size: nat, pages: nat): nat
    requires size > 0 && pages * PAGE_SIZE >= SLAB_NODE_SIZE
  {
    (pages * PAGE_SIZE - SLAB_NODE_SIZE) / size
  }

  /** A slab always has room for at least one object and the slab node, using at most one
      page more than the object alone needs. */
  lemma PagesPerSlabFits(size: nat, align: nat)
    requires size > 0 && 0 < align <= PAGE_SIZE
    ensures PagesPerSlab(size, align) > 0
    ensures PagesPerSlab(size, align) * PAGE_SIZE >= size + SLAB_NODE_SIZE
    ensures DivCeil(size, PAGE_SIZE) <= PagesPerSlab(size, align) <= DivCeil(size, PAGE_SIZE) + 1
  {
    var m := DivCeil(size, PAGE_SIZE);
    var total := m * PAGE_SIZE;
    var q := total / size;
    var rem := total % size;
    assert total == q * size + rem;
    if q == 0 {
      assert false;
    }
    MulAtLeast(q, size);
    assert (m + 1) * PAGE_SIZE == total + PAGE_SIZE;
  }

  /** `obj_per_slab` is exactly the number of objects that fit beside the slab node: that many
      fit, one more does not, and it is at least one once the pages fit an object and the
      node. */
  lemma ObjPerSlabBounds(size: nat, pages: nat)
    requires size > 0 && pages * PAGE_SIZE >= size + SLAB_NODE_SIZE
    ensures ObjPerSlab(size, pages) >= 1
    ensures ObjPerSlab(size, pages) * size + SLAB_NODE_SIZE <= pages * PAGE_SIZE
    ensures pages * PAGE_SIZE < (ObjPerSlab(size, pages) + 1) * size + SLAB_NODE_SIZE
  {
    var room := pages * PAGE_SIZE - SLAB_NODE_SIZE;
    var n := room / size;
    assert room == n * size + room % size;
    if n == 0 {
      assert false;
    }
    assert (n + 1) * size == n * size + size;
  }

  /** The slab node, placed after the objects at the next 8-byte boundary, fits in the
      slab's pages, and it starts at least a node's size past the buffer, as the sanity
      assertion of `cache_grow` demands. */
  lemma SlabNodeFits(size: nat, pages: nat)
    requires size >= OBJECT_NODE_SIZE && pages * PAGE_SIZE >= size + SLAB_NODE_SIZE
    ensures PadToAlign(ObjPerSlab(size, pages) * size, 8) >= SLAB_NODE_SIZE
    ensures PadToAlign(ObjPerSlab(size, pages) * size, 8) + SLAB_NODE_SIZE <= pages * PAGE_SIZE
  {
    ObjPerSlabBounds(size, pages);
    var n := ObjPerSlab(size, pages);
    var span := n * size;
    assert (n + 1) * size == span + size;
    if size >= SLAB_NODE_SIZE {
      MulAtLeast(n, size);
    }
    var room := pages * PAGE_SIZE - SLAB_NODE_SIZE;
    assert room % 8 == 0 by {
      assert room == (pages - 1) * PAGE_SIZE + 4064;
      assert 4064 == 8 * 508;
      var q := (pages - 1) * 512 + 508;
      assert room == 8 * q;
      MulDivExact(8, q);
    }
    var r := PadToAlign(span, 8);
    assert r <= room;
  }

  /** The constructor's alignment assertion always holds: a power-of-two alignment of at most
      a page divides the slab size. */
  lemma SlabSizeAligned(align: nat, pages: nat)
    requires IsPow2(align) && align <= PAGE_SIZE
    ensures (PAGE_SIZE * pages) % align == 0
  {
    Pow2Le4096Divides(align);
    var q := PAGE_SIZE / align;
    assert PAGE_SIZE == q * align;
    assert PAGE_SIZE * pages == (q * pages) * align;
    MulDivExact(align, q * pages);
    assert align * (q * pages) == (q * pages) * align;
  }

  /** A power of two up to 4096 divides 4096. */
  lemma Pow2Le4096Divides(align: nat)
    requires IsPow2(align) && align <= PAGE_SIZE
    ensures PAGE_SIZE % align == 0
  {
    PowDivides(align, PAGE_SIZE);
  }

  /** Of two powers of two, the smaller divides the larger. */
  lemma {:induction false} PowDivides(a: nat, b: nat)
    requires IsPow2(a) && IsPow2(b) && a <= b
    ensures b % a == 0
    decreases a
  {
    if a > 1 {
      assert b != 1;
      PowDivides(a / 2, b / 2);
      var q := (b / 2) / (a / 2);
      assert b / 2 == q * (a / 2);
      assert b == q * a;
      MulDivExact(a, q);
      assert a * q == q * a;
    }
  }

  /** The fixed parameters of one allocator: pages per slab, padded object size, object
      alignment and objects per slab. */
  datatype Config = Config(pagesPerSlab: nat, objSize: nat, objAlign: nat, objPerSlab: nat)

  /** The parameters `new` computes for a padded layout whose assertions all pass. */
  ghost predicate ConfigOk(c: Config)
  {
    && IsPow2(c.objAlign) && c.objAlign <= PAGE_SIZE
    && c.objSize >= OBJECT_NODE_SIZE && c.objSize % c.objAlign == 0
    && c.pagesPerSlab == PagesPerSlab(c.objSize, c.objAlign)
    && c.pagesPerSlab * PAGE_SIZE >= c.objSize + SLAB_NODE_SIZE
    && c.objPerSlab == ObjPerSlab(c.objSize, c.pagesPerSlab)
    && c.objPerSlab >= 1
  }

  /** What `new` computes from a requested layout: the padded object size, the pages per
      slab and the objects per slab. Every assertion of `new` past the size check holds. */
  function NewConfig(size: nat, align: nat): (c: Config)
    requires IsPow2(align) && align <= PAGE_SIZE && PadToAlign(size, align) >= OBJECT_NODE_SIZE
    ensures ConfigOk(c)
    ensures c.objSize == PadToAlign(size, align) && c.objAlign == align
    ensures (PAGE_SIZE * c.pagesPerSlab) % c.objAlign == 0
  {
    var padded := PadToAlign(size, align);
    var pages := PagesPerSlab(padded, align);
    PagesPerSlabFits(padded, align);
    ObjPerSlabBounds(padded, pages);
    SlabSizeAligned(align, pages);
    Config(pages, padded, align, ObjPerSlab(padded, pages))
  }

  /** Bytes of a slab buffer taken by objects. */
  function Span(c: Config): nat
  {
    c.objPerSlab * c.objSize
  }

  /** `Slab::is_in_range`: the address lies in the object area of the slab at `buff`. */
  function InRange(c: Config, buff: nat, ptr: nat): bool
  {
    buff <= ptr < buff + Span(c)
  }

  /** `ptr` is the start of one of the objects of the slab at `buff`. */
  ghost predicate IsObject(c: Config, buff: nat, ptr: nat)
  {
    c.objSize > 0 && buff <= ptr && (ptr - buff) % c.objSize == 0
    && (ptr - buff) / c.objSize < c.objPerSlab
  }

  /** The object areas of two slabs do not overlap. */
  ghost predicate Apart(c: Config, a: nat, b: nat)
  {
    a + Span(c) <= b || b + Span(c) <= a
  }

  /** The i-th object of a slab is an object of it and lies in its range. */
  lemma ObjectAt(c: Config, buff: nat, i: nat)
    requires c.objSize > 0 && i < c.objPerSlab
    ensures IsObject(c, buff, buff + i * c.objSize)
    ensures InRange(c, buff, buff + i * c.objSize)
    ensures (buff + i * c.objSize - buff) / c.objSize == i
  {
    MulDivExact(c.objSize, i);
    assert c.objSize * i == i * c.objSize;
    MulAtLeast(c.objPerSlab - i, c.objSize);
    MulDistributes(c.objPerSlab, i, c.objSize);
  }

  /** An object is the object at its index. */
  lemma ObjectIndex(c: Config, buff: nat, ptr: nat)
    requires IsObject(c, buff, ptr)
    ensures ptr == buff + ((ptr - buff) / c.objSize) * c.objSize
  {
    var q := (ptr - buff) / c.objSize;
    assert ptr - buff == q * c.objSize + (ptr - buff) % c.objSize;
  }

  /** Objects of a page-aligned slab are aligned to the object alignment. */
  lemma ObjectAligned(c: Config, buff: nat, ptr: nat)
    requires ConfigOk(c) && buff % PAGE_SIZE == 0 && IsObject(c, buff, ptr)
    ensures ptr % c.objAlign == 0
  {
    var a, s := c.objAlign, c.objSize;
    assert IsPow2(a) && a <= PAGE_SIZE && s % a == 0 && a > 0;
    ObjectIndex(c, buff, ptr);
    var i := (ptr - buff) / s;
    Pow2Le4096Divides(a);
    MultipleOfMultiple(buff, PAGE_SIZE, a);
    MultipleTimes(i, s, a);
    MultipleSum(buff, i * s, a);
  }

  /** A slab's free list: distinct objects of that slab. */
  ghost predicate SlabOk(c: Config, buff: nat, free: seq<nat>)
  {
    Distinct(free) && forall k :: 0 <= k < |free| ==> IsObject(c, buff, free[k])
  }

  /** Every slab is page aligned with a well-formed free list, and the object areas of
      distinct slabs do not overlap. */
  ghost predicate Layout(c: Config, slabs: map<nat, seq<nat>>)
  {
    && (forall b :: b in slabs ==> b % PAGE_SIZE == 0 && SlabOk(c, b, slabs[b]))
    && (forall a, b :: a in slabs && b in slabs && a != b ==> Apart(c, a, b))
  }

  /** Address of the i-th object of the slab at `buff`. */
  function ObjAddr(c: Config, buff: nat, i: nat): nat
  {
    buff + i * c.objSize
  }

  /** Objects handed out and not yet returned: objects of some slab that are not on its
      free list. */
  ghost function Live(c: Config, slabs: map<nat, seq<nat>>): set<nat>
  {
    set b, i | b in slabs && 0 <= i < c.objPerSlab && ObjAddr(c, b, i) !in slabs[b]
      :: ObjAddr(c, b, i)
  }

  /** The head of a list of distinct values is not in its tail. */
  lemma DistinctTail(s: seq<nat>)
    requires Distinct(s) && s != []
    ensures s[0] !in s[1..] && Distinct(s[1..])
  {
    forall j | 0 <= j < |s| - 1
      ensures s[1..][j] != s[0]
    {
      assert s[1..][j] == s[j + 1];
    }
  }

  /** The only slab that owns an object of slab `b` is `b`. */
  lemma OwnerOf(c: Config, slabs: map<nat, seq<nat>>, b: nat, p: nat)
    requires ConfigOk(c) && Layout(c, slabs) && b in slabs && IsObject(c, b, p)
    ensures forall b2, i {:trigger ObjAddr(c, b2, i)} ::
      b2 in slabs && 0 <= i < c.objPerSlab && p == ObjAddr(c, b2, i) ==> b2 == b
  {
    ObjectIndex(c, b, p);
    ObjectAt(c, b, (p - b) / c.objSize);
    forall b2, i | b2 in slabs && 0 <= i < c.objPerSlab && p == ObjAddr(c, b2, i)
      ensures b2 == b
    {
      ObjectAt(c, b2, i);
      assert InRange(c, b, p) && InRange(c, b2, p);
    }
  }

  /** An object of a slab, as an address with its index. */
  lemma ObjectWitness(c: Config, b: nat, p: nat) returns (i: nat)
    requires IsObject(c, b, p)
    ensures i < c.objPerSlab && p == ObjAddr(c, b, i)
  {
    ObjectIndex(c, b, p);
    i := (p - b) / c.objSize;
  }

  /** Taking the top free object of a slab makes exactly that object live, and it was not live
      before. */
  lemma LivePop(c: Config, slabs: map<nat, seq<nat>>, b: nat)
    requires ConfigOk(c) && Layout(c, slabs) && b in slabs && slabs[b] != []
    ensures slabs[b][0] !in Live(c, slabs)
    ensures Live(c, slabs[b := slabs[b][1..]]) == Live(c, slabs) + {slabs[b][0]}
  {
    var p := slabs[b][0];
    var slabs' := slabs[b := slabs[b][1..]];
    assert IsObject(c, b, p);
    OwnerOf(c, slabs, b, p);
    var ip := ObjectWitness(c, b, p);
    DistinctTail(slabs[b]);
    assert slabs[b] == [p] + slabs[b][1..];
    forall q | q in Live(c, slabs')
      ensures q in Live(c, slabs) || q == p
    {
      var b2, i :| b2 in slabs' && 0 <= i < c.objPerSlab && q == ObjAddr(c, b2, i)
        && q !in slabs'[b2];
      assert q == p || ObjAddr(c, b2, i) !in slabs[b2];
    }
    forall q | q in Live(c, slabs) || q == p
      ensures q in Live(c, slabs')
    {
      if q == p {
        assert p == ObjAddr(c, b, ip) && p !in slabs'[b];
      } else {
        var b2, i :| b2 in slabs && 0 <= i < c.objPerSlab && q == ObjAddr(c, b2, i)
          && q !in slabs[b2];
        assert ObjAddr(c, b2, i) !in slabs'[b2];
      }
    }
  }

  /** Returning a live object of a slab to its free list makes exactly that object not
      live. */
  lemma LivePush(c: Config, slabs: map<nat, seq<nat>>, b: nat, p: nat)
    requires ConfigOk(c) && Layout(c, slabs) && b in slabs
    requires IsObject(c, b, p) && p !in slabs[b]
    ensures p in Live(c, slabs)
    ensures Live(c, slabs[b := [p] + slabs[b]]) == Live(c, slabs) - {p}
  {
    var slabs' := slabs[b := [p] + slabs[b]];
    OwnerOf(c, slabs, b, p);
    var ip := ObjectWitness(c, b, p);
    assert ObjAddr(c, b, ip) !in slabs[b];
    forall q | q in Live(c, slabs')
      ensures q in Live(c, slabs) && q != p
    {
      var b2, i :| b2 in slabs' && 0 <= i < c.objPerSlab && q == ObjAddr(c, b2, i)
        && q !in slabs'[b2];
      assert ObjAddr(c, b2, i) !in slabs[b2];
    }
    forall q | q in Live(c, slabs) && q != p
      ensures q in Live(c, slabs')
    {
      var b2, i :| b2 in slabs && 0 <= i < c.objPerSlab && q == ObjAddr(c, b2, i)
        && q !in slabs[b2];
      assert ObjAddr(c, b2, i) !in slabs'[b2];
    }
  }

  /** The free list `Slab::new` builds: object `i` is pushed in turn for `i` from 0 to `n - 1`,
      so the last object ends up on top. */
  function SlabObjects(c: Config, buff: nat, n: nat): (r: seq<nat>)
    ensures |r| == n
    ensures forall k :: 0 <= k < n ==> r[k] == ObjAddr(c, buff, n - 1 - k)
  {
    if n == 0 then [] else [ObjAddr(c, buff, n - 1)] + SlabObjects(c, buff, n - 1)
  }

  /** Object addresses grow with the index. */
  lemma ObjAddrIncreasing(c: Config, buff: nat, i: nat, j: nat)
    requires c.objSize > 0 && i < j
    ensures ObjAddr(c, buff, i) < ObjAddr(c, buff, j)
  {
    MulAtLeast(j - i, c.objSize);
    MulDistributes(j, i, c.objSize);
  }

  /** A new slab's free list holds every object of the slab exactly once. */
  lemma NewSlabOk(c: Config, buff: nat)
    requires ConfigOk(c)
    ensures SlabOk(c, buff, SlabObjects(c, buff, c.objPerSlab))
    ensures forall i :: 0 <= i < c.objPerSlab ==> ObjAddr(c, buff, i) in SlabObjects(c, buff, c.objPerSlab)
  {
    var n := c.objPerSlab;
    var f := SlabObjects(c, buff, n);
    forall i, j | 0 <= i < j < n
      ensures f[i] != f[j]
    {
      ObjAddrIncreasing(c, buff, n - 1 - j, n - 1 - i);
    }
    forall k | 0 <= k < n
      ensures IsObject(c, buff, f[k])
    {
      ObjectAt(c, buff, n - 1 - k);
    }
    forall i | 0 <= i < n
      ensures ObjAddr(c, buff, i) in f
    {
      assert f[n - 1 - i] == ObjAddr(c, buff, i);
    }
  }

  /** Popping a free object keeps the layout. */
  lemma LayoutPop(c: Config, slabs: map<nat, seq<nat>>, b: nat)
    requires Layout(c, slabs) && b in slabs && slabs[b] != []
    ensures Layout(c, slabs[b := slabs[b][1..]])
  {
    DistinctTail(slabs[b]);
    var f := slabs[b];
    forall k | 0 <= k < |f| - 1
      ensures IsObject(c, b, f[1..][k])
    {
      assert f[1..][k] == f[k + 1];
    }
  }

  /** Pushing an object of the slab that is not already free keeps the layout. */
  lemma LayoutPush(c: Config, slabs: map<nat, seq<nat>>, b: nat, p: nat)
    requires Layout(c, slabs) && b in slabs && IsObject(c, b, p) && p !in slabs[b]
    ensures Layout(c, slabs[b := [p] + slabs[b]])
  {
    var f := slabs[b];
    var g := [p] + f;
    forall i, j | 0 <= i < j < |g|
      ensures g[i] != g[j]
    {
      assert g[j] == f[j - 1];
      if i > 0 {
        assert g[i] == f[i - 1];
      }
    }
    forall k | 0 <= k < |g|
      ensures IsObject(c, b, g[k])
    {
      if k > 0 {
        assert g[k] == f[k - 1];
      }
    }
  }

  /** A fresh page-aligned buffer whose object area overlaps no existing slab can be added as a
      new slab with all objects free. */
  lemma LayoutGrow(c: Config, slabs: map<nat, seq<nat>>, base: nat)
    requires ConfigOk(c) && Layout(c, slabs) && base % PAGE_SIZE == 0
    requires forall b :: b in slabs ==> Apart(c, base, b)
    ensures base !in slabs
    ensures Layout(c, slabs[base := SlabObjects(c, base, c.objPerSlab)])
  {
    MulAtLeast(c.objPerSlab, c.objSize);
    NewSlabOk(c, base);
  }

  /** Removing slabs keeps the layout. */
  lemma LayoutRemove(c: Config, slabs: map<nat, seq<nat>>, gone: set<nat>)
    requires Layout(c, slabs)
    ensures Layout(c, slabs - gone)
  {
  }

  /** A new slab has no live objects. */
  lemma LiveGrow(c: Config, slabs: map<nat, seq<nat>>, base: nat)
    requires ConfigOk(c) && base !in slabs
    ensures Live(c, slabs[base := SlabObjects(c, base, c.objPerSlab)]) == Live(c, slabs)
  {
    var slabs' := slabs[base := SlabObjects(c, base, c.objPerSlab)];
    NewSlabOk(c, base);
    forall q | q in Live(c, slabs')
      ensures q in Live(c, slabs)
    {
      var b2, i :| b2 in slabs' && 0 <= i < c.objPerSlab && q == ObjAddr(c, b2, i)
        && q !in slabs'[b2];
      assert b2 != base;
      assert ObjAddr(c, b2, i) !in slabs[b2];
    }
    forall q | q in Live(c, slabs)
      ensures q in Live(c, slabs')
    {
      var b2, i :| b2 in slabs && 0 <= i < c.objPerSlab && q == ObjAddr(c, b2, i)
        && q !in slabs[b2];
      assert ObjAddr(c, b2, i) !in slabs'[b2];
    }
  }

  /** `Slab::allocate`: pops the top free object, or reports a full slab. */
  function SlabAllocate(free: seq<nat>): (r: (Result<nat, SlabError>, seq<nat>))
    ensures r.0.Ok? <==> free != []
    ensures r.0.Ok? ==> [r.0.value] + r.1 == free
    ensures r.0.Err? ==> r.0.error == SlabFullInternalError && r.1 == free
  {
    if free == [] then (Err(SlabFullInternalError), free) else (Ok(free[0]), free[1..])
  }

  /** `Slab::free`: a pointer already on the free list is a double free and changes nothing;
      otherwise it becomes the top free object, which the next `allocate` hands back. */
  function SlabFree(free: seq<nat>, ptr: nat): (r: (Result<(), SlabError>, seq<nat>))
    ensures r.0 == Err(DoubleFree) <==> ptr in free
    ensures r.0.Err? ==> r.1 == free
    ensures r.0.Ok? ==> SlabAllocate(r.1) == (Ok(ptr), free)
  {
    if ptr in free then (Err(DoubleFree), free) else (Ok(()), [ptr] + free)
  }

  /** The allocator's lists and slabs: the free, partial and full slab lists (buffer
      addresses, top first) and each slab's free list. */
  datatype State = State(
    freeSlabs: seq<nat>,
    partialSlabs: seq<nat>,
    fullSlabs: seq<nat>,
    slabs: map<nat, seq<nat>>)

  /** All listed slabs. */
  function Listed(s: State): seq<nat>
  {
    s.freeSlabs + s.partialSlabs + s.fullSlabs
  }

  /** Every slab is on exactly one list, once, and the slab map holds exactly the listed
      slabs. */
  ghost predicate ListsOk(s: State)
  {
    && (forall x :: multiset(Listed(s))[x] <= 1)
    && (forall b :: b in s.slabs <==> b in Listed(s))
  }

  /** Free slabs have every object free, full slabs none, and partial slabs some; the partial
      bounds are strict once a slab holds two or more objects. */
  ghost predicate Classified(c: Config, s: State)
  {
    && (forall b :: b in s.freeSlabs && b in s.slabs ==> |s.slabs[b]| == c.objPerSlab)
    && (forall b :: b in s.fullSlabs && b in s.slabs ==> |s.slabs[b]| == 0)
    && (forall b :: b in s.partialSlabs && b in s.slabs ==>
          |s.slabs[b]| <= c.objPerSlab && (c.objPerSlab >= 2 ==> 0 < |s.slabs[b]| < c.objPerSlab))
  }

  /** The allocator invariant. */
  ghost predicate Inv(c: Config, s: State)
  {
    ConfigOk(c) && ListsOk(s) && Layout(c, s.slabs) && Classified(c, s)
  }

  /** What the page source must deliver for a new slab: either a null pointer (0) or a
      page-aligned buffer whose object area overlaps no existing slab. */
  ghost predicate Fresh(c: Config, s: State, base: nat)
  {
    base == 0 || (base % PAGE_SIZE == 0 && forall b :: b in s.slabs ==> Apart(c, base, b))
  }

  /** Lists that hold the same slabs, with the same slab map keys, keep the list invariant. */
  lemma ListsPerm(s: State, s': State)
    requires ListsOk(s) && multiset(Listed(s')) == multiset(Listed(s))
    requires s'.slabs.Keys == s.slabs.Keys
    ensures ListsOk(s')
  {
    forall b
      ensures b in s'.slabs <==> b in Listed(s')
    {
      assert b in Listed(s') <==> b in multiset(Listed(s'));
      assert b in Listed(s) <==> b in multiset(Listed(s));
      assert b in s'.slabs <==> b in s.slabs;
    }
  }

  /** `cache_grow`: a null page pointer is a page allocation error and changes nothing;
      otherwise a new slab with every object free is pushed onto the free list. An error of
      the page allocator itself is a panic (`unwrap`) that `base` does not represent. */
  function CacheGrowSpec(c: Config, s: State, base: nat): (Result<(), SlabError>, State)
  {
    if base == 0 then (Err(PageAllocationError), s)
    else (Ok(()), s.(freeSlabs := [base] + s.freeSlabs,
                     slabs := s.slabs[base := SlabObjects(c, base, c.objPerSlab)]))
  }

  /** `allocate`: from the top partial slab when it has a free object (moving it to the full
      list when that was its last one); otherwise from the top free slab, growing the cache
      first when there is none, and moving that slab to the partial list. */
  function AllocateSpec(c: Config, s: State, base: nat): (Result<nat, SlabError>, State)
    requires Inv(c, s)
  {
    if s.partialSlabs != [] && s.slabs[s.partialSlabs[0]] != [] then
      var b := s.partialSlabs[0];
      var t := SlabAllocate(s.slabs[b]);
      if t.1 == [] then
        (t.0, State(s.freeSlabs, s.partialSlabs[1..], [b] + s.fullSlabs, s.slabs[b := t.1]))
      else
        (t.0, s.(slabs := s.slabs[b := t.1]))
    else
      var g := if s.freeSlabs == [] then CacheGrowSpec(c, s, base) else (Ok(()), s);
      if g.0.Err? then (Err(g.0.error), s)
      else
        var s1 := g.1;
        var b := s1.freeSlabs[0];
        var t := SlabAllocate(s1.slabs[b]);
        if t.0.Err? then (t.0, s1)
        else (t.0, State(s1.freeSlabs[1..], [b] + s1.partialSlabs, s1.fullSlabs, s1.slabs[b := t.1]))
  }

  /** The position of the first slab in `list` whose range holds `ptr`. */
  function FirstInRange(c: Config, list: seq<nat>, ptr: nat): (r: Option<nat>)
    ensures r.Some? ==> r.value < |list| && InRange(c, list[r.value], ptr)
    ensures r.Some? ==> forall j :: 0 <= j < r.value ==> !InRange(c, list[j], ptr)
    ensures r.None? <==> forall j :: 0 <= j < |list| ==> !InRange(c, list[j], ptr)
  {
    if list == [] then None
    else if InRange(c, list[0], ptr) then Some(0)
    else match FirstInRange(c, list[1..], ptr)
      case None => None
      case Some(k) => Some(k + 1)
  }

  /** `free` as the source writes it: a misaligned pointer is refused; otherwise the first
      partial slab, then the first full slab, whose range holds the pointer takes it back (a
      double free is refused). A partial slab that becomes completely free moves to the free
      list; a full slab moves to the partial list. A pointer in no partial or full slab is out
      of range, including one inside a slab on the free list. */
  function FreeSpecAsWritten(c: Config, s: State, ptr: nat): (Result<(), SlabError>, State)
    requires Inv(c, s)
  {
    if ptr % c.objAlign != 0 then (Err(BadPtrAlignment), s)
    else match FirstInRange(c, s.partialSlabs, ptr)
      case Some(k) =>
        var b := s.partialSlabs[k];
        var t := SlabFree(s.slabs[b], ptr);
        if t.0.Err? then (t.0, s)
        else if |t.1| == c.objPerSlab then
          (t.0, State([b] + s.freeSlabs, Without(s.partialSlabs, k), s.fullSlabs, s.slabs[b := t.1]))
        else
          (t.0, s.(slabs := s.slabs[b := t.1]))
      case None =>
        match FirstInRange(c, s.fullSlabs, ptr)
          case Some(k) =>
            var b := s.fullSlabs[k];
            var t := SlabFree(s.slabs[b], ptr);
            if t.0.Err? then (t.0, s)
            else (t.0, State(s.freeSlabs, [b] + s.partialSlabs, Without(s.fullSlabs, k), s.slabs[b := t.1]))
          case None => (Err(BadPtrRange), s)
  }

  /** Every free slab is a page-aligned key of the slab map. */
  lemma FreeSlabsAligned(c: Config, s: State)
    requires Inv(c, s)
    ensures forall x :: x in s.freeSlabs ==> x in s.slabs && x % PAGE_SIZE == 0
  {
    forall x | x in s.freeSlabs
      ensures x in s.slabs && x % PAGE_SIZE == 0
    {
      assert x in Listed(s);
    }
  }

  /** One round of the `reap` loop: the top free slab is page aligned, so the page address it
      releases is the slab itself, and the slab leaves the slab map. */
  lemma ReapStep(m: map<nat, seq<nat>>, fr: seq<nat>, released: seq<nat>, rest: seq<nat>)
    requires fr == released + rest && rest != []
    requires forall x :: x in fr ==> x in m && x % PAGE_SIZE == 0
    ensures rest[0] - rest[0] % PAGE_SIZE == rest[0]
    ensures fr == (released + [rest[0]]) + rest[1..]
    ensures (m - Elems(released)) - {rest[0]} == m - Elems(released + [rest[0]])
  {
    assert rest[0] in fr;
    assert Elems(released + [rest[0]]) == Elems(released) + {rest[0]};
  }

  /** `reap`: every free slab is released and the free list is emptied. */
  function ReapSpec(s: State): State
  {
    State([], s.partialSlabs, s.fullSlabs, s.slabs - Elems(s.freeSlabs))
  }

  /** Growing the cache with a fresh buffer keeps the invariant, adds one free slab and no
      live object. */
  lemma GrowInv(c: Config, s: State, base: nat)
    requires Inv(c, s) && Fresh(c, s, base) && base > 0
    ensures CacheGrowSpec(c, s, base).0 == Ok(())
    ensures Inv(c, CacheGrowSpec(c, s, base).1)
    ensures Live(c, CacheGrowSpec(c, s, base).1.slabs) == Live(c, s.slabs)
  {
    var s' := CacheGrowSpec(c, s, base).1;
    LayoutGrow(c, s.slabs, base);
    LiveGrow(c, s.slabs, base);
    NewSlabOk(c, base);
    assert Listed(s') == [base] + Listed(s);
    assert base !in Listed(s);
    forall x
      ensures multiset(Listed(s'))[x] <= 1
    {
      assert multiset(Listed(s'))[x] == multiset([base])[x] + multiset(Listed(s))[x];
    }
    assert multiset(Listed(s'))[base] == 1;
    assert base !in s.partialSlabs && base !in s.fullSlabs;
  }

  /** The state after taking the top free object of the top partial slab. */
  function PartialTaken(s: State, b: nat, rest: seq<nat>): State
    requires s.partialSlabs != []
  {
    if rest == [] then State(s.freeSlabs, s.partialSlabs[1..], [b] + s.fullSlabs, s.slabs[b := rest])
    else s.(slabs := s.slabs[b := rest])
  }

  /** The top partial slab is on no other list and not further down its own. */
  lemma PartialTopAlone(s: State)
    requires ListsOk(s) && s.partialSlabs != []
    ensures s.partialSlabs[0] !in s.freeSlabs && s.partialSlabs[0] !in s.fullSlabs
    ensures s.partialSlabs[0] !in s.partialSlabs[1..]
  {
    var b := s.partialSlabs[0];
    assert s.partialSlabs == [b] + s.partialSlabs[1..];
    assert multiset(Listed(s))[b] == multiset(s.freeSlabs)[b] + multiset(s.partialSlabs)[b]
      + multiset(s.fullSlabs)[b];
  }

  /** Taking an object from the top partial slab keeps the lists: the slab stays where it
      is, or moves to the full list when it has no free object left. */
  lemma PartialTakenLists(s: State, rest: seq<nat>)
    requires ListsOk(s) && s.partialSlabs != []
    ensures ListsOk(PartialTaken(s, s.partialSlabs[0], rest))
  {
    var b := s.partialSlabs[0];
    var s' := PartialTaken(s, b, rest);
    assert b in Listed(s);
    assert s'.slabs.Keys == s.slabs.Keys;
    if rest == [] {
      assert s.partialSlabs == [b] + s.partialSlabs[1..];
      assert Listed(s') == s.freeSlabs + s.partialSlabs[1..] + [b] + s.fullSlabs;
      assert multiset(Listed(s')) == multiset(Listed(s));
    } else {
      assert Listed(s') == Listed(s);
    }
    ListsPerm(s, s');
  }

  /** ... and their classes. */
  lemma PartialTakenClassified(c: Config, s: State)
    requires ConfigOk(c) && ListsOk(s) && Classified(c, s)
    requires s.partialSlabs != [] && s.slabs[s.partialSlabs[0]] != []
    ensures Classified(c, PartialTaken(s, s.partialSlabs[0], s.slabs[s.partialSlabs[0]][1..]))
  {
    var b := s.partialSlabs[0];
    var rest := s.slabs[b][1..];
    var s' := PartialTaken(s, b, rest);
    PartialTakenLists(s, rest);
    PartialTopAlone(s);
    forall x | x in s'.fullSlabs && x in s'.slabs
      ensures |s'.slabs[x]| == 0
    {
      if x != b {
        assert x in s.fullSlabs;
      }
    }
    forall x | x in s'.partialSlabs && x in s'.slabs
      ensures |s'.slabs[x]| <= c.objPerSlab
      ensures c.objPerSlab >= 2 ==> 0 < |s'.slabs[x]| < c.objPerSlab
    {
      if rest == [] {
        assert x in s.partialSlabs[1..] && x in s.partialSlabs;
      }
    }
  }

  /** The state after the top free slab hands out an object and moves to the partial list. */
  function FreeTaken(s: State, b: nat, rest: seq<nat>): State
    requires s.freeSlabs != []
  {
    State(s.freeSlabs[1..], [b] + s.partialSlabs, s.fullSlabs, s.slabs[b := rest])
  }

  /** Taking an object from the top free slab and moving it to the partial list keeps the
      lists and their classes. */
  lemma FreeTakenLists(c: Config, s: State)
    requires ConfigOk(c) && ListsOk(s) && Classified(c, s) && s.freeSlabs != []
    requires s.freeSlabs[0] in s.slabs && s.slabs[s.freeSlabs[0]] != []
    ensures ListsOk(FreeTaken(s, s.freeSlabs[0], s.slabs[s.freeSlabs[0]][1..]))
    ensures Classified(c, FreeTaken(s, s.freeSlabs[0], s.slabs[s.freeSlabs[0]][1..]))
  {
    var b := s.freeSlabs[0];
    var s' := FreeTaken(s, b, s.slabs[b][1..]);
    assert s.freeSlabs == [b] + s.freeSlabs[1..];
    assert multiset(Listed(s))[b] == multiset(s.freeSlabs)[b] + multiset(s.partialSlabs)[b]
      + multiset(s.fullSlabs)[b];
    assert b !in s.freeSlabs[1..] && b !in s.partialSlabs && b !in s.fullSlabs;
    assert multiset(Listed(s')) == multiset(Listed(s));
    ListsPerm(s, s');
    FreeTakenClassified(c, s);
  }

  /** The slab taken from the top of the free list is partial afterwards; no other slab
      changes class. */
  lemma FreeTakenClassified(c: Config, s: State)
    requires ConfigOk(c) && Classified(c, s) && s.freeSlabs != []
    requires s.freeSlabs[0] in s.slabs && s.slabs[s.freeSlabs[0]] != []
    requires s.freeSlabs[0] !in s.freeSlabs[1..] && s.freeSlabs[0] !in s.partialSlabs
    requires s.freeSlabs[0] !in s.fullSlabs
    ensures Classified(c, FreeTaken(s, s.freeSlabs[0], s.slabs[s.freeSlabs[0]][1..]))
  {
    var b := s.freeSlabs[0];
    var s' := FreeTaken(s, b, s.slabs[b][1..]);
    assert |s.slabs[b]| == c.objPerSlab;
    forall x | x in s'.freeSlabs && x in s'.slabs
      ensures |s'.slabs[x]| == c.objPerSlab
    {
      assert x != b && x in s.freeSlabs;
    }
    forall x | x in s'.partialSlabs && x in s'.slabs && x != b
      ensures |s'.slabs[x]| <= c.objPerSlab
      ensures c.objPerSlab >= 2 ==> 0 < |s'.slabs[x]| < c.objPerSlab
    {
      assert x in s.partialSlabs;
    }
  }

  /** Allocating from a partial slab that has a free object keeps the invariant and makes
      exactly the returned, aligned object live. */
  lemma AllocPartialInv(c: Config, s: State, base: nat)
    requires Inv(c, s) && s.partialSlabs != [] && s.slabs[s.partialSlabs[0]] != []
    ensures AllocateSpec(c, s, base).0.Ok?
    ensures Inv(c, AllocateSpec(c, s, base).1)
    ensures AllocateSpec(c, s, base).0.value !in Live(c, s.slabs)
    ensures Live(c, AllocateSpec(c, s, base).1.slabs)
         == Live(c, s.slabs) + {AllocateSpec(c, s, base).0.value}
    ensures AllocateSpec(c, s, base).0.value % c.objAlign == 0
  {
    var b := s.partialSlabs[0];
    var p := s.slabs[b][0];
    var s' := PartialTaken(s, b, s.slabs[b][1..]);
    assert AllocateSpec(c, s, base) == (Ok(p), s');
    LayoutPop(c, s.slabs, b);
    LivePop(c, s.slabs, b);
    assert IsObject(c, b, p);
    ObjectAligned(c, b, p);
    PartialTakenLists(s, s.slabs[b][1..]);
    PartialTakenClassified(c, s);
  }

  /** Allocating from the top free slab of a state with one keeps the invariant and makes
      exactly the returned, aligned object live. */
  lemma AllocFromFreeInv(c: Config, s: State)
    requires Inv(c, s) && s.freeSlabs != []
    ensures s.freeSlabs[0] in s.slabs && s.slabs[s.freeSlabs[0]] != []
    ensures Inv(c, FreeTaken(s, s.freeSlabs[0], s.slabs[s.freeSlabs[0]][1..]))
    ensures s.slabs[s.freeSlabs[0]][0] !in Live(c, s.slabs)
    ensures Live(c, FreeTaken(s, s.freeSlabs[0], s.slabs[s.freeSlabs[0]][1..]).slabs)
         == Live(c, s.slabs) + {s.slabs[s.freeSlabs[0]][0]}
    ensures s.slabs[s.freeSlabs[0]][0] % c.objAlign == 0
  {
    var b := s.freeSlabs[0];
    assert b in Listed(s);
    assert |s.slabs[b]| == c.objPerSlab;
    var p := s.slabs[b][0];
    LayoutPop(c, s.slabs, b);
    LivePop(c, s.slabs, b);
    assert IsObject(c, b, p);
    ObjectAligned(c, b, p);
    FreeTakenLists(c, s);
  }

  /** Allocating when no partial slab has a free object: with an empty free list and a null
      page pointer nothing changes and the result is a page allocation error; otherwise the
      object comes from the top free slab, which moves to the partial list. */
  lemma AllocFreeInv(c: Config, s: State, base: nat)
    requires Inv(c, s) && Fresh(c, s, base)
    requires s.partialSlabs == [] || s.slabs[s.partialSlabs[0]] == []
    ensures AllocateSpec(c, s, base).0.Err? <==> base == 0 && s.freeSlabs == []
    ensures AllocateSpec(c, s, base).0.Err? ==>
      AllocateSpec(c, s, base).0.error == PageAllocationError && AllocateSpec(c, s, base).1 == s
    ensures Inv(c, AllocateSpec(c, s, base).1)
    ensures AllocateSpec(c, s, base).0.Ok? ==>
      && AllocateSpec(c, s, base).0.value !in Live(c, s.slabs)
      && Live(c, AllocateSpec(c, s, base).1.slabs)
         == Live(c, s.slabs) + {AllocateSpec(c, s, base).0.value}
      && AllocateSpec(c, s, base).0.value % c.objAlign == 0
  {
    if base == 0 && s.freeSlabs == [] {
      return;
    }
    var s1 := if s.freeSlabs == [] then CacheGrowSpec(c, s, base).1 else s;
    if s.freeSlabs == [] {
      GrowInv(c, s, base);
    }
    AllocFromFreeInv(c, s1);
    var b := s1.freeSlabs[0];
    assert AllocateSpec(c, s, base) == (Ok(s1.slabs[b][0]), FreeTaken(s1, b, s1.slabs[b][1..]));
  }

  /** `allocate` keeps the invariant. It fails only when no partial slab has a free object,
      the free list is empty and the page source gives a null pointer, and then nothing
      changes; otherwise the returned object is aligned, was not live, and is the one object
      that becomes live. */
  lemma AllocateInv(c: Config, s: State, base: nat)
    requires Inv(c, s) && Fresh(c, s, base)
    ensures Inv(c, AllocateSpec(c, s, base).1)
    ensures AllocateSpec(c, s, base).0.Err? <==>
      (base == 0 && s.freeSlabs == [] && (s.partialSlabs == [] || s.slabs[s.partialSlabs[0]] == []))
    ensures AllocateSpec(c, s, base).0.Err? ==>
      AllocateSpec(c, s, base).0.error == PageAllocationError && AllocateSpec(c, s, base).1 == s
    ensures AllocateSpec(c, s, base).0.Ok? ==>
      && AllocateSpec(c, s, base).0.value !in Live(c, s.slabs)
      && Live(c, AllocateSpec(c, s, base).1.slabs)
         == Live(c, s.slabs) + {AllocateSpec(c, s, base).0.value}
      && AllocateSpec(c, s, base).0.value % c.objAlign == 0
  {
    if s.partialSlabs != [] && s.slabs[s.partialSlabs[0]] != [] {
      AllocPartialInv(c, s, base);
    } else {
      AllocFreeInv(c, s, base);
    }
  }

  /** What `free` needs of its pointer: an aligned pointer inside a slab's object area is the
      start of one of its objects. The source asks for more (a pointer to an allocated
      object); this is as much as the checks it makes cannot detect. */
  ghost predicate SafePtr(c: Config, s: State, ptr: nat)
  {
    c.objAlign > 0 && (ptr % c.objAlign == 0 ==>
      forall b :: b in s.slabs && InRange(c, b, ptr) ==> IsObject(c, b, ptr))
  }

  /** A slab with room for a single object: every object of it is the same address. */
  lemma SingleObject(c: Config, b: nat, free: seq<nat>, p: nat)
    requires c.objPerSlab == 1 && SlabOk(c, b, free) && IsObject(c, b, p)
    ensures forall x :: x in free ==> x == p
    ensures p !in free ==> free == []
  {
    ObjectIndex(c, b, p);
    forall x | x in free
      ensures x == p
    {
      ObjectIndex(c, b, x);
    }
    if free != [] {
      assert free[0] in free;
    }
  }

  /** An object on its slab's free list is not live. */
  lemma FreeNotLive(c: Config, slabs: map<nat, seq<nat>>, b: nat, p: nat)
    requires ConfigOk(c) && Layout(c, slabs) && b in slabs && p in slabs[b]
    ensures p !in Live(c, slabs)
  {
    var k :| 0 <= k < |slabs[b]| && slabs[b][k] == p;
    assert IsObject(c, b, p);
    OwnerOf(c, slabs, b, p);
  }

  /** Moving slab `k` of the partial list to the top of the free list, with the slab map
      changed on existing keys only, keeps the lists. */
  lemma PartialToFreeLists(s: State, k: nat, slabs': map<nat, seq<nat>>)
    requires ListsOk(s) && k < |s.partialSlabs| && slabs'.Keys == s.slabs.Keys
    ensures ListsOk(State([s.partialSlabs[k]] + s.freeSlabs, Without(s.partialSlabs, k), s.fullSlabs, slabs'))
    ensures s.partialSlabs[k] !in s.freeSlabs && s.partialSlabs[k] !in s.fullSlabs
    ensures s.partialSlabs[k] !in Without(s.partialSlabs, k)
    ensures forall x :: x in Without(s.partialSlabs, k) ==> x in s.partialSlabs
  {
    var pa := s.partialSlabs;
    var b := pa[k];
    var s' := State([b] + s.freeSlabs, Without(pa, k), s.fullSlabs, slabs');
    assert pa == pa[..k] + [b] + pa[k + 1..];
    assert multiset(pa) == multiset(Without(pa, k)) + multiset([b]);
    assert multiset(Listed(s')) == multiset(Listed(s));
    ListsPerm(s, s');
    assert multiset(Listed(s))[b] == multiset(s.freeSlabs)[b] + multiset(Without(pa, k))[b]
      + multiset([b])[b] + multiset(s.fullSlabs)[b];
  }

  /** Moving slab `k` of the full list to the top of the partial list, with the slab map
      changed on existing keys only, keeps the lists. */
  lemma FullToPartialLists(s: State, k: nat, slabs': map<nat, seq<nat>>)
    requires ListsOk(s) && k < |s.fullSlabs| && slabs'.Keys == s.slabs.Keys
    ensures ListsOk(State(s.freeSlabs, [s.fullSlabs[k]] + s.partialSlabs, Without(s.fullSlabs, k), slabs'))
    ensures s.fullSlabs[k] !in s.freeSlabs && s.fullSlabs[k] !in s.partialSlabs
    ensures s.fullSlabs[k] !in Without(s.fullSlabs, k)
    ensures forall x :: x in Without(s.fullSlabs, k) ==> x in s.fullSlabs
  {
    var fu := s.fullSlabs;
    var b := fu[k];
    var s' := State(s.freeSlabs, [b] + s.partialSlabs, Without(fu, k), slabs');
    assert fu == fu[..k] + [b] + fu[k + 1..];
    assert multiset(fu) == multiset(Without(fu, k)) + multiset([b]);
    assert multiset(Listed(s')) == multiset(Listed(s));
    ListsPerm(s, s');
    assert multiset(Listed(s))[b] == multiset(s.freeSlabs)[b] + multiset(s.partialSlabs)[b]
      + multiset(Without(fu, k))[b] + multiset([b])[b];
  }

  /** The state after partial slab `k` takes `ptr` back: the slab moves to the free list when
      all its objects are free again. */
  function PartialReturned(c: Config, s: State, k: nat, ptr: nat): State
    requires k < |s.partialSlabs| && s.partialSlabs[k] in s.slabs
  {
    var b := s.partialSlabs[k];
    var f := [ptr] + s.slabs[b];
    if |f| == c.objPerSlab then State([b] + s.freeSlabs, Without(s.partialSlabs, k), s.fullSlabs, s.slabs[b := f])
    else s.(slabs := s.slabs[b := f])
  }

  /** The state after full slab `k` takes `ptr` back: the slab moves to the partial list. */
  function FullReturned(s: State, k: nat, ptr: nat): State
    requires k < |s.fullSlabs| && s.fullSlabs[k] in s.slabs
  {
    var b := s.fullSlabs[k];
    State(s.freeSlabs, [b] + s.partialSlabs, Without(s.fullSlabs, k), s.slabs[b := [ptr] + s.slabs[b]])
  }

  /** A partial slab taking back one of its live objects ends up with at most all of them
      free. */
  lemma PartialHasRoom(c: Config, s: State, k: nat, ptr: nat)
    requires Inv(c, s) && k < |s.partialSlabs|
    requires IsObject(c, s.partialSlabs[k], ptr) && ptr !in s.slabs[s.partialSlabs[k]]
    ensures s.partialSlabs[k] in s.slabs
    ensures |s.slabs[s.partialSlabs[k]]| < c.objPerSlab
  {
    var b := s.partialSlabs[k];
    assert b in Listed(s);
    var f := s.slabs[b];
    if c.objPerSlab == 1 {
      SingleObject(c, b, f, ptr);
    }
  }

  lemma PartialReturnedClassified(c: Config, s: State, k: nat, ptr: nat)
    requires Inv(c, s) && k < |s.partialSlabs|
    requires IsObject(c, s.partialSlabs[k], ptr) && ptr !in s.slabs[s.partialSlabs[k]]
    ensures Classified(c, PartialReturned(c, s, k, ptr))
  {
    var b := s.partialSlabs[k];
    PartialHasRoom(c, s, k, ptr);
    var f := [ptr] + s.slabs[b];
    var s' := PartialReturned(c, s, k, ptr);
    PartialToFreeLists(s, k, s.slabs[b := f]);
    if |f| == c.objPerSlab {
      forall x | x in s'.partialSlabs && x in s'.slabs
        ensures |s'.slabs[x]| <= c.objPerSlab
        ensures c.objPerSlab >= 2 ==> 0 < |s'.slabs[x]| < c.objPerSlab
      {
        assert x in s.partialSlabs && x != b;
      }
    }
  }

  lemma FullReturnedClassified(c: Config, s: State, k: nat, ptr: nat)
    requires Inv(c, s) && k < |s.fullSlabs|
    ensures s.fullSlabs[k] in s.slabs
    ensures Classified(c, FullReturned(s, k, ptr))
  {
    var b := s.fullSlabs[k];
    assert b in Listed(s);
    var s' := FullReturned(s, k, ptr);
    FullToPartialLists(s, k, s'.slabs);
    forall x | x in s'.fullSlabs && x in s'.slabs
      ensures |s'.slabs[x]| == 0
    {
      assert x in s.fullSlabs && x != b;
    }
  }

  /** Returning a live object to partial slab `k` keeps the invariant and makes exactly that
      object not live. */
  lemma PartialReturnedInv(c: Config, s: State, k: nat, ptr: nat)
    requires Inv(c, s) && k < |s.partialSlabs|
    requires IsObject(c, s.partialSlabs[k], ptr) && ptr !in s.slabs[s.partialSlabs[k]]
    ensures s.partialSlabs[k] in s.slabs
    ensures Inv(c, PartialReturned(c, s, k, ptr))
    ensures ptr in Live(c, s.slabs)
    ensures Live(c, PartialReturned(c, s, k, ptr).slabs) == Live(c, s.slabs) - {ptr}
  {
    var b := s.partialSlabs[k];
    PartialHasRoom(c, s, k, ptr);
    var f := [ptr] + s.slabs[b];
    var s' := PartialReturned(c, s, k, ptr);
    LayoutPush(c, s.slabs, b, ptr);
    LivePush(c, s.slabs, b, ptr);
    PartialToFreeLists(s, k, s.slabs[b := f]);
    if |f| != c.objPerSlab {
      assert Listed(s') == Listed(s);
      ListsPerm(s, s');
    }
    PartialReturnedClassified(c, s, k, ptr);
  }

  /** Returning a live object to full slab `k` keeps the invariant and makes exactly that
      object not live. */
  lemma FullReturnedInv(c: Config, s: State, k: nat, ptr: nat)
    requires Inv(c, s) && k < |s.fullSlabs|
    requires IsObject(c, s.fullSlabs[k], ptr) && ptr !in s.slabs[s.fullSlabs[k]]
    ensures s.fullSlabs[k] in s.slabs
    ensures Inv(c, FullReturned(s, k, ptr))
    ensures ptr in Live(c, s.slabs)
    ensures Live(c, FullReturned(s, k, ptr).slabs) == Live(c, s.slabs) - {ptr}
  {
    var b := s.fullSlabs[k];
    FullReturnedClassified(c, s, k, ptr);
    LayoutPush(c, s.slabs, b, ptr);
    LivePush(c, s.slabs, b, ptr);
    FullToPartialLists(s, k, FullReturned(s, k, ptr).slabs);
  }

  /** A `free` that fails leaves the allocator as it was. */
  lemma FreeAsWrittenFails(c: Config, s: State, ptr: nat)
    requires Inv(c, s)
    ensures FreeSpecAsWritten(c, s, ptr).0.Err? ==> FreeSpecAsWritten(c, s, ptr).1 == s
  {
    var w := FreeSpecAsWritten(c, s, ptr);
    if w.0.Err? && ptr % c.objAlign == 0 {
      var k := FirstInRange(c, s.partialSlabs, ptr);
      if k.None? {
        assert w.1 == s;
      }
    }
  }

  /** `free` as written keeps the invariant, changes nothing when it fails, and fails as
      follows: a misaligned pointer is refused first; an aligned pointer outside every partial
      and full slab is out of range; a pointer already free is a double free. When it
      succeeds the pointer was live and is the one object that stops being live. */
  lemma FreeAsWrittenInv(c: Config, s: State, ptr: nat)
    requires Inv(c, s) && SafePtr(c, s, ptr)
    ensures Inv(c, FreeSpecAsWritten(c, s, ptr).1)
    ensures FreeSpecAsWritten(c, s, ptr).0.Err? ==> FreeSpecAsWritten(c, s, ptr).1 == s
    ensures FreeSpecAsWritten(c, s, ptr).1.slabs.Keys == s.slabs.Keys
    ensures FreeSpecAsWritten(c, s, ptr).0.Err? ==>
      FreeSpecAsWritten(c, s, ptr).0.error in {BadPtrAlignment, BadPtrRange, DoubleFree}
    ensures FreeSpecAsWritten(c, s, ptr).0 == Err(BadPtrAlignment) <==> ptr % c.objAlign != 0
    ensures FreeSpecAsWritten(c, s, ptr).0 == Err(BadPtrRange) <==>
      (ptr % c.objAlign == 0 && forall b :: b in s.partialSlabs + s.fullSlabs ==> !InRange(c, b, ptr))
    ensures FreeSpecAsWritten(c, s, ptr).0 == Err(DoubleFree) ==> ptr !in Live(c, s.slabs)
    ensures FreeSpecAsWritten(c, s, ptr).0.Ok? ==>
      ptr in Live(c, s.slabs) && Live(c, FreeSpecAsWritten(c, s, ptr).1.slabs) == Live(c, s.slabs) - {ptr}
  {
    if ptr % c.objAlign != 0 {
      return;
    }
    match FirstInRange(c, s.partialSlabs, ptr)
    case Some(k) =>
      FreeAsWrittenPartial(c, s, ptr, k);
    case None =>
      match FirstInRange(c, s.fullSlabs, ptr)
      case Some(k) =>
        FreeAsWrittenFull(c, s, ptr, k);
      case None =>
        FreeAsWrittenNowhere(c, s, ptr);
  }

  /** The outcome of `free` (as written) on a pointer aligned to the object alignment. */
  ghost predicate FreeAlignedOutcome(c: Config, s: State, ptr: nat)
    requires Inv(c, s)
  {
    var r := FreeSpecAsWritten(c, s, ptr);
    && Inv(c, r.1)
    && (r.0.Err? ==> r.1 == s)
    && r.1.slabs.Keys == s.slabs.Keys
    && (r.0.Err? ==> r.0.error in {BadPtrRange, DoubleFree})
    && (r.0 == Err(BadPtrRange) <==> forall b :: b in s.partialSlabs + s.fullSlabs ==> !InRange(c, b, ptr))
    && (r.0 == Err(DoubleFree) ==> ptr !in Live(c, s.slabs))
    && (r.0.Ok? ==> ptr in Live(c, s.slabs) && Live(c, r.1.slabs) == Live(c, s.slabs) - {ptr})
  }

  /** `free` (as written) of a pointer in the partial slab at position `k`. */
  lemma FreeAsWrittenPartial(c: Config, s: State, ptr: nat, k: nat)
    requires Inv(c, s) && SafePtr(c, s, ptr) && ptr % c.objAlign == 0
    requires FirstInRange(c, s.partialSlabs, ptr) == Some(k)
    ensures FreeAlignedOutcome(c, s, ptr)
  {
    var b := s.partialSlabs[k];
    assert b in Listed(s) && b in s.partialSlabs + s.fullSlabs && InRange(c, b, ptr);
    assert IsObject(c, b, ptr);
    if ptr in s.slabs[b] {
      FreeNotLive(c, s.slabs, b, ptr);
      assert FreeSpecAsWritten(c, s, ptr) == (Err(DoubleFree), s);
    } else {
      PartialReturnedInv(c, s, k, ptr);
      FreePartialValue(c, s, ptr, k);
    }
  }

  /** The value `free` (as written) takes when the partial slab at position `k` takes back a
      pointer it does not hold. */
  lemma FreePartialValue(c: Config, s: State, ptr: nat, k: nat)
    requires Inv(c, s) && ptr % c.objAlign == 0
    requires FirstInRange(c, s.partialSlabs, ptr) == Some(k)
    requires s.partialSlabs[k] in s.slabs && ptr !in s.slabs[s.partialSlabs[k]]
    ensures FreeSpecAsWritten(c, s, ptr) == (Ok(()), PartialReturned(c, s, k, ptr))
    ensures PartialReturned(c, s, k, ptr).slabs.Keys == s.slabs.Keys
  {
  }

  /** `free` (as written) of a pointer in the full slab at position `k`, in no partial slab. */
  lemma FreeAsWrittenFull(c: Config, s: State, ptr: nat, k: nat)
    requires Inv(c, s) && SafePtr(c, s, ptr) && ptr % c.objAlign == 0
    requires FirstInRange(c, s.partialSlabs, ptr).None?
    requires FirstInRange(c, s.fullSlabs, ptr) == Some(k)
    ensures FreeAlignedOutcome(c, s, ptr)
  {
    var b := s.fullSlabs[k];
    assert b in Listed(s) && b in s.partialSlabs + s.fullSlabs && InRange(c, b, ptr);
    assert IsObject(c, b, ptr);
    if ptr in s.slabs[b] {
      FreeNotLive(c, s.slabs, b, ptr);
    } else {
      FullReturnedInv(c, s, k, ptr);
      assert FreeSpecAsWritten(c, s, ptr) == (Ok(()), FullReturned(s, k, ptr));
    }
  }

  /** `free` (as written) of an aligned pointer in no partial or full slab. */
  lemma FreeAsWrittenNowhere(c: Config, s: State, ptr: nat)
    requires Inv(c, s) && ptr % c.objAlign == 0
    requires FirstInRange(c, s.partialSlabs, ptr).None?
    requires FirstInRange(c, s.fullSlabs, ptr).None?
    ensures FreeAlignedOutcome(c, s, ptr)
  {
    forall b | b in s.partialSlabs + s.fullSlabs
      ensures !InRange(c, b, ptr)
    {
      if b in s.partialSlabs {
        var j :| 0 <= j < |s.partialSlabs| && s.partialSlabs[j] == b;
      } else {
        var j :| 0 <= j < |s.fullSlabs| && s.fullSlabs[j] == b;
      }
    }
  }

  /** `reap` keeps the invariant: the partial and full slabs and their free lists are
      untouched, and exactly the free slabs leave the slab map. */
  lemma ReapInv(c: Config, s: State)
    requires Inv(c, s)
    ensures Inv(c, ReapSpec(s))
    ensures forall b :: b in ReapSpec(s).slabs <==> b in s.partialSlabs + s.fullSlabs
    ensures forall b :: b in ReapSpec(s).slabs ==> ReapSpec(s).slabs[b] == s.slabs[b]
  {
    var s' := ReapSpec(s);
    LayoutRemove(c, s.slabs, Elems(s.freeSlabs));
    forall x
      ensures multiset(Listed(s'))[x] <= 1
      ensures x in s.partialSlabs + s.fullSlabs ==> x !in s.freeSlabs
    {
      assert multiset(Listed(s))[x] == multiset(s.freeSlabs)[x] + multiset(Listed(s'))[x];
    }
  }

  /** A sequence has at most as many distinct elements as positions. */
  lemma {:induction false} SeqSetCard(s: seq<nat>)
    ensures |Elems(s)| <= |s|
  {
    if s != [] {
      SeqSetCard(s[1..]);
      var t := Elems(s[1..]);
      assert Elems(s) == t + {s[0]};
      if s[0] !in t {
        assert |t + {s[0]}| == |t| + 1;
      }
    }
  }

  /** A list of distinct values drawn from `t` is no longer than `t` is large. */
  lemma {:induction false} DistinctWithin(free: seq<nat>, t: set<nat>)
    requires Distinct(free) && forall k :: 0 <= k < |free| ==> free[k] in t
    ensures |free| <= |t|
  {
    if free != [] {
      DistinctTail(free);
      forall k | 0 <= k < |free| - 1
        ensures free[1..][k] in t - {free[0]}
      {
        assert free[1..][k] == free[k + 1];
      }
      DistinctWithin(free[1..], t - {free[0]});
    }
  }

  /** Every object of a slab appears among its objects in address order. */
  lemma ObjectListed(c: Config, b: nat, p: nat)
    requires IsObject(c, b, p)
    ensures p in SlabObjects(c, b, c.objPerSlab)
  {
    var i := ObjectWitness(c, b, p);
    assert SlabObjects(c, b, c.objPerSlab)[c.objPerSlab - 1 - i] == p;
  }

  /** Distinct values drawn from a sequence, as many as its positions, include every element
      of it. */
  lemma DistinctCover(free: seq<nat>, objs: seq<nat>, p: nat)
    requires Distinct(free) && |free| == |objs| && p in objs
    requires forall k :: 0 <= k < |free| ==> free[k] in objs
    ensures p in free
  {
    var t := Elems(objs);
    SeqSetCard(objs);
    if p !in free {
      forall k | 0 <= k < |free|
        ensures free[k] in t - {p}
      {
        assert free[k] in objs;
      }
      assert p in t;
      DistinctWithin(free, t - {p});
      assert false;
    }
  }

  /** A slab whose free list is as long as its object count has every object free. */
  lemma FullFreeList(c: Config, b: nat, free: seq<nat>, p: nat)
    requires SlabOk(c, b, free) && |free| == c.objPerSlab && IsObject(c, b, p)
    ensures p in free
  {
    var objs := SlabObjects(c, b, c.objPerSlab);
    ObjectListed(c, b, p);
    forall k | 0 <= k < |free|
      ensures free[k] in objs
    {
      ObjectListed(c, b, free[k]);
    }
    DistinctCover(free, objs, p);
  }

  /** No object of a slab on the free list is live. */
  lemma FreeSlabNotLive(c: Config, s: State, b: nat, ptr: nat)
    requires Inv(c, s) && b in s.freeSlabs && IsObject(c, b, ptr)
    ensures ptr !in Live(c, s.slabs)
  {
    assert b in Listed(s);
    FullFreeList(c, b, s.slabs[b], ptr);
    FreeNotLive(c, s.slabs, b, ptr);
  }

  /** `free` with the free slabs searched too: an aligned pointer inside a slab whose objects
      are all free is a double free, not a pointer out of range. */
  function FreeSpec(c: Config, s: State, ptr: nat): (Result<(), SlabError>, State)
    requires Inv(c, s)
  {
    var w := FreeSpecAsWritten(c, s, ptr);
    if w.0 == Err(BadPtrRange) && FirstInRange(c, s.freeSlabs, ptr).Some? then (Err(DoubleFree), s)
    else w
  }

  /** `free` keeps the invariant and changes nothing when it fails. A misaligned pointer is
      refused, an aligned pointer outside every slab is out of range, and a pointer that is
      not live is a double free; a live pointer is taken back and stops being live. */
  lemma FreeInv(c: Config, s: State, ptr: nat)
    requires Inv(c, s) && SafePtr(c, s, ptr)
    ensures Inv(c, FreeSpec(c, s, ptr).1)
    ensures FreeSpec(c, s, ptr).0.Err? ==> FreeSpec(c, s, ptr).1 == s
    ensures FreeSpec(c, s, ptr).1.slabs.Keys == s.slabs.Keys
    ensures FreeSpec(c, s, ptr).0.Err? ==>
      FreeSpec(c, s, ptr).0.error in {BadPtrAlignment, BadPtrRange, DoubleFree}
    ensures FreeSpec(c, s, ptr).0 == Err(BadPtrAlignment) <==> ptr % c.objAlign != 0
    ensures FreeSpec(c, s, ptr).0 == Err(BadPtrRange) <==>
      (ptr % c.objAlign == 0 && forall b :: b in s.slabs ==> !InRange(c, b, ptr))
    ensures FreeSpec(c, s, ptr).0 == Err(DoubleFree) ==> ptr !in Live(c, s.slabs)
    ensures FreeSpec(c, s, ptr).0.Ok? ==>
      ptr in Live(c, s.slabs) && Live(c, FreeSpec(c, s, ptr).1.slabs) == Live(c, s.slabs) - {ptr}
  {
    FreeAsWrittenInv(c, s, ptr);
    var w := FreeSpecAsWritten(c, s, ptr);
    if ptr % c.objAlign == 0 {
      if w.0 == Err(BadPtrRange) {
        match FirstInRange(c, s.freeSlabs, ptr)
        case Some(k) =>
          FreeInFreeSlab(c, s, ptr, k);
        case None =>
          FreeInNoSlab(c, s, ptr);
      } else {
        FreeInListedSlab(c, s, ptr);
      }
    }
  }

  /** The outcome of the corrected `free` on a pointer aligned to the object alignment. */
  ghost predicate FreeAlignedResult(c: Config, s: State, ptr: nat)
    requires Inv(c, s)
  {
    var r := FreeSpec(c, s, ptr);
    && (r.0 == Err(BadPtrRange) <==> forall b :: b in s.slabs ==> !InRange(c, b, ptr))
    && (r.0 == Err(DoubleFree) ==> ptr !in Live(c, s.slabs))
  }

  /** An aligned pointer in the free slab at position `k` is a double free. */
  lemma FreeInFreeSlab(c: Config, s: State, ptr: nat, k: nat)
    requires Inv(c, s) && SafePtr(c, s, ptr) && ptr % c.objAlign == 0
    requires FreeSpecAsWritten(c, s, ptr).0 == Err(BadPtrRange)
    requires FirstInRange(c, s.freeSlabs, ptr) == Some(k)
    ensures FreeAlignedResult(c, s, ptr)
  {
    var b := s.freeSlabs[k];
    assert b in Listed(s);
    FreeSlabNotLive(c, s, b, ptr);
    assert b in s.slabs && InRange(c, b, ptr);
  }

  /** An aligned pointer in no slab at all is out of range. */
  lemma FreeInNoSlab(c: Config, s: State, ptr: nat)
    requires Inv(c, s) && ptr % c.objAlign == 0
    requires FreeSpecAsWritten(c, s, ptr).0 == Err(BadPtrRange)
    requires FreeSpecAsWritten(c, s, ptr).0 == Err(BadPtrRange) <==>
      (ptr % c.objAlign == 0 && forall b :: b in s.partialSlabs + s.fullSlabs ==> !InRange(c, b, ptr))
    requires FirstInRange(c, s.freeSlabs, ptr).None?
    ensures FreeAlignedResult(c, s, ptr)
  {
    forall b | b in s.slabs
      ensures !InRange(c, b, ptr)
    {
      assert b in Listed(s);
      if b in s.freeSlabs {
        var j :| 0 <= j < |s.freeSlabs| && s.freeSlabs[j] == b;
      } else {
        assert b in s.partialSlabs + s.fullSlabs;
      }
    }
  }

  /** An aligned pointer in a partial or full slab gets what `free` as written gives it. */
  lemma FreeInListedSlab(c: Config, s: State, ptr: nat)
    requires Inv(c, s) && ptr % c.objAlign == 0
    requires FreeSpecAsWritten(c, s, ptr).0 != Err(BadPtrRange)
    requires FreeSpecAsWritten(c, s, ptr).0 == Err(BadPtrRange) <==>
      (ptr % c.objAlign == 0 && forall b :: b in s.partialSlabs + s.fullSlabs ==> !InRange(c, b, ptr))
    requires FreeSpecAsWritten(c, s, ptr).0 == Err(DoubleFree) ==> ptr !in Live(c, s.slabs)
    ensures FreeAlignedResult(c, s, ptr)
  {
    var b :| b in s.partialSlabs + s.fullSlabs && InRange(c, b, ptr);
    assert b in Listed(s);
  }

  /** Freeing the same pointer twice: the second call reports a double free and changes
      nothing. */
  lemma FreeTwice(c: Config, s: State, ptr: nat)
    requires Inv(c, s) && SafePtr(c, s, ptr) && FreeSpec(c, s, ptr).0.Ok?
    ensures Inv(c, FreeSpec(c, s, ptr).1) && SafePtr(c, FreeSpec(c, s, ptr).1, ptr)
    ensures FreeSpec(c, FreeSpec(c, s, ptr).1, ptr) ==
      (Err(DoubleFree), FreeSpec(c, s, ptr).1)
  {
    FreeInv(c, s, ptr);
    var s' := FreeSpec(c, s, ptr).1;
    assert SafePtr(c, s', ptr);
    FreeInv(c, s', ptr);
    var b, i :| b in s.slabs && 0 <= i < c.objPerSlab && ObjAddr(c, b, i) !in s.slabs[b]
      && ptr == ObjAddr(c, b, i);
    ObjectAt(c, b, i);
    assert b in s'.slabs && InRange(c, b, ptr);
  }

  /** The empty allocator: no slab on any list. */
  function Empty(): State
  {
    State([], [], [], map[])
  }

  /** The first allocation from a fresh allocator grows the cache and hands out the top
      object of the new slab, which moves to the partial list. */
  lemma FirstAllocation(c: Config, base: nat)
    requires ConfigOk(c) && base > 0
    ensures Inv(c, Empty())
    ensures
      var objs := SlabObjects(c, base, c.objPerSlab);
      AllocateSpec(c, Empty(), base) == (Ok(objs[0]), State([], [base], [], map[base := objs[1..]]))
  {
    var objs := SlabObjects(c, base, c.objPerSlab);
    assert Inv(c, Empty());
    var g := CacheGrowSpec(c, Empty(), base);
    assert g.1.freeSlabs == [base] && g.1.slabs[base] == objs;
    assert SlabAllocate(objs) == (Ok(objs[0]), objs[1..]);
    assert g.1.slabs[base := objs[1..]] == map[base := objs[1..]];
  }

  /** Freeing the object the first allocation handed out makes its slab completely free
      again and moves it to the free list. */
  lemma FirstFree(c: Config, base: nat)
    requires ConfigOk(c) && base > 0 && base % PAGE_SIZE == 0
    ensures
      var objs := SlabObjects(c, base, c.objPerSlab);
      var s1 := State([], [base], [], map[base := objs[1..]]);
      && Inv(c, s1)
      && FreeSpecAsWritten(c, s1, objs[0]) == (Ok(()), State([base], [], [], map[base := objs]))
  {
    var objs := SlabObjects(c, base, c.objPerSlab);
    var s1 := State([], [base], [], map[base := objs[1..]]);
    FirstAllocation(c, base);
    AllocateInv(c, Empty(), base);
    var p := objs[0];
    ObjectAt(c, base, c.objPerSlab - 1);
    assert p % c.objAlign == 0;
    assert FirstInRange(c, s1.partialSlabs, p) == Some(0);
    NewSlabOk(c, base);
    DistinctTail(objs);
    assert [p] + objs[1..] == objs;
    assert SlabFree(objs[1..], p) == (Ok(()), objs);
    assert s1.slabs[base := objs] == map[base := objs];
  }

  /** A pointer to an object of a slab that sits on the free list, with the partial and full
      lists empty, is out of range for `free` as written. */
  lemma SecondFree(c: Config, base: nat)
    requires ConfigOk(c) && base > 0 && base % PAGE_SIZE == 0
    ensures
      var objs := SlabObjects(c, base, c.objPerSlab);
      var s2 := State([base], [], [], map[base := objs]);
      && Inv(c, s2)
      && FreeSpecAsWritten(c, s2, objs[0]).0 == Err(BadPtrRange)
  {
    var objs := SlabObjects(c, base, c.objPerSlab);
    assert Inv(c, Empty());
    GrowInv(c, Empty(), base);
    assert CacheGrowSpec(c, Empty(), base).1 == State([base], [], [], map[base := objs]);
    ObjectAt(c, base, c.objPerSlab - 1);
    assert objs[0] == ObjAddr(c, base, c.objPerSlab - 1);
    ObjectAligned(c, base, objs[0]);
  }

  /** The source's double-free scenario, for every layout: a fresh allocator hands out one
      object, takes it back, and then reports the second free of it as a pointer out of
      range rather than a double free, because the slab is now on the free list, which
      `free` does not search. */
  lemma DoubleFreeMissed(c: Config, base: nat)
    requires ConfigOk(c) && base > 0 && base % PAGE_SIZE == 0
    ensures Inv(c, Empty()) && AllocateSpec(c, Empty(), base).0.Ok?
    ensures Inv(c, AllocateSpec(c, Empty(), base).1)
    ensures FreeSpecAsWritten(c, AllocateSpec(c, Empty(), base).1,
                              AllocateSpec(c, Empty(), base).0.value).0 == Ok(())
    ensures Inv(c, FreeSpecAsWritten(c, AllocateSpec(c, Empty(), base).1,
                                     AllocateSpec(c, Empty(), base).0.value).1)
    ensures
      FreeSpecAsWritten(c,
        FreeSpecAsWritten(c, AllocateSpec(c, Empty(), base).1,
                          AllocateSpec(c, Empty(), base).0.value).1,
        AllocateSpec(c, Empty(), base).0.value).0 == Err(BadPtrRange)
  {
    FirstAllocation(c, base);
    FirstFree(c, base);
    SecondFree(c, base);
  }

  /** A live object is a pointer `free` may be given: the only slab whose range holds it is
      its own, and it is aligned. */
  lemma LiveSafe(c: Config, s: State, p: nat)
    requires Inv(c, s) && p in Live(c, s.slabs)
    ensures SafePtr(c, s, p)
    ensures exists b :: b in s.slabs && InRange(c, b, p)
  {
    var b, i :| b in s.slabs && 0 <= i < c.objPerSlab && ObjAddr(c, b, i) !in s.slabs[b]
      && p == ObjAddr(c, b, i);
    ObjectAt(c, b, i);
    forall b2 | b2 in s.slabs && InRange(c, b2, p)
      ensures IsObject(c, b2, p)
    {
      assert b2 == b;
    }
  }

  /** Freeing what `allocate` just handed out succeeds and leaves exactly the objects that
      were live before the allocation. */
  lemma AllocThenFree(c: Config, s: State, base: nat)
    requires Inv(c, s) && Fresh(c, s, base) && AllocateSpec(c, s, base).0.Ok?
    ensures Inv(c, AllocateSpec(c, s, base).1)
    ensures SafePtr(c, AllocateSpec(c, s, base).1, AllocateSpec(c, s, base).0.value)
    ensures FreeSpec(c, AllocateSpec(c, s, base).1, AllocateSpec(c, s, base).0.value).0 == Ok(())
    ensures Live(c, FreeSpec(c, AllocateSpec(c, s, base).1, AllocateSpec(c, s, base).0.value).1.slabs)
         == Live(c, s.slabs)
  {
    AllocateInv(c, s, base);
    var s1 := AllocateSpec(c, s, base).1;
    var p := AllocateSpec(c, s, base).0.value;
    LiveSafe(c, s1, p);
    FreeInv(c, s1, p);
    var r := FreeSpec(c, s1, p);
    assert r.0 != Err(BadPtrAlignment) && r.0 != Err(BadPtrRange) && r.0 != Err(DoubleFree);
    assert r.0.Ok?;
    assert r.0.value == ();
    assert Live(c, r.1.slabs) == Live(c, s1.slabs) - {p};
  }

  /** Two successive successful allocations hand out different objects. */
  lemma AllocTwiceDistinct(c: Config, s: State, base1: nat, base2: nat)
    requires Inv(c, s) && Fresh(c, s, base1) && AllocateSpec(c, s, base1).0.Ok?
    requires Inv(c, AllocateSpec(c, s, base1).1)
    requires Fresh(c, AllocateSpec(c, s, base1).1, base2)
    requires AllocateSpec(c, AllocateSpec(c, s, base1).1, base2).0.Ok?
    ensures AllocateSpec(c, AllocateSpec(c, s, base1).1, base2).0.value
         != AllocateSpec(c, s, base1).0.value
  {
    AllocateInv(c, s, base1);
    AllocateInv(c, AllocateSpec(c, s, base1).1, base2);
  }

  /** `reap` releases no live object. */
  lemma ReapLive(c: Config, s: State)
    requires Inv(c, s)
    ensures Live(c, ReapSpec(s).slabs) == Live(c, s.slabs)
  {
    var s' := ReapSpec(s);
    ReapInv(c, s);
    forall p | p in Live(c, s.slabs)
      ensures p in Live(c, s'.slabs)
    {
      var b, i :| b in s.slabs && 0 <= i < c.objPerSlab && ObjAddr(c, b, i) !in s.slabs[b]
        && p == ObjAddr(c, b, i);
      ObjectAt(c, b, i);
      if b in s.freeSlabs {
        FreeSlabNotLive(c, s, b, p);
      }
      assert b in Listed(s);
      assert b in s'.slabs;
    }
  }

  /** `Slab::new`: pushes the objects of the buffer onto an empty free list in address
      order, so the last object ends on top. */
  method NewSlab(c: Config, buff: nat) returns (free: seq<nat>)
    ensures free == SlabObjects(c, buff, c.objPerSlab)
  {
    free := [];
    for i := 0 to c.objPerSlab
      invariant free == SlabObjects(c, buff, i)
    {
      free := [buff + i * c.objSize] + free;
    }
  }

  /** The position of the first slab in `list` whose range holds `ptr`, found by walking the
      list. */
  method FindInRange(c: Config, list: seq<nat>, ptr: nat) returns (r: Option<nat>)
    ensures r == FirstInRange(c, list, ptr)
  {
    var i := 0;
    while i < |list|
      invariant i <= |list|
      invariant forall j :: 0 <= j < i ==> !InRange(c, list[j], ptr)
    {
      if InRange(c, list[i], ptr) {
        return Some(i);
      }
      i := i + 1;
    }
    return None;
  }

  /** `InternalSlabAllocator`: the three slab lists, each slab's free list, and the layout
      fixed by `new`. The page source is not modelled: each operation that may grow the cache
      takes the address it would return, 0 standing for a null pointer. */
  class InternalSlabAllocator {
    var freeSlabs: seq<nat>
    var partialSlabs: seq<nat>
    var fullSlabs: seq<nat>
    var slabs: map<nat, seq<nat>>
    const config: Config

    /** The allocator's lists and slabs as a value. */
    ghost function Model(): State
      reads this
    {
      State(freeSlabs, partialSlabs, fullSlabs, slabs)
    }

    ghost predicate Valid()
      reads this
    {
      Inv(config, Model())
    }

    /** `new`: pads the layout, computes the slab geometry and starts with no slab. The
        object size must hold a free-list node; the other assertions always pass. */
    constructor New(size: nat, align: nat)
      requires IsPow2(align) && align <= PAGE_SIZE && PadToAlign(size, align) >= OBJECT_NODE_SIZE
      ensures config == NewConfig(size, align)
      ensures Model() == Empty() && Valid()
    {
      config := NewConfig(size, align);
      freeSlabs := [];
      partialSlabs := [];
      fullSlabs := [];
      slabs := map[];
    }

    /** `cache_grow`. */
    method CacheGrow(base: nat) returns (r: Result<(), SlabError>)
      requires Valid() && Fresh(config, Model(), base)
      modifies this
      ensures (r, Model()) == CacheGrowSpec(config, old(Model()), base)
      ensures Valid()
      ensures r.Ok? ==> Live(config, slabs) == Live(config, old(slabs))
    {
      if base == 0 {
        return Err(PageAllocationError);
      }
      GrowInv(config, Model(), base);
      var free := NewSlab(config, base);
      slabs := slabs[base := free];
      freeSlabs := [base] + freeSlabs;
      return Ok(());
    }

    /** `allocate`. */
    method Allocate(base: nat) returns (r: Result<nat, SlabError>)
      requires Valid() && Fresh(config, Model(), base)
      modifies this
      ensures (r, Model()) == AllocateSpec(config, old(Model()), base)
      ensures Valid()
      ensures r.Ok? ==>
        (r.value !in Live(config, old(slabs))
         && Live(config, slabs) == Live(config, old(slabs)) + {r.value})
    {
      AllocateInv(config, Model(), base);
      if partialSlabs != [] && slabs[partialSlabs[0]] != [] {
        r := AllocateFromPartial(base);
      } else {
        r := AllocateFromFree(base);
      }
    }

    /** The first branch of `allocate`: the top partial slab has a free object. */
    method AllocateFromPartial(ghost base: nat) returns (r: Result<nat, SlabError>)
      requires Valid() && partialSlabs != [] && partialSlabs[0] in slabs && slabs[partialSlabs[0]] != []
      modifies this
      ensures (r, Model()) == AllocateSpec(config, old(Model()), base)
    {
      var b := partialSlabs[0];
      var t := SlabAllocate(slabs[b]);
      slabs := slabs[b := t.1];
      if t.1 == [] {
        partialSlabs := partialSlabs[1..];
        fullSlabs := [b] + fullSlabs;
      }
      return t.0;
    }

    /** The other branch of `allocate`: take the top free slab, growing the cache first when
        there is none. */
    method AllocateFromFree(base: nat) returns (r: Result<nat, SlabError>)
      requires Valid() && Fresh(config, Model(), base)
      requires partialSlabs != [] ==> partialSlabs[0] in slabs && slabs[partialSlabs[0]] == []
      modifies this
      ensures (r, Model()) == AllocateSpec(config, old(Model()), base)
    {
      if freeSlabs == [] {
        var g := CacheGrow(base);
        if g.Err? {
          return Err(g.error);
        }
      }
      var b := freeSlabs[0];
      var t := SlabAllocate(slabs[b]);
      if t.0.Err? {
        return t.0;
      }
      slabs := slabs[b := t.1];
      freeSlabs := freeSlabs[1..];
      partialSlabs := [b] + partialSlabs;
      return t.0;
    }

    /** `free` as the source writes it. */
    method FreeAsWritten(ptr: nat) returns (r: Result<(), SlabError>)
      requires Valid() && SafePtr(config, Model(), ptr)
      modifies this
      ensures (r, Model()) == FreeSpecAsWritten(config, old(Model()), ptr)
      ensures Valid()
    {
      FreeAsWrittenInv(config, Model(), ptr);
      if ptr % config.objAlign != 0 {
        return Err(BadPtrAlignment);
      }
      var k := FindInRange(config, partialSlabs, ptr);
      if k.Some? {
        r := FreeIntoPartial(ptr, k.value);
        return;
      }
      k := FindInRange(config, fullSlabs, ptr);
      if k.Some? {
        r := FreeIntoFull(ptr, k.value);
        return;
      }
      return Err(BadPtrRange);
    }

    /** The partial-list branch of `free`: slab `k` of the partial list is the first whose
        range holds the pointer. */
    method FreeIntoPartial(ptr: nat, k: nat) returns (r: Result<(), SlabError>)
      requires Valid() && ptr % config.objAlign == 0
      requires FirstInRange(config, partialSlabs, ptr) == Some(k)
      modifies this
      ensures (r, Model()) == FreeSpecAsWritten(config, old(Model()), ptr)
    {
      var b := partialSlabs[k];
      var t := SlabFree(slabs[b], ptr);
      if t.0.Err? {
        return t.0;
      }
      slabs := slabs[b := t.1];
      if |t.1| == config.objPerSlab {
        partialSlabs := Without(partialSlabs, k);
        freeSlabs := [b] + freeSlabs;
      }
      return t.0;
    }

    /** The full-list branch of `free`: no partial slab holds the pointer and slab `k` of the
        full list is the first whose range does. */
    method FreeIntoFull(ptr: nat, k: nat) returns (r: Result<(), SlabError>)
      requires Valid() && ptr % config.objAlign == 0
      requires FirstInRange(config, partialSlabs, ptr).None?
      requires FirstInRange(config, fullSlabs, ptr) == Some(k)
      modifies this
      ensures (r, Model()) == FreeSpecAsWritten(config, old(Model()), ptr)
    {
      var b := fullSlabs[k];
      var t := SlabFree(slabs[b], ptr);
      if t.0.Err? {
        return t.0;
      }
      slabs := slabs[b := t.1];
      fullSlabs := Without(fullSlabs, k);
      partialSlabs := [b] + partialSlabs;
      return t.0;
    }

    /** `free`, with a pointer inside a completely free slab reported as a double free. */
    method Free(ptr: nat) returns (r: Result<(), SlabError>)
      requires Valid() && SafePtr(config, Model(), ptr)
      modifies this
      ensures (r, Model()) == FreeSpec(config, old(Model()), ptr)
      ensures Valid()
      ensures r.Ok? ==>
        (old(ptr in Live(config, slabs))
         && Live(config, slabs) == old(Live(config, slabs)) - {ptr})
    {
      FreeInv(config, Model(), ptr);
      FreeAsWrittenFails(config, Model(), ptr);
      ghost var s0 := Model();
      r := FreeAsWritten(ptr);
      if r == Err(BadPtrRange) {
        assert Model() == s0;
        var k := FindInRange(config, freeSlabs, ptr);
        if k.Some? {
          r := Err(DoubleFree);
        }
      }
    }

    /** `reap`: pops every free slab and returns the page address of each, in pop order,
        for the page source to take back. */
    method Reap() returns (released: seq<nat>)
      requires Valid()
      modifies this
      ensures Model() == ReapSpec(old(Model()))
      ensures released == old(freeSlabs)
      ensures Valid() && Live(config, slabs) == Live(config, old(slabs))
    {
      ReapInv(config, Model());
      ReapLive(config, Model());
      ghost var fr := freeSlabs;
      ghost var m := slabs;
      FreeSlabsAligned(config, Model());
      released := [];
      while freeSlabs != []
        invariant fr == released + freeSlabs
        invariant slabs == m - Elems(released)
        invariant partialSlabs == old(partialSlabs) && fullSlabs == old(fullSlabs)
        decreases |freeSlabs|
      {
        var b := freeSlabs[0];
        ReapStep(m, fr, released, freeSlabs);
        freeSlabs := freeSlabs[1..];
        var offset := b % PAGE_SIZE;
        released := released + [b - offset];
        slabs := slabs - {b};
      }
    }
  }
}
