/** threads/palloc.c: the page allocator, with two pools of pages. */
module Palloc {
  import opened Basics
  import opened Bitmap

  /** sizeof (struct bitmap) and sizeof (elem_type). */
  const BITMAP_HEADER: nat := 8
  const ELEM_BYTES: nat := 4

  // ---- Extents -------------------------------------------------------------------------------

  /** Groups of pages handed out and not yet freed: first page to number of pages. */
  type Extents = map<int, int>

  ghost predicate ExtentOk(used: seq<bool>, extents: Extents, p: int)
    requires p in extents
  {
    && 0 <= p && 1 <= extents[p] && p + extents[p] <= |used| && Uniform(used, p, extents[p], true)
    && (forall q {:trigger Look(q)} :: q in extents && p < q ==> p + extents[p] <= q)
  }

  ghost predicate Covered(extents: Extents, i: int) {
    exists p {:trigger Look(p)} :: p in extents && p <= i < p + extents[p]
  }

  /** The extents are inside the pool and disjoint, and the bitmap marks their pages and no others. */
  ghost predicate Exact(used: seq<bool>, extents: Extents) {
    && (forall p {:trigger Look(p)} :: p in extents ==> ExtentOk(used, extents, p))
    && (forall i {:trigger used[i]} :: 0 <= i < |used| && used[i] ==> Covered(extents, i))
  }

  lemma AtExtent(used: seq<bool>, extents: Extents, p: int)
    requires Exact(used, extents) && p in extents
    ensures ExtentOk(used, extents, p)
  {
    assert Look(p);
  }

  /** Two extents have no page in common. */
  lemma ExtentsDisjoint(used: seq<bool>, extents: Extents, p: int, q: int)
    requires Exact(used, extents) && p in extents && q in extents && p != q
    ensures p + extents[p] <= q || q + extents[q] <= p
  {
    assert Look(p) && Look(q);
  }

  /** A group of free pages is apart from every extent. */
  lemma FreeIsApart(used: seq<bool>, extents: Extents, start: nat, cnt: nat, p: int)
    requires Exact(used, extents) && p in extents && cnt >= 1 && start + cnt <= |used|
    requires Uniform(used, start, cnt, false)
    ensures p + extents[p] <= start || start + cnt <= p
  {
    AtExtent(used, extents, p);
    var i := if p < start then start else p;
    assert p <= i < p + extents[p] ==> used[i];
  }

  /** palloc_get_multiple(): what was found was free, and marking it keeps the books exact. */
  lemma GetKeeps(used: seq<bool>, extents: Extents, start: nat, cnt: nat)
    requires Exact(used, extents) && cnt >= 1 && start + cnt <= |used| && Uniform(used, start, cnt, false)
    ensures start !in extents && Exact(Filled(used, start, cnt, true), extents[start := cnt])
  {
    var used', extents' := Filled(used, start, cnt, true), extents[start := cnt];
    if start in extents {
      FreeIsApart(used, extents, start, cnt, start);
      AtExtent(used, extents, start);
    }
    forall p | p in extents'
      ensures ExtentOk(used', extents', p)
    {
      if p != start {
        AtExtent(used, extents, p);
        FreeIsApart(used, extents, start, cnt, p);
      }
      forall q | q in extents' && p < q
        ensures p + extents'[p] <= q
      {
        assert Look(q);
        if q != start {
          FreeIsApart(used, extents, start, cnt, q);
        }
      }
    }
    forall i | 0 <= i < |used'| && used'[i]
      ensures Covered(extents', i)
    {
      CoveredAfterGet(used, extents, start, cnt, i);
    }
  }

  lemma CoveredAfterGet(used: seq<bool>, extents: Extents, start: nat, cnt: nat, i: int)
    requires 0 <= i < |used| && start !in extents && (start <= i < start + cnt || (used[i] && Covered(extents, i)))
    ensures Covered(extents[start := cnt], i)
  {
    if start <= i < start + cnt {
      assert Look(start);
    } else {
      var p :| Look(p) && p in extents && p <= i < p + extents[p];
    }
  }

  /** palloc_free_multiple(). */
  lemma FreeKeeps(used: seq<bool>, extents: Extents, start: int)
    requires Exact(used, extents) && start in extents
    ensures ExtentOk(used, extents, start)
    ensures Exact(Filled(used, start, extents[start], false), extents - {start})
  {
    AtExtent(used, extents, start);
    var cnt := extents[start];
    var used', extents' := Filled(used, start, cnt, false), extents - {start};
    forall p | p in extents'
      ensures ExtentOk(used', extents', p)
    {
      AtExtent(used, extents, p);
      ExtentsDisjoint(used, extents, p, start);
      forall q | q in extents' && p < q
        ensures p + extents'[p] <= q
      {
        assert Look(q);
      }
    }
    forall i | 0 <= i < |used'| && used'[i]
      ensures Covered(extents', i)
    {
      assert used[i];
      var p :| Look(p) && p in extents && p <= i < p + extents[p];
      assert p in extents';
    }
  }

  // ---- Pools ---------------------------------------------------------------------------------

  class Pool {
    /** Number of the pool's first page. */
    const base: nat
    const usedMap: Bitmap
    ghost var extents: Extents

    ghost predicate Valid()
      reads this, usedMap, usedMap.words
    {
      usedMap.Valid() && Exact(usedMap.Bits(), extents)
    }

    constructor (base: nat, pageCnt: nat)
      ensures Valid() && this.base == base && usedMap.bitCnt == pageCnt && extents == map[] && fresh(usedMap)
      ensures fresh(usedMap.words)
    {
      this.base := base;
      usedMap := new Bitmap(pageCnt);
      extents := map[];
    }

    /** palloc_get_multiple(): the first group of free pages, or None, which is the null address; a request for no
        pages gets none. */
    method GetMultiple(pageCnt: nat) returns (page: Option<nat>)
      requires Valid()
      modifies `extents, usedMap.words
      ensures Valid()
      ensures page.None? ==> extents == old(extents) && usedMap.Bits() == old(usedMap.Bits())
      ensures page.None? <==> pageCnt == 0 || Search(old(usedMap.Bits()), 0, pageCnt, false).Error?
      ensures page.Some? ==> base <= page.value && page.value - base !in old(extents)
      ensures page.Some? ==> extents == old(extents)[page.value - base := pageCnt]
      ensures page.Some? ==> Search(old(usedMap.Bits()), 0, pageCnt, false) == Found(page.value - base)
      ensures page.Some? ==> usedMap.Bits() == Filled(old(usedMap.Bits()), page.value - base, pageCnt, true)
    {
      if pageCnt == 0 {
        return None;
      }
      ghost var used := usedMap.Bits();
      var r := usedMap.ScanAndFlip(0, pageCnt, false);
      if r.Error? {
        return None;
      }
      GetKeeps(used, extents, r.idx, pageCnt);
      extents := extents[r.idx := pageCnt];
      return Some(base + r.idx);
    }

    /** The rest of palloc_free_multiple(), once the pool is known. */
    method FreeMultiple(page: nat, pageCnt: nat)
      requires Valid() && page - base in extents && extents[page - base] == pageCnt
      modifies `extents, usedMap.words
      ensures Valid() && extents == old(extents) - {page - base}
      ensures ExtentOk(old(usedMap.Bits()), old(extents), page - base)
      ensures usedMap.Bits() == Filled(old(usedMap.Bits()), page - base, pageCnt, false)
    {
      var idx := page - base;
      FreeKeeps(usedMap.Bits(), extents, idx);
      usedMap.SetMultiple(idx, pageCnt, false);
      extents := extents - {idx};
    }

    /** page_from_pool(): as many pages as the bitmap has bits, from the first on. */
    predicate Owns(page: nat)
      reads this, usedMap
    {
      base <= page < base + usedMap.bitCnt
    }
  }

  /** init_pool(): pages for the bitmap itself. */
  function BitmapPages(pageCnt: nat): nat {
    (BITMAP_HEADER + ELEM_BYTES * ElemCnt(pageCnt) + PGSIZE - 1) / PGSIZE
  }

  /** The bitmap that init_pool() then makes, of the pages that are left, fits in the pages set aside. Fewer would not
      do for one of all the pages. */
  lemma BitmapFits(pageCnt: nat)
    requires BitmapPages(pageCnt) <= pageCnt
    ensures BITMAP_HEADER + ELEM_BYTES * ElemCnt(pageCnt - BitmapPages(pageCnt)) <= BitmapPages(pageCnt) * PGSIZE
    ensures (BitmapPages(pageCnt) - 1) * PGSIZE < BITMAP_HEADER + ELEM_BYTES * ElemCnt(pageCnt)
  {
    var b := BITMAP_HEADER + ELEM_BYTES * ElemCnt(pageCnt);
    assert b <= (b + PGSIZE - 1) / PGSIZE * PGSIZE;
  }

  /** The kernel pool and the user pool. */
  class Pools {
    const kernel: Pool
    const user: Pool

    ghost predicate Valid()
      reads this, kernel, kernel.usedMap, kernel.usedMap.words, user, user.usedMap, user.usedMap.words
    {
      && kernel.Valid() && user.Valid()
      && kernel != user && kernel.usedMap != user.usedMap && kernel.usedMap.words != user.usedMap.words
      && kernel.base + kernel.usedMap.bitCnt <= user.base
    }

    /** palloc_init(), with `first` the number of the first free page; panics, outside this model, when there is not
        even room for the bitmaps. */
    constructor (first: nat, freePages: nat, userLimit: nat)
      requires var userPages := if freePages / 2 > userLimit then userLimit else freePages / 2;
               BitmapPages(userPages) <= userPages && BitmapPages(freePages - userPages) <= freePages - userPages
      ensures Valid() && kernel.extents == map[] && user.extents == map[]
      ensures first < kernel.base && user.base + user.usedMap.bitCnt == first + freePages
      ensures var userPages := if freePages / 2 > userLimit then userLimit else freePages / 2;
              && user.usedMap.bitCnt + BitmapPages(userPages) == userPages
              && kernel.usedMap.bitCnt + BitmapPages(freePages - userPages) == freePages - userPages
              && kernel.base == first + BitmapPages(freePages - userPages)
    {
      var userPages := freePages / 2;
      if userPages > userLimit {
        userPages := userLimit;
      }
      var kernelPages := freePages - userPages;
      var km, um := BitmapPages(kernelPages), BitmapPages(userPages);
      kernel := new Pool(first + km, kernelPages - km);
      user := new Pool(first + kernelPages + um, userPages - um);
    }

    /** palloc_free_multiple(): pages go back to the pool they came from. */
    method FreeMultiple(page: nat, pageCnt: nat, ghost pool: Pool)
      requires Valid() && (pool == kernel || pool == user)
      requires page - pool.base in pool.extents && pool.extents[page - pool.base] == pageCnt
      modifies pool`extents, pool.usedMap.words
      ensures Valid() && pool.extents == old(pool.extents) - {page - pool.base}
    {
      AtExtent(pool.usedMap.Bits(), pool.extents, page - pool.base);
      if kernel.Owns(page) {
        kernel.FreeMultiple(page, pageCnt);
      } else if user.Owns(page) {
        user.FreeMultiple(page, pageCnt);
      } else {
        assert false;
      }
    }
  }
}
