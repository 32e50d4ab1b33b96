/** threads/pte.h and userprog/pagedir.c: two-level page tables in physical memory, section 3.7.6 of the IA-32 Intel
    Architecture Software Developer's Manual, Volume 3A. */
module PageTable {
  import opened Basics
  import opened Arithmetic
  import opened Bits

  const ENTRIES: int := 1024
  const USER_ENTRIES: int := 768  // pd_no (PHYS_BASE)
  const PTE_P: nat := 0
  const PTE_W: nat := 1
  const PTE_U: nat := 2
  const PTE_A: nat := 5
  const PTE_D: nat := 6

  // ---- Entries -------------------------------------------------------------------------------

  function PdNo(va: nat): nat {
    Shr(va, 22)
  }

  function PtNo(va: nat): nat {
    Shr(BitAnd(va, 0x3ff000), 12)
  }

  function PgOfs(va: nat): nat {
    BitAnd(va, 0xfff)
  }

  /** The number of the physical page that an entry points to. */
  function Frame(entry: nat): nat {
    Shr(BitAnd(entry, 0xffff_f000), 12)
  }

  function PdeCreate(pt: nat): nat {
    BitOr(BitOr(BitOr(pt * 4096, Pow2(PTE_U)), Pow2(PTE_P)), Pow2(PTE_W))
  }

  function PteCreateUser(frame: nat, writable: bool): nat {
    BitOr(BitOr(BitOr(frame * 4096, Pow2(PTE_P)), if writable then Pow2(PTE_W) else 0), Pow2(PTE_U))
  }

  lemma Powers()
    ensures Pow2(10) == 1024 && Pow2(12) == 4096 && Pow2(20) == 0x10_0000 && Pow2(22) == 0x40_0000 && Pow2(32) == W
  {
    Pow2Of32();
    Pow2Add(10, 10);
    Pow2Add(10, 12);
    assert Pow2(10) == 1024;
  }

  /** The two indices and the offset make up the address. */
  lemma AddressParts(va: nat)
    requires va < W
    ensures PdNo(va) == va / 4096 / 1024 < ENTRIES && PtNo(va) == va / 4096 % 1024 && PgOfs(va) == va % 4096
  {
    Powers();
    ShrIs(va, 22);
    AndHigh(va, 1023, 12);
    AndMask(Shr(va, 12), 10);
    ShrIs(va, 12);
    Shifted(va / 4096 % 1024, 12, 0);
    AndMask(va, 12);
  }

  lemma FrameIs(entry: nat)
    requires entry < W
    ensures Frame(entry) == Shr(entry, 12) < 0x10_0000 && BitAnd(entry, 0xffff_f000) == Frame(entry) * 4096
  {
    Powers();
    HighField(entry, 12, 20, 0xf_ffff);
  }

  /** Setting flag `k` changes no other bit and not the frame. */
  lemma SetFlag(entry: nat, k: nat, j: nat)
    requires entry < W && k < 12
    ensures BitOr(entry, Pow2(k)) < W && Frame(BitOr(entry, Pow2(k))) == Frame(entry)
    ensures Bit(BitOr(entry, Pow2(k)), j) == (j == k || Bit(entry, j))
  {
    Pow2Less(k, 12);
    SetKeepsFrame(entry, Pow2(k));
    OrBit(entry, Pow2(k), j);
    OneBit(k, j);
  }

  lemma SetKeepsFrame(entry: nat, m: nat)
    requires entry < W && m < Pow2(12)
    ensures BitOr(entry, m) < W && Frame(BitOr(entry, m)) == Frame(entry)
  {
    Powers();
    OrFits(entry, m, 32);
    FrameIs(entry);
    FrameIs(BitOr(entry, m));
    ShrOr(entry, m, 12);
    ShrFits(m, 12, 0);
  }

  /** Clearing flag `k` likewise. */
  lemma ClearFlag(entry: nat, k: nat, j: nat, m: nat)
    requires entry < W && k < 12 && j < 32 && m == FlagMask(k)
    ensures Bit(BitAnd(entry, m), j) == (j != k && Bit(entry, j))
  {
    Pow2Less(k, 32);
    AndBit(entry, m, j);
    NotBit(Pow2(k), 32, j);
    OneBit(k, j);
  }

  /** ~flag */
  function FlagMask(k: nat): nat
    requires k < 12
  {
    Pow2Less(k, 32);
    BitNot(Pow2(k), 32)
  }

  lemma ClearKeepsFrame(entry: nat, k: nat, m: nat)
    requires entry < W && k < 12 && m == FlagMask(k)
    ensures BitAnd(entry, m) < W && Frame(BitAnd(entry, m)) == Frame(entry)
  {
    AndFits(entry, m);
    FrameIs(entry);
    FrameIs(BitAnd(entry, m));
    ShrAnd(entry, m, 12);
    NotHigh(k);
    Powers();
    AndOnes(Shr(entry, 12), 20);
  }

  lemma NotHigh(k: nat)
    requires k < 12 && Pow2(k) < Pow2(32)
    ensures Shr(BitNot(Pow2(k), 32), 12) == Pow2(20) - 1
  {
    Powers();
    Pow2Less(k, 12);
    ShrIs(BitNot(Pow2(k), 32), 12);
    QuotientIs(BitNot(Pow2(k), 32), 4096, 0xf_ffff, 4095 - Pow2(k));
  }

  lemma Bare(frame: nat, j: nat)
    requires frame < 0x10_0000
    ensures frame * 4096 < W && Frame(frame * 4096) == frame && (j < 12 ==> !Bit(frame * 4096, j))
  {
    Powers();
    FrameIs(frame * 4096);
    Shifted(frame, 12, j);
  }

  /** A page directory entry that pde_create() makes. */
  lemma PdeIs(pt: nat)
    requires pt < 0x10_0000
    ensures PdeCreate(pt) < W && Frame(PdeCreate(pt)) == pt && Bit(PdeCreate(pt), PTE_P) && PdeCreate(pt) != 0
  {
    Bare(pt, PTE_P);
    SetFlag(pt * 4096, PTE_U, PTE_P);
    var a := BitOr(pt * 4096, Pow2(PTE_U));
    SetFlag(a, PTE_P, PTE_P);
    SetFlag(BitOr(a, Pow2(PTE_P)), PTE_W, PTE_P);
    ZeroBit(PTE_P);
  }

  /** It lets user programs at the whole table, and write; each page's own entry then decides. */
  lemma PdeFlags(pt: nat, j: nat)
    requires pt < 0x10_0000 && j < 12
    ensures Bit(PdeCreate(pt), j) == (j == PTE_P || j == PTE_U || j == PTE_W)
  {
    Bare(pt, j);
    SetFlag(pt * 4096, PTE_U, j);
    var a := BitOr(pt * 4096, Pow2(PTE_U));
    SetFlag(a, PTE_P, j);
    SetFlag(BitOr(a, Pow2(PTE_P)), PTE_W, j);
  }

  /** A page table entry that pte_create_user() makes. */
  lemma PteIs(frame: nat, writable: bool, j: nat)
    requires frame < 0x10_0000 && j < 12
    ensures PteCreateUser(frame, writable) < W && Frame(PteCreateUser(frame, writable)) == frame
    ensures Bit(PteCreateUser(frame, writable), j) == (j == PTE_P || j == PTE_U || (j == PTE_W && writable))
  {
    Bare(frame, j);
    SetFlag(frame * 4096, PTE_P, j);
    var a := BitOr(frame * 4096, Pow2(PTE_P));
    SetFlag(a, PTE_W, j);
    assert BitOr(a, 0) == a;
    SetFlag(BitOr(a, if writable then Pow2(PTE_W) else 0), PTE_U, j);
  }

  // ---- Tables --------------------------------------------------------------------------------

  /** The pages of physical memory that hold page directories and page tables, as words. */
  type Memory = map<int, seq<nat>>

  /** Entry `i` of the directory points to a page table of its own. */
  ghost predicate PdeOk(mem: Memory, pd: int, i: int)
    requires pd in mem && 0 <= i < |mem[pd]|
  {
    var pde := mem[pd][i];
    && pde < W && Bit(pde, PTE_P)
    && Frame(pde) in mem && Frame(pde) != pd && |mem[Frame(pde)]| == ENTRIES
    && (forall k :: 0 <= k < ENTRIES ==> mem[Frame(pde)][k] < W)
    && (forall j {:trigger Look(j)} :: 0 <= j < |mem[pd]| && j != i && mem[pd][j] != 0 ==>
         Frame(mem[pd][j]) != Frame(pde))
  }

  /** An entry of the directory is 0 or points to a page table, and no two to the same. */
  ghost predicate TableOk(mem: Memory, pd: int) {
    && pd in mem && |mem[pd]| == ENTRIES
    && (forall i {:trigger Look(i)} :: 0 <= i < ENTRIES && mem[pd][i] != 0 ==> PdeOk(mem, pd, i))
  }

  lemma AtPde(mem: Memory, pd: int, i: int)
    requires TableOk(mem, pd) && 0 <= i < ENTRIES && mem[pd][i] != 0
    ensures PdeOk(mem, pd, i)
  {
    assert Look(i);
  }

  /** The entry for virtual page `vp`, if there is a page table for it: lookup_page() without `create`. */
  ghost function Slot(mem: Memory, pd: int, vp: int): Option<nat>
    requires TableOk(mem, pd) && 0 <= vp < ENTRIES * ENTRIES
  {
    var pde := mem[pd][vp / ENTRIES];
    if pde == 0 then None else AtPde(mem, pd, vp / ENTRIES); Some(mem[Frame(pde)][vp % ENTRIES])
  }

  /** What a page directory says about a page: the frame it maps to and whether it is writable, if it is present; and
      its dirty and accessed flags. */
  datatype Page = Page(mapping: Option<(int, bool)>, dirty: bool, accessed: bool)

  function Decode(slot: Option<nat>): Page {
    match slot
    case None => Page(None, false, false)
    case Some(w) => Page(if Bit(w, PTE_P) then Some((Frame(w), Bit(w, PTE_W))) else None, Bit(w, PTE_D), Bit(w, PTE_A))
  }

  ghost function View(mem: Memory, pd: int, vp: int): Page
    requires TableOk(mem, pd) && 0 <= vp < ENTRIES * ENTRIES
  {
    Decode(Slot(mem, pd, vp))
  }

  /** Nothing is said differently about any page but `vp`. */
  ghost predicate OthersSame(mem: Memory, mem': Memory, pd: int, vp: int)
    requires TableOk(mem, pd) && TableOk(mem', pd)
  {
    forall u {:trigger Look(u)} :: 0 <= u < ENTRIES * ENTRIES && u != vp ==> View(mem', pd, u) == View(mem, pd, u)
  }

  ghost predicate AllSame(mem: Memory, mem': Memory, pd: int)
    requires TableOk(mem, pd) && TableOk(mem', pd)
  {
    forall u {:trigger Look(u)} :: 0 <= u < ENTRIES * ENTRIES ==> View(mem', pd, u) == View(mem, pd, u)
  }

  function Put(words: seq<nat>, k: int, w: nat): seq<nat>
    requires 0 <= k < |words|
  {
    words[k := w]
  }

  /** Memory with entry `vp` of an existing page table overwritten. */
  function Stored(mem: Memory, pt: int, k: int, w: nat): Memory
    requires pt in mem && 0 <= k < |mem[pt]|
  {
    mem[pt := Put(mem[pt], k, w)]
  }

  lemma StoredPde(mem: Memory, pd: int, vp: int, w: nat, i: int)
    requires TableOk(mem, pd) && 0 <= vp < ENTRIES * ENTRIES && mem[pd][vp / ENTRIES] != 0 && w < W
    requires Frame(mem[pd][vp / ENTRIES]) in mem && |mem[Frame(mem[pd][vp / ENTRIES])]| == ENTRIES
    requires Frame(mem[pd][vp / ENTRIES]) != pd && 0 <= i < ENTRIES && mem[pd][i] != 0
    ensures PdeOk(Stored(mem, Frame(mem[pd][vp / ENTRIES]), vp % ENTRIES, w), pd, i)
  {
    AtPde(mem, pd, i);
    var mem' := Stored(mem, Frame(mem[pd][vp / ENTRIES]), vp % ENTRIES, w);
    forall j | 0 <= j < |mem'[pd]| && j != i && mem'[pd][j] != 0
      ensures Frame(mem'[pd][j]) != Frame(mem'[pd][i])
    {
      assert Look(j);
    }
  }

  lemma StoredKeeps(mem: Memory, pd: int, vp: int, w: nat)
    requires TableOk(mem, pd) && 0 <= vp < ENTRIES * ENTRIES && mem[pd][vp / ENTRIES] != 0 && w < W
    ensures Frame(mem[pd][vp / ENTRIES]) in mem && |mem[Frame(mem[pd][vp / ENTRIES])]| == ENTRIES
    ensures TableOk(Stored(mem, Frame(mem[pd][vp / ENTRIES]), vp % ENTRIES, w), pd)
  {
    AtPde(mem, pd, vp / ENTRIES);
    var mem' := Stored(mem, Frame(mem[pd][vp / ENTRIES]), vp % ENTRIES, w);
    forall i | 0 <= i < ENTRIES && mem'[pd][i] != 0
      ensures PdeOk(mem', pd, i)
    {
      StoredPde(mem, pd, vp, w, i);
    }
  }

  /** Overwriting one entry changes what is said about its page and no other. */
  lemma StoredSlot(mem: Memory, pd: int, vp: int, w: nat, mem': Memory, u: int)
    requires TableOk(mem, pd) && TableOk(mem', pd) && 0 <= vp < ENTRIES * ENTRIES && mem[pd][vp / ENTRIES] != 0 && w < W
    requires Frame(mem[pd][vp / ENTRIES]) in mem && |mem[Frame(mem[pd][vp / ENTRIES])]| == ENTRIES
    requires mem' == Stored(mem, Frame(mem[pd][vp / ENTRIES]), vp % ENTRIES, w) && 0 <= u < ENTRIES * ENTRIES
    ensures Slot(mem', pd, u) == if u == vp then Some(w) else Slot(mem, pd, u)
  {
    AtPde(mem, pd, vp / ENTRIES);
    if mem[pd][u / ENTRIES] != 0 {
      AtPde(mem, pd, u / ENTRIES);
      assert Look(u / ENTRIES) && Look(vp / ENTRIES);
    }
  }

  lemma StoredView(mem: Memory, pd: int, vp: int, w: nat, mem': Memory)
    requires TableOk(mem, pd) && 0 <= vp < ENTRIES * ENTRIES && mem[pd][vp / ENTRIES] != 0 && w < W
    requires Frame(mem[pd][vp / ENTRIES]) in mem && |mem[Frame(mem[pd][vp / ENTRIES])]| == ENTRIES
    requires mem' == Stored(mem, Frame(mem[pd][vp / ENTRIES]), vp % ENTRIES, w)
    ensures TableOk(mem', pd) && Slot(mem', pd, vp) == Some(w) && OthersSame(mem, mem', pd, vp)
  {
    StoredKeeps(mem, pd, vp, w);
    StoredSlot(mem, pd, vp, w, mem', vp);
    forall u | 0 <= u < ENTRIES * ENTRIES && u != vp
      ensures View(mem', pd, u) == View(mem, pd, u)
    {
      StoredSlot(mem, pd, vp, w, mem', u);
    }
  }

  function EmptyTable(): seq<nat> {
    seq(ENTRIES, k => 0)
  }

  /** Memory with a new, empty page table for entry `i` of the directory. */
  function WithTable(mem: Memory, pd: int, i: int, pt: nat): Memory
    requires pd in mem && 0 <= i < |mem[pd]|
  {
    mem[pt := EmptyTable()][pd := Put(mem[pd], i, PdeCreate(pt))]
  }

  lemma WithTablePde(mem: Memory, pd: int, i: int, pt: nat, j: int)
    requires TableOk(mem, pd) && 0 <= i < ENTRIES && mem[pd][i] == 0 && pt !in mem && pt < 0x10_0000
    requires 0 <= j < ENTRIES && WithTable(mem, pd, i, pt)[pd][j] != 0
    ensures PdeOk(WithTable(mem, pd, i, pt), pd, j)
  {
    var mem' := WithTable(mem, pd, i, pt);
    PdeIs(pt);
    if j != i {
      AtPde(mem, pd, j);
    }
    forall k | 0 <= k < |mem'[pd]| && k != j && mem'[pd][k] != 0
      ensures Frame(mem'[pd][k]) != Frame(mem'[pd][j])
    {
      assert Look(k);
      if k != i {
        AtPde(mem, pd, k);
      }
    }
  }

  /** A new page table changes nothing that is said about any page. */
  lemma WithTableKeeps(mem: Memory, pd: int, i: int, pt: nat, mem': Memory)
    requires TableOk(mem, pd) && 0 <= i < ENTRIES && mem[pd][i] == 0 && pt !in mem && pt < 0x10_0000
    requires mem' == WithTable(mem, pd, i, pt)
    ensures TableOk(mem', pd) && mem'[pd][i] != 0 && AllSame(mem, mem', pd)
  {
    PdeIs(pt);
    forall j | 0 <= j < ENTRIES && mem'[pd][j] != 0
      ensures PdeOk(mem', pd, j)
    {
      WithTablePde(mem, pd, i, pt, j);
    }
    forall u | 0 <= u < ENTRIES * ENTRIES
      ensures View(mem', pd, u) == View(mem, pd, u)
    {
      WithTableSlot(mem, pd, i, pt, mem', u);
    }
  }

  lemma WithTableSlot(mem: Memory, pd: int, i: int, pt: nat, mem': Memory, u: int)
    requires TableOk(mem, pd) && 0 <= i < ENTRIES && mem[pd][i] == 0 && pt !in mem && pt < 0x10_0000
    requires mem' == WithTable(mem, pd, i, pt) && TableOk(mem', pd) && 0 <= u < ENTRIES * ENTRIES
    ensures View(mem', pd, u) == View(mem, pd, u)
  {
    PdeIs(pt);
    if u / ENTRIES == i {
      ZeroBit(PTE_P);
      ZeroBit(PTE_D);
      ZeroBit(PTE_A);
    } else if mem[pd][u / ENTRIES] != 0 {
      AtPde(mem, pd, u / ENTRIES);
    }
  }

  // ---- The operations ------------------------------------------------------------------------

  class PageDirectory {
    var mem: Memory
    const pd: int

    ghost predicate Valid()
      reads this
    {
      TableOk(mem, pd)
    }

    constructor (mem: Memory, init: int, page: int)
      requires TableOk(mem, init) && page !in mem
      ensures Valid() && pd == page && this.mem == mem[page := mem[init]]
    {
      this.mem := mem[page := mem[init]];
      pd := page;
      new;
      forall i | 0 <= i < ENTRIES && this.mem[pd][i] != 0
        ensures PdeOk(this.mem, pd, i)
      {
        AtPde(mem, init, i);
        forall j | 0 <= j < ENTRIES && j != i && this.mem[pd][j] != 0
          ensures Frame(this.mem[pd][j]) != Frame(this.mem[pd][i])
        {
          assert Look(j);
        }
      }
    }

    /** pagedir_create(): a copy of the kernel's directory, which maps no user page, in page `page` if there is one. */
    static method Create(mem: Memory, init: int, page: Option<int>) returns (d: PageDirectory?)
      requires TableOk(mem, init) && (page.Some? ==> page.value !in mem)
      requires forall i :: 0 <= i < USER_ENTRIES ==> mem[init][i] == 0
      ensures d == null <==> page.None?
      ensures d != null ==> fresh(d) && d.Valid() && d.pd == page.value && d.mem == mem[page.value := mem[init]]
      ensures d != null ==> Unshared(d.mem, d.pd)
      ensures d != null ==>
                forall vp {:trigger Look(vp)} :: 0 <= vp < USER_ENTRIES * ENTRIES ==>
                  View(d.mem, d.pd, vp) == Page(None, false, false)
    {
      if page.None? {
        return null;
      }
      d := new PageDirectory(mem, init, page.value);
      forall vp | 0 <= vp < USER_ENTRIES * ENTRIES
        ensures View(d.mem, d.pd, vp) == Page(None, false, false)
      {
        assert d.mem[d.pd][vp / ENTRIES] == 0;
      }
      forall vp | 0 <= vp < USER_ENTRIES * ENTRIES
        ensures Alone(d.mem, d.pd, vp)
      {
        assert Look(vp);
      }
    }

    /** lookup_page(): the page table and the place in it of the entry for `vaddr`. With `create`, a missing page
        table is made in page `page`, if there is one. */
    method LookupPage(vaddr: nat, create: bool, page: Option<nat>) returns (pt: Option<int>)
      requires Valid() && vaddr < W && (create ==> vaddr < PHYS_BASE)
      requires page.Some? ==> page.value !in mem && page.value < 0x10_0000
      modifies this
      ensures Valid() && (!create ==> mem == old(mem))
      ensures AllSame(old(mem), mem, pd)
      ensures pt.None? <==> old(mem[pd])[vaddr / 4096 / ENTRIES] == 0 && (!create || page.None?)
      ensures pt.None? ==> mem == old(mem)
      ensures mem.Keys <= old(mem).Keys + if page.Some? then {page.value} else {}
      ensures pt.Some? ==> mem[pd][vaddr / 4096 / ENTRIES] != 0 && pt.value == Frame(mem[pd][vaddr / 4096 / ENTRIES])
    {
      AddressParts(vaddr);
      var i := PdNo(vaddr);
      assert AllSame(mem, mem, pd);
      if mem[pd][i] == 0 {
        if create && page.Some? {
          WithTableKeeps(mem, pd, i, page.value, WithTable(mem, pd, i, page.value));
          mem := mem[page.value := EmptyTable()];
          mem := mem[pd := Put(mem[pd], i, PdeCreate(page.value))];
        } else {
          return None;
        }
      }
      AtPde(mem, pd, i);
      return Some(Frame(mem[pd][i]));
    }

    method Store(pt: int, ghost vp: int, k: int, w: nat)
      requires Valid() && 0 <= vp < ENTRIES * ENTRIES && k == vp % ENTRIES && mem[pd][vp / ENTRIES] != 0
      requires pt == Frame(mem[pd][vp / ENTRIES]) && w < W
      modifies this
      ensures Valid() && OthersSame(old(mem), mem, pd, vp) && View(mem, pd, vp) == Decode(Some(w))
      ensures mem.Keys == old(mem).Keys
    {
      AtPde(mem, pd, vp / ENTRIES);
      StoredView(mem, pd, vp, w, Stored(mem, pt, k, w));
      mem := mem[pt := Put(mem[pt], k, w)];
    }

    /** pagedir_set_page(): `page` is what palloc_get_page() returns if a page table has to be made. */
    method SetPage(upage: nat, frame: nat, writable: bool, page: Option<nat>) returns (ok: bool)
      requires Valid() && upage < PHYS_BASE && upage % 4096 == 0 && frame < 0x10_0000
      requires View(mem, pd, upage / 4096).mapping.None?
      requires page.Some? ==> page.value !in mem && page.value < 0x10_0000
      modifies this
      ensures Valid() && OthersSame(old(mem), mem, pd, upage / 4096)
      ensures ok <==> old(mem[pd])[upage / 4096 / ENTRIES] != 0 || page.Some?
      ensures if ok then View(mem, pd, upage / 4096) == Page(Some((frame, writable)), false, false) else mem == old(mem)
      ensures old(Unshared(mem, pd) && MayUse(mem, pd, frame, page)) ==> Unshared(mem, pd)
    {
      var pt := LookupPage(upage, true, page);
      if pt.None? {
        return false;
      }
      AddressParts(upage);
      PteDecodes(frame, writable);
      Store(pt.value, upage / 4096, PtNo(upage), PteCreateUser(frame, writable));
      forall u | 0 <= u < ENTRIES * ENTRIES && u != upage / 4096
        ensures View(mem, pd, u) == View(old(mem), pd, u)
      {
        assert Look(u);
      }
      if old(Unshared(mem, pd) && MayUse(mem, pd, frame, page)) {
        StaysUnshared(old(mem), mem, pd, upage / 4096, frame, if page.Some? then page.value else pd);
      }
      return true;
    }

    /** pagedir_get_page(): the kernel address of the byte at `uaddr`. */
    method GetPage(uaddr: nat) returns (r: Option<int>)
      requires Valid() && uaddr < PHYS_BASE
      ensures r == match View(mem, pd, uaddr / 4096).mapping
                   case None => None
                   case Some(m) => Some(PHYS_BASE + m.0 * 4096 + uaddr % 4096)
    {
      AddressParts(uaddr);
      if mem[pd][PdNo(uaddr)] == 0 {
        return None;
      }
      AtPde(mem, pd, PdNo(uaddr));
      var pte := mem[Frame(mem[pd][PdNo(uaddr)])][PtNo(uaddr)];
      TestBit(pte, PTE_P);
      if BitAnd(pte, Pow2(PTE_P)) == 0 {
        return None;
      }
      FrameIs(pte);
      return Some(PHYS_BASE + BitAnd(pte, 0xffff_f000) + PgOfs(uaddr));
    }

    /** pagedir_clear_page(): only the present flag changes. */
    method ClearPage(upage: nat)
      requires Valid() && upage < PHYS_BASE && upage % 4096 == 0
      modifies this
      ensures Valid() && OthersSame(old(mem), mem, pd, upage / 4096)
      ensures View(mem, pd, upage / 4096) == View(old(mem), pd, upage / 4096).(mapping := None)
      ensures old(Unshared(mem, pd)) ==> Unshared(mem, pd)
    {
      assert OthersSame(mem, mem, pd, upage / 4096);
      AddressParts(upage);
      if mem[pd][PdNo(upage)] == 0 {
        return;
      }
      AtPde(mem, pd, PdNo(upage));
      var pt := Frame(mem[pd][PdNo(upage)]);
      var pte := mem[pt][PtNo(upage)];
      TestBit(pte, PTE_P);
      if BitAnd(pte, Pow2(PTE_P)) != 0 {
        DecodeClear(pte, PTE_P);
        Store(pt, upage / 4096, PtNo(upage), BitAnd(pte, FlagMask(PTE_P)));
        if old(Unshared(mem, pd)) {
          StaysUnshared(old(mem), mem, pd, upage / 4096, 0, pd);
        }
      }
    }

    /** pagedir_is_dirty() for PTE_D and pagedir_is_accessed() for PTE_A. */
    method TestFlag(vpage: nat, flag: nat) returns (r: bool)
      requires Valid() && vpage < W && (flag == PTE_D || flag == PTE_A)
      ensures r == if flag == PTE_D then View(mem, pd, vpage / 4096).dirty else View(mem, pd, vpage / 4096).accessed
    {
      AddressParts(vpage);
      if mem[pd][PdNo(vpage)] == 0 {
        return false;
      }
      AtPde(mem, pd, PdNo(vpage));
      var pte := mem[Frame(mem[pd][PdNo(vpage)])][PtNo(vpage)];
      TestBit(pte, flag);
      return BitAnd(pte, Pow2(flag)) != 0;
    }

    /** pagedir_set_dirty() for PTE_D and pagedir_set_accessed() for PTE_A: without a page table for the page there is
        no flag to set, and nothing happens. */
    method SetFlagTo(vpage: nat, flag: nat, value: bool)
      requires Valid() && vpage < W && (flag == PTE_D || flag == PTE_A)
      modifies this
      ensures Valid() && OthersSame(old(mem), mem, pd, vpage / 4096)
      ensures View(mem, pd, vpage / 4096)
              == if old(mem[pd])[vpage / 4096 / ENTRIES] == 0 then Page(None, false, false)
                 else if flag == PTE_D then View(old(mem), pd, vpage / 4096).(dirty := value)
                 else View(old(mem), pd, vpage / 4096).(accessed := value)
      ensures old(Unshared(mem, pd)) ==> Unshared(mem, pd)
    {
      assert OthersSame(mem, mem, pd, vpage / 4096);
      AddressParts(vpage);
      if mem[pd][PdNo(vpage)] == 0 {
        return;
      }
      AtPde(mem, pd, PdNo(vpage));
      var pt := Frame(mem[pd][PdNo(vpage)]);
      var pte := mem[pt][PtNo(vpage)];
      if value {
        DecodeSet(pte, flag);
        Store(pt, vpage / 4096, PtNo(vpage), BitOr(pte, Pow2(flag)));
      } else {
        DecodeClear(pte, flag);
        Store(pt, vpage / 4096, PtNo(vpage), BitAnd(pte, FlagMask(flag)));
      }
      if old(Unshared(mem, pd)) {
        StaysUnshared(old(mem), mem, pd, vpage / 4096, 0, pd);
      }
    }

    /** pagedir_destroy(): the physical pages freed, in order. */
    method Destroy() returns (freed: seq<int>)
      requires Valid()
      ensures freed == Freed(mem, pd, USER_ENTRIES) + [pd]
    {
      freed := [];
      var i := 0;
      while i < USER_ENTRIES
        invariant 0 <= i <= USER_ENTRIES && freed == Freed(mem, pd, i)
      {
        var pde := mem[pd][i];
        TestBit(pde, PTE_P);
        if BitAnd(pde, Pow2(PTE_P)) != 0 {
          ZeroBit(PTE_P);
          AtPde(mem, pd, i);
          var frames := FreeFrames(mem[Frame(pde)]);
          freed := freed + frames + [Frame(pde)];
        } else if pde != 0 {
          AtPde(mem, pd, i);
        }
        i := i + 1;
      }
      freed := freed + [pd];
    }
  }

  lemma PteDecodes(frame: nat, writable: bool)
    requires frame < 0x10_0000
    ensures PteCreateUser(frame, writable) < W
    ensures Decode(Some(PteCreateUser(frame, writable))) == Page(Some((frame, writable)), false, false)
  {
    PteIs(frame, writable, PTE_P);
    PteIs(frame, writable, PTE_W);
    PteIs(frame, writable, PTE_D);
    PteIs(frame, writable, PTE_A);
  }

  lemma DecodeSet(pte: nat, flag: nat)
    requires pte < W && (flag == PTE_D || flag == PTE_A)
    ensures BitOr(pte, Pow2(flag)) < W
    ensures var p := Decode(Some(pte));
            Decode(Some(BitOr(pte, Pow2(flag)))) == if flag == PTE_D then p.(dirty := true) else p.(accessed := true)
  {
    SetFlag(pte, flag, PTE_P);
    SetFlag(pte, flag, PTE_W);
    SetFlag(pte, flag, PTE_D);
    SetFlag(pte, flag, PTE_A);
  }

  lemma DecodeClear(pte: nat, flag: nat)
    requires pte < W && (flag == PTE_P || flag == PTE_D || flag == PTE_A)
    ensures BitAnd(pte, FlagMask(flag)) < W
    ensures var p := Decode(Some(pte));
            Decode(Some(BitAnd(pte, FlagMask(flag))))
            == if flag == PTE_P then p.(mapping := None) else if flag == PTE_D then p.(dirty := false)
              else p.(accessed := false)
  {
    var m := FlagMask(flag);
    ClearKeepsFrame(pte, flag, m);
    ClearFlag(pte, flag, PTE_P, m);
    ClearFlag(pte, flag, PTE_W, m);
    ClearFlag(pte, flag, PTE_D, m);
    ClearFlag(pte, flag, PTE_A, m);
  }

  // ---- pagedir_destroy() ---------------------------------------------------------------------

  /** The frames of the present entries among the first `k`. */
  function Frames(words: seq<nat>, k: int): seq<int>
    requires 0 <= k <= |words|
  {
    if k == 0 then []
    else Frames(words, k - 1) + if Bit(words[k - 1], PTE_P) then [Frame(words[k - 1])] else []
  }

  /** The inner loop. */
  method FreeFrames(words: seq<nat>) returns (freed: seq<int>)
    ensures freed == Frames(words, |words|)
  {
    freed := [];
    var k := 0;
    while k < |words|
      invariant 0 <= k <= |words| && freed == Frames(words, k)
    {
      TestBit(words[k], PTE_P);
      if BitAnd(words[k], Pow2(PTE_P)) != 0 {
        freed := freed + [Frame(words[k])];
      }
      k := k + 1;
    }
  }

  /** The pages freed for the first `i` entries of the directory. */
  ghost function Freed(mem: Memory, pd: int, i: int): seq<int>
    requires TableOk(mem, pd) && 0 <= i <= ENTRIES
  {
    if i == 0 then []
    else if mem[pd][i - 1] == 0 then Freed(mem, pd, i - 1)
    else AtPde(mem, pd, i - 1);
         Freed(mem, pd, i - 1) + Frames(mem[Frame(mem[pd][i - 1])], ENTRIES) + [Frame(mem[pd][i - 1])]
  }

  /** Virtual page `vp` is mapped to frame `f`. */
  ghost predicate MapsTo(mem: Memory, pd: int, vp: int, f: int)
    requires TableOk(mem, pd) && 0 <= vp < ENTRIES * ENTRIES
  {
    View(mem, pd, vp).mapping.Some? && View(mem, pd, vp).mapping.value.0 == f
  }

  /** Frame `f` is that of a page below directory entry `i`, or the page table of such an entry. */
  ghost predicate Owned(mem: Memory, pd: int, i: int, f: int)
    requires TableOk(mem, pd) && 0 <= i <= ENTRIES
  {
    || (exists vp {:trigger Look(vp)} :: Look(vp) && 0 <= vp < i * ENTRIES && MapsTo(mem, pd, vp, f))
    || (exists j {:trigger Look(j)} :: Look(j) && 0 <= j < i && mem[pd][j] != 0 && Frame(mem[pd][j]) == f)
  }

  lemma {:induction false} FramesMember(words: seq<nat>, k: int, f: int) returns (j: int)
    requires 0 <= k <= |words| && f in Frames(words, k)
    ensures 0 <= j < k && Bit(words[j], PTE_P) && Frame(words[j]) == f
  {
    if f in Frames(words, k - 1) {
      j := FramesMember(words, k - 1, f);
    } else {
      j := k - 1;
    }
  }

  lemma {:induction false} FramesHas(words: seq<nat>, k: int, j: int)
    requires 0 <= j < k <= |words| && Bit(words[j], PTE_P)
    ensures Frame(words[j]) in Frames(words, k)
  {
    if j < k - 1 {
      FramesHas(words, k - 1, j);
    }
  }

  /** What pagedir_destroy() frees is mapped by a user page, or is a user page table. */
  lemma {:induction false} FreedIsOwned(mem: Memory, pd: int, i: int, f: int)
    requires TableOk(mem, pd) && 0 <= i <= ENTRIES && f in Freed(mem, pd, i)
    ensures Owned(mem, pd, i, f)
  {
    if mem[pd][i - 1] == 0 || f in Freed(mem, pd, i - 1) {
      FreedIsOwned(mem, pd, i - 1, f);
    } else {
      AtPde(mem, pd, i - 1);
      var pt := Frame(mem[pd][i - 1]);
      if f == pt {
        assert Look(i - 1);
      } else {
        var k := FramesMember(mem[pt], ENTRIES, f);
        AtIndex(i - 1, k);
        assert MapsTo(mem, pd, (i - 1) * ENTRIES + k, f);
        assert Look((i - 1) * ENTRIES + k);
      }
    }
  }

  lemma AtIndex(i: int, k: int)
    requires 0 <= k < ENTRIES
    ensures (i * ENTRIES + k) / ENTRIES == i && (i * ENTRIES + k) % ENTRIES == k
  {
  }

  /** Every frame that a user page maps to is freed. */
  lemma {:induction false} MappedIsFreed(mem: Memory, pd: int, i: int, vp: int, f: int)
    requires TableOk(mem, pd) && 0 <= vp < i * ENTRIES && i <= ENTRIES && MapsTo(mem, pd, vp, f)
    ensures f in Freed(mem, pd, i)
  {
    if vp / ENTRIES == i - 1 {
      AtPde(mem, pd, i - 1);
      FramesHas(mem[Frame(mem[pd][i - 1])], ENTRIES, vp % ENTRIES);
    } else {
      MappedIsFreed(mem, pd, i - 1, vp, f);
    }
  }

  /** Every user page table is freed. */
  lemma {:induction false} TableIsFreed(mem: Memory, pd: int, i: int, j: int)
    requires TableOk(mem, pd) && 0 <= j < i <= ENTRIES && mem[pd][j] != 0
    ensures Frame(mem[pd][j]) in Freed(mem, pd, i)
  {
    if j < i - 1 {
      TableIsFreed(mem, pd, i - 1, j);
    } else {
      AtPde(mem, pd, j);
    }
  }

  lemma OwnedIsFreed(mem: Memory, pd: int, i: int, f: int)
    requires TableOk(mem, pd) && 0 <= i <= ENTRIES && Owned(mem, pd, i, f)
    ensures f in Freed(mem, pd, i)
  {
    if vp :| Look(vp) && 0 <= vp < i * ENTRIES && MapsTo(mem, pd, vp, f) {
      MappedIsFreed(mem, pd, i, vp, f);
    } else {
      var j :| Look(j) && 0 <= j < i && mem[pd][j] != 0 && Frame(mem[pd][j]) == f;
      TableIsFreed(mem, pd, i, j);
    }
  }

  /** The frame of user page `u`, if it has one, is no page table or directory and that of no other user page. */
  ghost predicate Alone(mem: Memory, pd: int, u: int)
    requires TableOk(mem, pd) && 0 <= u < USER_ENTRIES * ENTRIES
  {
    View(mem, pd, u).mapping.Some? ==>
      && View(mem, pd, u).mapping.value.0 !in mem
      && (forall v {:trigger Look(v)} :: 0 <= v < USER_ENTRIES * ENTRIES && v != u ==>
           !MapsTo(mem, pd, v, View(mem, pd, u).mapping.value.0))
  }

  /** What the callers promise: no two user pages map to one frame, and none to a page table or directory. The
      kernel part of a directory maps all of memory, these frames included. */
  ghost predicate Unshared(mem: Memory, pd: int)
    requires TableOk(mem, pd)
  {
    forall u {:trigger Look(u)} :: 0 <= u < USER_ENTRIES * ENTRIES ==> Alone(mem, pd, u)
  }

  /** No user page maps to frame `f`, and it holds no page table or directory. */
  ghost predicate Unused(mem: Memory, pd: int, f: int)
    requires TableOk(mem, pd)
  {
    f !in mem && forall u {:trigger Look(u)} :: 0 <= u < USER_ENTRIES * ENTRIES ==> !MapsTo(mem, pd, u, f)
  }

  /** A frame to map and a page for a page table, both unused and not the same. */
  ghost predicate MayUse(mem: Memory, pd: int, frame: int, page: Option<nat>)
    requires TableOk(mem, pd)
  {
    Unused(mem, pd, frame) && (page.Some? ==> page.value != frame && Unused(mem, pd, page.value))
  }

  /** A frame that user page `u` of the new memory maps to was mapped by it before, or is the unused `frame`. */
  lemma StaysUnshared(mem: Memory, mem': Memory, pd: int, vp: int, frame: int, page: int)
    requires TableOk(mem, pd) && TableOk(mem', pd) && Unshared(mem, pd) && OthersSame(mem, mem', pd, vp)
    requires 0 <= vp < ENTRIES * ENTRIES && mem'.Keys <= mem.Keys + {page} && (page in mem || Unused(mem, pd, page))
    requires var m := View(mem', pd, vp).mapping;
             m.None? || m == View(mem, pd, vp).mapping
               || (m.value.0 == frame && frame != page && Unused(mem, pd, frame))
    ensures Unshared(mem', pd)
  {
    forall u | 0 <= u < USER_ENTRIES * ENTRIES
      ensures Alone(mem', pd, u)
    {
      StaysAlone(mem, mem', pd, vp, frame, page, u);
    }
  }

  lemma StaysAlone(mem: Memory, mem': Memory, pd: int, vp: int, frame: int, page: int, u: int)
    requires TableOk(mem, pd) && TableOk(mem', pd) && Unshared(mem, pd) && OthersSame(mem, mem', pd, vp)
    requires 0 <= vp < ENTRIES * ENTRIES && mem'.Keys <= mem.Keys + {page} && (page in mem || Unused(mem, pd, page))
    requires var m := View(mem', pd, vp).mapping;
             m.None? || m == View(mem, pd, vp).mapping
               || (m.value.0 == frame && frame != page && Unused(mem, pd, frame))
    requires 0 <= u < USER_ENTRIES * ENTRIES
    ensures Alone(mem', pd, u)
  {
    assert Look(u) && Look(vp);
    if View(mem', pd, u).mapping.Some? {
      var f := View(mem', pd, u).mapping.value.0;
      assert f == frame || MapsTo(mem, pd, u, f);
      forall v | 0 <= v < USER_ENTRIES * ENTRIES && v != u
        ensures !MapsTo(mem', pd, v, f)
      {
        assert Look(v);
        assert MapsTo(mem', pd, v, f) ==> f == frame || MapsTo(mem, pd, v, f);
      }
    }
  }

  lemma OneMapping(mem: Memory, pd: int, u: int, v: int, f: int)
    requires TableOk(mem, pd) && Unshared(mem, pd) && 0 <= u < USER_ENTRIES * ENTRIES && 0 <= v < USER_ENTRIES * ENTRIES
    requires MapsTo(mem, pd, u, f) && MapsTo(mem, pd, v, f)
    ensures u == v
  {
    assert Look(u) && Look(v);
  }

  lemma NotATable(mem: Memory, pd: int, u: int, f: int)
    requires TableOk(mem, pd) && Unshared(mem, pd) && 0 <= u < USER_ENTRIES * ENTRIES && MapsTo(mem, pd, u, f)
    ensures f !in mem
  {
    assert Look(u);
  }

  lemma FrameMapped(mem: Memory, pd: int, i: int, f: int) returns (vp: int)
    requires TableOk(mem, pd) && 0 <= i < USER_ENTRIES && mem[pd][i] != 0
    requires Frame(mem[pd][i]) in mem && |mem[Frame(mem[pd][i])]| == ENTRIES
    requires f in Frames(mem[Frame(mem[pd][i])], ENTRIES)
    ensures i * ENTRIES <= vp < (i + 1) * ENTRIES && MapsTo(mem, pd, vp, f)
  {
    var k := FramesMember(mem[Frame(mem[pd][i])], ENTRIES, f);
    AtIndex(i, k);
    vp := i * ENTRIES + k;
  }

  lemma {:induction false} FramesOnce(mem: Memory, pd: int, i: int, k: int)
    requires TableOk(mem, pd) && Unshared(mem, pd) && 0 <= i < USER_ENTRIES && mem[pd][i] != 0 && 0 <= k <= ENTRIES
    requires Frame(mem[pd][i]) in mem && |mem[Frame(mem[pd][i])]| == ENTRIES
    ensures NoDup(Frames(mem[Frame(mem[pd][i])], k))
  {
    if k > 0 {
      FramesOnce(mem, pd, i, k - 1);
      var words := mem[Frame(mem[pd][i])];
      var f := Frame(words[k - 1]);
      if Bit(words[k - 1], PTE_P) && f in Frames(words, k - 1) {
        var j := FramesMember(words, k - 1, f);
        AtIndex(i, k - 1);
        AtIndex(i, j);
        OneMapping(mem, pd, i * ENTRIES + (k - 1), i * ENTRIES + j, f);
      }
    }
  }

  /** The pages of one table are not freed with any earlier table. */
  lemma TableApart(mem: Memory, pd: int, i: int, f: int)
    requires TableOk(mem, pd) && Unshared(mem, pd) && 0 <= i < USER_ENTRIES && mem[pd][i] != 0 && Owned(mem, pd, i, f)
    requires Frame(mem[pd][i]) in mem && |mem[Frame(mem[pd][i])]| == ENTRIES
    ensures f != Frame(mem[pd][i]) && f !in Frames(mem[Frame(mem[pd][i])], ENTRIES)
  {
    var pt := Frame(mem[pd][i]);
    AtPde(mem, pd, i);
    if vp :| Look(vp) && 0 <= vp < i * ENTRIES && MapsTo(mem, pd, vp, f) {
      NotATable(mem, pd, vp, f);
      if f in Frames(mem[pt], ENTRIES) {
        var u := FrameMapped(mem, pd, i, f);
        OneMapping(mem, pd, vp, u, f);
      }
    } else {
      var j :| Look(j) && 0 <= j < i && mem[pd][j] != 0 && Frame(mem[pd][j]) == f;
      AtPde(mem, pd, j);
      NotAFrame(mem, pd, i, f);
    }
  }

  lemma NotAFrame(mem: Memory, pd: int, i: int, f: int)
    requires TableOk(mem, pd) && Unshared(mem, pd) && 0 <= i < USER_ENTRIES && mem[pd][i] != 0 && f in mem
    requires Frame(mem[pd][i]) in mem && |mem[Frame(mem[pd][i])]| == ENTRIES
    ensures f !in Frames(mem[Frame(mem[pd][i])], ENTRIES)
  {
    if f in Frames(mem[Frame(mem[pd][i])], ENTRIES) {
      var u := FrameMapped(mem, pd, i, f);
      NotATable(mem, pd, u, f);
    }
  }

  lemma {:induction false} FreedOnce(mem: Memory, pd: int, i: int)
    requires TableOk(mem, pd) && Unshared(mem, pd) && 0 <= i <= USER_ENTRIES
    ensures NoDup(Freed(mem, pd, i))
  {
    if i > 0 {
      FreedOnce(mem, pd, i - 1);
      if mem[pd][i - 1] != 0 {
        AtPde(mem, pd, i - 1);
        var pt := Frame(mem[pd][i - 1]);
        FramesOnce(mem, pd, i - 1, ENTRIES);
        NotAFrame(mem, pd, i - 1, pt);
        forall f | f in Freed(mem, pd, i - 1)
          ensures f != pt && f !in Frames(mem[pt], ENTRIES)
        {
          FreedIsOwned(mem, pd, i - 1, f);
          TableApart(mem, pd, i - 1, f);
        }
        NoDupJoin(Freed(mem, pd, i - 1), Frames(mem[pt], ENTRIES), pt);
      }
    }
  }

  lemma NoDupJoin(a: seq<int>, b: seq<int>, c: int)
    requires NoDup(a) && NoDup(b) && c !in a && c !in b && forall x :: x in a ==> x !in b
    ensures NoDup(a + b + [c])
  {
    var q := a + b + [c];
    forall i, j | 0 <= i < j < |q|
      ensures q[i] != q[j]
    {
      assert i < |a| ==> q[i] in a;
      assert i >= |a| ==> q[i] in b;
      assert q[i] == if i < |a| then a[i] else b[i - |a|];
      assert q[j] == if j < |a| then a[j] else if j < |a| + |b| then b[j - |a|] else c;
    }
  }

  /** pagedir_destroy() frees each page that a user page maps to, each user page table and the directory, each once,
      and no page table of the kernel's. */
  lemma DestroyFreesOnce(mem: Memory, pd: int, freed: seq<int>, f: int)
    requires TableOk(mem, pd) && Unshared(mem, pd) && freed == Freed(mem, pd, USER_ENTRIES) + [pd]
    ensures NoDup(freed)
    ensures f in freed <==> f == pd || Owned(mem, pd, USER_ENTRIES, f)
    ensures forall j {:trigger Look(j)} :: USER_ENTRIES <= j < ENTRIES && mem[pd][j] != 0 ==>
              Frame(mem[pd][j]) !in freed
  {
    FreedOnce(mem, pd, USER_ENTRIES);
    if f in Freed(mem, pd, USER_ENTRIES) {
      FreedIsOwned(mem, pd, USER_ENTRIES, f);
    }
    if Owned(mem, pd, USER_ENTRIES, f) {
      OwnedIsFreed(mem, pd, USER_ENTRIES, f);
    }
    if pd in Freed(mem, pd, USER_ENTRIES) {
      FreedIsOwned(mem, pd, USER_ENTRIES, pd);
      DirectoryApart(mem, pd, 0, pd);
    }
    forall j | USER_ENTRIES <= j < ENTRIES && mem[pd][j] != 0
      ensures Frame(mem[pd][j]) !in freed
    {
      var pt := Frame(mem[pd][j]);
      AtPde(mem, pd, j);
      if pt in Freed(mem, pd, USER_ENTRIES) {
        FreedIsOwned(mem, pd, USER_ENTRIES, pt);
        DirectoryApart(mem, pd, j, pt);
      }
    }
  }

  /** The directory and the kernel's page tables belong to no user entry. */
  lemma DirectoryApart(mem: Memory, pd: int, j: int, f: int)
    requires TableOk(mem, pd) && Unshared(mem, pd) && f in mem
    requires f == pd || (USER_ENTRIES <= j < ENTRIES && mem[pd][j] != 0 && Frame(mem[pd][j]) == f)
    ensures !Owned(mem, pd, USER_ENTRIES, f)
  {
    forall i | 0 <= i < USER_ENTRIES && mem[pd][i] != 0
      ensures Frame(mem[pd][i]) != f
    {
      AtPde(mem, pd, i);
      assert Look(j);
    }
    forall u | 0 <= u < USER_ENTRIES * ENTRIES
      ensures !MapsTo(mem, pd, u, f)
    {
      assert Look(u);
    }
  }
}
