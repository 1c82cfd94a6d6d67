/**
  The SMMU's two-level page tables: a bump allocator of 4 KiB pages, a directory
  whose vacant entries are identity mappings, and lazy expansion of an entry into
  a table of its own.

  Bit-level facts are proved by small lemmas of their own; the lemmas about tables
  hide the encodings and use those facts only.
*/
module Smmu {
  type Word = int                        // a u32

  // RAM: the word at each 4-aligned address.
  type Mem = int -> int

  const TWO32: int := 0x1_0000_0000
  const HEAP_ADDR: int := 0xA000_0000
  const PAGE_SIZE: int := 0x1000
  const SECTION: int := 0x40_0000        // what one directory entry covers
  const COUNT: int := 1024               // SMMU_PDIR_COUNT and SMMU_PTBL_COUNT
  const FRAMES: int := 0x10_0000         // SMMU_PFN_MASK + 1
  const ATTR: int := 0xE000_0000         // readable, writable, non-secure
  const NEXT: int := 0x1000_0000         // _PDE_NEXT

  // Bitwise or.
  function Or(x: nat, y: nat): nat
    decreases x + y
  {
    if x == 0 then y else if y == 0 then x
    else 2 * Or(x / 2, y / 2) + (if x % 2 == 1 || y % 2 == 1 then 1 else 0)
  }

  function Pfn(addr: int): int { addr / PAGE_SIZE }
  function Pdn(addr: int): int { addr / SECTION }
  function Low(addr: int): int { Pfn(addr) % COUNT }
  function PdnToAddr(pdn: int): int { pdn * SECTION }
  function PdeVacant(pdn: nat): int { Or(pdn * 1024, ATTR) }
  function PteVacant(addr: nat): int { Or(Pfn(addr), ATTR) }
  function MkPde(page: nat): int { Or(Pfn(page), ATTR + NEXT) }
  function TableOf(pde: int): int { pde % FRAMES * PAGE_SIZE }

  // The address of entry k of a table, and the page an address lies in.
  function Entry(table: int, k: int): int { table + 4 * k }
  function PageOf(a: int): int { a - a % PAGE_SIZE }

  function Store(m: Mem, a: int, w: int): Mem {
    (x: int) => if x == a then w else m(x)
  }

  // ----- what the hardware makes of the tables -----

  // A directory entry without the NEXT bit maps its whole 4 MiB section.
  predicate IsSection(pde: int) { pde / NEXT % 2 == 0 }
  function SectionPte(pde: int, iova: int): int { pde - pde % COUNT + Low(iova) }

  function Slot(m: Mem, pdir: int, k: int): int { m(Entry(pdir, k)) }

  // The entry that governs iova.
  function PteOf(m: Mem, pdir: int, iova: int): int {
    var pde := Slot(m, pdir, Pdn(iova));
    if IsSection(pde) then SectionPte(pde, iova) else m(Entry(TableOf(pde), Low(iova)))
  }

  function Physical(pte: int, iova: int): int { pte % FRAMES * PAGE_SIZE + iova % PAGE_SIZE }
  function Attributes(pte: int): int { pte - pte % FRAMES }

  // ----- or of disjoint fields -----

  function Pow2(n: nat): nat { if n == 0 then 1 else 2 * Pow2(n - 1) }

  lemma {:induction false} OrSum(x: nat, q: nat, n: nat)
    requires x < Pow2(n)
    ensures Or(x, q * Pow2(n)) == x + q * Pow2(n)
    decreases n
  {
    if n > 0 && x > 0 && q > 0 {
      var p := Pow2(n - 1);
      assert q * Pow2(n) == 2 * (q * p);
      OrSum(x / 2, q, n - 1);
    }
  }

  lemma FieldSizes()
    ensures Pow2(20) == FRAMES && Pow2(28) == NEXT && Pow2(29) == 2 * NEXT
  {
    assert Pow2(5) == 32 && Pow2(10) == 1024 && Pow2(15) == 0x8000 && Pow2(20) == 0x10_0000;
    assert Pow2(25) == 0x200_0000;
  }

  // Bit i of a number.
  predicate Bit(x: nat, i: nat) { if i == 0 then x % 2 == 1 else Bit(x / 2, i - 1) }

  // Or works bit by bit.
  lemma {:induction false} OrBit(x: nat, y: nat, i: nat)
    ensures Bit(Or(x, y), i) <==> Bit(x, i) || Bit(y, i)
    decreases i
  {
    if x == 0 || y == 0 {
      ZeroBit(i);
    } else if i > 0 {
      OrBit(x / 2, y / 2, i - 1);
      OrHalf(x, y);
    }
  }

  lemma OrHalf(x: nat, y: nat)
    requires x > 0 && y > 0
    ensures Or(x, y) / 2 == Or(x / 2, y / 2)
  {
  }

  lemma {:induction false} ZeroBit(i: nat)
    ensures !Bit(0, i)
  {
    if i > 0 { ZeroBit(i - 1); }
  }

  // ----- facts about the encodings -----

  predicate U32(a: int) { 0 <= a < TWO32 }
  predicate Aligned(page: int) { U32(page) && page % PAGE_SIZE == 0 }
  predicate Index(k: int) { 0 <= k < COUNT }

  lemma PdeVacantIs(pdn: int)
    requires Index(pdn)
    ensures PdeVacant(pdn) == pdn * 1024 + ATTR
  {
    FieldSizes();
    OrSum(pdn * 1024, 7, 29);
  }

  lemma PteVacantIs(a: int)
    requires U32(a)
    ensures PteVacant(a) == Pfn(a) + ATTR
  {
    FieldSizes();
    OrSum(Pfn(a), 7, 29);
  }

  lemma MkPdeIs(page: int)
    requires U32(page)
    ensures MkPde(page) == Pfn(page) + ATTR + NEXT
  {
    FieldSizes();
    OrSum(Pfn(page), 15, 28);
  }

  lemma VacantSection(iova: int)
    requires U32(iova)
    ensures IsSection(PdeVacant(Pdn(iova)))
    ensures SectionPte(PdeVacant(Pdn(iova)), iova) == PteVacant(iova)
  {
    hide PdeVacant, PteVacant;
    PdeVacantIs(Pdn(iova));
    PteVacantIs(iova);
  }

  // A vacant entry is the identity mapping with full access.
  lemma VacantIsIdentity(iova: int)
    requires U32(iova)
    ensures Physical(PteVacant(iova), iova) == iova && Attributes(PteVacant(iova)) == ATTR
  {
    hide PteVacant;
    PteVacantIs(iova);
  }

  lemma MappedEntry(page: int, iova: int, attr: nat)
    requires U32(page) && attr % FRAMES == 0
    ensures Physical(Or(Pfn(page), attr), iova) == PageOf(page) + iova % PAGE_SIZE
    ensures Attributes(Or(Pfn(page), attr)) == attr
  {
    hide Or;
    FieldSizes();
    OrSum(Pfn(page), attr / FRAMES, 20);
    assert attr == attr / FRAMES * FRAMES;
  }

  lemma TableRoundTrip(page: int)
    requires Aligned(page)
    ensures TableOf(MkPde(page)) == page && !IsSection(MkPde(page))
  {
    hide MkPde;
    MkPdeIs(page);
  }

  lemma NeverVacant(page: int, pdn: int)
    requires U32(page) && Index(pdn)
    ensures MkPde(page) != PdeVacant(pdn)
  {
    hide MkPde, PdeVacant;
    MkPdeIs(page);
    PdeVacantIs(pdn);
  }

  lemma EntriesApart(t: int, u: int, i: int, j: int)
    requires Aligned(t) && Aligned(u) && Index(i) && Index(j) && (t != u || i != j)
    ensures Entry(t, i) != Entry(u, j)
  {
  }

  lemma EntryInPage(t: int, i: int)
    requires Aligned(t) && Index(i)
    ensures PageOf(Entry(t, i)) == t
  {
  }

  lemma Indices(iova: int)
    requires U32(iova)
    ensures Index(Pdn(iova)) && Index(Low(iova))
  {
  }

  // Entry Low(iova) of a fresh table for its section maps iova's page to itself.
  lemma FreshEntry(iova: int)
    requires U32(iova)
    ensures U32(PdnToAddr(Pdn(iova)) + Low(iova) * PAGE_SIZE)
    ensures PteVacant(PdnToAddr(Pdn(iova)) + Low(iova) * PAGE_SIZE) == PteVacant(iova)
  {
    assert Pfn(PdnToAddr(Pdn(iova)) + Low(iova) * PAGE_SIZE) == Pfn(iova);
  }

  lemma PfnParts(a: int)
    ensures Pdn(a) == Pfn(a) / COUNT && Pfn(a) == Pdn(a) * COUNT + Low(a)
  {
  }

  lemma SamePage(a: int, b: int)
    requires Pfn(a) == Pfn(b)
    ensures Pdn(a) == Pdn(b) && Low(a) == Low(b)
  {
    hide Pfn, Pdn;
    PfnParts(a);
    PfnParts(b);
  }

  lemma PageApart(a: int, b: int)
    requires Pfn(a) != Pfn(b) && Pdn(a) == Pdn(b)
    ensures Low(a) != Low(b)
  {
    hide Pfn, Pdn;
    PfnParts(a);
    PfnParts(b);
  }

  // ----- the shape of a directory -----

  predicate Vacant(m: Mem, pdir: int, k: nat) { Slot(m, pdir, k) == PdeVacant(k) }

  function Table(m: Mem, pdir: int, k: int): int { TableOf(Slot(m, pdir, k)) }

  // Entry k is vacant, or points to a page below the allocation mark.
  ghost predicate SlotOk(m: Mem, pdir: int, heap: int, k: nat) {
    Vacant(m, pdir, k) ||
    (var t := Table(m, pdir, k); Aligned(t) && Slot(m, pdir, k) == MkPde(t) && t < heap && t != pdir)
  }

  // Sections i and j, if both have a table, have different ones.
  ghost predicate OwnTables(m: Mem, pdir: int, i: nat, j: nat) {
    Vacant(m, pdir, i) || Vacant(m, pdir, j) || Table(m, pdir, i) != Table(m, pdir, j)
  }

  ghost predicate Directory(m: Mem, pdir: int, heap: int) {
    && Aligned(pdir) && Aligned(heap) && pdir < heap
    && (forall k :: Index(k) ==> SlotOk(m, pdir, heap, k))
    && (forall i, j {:trigger OwnTables(m, pdir, i, j)} :: Index(i) && Index(j) && i != j ==> OwnTables(m, pdir, i, j))
  }

  // m' has the same directory entries as m, but for entry `except`.
  ghost predicate SameSlots(m: Mem, m': Mem, pdir: int, except: int) {
    forall k :: Index(k) && k != except ==> Slot(m', pdir, k) == Slot(m, pdir, k)
  }

  lemma SlotOkFrame(m: Mem, m': Mem, pdir: int, heap: int, k: nat)
    requires SlotOk(m, pdir, heap, k) && Slot(m', pdir, k) == Slot(m, pdir, k)
    ensures SlotOk(m', pdir, heap, k)
  {
  }

  lemma OwnTablesFrame(m: Mem, m': Mem, pdir: int, i: nat, j: nat)
    requires OwnTables(m, pdir, i, j)
    requires Slot(m', pdir, i) == Slot(m, pdir, i) && Slot(m', pdir, j) == Slot(m, pdir, j)
    ensures OwnTables(m', pdir, i, j)
  {
  }

  // Two memories that agree on the directory entry and the table entry of a translate it alike.
  lemma PteFrame(m: Mem, m': Mem, pdir: int, heap: int, a: int)
    requires Directory(m, pdir, heap) && U32(a)
    requires Slot(m', pdir, Pdn(a)) == Slot(m, pdir, Pdn(a))
    requires !Vacant(m, pdir, Pdn(a)) ==>
               var e := Entry(Table(m, pdir, Pdn(a)), Low(a)); m'(e) == m(e)
    ensures PteOf(m', pdir, a) == PteOf(m, pdir, a)
  {
    hide Low, Entry, TableOf, MkPde, PdeVacant, PteVacant, IsSection, SectionPte, OwnTables, SlotOk;
    VacantSection(a);
  }

  // ----- storing one entry -----

  function StoredPte(m: Mem, pdir: int, iova: int, w: int): Mem {
    Store(m, Entry(Table(m, pdir, Pdn(iova)), Low(iova)), w)
  }

  lemma StoredSlots(m: Mem, pdir: int, heap: int, iova: int, w: int, k: int)
    requires Directory(m, pdir, heap) && U32(iova) && !Vacant(m, pdir, Pdn(iova)) && Index(k)
    ensures Slot(StoredPte(m, pdir, iova, w), pdir, k) == Slot(m, pdir, k)
  {
    hide Pfn, Pdn, Low, Entry, TableOf, MkPde, PdeVacant, Index, OwnTables;
    Indices(iova);
    var t := Table(m, pdir, Pdn(iova));
    assert SlotOk(m, pdir, heap, Pdn(iova));
    EntriesApart(pdir, t, k, Low(iova));
  }

  lemma StoredHere(m: Mem, pdir: int, heap: int, iova: int, w: int, a: int)
    requires Directory(m, pdir, heap) && U32(iova) && !Vacant(m, pdir, Pdn(iova)) && Pfn(a) == Pfn(iova)
    ensures PteOf(StoredPte(m, pdir, iova, w), pdir, a) == w
  {
    hide Pfn, Pdn, Low, Entry, TableOf, MkPde, PdeVacant, Index, IsSection, OwnTables;
    Indices(iova);
    SamePage(a, iova);
    StoredSlots(m, pdir, heap, iova, w, Pdn(iova));
    assert SlotOk(m, pdir, heap, Pdn(iova));
    TableRoundTrip(Table(m, pdir, Pdn(iova)));
  }

  lemma StoredElsewhere(m: Mem, pdir: int, heap: int, iova: int, w: int, a: int)
    requires Directory(m, pdir, heap) && U32(iova) && U32(a) && !Vacant(m, pdir, Pdn(iova)) && Pfn(a) != Pfn(iova)
    ensures PteOf(StoredPte(m, pdir, iova, w), pdir, a) == PteOf(m, pdir, a)
  {
    hide Pfn, Pdn, Low, Entry, TableOf, MkPde, PdeVacant, Index, PteOf;
    Indices(iova);
    Indices(a);
    var t, u := Table(m, pdir, Pdn(iova)), Table(m, pdir, Pdn(a));
    StoredSlots(m, pdir, heap, iova, w, Pdn(a));
    assert SlotOk(m, pdir, heap, Pdn(iova)) && SlotOk(m, pdir, heap, Pdn(a));
    if !Vacant(m, pdir, Pdn(a)) {
      if Pdn(a) == Pdn(iova) { PageApart(a, iova); } else { assert OwnTables(m, pdir, Pdn(a), Pdn(iova)); }
      EntriesApart(t, u, Low(iova), Low(a));
    }
    PteFrame(m, StoredPte(m, pdir, iova, w), pdir, heap, a);
  }

  // Storing w as the entry of iova's page changes that page's entry and no other.
  lemma StorePte(m: Mem, pdir: int, heap: int, iova: int, w: int)
    requires Directory(m, pdir, heap) && U32(iova) && !Vacant(m, pdir, Pdn(iova))
    ensures var m' := StoredPte(m, pdir, iova, w);
            && Directory(m', pdir, heap)
            && (forall k :: Index(k) ==> Slot(m', pdir, k) == Slot(m, pdir, k))
            && forall a :: U32(a) ==> PteOf(m', pdir, a) == if Pfn(a) == Pfn(iova) then w else PteOf(m, pdir, a)
  {
    hide Pfn, Pdn, Slot, StoredPte, TableOf, MkPde, PdeVacant, PteOf, SlotOk, OwnTables;
    var m' := StoredPte(m, pdir, iova, w);
    forall k | Index(k) ensures Slot(m', pdir, k) == Slot(m, pdir, k) && SlotOk(m', pdir, heap, k) {
      StoredSlots(m, pdir, heap, iova, w, k);
      SlotOkFrame(m, m', pdir, heap, k);
    }
    forall i, j | Index(i) && Index(j) && i != j ensures OwnTables(m', pdir, i, j) {
      assert OwnTables(m, pdir, i, j);
      OwnTablesFrame(m, m', pdir, i, j);
    }
    forall a | U32(a) ensures PteOf(m', pdir, a) == if Pfn(a) == Pfn(iova) then w else PteOf(m, pdir, a) {
      if Pfn(a) == Pfn(iova) {
        StoredHere(m, pdir, heap, iova, w, a);
      } else {
        StoredElsewhere(m, pdir, heap, iova, w, a);
      }
    }
  }

  // ----- lazy expansion -----

  // The entries of a new table for section pdn, each its page's identity mapping.
  ghost predicate FreshTable(m: Mem, table: int, pdn: nat) {
    forall k: nat :: k < COUNT ==> m(Entry(table, k)) == PteVacant(PdnToAddr(pdn) + k * PAGE_SIZE)
  }

  // m' is m with the page at `table` rewritten and section pdn pointed at it.
  ghost predicate Expanded(m: Mem, m': Mem, pdir: int, pdn: nat, table: nat) {
    && (forall x :: PageOf(x) != table && x != Entry(pdir, pdn) ==> m'(x) == m(x))
    && Slot(m', pdir, pdn) == MkPde(table)
    && FreshTable(m', table, pdn)
  }

  lemma ExpandedSlots(m: Mem, m': Mem, pdir: int, pdn: int, table: int)
    requires Aligned(pdir) && Aligned(table) && pdir != table && Index(pdn) && Expanded(m, m', pdir, pdn, table)
    ensures SameSlots(m, m', pdir, pdn)
  {
    hide Entry, PageOf, MkPde, FreshTable;
    forall k | Index(k) && k != pdn ensures Slot(m', pdir, k) == Slot(m, pdir, k) {
      EntryInPage(pdir, k);
      EntriesApart(pdir, pdir, k, pdn);
    }
  }

  lemma ExpandedSlotOk(m: Mem, m': Mem, pdir: int, pdn: int, heap: int, k: int)
    requires Directory(m, pdir, heap) && Index(pdn) && Slot(m', pdir, pdn) == MkPde(heap)
    requires Index(k) && SameSlots(m, m', pdir, pdn)
    ensures SlotOk(m', pdir, heap + PAGE_SIZE, k)
  {
    hide Slot, MkPde, TableOf, PdeVacant, OwnTables;
    if k == pdn {
      TableRoundTrip(heap);
    } else {
      assert SlotOk(m, pdir, heap, k);
    }
  }

  // The new table differs from every table there was.
  lemma NewTableOwn(m: Mem, m': Mem, pdir: int, pdn: int, heap: int, k: int)
    requires Directory(m, pdir, heap) && Index(pdn) && Slot(m', pdir, pdn) == MkPde(heap)
    requires Index(k) && k != pdn && SameSlots(m, m', pdir, pdn)
    ensures OwnTables(m', pdir, pdn, k) && OwnTables(m', pdir, k, pdn)
  {
    hide Slot, MkPde, TableOf, PdeVacant, IsSection;
    TableRoundTrip(heap);
    assert SlotOk(m, pdir, heap, k);
  }

  lemma ExpandedDirectory(m: Mem, m': Mem, pdir: int, pdn: int, heap: int)
    requires Directory(m, pdir, heap) && U32(heap + PAGE_SIZE) && Index(pdn)
    requires Expanded(m, m', pdir, pdn, heap)
    ensures Directory(m', pdir, heap + PAGE_SIZE) && SameSlots(m, m', pdir, pdn)
    ensures !Vacant(m', pdir, pdn) && Table(m', pdir, pdn) == heap
  {
    hide Slot, PageOf, MkPde, TableOf, PdeVacant, FreshTable, IsSection, SlotOk, OwnTables;
    ExpandedSlots(m, m', pdir, pdn, heap);
    TableRoundTrip(heap);
    NeverVacant(heap, pdn);
    forall k | Index(k) ensures SlotOk(m', pdir, heap + PAGE_SIZE, k) {
      ExpandedSlotOk(m, m', pdir, pdn, heap, k);
    }
    forall i, j | Index(i) && Index(j) && i != j ensures OwnTables(m', pdir, i, j) {
      if i == pdn {
        NewTableOwn(m, m', pdir, pdn, heap, j);
      } else if j == pdn {
        NewTableOwn(m, m', pdir, pdn, heap, i);
      } else {
        assert OwnTables(m, pdir, i, j);
        OwnTablesFrame(m, m', pdir, i, j);
      }
    }
  }

  lemma ExpansionInside(m: Mem, m': Mem, pdir: int, heap: int, a: int)
    requires Directory(m, pdir, heap) && U32(a) && Vacant(m, pdir, Pdn(a)) && Expanded(m, m', pdir, Pdn(a), heap)
    ensures PteOf(m', pdir, a) == PteOf(m, pdir, a)
  {
    hide Entry, PageOf, MkPde, PteVacant, TableOf, PdeVacant, IsSection, SectionPte, Pfn, Pdn, Low, PdnToAddr, SlotOk, OwnTables;
    Indices(a);
    FreshEntry(a);
    VacantSection(a);
    TableRoundTrip(heap);
  }

  lemma ExpansionOutside(m: Mem, m': Mem, pdir: int, pdn: int, heap: int, a: int)
    requires Directory(m, pdir, heap) && U32(a) && Index(pdn) && Pdn(a) != pdn && Expanded(m, m', pdir, pdn, heap)
    ensures PteOf(m', pdir, a) == PteOf(m, pdir, a)
  {
    hide Entry, PageOf, MkPde, PteVacant, TableOf, PdeVacant, Pfn, Pdn, Low, PteOf, FreshTable, OwnTables, Index;
    Indices(a);
    ExpandedSlots(m, m', pdir, pdn, heap);
    var t := Table(m, pdir, Pdn(a));
    assert SlotOk(m, pdir, heap, Pdn(a));
    if !Vacant(m, pdir, Pdn(a)) {
      EntryInPage(t, Low(a));
      EntriesApart(t, pdir, Low(a), pdn);
    }
    PteFrame(m, m', pdir, heap, a);
  }

  // Expanding a vacant section changes the translation of no address.
  lemma ExpansionPreserves(m: Mem, m': Mem, pdir: int, pdn: int, heap: int, a: int)
    requires Directory(m, pdir, heap) && Index(pdn) && Vacant(m, pdir, pdn) && U32(a)
    requires Expanded(m, m', pdir, pdn, heap)
    ensures PteOf(m', pdir, a) == PteOf(m, pdir, a)
  {
    hide PteOf, Expanded, Directory, Pdn, Vacant;
    if Pdn(a) == pdn {
      ExpansionInside(m, m', pdir, heap, a);
    } else {
      ExpansionOutside(m, m', pdir, pdn, heap, a);
    }
  }

  // ----- room for the tables a directory may still need -----

  // The sections that have no table yet.
  ghost function VacantSections(m: Mem, pdir: int): set<int> {
    set k | Index(k) && 0 <= k < COUNT && Vacant(m, pdir, k)
  }

  // The address space has room for a table for each of them.
  ghost predicate Room(m: Mem, pdir: int, heap: int) {
    heap + PAGE_SIZE * |VacantSections(m, pdir)| < TWO32
  }

  // Giving one vacant section a table leaves one fewer without.
  lemma VacantSectionsShrink(m: Mem, m': Mem, pdir: int, k: int)
    requires SameSlots(m, m', pdir, k) && Index(k) && Vacant(m, pdir, k) && !Vacant(m', pdir, k)
    ensures |VacantSections(m', pdir)| == |VacantSections(m, pdir)| - 1
  {
    hide Slot, PdeVacant;
    assert VacantSections(m', pdir) == VacantSections(m, pdir) - {k};
  }

  lemma SameRoom(m: Mem, m': Mem, pdir: int, heap: int)
    requires Room(m, pdir, heap) && forall k :: Index(k) ==> Slot(m', pdir, k) == Slot(m, pdir, k)
    ensures Room(m', pdir, heap)
  {
    hide Slot, PdeVacant;
    assert VacantSections(m', pdir) == VacantSections(m, pdir);
  }

  lemma {:induction false} FewNumbers(s: set<int>, n: nat)
    requires forall k :: k in s ==> 0 <= k < n
    ensures |s| <= n
    decreases n
  {
    if n > 0 {
      FewNumbers(s - {n - 1}, n - 1);
    } else {
      assert forall k :: k !in s;
      assert s == {};
    }
  }

  // ----- the same in addresses and words -----

  // How the hardware finds the entry of iova.
  lemma WalkIs(m: Mem, pdir: int, iova: int)
    ensures var pde, k := m(pdir + 4 * (iova / 0x40_0000)), iova / 0x1000 % 1024;
            PteOf(m, pdir, iova) ==
            if pde / 0x1000_0000 % 2 == 0 then pde - pde % 1024 + k else m(pde % 0x10_0000 * 0x1000 + 4 * k)
  {
  }

  lemma EntryIs(pte: int, iova: int)
    ensures Physical(pte, iova) == pte % 0x10_0000 * 0x1000 + iova % 0x1000 && Attributes(pte) == pte - pte % 0x10_0000
  {
  }

  // Word k of a new directory, of a new table, and of a directory that points to a table.
  lemma WordsAre(pdn: int, k: int, page: int)
    requires Index(pdn) && Index(k) && U32(page)
    ensures PdeVacant(pdn) == 0xE000_0000 + 1024 * pdn
    ensures PteVacant(PdnToAddr(pdn) + k * PAGE_SIZE) == 0xE000_0000 + 1024 * pdn + k
    ensures MkPde(page) == 0xF000_0000 + page / 0x1000
  {
    hide PdeVacant, PteVacant, MkPde;
    PdeVacantIs(pdn);
    PteVacantIs(PdnToAddr(pdn) + k * PAGE_SIZE);
    MkPdeIs(page);
  }

  lemma TableWords(m: Mem, table: int, pdn: int)
    requires Index(pdn) && FreshTable(m, table, pdn)
    ensures forall k :: 0 <= k < 1024 ==> m(table + 4 * k) == 0xE000_0000 + 1024 * pdn + k
  {
    hide PteVacant;
    forall k | 0 <= k < 1024 ensures m(table + 4 * k) == 0xE000_0000 + 1024 * pdn + k {
      assert Entry(table, k) == table + 4 * k;
      WordsAre(pdn, k, 0);
    }
  }

  lemma DirectoryWords(m: Mem, pdir: int)
    requires forall k :: Index(k) ==> m(Entry(pdir, k)) == PdeVacant(k)
    ensures forall k :: 0 <= k < 1024 ==> m(pdir + 4 * k) == 0xE000_0000 + 1024 * k
  {
    hide PdeVacant;
    forall k | 0 <= k < 1024 ensures m(pdir + 4 * k) == 0xE000_0000 + 1024 * k {
      assert Entry(pdir, k) == pdir + 4 * k;
      WordsAre(k, 0, 0);
    }
  }

  lemma EntryAt(table: int, k: int)
    ensures Entry(table, k) == table + 4 * k
  {
  }

  // The table of a directory entry and the address in it that governs iova.
  lemma PteAddress(m: Mem, pdir: int, iova: int)
    ensures var pdn := iova / 0x40_0000;
            && Pdn(iova) == pdn && Slot(m, pdir, pdn) == m(pdir + 4 * pdn)
            && TableOf(m(pdir + 4 * pdn)) == m(pdir + 4 * pdn) % 0x10_0000 * 0x1000
            && forall t :: Entry(t, Low(iova)) == t + 4 * (iova / 0x1000 % 1024)
  {
  }

  lemma VacantWord(k: int)
    requires Index(k)
    ensures PdeVacant(k) == 0xE000_0000 + 1024 * k
  {
    WordsAre(k, 0, 0);
  }

  // An entry that is not vacant has the bit that says that a table follows.
  lemma PointsToTable(m: Mem, pdir: int, heap: int, k: int)
    requires Directory(m, pdir, heap) && Index(k) && !Vacant(m, pdir, k)
    ensures m(pdir + 4 * k) / 0x1000_0000 % 2 == 1
  {
    hide MkPde, TableOf, PdeVacant, OwnTables;
    assert SlotOk(m, pdir, heap, k);
    EntryAt(pdir, k);
    TableRoundTrip(Table(m, pdir, k));
  }

  // The first n pages of the range have table entries, and these hold their frames and attributes.
  ghost predicate WordsMapped(m: Mem, pdir: int, addr: int, page: int, n: int, attr: nat) {
    forall i :: 0 <= i < n ==> WordMapped(m, pdir, (addr + 0x1000 * i) % 0x1_0000_0000, (page + 0x1000 * i) % 0x1_0000_0000, attr)
  }

  ghost predicate WordMapped(m: Mem, pdir: int, a: int, frame: int, attr: nat)
    requires frame >= 0
  {
    var pde := m(pdir + 4 * (a / 0x40_0000));
    && pde / 0x1000_0000 % 2 == 1
    && m(pde % 0x10_0000 * 0x1000 + 4 * (a / 0x1000 % 1024)) == Or(frame / 0x1000, attr)
  }

  // The section of a has a table.
  ghost predicate Owns(m: Mem, pdir: int, a: int) { Index(Pdn(a)) && !Vacant(m, pdir, Pdn(a)) }

  lemma OwnsStill(m: Mem, m': Mem, pdir: int, a: int)
    requires Owns(m, pdir, a) && forall k :: Index(k) && !Vacant(m, pdir, k) ==> !Vacant(m', pdir, k)
    ensures Owns(m', pdir, a)
  {
    hide Index, Vacant, Pdn;
  }

  lemma AdvanceIs(addr: int, n: int)
    ensures Advance(addr, n) == (addr + 0x1000 * n) % 0x1_0000_0000
  {
  }

  lemma WordIs(m: Mem, pdir: int, heap: int, a: int, frame: int, attr: nat)
    requires Directory(m, pdir, heap) && Owns(m, pdir, a) && frame >= 0 && PteOf(m, pdir, a) == Or(Pfn(frame), attr)
    ensures WordMapped(m, pdir, a, frame, attr)
  {
    hide Directory, Or, PdeVacant, PteOf;
    PteAddress(m, pdir, a);
    PointsToTable(m, pdir, heap, Pdn(a));
    WalkIs(m, pdir, a);
  }

  lemma PageMapped(m: Mem, m': Mem, pdir: int, heap: int, addr: int, page: int, n: int, attr: nat, i: int)
    requires Directory(m', pdir, heap) && MappedTo(m, m', pdir, addr, page, n, attr) && 0 <= i < n <= FRAMES
    requires U32(addr) && addr % PAGE_SIZE == 0 && Owns(m', pdir, Advance(addr, i))
    ensures WordMapped(m', pdir, (addr + 0x1000 * i) % 0x1_0000_0000, (page + 0x1000 * i) % 0x1_0000_0000, attr)
  {
    AdvanceIs(addr, i);
    AdvanceIs(page, i);
    hide Directory, Or, Owns, PageIndex, PteOf, Pfn, MappedTo, WordMapped, Advance;
    var a := Advance(addr, i);
    PageOfRange(a, addr, i);
    MappedAt(m, m', pdir, addr, page, n, attr, a);
    WordIs(m', pdir, heap, a, Advance(page, i), attr);
  }

  lemma MappedAt(m: Mem, m': Mem, pdir: int, addr: int, page: int, n: int, attr: nat, a: int)
    requires MappedTo(m, m', pdir, addr, page, n, attr) && U32(a) && PageIndex(a, addr) < n
    ensures PteOf(m', pdir, a) == PteAt(page, PageIndex(a, addr), attr)
  {
    hide PteOf, PteAt, PageIndex;
  }

  // ----- the driver -----

  lemma PageBounds(page: int, x: int)
    requires Aligned(page)
    ensures PageOf(x) == page <==> page <= x < page + PAGE_SIZE
  {
  }

  // Memory is the same outside one page.
  ghost predicate OnlyPage(m: Mem, m': Mem, page: int) {
    forall x :: PageOf(x) != page ==> m'(x) == m(x)
  }

  class Smmu {
    var mem: Mem
    var pageheap: int

    constructor (ram: Mem)
      ensures mem == ram && pageheap == 0xA000_0000
    {
      mem, pageheap := ram, HEAP_ADDR;
    }

    // page_alloc
    method PageAlloc(num: nat) returns (res: int)
      modifies this
      ensures res == old(pageheap) && pageheap == (res + PAGE_SIZE * num % TWO32) % TWO32
      ensures forall x :: mem(x) == if res <= x < res + PAGE_SIZE * num % TWO32 then 0 else old(mem)(x)
    {
      res := pageheap;
      var n := PAGE_SIZE * num % TWO32;
      pageheap := (pageheap + n) % TWO32;
      var m, page := mem, res;
      mem := (x: int) => if page <= x < page + n then 0 else m(x);
    }

    // page_alloc(1)
    method OnePage() returns (res: int)
      requires Aligned(pageheap)
      modifies this
      ensures res == old(pageheap) && pageheap == (res + PAGE_SIZE) % TWO32
      ensures OnlyPage(old(mem), mem, res)
    {
      res := PageAlloc(1);
      forall x ensures PageOf(x) == res <==> res <= x < res + PAGE_SIZE { PageBounds(res, x); }
    }

    // smmu_alloc_pdir
    method AllocPdir() returns (pdir: int)
      requires Aligned(pageheap) && pageheap + PAGE_SIZE < TWO32
      modifies this
      ensures pdir == old(pageheap) && pageheap == pdir + PAGE_SIZE
      ensures OnlyPage(old(mem), mem, pdir) && Directory(mem, pdir, pageheap)
      ensures forall k :: 0 <= k < 1024 ==> mem(pdir + 4 * k) == 0xE000_0000 + 1024 * k
      ensures forall a :: U32(a) ==> PteOf(mem, pdir, a) == PteVacant(a)
      ensures pageheap + PAGE_SIZE * COUNT < TWO32 ==> Room(mem, pdir, pageheap)
    {
      hide PdeVacant, PteOf, PteVacant, PageOf, Entry, Directory;
      pdir := OnePage();
      for pdn := 0 to COUNT
        invariant forall k :: Index(k) && k < pdn ==> mem(Entry(pdir, k)) == PdeVacant(k)
        invariant OnlyPage(old(mem), mem, pdir) && pageheap == pdir + PAGE_SIZE
      {
        EntryInPage(pdir, pdn);
        forall k | Index(k) && k < pdn ensures Entry(pdir, k) != Entry(pdir, pdn) { EntriesApart(pdir, pdir, k, pdn); }
        mem := Store(mem, Entry(pdir, pdn), PdeVacant(pdn));
      }
      VacantDirectory(mem, pdir);
      DirectoryWords(mem, pdir);
      FewNumbers(VacantSections(mem, pdir), COUNT);
    }

    // The loop of smmu_get_pte that fills a new table.
    method FillTable(ptbl: int, pdn: int)
      requires Aligned(ptbl) && Index(pdn)
      modifies this`mem
      ensures OnlyPage(old(mem), mem, ptbl) && FreshTable(mem, ptbl, pdn)
      ensures forall k :: 0 <= k < 1024 ==> mem(ptbl + 4 * k) == 0xE000_0000 + 1024 * pdn + k
    {
      hide PteVacant, PageOf, Entry;
      var addr := PdnToAddr(pdn);
      for pn := 0 to COUNT
        invariant addr == PdnToAddr(pdn) + pn * PAGE_SIZE
        invariant forall k: nat :: k < pn ==> mem(Entry(ptbl, k)) == PteVacant(PdnToAddr(pdn) + k * PAGE_SIZE)
        invariant OnlyPage(old(mem), mem, ptbl)
      {
        EntryInPage(ptbl, pn);
        forall k: nat | k < pn ensures Entry(ptbl, k) != Entry(ptbl, pn) { EntriesApart(ptbl, ptbl, k, pn); }
        mem := Store(mem, Entry(ptbl, pn), PteVacant(addr));
        addr := addr + PAGE_SIZE;
      }
      TableWords(mem, ptbl, pdn);
    }

    // The else branch of smmu_get_pte: give a vacant section a table of its own.
    method Expand(pdir: int, pdn: int) returns (ptbl: int)
      requires Index(pdn) && Vacant(mem, pdir, pdn)
      requires Directory(mem, pdir, pageheap) && Room(mem, pdir, pageheap)
      modifies this
      ensures ptbl == old(pageheap) && pageheap == ptbl + PAGE_SIZE && Expanded(old(mem), mem, pdir, pdn, ptbl)
      ensures Directory(mem, pdir, pageheap) && Room(mem, pdir, pageheap)
      ensures !Vacant(mem, pdir, pdn) && ptbl == Table(mem, pdir, pdn) && SameSlots(old(mem), mem, pdir, pdn)
      ensures mem(pdir + 4 * pdn) == 0xF000_0000 + ptbl / 0x1000
      ensures forall k :: 0 <= k < 1024 ==> mem(ptbl + 4 * k) == 0xE000_0000 + 1024 * pdn + k
    {
      hide PdeVacant, PteVacant, PageOf, Entry, MkPde, TableOf, Directory, FreshTable;
      assert pdn in VacantSections(mem, pdir);
      DirectoryPages(mem, pdir, pageheap);
      ptbl := OnePage();
      FillTable(ptbl, pdn);
      EntryInPage(pdir, pdn);
      FreshTableFrame(mem, pdir, pdn, ptbl, MkPde(ptbl));
      mem := Store(mem, Entry(pdir, pdn), MkPde(ptbl));
      ExpandedDirectory(old(mem), mem, pdir, pdn, ptbl);
      VacantSectionsShrink(old(mem), mem, pdir, pdn);
      WordsAre(pdn, 0, ptbl);
      EntryAt(pdir, pdn);
      TableWords(mem, ptbl, pdn);
    }

    // smmu_get_pte
    method GetPte(pdir: int, iova: int) returns (pte: int)
      requires U32(iova) && Directory(mem, pdir, pageheap) && Room(mem, pdir, pageheap)
      modifies this
      ensures Directory(mem, pdir, pageheap) && Room(mem, pdir, pageheap)
      ensures !Vacant(mem, pdir, Pdn(iova)) && pte == Entry(Table(mem, pdir, Pdn(iova)), Low(iova))
      ensures forall a :: U32(a) ==> PteOf(mem, pdir, a) == PteOf(old(mem), pdir, a)
      ensures forall k :: Index(k) && !Vacant(old(mem), pdir, k) ==> !Vacant(mem, pdir, k)
      // in addresses: the table that was there, or a new page if the entry was vacant
      ensures var pdn := iova / 0x40_0000; var pde := old(mem(pdir + 4 * pdn));
              pte == (if pde == 0xE000_0000 + 1024 * pdn then old(pageheap) else pde % 0x10_0000 * 0x1000) + 4 * (iova / 0x1000 % 1024)
    {
      hide PdeVacant, PteOf, Entry, TableOf, Directory, Expanded, Room, Pdn, Low;
      VacantWord(iova / 0x40_0000);
      PteAddress(mem, pdir, iova);
      Indices(iova);
      var ptn, pdn := Low(iova), Pdn(iova);
      var ptbl;
      if mem(Entry(pdir, pdn)) != PdeVacant(pdn) {
        ptbl := TableOf(mem(Entry(pdir, pdn)));
      } else {
        ghost var heap := pageheap;
        ptbl := Expand(pdir, pdn);
        forall a | U32(a) ensures PteOf(mem, pdir, a) == PteOf(old(mem), pdir, a) {
          ExpansionPreserves(old(mem), mem, pdir, pdn, heap, a);
        }
      }
      pte := Entry(ptbl, ptn);
    }

    // smmu_map
    method Map(pdir: int, addr: int, page: int, cnt: int, attr: nat)
      requires U32(addr) && U32(page) && addr % PAGE_SIZE == 0 && cnt <= FRAMES
      requires Directory(mem, pdir, pageheap) && Room(mem, pdir, pageheap)
      modifies this
      ensures Directory(mem, pdir, pageheap) && Room(mem, pdir, pageheap)
      ensures MappedTo(old(mem), mem, pdir, addr, page, cnt, attr) && WordsMapped(mem, pdir, addr, page, cnt, attr)
    {
      hide PteOf, Entry, TableOf, Directory, Room, Pdn, Low, Or, Advance, MappedTo, PdeVacant, WordMapped;
      var va, pa := addr, page;
      AdvanceZero(addr);
      AdvanceZero(page);
      NothingMapped(mem, pdir, addr, page, 0, attr);
      var i := 0;
      while i < cnt
        invariant 0 <= i && (i <= cnt || cnt < 0) && (cnt < 0 ==> i == 0)
        invariant va == Advance(addr, i) && pa == Advance(page, i) && U32(va) && U32(pa)
        invariant Directory(mem, pdir, pageheap) && Room(mem, pdir, pageheap)
        invariant MappedTo(old(mem), mem, pdir, addr, page, i, attr) && (i == 0 ==> mem == old(mem))
        invariant forall n :: 0 <= n < i ==> Owns(mem, pdir, Advance(addr, n))
      {
        ghost var m := mem;
        var pte := GetPte(pdir, va);
        ghost var m1 := mem;
        Indices(va);
        forall n | 0 <= n <= i ensures Owns(m1, pdir, Advance(addr, n)) {
          if n < i { OwnsStill(m, m1, pdir, Advance(addr, n)); }
        }
        SameMapped(old(mem), m, m1, pdir, addr, page, i, attr);
        mem := Store(mem, pte, Or(Pfn(pa), attr));
        StorePte(m1, pdir, pageheap, va, PteAt(page, i, attr));
        SameRoom(m1, mem, pdir, pageheap);
        OneMoreMapped(old(mem), m1, mem, pdir, addr, page, i, attr);
        forall n | 0 <= n <= i ensures Owns(mem, pdir, Advance(addr, n)) { OwnsStill(m1, mem, pdir, Advance(addr, n)); }
        AdvanceNext(addr, i);
        AdvanceNext(page, i);
        va := (va + PAGE_SIZE) % TWO32;
        pa := (pa + PAGE_SIZE) % TWO32;
        i := i + 1;
      }
      if cnt < 0 { NothingMapped(mem, pdir, addr, page, cnt, attr); }
      forall n | 0 <= n < cnt
        ensures WordMapped(mem, pdir, (addr + 0x1000 * n) % 0x1_0000_0000, (page + 0x1000 * n) % 0x1_0000_0000, attr)
      {
        PageMapped(old(mem), mem, pdir, pageheap, addr, page, cnt, attr, n);
      }
    }
  }

  // The entry of the n-th page of a range mapped to page on.
  function PteAt(page: int, n: int, attr: nat): int { Or(Pfn(Advance(page, n)), attr) }

  // m' translates the first n pages from addr on to those from page on, and the rest as m does.
  ghost predicate MappedTo(m: Mem, m': Mem, pdir: int, addr: int, page: int, n: int, attr: nat) {
    forall a :: U32(a) ==>
      PteOf(m', pdir, a) == (if PageIndex(a, addr) < n then PteAt(page, PageIndex(a, addr), attr) else PteOf(m, pdir, a))
  }

  // In terms of addresses: inside the range a goes to its page's counterpart with the
  // given attributes, outside it goes where it went.
  lemma MapTranslates(m: Mem, m': Mem, pdir: int, addr: int, page: int, n: int, attr: nat, a: int)
    requires MappedTo(m, m', pdir, addr, page, n, attr) && U32(a) && attr % FRAMES == 0 && page % PAGE_SIZE == 0
    ensures var k := (a - addr) % 0x1_0000_0000 / 0x1000; var pte := PteOf(m', pdir, a);
            if k < n then Physical(pte, a) == (page + 0x1000 * k) % 0x1_0000_0000 + a % 0x1000 && Attributes(pte) == attr
            else pte == PteOf(m, pdir, a)
  {
    hide PteOf, Or, Physical, Attributes, PageIndex, Pfn, Advance;
    var k := PageIndex(a, addr);
    PageIndexIs(a, addr);
    AdvanceIs(page, k);
    if k < n {
      AdvanceAligned(page, k);
      MappedEntry(Advance(page, k), a, attr);
    }
  }

  lemma PageIndexIs(a: int, addr: int)
    ensures PageIndex(a, addr) == (a - addr) % 0x1_0000_0000 / 0x1000
  {
  }

  lemma AdvanceAligned(page: int, k: int)
    requires page % PAGE_SIZE == 0
    ensures Aligned(Advance(page, k)) && PageOf(Advance(page, k)) == Advance(page, k)
  {
  }

  // The address n pages further on, modulo 2^32, and which page of a range a lies in.
  function Advance(addr: int, n: int): int { (addr + n * PAGE_SIZE) % TWO32 }
  function PageIndex(a: int, addr: int): int { (a - addr) % TWO32 / PAGE_SIZE }

  lemma NothingMapped(m: Mem, pdir: int, addr: int, page: int, n: int, attr: nat)
    requires n <= 0
    ensures MappedTo(m, m, pdir, addr, page, n, attr)
  {
  }

  lemma SameMapped(m: Mem, m1: Mem, m2: Mem, pdir: int, addr: int, page: int, n: int, attr: nat)
    requires MappedTo(m, m1, pdir, addr, page, n, attr)
    requires forall a :: U32(a) ==> PteOf(m2, pdir, a) == PteOf(m1, pdir, a)
    ensures MappedTo(m, m2, pdir, addr, page, n, attr)
  {
  }

  // One more page of the range.
  lemma OneMoreMapped(m: Mem, m1: Mem, m': Mem, pdir: int, addr: int, page: int, n: int, attr: nat)
    requires U32(addr) && addr % PAGE_SIZE == 0 && 0 <= n < FRAMES
    requires MappedTo(m, m1, pdir, addr, page, n, attr)
    requires forall a :: U32(a) ==> PteOf(m', pdir, a) == if Pfn(a) == Pfn(Advance(addr, n)) then PteAt(page, n, attr) else PteOf(m1, pdir, a)
    ensures MappedTo(m, m', pdir, addr, page, n + 1, attr)
  {
    hide PteOf, PteAt, PageIndex, Pfn, Advance;
    forall a | U32(a)
      ensures PteOf(m', pdir, a) == (if PageIndex(a, addr) < n + 1 then PteAt(page, PageIndex(a, addr), attr) else PteOf(m, pdir, a))
    {
      PageOfRange(a, addr, n);
    }
  }

  lemma AdvanceZero(addr: int)
    requires U32(addr)
    ensures Advance(addr, 0) == addr
  {
  }

  lemma AdvanceNext(addr: int, n: int)
    ensures (Advance(addr, n) + PAGE_SIZE) % TWO32 == Advance(addr, n + 1) && U32(Advance(addr, n + 1))
  {
  }

  lemma AdvancePage(addr: int, n: int)
    requires U32(addr) && addr % PAGE_SIZE == 0
    ensures Pfn(Advance(addr, n)) == (Pfn(addr) + n) % FRAMES
  {
    assert addr + n * PAGE_SIZE == (Pfn(addr) + n) * PAGE_SIZE;
  }

  lemma IndexPage(a: int, addr: int)
    requires addr % PAGE_SIZE == 0
    ensures PageIndex(a, addr) == (Pfn(a) - Pfn(addr)) % FRAMES
  {
    assert a - addr == (Pfn(a) - Pfn(addr)) * PAGE_SIZE + a % PAGE_SIZE;
  }

  lemma Circle(x: int, y: int, n: int)
    requires 0 <= x < FRAMES && 0 <= y < FRAMES && 0 <= n < FRAMES
    ensures x == (y + n) % FRAMES <==> (x - y) % FRAMES == n
  {
  }

  // The n-th page of the range is the one with index n.
  lemma PageOfRange(a: int, addr: int, n: int)
    requires U32(a) && U32(addr) && addr % PAGE_SIZE == 0 && 0 <= n < FRAMES
    ensures Pfn(a) == Pfn(Advance(addr, n)) <==> PageIndex(a, addr) == n
  {
    hide Advance, PageIndex;
    AdvancePage(addr, n);
    IndexPage(a, addr);
    Circle(Pfn(a), Pfn(addr), n);
  }

  lemma DirectoryPages(m: Mem, pdir: int, heap: int)
    requires Directory(m, pdir, heap)
    ensures Aligned(pdir) && Aligned(heap) && pdir < heap
  {
  }

  // Pointing the directory at the table does not disturb the table.
  lemma FreshTableFrame(m: Mem, pdir: int, pdn: int, ptbl: int, w: int)
    requires Aligned(pdir) && Aligned(ptbl) && pdir != ptbl && Index(pdn) && FreshTable(m, ptbl, pdn)
    ensures FreshTable(Store(m, Entry(pdir, pdn), w), ptbl, pdn)
  {
    hide Entry, PteVacant;
    forall k: nat | k < COUNT ensures Entry(ptbl, k) != Entry(pdir, pdn) { EntriesApart(ptbl, pdir, k, pdn); }
  }

  lemma VacantDirectory(m: Mem, pdir: int)
    requires Aligned(pdir) && Aligned(pdir + PAGE_SIZE)
    requires forall k :: Index(k) ==> m(Entry(pdir, k)) == PdeVacant(k)
    ensures Directory(m, pdir, pdir + PAGE_SIZE)
    ensures forall a :: U32(a) ==> PteOf(m, pdir, a) == PteVacant(a)
  {
    hide Entry, PdeVacant, PteVacant, Pdn, Low, IsSection, SectionPte, TableOf, MkPde;
    forall a | U32(a) ensures PteOf(m, pdir, a) == PteVacant(a) {
      Indices(a);
      VacantSection(a);
    }
  }
}
