/** The page allocator and the pages of the processes.

    The ghost field `owner` says for each page of memory who has it: nobody, the kernel, or
    the process in a given slot.  The invariant `Owned` ties it to the system bitmap, to every
    process's protection table and to every process's address range, so that a page is
    marked in at most one protection table and exactly when it belongs to that process.
 */
module Pages {
  import opened Bitmap

  const PAGE_LEN: nat := 1024
  const MEM_MAP_LEN: nat := 4
  const PTABLE_LEN: nat := 32
  const PAGES: nat := 32 * MEM_MAP_LEN
  const FREE_MEM_END: nat := 0x1ffff
  const NULL: int := 0
  const ENOMEM: int := -12
  const EINVAL: int := -22
  const WINIX_ELF_MAGIC: nat := 0x19960503
  const STACK_MAGIC: int := 0x12345678

  const FREE: int := -1
  const KERNEL: int := -2

  /** A slot of the process table; live when the process has memory. */
  datatype Proc = Proc(live: bool, memStart: int, stackTop: int, heapTop: int, heapBreak: int, heapBottom: int,
                       rbase: int, rbaseOffset: int)

  datatype Elf = Elf(magic: nat, offset: nat, size: nat, text: nat, data: nat, bss: nat)

  /** len rounded up to whole pages. */
  function AlignPage(len: int): (r: int)
    ensures r % PAGE_LEN == 0 && len <= r < len + PAGE_LEN
  {
    (len - 1) / PAGE_LEN * PAGE_LEN + PAGE_LEN
  }

  function NumPages(len: int): (n: int)
    ensures n * PAGE_LEN == AlignPage(len) && (len > 0 ==> n > 0) && (len >= 0 ==> n >= 0)
  {
    AlignPage(len) / PAGE_LEN
  }

  /** The beginning of the page that a is in. */
  function PageStart(a: int): int {
    a - a % PAGE_LEN
  }

  // ---------- Ownership ----------

  function Lo(p: Proc): int {
    p.memStart / PAGE_LEN
  }

  function Hi(p: Proc): int {
    (p.heapBottom + 1) / PAGE_LEN
  }

  predicate Has(p: Proc, k: nat) {
    p.live && Lo(p) <= k < Hi(p)
  }

  /** What holds of every process's addresses. */
  ghost predicate Placed(p: Proc) {
    p.live ==>
      && p.memStart % PAGE_LEN == 0 && (p.heapBottom + 1) % PAGE_LEN == 0
      && 0 < Lo(p) < Hi(p) < PAGES
      && p.heapBreak <= p.heapBottom && p.rbase == p.memStart - p.rbaseOffset
  }

  /** The protection table of the process in slot i covers exactly the pages it owns. */
  ghost predicate TableOf(t: Map, owner: seq<int>, i: int) {
    |t| == PTABLE_LEN && |owner| == PAGES
    && forall k :: 0 <= k < 32 * PTABLE_LEN ==> (BitOn(t, k) <==> k < PAGES && owner[k] == i)
  }

  ghost predicate RangeOf(p: Proc, owner: seq<int>, i: int) {
    |owner| == PAGES && Placed(p) && forall k :: 0 <= k < PAGES ==> (Has(p, k) <==> owner[k] == i)
  }

  /** The system bitmap marks exactly the pages that someone owns. */
  ghost predicate MarksOwned(mem: Map, owner: seq<int>) {
    |mem| == MEM_MAP_LEN && |owner| == PAGES && forall k :: 0 <= k < PAGES ==> (BitOn(mem, k) <==> owner[k] != FREE)
  }

  /** The kernel's own image, and the last page, are never given away. */
  ghost predicate Reserved(owner: seq<int>, bss: int) {
    && |owner| == PAGES && 1 <= bss < PAGES
    && forall k :: 0 <= k < PAGES && (k < bss || k == PAGES - 1) ==> owner[k] == KERNEL
  }

  ghost predicate Owned(mem: Map, tabs: seq<Map>, procs: seq<Proc>, owner: seq<int>, bss: int) {
    && |tabs| == |procs| && |owner| == PAGES && MarksOwned(mem, owner) && Reserved(owner, bss)
    && (forall k :: 0 <= k < |owner| ==> KERNEL <= owner[k] < |procs|)
    && forall i :: 0 <= i < |procs| ==> TableOf(tabs[i], owner, i) && RangeOf(procs[i], owner, i)
  }

  /** Pages lo up to hi change hands. */
  function Given(owner: seq<int>, lo: int, hi: int, who: int): (r: seq<int>)
    ensures |r| == |owner| && forall k :: 0 <= k < |r| ==> r[k] == if lo <= k < hi then who else owner[k]
  {
    seq(|owner|, k requires 0 <= k < |owner| => if lo <= k < hi then who else owner[k])
  }

  /** A run of clear bits is free, and ends before the last page. */
  lemma {:induction false} ClearIsFree(mem: Map, owner: seq<int>, bss: int, lo: nat, n: nat)
    requires MarksOwned(mem, owner) && Reserved(owner, bss) && 1 <= n && lo + n <= PAGES && Clear(mem, lo, n)
    ensures lo >= bss && lo + n < PAGES && forall k :: lo <= k < lo + n ==> owner[k] == FREE
  {
    hide BitOn;
    assert !BitOn(mem, lo);
    assert BitOn(mem, PAGES - 1);
  }

  lemma {:induction false} MarksAfter(mem: Map, mem': Map, owner: seq<int>, lo: nat, hi: int, who: int)
    requires MarksOwned(mem, owner) && Painted(mem', mem, lo, hi, who != FREE)
    ensures MarksOwned(mem', Given(owner, lo, hi, who))
  {
    hide BitOn;
  }

  lemma {:induction false} ReservedAfter(owner: seq<int>, bss: int, lo: nat, hi: int, who: int)
    requires Reserved(owner, bss) && (lo >= hi || (bss <= lo && hi < PAGES) || who == KERNEL)
    ensures Reserved(Given(owner, lo, hi, who), bss)
  {
  }

  lemma {:induction false} OtherTable(t: Map, p: Proc, owner: seq<int>, lo: nat, hi: int, who: int, j: nat)
    requires TableOf(t, owner, j) && RangeOf(p, owner, j) && who != j
    requires forall k :: lo <= k < hi && k < PAGES ==> owner[k] != j
    ensures TableOf(t, Given(owner, lo, hi, who), j) && RangeOf(p, Given(owner, lo, hi, who), j)
  {
    hide BitOn, Has, Placed;
  }

  lemma {:induction false} GrownTable(t: Map, t': Map, owner: seq<int>, lo: nat, hi: int, i: nat)
    requires TableOf(t, owner, i) && Painted(t', t, lo, hi, true) && hi <= PAGES
    ensures TableOf(t', Given(owner, lo, hi, i), i)
  {
    hide BitOn;
  }

  lemma {:induction false} GrownRange(p: Proc, p': Proc, owner: seq<int>, lo: nat, hi: int, i: nat)
    requires RangeOf(p, owner, i) && hi <= PAGES && Placed(p')
    requires forall k :: 0 <= k < PAGES ==> (Has(p', k) <==> Has(p, k) || lo <= k < hi)
    ensures RangeOf(p', Given(owner, lo, hi, i), i)
  {
    hide Has, Placed;
  }

  /** The process in slot i gets free pages. */
  lemma {:induction false} Claim(mem: Map, tabs: seq<Map>, procs: seq<Proc>, owner: seq<int>, bss: int,
                                 i: nat, lo: nat, n: nat, mem': Map, t: Map, p: Proc)
    requires Owned(mem, tabs, procs, owner, bss) && i < |procs|
    requires 1 <= n && lo + n <= PAGES && Clear(mem, lo, n)
    requires Painted(mem', mem, lo, lo + n, true) && Painted(t, tabs[i], lo, lo + n, true)
    requires Placed(p) && forall k :: 0 <= k < PAGES ==> (Has(p, k) <==> Has(procs[i], k) || lo <= k < lo + n)
    ensures Owned(mem', tabs[i := t], procs[i := p], Given(owner, lo, lo + n, i), bss)
  {
    hide MarksOwned, Painted, Clear, Placed, Has, Reserved, TableOf, RangeOf;
    ClearIsFree(mem, owner, bss, lo, n);
    MarksAfter(mem, mem', owner, lo, lo + n, i);
    ReservedAfter(owner, bss, lo, lo + n, i);
    var o, ts, ps := Given(owner, lo, lo + n, i), tabs[i := t], procs[i := p];
    forall j | 0 <= j < |procs|
      ensures TableOf(ts[j], o, j) && RangeOf(ps[j], o, j)
    {
      if j == i {
        GrownTable(tabs[i], t, owner, lo, lo + n, i);
        GrownRange(procs[i], p, owner, lo, lo + n, i);
      } else {
        OtherTable(tabs[j], procs[j], owner, lo, lo + n, i, j);
      }
    }
  }

  /** Pages pass between the kernel and the free pool. */
  lemma {:induction false} KernelShare(mem: Map, tabs: seq<Map>, procs: seq<Proc>, owner: seq<int>, bss: int,
                                       lo: nat, n: nat, mem': Map, who: int)
    requires Owned(mem, tabs, procs, owner, bss) && (who == KERNEL || (who == FREE && (n == 0 || (bss <= lo && lo + n < PAGES))))
    requires lo + n <= PAGES && Painted(mem', mem, lo, lo + n, who == KERNEL)
    requires forall k :: lo <= k < lo + n ==> owner[k] < 0
    ensures Owned(mem', tabs, procs, Given(owner, lo, lo + n, who), bss)
  {
    hide MarksOwned, Painted, Reserved, TableOf, RangeOf;
    MarksAfter(mem, mem', owner, lo, lo + n, who);
    ReservedAfter(owner, bss, lo, lo + n, who);
    var o := Given(owner, lo, lo + n, who);
    forall j | 0 <= j < |procs|
      ensures TableOf(tabs[j], o, j) && RangeOf(procs[j], o, j)
    {
      OtherTable(tabs[j], procs[j], owner, lo, lo + n, who, j);
    }
  }

  /** The process in slot i gives up all it has. */
  lemma {:induction false} Disown(mem: Map, tabs: seq<Map>, procs: seq<Proc>, owner: seq<int>, bss: int,
                                  i: nat, mem': Map, t: Map)
    requires Owned(mem, tabs, procs, owner, bss) && i < |procs| && procs[i].live
    requires |t| == PTABLE_LEN && Clear(t, 0, 32 * PTABLE_LEN)
    requires 0 <= Lo(procs[i]) && Painted(mem', mem, Lo(procs[i]), Hi(procs[i]), false)
    ensures Owned(mem', tabs[i := t], procs[i := procs[i].(live := false)],
                  Given(owner, Lo(procs[i]), Hi(procs[i]), FREE), bss)
  {
    hide MarksOwned, Painted, Reserved;
    var lo, hi := Lo(procs[i]), Hi(procs[i]);
    OwnRange(procs[i], owner, bss, i);
    MarksAfter(mem, mem', owner, lo, hi, FREE);
    ReservedAfter(owner, bss, lo, hi, FREE);
    var o := Given(owner, lo, hi, FREE);
    assert RangeOf(procs[i].(live := false), o, i) && TableOf(t, o, i) by {
      EmptyTable(procs[i], t, owner, i);
    }
    hide TableOf, RangeOf;
    var ts, ps := tabs[i := t], procs[i := procs[i].(live := false)];
    forall j | 0 <= j < |procs|
      ensures TableOf(ts[j], o, j) && RangeOf(ps[j], o, j)
    {
      if j != i {
        OtherTable(tabs[j], procs[j], owner, lo, hi, FREE, j);
      }
    }
  }

  lemma {:induction false} OwnRange(p: Proc, owner: seq<int>, bss: int, i: nat)
    requires RangeOf(p, owner, i) && p.live && Reserved(owner, bss)
    ensures bss <= Lo(p) < Hi(p) < PAGES && forall k :: Lo(p) <= k < Hi(p) ==> owner[k] == i
  {
    assert Has(p, Lo(p));
  }

  lemma {:induction false} EmptyTable(p: Proc, t: Map, owner: seq<int>, i: nat)
    requires RangeOf(p, owner, i) && p.live && |t| == PTABLE_LEN && Clear(t, 0, 32 * PTABLE_LEN)
    ensures var o := Given(owner, Lo(p), Hi(p), FREE); TableOf(t, o, i) && RangeOf(p.(live := false), o, i)
  {
    hide BitOn;
    forall k | 0 <= k < PAGES
      ensures Given(owner, Lo(p), Hi(p), FREE)[k] != i
    {
      assert Has(p, k) <==> owner[k] == i;
    }
  }

  function FirstOwners(bss: nat): (r: seq<int>)
    ensures |r| == PAGES && forall k :: 0 <= k < PAGES ==> r[k] == if k < bss || k == PAGES - 1 then KERNEL else FREE
  {
    seq(PAGES, k => if k < bss || k == PAGES - 1 then KERNEL else FREE)
  }

  lemma {:induction false} FirstTable(t: Map, p: Proc, bss: nat, i: nat)
    requires |t| == PTABLE_LEN && Clear(t, 0, 32 * PTABLE_LEN) && !p.live
    ensures TableOf(t, FirstOwners(bss), i) && RangeOf(p, FirstOwners(bss), i)
  {
    hide BitOn;
  }

  method InitMap(m: array<bv32>, len: nat)
    requires m.Length == MEM_MAP_LEN && 1 <= len < PAGES
    modifies m
    ensures MarksOwned(m[..], FirstOwners(len)) && Reserved(FirstOwners(len), len)
  {
    hide Painted, Clear, MaskAt, BitOn, Lit;
    ClearAll(m);
    ghost var m0 := m[..];
    var _ := SetBits(m, 0, len);
    ghost var m1 := m[..];
    var last := FREE_MEM_END / PAGE_LEN;
    m[last / 32] := Lit(m[last / 32], MaskAt(last % 32));
    FirstMarks(m0, m1, m[..], len);
  }

  lemma {:induction false} FirstMarks(m0: Map, m1: Map, m2: Map, len: nat)
    requires |m0| == MEM_MAP_LEN && Clear(m0, 0, PAGES) && 1 <= len < PAGES && Painted(m1, m0, 0, len, true)
    requires m2 == WithBit(m1, PAGES - 1)
    ensures MarksOwned(m2, FirstOwners(len))
  {
    hide BitOn, WithBit;
    forall k: nat | k < PAGES
      ensures BitOn(m2, k) <==> k < len || k == PAGES - 1
    {
      SetChangesOne(m1, PAGES - 1, k);
    }
  }

  ghost predicate Distinct(memMap: array<bv32>, ptables: seq<array<bv32>>) {
    && memMap.Length == MEM_MAP_LEN
    && (forall i :: 0 <= i < |ptables| ==> ptables[i] != memMap && ptables[i].Length == PTABLE_LEN)
    && forall i, j :: 0 <= i < j < |ptables| ==> ptables[i] != ptables[j]
  }

  function ProcLen(elf: Elf, stack: nat, heap: nat): nat {
    stack + AlignPage(elf.size + elf.bss) + heap
  }

  /** The layout of a freshly loaded process: stack, text and data, bss, heap. */
  ghost predicate Loaded(p: Proc, elf: Elf, stack: nat, heap: nat) {
    && p.live && p.stackTop == p.memStart
    && p.heapTop == p.heapBreak == p.memStart + stack + AlignPage(elf.size + elf.bss)
    && p.heapBottom == p.memStart + ProcLen(elf, stack, heap) - 1
    && p.rbase + elf.offset == p.memStart + stack && p.rbaseOffset == elf.offset - stack
  }

  lemma {:induction false} LoadedPlaced(p: Proc, elf: Elf, stack: nat, heap: nat)
    requires Loaded(p, elf, stack, heap) && stack % PAGE_LEN == 0 && heap % PAGE_LEN == 0 && stack > 0 && heap > 0
    requires p.memStart % PAGE_LEN == 0 && 0 < Lo(p) && Lo(p) + NumPages(ProcLen(elf, stack, heap)) < PAGES
    ensures Placed(p) && Hi(p) == Lo(p) + NumPages(ProcLen(elf, stack, heap))
    ensures p.memStart + ProcLen(elf, stack, heap) <= PAGES * PAGE_LEN
  {
  }

  /** In a fresh process everything is zero except the room for text and data, and beyond bss. */
  ghost predicate Zeroed(old_: seq<int>, new_: seq<int>, m: int, elf: Elf, stack: nat, heap: nat) {
    |old_| == |new_| && forall k :: 0 <= k < |new_| ==>
      var bss, top := m + stack + elf.size, m + stack + AlignPage(elf.size + elf.bss);
      new_[k] == if m <= k < m + stack || bss <= k < bss + elf.bss || top <= k < top + heap then 0 else old_[k]
  }

  lemma {:induction false} NothingGiven(owner: seq<int>, at: int, who: int)
    ensures Given(owner, at, at, who) == owner
  {
  }

  /** The break can move by size: down to the heap's top, up within the pages the process has, or
      further when the pages after them are free. */
  ghost predicate Extensible(mem: Map, p: Proc, size: int)
  {
    var need := p.heapBreak + size - p.heapBottom;
    if size < 0 then
      Shrinks(p, size)
    else
      need <= 0 || (0 <= Hi(p) && Hi(p) + NumPages(need) <= 32 * |mem| && Clear(mem, Hi(p), NumPages(need)))
  }

  /** The process with its break moved by size and the fewest pages that then suffice. */
  function Extended(p: Proc, size: int): Proc {
    var need := p.heapBreak + size - p.heapBottom;
    p.(heapBreak := p.heapBreak + size, heapBottom := p.heapBottom + if need <= 0 then 0 else AlignPage(need))
  }

  lemma {:induction false} ExtendedPlaced(p: Proc, size: int)
    requires Placed(p) && p.live && p.heapBreak + size > p.heapBottom
    ensures var q := Extended(p, size); var num := NumPages(p.heapBreak + size - p.heapBottom);
      Lo(q) == Lo(p) && Hi(q) == Hi(p) + num && (Hi(q) < PAGES ==> Placed(q)) && num > 0
  {
  }

  lemma {:induction false} ExtendedIs(p: Proc, size: int)
    requires p.heapBreak + size > p.heapBottom
    ensures var need := p.heapBreak + size - p.heapBottom;
      && Extended(p, size) == p.(heapBreak := p.heapBreak + size, heapBottom := p.heapBottom + AlignPage(need)) && NumPages(need) >= 0
  {
  }

  lemma {:induction false} HiPage(p: Proc)
    requires Placed(p) && p.live
    ensures 0 < Hi(p) < PAGES && Hi(p) == (p.heapBottom + 1) / PAGE_LEN && p.heapBottom + 1 >= 0 && PageStart(p.heapBottom + 1) == p.heapBottom + 1
  {
  }

  ghost predicate MovedBy(p: Proc, q: Proc, size: int) {
    && q == p.(heapBreak := p.heapBreak + size, heapBottom := q.heapBottom) && q.heapBreak <= q.heapBottom
    && p.heapBottom <= q.heapBottom && (q.heapBottom + 1) % PAGE_LEN == 0
    && (q.heapBottom > p.heapBottom ==> q.heapBottom - PAGE_LEN < q.heapBreak)
  }

  lemma {:induction false} ExtendedMoved(p: Proc, size: int)
    requires Placed(p) && p.live
    ensures MovedBy(p, Extended(p, size), size)
  {
  }

  /** len words from src appear at dest; every other word is as it was. */
  ghost predicate Copied(old_: seq<int>, new_: seq<int>, src: int, dest: int, len: int) {
    && |old_| == |new_| && 0 <= src && src + len <= |old_| && 0 <= dest && dest + len <= |new_|
    && forall k :: 0 <= k < |new_| ==> CopiedWord(old_, new_, src, dest, len, k)
  }

  ghost predicate CopiedWord(old_: seq<int>, new_: seq<int>, src: int, dest: int, len: int, k: nat) {
    k < |old_| == |new_| && new_[k] == if dest <= k < dest + len && 0 <= k - dest + src < |old_| then old_[k - dest + src] else old_[k]
  }

  /** The child of p with its image at m.  heapTop is the parent's: fork does not move it. */
  function Forked(p: Proc, m: int): Proc {
    var rbase := m - p.rbaseOffset;
    Proc(true, m, m, p.heapTop, p.heapBreak - p.rbase + rbase, p.heapBottom - p.rbase + rbase, rbase, p.rbaseOffset)
  }

  /** The addresses of q, less its base, are those of p, less p's base, except for the top of the heap; and the words of the two
      images at the same virtual address are the same. */
  ghost predicate Mirrors(ram: seq<int>, p: Proc, q: Proc) {
    && q.live && q.rbaseOffset == p.rbaseOffset && q.heapTop == p.heapTop
    && q.memStart - q.rbase == p.memStart - p.rbase && q.stackTop == q.memStart
    && q.heapBreak - q.rbase == p.heapBreak - p.rbase && q.heapBottom - q.rbase == p.heapBottom - p.rbase
    && forall va :: p.memStart <= va + p.rbase <= p.heapBottom ==> SeenAlike(ram, p, q, va)
  }

  ghost predicate SeenAlike(ram: seq<int>, p: Proc, q: Proc, va: int) {
    0 <= va + p.rbase < |ram| && 0 <= va + q.rbase < |ram| && ram[va + q.rbase] == ram[va + p.rbase]
  }

  lemma {:induction false} CopiedAt(was: seq<int>, ram: seq<int>, src: int, dest: int, len: int, k: int)
    requires Copied(was, ram, src, dest, len) && 0 <= k < |ram|
    ensures ram[k] == if dest <= k < dest + len then was[k - dest + src] else was[k]
  {
    assert CopiedWord(was, ram, src, dest, len, k);
  }

  lemma {:induction false} ForkedMirrors(was: seq<int>, ram: seq<int>, p: Proc, m: int)
    requires Placed(p) && p.live && Copied(was, ram, p.memStart, m, p.heapBottom + 1 - p.memStart)
    requires p.heapBottom < m || m + (p.heapBottom + 1 - p.memStart) <= p.memStart
    ensures Mirrors(ram, p, Forked(p, m))
  {
    assert 0 <= p.memStart && p.heapBottom < |ram| && 0 <= m && m + (p.heapBottom + 1 - p.memStart) <= |ram|;
    hide Copied;
    var q := Forked(p, m);
    forall va | p.memStart <= va + p.rbase <= p.heapBottom
      ensures SeenAlike(ram, p, q, va)
    {
      CopiedAt(was, ram, p.memStart, m, p.heapBottom + 1 - p.memStart, va + q.rbase);
      CopiedAt(was, ram, p.memStart, m, p.heapBottom + 1 - p.memStart, va + p.rbase);
    }
  }

  lemma {:induction false} WholePages(p: Proc)
    requires Placed(p) && p.live
    ensures var len := p.heapBottom + 1 - p.memStart;
      len == (Hi(p) - Lo(p)) * PAGE_LEN && len > 0 && len % PAGE_LEN == 0 && NumPages(len) == Hi(p) - Lo(p)
    ensures p.memStart == Lo(p) * PAGE_LEN && p.heapBottom + 1 == Hi(p) * PAGE_LEN
  {
  }

  lemma {:induction false} PlacedRange(p: Proc)
    requires Placed(p) && p.live
    ensures 0 < Lo(p) < Hi(p) < PAGES && 0 < p.memStart
  {
  }

  /** Page ranges that do not meet, as addresses. */
  lemma {:induction false} ImagesApart(p: Proc, m: int)
    requires Placed(p) && p.live && m % PAGE_LEN == 0 && 0 < m / PAGE_LEN && m / PAGE_LEN + Hi(p) - Lo(p) < PAGES
    requires m / PAGE_LEN + Hi(p) - Lo(p) <= Lo(p) || Hi(p) <= m / PAGE_LEN
    ensures var len := p.heapBottom + 1 - p.memStart;
      && 0 < p.memStart && 0 < m && p.memStart + len <= PAGES * PAGE_LEN && m + len <= PAGES * PAGE_LEN
      && (p.memStart + len <= m || m + len <= p.memStart)
  {
  }

  lemma {:induction false} ForkedPlaced(p: Proc, m: int)
    requires Placed(p) && p.live && m % PAGE_LEN == 0 && 0 < m / PAGE_LEN && m / PAGE_LEN + Hi(p) - Lo(p) < PAGES
    ensures var q := Forked(p, m);
      Placed(q) && q.live && q.memStart == m && Lo(q) == m / PAGE_LEN && Hi(q) == m / PAGE_LEN + Hi(p) - Lo(p)
  {
  }

  /** The heaps of p and q can shrink by the same amounts. */
  ghost predicate ShrinkAlike(p: Proc, q: Proc) {
    forall size :: size < 0 ==> (Shrinks(p, size) <==> Shrinks(q, size))
  }

  predicate Shrinks(p: Proc, size: int) {
    p.heapBreak + size >= p.heapTop
  }

  /** There are free pages for a copy of p so low that its break, moved along, is not above p's heap top. */
  ghost predicate RoomLowEnough(m: Map, p: Proc) {
    exists q: nat :: LowRoom(m, p, q)
  }

  ghost predicate LowRoom(m: Map, p: Proc, q: nat) {
    && 0 <= Hi(p) - Lo(p) && q + (Hi(p) - Lo(p)) <= 32 * |m| && Clear(m, q, Hi(p) - Lo(p))
    && p.heapBreak + (q - Lo(p)) * PAGE_LEN <= p.heapTop
  }

  /** fork leaves heapTop behind.  So the child's heap shrinks like the parent's never if the parent's can shrink at all, and otherwise
      exactly if there is room low enough; for a parent whose break is at its heap top, this is to say lower than the parent. */
  lemma {:induction false} ForkedHeapShrinks(m: Map, p: Proc, a: int)
    requires Placed(p) && p.live && |m| == MEM_MAP_LEN && a % PAGE_LEN == 0 && a != p.memStart && a >= 0
    requires a / PAGE_LEN + Hi(p) - Lo(p) <= PAGES && Clear(m, a / PAGE_LEN, Hi(p) - Lo(p)) && ExtremeRun(m, a / PAGE_LEN, Hi(p) - Lo(p), false)
    ensures ShrinkAlike(p, Forked(p, a)) <==> p.heapBreak <= p.heapTop && RoomLowEnough(m, p)
  {
    hide Clear;
    var q, r, num := Forked(p, a), a / PAGE_LEN, Hi(p) - Lo(p);
    assert q.heapBreak == p.heapBreak + (r - Lo(p)) * PAGE_LEN;
    LowEnoughIff(m, p, r);
    if p.heapBreak > p.heapTop && p.heapBreak > q.heapBreak {
      assert Shrinks(p, p.heapTop - p.heapBreak) && !Shrinks(q, p.heapTop - p.heapBreak);
    } else if q.heapBreak > p.heapTop && q.heapBreak > p.heapBreak {
      assert Shrinks(q, p.heapTop - q.heapBreak) && !Shrinks(p, p.heapTop - q.heapBreak);
    }
  }

  lemma {:induction false} ForkedBreak(m: Map, p: Proc, a: int)
    requires Placed(p) && p.live && |m| == MEM_MAP_LEN && a % PAGE_LEN == 0 && a >= 0
    requires a / PAGE_LEN + Hi(p) - Lo(p) <= PAGES && Clear(m, a / PAGE_LEN, Hi(p) - Lo(p)) && ExtremeRun(m, a / PAGE_LEN, Hi(p) - Lo(p), false)
    ensures Forked(p, a).heapBreak <= p.heapTop <==> RoomLowEnough(m, p)
  {
    LowEnoughIff(m, p, a / PAGE_LEN);
  }

  lemma {:induction false} RoomIsRoom(m: Map, p: Proc)
    requires Placed(p) && p.live && RoomLowEnough(m, p)
    ensures 0 < Hi(p) - Lo(p) && !NoRoomFor(m, Hi(p) - Lo(p))
  {
    var q: nat :| LowRoom(m, p, q);
    assert Clear(m, q, Hi(p) - Lo(p));
  }

  lemma {:induction false} LowEnoughIff(m: Map, p: Proc, r: nat)
    requires Placed(p) && p.live && |m| == MEM_MAP_LEN && r + Hi(p) - Lo(p) <= PAGES
    requires Clear(m, r, Hi(p) - Lo(p)) && ExtremeRun(m, r, Hi(p) - Lo(p), false)
    ensures RoomLowEnough(m, p) <==> p.heapBreak + (r - Lo(p)) * PAGE_LEN <= p.heapTop
  {
    hide Clear;
    if RoomLowEnough(m, p) {
      var q: nat :| LowRoom(m, p, q);
      assert r <= q;
    } else {
      assert !LowRoom(m, p, r);
    }
  }

  /** What the invariant says of one page and one process: the protection table covers exactly the
      process's range, inside memory that the system bitmap marks and that no other process covers. */
  lemma {:induction false} PageOwnership(mem: Map, tabs: seq<Map>, procs: seq<Proc>, owner: seq<int>, bss: int,
                                         i: nat, j: nat, k: nat)
    requires Owned(mem, tabs, procs, owner, bss) && i < |procs| && j < |procs| && k < PAGES
    ensures |tabs[i]| == PTABLE_LEN == |tabs[j]| && |mem| == MEM_MAP_LEN
    ensures BitOn(tabs[i], k) <==> Has(procs[i], k)
    ensures BitOn(tabs[i], k) ==> BitOn(mem, k) && bss <= k < PAGES - 1
    ensures BitOn(tabs[i], k) && BitOn(tabs[j], k) ==> i == j
    ensures procs[i].live && procs[j].live && i != j ==>
      procs[i].heapBottom < procs[j].memStart || procs[j].heapBottom < procs[i].memStart
  {
    hide BitOn;
    assert TableOf(tabs[i], owner, i) && RangeOf(procs[i], owner, i);
    assert TableOf(tabs[j], owner, j) && RangeOf(procs[j], owner, j);
    if procs[i].live && procs[j].live && i != j {
      var lo := if Lo(procs[i]) < Lo(procs[j]) then Lo(procs[j]) else Lo(procs[i]);
      assert !(Has(procs[i], lo) && Has(procs[j], lo));
    }
  }

  /** Moving the break within the pages changes nothing about them. */
  lemma {:induction false} BreakMoves(mem: Map, tabs: seq<Map>, procs: seq<Proc>, owner: seq<int>, bss: int, i: nat, brk: int)
    requires Owned(mem, tabs, procs, owner, bss) && i < |procs| && procs[i].live && brk <= procs[i].heapBottom
    ensures Owned(mem, tabs, procs[i := procs[i].(heapBreak := brk)], owner, bss)
  {
    hide MarksOwned, Reserved, TableOf;
    var p := procs[i].(heapBreak := brk);
    assert RangeOf(procs[i], owner, i);
    assert RangeOf(p, owner, i) by {
      forall k | 0 <= k < PAGES
        ensures Has(p, k) <==> owner[k] == i
      {
        assert Has(procs[i], k) <==> owner[k] == i;
      }
    }
    hide RangeOf;
    var ps := procs[i := p];
    forall j | 0 <= j < |ps|
      ensures TableOf(tabs[j], owner, j) && RangeOf(ps[j], owner, j)
    {
    }
  }

  /** A slot without memory may hold anything, as long as its protection table is clear. */
  lemma {:induction false} IdleSlot(mem: Map, tabs: seq<Map>, procs: seq<Proc>, owner: seq<int>, bss: int, j: nat, t: Map, p: Proc)
    requires Owned(mem, tabs, procs, owner, bss) && j < |procs| && !procs[j].live && !p.live
    requires |t| == PTABLE_LEN && Clear(t, 0, 32 * PTABLE_LEN)
    ensures Owned(mem, tabs[j := t], procs[j := p], owner, bss)
  {
    hide BitOn, MarksOwned, Reserved;
    var ts, ps := tabs[j := t], procs[j := p];
    assert RangeOf(procs[j], owner, j);
    assert forall k :: 0 <= k < PAGES ==> owner[k] != j by {
      forall k | 0 <= k < PAGES
        ensures owner[k] != j
      {
        assert !Has(procs[j], k);
      }
    }
    assert TableOf(t, owner, j) && RangeOf(p, owner, j);
    hide TableOf, RangeOf;
    forall i | 0 <= i < |procs|
      ensures TableOf(ts[i], owner, i) && RangeOf(ps[i], owner, i)
    {
    }
  }

  /** A run that is free does not meet the pages of a process. */
  lemma {:induction false} ChildApart(mem: Map, mem': Map, tabs: seq<Map>, t: Map, procs: seq<Proc>, owner: seq<int>, bss: int,
                                      i: nat, j: nat, a: int, num: nat)
    requires Owned(mem, tabs, procs, owner, bss) && i < |procs| && procs[i].live && j < |tabs|
    requires UserTaken(mem, mem', tabs[j], t, a, num)
    ensures a / PAGE_LEN + num <= Lo(procs[i]) || Hi(procs[i]) <= a / PAGE_LEN
  {
    hide Clear, Painted, MarksOwned, TableOf;
    ClearIsFree(mem, owner, bss, a / PAGE_LEN, num);
    OwnRange(procs[i], owner, bss, i);
    assert owner[Lo(procs[i])] == i && owner[a / PAGE_LEN] == FREE;
  }

  class Memory {
    const memMap: array<bv32>
    const ptables: seq<array<bv32>>
    const ram: array<int>
    var bssPageEnd: nat
    var procs: seq<Proc>
    ghost var owner: seq<int>

    ghost function Tables(): (r: seq<Map>)
      reads ptables
      ensures |r| == |ptables| && forall i :: 0 <= i < |r| ==> r[i] == ptables[i][..]
    {
      seq(|ptables|, i requires 0 <= i < |ptables| reads ptables => ptables[i][..])
    }

    ghost predicate Valid()
      reads this, memMap, ptables
    {
      && Distinct(memMap, ptables) && ram.Length == PAGES * PAGE_LEN && |procs| == |ptables|
      && Owned(memMap[..], Tables(), procs, owner, bssPageEnd)
    }

    /** get_free_pages.  It fails exactly when there is no run long enough; the run it finds is the
        lowest one, or the highest, and is always marked. */
    method GetFreePages(length: nat, high: bool) returns (p: int)
      requires Valid()
      modifies memMap
      ensures p == NULL ==> memMap[..] == old(memMap[..]) && NoRoomFor(memMap[..], NumPages(length))
      ensures p != NULL ==> Taken(old(memMap[..]), memMap[..], p, NumPages(length))
      ensures p != NULL ==> ExtremeRun(old(memMap[..]), p / PAGE_LEN, NumPages(length), high)
    {
      hide Clear, NoRun, BitOn, Fenced, Painted, TableOf, RangeOf, MarksOwned, Reserved;
      var num := NumPages(length);
      var nstart;
      EdgesOn(memMap[..], owner, bssPageEnd);
      if num >= PAGES {
        NothingThatLong(memMap[..], bssPageEnd, num);
      }
      if high {
        nstart := SearchReverse(memMap[..], num);
      } else {
        nstart := SearchFrom(memMap[..], bssPageEnd, num);
        if 1 <= num < PAGES {
          NoRunBelow(memMap[..], bssPageEnd, if nstart == ERR then PAGES - num else nstart - 1, num);
        }
      }
      if nstart >= 0 {
        FencedRun(memMap[..], bssPageEnd, nstart, num);
        var _ := SetBits(memMap, nstart, num);
        return nstart * PAGE_LEN;
      }
      return NULL;
    }

    /** user_get_free_pages: the run is also marked in the protection table of slot i. */
    method UserGetFreePages(i: nat, length: nat, high: bool) returns (p: int)
      requires Valid() && i < |ptables|
      modifies memMap, ptables[i]
      ensures if p == NULL
        then memMap[..] == old(memMap[..]) && ptables[i][..] == old(ptables[i][..]) && NoRoomFor(memMap[..], NumPages(length))
        else UserTaken(old(memMap[..]), memMap[..], old(ptables[i][..]), ptables[i][..], p, NumPages(length))
             && ExtremeRun(old(memMap[..]), p / PAGE_LEN, NumPages(length), high)
    {
      hide NoRoomFor, ExtremeRun, Owned, Clear, Painted;
      p := GetFreePages(length, high);
      if p == NULL {
        return NULL;
      }
      var index := p / PAGE_LEN;
      var pageNum := NumPages(length);
      var r := SetBits(ptables[i], index, pageNum);
      if r == ERR {
        return NULL;
      }
    }

    /** is_pages_free_from.  The last page stops the scan before the map ends. */
    method IsPagesFreeFrom(addr: nat, size: nat) returns (r: bool)
      requires Valid() && addr / PAGE_LEN < PAGES
      ensures r <==> addr / PAGE_LEN + NumPages(size) <= PAGES && Clear(memMap[..], addr / PAGE_LEN, NumPages(size))
    {
      hide BitOn, Painted;
      EdgesOn(memMap[..], owner, bssPageEnd);
      var paged, pageNum := addr / PAGE_LEN, NumPages(size);
      for i := 0 to pageNum
        invariant paged == addr / PAGE_LEN + i < PAGES
        invariant Clear(memMap[..], addr / PAGE_LEN, i)
      {
        var on := IsBitOn(memMap[..], 0, paged);
        if on {
          return false;
        }
        paged := paged + 1;
      }
      r := true;
    }

    /** user_get_free_pages_from: from the beginning of the page of addr on. */
    method UserGetFreePagesFrom(i: nat, addr: nat, size: nat) returns (err: int)
      requires Valid() && i < |ptables| && 0 < addr / PAGE_LEN < PAGES && size > 0
      modifies memMap, ptables[i]
      ensures err == OK || err == ENOMEM
      ensures err == OK <==> addr / PAGE_LEN + NumPages(size) <= PAGES && Clear(old(memMap[..]), addr / PAGE_LEN, NumPages(size))
      ensures if err == OK
        then UserTaken(old(memMap[..]), memMap[..], old(ptables[i][..]), ptables[i][..], PageStart(addr), NumPages(size))
        else memMap[..] == old(memMap[..]) && ptables[i][..] == old(ptables[i][..])
    {
      hide Owned, Clear, Painted, UserTaken, PageStart, AlignPage, NumPages;
      var free := IsPagesFreeFrom(addr, size);
      if !free {
        return ENOMEM;
      }
      ValidFenced();
      var page, num := addr / PAGE_LEN, NumPages(size);
      ghost var m, t := memMap[..], ptables[i][..];
      FencedRun(memMap[..], bssPageEnd, page, num);
      err := SetBits(memMap, page, num);
      if err != OK {
        return;
      }
      err := SetBits(ptables[i], page, num);
      TakenFrom(m, memMap[..], t, ptables[i][..], addr, num);
    }

    // ---------- The kernel's pages ----------

    /** init_mem_table, on statically allocated tables and with the kernel's image ending at bssEnd. */
    constructor (memMap: array<bv32>, ptables: seq<array<bv32>>, ram: array<int>, bssEnd: nat)
      requires bssEnd / PAGE_LEN + 1 < PAGES && Distinct(memMap, ptables) && ram.Length == PAGES * PAGE_LEN
      requires forall i :: 0 <= i < |ptables| ==> Clear(ptables[i][..], 0, 32 * PTABLE_LEN)
      modifies memMap
      ensures Valid() && |procs| == |ptables| && bssPageEnd == bssEnd / PAGE_LEN + 1
      ensures owner == FirstOwners(bssPageEnd) && forall i :: 0 <= i < |procs| ==> !procs[i].live
      ensures this.memMap == memMap && this.ptables == ptables && this.ram == ram
    {
      hide Clear, FirstOwners, MarksOwned, Reserved, TableOf, RangeOf;
      this.memMap, this.ptables, this.ram := memMap, ptables, ram;
      var none := Proc(false, 0, 0, 0, 0, 0, 0, 0);
      procs := seq(|ptables|, _ => none);
      var len := (bssEnd / PAGE_LEN * PAGE_LEN + PAGE_LEN) / PAGE_LEN;
      bssPageEnd := len;
      owner := FirstOwners(len);
      InitMap(memMap, len);
      new;
      forall i | 0 <= i < |ptables|
        ensures TableOf(ptables[i][..], owner, i) && RangeOf(procs[i], owner, i)
      {
        FirstTable(ptables[i][..], none, len, i);
      }
    }

    /** get_free_pages for the kernel's own use. */
    method KernelGetPages(length: nat) returns (p: int)
      requires Valid()
      modifies memMap, `owner
      ensures Valid() && (p == NULL ==> owner == old(owner) && memMap[..] == old(memMap[..]))
      ensures p == NULL <==> NoRoomFor(old(memMap[..]), NumPages(length))
      ensures p != NULL ==> Granted(old(owner), owner, p, NumPages(length), KERNEL)
      ensures p != NULL ==> ExtremeRun(old(memMap[..]), p / PAGE_LEN, NumPages(length), true)
      ensures p != NULL ==> p > 0 && p % PAGE_LEN == 0 && FreeAt(old(memMap[..]), p / PAGE_LEN)
    {
      hide Owned, NoRoomFor, ExtremeRun, Taken, Granted;
      p := GetFreePages(length, true);
      if p != NULL {
        TakenHadRoom(old(memMap[..]), memMap[..], p, NumPages(length));
        assert Tables() == old(Tables());
        GrantKernel(old(memMap[..]), memMap[..], Tables(), procs, owner, bssPageEnd, p, NumPages(length));
        owner := Given(owner, p / PAGE_LEN, p / PAGE_LEN + NumPages(length), KERNEL);
      }
    }

    /** release_pages: the pages become free, whoever they belong to.  The invariant is kept exactly if they are no process's
        and not in the kernel's image. */
    method ReleasePages(page: nat, len: nat) returns (r: int)
      requires Valid()
      modifies memMap, `owner
      ensures r == (if page % PAGE_LEN != 0 || page / PAGE_LEN + len >= PAGES then ERR else OK)
      ensures if r == OK then Painted(memMap[..], old(memMap[..]), page / PAGE_LEN, page / PAGE_LEN + len, false) else memMap[..] == old(memMap[..])
      ensures owner == if r == OK then Given(old(owner), page / PAGE_LEN, page / PAGE_LEN + len, FREE) else old(owner)
      ensures Valid() <==> r != OK || NobodysRun(old(owner), bssPageEnd, page / PAGE_LEN, len)
    {
      hide TableOf, RangeOf, MarksOwned, Reserved, Painted, Owned;
      if page % PAGE_LEN != 0 {
        return ERR;
      }
      r := ClearBits(memMap, page / PAGE_LEN, len);
      if r == OK {
        assert Tables() == old(Tables());
        GiveBackIff(old(memMap[..]), memMap[..], Tables(), procs, owner, bssPageEnd, page / PAGE_LEN, len);
        owner := Given(owner, page / PAGE_LEN, page / PAGE_LEN + len, FREE);
      }
    }

    // ---------- The processes' pages ----------

    /** memset. */
    method MemSet(a: nat, v: int, n: nat)
      requires a + n <= ram.Length
      modifies ram
      ensures forall k :: 0 <= k < ram.Length ==> ram[k] == if a <= k < a + n then v else old(ram[k])
    {
      for i := 0 to n
        invariant forall k :: 0 <= k < ram.Length ==> ram[k] == if a <= k < a + i then v else old(ram[k])
      {
        ram[a + i] := v;
      }
    }

    /** The stores of alloc_mem_welf.  The mark it puts at the stack's top is erased with the rest. */
    method ClearImage(memStart: nat, elf: Elf, stack: nat, heap: nat)
      requires memStart + ProcLen(elf, stack, heap) <= ram.Length && stack > 0
      modifies ram
      ensures Zeroed(old(ram[..]), ram[..], memStart, elf, stack, heap)
    {
      ram[memStart] := STACK_MAGIC;
      MemSet(memStart + stack + elf.size, 0, elf.bss);
      MemSet(memStart, 0, stack);
      MemSet(memStart + stack + AlignPage(elf.size + elf.bss), 0, heap);
    }

    /** alloc_mem_welf, for a slot without memory. */
    method AllocMemWelf(i: nat, elf: Elf, stack: nat, heap: nat) returns (r: int)
      requires Valid() && i < |procs| && !procs[i].live
      requires stack % PAGE_LEN == 0 && heap % PAGE_LEN == 0 && stack > 0 && heap > 0
      modifies memMap, ptables[i], ram, `procs, `owner
      ensures Valid()
      ensures r == EINVAL <==> elf.magic != WINIX_ELF_MAGIC || elf.offset < stack || elf.size != elf.text + elf.data
      ensures r != OK ==> r in {EINVAL, ENOMEM} && procs == old(procs) && owner == old(owner) && ram[..] == old(ram[..])
      ensures r == ENOMEM ==> NoRoomFor(memMap[..], NumPages(ProcLen(elf, stack, heap)))
      ensures r == OK ==> procs == old(procs)[i := procs[i]] && Loaded(procs[i], elf, stack, heap)
      ensures r == OK ==> Granted(old(owner), owner, procs[i].memStart, NumPages(ProcLen(elf, stack, heap)), i)
      ensures r == OK ==> Zeroed(old(ram[..]), ram[..], procs[i].memStart, elf, stack, heap)
    {
      hide Owned, NoRoomFor, ExtremeRun, UserTaken, Granted, Zeroed, AlignPage, NumPages, Placed, Hi;
      if elf.magic != WINIX_ELF_MAGIC {
        return EINVAL;
      }
      if elf.offset < stack {
        return EINVAL;
      }
      if elf.size != elf.text + elf.data {
        return EINVAL;
      }
      var tdAligned := AlignPage(elf.size + elf.bss);
      var procLen := stack + tdAligned + heap;
      var memStart := UserGetFreePages(i, procLen, false);
      if memStart == NULL {
        assert Tables() == old(Tables());
        return ENOMEM;
      }
      ghost var num := NumPages(procLen);
      TakenBounds(old(memMap[..]), memMap[..], old(Tables()[i]), ptables[i][..], memStart, num);
      var p := Proc(true, memStart, memStart, memStart + stack + tdAligned, memStart + stack + tdAligned,
                    memStart + stack + tdAligned + heap - 1, memStart + stack - elf.offset, elf.offset - stack);
      LoadedPlaced(p, elf, stack, heap);
      ClearImage(memStart, elf, stack, heap);
      assert Tables() == old(Tables())[i := ptables[i][..]];
      GrantUser(old(memMap[..]), memMap[..], old(Tables()), ptables[i][..], procs, p, owner, bssPageEnd, i, memStart, num);
      procs := procs[i := p];
      owner := Given(owner, memStart / PAGE_LEN, memStart / PAGE_LEN + num, i);
      r := OK;
    }

    /** sys_sbrk; done says whether the break was moved. */
    method Sbrk(i: nat, size: int) returns (r: int, ghost done: bool)
      requires Valid() && i < |procs| && procs[i].live
      modifies memMap, ptables[i], `procs, `owner
      ensures Valid()
      ensures done <==> Extensible(old(memMap[..]), old(procs[i]), size)
      ensures !done ==> r == NULL && procs == old(procs) && owner == old(owner)
      ensures done ==> r == procs[i].heapBreak && procs == old(procs)[i := Extended(old(procs[i]), size)]
      ensures done ==> owner == Given(old(owner), Hi(old(procs[i])), Hi(procs[i]), i)
      // The break has moved by size, nothing else of the process has changed, and there are no more pages than it needs.
      ensures done ==> MovedBy(old(procs[i]), procs[i], size)
    {
      hide Owned, Clear, AlignPage, NumPages, MovedBy;
      var p := procs[i];
      ValidPlaced(i);
      ExtendedMoved(p, size);
      if size == 0 {
        NothingGiven(owner, Hi(p), i);
        return p.heapBreak, true;
      }
      if size < 0 {
        if p.heapBreak + size >= p.heapTop {
          MoveBreak(i, size);
          return p.heapBreak + size, true;
        }
        return NULL, false;
      }
      var residual := p.heapBottom - p.heapBreak;
      if residual >= size {
        MoveBreak(i, size);
        return p.heapBreak + size, true;
      }
      r, done := Grow(i, size);
    }

    /** sys_sbrk where the process needs more pages. */
    method Grow(i: nat, size: int) returns (r: int, ghost done: bool)
      requires Valid() && i < |procs| && procs[i].live && procs[i].heapBreak + size > procs[i].heapBottom && size > 0
      modifies memMap, ptables[i], `procs, `owner
      ensures Valid()
      ensures done <==> Extensible(old(memMap[..]), old(procs[i]), size)
      ensures !done ==> r == NULL && procs == old(procs) && owner == old(owner)
      ensures done ==> r == procs[i].heapBreak && procs == old(procs)[i := Extended(old(procs[i]), size)]
      ensures done ==> owner == Given(old(owner), Hi(old(procs[i])), Hi(procs[i]), i)
    {
      hide Owned, UserTaken, Clear, AlignPage, NumPages, Placed, PageStart, Lo, Hi, Extended, Given;
      var p := procs[i];
      ValidPlaced(i);
      ExtendedIs(p, size);
      var residual := p.heapBottom - p.heapBreak;
      var request := size - residual;
      var err := NextPages(i, request);
      if err != OK {
        assert Tables() == old(Tables());
        return NULL, false;
      }
      var q := p.(heapBreak := p.heapBreak + size, heapBottom := p.heapBottom + AlignPage(request));
      assert Tables() == old(Tables())[i := ptables[i][..]];
      GrantMore(old(memMap[..]), memMap[..], old(Tables()), ptables[i][..], procs, owner, bssPageEnd, i, size);
      owner := Given(owner, Hi(p), Hi(q), i);
      procs := procs[i := q];
      r, done := q.heapBreak, true;
    }

    /** The pages after those of the process in slot i. */
    method NextPages(i: nat, request: nat) returns (err: int)
      requires Valid() && i < |procs| && procs[i].live && Placed(procs[i]) && request > 0
      modifies memMap, ptables[i]
      ensures err == OK <==>
        var hi := Hi(procs[i]); 0 <= hi && hi + NumPages(request) <= PAGES && Clear(old(memMap[..]), hi, NumPages(request))
      ensures if err == OK
        then UserTaken(old(memMap[..]), memMap[..], old(ptables[i][..]), ptables[i][..], procs[i].heapBottom + 1, NumPages(request))
        else memMap[..] == old(memMap[..]) && ptables[i][..] == old(ptables[i][..])
    {
      hide Owned, UserTaken, Clear, AlignPage, NumPages, Placed, PageStart, Hi;
      HiPage(procs[i]);
      err := UserGetFreePagesFrom(i, procs[i].heapBottom + 1, request);
    }

    /** The break moves within the pages the process has. */
    method MoveBreak(i: nat, size: int)
      requires Valid() && i < |procs| && procs[i].live && procs[i].heapBreak + size <= procs[i].heapBottom
      modifies `procs
      ensures Valid() && procs == old(procs)[i := Extended(old(procs[i]), size)]
      ensures Given(owner, Hi(procs[i]), Hi(procs[i]), i) == owner
    {
      hide Owned, Given, AlignPage;
      BreakMoves(memMap[..], Tables(), procs, owner, bssPageEnd, i, procs[i].heapBreak + size);
      procs := procs[i := procs[i].(heapBreak := procs[i].heapBreak + size)];
      NothingGiven(owner, Hi(procs[i]), i);
    }

    /** do_brk, for the virtual address vaddr; brk is the break reported back. */
    method Brk(i: nat, vaddr: int) returns (r: int, brk: int)
      requires Valid() && i < |procs| && procs[i].live && vaddr + procs[i].rbase != NULL
      modifies memMap, ptables[i], `procs, `owner
      ensures Valid() && r in {OK, EINVAL, ENOMEM}
      ensures r == OK <==> Extensible(old(memMap[..]), old(procs[i]), vaddr + old(procs[i].rbase) - old(procs[i].heapBreak))
      ensures r == OK ==> procs[i].heapBreak == vaddr + procs[i].rbase && brk == vaddr
      ensures r != OK ==> procs == old(procs) && owner == old(owner) && brk == procs[i].heapBreak - procs[i].rbase
      ensures r == OK ==> procs == old(procs)[i := Extended(old(procs[i]), vaddr + old(procs[i].rbase) - old(procs[i].heapBreak))]
    {
      hide Owned, Clear, AlignPage, NumPages;
      ValidPlaced(i);
      var addr := vaddr + procs[i].rbase;
      brk := procs[i].heapBreak - procs[i].rbase;
      if addr < procs[i].heapBreak {
        if addr < procs[i].heapTop {
          return EINVAL, brk;
        }
        MoveBreak(i, addr - procs[i].heapBreak);
        return OK, vaddr;
      }
      var newBrk, done := Sbrk(i, addr - procs[i].heapBreak);
      if newBrk == NULL {
        return ENOMEM, brk;
      }
      return OK, newBrk - procs[i].rbase;
    }

    /** copy_page, one after the other, over len words. */
    method CopyPages(src: nat, dest: nat, len: nat)
      requires len % PAGE_LEN == 0 && src + len <= ram.Length && dest + len <= ram.Length
      requires src + len <= dest || dest + len <= src
      modifies ram
      ensures Copied(old(ram[..]), ram[..], src, dest, len)
    {
      var s, d := src, dest;
      while s < src + len
        invariant 0 <= s - src == d - dest <= len && (s - src) % PAGE_LEN == 0
        invariant forall k :: 0 <= k < ram.Length ==> ram[k] == if dest <= k < d then old(ram[k - dest + src]) else old(ram[k])
      {
        CopyPage(s, d);
        s, d := s + PAGE_LEN, d + PAGE_LEN;
      }
    }

    /** copy_page. */
    method CopyPage(src: nat, dest: nat)
      requires src + PAGE_LEN <= ram.Length && dest + PAGE_LEN <= ram.Length
      requires src + PAGE_LEN <= dest || dest + PAGE_LEN <= src
      modifies ram
      ensures forall k :: 0 <= k < ram.Length ==> ram[k] == if dest <= k < dest + PAGE_LEN then old(ram[k - dest + src]) else old(ram[k])
    {
      for n := 0 to PAGE_LEN
        invariant forall k :: 0 <= k < ram.Length ==> ram[k] == if dest <= k < dest + n then old(ram[k - dest + src]) else old(ram[k])
      {
        ram[dest + n] := ram[src + n];
      }
    }

    /** The memory part of sys_fork: copy_pcb, copy_mm and copy_pregs, into a slot without memory. */
    method Fork(i: nat, j: nat) returns (r: int)
      requires Valid() && i < |procs| && j < |procs| && procs[i].live && !procs[j].live
      modifies memMap, ptables[j], ram, `procs, `owner
      ensures Valid() && (r == OK || r == ERR)
      ensures r == ERR ==> NoRoomFor(memMap[..], Hi(old(procs[i])) - Lo(old(procs[i]))) && owner == old(owner) && memMap[..] == old(memMap[..])
      ensures r == ERR ==> procs == old(procs)[j := procs[j]] && !procs[j].live && ram[..] == old(ram[..])
      ensures r == OK ==> procs == old(procs)[j := Forked(old(procs[i]), procs[j].memStart)]
      ensures r == OK ==> Granted(old(owner), owner, procs[j].memStart, Hi(procs[i]) - Lo(procs[i]), j)
      ensures r == OK ==> Copied(old(ram[..]), ram[..], procs[i].memStart, procs[j].memStart, procs[i].heapBottom + 1 - procs[i].memStart)
      ensures r == OK ==>
        (ShrinkAlike(procs[i], procs[j]) <==> procs[i].heapBreak <= procs[i].heapTop && RoomLowEnough(old(memMap[..]), procs[i]))
      // The child sees at every virtual address what its parent sees there.
      ensures r == OK ==> Mirrors(ram[..], procs[i], procs[j])
      ensures r == OK ==> (procs[j].heapBreak <= procs[i].heapTop <==> RoomLowEnough(old(memMap[..]), procs[i]))
    {
      hide Owned, NoRoomFor, UserTaken, Granted, Copied, Mirrors, Placed, Forked, Given, Lo, Hi, ShrinkAlike, RoomLowEnough, Clear, ExtremeRun;
      CopyPcb(i, j);
      ValidPlaced(i);
      var p := procs[i];
      ghost var t1, m1 := Tables(), memMap[..];
      var memStart := CopyMm(i, j);
      if memStart == NULL {
        assert Tables() == t1;
        return ERR;
      }
      assert Tables() == t1[j := ptables[j][..]];
      var q := Forked(p, memStart);
      ForkedPlaced(p, memStart);
      ForkedHeapShrinks(m1, p, memStart);
      ForkedBreak(m1, p, memStart);
      ForkedMirrors(old(ram[..]), ram[..], p, memStart);
      GrantUser(m1, memMap[..], t1, ptables[j][..], procs, q, owner, bssPageEnd, j, memStart, Hi(p) - Lo(p));
      procs := procs[j := q];
      owner := Given(owner, memStart / PAGE_LEN, memStart / PAGE_LEN + (Hi(p) - Lo(p)), j);
      r := OK;
    }

    /** A parent that has used its heap forks where there is room low enough: then it can give a word back, and its child cannot. */
    method ForkedHeapStuck(i: nat, j: nat) returns (r: int, given: int, kept: int)
      requires Valid() && i < |procs| && j < |procs| && procs[i].live && !procs[j].live
      requires procs[i].heapBreak > procs[i].heapTop && RoomLowEnough(memMap[..], procs[i])
      modifies memMap, ptables[i], ptables[j], ram, `procs, `owner
      ensures r == OK && |procs| == |old(procs)| && given == old(procs[i]).heapBreak - 1 && kept == NULL
      ensures procs[i] == old(procs[i]).(heapBreak := given) && procs[j] == Forked(old(procs[i]), procs[j].memStart)
    {
      hide Owned, NoRoomFor, RoomLowEnough, Granted, Copied, ShrinkAlike, Placed, Valid;
      ValidPlaced(i);
      RoomIsRoom(memMap[..], procs[i]);
      ghost var p := procs[i];
      r := Fork(i, j);
      ghost var q, done := procs[j], false;
      given, done := Sbrk(i, -1);
      assert procs[j] == q;
      kept, done := Sbrk(j, -1);
    }

    /** The pages for a child in slot j of the process in slot i, and where they are. */
    method ChildPages(i: nat, j: nat, len: nat) returns (memStart: int)
      requires Valid() && i < |procs| && j < |procs| && procs[i].live && !procs[j].live
      requires len == procs[i].heapBottom + 1 - procs[i].memStart && NumPages(len) == Hi(procs[i]) - Lo(procs[i]) && Placed(procs[i])
      modifies memMap, ptables[j]
      ensures memStart == NULL ==> memMap[..] == old(memMap[..]) && ptables[j][..] == old(ptables[j][..])
      ensures memStart == NULL ==> NoRoomFor(memMap[..], NumPages(len))
      ensures memStart != NULL ==> UserTaken(old(memMap[..]), memMap[..], old(ptables[j][..]), ptables[j][..], memStart, NumPages(len))
      ensures memStart != NULL ==>
        && memStart % PAGE_LEN == 0 && 0 < memStart / PAGE_LEN && memStart / PAGE_LEN + NumPages(len) < PAGES
        && (memStart / PAGE_LEN + NumPages(len) <= Lo(procs[i]) || Hi(procs[i]) <= memStart / PAGE_LEN)
        && ExtremeRun(old(memMap[..]), memStart / PAGE_LEN, NumPages(len), false)
        && Clear(old(memMap[..]), memStart / PAGE_LEN, NumPages(len))
    {
      hide Owned, NoRoomFor, ExtremeRun, UserTaken, AlignPage, Placed, Lo, Hi, NumPages, Clear;
      ghost var t1, m1, num := Tables(), memMap[..], NumPages(len);
      memStart := UserGetFreePages(j, len, false);
      if memStart != NULL {
        TakenBounds(m1, memMap[..], t1[j], ptables[j][..], memStart, num);
        ChildApart(m1, memMap[..], t1, ptables[j][..], procs, owner, bssPageEnd, i, j, memStart, num);
      }
    }

    /** copy_mm: pages for the child in slot j, with a copy of the parent's image. */
    method CopyMm(i: nat, j: nat) returns (memStart: int)
      requires Valid() && i < |procs| && j < |procs| && procs[i].live && !procs[j].live
      modifies memMap, ptables[j], ram
      ensures Hi(procs[i]) - Lo(procs[i]) >= 0
      ensures memStart == NULL ==> memMap[..] == old(memMap[..]) && ptables[j][..] == old(ptables[j][..]) && ram[..] == old(ram[..])
      ensures memStart == NULL ==> NoRoomFor(memMap[..], Hi(procs[i]) - Lo(procs[i]))
      ensures memStart != NULL ==>
        UserTaken(old(memMap[..]), memMap[..], old(ptables[j][..]), ptables[j][..], memStart, Hi(procs[i]) - Lo(procs[i]))
      ensures memStart != NULL ==>
        && memStart % PAGE_LEN == 0 && 0 < memStart / PAGE_LEN && memStart / PAGE_LEN + Hi(procs[i]) - Lo(procs[i]) < PAGES
        && Copied(old(ram[..]), ram[..], procs[i].memStart, memStart, procs[i].heapBottom + 1 - procs[i].memStart)
        && (procs[i].heapBottom < memStart || memStart + (procs[i].heapBottom + 1 - procs[i].memStart) <= procs[i].memStart)
      ensures memStart != NULL ==>
        && ExtremeRun(old(memMap[..]), memStart / PAGE_LEN, Hi(procs[i]) - Lo(procs[i]), false)
        && Clear(old(memMap[..]), memStart / PAGE_LEN, Hi(procs[i]) - Lo(procs[i])) && memStart != procs[i].memStart
    {
      hide Owned, NoRoomFor, ExtremeRun, UserTaken, Copied, AlignPage, Placed, Lo, Hi, NumPages, Clear;
      ValidPlaced(i);
      var p := procs[i];
      var len := p.heapBottom + 1 - p.memStart;
      WholePages(p);
      PlacedRange(p);
      memStart := ChildPages(i, j, len);
      if memStart == NULL {
        return;
      }
      ImagesApart(p, memStart);
      CopyPages(p.memStart, memStart, len);
    }

    /** copy_pcb, and the clearing of the protection table with which copy_mm begins. */
    method CopyPcb(i: nat, j: nat)
      requires Valid() && i < |procs| && j < |procs| && procs[i].live && !procs[j].live
      modifies ptables[j], `procs
      ensures Valid() && procs == old(procs)[j := old(procs[i]).(live := false)]
    {
      hide Owned, Clear;
      ghost var t0 := Tables();
      ClearAll(ptables[j]);
      assert Tables() == t0[j := ptables[j][..]];
      IdleSlot(memMap[..], t0, procs, owner, bssPageEnd, j, ptables[j][..], procs[i].(live := false));
      procs := procs[j := procs[i].(live := false)];
    }

    /** release_proc_mem. */
    method ReleaseProcMem(i: nat)
      requires Valid() && i < |procs| && procs[i].live
      modifies memMap, ptables[i], `procs, `owner
      ensures Valid() && procs == old(procs)[i := old(procs[i]).(live := false)]
      ensures owner == Given(old(owner), Lo(old(procs[i])), Hi(old(procs[i])), FREE)
      ensures forall k :: 0 <= k < PAGES ==> (owner[k] != old(owner)[k] <==> old(owner)[k] == i)
    {
      hide MarksOwned, Reserved, TableOf, Clear;
      var p := procs[i];
      OwnRange(p, owner, bssPageEnd, i);
      var pageLen, startPage := (p.heapBottom + 1 - p.memStart) / PAGE_LEN, p.memStart / PAGE_LEN;
      var _ := ClearBits(memMap, startPage, pageLen);
      ClearAll(ptables[i]);
      assert Tables() == old(Tables())[i := ptables[i][..]];
      Disown(old(memMap[..]), old(Tables()), procs, owner, bssPageEnd, i, memMap[..], ptables[i][..]);
      procs := procs[i := p.(live := false)];
      owner := Given(owner, startPage, startPage + pageLen, FREE);
    }

    lemma ValidPlaced(i: nat)
      requires Valid() && i < |procs| && procs[i].live
      ensures Placed(procs[i])
    {
      assert RangeOf(procs[i], owner, i);
    }

    lemma ValidFenced()
      requires Valid()
      ensures Fenced(memMap[..], bssPageEnd)
    {
      EdgesOn(memMap[..], owner, bssPageEnd);
    }
  }

  lemma {:induction false} TakenHadRoom(old_: Map, new_: Map, p: int, num: nat)
    requires Taken(old_, new_, p, num)
    ensures !NoRoomFor(old_, num) && p > 0 && p % PAGE_LEN == 0 && FreeAt(old_, p / PAGE_LEN)
  {
    hide BitOn, Painted;
    assert Clear(old_, p / PAGE_LEN, num);
  }

  /** The num pages at address p were free and now belong to who; no other page changed hands. */
  ghost predicate Granted(old_: seq<int>, new_: seq<int>, p: int, num: nat, who: int) {
    var r := p / PAGE_LEN;
    && p % PAGE_LEN == 0 && 0 < r && 1 <= num && r + num < PAGES && |old_| == PAGES
    && (forall k :: r <= k < r + num ==> old_[k] == FREE) && new_ == Given(old_, r, r + num, who)
  }

  lemma {:induction false} GrantKernel(mem: Map, mem': Map, tabs: seq<Map>, procs: seq<Proc>, owner: seq<int>, bss: int,
                                       p: int, num: nat)
    requires Owned(mem, tabs, procs, owner, bss) && Taken(mem, mem', p, num)
    ensures Granted(owner, Given(owner, p / PAGE_LEN, p / PAGE_LEN + num, KERNEL), p, num, KERNEL)
    ensures Owned(mem', tabs, procs, Given(owner, p / PAGE_LEN, p / PAGE_LEN + num, KERNEL), bss)
  {
    hide Clear, Painted, MarksOwned, Reserved, TableOf, RangeOf;
    ClearIsFree(mem, owner, bss, p / PAGE_LEN, num);
    KernelShare(mem, tabs, procs, owner, bss, p / PAGE_LEN, num, mem', KERNEL);
  }

  /** None of the pages is a process's or in the kernel's image. */
  ghost predicate NobodysRun(owner: seq<int>, bss: int, lo: nat, num: nat) {
    lo + num <= |owner| && (num > 0 ==> bss <= lo) && forall k :: lo <= k < lo + num ==> owner[k] < 0
  }

  lemma {:induction false} TakenFrom(mem: Map, mem': Map, t: Map, t': Map, addr: nat, num: nat)
    requires 0 < addr / PAGE_LEN && 1 <= num && addr / PAGE_LEN + num < PAGES && |mem| == MEM_MAP_LEN
    requires Clear(mem, addr / PAGE_LEN, num) && Painted(mem', mem, addr / PAGE_LEN, addr / PAGE_LEN + num, true)
    requires Painted(t', t, addr / PAGE_LEN, addr / PAGE_LEN + num, true)
    ensures UserTaken(mem, mem', t, t', PageStart(addr), num)
  {
    hide Clear, Painted;
    assert PageStart(addr) == addr / PAGE_LEN * PAGE_LEN;
  }

  lemma {:induction false} TakenBounds(mem: Map, mem': Map, t: Map, t': Map, a: int, num: nat)
    requires UserTaken(mem, mem', t, t', a, num)
    ensures a % PAGE_LEN == 0 && 0 < a / PAGE_LEN && a / PAGE_LEN + num < PAGES && |mem| == MEM_MAP_LEN
    ensures Clear(mem, a / PAGE_LEN, num)
  {
    hide Clear, Painted;
  }

  lemma {:induction false} GrantUser(mem: Map, mem': Map, tabs: seq<Map>, t: Map, procs: seq<Proc>, p: Proc, owner: seq<int>,
                                     bss: int, i: nat, a: int, num: nat)
    requires Owned(mem, tabs, procs, owner, bss) && i < |procs| && UserTaken(mem, mem', tabs[i], t, a, num)
    requires Placed(p) && p.live
    requires if procs[i].live then Lo(p) == Lo(procs[i]) && Hi(procs[i]) == a / PAGE_LEN && Hi(p) == a / PAGE_LEN + num
             else Lo(p) == a / PAGE_LEN && Hi(p) == a / PAGE_LEN + num
    ensures Granted(owner, Given(owner, a / PAGE_LEN, a / PAGE_LEN + num, i), a, num, i)
    ensures Owned(mem', tabs[i := t], procs[i := p], Given(owner, a / PAGE_LEN, a / PAGE_LEN + num, i), bss)
  {
    hide Clear, Painted, MarksOwned, Reserved, TableOf;
    ClearIsFree(mem, owner, bss, a / PAGE_LEN, num);
    assert procs[i].live ==> Lo(procs[i]) < Hi(procs[i]);
    Claim(mem, tabs, procs, owner, bss, i, a / PAGE_LEN, num, mem', t, p);
  }

  lemma {:induction false} SameShare(p: Proc, owner: seq<int>, o: seq<int>, i: int, k: nat)
    requires RangeOf(p, owner, i) && RangeOf(p, o, i) && k < PAGES
    ensures owner[k] == i <==> o[k] == i
  {
    assert Has(p, k) <==> owner[k] == i;
  }

  /** The process in slot i takes the pages it needs for its break to move. */
  lemma {:induction false} GrantMore(mem: Map, mem': Map, tabs: seq<Map>, t: Map, procs: seq<Proc>, owner: seq<int>, bss: int, i: nat, size: int)
    requires Owned(mem, tabs, procs, owner, bss) && i < |procs| && procs[i].live && Placed(procs[i])
    requires procs[i].heapBreak + size > procs[i].heapBottom
    requires var num := NumPages(procs[i].heapBreak + size - procs[i].heapBottom);
      num >= 0 && UserTaken(mem, mem', tabs[i], t, procs[i].heapBottom + 1, num)
    ensures var q := Extended(procs[i], size);
      Owned(mem', tabs[i := t], procs[i := q], Given(owner, Hi(procs[i]), Hi(q), i), bss)
  {
    assert |tabs| == |procs|;
    hide Owned, UserTaken, AlignPage, NumPages, Placed, PageStart, Lo, Hi, Extended;
    var p, num := procs[i], NumPages(procs[i].heapBreak + size - procs[i].heapBottom);
    HiPage(p);
    ExtendedPlaced(p, size);
    ExtendedIs(p, size);
    TakenBounds(mem, mem', tabs[i], t, p.heapBottom + 1, num);
    GrantUser(mem, mem', tabs, t, procs, Extended(p, size), owner, bss, i, p.heapBottom + 1, num);
  }

  /** Clearing a run keeps the invariant exactly if the pages were nobody's. */
  lemma {:induction false} GiveBackIff(mem: Map, mem': Map, tabs: seq<Map>, procs: seq<Proc>, owner: seq<int>, bss: int,
                                       lo: nat, num: nat)
    requires Owned(mem, tabs, procs, owner, bss) && lo + num < PAGES && Painted(mem', mem, lo, lo + num, false)
    ensures Owned(mem', tabs, procs, Given(owner, lo, lo + num, FREE), bss) <==> NobodysRun(owner, bss, lo, num)
  {
    hide Painted, MarksOwned, TableOf, RangeOf;
    var o := Given(owner, lo, lo + num, FREE);
    if NobodysRun(owner, bss, lo, num) {
      KernelShare(mem, tabs, procs, owner, bss, lo, num, mem', FREE);
    }
    if Owned(mem', tabs, procs, o, bss) {
      assert num > 0 ==> o[lo] == FREE;
      forall k | lo <= k < lo + num
        ensures owner[k] < 0
      {
        if owner[k] >= 0 {
          SameShare(procs[owner[k]], owner, o, owner[k], k);
        }
      }
    }
  }

  ghost predicate UserTaken(old_: Map, new_: Map, t: Map, t': Map, p: int, num: nat) {
    Taken(old_, new_, p, num) && Painted(t', t, p / PAGE_LEN, p / PAGE_LEN + num, true)
  }

  /** The ends of memory are never free. */
  ghost predicate Fenced(m: Map, bss: nat) {
    && |m| == MEM_MAP_LEN && 1 <= bss < PAGES && BitOn(m, PAGES - 1) && forall k :: 0 <= k < bss ==> BitOn(m, k)
  }

  lemma {:induction false} EdgesOn(m: Map, owner: seq<int>, bss: int)
    requires MarksOwned(m, owner) && Reserved(owner, bss)
    ensures Fenced(m, bss)
  {
    hide BitOn;
  }

  /** A run that SearchFrom or SearchReverse finds never touches the ends. */
  lemma {:induction false} FencedRun(m: Map, bss: nat, r: int, num: nat)
    requires Fenced(m, bss) && 0 <= r && 1 <= num && r + num <= PAGES && Clear(m, r, num)
    ensures 0 < bss <= r && r + num < PAGES
  {
    hide BitOn;
    assert !BitOn(m, r);
  }

  lemma {:induction false} NoRunBelow(m: Map, bss: nat, hi: int, num: nat)
    requires Fenced(m, bss) && hi + num <= PAGES && 1 <= num && NoRun(m, bss, hi, num)
    ensures NoRun(m, 0, hi, num)
  {
    hide BitOn;
    forall q | 0 <= q <= hi
      ensures !Clear(m, q, num)
    {
      assert q < bss ==> BitOn(m, q);
    }
  }

  lemma {:induction false} NothingThatLong(m: Map, bss: nat, num: nat)
    requires Fenced(m, bss) && num >= PAGES
    ensures NoRoomFor(m, num)
  {
    hide BitOn;
    assert BitOn(m, 0);
  }

  ghost predicate NoRoomFor(m: Map, num: nat) {
    |m| == MEM_MAP_LEN && (num == 0 || num > PAGES || NoRun(m, 0, PAGES - num, num))
  }

  /** The run of num pages at address p was clear and is now marked. */
  ghost predicate Taken(old_: Map, new_: Map, p: int, num: nat) {
    var r := p / PAGE_LEN;
    && p % PAGE_LEN == 0 && 0 < r && 1 <= num && r + num < PAGES && |old_| == MEM_MAP_LEN
    && Clear(old_, r, num) && Painted(new_, old_, r, r + num, true)
  }

  ghost predicate FreeAt(m: Map, r: nat) {
    r < 32 * |m| && !BitOn(m, r)
  }

  /** There is only one highest free page. */
  lemma {:induction false} HighestIsOne(m: Map, r: nat, q: nat)
    requires ExtremeRun(m, r, 1, true) && FreeAt(m, r) && ExtremeRun(m, q, 1, true) && FreeAt(m, q)
    ensures r == q
  {
    hide BitOn;
    assert Clear(m, r, 1) && Clear(m, q, 1);
  }

  ghost predicate ExtremeRun(m: Map, r: int, num: nat, high: bool) {
    && |m| == MEM_MAP_LEN && 0 <= r && r + num <= PAGES
    && if high then NoRun(m, r + 1, PAGES - num, num) else NoRun(m, 0, r - 1, num)
  }
}
