/** The write-back block cache.

    Buffers are identified by their index in the buffer table; -1 is NULL.  The buffers that
    nobody holds form a doubly linked list from REAR, the next to be evicted, to FRONT, the
    one put back last; the ghost field `lru` is that list as a sequence.  `Content(b)` is
    the abstract content of block b: what its buffer holds if there is one, else what the disk
    holds.  No cache operation changes it except a write to a held buffer.
 */
module BlockCache {

  const BLOCK_SIZE: nat := 1024
  const LRU_LEN: nat := 4

  /** A cell of memory or disk: on this machine a character takes a whole word. */
  type Cell = bv32

  type Block = seq<Cell>

  datatype Buffer = Buffer(block: Block, prev: int, next: int, blocknr: nat, dirt: bool, count: int)

  // ---------- The abstract content ----------

  /** The first buffer from k on that holds block b, or -1. */
  function Slot(t: seq<Buffer>, b: nat, k: nat): (r: int)
    requires k <= |t|
    ensures r == -1 || (k <= r < |t| && t[r].blocknr == b)
    ensures forall j :: k <= j < |t| && (r == -1 || j < r) ==> t[j].blocknr != b
    decreases |t| - k
  {
    if k == |t| then -1 else if t[k].blocknr == b then k else Slot(t, b, k + 1)
  }

  /** How many whole blocks a disk of n cells has. */
  function BlocksIn(n: nat): nat {
    n / BLOCK_SIZE
  }

  function DiskBlock(d: seq<Cell>, b: nat): (r: Block)
    requires b < BlocksIn(|d|)
    ensures |r| == BLOCK_SIZE
  {
    d[b * BLOCK_SIZE..b * BLOCK_SIZE + BLOCK_SIZE]
  }

  function ContentOf(t: seq<Buffer>, d: seq<Cell>, b: nat): Block
    requires b < BlocksIn(|d|)
  {
    var k := Slot(t, b, 0);
    if k == -1 then DiskBlock(d, b) else t[k].block
  }

  // ---------- The invariant ----------

  /** At most one buffer caches a given block; 0 marks an unused buffer. */
  ghost predicate Unique(t: seq<Buffer>) {
    forall j, k :: 0 <= j < k < |t| && t[j].blocknr == t[k].blocknr ==> t[j].blocknr == 0
  }

  /** A buffer that is neither dirty nor being written to agrees with the disk. */
  ghost predicate Coherent(t: seq<Buffer>, d: seq<Cell>, touched: set<nat>) {
    forall k :: 0 <= k < |t| && 0 < t[k].blocknr < BlocksIn(|d|) && !t[k].dirt && k !in touched ==>
      t[k].block == DiskBlock(d, t[k].blocknr)
  }

  ghost predicate WellFormed(t: seq<Buffer>) {
    && |t| == LRU_LEN && Unique(t)
    && forall k :: 0 <= k < |t| ==> |t[k].block| == BLOCK_SIZE && (t[k].blocknr == 0 ==> !t[k].dirt)
  }

  ghost predicate Distinct(lru: seq<nat>) {
    forall i, j :: 0 <= i < j < |lru| ==> lru[i] != lru[j]
  }

  /** lru is the list that the links spell out. */
  ghost predicate Linked(t: seq<Buffer>, lru: seq<nat>, front: int, rear: int) {
    && |lru| > 0 && Distinct(lru) && (forall i :: 0 <= i < |lru| ==> lru[i] < |t|)
    && rear == lru[0] && front == lru[|lru| - 1]
    && forall i :: 0 <= i < |lru| ==> LinkedAt(t, lru, i)
  }

  ghost predicate LinkedAt(t: seq<Buffer>, lru: seq<nat>, i: nat)
    requires i < |lru| && lru[i] < |t|
  {
    && t[lru[i]].next == (if i + 1 < |lru| then lru[i + 1] else -1)
    && t[lru[i]].prev == (if i > 0 then lru[i - 1] else -1)
  }

  ghost predicate SameBuffer(b: Buffer, c: Buffer) {
    b.block == c.block && b.blocknr == c.blocknr && b.dirt == c.dirt
  }

  /** The tables differ at most in links and reference counts. */
  ghost predicate SameBuffers(t: seq<Buffer>, u: seq<Buffer>) {
    |t| == |u| && forall k :: 0 <= k < |t| ==> SameBuffer(t[k], u[k])
  }

  /** Reference counts differ at most at k. */
  ghost predicate CountsBut(t: seq<Buffer>, u: seq<Buffer>, k: int) {
    |t| == |u| && forall j :: 0 <= j < |t| && j != k ==> t[j].count == u[j].count
  }

  function SetNext(t: seq<Buffer>, k: int, v: int): seq<Buffer>
    requires -1 <= k < |t|
  {
    if k == -1 then t else t[k := t[k].(next := v)]
  }

  function SetPrev(t: seq<Buffer>, k: int, v: int): seq<Buffer>
    requires -1 <= k < |t|
  {
    if k == -1 then t else t[k := t[k].(prev := v)]
  }

  function Removed(lru: seq<nat>, p: nat): (r: seq<nat>)
    requires p < |lru|
    ensures |r| == |lru| - 1 && forall i :: 0 <= i < |r| ==> r[i] == lru[if i < p then i else i + 1]
  {
    lru[..p] + lru[p + 1..]
  }

  /** Both neighbours of a linked buffer are buffers, distinct from it, or absent. */
  lemma {:induction false} Neighbours(t: seq<Buffer>, lru: seq<nat>, front: int, rear: int, p: nat)
    requires Linked(t, lru, front, rear) && p < |lru|
    ensures lru[p] < |t| && -1 <= t[lru[p]].prev < |t| && -1 <= t[lru[p]].next < |t|
    ensures t[lru[p]].prev == (if p > 0 then lru[p - 1] else -1)
    ensures t[lru[p]].next == (if p + 1 < |lru| then lru[p + 1] else -1)
  {
    assert LinkedAt(t, lru, p);
  }

  lemma {:induction false} RearIsFirst(t: seq<Buffer>, lru: seq<nat>, front: int, rear: int)
    requires Linked(t, lru, front, rear)
    ensures |lru| > 0 && lru[0] < |t| && rear == lru[0] && front == lru[|lru| - 1]
    ensures forall p :: 0 <= p < |lru| ==> lru[p] < |t| && lru[p] !in Removed(lru, p)
  {
  }

  lemma {:induction false} Unlink(t: seq<Buffer>, lru: seq<nat>, front: int, rear: int, p: nat)
    requires Linked(t, lru, front, rear) && p < |lru| && |lru| >= 2
    ensures lru[p] < |t| && -1 <= t[lru[p]].prev < |t| && -1 <= t[lru[p]].next < |t|
    ensures var b := t[lru[p]];
      Linked(SetPrev(SetNext(t, b.prev, b.next), b.next, b.prev), Removed(lru, p),
             if front == lru[p] then b.prev else front, if rear == lru[p] then b.next else rear)
  {
    Neighbours(t, lru, front, rear, p);
    var b := t[lru[p]];
    var u := SetPrev(SetNext(t, b.prev, b.next), b.next, b.prev);
    var l := Removed(lru, p);
    forall i | 0 <= i < |l|
      ensures LinkedAt(u, l, i)
    {
      assert LinkedAt(t, lru, if i < p then i else i + 1);
    }
  }

  lemma {:induction false} Append(t: seq<Buffer>, lru: seq<nat>, front: int, rear: int, k: nat)
    requires Linked(t, lru, front, rear) && k < |t| && k !in lru
    ensures 0 <= front < |t| && front != k
    ensures Linked(t[k := t[k].(next := -1, prev := front)][front := t[front].(next := k)], lru + [k], k, rear)
  {
    var u := t[k := t[k].(next := -1, prev := front)][front := t[front].(next := k)];
    var l := lru + [k];
    assert front in lru;
    forall i | 0 <= i < |l|
      ensures LinkedAt(u, l, i)
    {
      if i < |lru| {
        assert LinkedAt(t, lru, i);
      }
    }
  }

  /** Only the links of the listed buffers matter. */
  lemma {:induction false} LinkedFrame(t: seq<Buffer>, u: seq<Buffer>, lru: seq<nat>, front: int, rear: int)
    requires Linked(t, lru, front, rear) && |u| == |t|
    requires forall k :: 0 <= k < |t| && k in lru ==> u[k].next == t[k].next && u[k].prev == t[k].prev
    ensures Linked(u, lru, front, rear)
  {
    forall i | 0 <= i < |lru|
      ensures LinkedAt(u, lru, i)
    {
      assert LinkedAt(t, lru, i);
    }
  }

  ghost predicate Blank(t: seq<Buffer>, k: nat)
    requires k < |t|
  {
    && |t[k].block| == BLOCK_SIZE && t[k].blocknr == 0 && !t[k].dirt
    && t[k].prev == k - 1 && t[k].next == if k + 1 < |t| then k + 1 else -1
  }

  lemma {:induction false} BlankTable(t: seq<Buffer>, lru: seq<nat>, d: seq<Cell>)
    requires |t| == LRU_LEN == |lru| && forall k :: 0 <= k < |t| ==> lru[k] == k && Blank(t, k)
    ensures WellFormed(t) && Linked(t, lru, LRU_LEN - 1, 0) && Coherent(t, d, {})
    ensures forall b :: 0 < b < BlocksIn(|d|) ==> ContentOf(t, d, b) == DiskBlock(d, b)
  {
    forall i | 0 <= i < |lru|
      ensures LinkedAt(t, lru, i)
    {
      assert Blank(t, i);
    }
    forall k | 0 <= k < |t|
      ensures t[k].blocknr == 0 && |t[k].block| == BLOCK_SIZE && !t[k].dirt
    {
      assert Blank(t, k);
    }
  }

  lemma {:induction false} RemovedMembers(lru: seq<nat>, p: nat, k: nat)
    requires p < |lru|
    ensures k in Removed(lru, p) ==> k in lru
    ensures k in lru ==> k == lru[p] || k in Removed(lru, p)
  {
    if i :| 0 <= i < |lru| && lru[i] == k && i != p {
      assert Removed(lru, p)[if i < p then i else i - 1] == k;
    }
  }

  // ---------- The disk ----------

  /** How much of len cells at off lies on a disk of n cells. */
  function Reach(n: nat, off: nat, len: nat): (r: nat)
    ensures r <= len && (r == len <==> len == 0 || off + len <= n)
  {
    if off >= n then 0 else if off + len > n then n - off else len
  }

  /** The disk d with as much of data written at off as fits. */
  function Spliced(d: seq<Cell>, off: nat, data: seq<Cell>): (r: seq<Cell>)
    ensures |r| == |d|
  {
    var n := Reach(|d|, off, |data|);
    if n == 0 then d else d[..off] + data[..n] + d[off + n..]
  }

  lemma {:induction false} BlockOnDisk(n: nat, b: nat)
    ensures b < BlocksIn(n) <==> b * BLOCK_SIZE + BLOCK_SIZE <= n
  {
  }

  /** Writing one block of the disk changes that block and no other. */
  lemma {:induction false} SplicedBlock(d: seq<Cell>, b: nat, data: Block, c: nat)
    requires |data| == BLOCK_SIZE && c < BlocksIn(|d|)
    ensures DiskBlock(Spliced(d, b * BLOCK_SIZE, data), c) == if b == c then data else DiskBlock(d, c)
  {
    BlockOnDisk(|d|, c);
    BlockOnDisk(|d|, b);
    var e := Spliced(d, b * BLOCK_SIZE, data);
    if b < c {
      assert b * BLOCK_SIZE + BLOCK_SIZE <= c * BLOCK_SIZE;
    } else if c < b {
      assert c * BLOCK_SIZE + BLOCK_SIZE <= b * BLOCK_SIZE;
    }
  }

  // ---------- What the steps keep ----------

  ghost predicate SameContent(t: seq<Buffer>, d: seq<Cell>, u: seq<Buffer>, e: seq<Cell>) {
    |d| == |e| && forall b :: 0 < b < BlocksIn(|d|) ==> ContentOf(u, e, b) == ContentOf(t, d, b)
  }

  /** The contents of all blocks; block 0 is never cached and is left out. */
  ghost function ViewOf(t: seq<Buffer>, d: seq<Cell>): (v: seq<Block>)
    ensures |v| == BlocksIn(|d|) && (|v| > 0 ==> v[0] == [])
    ensures forall b :: 0 < b < |v| ==> v[b] == ContentOf(t, d, b)
  {
    seq(BlocksIn(|d|), b requires 0 <= b < BlocksIn(|d|) => if b == 0 then [] else ContentOf(t, d, b))
  }

  lemma {:induction false} SameView(t: seq<Buffer>, d: seq<Cell>, u: seq<Buffer>, e: seq<Cell>)
    requires SameContent(t, d, u, e)
    ensures ViewOf(t, d) == ViewOf(u, e)
  {
    hide ContentOf;
  }

  lemma {:induction false} StoredView(t: seq<Buffer>, u: seq<Buffer>, d: seq<Cell>, b: nat, block: Block)
    requires 0 < b < BlocksIn(|d|)
    requires forall c :: 0 < c < BlocksIn(|d|) ==> ContentOf(u, d, c) == if c == b then block else ContentOf(t, d, c)
    ensures ViewOf(u, d) == ViewOf(t, d)[b := block]
  {
    hide ContentOf;
    var v, w := ViewOf(t, d)[b := block], ViewOf(u, d);
    assert |v| == |w|;
    forall c | 0 <= c < |v|
      ensures v[c] == w[c]
    {
      assert c > 0 ==> w[c] == ContentOf(u, d, c);
    }
  }

  lemma {:induction false} SlotIs(t: seq<Buffer>, k: nat)
    requires Unique(t) && k < |t| && t[k].blocknr > 0
    ensures Slot(t, t[k].blocknr, 0) == k
  {
  }

  lemma {:induction false} SlotSame(t: seq<Buffer>, u: seq<Buffer>, b: nat, k: nat)
    requires |t| == |u| && k <= |t|
    requires forall j :: 0 <= j < |t| ==> (t[j].blocknr == b <==> u[j].blocknr == b)
    ensures Slot(t, b, k) == Slot(u, b, k)
    decreases |t| - k
  {
    if k < |t| && t[k].blocknr != b {
      SlotSame(t, u, b, k + 1);
    }
  }

  /** Links are no part of the content, nor of the invariant on contents. */
  lemma {:induction false} LinksDoNotMatter(t: seq<Buffer>, u: seq<Buffer>, d: seq<Cell>, touched: set<nat>)
    requires SameBuffers(u, t) && WellFormed(t) && Coherent(t, d, touched)
    ensures WellFormed(u) && Coherent(u, d, touched) && SameContent(t, d, u, d)
  {
    forall b: nat | b < BlocksIn(|d|)
      ensures ContentOf(u, d, b) == ContentOf(t, d, b)
    {
      SlotSame(t, u, b, 0);
    }
  }

  /** A write-back: the buffer goes to disk and becomes clean. */
  lemma {:induction false} WriteBackKeeps(t: seq<Buffer>, d: seq<Cell>, touched: set<nat>, k: nat)
    requires WellFormed(t) && Coherent(t, d, touched) && k < |t| && t[k].blocknr > 0
    ensures var u, e := t[k := t[k].(dirt := false)], Spliced(d, t[k].blocknr * BLOCK_SIZE, t[k].block);
      WellFormed(u) && Coherent(u, e, touched) && SameContent(t, d, u, e)
  {
    hide Spliced, DiskBlock, ContentOf, Slot;
    var u, e := t[k := t[k].(dirt := false)], Spliced(d, t[k].blocknr * BLOCK_SIZE, t[k].block);
    forall b | 0 < b < BlocksIn(|d|)
      ensures ContentOf(u, e, b) == ContentOf(t, d, b)
    {
      WriteBackContent(t, d, k, b);
    }
    forall j | 0 <= j < |u| && 0 < u[j].blocknr < BlocksIn(|e|) && !u[j].dirt && j !in touched
      ensures u[j].block == DiskBlock(e, u[j].blocknr)
    {
      SplicedBlock(d, t[k].blocknr, t[k].block, u[j].blocknr);
    }
  }

  lemma {:induction false} WriteBackContent(t: seq<Buffer>, d: seq<Cell>, k: nat, b: nat)
    requires WellFormed(t) && k < |t| && t[k].blocknr > 0 && 0 < b < BlocksIn(|d|)
    ensures ContentOf(t[k := t[k].(dirt := false)], Spliced(d, t[k].blocknr * BLOCK_SIZE, t[k].block), b) ==
            ContentOf(t, d, b)
  {
    hide Spliced, DiskBlock;
    SplicedBlock(d, t[k].blocknr, t[k].block, b);
    SlotIs(t, k);
    SlotSame(t, t[k := t[k].(dirt := false)], b, 0);
  }

  lemma {:induction false} SameContentRefl(t: seq<Buffer>, d: seq<Cell>)
    ensures SameContent(t, d, t, d)
  {
  }

  lemma {:induction false} SameContentTrans(t: seq<Buffer>, d: seq<Cell>, u: seq<Buffer>, e: seq<Cell>, v: seq<Buffer>, f: seq<Cell>)
    requires SameContent(t, d, u, e) && SameContent(u, e, v, f)
    ensures SameContent(t, d, v, f)
  {
    hide ContentOf;
  }

  /** Writing to a buffer changes the content of its block and of no other. */
  lemma {:induction false} StoreChanges(t: seq<Buffer>, d: seq<Cell>, k: nat, block: Block, b: nat)
    requires Unique(t) && k < |t| && t[k].blocknr > 0 && b < BlocksIn(|d|)
    ensures ContentOf(t[k := t[k].(block := block)], d, b) ==
            if b == t[k].blocknr then block else ContentOf(t, d, b)
  {
    var u := t[k := t[k].(block := block)];
    SlotIs(t, k);
    SlotSame(t, u, b, 0);
  }

  lemma {:induction false} DirtDoesNotMatter(t: seq<Buffer>, u: seq<Buffer>, d: seq<Cell>, k: nat)
    requires k < |t| && u == t[k := t[k].(dirt := true)]
    ensures SameContent(t, d, u, d)
  {
    forall b: nat | b < BlocksIn(|d|)
      ensures ContentOf(u, d, b) == ContentOf(t, d, b)
    {
      SlotSame(t, u, b, 0);
    }
  }

  /** With no dirty buffer and no pending write the disk is the content. */
  lemma {:induction false} CleanMeansOnDisk(t: seq<Buffer>, d: seq<Cell>, b: nat)
    requires Coherent(t, d, {}) && 0 < b < BlocksIn(|d|) && forall k :: 0 <= k < |t| ==> !t[k].dirt
    ensures DiskBlock(d, b) == ContentOf(t, d, b)
  {
  }

  /** Reusing a clean, free buffer for another block. */
  lemma {:induction false} ReuseKeeps(t: seq<Buffer>, d: seq<Cell>, touched: set<nat>, k: nat, new_: Buffer)
    requires WellFormed(t) && Coherent(t, d, touched) && k < |t| && !t[k].dirt && k !in touched
    requires new_.blocknr > 0 && Slot(t, new_.blocknr, 0) == -1 && !new_.dirt && |new_.block| == BLOCK_SIZE
    requires new_.blocknr < BlocksIn(|d|) ==> new_.block == DiskBlock(d, new_.blocknr)
    ensures var u := t[k := new_]; WellFormed(u) && Coherent(u, d, touched) && SameContent(t, d, u, d)
  {
    var u := t[k := new_];
    forall b | 0 < b < BlocksIn(|d|)
      ensures ContentOf(u, d, b) == ContentOf(t, d, b)
    {
      if b == new_.blocknr {
        SlotIs(u, k);
      } else if b == t[k].blocknr {
        SlotIs(t, k);
        assert Slot(u, b, 0) == -1;
      } else {
        SlotSame(t, u, b, 0);
      }
    }
  }

  class Cache {
    var table: seq<Buffer>
    var front: int
    var rear: int
    const disk: array<Cell>
    ghost var lru: seq<nat>
    /** Held buffers written to since they were fetched. */
    ghost var touched: set<nat>

    ghost predicate Valid()
      reads this, disk
    {
      && WellFormed(table) && Linked(table, lru, front, rear) && Coherent(table, disk[..], touched)
      && (forall k :: k in touched ==> k < LRU_LEN && k !in lru)
      && forall k :: 0 <= k < LRU_LEN && k !in lru ==> table[k].blocknr > 0
    }

    ghost predicate Held(k: nat)
      reads this
    {
      k < LRU_LEN == |table| && k !in lru
    }

    ghost function Blocks(): nat {
      BlocksIn(disk.Length)
    }

    ghost function Content(b: nat): Block
      requires b < Blocks()
      reads this, disk
    {
      ContentOf(table, disk[..], b)
    }

    /** init_buf. */
    constructor (disk: array<Cell>)
      ensures this.disk == disk && Valid() && touched == {} && |lru| == LRU_LEN
      ensures forall b :: 0 < b < Blocks() ==> Content(b) == DiskBlock(disk[..], b)
    {
      hide DiskBlock, Linked, Coherent, WellFormed, ContentOf;
      this.disk := disk;
      table, front, rear, lru, touched := [], -1, -1, [], {};
      new;
      var prevbuf := -1;
      for i := 0 to LRU_LEN
        invariant |table| == i == |lru| && prevbuf == i - 1 && touched == {}
        invariant i > 0 ==> front == i - 1 && rear == 0
        invariant forall k :: 0 <= k < i ==> lru[k] == k && Blank(table, k)
        invariant forall k :: 0 <= k < i ==> k in lru
      {
        ghost var t := table;
        table := table + [Buffer(seq(BLOCK_SIZE, _ => 0), -1, -1, 0, false, 0)];
        if prevbuf == -1 {
          front, rear := i, i;
        } else {
          table := table[prevbuf := table[prevbuf].(next := i)];
          table := table[i := table[i].(prev := prevbuf)];
          front := i;
        }
        prevbuf := i;
        lru := lru + [i];
        forall k | 0 <= k <= i
          ensures Blank(table, k)
        {
          assert k < i ==> Blank(t, k);
        }
      }
      BlankTable(table, lru, disk[..]);
    }

    // ---------- The list ----------

    /** rm_lru.  Taking out the only buffer leaves an empty list. */
    method RmLru(k: nat, ghost p: nat)
      requires Linked(table, lru, front, rear) && p < |lru| && lru[p] == k
      modifies `table, `front, `rear, `lru
      ensures lru == old(Removed(lru, p)) && SameBuffers(table, old(table)) && CountsBut(table, old(table), -1)
      ensures if |old(lru)| >= 2 then Linked(table, lru, front, rear) else front == rear == -1
    {
      hide Linked, Removed;
      Neighbours(table, lru, front, rear, p);
      RearIsFirst(table, lru, front, rear);
      if |lru| >= 2 {
        Unlink(table, lru, front, rear, p);
      }
      var b := table[k];
      if b.prev != -1 {
        table := table[b.prev := table[b.prev].(next := b.next)];
      }
      if b.next != -1 {
        table := table[b.next := table[b.next].(prev := b.prev)];
      }
      if rear == k {
        rear := b.next;
      }
      if front == k {
        front := b.prev;
      }
      lru := Removed(lru, p);
    }

    /** dequeue_buf.  Taking off the only buffer leaves FRONT behind. */
    method DequeueBuf() returns (k: int)
      requires Linked(table, lru, front, rear) || (lru == [] && rear == -1)
      modifies `table, `rear, `lru
      ensures old(lru) == [] ==> k == -1 && lru == [] && table == old(table) && rear == -1
      ensures old(lru) != [] ==> k == old(lru)[0] && lru == Removed(old(lru), 0) && SameBuffers(table, old(table))
      ensures CountsBut(table, old(table), -1)
      ensures |old(lru)| == 1 ==> rear == -1 && front == k
      ensures |old(lru)| >= 2 ==> Linked(table, lru, front, rear)
    {
      hide Linked, Removed;
      k := rear;
      if k == -1 {
        if lru != [] {
          RearIsFirst(table, lru, front, rear);
        }
        return;
      }
      RearIsFirst(table, lru, front, rear);
      Neighbours(table, lru, front, rear, 0);
      if |lru| >= 2 {
        Unlink(table, lru, front, rear, 0);
      }
      if table[k].next != -1 {
        table := table[table[k].next := table[table[k].next].(prev := -1)];
      }
      rear := table[k].next;
      lru := Removed(lru, 0);
      ghost var t := table;
      table := table[k := table[k].(next := -1, prev := -1)];
      if |old(lru)| >= 2 {
        LinkedFrame(t, table, lru, front, rear);
      }
    }

    method EnqueueBuf(k: nat)
      requires Linked(table, lru, front, rear) && k < |table| && k !in lru
      modifies `table, `front, `lru
      ensures lru == old(lru) + [k] && Linked(table, lru, front, rear)
      ensures SameBuffers(table, old(table)) && CountsBut(table, old(table), -1)
    {
      hide Linked;
      Append(table, lru, front, rear, k);
      table := table[k := table[k].(next := -1, prev := front)];
      table := table[front := table[front].(next := k)];
      front := k;
      lru := lru + [k];
    }

    // ---------- Block I/O ----------

    /** blk_dev_io_read: as much of len cells at off as the disk has. */
    method DevRead(buf: Block, off: nat, len: nat) returns (out: Block, r: nat)
      requires len <= |buf|
      ensures r == Reach(disk.Length, off, len) && |out| == |buf|
      ensures forall i :: 0 <= i < r ==> off + i < disk.Length && out[i] == disk[off + i]
      ensures forall i :: r <= i < |buf| ==> out[i] == buf[i]
    {
      out, r := buf, len;
      if off >= disk.Length {
        r := 0;
        return;
      }
      if off + len > disk.Length {
        r := disk.Length - off;
      }
      for i := 0 to r
        invariant |out| == |buf|
        invariant forall j :: 0 <= j < i ==> out[j] == disk[off + j]
        invariant forall j :: i <= j < |buf| ==> out[j] == buf[j]
      {
        out := out[i := disk[off + i]];
      }
    }

    /** blk_dev_io_write. */
    method DevWrite(buf: Block, off: nat, len: nat) returns (r: nat)
      requires len == |buf|
      modifies disk
      ensures r == Reach(disk.Length, off, len) && disk[..] == Spliced(old(disk[..]), off, buf)
    {
      r := len;
      if off >= disk.Length {
        r := 0;
        return;
      }
      if off + len > disk.Length {
        r := disk.Length - off;
      }
      for i := 0 to r
        invariant forall j :: 0 <= j < i ==> disk[off + j] == buf[j]
        invariant forall j :: 0 <= j < disk.Length && !(off <= j < off + i) ==> disk[j] == old(disk[j])
      {
        disk[off + i] := buf[i];
      }
      assert r > 0 || len == 0;
    }

    /** block_io, READING. */
    method ReadBlock(k: nat) returns (r: nat)
      requires k < |table| && |table[k].block| == BLOCK_SIZE
      modifies `table
      ensures |table| == |old(table)| && table == old(table)[k := old(table[k]).(block := table[k].block)]
      ensures |table[k].block| == BLOCK_SIZE && (r == BLOCK_SIZE <==> table[k].blocknr < Blocks())
      ensures r == BLOCK_SIZE ==> table[k].block == DiskBlock(disk[..], table[k].blocknr)
    {
      BlockOnDisk(disk.Length, table[k].blocknr);
      var block;
      block, r := DevRead(table[k].block, table[k].blocknr * BLOCK_SIZE, BLOCK_SIZE);
      table := table[k := table[k].(block := block)];
    }

    /** block_io, WRITING. */
    method WriteBlock(k: nat) returns (r: nat)
      requires k < |table| && |table[k].block| == BLOCK_SIZE
      modifies disk
      ensures disk[..] == Spliced(old(disk[..]), table[k].blocknr * BLOCK_SIZE, table[k].block)
      ensures r == BLOCK_SIZE <==> table[k].blocknr < Blocks()
    {
      BlockOnDisk(disk.Length, table[k].blocknr);
      r := DevWrite(table[k].block, table[k].blocknr * BLOCK_SIZE, BLOCK_SIZE);
    }

    // ---------- The cache ----------

    /** The write-back step shared by eviction and flushing. */
    method WriteBack(k: nat)
      requires WellFormed(table) && Coherent(table, disk[..], touched) && k < LRU_LEN
      modifies `table, disk
      ensures WellFormed(table) && Coherent(table, disk[..], touched)
      ensures SameContent(old(table), old(disk[..]), table, disk[..])
      ensures table == old(table)[k := old(table[k]).(dirt := false)]
    {
      hide Coherent, SameContent, ContentOf, Unique, Spliced;
      if table[k].dirt {
        WriteBackKeeps(table, disk[..], touched, k);
        var _ := WriteBlock(k);
        table := table[k := table[k].(dirt := false)];
      } else {
        SameContentRefl(table, disk[..]);
      }
    }

    /** The read step of get_block_buffer: a clean buffer that nobody uses is filled with block b. */
    method Load(k: nat, b: nat) returns (r: nat)
      requires WellFormed(table) && Coherent(table, disk[..], touched) && k < LRU_LEN && k !in touched
      requires !table[k].dirt && b > 0 && Slot(table, b, 0) == -1
      modifies `table
      ensures WellFormed(table) && Coherent(table, disk[..], touched)
      ensures SameContent(old(table), disk[..], table, disk[..])
      ensures table == old(table)[k := old(table[k]).(blocknr := b, block := table[k].block)]
      ensures r == BLOCK_SIZE <==> b < Blocks()
    {
      hide Coherent, SameContent, ContentOf, Unique, DiskBlock;
      ghost var t := table;
      table := table[k := table[k].(blocknr := b)];
      r := ReadBlock(k);
      assert table == t[k := table[k]];
      ReuseKeeps(t, disk[..], touched, k, table[k]);
    }

    /** The part of get_block_buffer after the table has been searched in vain: the least
        recently put buffer is written back if dirty and then filled from the disk. */
    method Fetch(b: nat) returns (k: int)
      requires Valid() && |lru| >= 2 && b > 0 && Slot(table, b, 0) == -1
      modifies this, disk
      ensures Valid() && touched == old(touched)
      ensures SameContent(old(table), old(disk[..]), table, disk[..])
      ensures forall j :: 0 <= j < LRU_LEN && j != old(lru[0]) ==> SameBuffer(table[j], old(table[j]))
      ensures table[old(lru[0])].blocknr == b && !table[old(lru[0])].dirt
      ensures CountsBut(table, old(table), k) && (k >= 0 ==> k < LRU_LEN && table[k].count == 1)
      ensures if b < Blocks() then k == old(lru[0]) && lru == old(Removed(lru, 0))
              else k == -1 && lru == old(Removed(lru, 0)) + [old(lru[0])]
    {
      hide Linked, Coherent, Unique, SameContent, ContentOf, Removed;
      ghost var t0, d0 := table, disk[..];
      RearIsFirst(table, lru, front, rear);
      k := DequeueBuf();
      LinksDoNotMatter(t0, table, d0, touched);
      SlotSame(t0, table, b, 0);
      ghost var t1 := table;
      WriteBack(k);
      SlotSame(t1, table, b, 0);
      SameContentTrans(t0, d0, t1, d0, table, disk[..]);
      ghost var t2 := table;
      var r := Load(k, b);
      SameContentTrans(t0, d0, t2, disk[..], table, disk[..]);
      LinkedFrame(t1, table, lru, front, rear);
      ghost var t3 := table;
      if r != BLOCK_SIZE {
        EnqueueBuf(k);
        k := -1;
      } else {
        table := table[k := table[k].(blocknr := b, next := -1, prev := -1, dirt := false, count := 1)];
        LinkedFrame(t3, table, lru, front, rear);
      }
      LinksDoNotMatter(t3, table, disk[..], touched);
      SameContentTrans(t0, d0, t3, disk[..], table, disk[..]);
      forall j: nat
        ensures (j in lru ==> j in old(lru)) && (j in old(lru) && j != old(lru[0]) ==> j in lru)
      {
        RemovedMembers(old(lru), 0, j);
      }
    }

    /** get_block_buffer finding block b in buffer k. */
    method Take(k: nat, ghost p: nat)
      requires Valid() && |lru| >= 2 && p < |lru| && lru[p] == k && table[k].blocknr > 0
      modifies this
      ensures Valid() && touched == old(touched) && SameBuffers(table, old(table))
      ensures lru == Removed(old(lru), p) && k !in lru
      ensures CountsBut(table, old(table), k) && k < LRU_LEN && table[k].count == old(table[k]).count + 1
      ensures SameContent(old(table), disk[..], table, disk[..])
    {
      hide Linked, Coherent, Unique, SameContent, ContentOf, Removed;
      RearIsFirst(table, lru, front, rear);
      RmLru(k, p);
      ghost var t := table;
      table := table[k := table[k].(count := table[k].count + 1)];
      LinkedFrame(t, table, lru, front, rear);
      LinksDoNotMatter(old(table), table, disk[..], touched);
      forall j: nat
        ensures (j in lru ==> j in old(lru)) && (j in old(lru) && j != k ==> j in lru)
      {
        RemovedMembers(old(lru), p, j);
      }
    }

    /** get_block_buffer; NULL is -1.  A hit takes the buffer out of the list wherever it is, a miss
        takes the one put back longest ago, and a block beyond the disk is reported only on a miss. */
    method GetBlockBuffer(b: nat) returns (k: int, ghost p: nat)
      requires Valid() && |lru| >= 2 && b > 0
      requires forall j :: 0 <= j < LRU_LEN && table[j].blocknr == b ==> j in lru
      modifies this, disk
      ensures Valid() && touched == old(touched)
      ensures SameContent(old(table), old(disk[..]), table, disk[..])
      ensures forall j :: 0 <= j < LRU_LEN && (Slot(old(table), b, 0) != -1 || j != old(lru[0])) ==> SameBuffer(table[j], old(table[j]))
      ensures k == -1 <==> Slot(old(table), b, 0) == -1 && b >= Blocks()
      ensures p < |old(lru)|
      ensures var s := Slot(old(table), b, 0); if s == -1 then p == 0 else old(lru)[p] == s
      ensures k == -1 ==> lru == Removed(old(lru), 0) + [old(lru[0])] && table[old(lru[0])].blocknr == b
      ensures Slot(old(table), b, 0) == -1 ==> !table[old(lru[0])].dirt
      ensures CountsBut(table, old(table), k)
      ensures k != -1 ==>
        0 <= k < LRU_LEN && table[k].count == if Slot(old(table), b, 0) == -1 then 1 else old(table[k]).count + 1
      ensures k != -1 ==> 0 <= k < LRU_LEN && k == old(lru)[p] && k !in lru && lru == Removed(old(lru), p) && table[k].blocknr == b
    {
      hide Linked, Coherent, Unique, SameContent, ContentOf, Removed;
      RearIsFirst(table, lru, front, rear);
      for i := 0 to LRU_LEN
        invariant table == old(table) && lru == old(lru) && touched == old(touched) && disk[..] == old(disk[..])
        invariant Valid() && forall j :: 0 <= j < i ==> table[j].blocknr != b
      {
        if table[i].blocknr == b {
          ghost var q :| 0 <= q < |lru| && lru[q] == i;
          k, p := i, q;
          Take(i, p);
          return;
        }
      }
      p := 0;
      k := Fetch(b);
    }

    /** A block beyond the disk, asked for twice: it is refused the first time and granted the second. */
    method AskTwice(b: nat) returns (first: int, second: int)
      requires Valid() && |lru| >= 2 && b > 0 && b >= Blocks() && Slot(table, b, 0) == -1
      modifies this, disk
      ensures Valid() && first == -1 && 0 <= second < LRU_LEN && table[second].blocknr == b
    {
      hide Linked, Coherent, Unique, SameContent, ContentOf, Removed;
      RearIsFirst(table, lru, front, rear);
      ghost var p;
      first, p := GetBlockBuffer(b);
      ghost var k := old(lru[0]);
      forall j | 0 <= j < LRU_LEN && table[j].blocknr == b
        ensures j in lru
      {
        SlotIs(table, j);
        SlotIs(table, k);
        assert k in lru;
      }
      second, p := GetBlockBuffer(b);
    }

    /** put_block_buffer, for a buffer that was only read or is already dirty. */
    method PutBlockBuffer(k: nat)
      requires Valid() && Held(k) && k !in touched
      modifies this
      ensures Valid() && touched == old(touched) && SameBuffers(table, old(table))
      ensures lru == old(lru) + [k] && SameContent(old(table), disk[..], table, disk[..])
      ensures CountsBut(table, old(table), k) && table[k].count == if old(table[k]).count > 0 then old(table[k]).count - 1 else 0
    {
      hide Linked, Coherent, Unique, SameContent, ContentOf;
      EnqueueBuf(k);
      ghost var t := table;
      table := table[k := table[k].(count := table[k].count - 1)];
      if table[k].count <= 0 {
        table := table[k := table[k].(count := 0)];
      }
      LinkedFrame(t, table, lru, front, rear);
      LinksDoNotMatter(old(table), table, disk[..], touched);
    }

    /** put_block_buffer_dirt. */
    method PutBlockBufferDirt(k: nat)
      requires Valid() && Held(k)
      modifies this
      ensures Valid() && touched == old(touched) - {k}
      ensures SameBuffers(table, old(table)[k := old(table[k]).(dirt := true)])
      ensures lru == old(lru) + [k] && SameContent(old(table), disk[..], table, disk[..])
      ensures CountsBut(table, old(table), k) && table[k].count == if old(table[k]).count > 0 then old(table[k]).count - 1 else 0
    {
      hide Linked, SameContent, ContentOf, DiskBlock;
      ghost var t := table;
      table := table[k := table[k].(dirt := true)];
      touched := touched - {k};
      LinkedFrame(t, table, lru, front, rear);
      DirtDoesNotMatter(t, table, disk[..], k);
      ghost var u := table;
      PutBlockBuffer(k);
      SameContentTrans(t, disk[..], u, disk[..], table, disk[..]);
    }

    /** The holder of a buffer writes to it. */
    method Store(k: nat, block: Block)
      requires Valid() && Held(k) && |block| == BLOCK_SIZE
      modifies `table, `touched
      ensures Valid() && touched == old(touched) + {k}
      ensures table == old(table)[k := old(table[k]).(block := block)]
      ensures forall b :: 0 < b < BlocksIn(disk.Length) ==>
                ContentOf(table, disk[..], b) == if b == old(table[k].blocknr) then block else ContentOf(old(table), disk[..], b)
    {
      hide Linked, ContentOf, DiskBlock;
      ghost var t := table;
      table := table[k := table[k].(block := block)];
      touched := touched + {k};
      LinkedFrame(t, table, lru, front, rear);
      forall b: nat | b < BlocksIn(disk.Length)
        ensures ContentOf(table, disk[..], b) == if b == t[k].blocknr then block else ContentOf(t, disk[..], b)
      {
        StoreChanges(t, disk[..], k, block, b);
      }
    }

    /** flush_all_buffer. */
    method FlushAll()
      requires Valid()
      modifies this, disk
      ensures Valid() && lru == old(lru) && touched == old(touched)
      ensures SameContent(old(table), old(disk[..]), table, disk[..])
      ensures forall k :: 0 <= k < LRU_LEN ==> table[k] == old(table[k]).(dirt := false)
      ensures touched == {} ==> forall b :: 0 < b < Blocks() ==> DiskBlock(disk[..], b) == Content(b)
    {
      hide Linked, Coherent, Unique, SameContent, ContentOf, DiskBlock;
      SameContentRefl(table, disk[..]);
      for j := 0 to LRU_LEN
        invariant WellFormed(table) && Coherent(table, disk[..], touched)
        invariant lru == old(lru) && touched == old(touched) && front == old(front) && rear == old(rear)
        invariant SameContent(old(table), old(disk[..]), table, disk[..])
        invariant forall k :: 0 <= k < LRU_LEN ==> table[k] == if k < j then old(table[k]).(dirt := false) else old(table[k])
      {
        ghost var t, d := table, disk[..];
        WriteBack(j);
        SameContentTrans(old(table), old(disk[..]), t, d, table, disk[..]);
      }
      LinkedFrame(old(table), table, lru, front, rear);
      forall b: nat | 0 < b < Blocks() && touched == {}
        ensures DiskBlock(disk[..], b) == Content(b)
      {
        CleanMeansOnDisk(table, disk[..], b);
      }
    }

    /** Between file operations: nobody holds a buffer. */
    ghost predicate Idle()
      reads this, disk
    {
      Valid() && |lru| == LRU_LEN && touched == {}
    }

    /** The content of all blocks. */
    ghost function View(): (v: seq<Block>)
      reads this, disk
      ensures |v| == BlocksIn(disk.Length)
    {
      ViewOf(table, disk[..])
    }

    lemma IdleListsAll()
      requires Idle()
      ensures |table| == LRU_LEN && forall j :: 0 <= j < LRU_LEN ==> j in lru
    {
      assert lru[0] != lru[1] && lru[0] != lru[2] && lru[0] != lru[3];
      assert lru[1] != lru[2] && lru[1] != lru[3] && lru[2] != lru[3];
    }

    lemma HeldContent(k: nat)
      requires Valid() && k < LRU_LEN && 0 < table[k].blocknr < Blocks()
      ensures table[k].block == View()[table[k].blocknr] && |table[k].block| == BLOCK_SIZE && |table| == LRU_LEN
    {
      SlotIs(table, k);
    }

    /** Get a block of the disk while nobody holds a buffer. */
    method Borrow(b: nat) returns (k: nat)
      requires Idle() && 0 < b < Blocks()
      modifies this, disk
      ensures Lent(k, b) && touched == {} && View() == old(View())
    {
      hide Valid, SameContent, ViewOf, SameBuffer, Removed, Slot;
      IdleListsAll();
      ghost var p;
      var r;
      r, p := GetBlockBuffer(b);
      k := r;
      SameView(old(table), old(disk[..]), table, disk[..]);
      HeldContent(k);
    }

    /** Buffer k is the only one held, for block b. */
    ghost predicate Lent(k: nat, b: nat)
      reads this, disk
    {
      && Valid() && Held(k) && |lru| == LRU_LEN - 1 && table[k].blocknr == b < |View()|
      && table[k].block == View()[b] && |table[k].block| == BLOCK_SIZE
    }

    method Return(k: nat, ghost b: nat)
      requires Lent(k, b) && touched == {}
      modifies this
      ensures Idle() && View() == old(View())
    {
      hide Valid, SameContent, ViewOf, SameBuffer;
      PutBlockBuffer(k);
      SameView(old(table), disk[..], table, disk[..]);
    }

    /** The holder writes to the buffer and puts it back dirty. */
    method ReturnDirt(k: nat, ghost b: nat, block: Block)
      requires Lent(k, b) && touched == {} && 0 < b && |block| == BLOCK_SIZE
      modifies this
      ensures Idle() && View() == old(View())[b := block]
    {
      hide Valid, SameContent, ContentOf, SameBuffer, ViewOf;
      Store(k, block);
      StoredView(old(table), table, disk[..], b, block);
      ghost var t := table;
      PutBlockBufferDirt(k);
      SameView(t, disk[..], table, disk[..]);
    }
  }
}
