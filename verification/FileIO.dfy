/** Reading and writing files through the block cache.

    The ghost field `datas` holds, for every file, the sequence of cells a reader should see up
    to the highest position ever written.  The invariant says that the zones of the files
    spell out these sequences, that every zone is marked in the block bitmap, and that no block
    backs two zones.
 */
module FileIO {
  import opened BlockCache
  import opened Bitmap

  const NR_TZONES: nat := 8
  const ENOSPC: int := -28
  /** Not a return value of the program: the call used a block beyond the disk. */
  const FAULT: int := -1000

  datatype Inode = Inode(zone: seq<nat>, size: nat, total: nat)

  // ---------- Files as sequences ----------

  /** d with s written at pos. */
  function Overwrite(d: seq<Cell>, pos: nat, s: seq<Cell>): (r: seq<Cell>)
    requires pos <= |d|
    ensures |r| == if pos + |s| < |d| then |d| else pos + |s|
    ensures forall k :: 0 <= k < |r| ==> r[k] == if pos <= k < pos + |s| then s[k - pos] else d[k]
  {
    d[..pos] + s + if pos + |s| < |d| then d[pos + |s|..] else []
  }

  lemma {:induction false} NothingWritten(ino: seq<Inode>, datas: seq<seq<Cell>>, f: nat, pos: nat, lo: nat)
    requires |ino| == |datas| && f < |datas| && pos <= |datas[f]| && lo <= |ino[f].zone|
    ensures datas == datas[f := Overwrite(datas[f], pos, [])] && Extended(ino, ino, f, 0, lo, lo)
    ensures Missing(ino[f].zone, lo, lo) == 0
  {
    assert Overwrite(datas[f], pos, []) == datas[f];
  }

  lemma {:induction false} ExtendedMore(ino: seq<Inode>, jno: seq<Inode>, kno: seq<Inode>, f: nat, m: nat, n: nat, lo: nat, cur: nat)
    requires Extended(jno, kno, f, n, lo, cur) && Extended(ino, jno, f, m, cur, cur + 1)
    ensures Extended(ino, kno, f, n + m, lo, cur + 1)
  {
    MissingSplit(kno[f].zone, lo, cur, cur + 1);
    assert Missing(jno[f].zone, cur, cur + 1) == Missing(kno[f].zone, cur, cur + 1);
  }

  /** What a write found: the inodes and the contents, the counts, the free blocks, and whether there is a bit to spare. */
  datatype Before = Before(inodes: seq<Inode>, datas: seq<seq<Cell>>, inUse: int, freeBlocks: int, free: nat, beyond: bool)

  lemma {:induction false} OverwriteTwice(d: seq<Cell>, pos: nat, a: seq<Cell>, b: seq<Cell>)
    requires pos <= |d|
    ensures Overwrite(Overwrite(d, pos, a), pos + |a|, b) == Overwrite(d, pos, a + b)
  {
  }

  /** After the first n cells of buf, the next len. */
  lemma {:induction false} OverwriteMore(d: seq<Cell>, pos: nat, buf: seq<Cell>, n: nat, len: nat)
    requires pos <= |d| && n + len <= |buf|
    ensures |Overwrite(d, pos, buf[..n])| >= pos + n
    ensures Overwrite(Overwrite(d, pos, buf[..n]), pos + n, buf[n..n + len]) == Overwrite(d, pos, buf[..n + len])
  {
    OverwriteTwice(d, pos, buf[..n], buf[n..n + len]);
    assert buf[..n] + buf[n..n + len] == buf[..n + len];
  }

  /** A zone number that may be used: 0 for none, or a block of the disk marked in the bitmap. */
  predicate ZoneOk(v: seq<Block>, mapNr: nat, z: nat)
    requires mapNr < |v| && |v[mapNr]| == BLOCK_SIZE
  {
    z == 0 || (z < |v| && z != mapNr && z < 32 * BLOCK_SIZE && BitOn(v[mapNr], z))
  }

  /** Block 1 <= mapNr holds the bitmap; it is marked there itself, and so is block 0. */
  predicate MapOk(v: seq<Block>, mapNr: nat) {
    && 0 < mapNr && mapNr + 1 < |v| <= 32 * BLOCK_SIZE && (forall b :: 0 < b < |v| ==> |v[b]| == BLOCK_SIZE)
    && BitOn(v[mapNr], 0) && BitOn(v[mapNr], mapNr)
  }

  ghost predicate ZonesOk(v: seq<Block>, mapNr: nat, ino: seq<Inode>) {
    && MapOk(v, mapNr)
    && forall f :: 0 <= f < |ino| ==>
         |ino[f].zone| == NR_TZONES && forall i :: 0 <= i < NR_TZONES ==> ZoneOk(v, mapNr, ino[f].zone[i])
  }

  /** No block backs two zones. */
  ghost predicate ZonesDistinct(ino: seq<Inode>) {
    forall f, g, i, j ::
      0 <= f < |ino| && 0 <= g < |ino| && 0 <= i < |ino[f].zone| && 0 <= j < |ino[g].zone| ==>
      ino[f].zone[i] == ino[g].zone[j] ==> ino[f].zone[i] == 0 || (f == g && i == j)
  }

  /** The zones of an inode spell out data, and there is none beyond its end. */
  ghost predicate Spells(v: seq<Block>, n: Inode, data: seq<Cell>) {
    && |n.zone| == NR_TZONES && |data| < NR_TZONES * BLOCK_SIZE && |data| <= n.size
    && (forall i :: 0 <= i < NR_TZONES && n.zone[i] != 0 ==> i * BLOCK_SIZE <= |data|)
    && forall i, o :: 0 <= i < NR_TZONES && 0 <= o < BLOCK_SIZE && i * BLOCK_SIZE + o < |data| ==>
         SpelledAt(v, n, data, i, o)
  }

  ghost predicate SpelledAt(v: seq<Block>, n: Inode, data: seq<Cell>, i: nat, o: nat)
    requires i < |n.zone| && i * BLOCK_SIZE + o < |data|
  {
    var z := n.zone[i];
    0 < z < |v| && o < |v[z]| && v[z][o] == data[i * BLOCK_SIZE + o]
  }

  ghost predicate FilesOk(v: seq<Block>, ino: seq<Inode>, datas: seq<seq<Cell>>) {
    |ino| == |datas| && forall f :: 0 <= f < |ino| ==> Spells(v, ino[f], datas[f])
  }

  // ---------- What a write keeps ----------

  /** A block that is none of a file's zones may change. */
  lemma {:induction false} OtherFile(v: seq<Block>, n: Inode, data: seq<Cell>, b: nat, x: Block)
    requires Spells(v, n, data) && b < |v| && forall i :: 0 <= i < |n.zone| ==> n.zone[i] != b
    ensures Spells(v[b := x], n, data)
  {
    var w := v[b := x];
    forall i, o | 0 <= i < NR_TZONES && 0 <= o < BLOCK_SIZE && i * BLOCK_SIZE + o < |data|
      ensures SpelledAt(w, n, data, i, o)
    {
      assert SpelledAt(v, n, data, i, o);
    }
  }

  /** Writing inside zone cur of a file. */
  lemma {:induction false} SameFile(v: seq<Block>, n: Inode, data: seq<Cell>, cur: nat, off: nat, s: seq<Cell>)
    requires Spells(v, n, data) && cur < NR_TZONES && 0 < n.zone[cur] < |v| && |v[n.zone[cur]]| == BLOCK_SIZE
    requires forall i :: 0 <= i < NR_TZONES && i != cur ==> n.zone[i] != n.zone[cur]
    requires off + |s| <= BLOCK_SIZE && cur * BLOCK_SIZE + off <= |data|
    requires cur * BLOCK_SIZE + off + |s| < NR_TZONES * BLOCK_SIZE
    ensures Spells(v[n.zone[cur] := Overwrite(v[n.zone[cur]], off, s)], n.(size := n.size + |s|),
                   Overwrite(data, cur * BLOCK_SIZE + off, s))
  {
    var b := n.zone[cur];
    var w, m, d := v[b := Overwrite(v[b], off, s)], n.(size := n.size + |s|), Overwrite(data, cur * BLOCK_SIZE + off, s);
    forall i, o | 0 <= i < NR_TZONES && 0 <= o < BLOCK_SIZE && i * BLOCK_SIZE + o < |d|
      ensures SpelledAt(w, m, d, i, o)
    {
      if i == cur && off <= o < off + |s| {
      } else {
        SamePlace(cur, off, |s|, i, o);
        assert SpelledAt(v, n, data, i, o);
      }
    }
  }

  // ---------- How far a read gets ----------

  /** How much the read loop takes from one block: the inode's size is compared with the offset
      inside the block, not with the position in the file. */
  function ReadLen(off: nat, left: nat, size: nat): int {
    var len := if BLOCK_SIZE - off > left then left else BLOCK_SIZE - off;
    if off + len < size then len else size - off
  }

  /** How many zones there are before the first missing one. */
  function Leading(zone: seq<nat>): (k: nat)
    ensures k <= |zone| && (k < |zone| ==> zone[k] == 0) && forall i :: 0 <= i < k ==> zone[i] != 0
    decreases |zone|
  {
    if zone == [] || zone[0] == 0 then 0 else 1 + Leading(zone[1..])
  }

  /** Where reads end: at the size if that lies in the first block, else at the end of the last block. */
  function ReadEnd(n: Inode): nat
    requires |n.zone| > 0
  {
    if n.size < BLOCK_SIZE then if n.zone[0] == 0 then 0 else n.size
    else Leading(n.zone) * BLOCK_SIZE
  }

  /** How many cells a read delivers. */
  function ReadCount(n: Inode, pos: nat, count: nat): (r: nat)
    requires |n.zone| > 0
    ensures r <= count
  {
    if ReadEnd(n) <= pos then 0 else if pos + count <= ReadEnd(n) then count else ReadEnd(n) - pos
  }

  /** The read starts beyond the size, in the first block: the length of the copy comes out negative. */
  predicate Underruns(n: Inode, pos: nat)
    requires |n.zone| > 0
  {
    n.size < pos < BLOCK_SIZE && n.zone[0] != 0
  }

  /** Reads end where the file does. */
  predicate EndsThere(n: Inode, w: nat)
    requires |n.zone| == NR_TZONES && w < NR_TZONES * BLOCK_SIZE
  {
    if n.size < BLOCK_SIZE then n.size == w || n.zone[0] == 0
    else w % BLOCK_SIZE == 0 && n.zone[w / BLOCK_SIZE] == 0
  }

  ghost predicate NoZonesFrom(n: Inode, i: nat) {
    forall k :: i <= k < |n.zone| ==> n.zone[k] == 0
  }

  /** There is no zone after the first missing one. */
  lemma {:induction false} ZonesLead(v: seq<Block>, n: Inode, data: seq<Cell>)
    requires Spells(v, n, data)
    ensures Leading(n.zone) * BLOCK_SIZE >= |data| && NoZonesFrom(n, Leading(n.zone))
    ensures forall i :: 0 <= i < NR_TZONES && n.zone[i] == 0 ==> i * BLOCK_SIZE >= |data| && NoZonesFrom(n, i) && Leading(n.zone) <= i
  {
    forall i | 0 <= i < NR_TZONES && i * BLOCK_SIZE < |data|
      ensures n.zone[i] != 0
    {
      assert SpelledAt(v, n, data, i, 0);
    }
  }

  lemma {:induction false} ReachIsEndIff(v: seq<Block>, n: Inode, data: seq<Cell>)
    requires Spells(v, n, data)
    ensures |data| <= ReadEnd(n) && (ReadEnd(n) == |data| <==> EndsThere(n, |data|))
  {
    ZonesLead(v, n, data);
    var k, w := Leading(n.zone), |data|;
    if n.size >= BLOCK_SIZE && k * BLOCK_SIZE != w {
      assert k > 0 && n.zone[k - 1] != 0;
      assert (k - 1) * BLOCK_SIZE <= w < k * BLOCK_SIZE;
      assert w / BLOCK_SIZE == k - 1;
    } else if n.size >= BLOCK_SIZE {
      assert w / BLOCK_SIZE == k;
    }
  }

  /** A read past the end of the data stops there exactly if the data end at the size and in the first block, or with a full block
      after which no zone is allocated. */
  lemma {:induction false} ReadStopsAtEndIff(v: seq<Block>, n: Inode, data: seq<Cell>, pos: nat, count: nat)
    requires Spells(v, n, data) && pos <= |data|
    ensures ReadCount(n, pos, count) == (if pos + count <= |data| then count else |data| - pos) <==>
            pos + count <= |data| || EndsThere(n, |data|)
  {
    hide Spells, EndsThere, ReadEnd;
    ReachIsEndIff(v, n, data);
  }

  /** One turn of the read loop. */
  lemma {:induction false} ReadTurn(v: seq<Block>, n: Inode, data: seq<Cell>, cur: nat, off: nat, left: nat)
    requires Spells(v, n, data) && cur < NR_TZONES && off < BLOCK_SIZE && !Underruns(n, cur * BLOCK_SIZE + off)
    ensures n.zone[cur] != 0 ==>
      var a := cur * BLOCK_SIZE + off; var len := ReadLen(off, left, n.size);
      && 0 <= len <= left && off + len <= BLOCK_SIZE && (len > 0 ==> a + len <= ReadEnd(n))
      && (len < BLOCK_SIZE - off && len < left ==> ReadEnd(n) <= a + len && NoZonesFrom(n, cur + 1))
    ensures n.zone[cur] == 0 ==> ReadEnd(n) <= cur * BLOCK_SIZE && NoZonesFrom(n, cur)
  {
    assert cur > 0 ==> cur * BLOCK_SIZE >= BLOCK_SIZE;
    ZonesLead(v, n, data);
    if n.zone[cur] != 0 {
      assert cur < Leading(n.zone);
    }
  }

  /** The cell at place a of a file, as the zones have it. */
  ghost function CellAt(v: seq<Block>, n: Inode, a: nat): Cell
    requires a / BLOCK_SIZE < |n.zone| && n.zone[a / BLOCK_SIZE] < |v| && |v[n.zone[a / BLOCK_SIZE]]| == BLOCK_SIZE
  {
    v[n.zone[a / BLOCK_SIZE]][a % BLOCK_SIZE]
  }

  /** out is what the zones have from pos on. */
  ghost predicate ReadOut(v: seq<Block>, n: Inode, pos: nat, out: seq<Cell>) {
    forall k :: 0 <= k < |out| ==> OutAt(v, n, pos, out, k)
  }

  ghost predicate OutAt(v: seq<Block>, n: Inode, pos: nat, out: seq<Cell>, k: nat)
    requires k < |out|
  {
    var a := pos + k;
    && a / BLOCK_SIZE < |n.zone| && 0 < n.zone[a / BLOCK_SIZE] < |v| && |v[n.zone[a / BLOCK_SIZE]]| == BLOCK_SIZE
    && out[k] == CellAt(v, n, a)
  }

  lemma {:induction false} ReadMore(v: seq<Block>, n: Inode, pos: nat, out: seq<Cell>, cur: nat, off: nat, chunk: seq<Cell>)
    requires ReadOut(v, n, pos, out) && pos + |out| == cur * BLOCK_SIZE + off && cur < |n.zone| && 0 < n.zone[cur] < |v|
    requires |v[n.zone[cur]]| == BLOCK_SIZE && off + |chunk| <= BLOCK_SIZE && chunk == v[n.zone[cur]][off..off + |chunk|]
    ensures ReadOut(v, n, pos, out + chunk)
  {
    var next := out + chunk;
    forall k | 0 <= k < |next|
      ensures OutAt(v, n, pos, next, k)
    {
      if k < |out| {
        assert OutAt(v, n, pos, out, k);
      } else {
        var o := off + k - |out|;
        assert pos + k == cur * BLOCK_SIZE + o && (pos + k) / BLOCK_SIZE == cur && (pos + k) % BLOCK_SIZE == o;
      }
    }
  }

  /** Up to the highest position written this is the file's data. */
  lemma {:induction false} ReadIsData(v: seq<Block>, n: Inode, data: seq<Cell>, pos: nat, out: seq<Cell>, k: nat)
    requires Spells(v, n, data) && ReadOut(v, n, pos, out) && k < |out| && pos + k < |data|
    ensures out[k] == data[pos + k]
  {
    var a := pos + k;
    assert OutAt(v, n, pos, out, k);
    assert a == a / BLOCK_SIZE * BLOCK_SIZE + a % BLOCK_SIZE;
    assert SpelledAt(v, n, data, a / BLOCK_SIZE, a % BLOCK_SIZE);
  }

  lemma {:induction false} SamePlace(cur: nat, off: nat, len: nat, i: nat, o: nat)
    requires off + len <= BLOCK_SIZE && o < BLOCK_SIZE
    ensures cur * BLOCK_SIZE + off <= i * BLOCK_SIZE + o < cur * BLOCK_SIZE + off + len <==> i == cur && off <= o < off + len
  {
  }

  /** Writing to a zone of file f: its sequence changes, no other does. */
  lemma {:induction false} WriteKeeps(v: seq<Block>, mapNr: nat, ino: seq<Inode>, datas: seq<seq<Cell>>,
                                      f: nat, cur: nat, off: nat, s: seq<Cell>)
    requires ZonesOk(v, mapNr, ino) && ZonesDistinct(ino) && FilesOk(v, ino, datas)
    requires f < |ino| && cur < NR_TZONES && ino[f].zone[cur] > 0
    requires off + |s| <= BLOCK_SIZE && cur * BLOCK_SIZE + off <= |datas[f]|
    requires cur * BLOCK_SIZE + off + |s| < NR_TZONES * BLOCK_SIZE
    ensures var b := ino[f].zone[cur]; b < |v| && |v[b]| == BLOCK_SIZE
    ensures Written(v, mapNr, ino, datas, f, cur, off, s)
  {
    hide Spells, BitOn;
    assert ZoneOk(v, mapNr, ino[f].zone[cur]);
    var b := ino[f].zone[cur];
    var w := v[b := Overwrite(v[b], off, s)];
    var jno, ds := ino[f := ino[f].(size := ino[f].size + |s|)], datas[f := Overwrite(datas[f], cur * BLOCK_SIZE + off, s)];
    forall g | 0 <= g < |ino|
      ensures Spells(w, jno[g], ds[g])
    {
      assert Spells(v, ino[g], datas[g]);
      if g == f {
        SameFile(v, ino[f], datas[f], cur, off, s);
      } else {
        OtherFile(v, ino[g], datas[g], b, Overwrite(v[b], off, s));
      }
    }
    ZonesKept(v, mapNr, ino, b, Overwrite(v[b], off, s));
    assert forall g :: 0 <= g < |ino| ==> jno[g].zone == ino[g].zone;
  }

  ghost predicate Written(v: seq<Block>, mapNr: nat, ino: seq<Inode>, datas: seq<seq<Cell>>,
                          f: nat, cur: nat, off: nat, s: seq<Cell>)
    requires f < |ino| && |datas| == |ino| && cur < |ino[f].zone|
    requires ino[f].zone[cur] < |v| && |v[ino[f].zone[cur]]| >= off && cur * BLOCK_SIZE + off <= |datas[f]|
  {
    var b := ino[f].zone[cur];
    var w := v[b := Overwrite(v[b], off, s)];
    var jno, ds := ino[f := ino[f].(size := ino[f].size + |s|)], datas[f := Overwrite(datas[f], cur * BLOCK_SIZE + off, s)];
    ZonesOk(w, mapNr, jno) && ZonesDistinct(jno) && FilesOk(w, jno, ds)
  }

  lemma {:induction false} ZonesKept(v: seq<Block>, mapNr: nat, ino: seq<Inode>, b: nat, x: Block)
    requires ZonesOk(v, mapNr, ino) && 0 < b < |v| && b != mapNr && |x| == BLOCK_SIZE
    ensures ZonesOk(v[b := x], mapNr, ino)
  {
    hide BitOn;
    var w := v[b := x];
    assert MapOk(w, mapNr);
    forall f, i | 0 <= f < |ino| && 0 <= i < NR_TZONES
      ensures ZoneOk(w, mapNr, ino[f].zone[i])
    {
      assert ZoneOk(v, mapNr, ino[f].zone[i]);
    }
  }

  // ---------- What an allocation keeps ----------

  /** Bit r is the lowest one that is off. */
  ghost predicate LowestOff(m: Map, r: int) {
    0 <= r < 32 * |m| && !BitOn(m, r) && AllOn(m, r)
  }

  ghost predicate AllOn(m: Map, n: nat) {
    n <= 32 * |m| && forall q :: 0 <= q < n ==> BitOn(m, q)
  }

  /** What a search for one clear bit from the start tells. */
  lemma {:induction false} OneBitRuns(m: Map, n: nat)
    requires n <= 32 * |m| && NoRun(m, 0, n - 1, 1)
    ensures AllOn(m, n)
  {
    hide BitOn;
    forall q | 0 <= q < n
      ensures BitOn(m, q)
    {
      assert !Clear(m, q, 1);
    }
  }

  lemma {:induction false} SearchOne(m: Map, r: int)
    requires |m| == BLOCK_SIZE && BitOn(m, 0)
    requires r == ERR || (0 <= r && r + 1 <= 32 * |m| && Clear(m, r, 1) && NoRun(m, 0, r - 1, 1))
    requires r == ERR ==> NoRun(m, 0, 32 * |m| - 1, 1)
    ensures if r == ERR then AllOn(m, 32 * |m|) else r > 0 && LowestOff(m, r)
  {
    hide BitOn;
    OneBitRuns(m, if r == ERR then 32 * |m| else r);
    if r != ERR {
      assert r <= r < r + 1;
    }
  }

  // ---------- Counting free blocks ----------

  /** How many of the first n bits are off. */
  ghost function OffCount(m: Map, n: nat): nat
    requires n <= 32 * |m|
  {
    if n == 0 then 0 else OffCount(m, n - 1) + if BitOn(m, n - 1) then 0 else 1
  }

  lemma {:induction false} NoneOff(m: Map, n: nat)
    requires n <= 32 * |m|
    ensures OffCount(m, n) == 0 <==> AllOn(m, n)
    decreases n
  {
    hide BitOn;
    if n > 0 {
      NoneOff(m, n - 1);
    }
  }

  lemma {:induction false} OneFewer(m: Map, r: nat, n: nat)
    requires n <= 32 * |m| && r < 32 * |m| && !BitOn(m, r)
    ensures OffCount(WithBit(m, r), n) == OffCount(m, n) - if r < n then 1 else 0
    decreases n
  {
    hide BitOn, WithBit;
    if n > 0 {
      OneFewer(m, r, n - 1);
      SetChangesOne(m, r, n - 1);
      if r >= n - 1 {
        SameBelow(m, r, n - 1);
      }
    }
  }

  lemma {:induction false} SameBelow(m: Map, r: nat, n: nat)
    requires n <= r < 32 * |m|
    ensures OffCount(WithBit(m, r), n) == OffCount(m, n)
    decreases n
  {
    hide BitOn, WithBit;
    if n > 0 {
      SameBelow(m, r, n - 1);
      SetChangesOne(m, r, n - 1);
    }
  }

  /** The blocks of the disk that are free. */
  ghost function FreeOnes(v: seq<Block>, mapNr: nat): nat
    requires MapOk(v, mapNr)
  {
    OffCount(v[mapNr], |v|)
  }

  /** The bitmap has a free bit for a block that the disk has not. */
  ghost predicate BitBeyond(v: seq<Block>, mapNr: nat)
    requires MapOk(v, mapNr)
  {
    exists q :: |v| <= q < 32 * BLOCK_SIZE && !BitOn(v[mapNr], q)
  }

  /** What the search for a free block finds, in terms of the counts: a block of the disk if there is a free one; else a bit beyond;
      else nothing. */
  lemma {:induction false} SearchOutcome(v: seq<Block>, mapNr: nat, r: int)
    requires MapOk(v, mapNr) && (r == ENOSPC ==> AllOn(v[mapNr], 32 * BLOCK_SIZE)) && (r != ENOSPC ==> LowestOff(v[mapNr], r))
    ensures r != ENOSPC ==> (r < |v| <==> FreeOnes(v, mapNr) > 0)
    ensures FreeOnes(v, mapNr) == 0 ==> (r == ENOSPC <==> !BitBeyond(v, mapNr))
    ensures r == ENOSPC ==> FreeOnes(v, mapNr) == 0
  {
    hide BitOn;
    NoneOff(v[mapNr], |v|);
  }

  lemma {:induction false} TakeOne(v: seq<Block>, mapNr: nat, r: nat)
    requires MapOk(v, mapNr) && r < |v| && !BitOn(v[mapNr], r)
    ensures var w := v[mapNr := WithBit(v[mapNr], r)];
      MapOk(w, mapNr) ==> FreeOnes(w, mapNr) == FreeOnes(v, mapNr) - 1 && (BitBeyond(w, mapNr) <==> BitBeyond(v, mapNr))
  {
    hide BitOn, WithBit;
    OneFewer(v[mapNr], r, |v|);
    forall q: nat | q < 32 * |v[mapNr]|
      ensures BitOn(WithBit(v[mapNr], r), q) <==> q == r || BitOn(v[mapNr], q)
    {
      SetChangesOne(v[mapNr], r, q);
    }
  }

  /** How many zones from lo up to hi are missing. */
  function Missing(zone: seq<nat>, lo: nat, hi: nat): nat
    requires lo <= hi <= |zone|
    decreases hi - lo
  {
    if lo == hi then 0 else (if zone[lo] == 0 then 1 else 0) + Missing(zone, lo + 1, hi)
  }

  lemma {:induction false} MissingSplit(zone: seq<nat>, lo: nat, mid: nat, hi: nat)
    requires lo <= mid <= hi <= |zone|
    ensures Missing(zone, lo, hi) == Missing(zone, lo, mid) + Missing(zone, mid, hi)
    decreases mid - lo
  {
    if lo < mid {
      MissingSplit(zone, lo + 1, mid, hi);
    }
  }

  lemma {:induction false} LowestIsOff(m: Map, r: int)
    requires LowestOff(m, r)
    ensures 0 <= r < 32 * |m| && !BitOn(m, r)
  {
  }

  /** A free block becomes zone cur of file f. */
  function WithZone(n: Inode, cur: nat, r: nat): Inode
    requires cur < |n.zone|
  {
    n.(zone := n.zone[cur := r], total := n.total + BLOCK_SIZE)
  }

  lemma {:induction false} AllocKeeps(v: seq<Block>, mapNr: nat, ino: seq<Inode>, datas: seq<seq<Cell>>, f: nat, cur: nat, r: nat)
    requires ZonesOk(v, mapNr, ino) && ZonesDistinct(ino) && FilesOk(v, ino, datas)
    requires f < |ino| && cur < NR_TZONES && ino[f].zone[cur] == 0 && 0 < r < |v| && !BitOn(v[mapNr], r)
    requires cur * BLOCK_SIZE <= |datas[f]|
    ensures var w, jno := v[mapNr := WithBit(v[mapNr], r)], ino[f := WithZone(ino[f], cur, r)];
      ZonesOk(w, mapNr, jno) && ZonesDistinct(jno) && FilesOk(w, jno, datas)
  {
    hide BitOn, WithBit, Spells;
    var w, jno := v[mapNr := WithBit(v[mapNr], r)], ino[f := WithZone(ino[f], cur, r)];
    AllocZones(v, mapNr, ino, f, cur, r);
    forall g | 0 <= g < |ino|
      ensures Spells(w, jno[g], datas[g])
    {
      assert Spells(v, ino[g], datas[g]);
      forall i | 0 <= i < NR_TZONES
        ensures ino[g].zone[i] != mapNr
      {
        assert ZoneOk(v, mapNr, ino[g].zone[i]);
      }
      SpellsZones(v, ino[g], datas[g]);
      OtherFile(v, ino[g], datas[g], mapNr, WithBit(v[mapNr], r));
      if g == f {
        NewZone(w, ino[f], datas[f], cur, r);
      }
    }
  }

  lemma {:induction false} SpellsZones(v: seq<Block>, n: Inode, data: seq<Cell>)
    requires Spells(v, n, data)
    ensures |n.zone| == NR_TZONES
  {
  }

  lemma {:induction false} NewZone(v: seq<Block>, n: Inode, data: seq<Cell>, cur: nat, r: nat)
    requires Spells(v, n, data) && cur < NR_TZONES && n.zone[cur] == 0 && cur * BLOCK_SIZE <= |data|
    ensures Spells(v, WithZone(n, cur, r), data)
  {
    var m := WithZone(n, cur, r);
    forall i, o | 0 <= i < NR_TZONES && 0 <= o < BLOCK_SIZE && i * BLOCK_SIZE + o < |data|
      ensures SpelledAt(v, m, data, i, o)
    {
      assert SpelledAt(v, n, data, i, o);
    }
  }

  lemma {:induction false} AllocZones(v: seq<Block>, mapNr: nat, ino: seq<Inode>, f: nat, cur: nat, r: nat)
    requires ZonesOk(v, mapNr, ino) && ZonesDistinct(ino)
    requires f < |ino| && cur < NR_TZONES && ino[f].zone[cur] == 0 && 0 < r < |v| && !BitOn(v[mapNr], r)
    ensures var w, jno := v[mapNr := WithBit(v[mapNr], r)], ino[f := WithZone(ino[f], cur, r)];
      ZonesOk(w, mapNr, jno) && ZonesDistinct(jno)
  {
    hide BitOn, WithBit;
    var w, jno := v[mapNr := WithBit(v[mapNr], r)], ino[f := WithZone(ino[f], cur, r)];
    forall k: nat | k < 32 * BLOCK_SIZE
      ensures BitOn(w[mapNr], k) <==> k == r || BitOn(v[mapNr], k)
    {
      SetChangesOne(v[mapNr], r, k);
    }
    assert MapOk(w, mapNr);
    forall g, i | 0 <= g < |jno| && 0 <= i < NR_TZONES
      ensures ZoneOk(w, mapNr, jno[g].zone[i])
      ensures !(g == f && i == cur) ==> jno[g].zone[i] == ino[g].zone[i] != r
    {
      assert ZoneOk(v, mapNr, ino[g].zone[i]);
    }
  }

  class FileSystem {
    const cache: Cache
    /** s_blockmapnr and s_blockmap_size of the superblock. */
    const mapNr: nat
    const mapSize: nat
    var inUse: int
    var freeBlocks: int
    var inodes: seq<Inode>
    ghost var datas: seq<seq<Cell>>

    ghost predicate Valid()
      reads this, cache, cache.disk
    {
      && cache.Idle() && mapSize == BLOCK_SIZE && |inodes| == |datas| && ZonesOk(cache.View(), mapNr, inodes)
      && ZonesDistinct(inodes) && FilesOk(cache.View(), inodes, datas)
    }

    /** A disk with n empty files. */
    constructor (cache: Cache, mapNr: nat, inUse: int, freeBlocks: int, n: nat)
      requires cache.Idle() && MapOk(cache.View(), mapNr)
      ensures Valid() && this.cache == cache && |datas| == n && forall f :: 0 <= f < n ==> datas[f] == []
    {
      hide ViewOf;
      this.cache, this.mapNr, mapSize, this.inUse, this.freeBlocks := cache, mapNr, BLOCK_SIZE, inUse, freeBlocks;
      inodes := seq(n, _ => Inode(seq(NR_TZONES, _ => 0), 0, 0));
      datas := seq(n, _ => []);
    }

    /** The read loop's inner part: get, copy out, put. */
    method Peek(b: nat, off: nat, len: nat) returns (out: seq<Cell>)
      requires cache.Idle() && 0 < b < cache.Blocks() && off + len <= BLOCK_SIZE
      modifies cache, cache.disk
      ensures cache.Idle() && cache.View() == old(cache.View())
      ensures |cache.View()| == cache.Blocks() && |cache.View()[b]| == BLOCK_SIZE
      ensures out == cache.View()[b][off..off + len]
    {
      hide ViewOf;
      var k := cache.Borrow(b);
      out := [];
      for i := 0 to len
        invariant out == cache.table[k].block[off..off + i]
      {
        out := out + [cache.table[k].block[off + i]];
      }
      cache.Return(k, b);
    }

    /** The write loop's inner part: get, copy in, put dirty. */
    method Patch(b: nat, off: nat, data: seq<Cell>)
      requires cache.Idle() && 0 < b < cache.Blocks() && off + |data| <= BLOCK_SIZE
      modifies cache, cache.disk
      ensures cache.Idle() && |old(cache.View())| == cache.Blocks() && |old(cache.View())[b]| == BLOCK_SIZE
      ensures cache.View() == old(cache.View())[b := Overwrite(old(cache.View())[b], off, data)]
    {
      hide ViewOf;
      var k := cache.Borrow(b);
      ghost var was := cache.table[k].block;
      var block := cache.table[k].block;
      for i := 0 to |data|
        invariant |block| == BLOCK_SIZE
        invariant block == Overwrite(was, off, data[..i])
      {
        block := block[off + i := data[i]];
      }
      assert data[..|data|] == data;
      cache.ReturnDirt(k, b, block);
    }

    /** alloc_block. */
    method AllocBlock(f: nat) returns (r: int)
      requires cache.Idle() && mapSize == BLOCK_SIZE && MapOk(cache.View(), mapNr) && f < |inodes|
      modifies `inUse, `freeBlocks, `inodes, cache, cache.disk
      ensures cache.Idle()
      ensures r == ENOSPC || (r > 0 && LowestOff(old(cache.View())[mapNr], r))
      ensures if r == ENOSPC
        then cache.View() == old(cache.View()) && inodes == old(inodes) && AllOn(cache.View()[mapNr], 32 * BLOCK_SIZE)
             && inUse == old(inUse) && freeBlocks == old(freeBlocks)
        else cache.View() == old(cache.View())[mapNr := WithBit(old(cache.View())[mapNr], r)]
             && inodes == old(inodes)[f := old(inodes[f]).(total := old(inodes[f]).total + BLOCK_SIZE)]
             && inUse == old(inUse) + 1 && freeBlocks == old(freeBlocks) - 1
    {
      hide Cache.Valid, Linked, WellFormed, Coherent, ViewOf, BitOn, Clear, NoRun, AllOn, WithBit, LowestOff;
      var bmap := cache.Borrow(mapNr);
      var bmapEnd := mapNr + mapSize / BLOCK_SIZE;
      var bnr := cache.table[bmap].blocknr;
      while cache.table[bmap].blocknr < bmapEnd
        invariant cache.Lent(bmap, bnr) && cache.touched == {} && cache.View() == old(cache.View())
        invariant bnr == mapNr || (bnr == mapNr + 1 && AllOn(cache.View()[mapNr], 32 * BLOCK_SIZE))
        invariant inodes == old(inodes) && inUse == old(inUse) && freeBlocks == old(freeBlocks)
        decreases bmapEnd - bnr
      {
        var block := cache.table[bmap].block;
        var freeBit := SearchFrom(block, 0, 1);
        SearchOne(block, freeBit);
        if freeBit > 0 {
          cache.ReturnDirt(bmap, mapNr, WithBit(block, freeBit));
          inUse, freeBlocks := inUse + 1, freeBlocks - 1;
          inodes := inodes[f := inodes[f].(total := inodes[f].total + BLOCK_SIZE)];
          return freeBit;
        }
        cache.Return(bmap, bnr);
        bnr := bnr + 1;
        bmap := cache.Borrow(bnr);
      }
      cache.Return(bmap, bnr);
      return ENOSPC;
    }

    /** The free blocks, and whether the bitmap has a bit to spare. */
    ghost predicate Stock(free: int, beyond: bool)
      reads this, cache, cache.disk
    {
      MapOk(cache.View(), mapNr) && FreeOnes(cache.View(), mapNr) == free && BitBeyond(cache.View(), mapNr) == beyond
    }

    /** How many blocks have been taken since the counts were as given. */
    ghost predicate Counted(inUse0: int, freeBlocks0: int, n: int)
      reads this
    {
      inUse == inUse0 + n && freeBlocks == freeBlocks0 - n
    }

    /** Give zone cur of file f a block, if it has none; the write loop's first part. */
    method EnsureZone(f: nat, cur: nat, ghost free: nat, ghost beyond: bool) returns (bnr: int)
      requires Valid() && f < |inodes| && cur < NR_TZONES && cur * BLOCK_SIZE <= |datas[f]| && Stock(free, beyond)
      modifies `inUse, `freeBlocks, `inodes, cache, cache.disk
      ensures bnr != FAULT ==> Valid()
      ensures bnr > 0 ==>
        var n := if old(inodes[f]).zone[cur] == 0 then 1 else 0;
        && Extended(inodes, old(inodes), f, 0, cur, cur + 1) && inodes[f].zone[cur] == bnr
        && Stock(free - n, beyond) && Counted(old(inUse), old(freeBlocks), n)
      ensures bnr > 0 <==> old(inodes[f]).zone[cur] != 0 || free > 0
      ensures bnr <= 0 ==> bnr == (if beyond then FAULT else ENOSPC) && Counted(old(inUse), old(freeBlocks), if beyond then 1 else 0)
      ensures bnr == ENOSPC ==> inodes == old(inodes) && Stock(free, beyond)
    {
      hide Cache.Valid, Cache.View, ViewOf, ZonesDistinct, FilesOk, BitOn, LowestOff, AllOn, WithBit, FreeOnes, BitBeyond;
      ghost var v := cache.View();
      bnr := inodes[f].zone[cur];
      if bnr == 0 {
        bnr := AllocBlock(f);
        SearchOutcome(v, mapNr, bnr);
        if bnr > 0 {
          LowestIsOff(v[mapNr], bnr);
          // Here get_block_buffer finds no such block and the program goes on with a null buffer.
          if bnr >= BlocksIn(cache.disk.Length) {
            return FAULT;
          }
          AllocKeeps(v, mapNr, old(inodes), datas, f, cur, bnr);
          TakeOne(v, mapNr, bnr);
          inodes := inodes[f := inodes[f].(zone := inodes[f].zone[cur := bnr])];
          assert inodes == old(inodes)[f := WithZone(old(inodes[f]), cur, bnr)];
        } else {
          return ENOSPC;
        }
      }
      ZoneGiven(old(inodes), f, cur, bnr);
    }

    /** One turn of the write loop: zone cur gets a block if need be, and data at off. */
    method WriteChunk(f: nat, cur: nat, off: nat, data: seq<Cell>, ghost free: nat, ghost beyond: bool) returns (r: int)
      requires Valid() && f < |inodes| && cur < NR_TZONES && off + |data| <= BLOCK_SIZE && Stock(free, beyond)
      requires cur * BLOCK_SIZE + off <= |datas[f]| && cur * BLOCK_SIZE + off + |data| < NR_TZONES * BLOCK_SIZE
      modifies this, cache, cache.disk
      ensures r == |data| ==>
        var n := if old(inodes[f]).zone[cur] == 0 then 1 else 0;
        && Valid() && datas == old(datas)[f := Overwrite(old(datas[f]), cur * BLOCK_SIZE + off, data)]
        && Extended(inodes, old(inodes), f, |data|, cur, cur + 1) && Stock(free - n, beyond) && Counted(old(inUse), old(freeBlocks), n)
      ensures r == |data| <==> old(inodes[f]).zone[cur] != 0 || free > 0
      ensures r != |data| ==> r == (if beyond then FAULT else ENOSPC) && Counted(old(inUse), old(freeBlocks), if beyond then 1 else 0)
      ensures r == ENOSPC ==> Valid() && datas == old(datas) && inodes == old(inodes) && Stock(free, beyond)
    {
      hide Cache.Valid, Cache.View, ViewOf, ZonesDistinct, FilesOk, MapOk, BitOn, Overwrite, FreeOnes, BitBeyond;
      var bnr := EnsureZone(f, cur, free, beyond);
      if bnr < 0 {
        return bnr;
      }
      ghost var v := cache.View();
      WriteKeeps(v, mapNr, inodes, datas, f, cur, off, data);
      NotTheMap(v, mapNr, inodes, f, cur);
      Patch(bnr, off, data);
      StockKept(v, mapNr, bnr, cache.View()[bnr]);
      r := |data|;
      inodes := inodes[f := inodes[f].(size := inodes[f].size + r)];
      datas := datas[f := Overwrite(datas[f], cur * BLOCK_SIZE + off, data)];
    }

    /** The first n cells of buf have been written at pos, and the zones up to cur have blocks. */
    ghost predicate Written(was: Before, f: nat, pos: nat, buf: seq<Cell>, n: nat, cur: nat)
      reads this, cache, cache.disk
    {
      && f < |was.inodes| == |was.datas| && n <= |buf| && pos / BLOCK_SIZE <= cur <= |was.inodes[f].zone| == NR_TZONES
      && pos <= |was.datas[f]| && Valid() && datas == was.datas[f := Overwrite(was.datas[f], pos, buf[..n])]
      && Extended(inodes, was.inodes, f, n, pos / BLOCK_SIZE, cur)
      && var taken := Missing(was.inodes[f].zone, pos / BLOCK_SIZE, cur);
        taken <= was.free && Stock(was.free - taken, was.beyond) && Counted(was.inUse, was.freeBlocks, taken)
    }

    /** A turn of the loop of root_fs_write: len cells more. */
    method WriteTurn(f: nat, pos: nat, buf: seq<Cell>, n: nat, cur: nat, off: nat, len: nat, ghost was: Before) returns (r: int)
      requires Written(was, f, pos, buf, n, cur) && cur < NR_TZONES && n + len <= |buf| && off + len <= BLOCK_SIZE
      requires cur * BLOCK_SIZE + off == pos + n && pos + |buf| < NR_TZONES * BLOCK_SIZE
      modifies this, cache, cache.disk
      ensures var z := was.inodes[f].zone; var taken := Missing(z, pos / BLOCK_SIZE, cur);
        && (r == len <==> z[cur] != 0 || taken < was.free)
        && (r == len ==> Written(was, f, pos, buf, n + len, cur + 1))
        && (r != len ==> r == if was.beyond then FAULT else ENOSPC)
        && (r == ENOSPC ==> Written(was, f, pos, buf, n, cur))
        && (r == FAULT ==> Counted(was.inUse, was.freeBlocks, taken + 1))
    {
      hide Valid, Overwrite, Extended, Missing, Stock;
      ghost var jno, first := inodes, pos / BLOCK_SIZE;
      ZoneLeft(jno, was.inodes, f, n, first, cur);
      OverwriteMore(was.datas[f], pos, buf, n, len);
      MissingNext(was.inodes[f].zone, first, cur, cur + 1);
      r := WriteChunk(f, cur, off, buf[n..n + len], was.free - Missing(was.inodes[f].zone, first, cur), was.beyond);
      if r == len {
        ExtendedMore(inodes, jno, was.inodes, f, len, n, first, cur);
      }
    }

    /** The loop of root_fs_write.  If it ends early, last is the zone for which no block was left. */
    method WriteLoop(f: nat, pos: nat, buf: seq<Cell>, ghost was: Before) returns (ret: int, newPos: nat, ghost last: nat)
      requires Written(was, f, pos, buf, 0, pos / BLOCK_SIZE) && pos + |buf| < NR_TZONES * BLOCK_SIZE
      modifies this, cache, cache.disk
      ensures pos <= newPos <= pos + |buf| && pos / BLOCK_SIZE <= last <= NR_TZONES
      ensures ret == |buf| <==> Missing(was.inodes[f].zone, pos / BLOCK_SIZE, (pos + |buf|) / BLOCK_SIZE + 1) <= was.free
      ensures ret == |buf| ==> newPos == pos + |buf| && last == newPos / BLOCK_SIZE + 1
      ensures ret != |buf| ==> ret == (if was.beyond then FAULT else ENOSPC) && last == newPos / BLOCK_SIZE < NR_TZONES
      ensures ret != |buf| ==> Missing(was.inodes[f].zone, pos / BLOCK_SIZE, last) == was.free && was.inodes[f].zone[last] == 0
      ensures ret != FAULT ==> Written(was, f, pos, buf, newPos - pos, last)
      ensures ret == FAULT ==> Counted(was.inUse, was.freeBlocks, was.free + 1)
    {
      hide Written, Missing;
      var cur, off := pos / BLOCK_SIZE, pos % BLOCK_SIZE;
      var limit := (pos + |buf|) / BLOCK_SIZE;
      var count := |buf|;
      ret, newPos, last := 0, pos, cur;
      WrittenBound(was, f, pos, buf, 0, cur);
      ghost var zone, first := was.inodes[f].zone, cur;
      while cur <= limit
        invariant 0 <= ret == newPos - pos == |buf| - count <= |buf| && 0 <= off < BLOCK_SIZE && first <= last == cur <= limit + 1
        invariant if cur <= limit then cur * BLOCK_SIZE + off == newPos else count == 0
        invariant Written(was, f, pos, buf, ret, cur)
      {
        var len := if BLOCK_SIZE - off > count then count else BLOCK_SIZE - off;
        WrittenBound(was, f, pos, buf, ret, cur);
        MissingNext(zone, first, cur, limit + 1);
        var r := WriteTurn(f, pos, buf, ret, cur, off, len, was);
        if r < 0 {
          return r, newPos, cur;
        }
        last := cur + 1;
        if r == 0 {
          break;
        }
        count, ret, newPos, off := count - len, ret + r, newPos + r, 0;
        cur := cur + 1;
      }
      WrittenBound(was, f, pos, buf, ret, last);
    }

    lemma WrittenBound(was: Before, f: nat, pos: nat, buf: seq<Cell>, n: nat, cur: nat)
      requires Written(was, f, pos, buf, n, cur)
      ensures f < |was.inodes| && pos / BLOCK_SIZE <= cur <= |was.inodes[f].zone| == NR_TZONES
      ensures Missing(was.inodes[f].zone, pos / BLOCK_SIZE, cur) <= was.free
    {
    }

    /** root_fs_write of buf at pos.  All is written exactly if there are as many free blocks as zones are missing; if not, it ends with
        ENOSPC, or with a block that the disk has not if the bitmap has a bit to spare, at the zone for which no block was left. */
    method RootFsWrite(f: nat, pos: nat, buf: seq<Cell>) returns (ret: int, newPos: nat)
      requires Valid() && f < |inodes| && pos <= |datas[f]| && pos + |buf| < NR_TZONES * BLOCK_SIZE
      modifies this, cache, cache.disk
      ensures pos <= newPos <= pos + |buf| && |old(inodes[f]).zone| == NR_TZONES && MapOk(old(cache.View()), mapNr)
      ensures ret == |buf| <==> Missing(old(inodes[f]).zone, pos / BLOCK_SIZE, (pos + |buf|) / BLOCK_SIZE + 1) <= FreeOnes(old(cache.View()), mapNr)
      ensures ret == |buf| ==> newPos == pos + |buf|
      ensures ret != |buf| ==> ret == if BitBeyond(old(cache.View()), mapNr) then FAULT else ENOSPC
      ensures ret != |buf| ==>
        && Missing(old(inodes[f]).zone, pos / BLOCK_SIZE, newPos / BLOCK_SIZE) == FreeOnes(old(cache.View()), mapNr)
        && old(inodes[f]).zone[newPos / BLOCK_SIZE] == 0
      // Every zone up to the last one written has a block now; the blocks taken are no longer free.
      ensures var last := newPos / BLOCK_SIZE + if ret == |buf| then 1 else 0;
        var taken := Missing(old(inodes[f]).zone, pos / BLOCK_SIZE, last);
        && (ret != FAULT ==>
          && Valid() && datas == old(datas)[f := Overwrite(old(datas[f]), pos, buf[..newPos - pos])]
          && Extended(inodes, old(inodes), f, newPos - pos, pos / BLOCK_SIZE, last)
          && Stock(FreeOnes(old(cache.View()), mapNr) - taken, BitBeyond(old(cache.View()), mapNr)))
        && Counted(old(inUse), old(freeBlocks), taken + if ret == FAULT then 1 else 0)
    {
      hide Cache.Valid, Cache.View, Cache.Idle, ViewOf, ZonesDistinct, FilesOk, MapOk, Overwrite, Extended, FreeOnes, BitBeyond,
           Missing, Stock;
      ghost var was := Before(inodes, datas, inUse, freeBlocks, FreeOnes(cache.View(), mapNr), BitBeyond(cache.View(), mapNr));
      StockIs(was.free, was.beyond);
      NothingWritten(inodes, datas, f, pos, pos / BLOCK_SIZE);
      ghost var last;
      ret, newPos, last := WriteLoop(f, pos, buf, was);
    }

    lemma StockIs(free: int, beyond: bool)
      requires MapOk(cache.View(), mapNr) && free == FreeOnes(cache.View(), mapNr) && beyond == BitBeyond(cache.View(), mapNr)
      ensures Stock(free, beyond)
    {
    }

    /** root_fs_read of count cells at pos. */
    method RootFsRead(f: nat, pos: nat, count: nat) returns (out: seq<Cell>, newPos: nat)
      requires Valid() && f < |inodes| && pos + count < NR_TZONES * BLOCK_SIZE && !Underruns(inodes[f], pos)
      modifies cache, cache.disk
      ensures Valid() && cache.View() == old(cache.View()) && newPos == pos + |out|
      ensures |out| == ReadCount(inodes[f], pos, count) && ReadOut(cache.View(), inodes[f], pos, out)
      ensures forall k :: 0 <= k < |out| && pos + k < |datas[f]| ==> out[k] == datas[f][pos + k]
      ensures pos + count <= |datas[f]| ==> out == datas[f][pos..pos + count]
      ensures pos <= |datas[f]| ==>
        (out == datas[f][pos..if pos + count <= |datas[f]| then pos + count else |datas[f]|] <==>
         pos + count <= |datas[f]| || EndsThere(inodes[f], |datas[f]|))
    {
      hide Cache.Valid, Cache.View, Cache.Idle, ViewOf, ZonesDistinct, MapOk, BitOn, Spells, ReadOut, ReadEnd, ReadLen,
           Underruns, EndsThere, NoZonesFrom;
      out, newPos := ReadLoop(f, pos, count);
      ghost var v, n, d := cache.View(), inodes[f], datas[f];
      assert Spells(v, n, d);
      forall k | 0 <= k < |out| && pos + k < |d|
        ensures out[k] == d[pos + k]
      {
        ReadIsData(v, n, d, pos, out, k);
      }
      ReachIsEndIff(v, n, d);
      if pos <= |d| {
        ReadStopsAtEndIff(v, n, d, pos, count);
      }
    }

    method ReadLoop(f: nat, pos: nat, count: nat) returns (out: seq<Cell>, newPos: nat)
      requires Valid() && f < |inodes| && pos + count < NR_TZONES * BLOCK_SIZE && !Underruns(inodes[f], pos)
      modifies cache, cache.disk
      ensures Valid() && cache.View() == old(cache.View()) && newPos == pos + |out|
      ensures |out| == ReadCount(inodes[f], pos, count) && ReadOut(cache.View(), inodes[f], pos, out)
    {
      hide Cache.Valid, Cache.View, Cache.Idle, ViewOf, ZonesDistinct, MapOk, BitOn, Spells, ReadOut, ReadEnd, ReadLen, NoZonesFrom;
      var cur, off := pos / BLOCK_SIZE, pos % BLOCK_SIZE;
      var limit := (pos + count) / BLOCK_SIZE;
      var left := count;
      out, newPos := [], pos;
      ghost var v, n := cache.View(), inodes[f];
      NothingRead(v, n, pos);
      while cur <= limit
        invariant 0 <= |out| == newPos - pos == count - left <= count && 0 <= off < BLOCK_SIZE && pos / BLOCK_SIZE <= cur <= limit + 1
        invariant Valid() && cache.View() == v && ReadOut(v, n, pos, out) && (|out| > 0 ==> newPos <= ReadEnd(n))
        invariant cur * BLOCK_SIZE + off == newPos || (ReadEnd(n) <= newPos && NoZonesFrom(n, cur)) || (left == 0 && cur == limit + 1)
      {
        var bnr := inodes[f].zone[cur];
        assert Spells(v, n, datas[f]);
        if bnr == 0 {
          if cur * BLOCK_SIZE + off == newPos {
            NotUnder(n, pos, cur, off, newPos);
            ReadTurn(v, n, datas[f], cur, off, left);
          }
          FewerZones(n, cur);
          cur := cur + 1;
          continue;
        }
        ZoneThere(n, cur);
        NotUnder(n, pos, cur, off, newPos);
        ReadTurn(v, n, datas[f], cur, off, left);
        var len := ReadLen(off, left, inodes[f].size);
        ZoneInView(v, mapNr, inodes, f, cur);
        var chunk := Peek(bnr, off, len);
        ReadMore(v, n, pos, out, cur, off, chunk);
        out, left, newPos := out + chunk, left - len, newPos + len;
        if len == 0 {
          break;
        }
        off := 0;
        cur := cur + 1;
      }
    }
  }

  lemma {:induction false} MissingNext(zone: seq<nat>, lo: nat, cur: nat, hi: nat)
    requires lo <= cur < hi <= |zone|
    ensures Missing(zone, lo, cur + 1) == Missing(zone, lo, cur) + if zone[cur] == 0 then 1 else 0
    ensures Missing(zone, lo, hi) >= Missing(zone, lo, cur + 1)
    ensures cur + 1 == hi ==> Missing(zone, lo, hi) == Missing(zone, lo, cur + 1)
  {
    MissingSplit(zone, lo, cur, cur + 1);
    MissingSplit(zone, lo, cur + 1, hi);
  }

  lemma {:induction false} NotTheMap(v: seq<Block>, mapNr: nat, ino: seq<Inode>, f: nat, cur: nat)
    requires ZonesOk(v, mapNr, ino) && f < |ino| && cur < NR_TZONES && ino[f].zone[cur] != 0
    ensures ino[f].zone[cur] != mapNr && ino[f].zone[cur] < |v|
  {
    hide BitOn;
    assert ZoneOk(v, mapNr, ino[f].zone[cur]);
  }

  /** Other blocks than the bitmap do not matter. */
  lemma {:induction false} ZoneGiven(ino: seq<Inode>, f: nat, cur: nat, b: nat)
    requires f < |ino| && cur < |ino[f].zone| && b > 0
    ensures if ino[f].zone[cur] == 0 then Extended(ino[f := WithZone(ino[f], cur, b)], ino, f, 0, cur, cur + 1)
            else Extended(ino, ino, f, 0, cur, cur + 1)
  {
    assert Missing(ino[f].zone, cur + 1, cur + 1) == 0;
  }

  lemma {:induction false} ZoneLeft(ino: seq<Inode>, jno: seq<Inode>, f: nat, n: nat, lo: nat, cur: nat)
    requires Extended(ino, jno, f, n, lo, cur) && cur < |jno[f].zone|
    ensures f < |ino| == |jno| && |ino[f].zone| == |jno[f].zone| && ino[f].zone[cur] == jno[f].zone[cur]
  {
  }

  lemma {:induction false} StockKept(v: seq<Block>, mapNr: nat, b: nat, x: Block)
    requires MapOk(v, mapNr) && b < |v| && b != mapNr && |x| == BLOCK_SIZE
    ensures var w := v[b := x];
      MapOk(w, mapNr) && FreeOnes(w, mapNr) == FreeOnes(v, mapNr) && (BitBeyond(w, mapNr) <==> BitBeyond(v, mapNr))
  {
    hide BitOn;
  }

  lemma {:induction false} ZoneInView(v: seq<Block>, mapNr: nat, ino: seq<Inode>, f: nat, cur: nat)
    requires ZonesOk(v, mapNr, ino) && f < |ino| && cur < NR_TZONES && ino[f].zone[cur] != 0
    ensures ino[f].zone[cur] < |v| && |v[ino[f].zone[cur]]| == BLOCK_SIZE
  {
    hide BitOn;
    assert ZoneOk(v, mapNr, ino[f].zone[cur]);
  }

  lemma {:induction false} NothingRead(v: seq<Block>, n: Inode, pos: nat)
    ensures ReadOut(v, n, pos, [])
  {
  }

  lemma {:induction false} FewerZones(n: Inode, cur: nat)
    ensures NoZonesFrom(n, cur) ==> NoZonesFrom(n, cur + 1)
  {
  }

  lemma {:induction false} ZoneThere(n: Inode, cur: nat)
    requires cur < |n.zone| && n.zone[cur] != 0
    ensures !NoZonesFrom(n, cur)
  {
  }

  /** Only the first turn could underrun. */
  lemma {:induction false} NotUnder(n: Inode, pos: nat, cur: nat, off: nat, newPos: nat)
    requires |n.zone| > 0 && !Underruns(n, pos) && pos <= newPos && (newPos > pos ==> newPos <= ReadEnd(n)) && cur * BLOCK_SIZE + off == newPos
    ensures !Underruns(n, cur * BLOCK_SIZE + off)
  {
  }

  /** The size of inode f is n more, whether or not the file got longer, and its zones from lo up to hi have all got blocks;
      nothing else has changed. */
  ghost predicate Extended(ino: seq<Inode>, jno: seq<Inode>, f: nat, n: nat, lo: nat, hi: nat) {
    && |ino| == |jno| && f < |ino| && lo <= hi <= |jno[f].zone| && Zoned(ino[f].zone, jno[f].zone, lo, hi)
    && ino[f].size == jno[f].size + n && ino[f].total == jno[f].total + BLOCK_SIZE * Missing(jno[f].zone, lo, hi)
    && forall g :: 0 <= g < |ino| && g != f ==> ino[g] == jno[g]
  }

  ghost predicate Zoned(y: seq<nat>, z: seq<nat>, lo: nat, hi: nat) {
    && |y| == |z|
    && forall i :: 0 <= i < |z| ==> if z[i] == 0 && lo <= i < hi then y[i] != 0 else y[i] == z[i]
  }

  /** A block and one cell are written to an empty file.  A read of ten cells at the second block then delivers ten. */
  method ReadsBeyondEnd(fs: FileSystem, f: nat, buf: seq<Cell>) returns (out: seq<Cell>)
    requires fs.Valid() && f < |fs.inodes| && fs.inodes[f] == Inode(seq(NR_TZONES, _ => 0), 0, 0) && fs.datas[f] == []
    requires |buf| == BLOCK_SIZE + 1 && MapOk(fs.cache.View(), fs.mapNr) && FreeOnes(fs.cache.View(), fs.mapNr) >= 2
    modifies fs, fs.cache, fs.cache.disk
    ensures |out| == 10 && f < |fs.datas| && |fs.datas[f]| == BLOCK_SIZE + 1
  {
    hide Cache.Valid, Cache.View, Cache.Idle, MapOk, FreeOnes, BitBeyond, ReadOut;
    ghost var z := fs.inodes[f].zone;
    assert Missing(z, 0, 2) == 2;
    var ret, pos := fs.RootFsWrite(f, 0, buf);
    assert fs.inodes[f].zone[0] != 0 && fs.inodes[f].zone[1] != 0;
    out, pos := fs.RootFsRead(f, BLOCK_SIZE, 10);
  }
}
