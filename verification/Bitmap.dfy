/** Bitmaps: arrays of 32-bit words whose bits are numbered from the most significant one. */
module Bitmap {

  const ERR: int := -1
  const OK: int := 0

  type Map = seq<bv32>

  // ---------- Masks ----------

  /** The word in which only bit j is on, bit 0 being the most significant. */
  function MaskAt(j: nat): bv32
    requires j < 32
    decreases 32 - j
  {
    if j == 31 then 1 else MaskAt(j + 1) << 1
  }

  lemma {:induction false} MaskTop()
    ensures MaskAt(0) == 0x8000_0000
  {
    assert MaskAt(28) == 0x8;
    assert MaskAt(24) == 0x80;
    assert MaskAt(20) == 0x800;
    assert MaskAt(16) == 0x8000;
    assert MaskAt(12) == 0x8_0000;
    assert MaskAt(8) == 0x80_0000;
    assert MaskAt(4) == 0x800_0000;
  }

  /** A word with at most one bit on. */
  predicate Single(m: bv32) {
    m & (m - 1) == 0
  }

  lemma {:induction false} Doubled(m: bv32)
    requires Single(m)
    ensures Single(m << 1) && (m << 1 != 0 ==> m != 0 && m < m << 1)
  {
  }

  lemma {:induction false} SinglesDisjoint(a: bv32, b: bv32)
    requires Single(a) && Single(b) && a != b
    ensures a & b == 0
  {
  }

  lemma {:induction false} MaskSingle(j: nat)
    requires j < 32
    ensures Single(MaskAt(j))
    decreases 32 - j
  {
    if j < 31 {
      MaskSingle(j + 1);
      Doubled(MaskAt(j + 1));
    }
  }

  lemma {:induction false} MaskNotZero(j: nat)
    requires j < 32
    ensures MaskAt(j) != 0
    decreases j
  {
    if j == 0 {
      MaskTop();
    } else {
      MaskNotZero(j - 1);
      MaskSingle(j);
      Doubled(MaskAt(j));
    }
  }

  lemma {:induction false} MasksDecrease(j: nat, k: nat)
    requires j < k < 32
    ensures MaskAt(k) < MaskAt(j)
    decreases k
  {
    if j + 1 < k {
      MasksDecrease(j, k - 1);
    }
    MaskNotZero(k - 1);
    MaskSingle(k);
    Doubled(MaskAt(k));
  }

  lemma {:induction false} MasksDisjoint(j: nat, k: nat)
    requires j < 32 && k < 32 && j != k
    ensures MaskAt(j) & MaskAt(k) == 0
  {
    MaskSingle(j);
    MaskSingle(k);
    MasksDecrease(if j < k then j else k, if j < k then k else j);
    SinglesDisjoint(MaskAt(j), MaskAt(k));
  }

  /** init_bitmap: the table of masks. */
  method InitBitmap() returns (mask: array<bv32>)
    ensures mask.Length == 32 && forall j :: 0 <= j < 32 ==> mask[j] == MaskAt(j)
  {
    mask := new bv32[32];
    mask[31] := 1;
    var i := 30;
    while i >= 0
      invariant -1 <= i <= 30 && forall j :: i < j < 32 ==> mask[j] == MaskAt(j)
    {
      mask[i] := mask[i + 1] << 1;
      i := i - 1;
    }
  }

  // ---------- Bits ----------

  predicate Meets(w: bv32, a: bv32) {
    w & a != 0
  }

  predicate On(w: bv32, j: nat)
    requires j < 32
  {
    Meets(w, MaskAt(j))
  }

  function Lit(w: bv32, a: bv32): bv32 {
    w | a
  }

  function Unlit(w: bv32, a: bv32): bv32 {
    w & !a
  }

  lemma {:induction false} LitOther(w: bv32, a: bv32, b: bv32)
    requires a & b == 0
    ensures Meets(Lit(w, a), b) <==> Meets(w, b)
  {
  }

  lemma {:induction false} UnlitOther(w: bv32, a: bv32, b: bv32)
    requires a & b == 0
    ensures Meets(Unlit(w, a), b) <==> Meets(w, b)
  {
  }

  lemma {:induction false} LitSame(w: bv32, a: bv32)
    requires a != 0
    ensures Meets(Lit(w, a), a)
  {
  }

  lemma {:induction false} UnlitSame(w: bv32, a: bv32)
    ensures !Meets(Unlit(w, a), a)
  {
  }

  lemma {:induction false} OnAfterSet(w: bv32, j: nat, k: nat)
    requires j < 32 && k < 32
    ensures On(Lit(w, MaskAt(j)), k) <==> j == k || On(w, k)
  {
    hide MaskAt, Meets, Lit;
    if j == k {
      MaskNotZero(k);
      LitSame(w, MaskAt(j));
    } else {
      MasksDisjoint(j, k);
      LitOther(w, MaskAt(j), MaskAt(k));
    }
  }

  lemma {:induction false} OnAfterClear(w: bv32, j: nat, k: nat)
    requires j < 32 && k < 32
    ensures On(Unlit(w, MaskAt(j)), k) <==> j != k && On(w, k)
  {
    hide MaskAt, Meets, Unlit;
    if j == k {
      UnlitSame(w, MaskAt(j));
    } else {
      MasksDisjoint(j, k);
      UnlitOther(w, MaskAt(j), MaskAt(k));
    }
  }

  predicate BitOn(m: Map, i: nat)
    requires i < 32 * |m|
  {
    On(m[i / 32], i % 32)
  }

  /** All bits from r up to r + n are off. */
  predicate Clear(m: Map, r: nat, n: nat)
    requires r + n <= 32 * |m|
  {
    forall i :: r <= i < r + n ==> !BitOn(m, i)
  }

  /** The map with bit i on. */
  function WithBit(m: Map, i: nat): (r: Map)
    requires i < 32 * |m|
    ensures |r| == |m|
  {
    m[i / 32 := Lit(m[i / 32], MaskAt(i % 32))]
  }

  function WithoutBit(m: Map, i: nat): (r: Map)
    requires i < 32 * |m|
    ensures |r| == |m|
  {
    m[i / 32 := Unlit(m[i / 32], MaskAt(i % 32))]
  }

  lemma {:induction false} SetChangesOne(m: Map, i: nat, k: nat)
    requires i < 32 * |m| && k < 32 * |m|
    ensures BitOn(WithBit(m, i), k) <==> k == i || BitOn(m, k)
  {
    hide On, MaskAt, Lit, Unlit;
    if i / 32 == k / 32 {
      OnAfterSet(m[i / 32], i % 32, k % 32);
    }
  }

  lemma {:induction false} ClearChangesOne(m: Map, i: nat, k: nat)
    requires i < 32 * |m| && k < 32 * |m|
    ensures BitOn(WithoutBit(m, i), k) <==> k != i && BitOn(m, k)
  {
    hide On, MaskAt, Lit, Unlit;
    if i / 32 == k / 32 {
      OnAfterClear(m[i / 32], i % 32, k % 32);
    }
  }

  // ---------- Searching ----------

  lemma {:induction false} BitInWord(m: Map, i: nat, j: nat)
    requires i < |m| && j < 32
    ensures 32 * i + j < 32 * |m| && (BitOn(m, 32 * i + j) <==> On(m[i], j))
  {
    hide MaskAt;
    assert (32 * i + j) / 32 == i && (32 * i + j) % 32 == j;
  }

  /** No run of num clear bits starts in lo..hi. */
  ghost predicate NoRun(m: Map, lo: nat, hi: int, num: nat)
    requires hi + num <= 32 * |m|
  {
    forall q :: lo <= q <= hi ==> !Clear(m, q, num)
  }

  /** The bits from start to at have been scanned: the last count of them are clear, the one
      before is not, and num in a row have not been seen. */
  ghost predicate Scanned(m: Map, start: nat, num: nat, count: int, at: int) {
    && start <= at - count && 0 <= count && at <= 32 * |m| && (num > 0 ==> count < num)
    && Clear(m, at - count, count) && (at - count == start || BitOn(m, at - count - 1))
    && (num > 0 ==> NoRun(m, start, at - num, num))
  }

  lemma {:induction false} NoRoom(m: Map, start: nat, num: nat)
    requires start >= 32 * |m| && num >= 1
    ensures NoRun(m, start, 32 * |m| - num, num)
  {
  }

  lemma {:induction false} ScanStart(m: Map, start: nat, num: nat)
    requires start < 32 * |m|
    ensures Scanned(m, start, num, 0, start)
  {
  }

  lemma {:induction false} ScanEnd(m: Map, start: nat, num: nat, count: int)
    requires Scanned(m, start, num, count, 32 * |m|)
    ensures num > 0 ==> NoRun(m, start, 32 * |m| - num, num)
  {
  }

  lemma {:induction false} ScanOn(m: Map, start: nat, num: nat, count: int, at: int)
    requires Scanned(m, start, num, count, at) && at < 32 * |m| && BitOn(m, at)
    ensures Scanned(m, start, num, 0, at + 1)
  {
    hide BitOn;
  }

  lemma {:induction false} ScanOff(m: Map, start: nat, num: nat, count: int, at: int)
    requires Scanned(m, start, num, count, at) && at < 32 * |m| && !BitOn(m, at)
    ensures if count + 1 == num
      then start <= at - count && Clear(m, at - count, num) && NoRun(m, start, at - num, num)
      else Scanned(m, start, num, count + 1, at + 1)
  {
    hide BitOn;
    if count + 1 != num && num > 0 {
      forall q | start <= q <= at + 1 - num
        ensures !Clear(m, q, num)
      {
        if q + num == at + 1 {
          assert q <= at - count - 1 < q + num;
        }
      }
    }
  }

  /** bitmap_search_from: the lowest run of num clear bits that starts at or after start. */
  method SearchFrom(m: Map, start: nat, num: nat) returns (r: int)
    ensures r == ERR || (start <= r && 1 <= num < 32 * |m| && r + num <= 32 * |m| && Clear(m, r, num))
    ensures r != ERR ==> NoRun(m, start, r - 1, num)
    ensures r == ERR && 1 <= num < 32 * |m| ==> NoRun(m, start, 32 * |m| - num, num)
  {
    hide On, BitOn, Scanned, Clear, NoRun;
    if num >= |m| * 32 || start >= |m| * 32 {
      if start >= |m| * 32 && num > 0 {
        NoRoom(m, start, num);
      }
      return ERR;
    }
    var count := 0;
    var i, j := start / 32, start % 32;
    ScanStart(m, start, num);
    while i < |m|
      invariant 0 <= i <= |m| && 0 <= j < 32 && (i == |m| ==> j == 0)
      invariant Scanned(m, start, num, count, 32 * i + j)
    {
      while j < 32
        invariant 0 <= j <= 32
        invariant Scanned(m, start, num, count, 32 * i + j)
      {
        BitInWord(m, i, j);
        if !On(m[i], j) {
          ScanOff(m, start, num, count, 32 * i + j);
          count := count + 1;
          if count == num {
            return i * 32 + j - count + 1;
          }
        } else {
          ScanOn(m, start, num, count, 32 * i + j);
          count := 0;
        }
        j := j + 1;
      }
      i, j := i + 1, 0;
    }
    ScanEnd(m, start, num, count);
    r := ERR;
  }

  /** The mirror image of Scanned: the bits from at up have been scanned. */
  ghost predicate ScannedDown(m: Map, num: nat, count: int, at: int) {
    && 0 <= at && 0 <= count && at + count <= 32 * |m| && (num > 0 ==> count < num)
    && Clear(m, at, count) && (at + count == 32 * |m| || BitOn(m, at + count))
    && (num > 0 ==> NoRun(m, at, 32 * |m| - num, num))
  }

  lemma {:induction false} ScanDownStart(m: Map, num: nat)
    ensures ScannedDown(m, num, 0, 32 * |m|)
  {
  }

  lemma {:induction false} ScanDownOn(m: Map, num: nat, count: int, at: int)
    requires ScannedDown(m, num, count, at) && at > 0 && BitOn(m, at - 1)
    ensures ScannedDown(m, num, 0, at - 1)
  {
    hide BitOn;
  }

  lemma {:induction false} ScanDownOff(m: Map, num: nat, count: int, at: int)
    requires ScannedDown(m, num, count, at) && at > 0 && !BitOn(m, at - 1)
    ensures if count + 1 == num
      then at - 1 + num <= 32 * |m| && Clear(m, at - 1, num) && NoRun(m, at, 32 * |m| - num, num)
      else ScannedDown(m, num, count + 1, at - 1)
  {
    hide BitOn;
  }

  lemma {:induction false} ScanDownEnd(m: Map, num: nat, count: int)
    requires ScannedDown(m, num, count, 0)
    ensures num > 0 ==> NoRun(m, 0, 32 * |m| - num, num)
  {
  }

  /** bitmap_search_reverse: the highest run of num clear bits. */
  method SearchReverse(m: Map, num: nat) returns (r: int)
    ensures r == ERR || (0 <= r && 1 <= num < 32 * |m| && r + num <= 32 * |m| && Clear(m, r, num))
    ensures r != ERR ==> NoRun(m, r + 1, 32 * |m| - num, num)
    ensures r == ERR && 1 <= num < 32 * |m| ==> NoRun(m, 0, 32 * |m| - num, num)
  {
    hide On, BitOn, ScannedDown, Clear, NoRun;
    if num >= |m| * 32 {
      return ERR;
    }
    var count := 0;
    ScanDownStart(m, num);
    var i := |m| - 1;
    while i >= 0
      invariant -1 <= i < |m| && ScannedDown(m, num, count, 32 * i + 32)
    {
      var j := 31;
      while j >= 0
        invariant -1 <= j < 32 && ScannedDown(m, num, count, 32 * i + j + 1)
      {
        BitInWord(m, i, j);
        if !On(m[i], j) {
          ScanDownOff(m, num, count, 32 * i + j + 1);
          count := count + 1;
          if count == num {
            return i * 32 + j;
          }
        } else {
          ScanDownOn(m, num, count, 32 * i + j + 1);
          count := 0;
        }
        j := j - 1;
      }
      i := i - 1;
    }
    ScanDownEnd(m, num, count);
    r := ERR;
  }

  // ---------- Changing ----------

  /** Bits lo..hi of n are all on (or all off), the others as in m. */
  ghost predicate Painted(n: Map, m: Map, lo: nat, hi: int, on: bool) {
    |n| == |m| && forall k :: 0 <= k < 32 * |m| ==> (BitOn(n, k) <==> if lo <= k < hi then on else BitOn(m, k))
  }

  lemma {:induction false} PaintNone(m: Map, lo: nat, on: bool)
    ensures Painted(m, m, lo, lo, on)
  {
    hide BitOn;
  }

  lemma {:induction false} PaintMore(n: Map, m: Map, lo: nat, hi: nat)
    requires lo <= hi < 32 * |m| && |n| == |m|
    ensures Painted(n, m, lo, hi, true) ==> Painted(WithBit(n, hi), m, lo, hi + 1, true)
    ensures Painted(n, m, lo, hi, false) ==> Painted(WithoutBit(n, hi), m, lo, hi + 1, false)
  {
    hide BitOn, WithBit, WithoutBit;
    forall k: nat | k < 32 * |m|
      ensures BitOn(WithBit(n, hi), k) <==> k == hi || BitOn(n, k)
      ensures BitOn(WithoutBit(n, hi), k) <==> k != hi && BitOn(n, k)
    {
      SetChangesOne(n, hi, k);
      ClearChangesOne(n, hi, k);
    }
  }

  /** bitmap_set_nbits. */
  method SetBits(m: array<bv32>, start: nat, len: nat) returns (r: int)
    modifies m
    ensures r == (if start + len >= m.Length * 32 then ERR else OK)
    ensures if r == ERR then m[..] == old(m[..]) else Painted(m[..], old(m[..]), start, start + len, true)
  {
    hide BitOn, MaskAt, Lit, Painted;
    if start + len >= m.Length * 32 {
      return ERR;
    }
    PaintNone(m[..], start, true);
    for i := 0 to len
      invariant Painted(m[..], old(m[..]), start, start + i, true)
    {
      var inum := start + i;
      PaintMore(m[..], old(m[..]), start, inum);
      assert WithBit(m[..], inum) == m[..][inum / 32 := Lit(m[inum / 32], MaskAt(inum % 32))];
      m[inum / 32] := Lit(m[inum / 32], MaskAt(inum % 32));
    }
    r := OK;
  }

  /** bitmap_clear_nbits. */
  method ClearBits(m: array<bv32>, start: nat, len: nat) returns (r: int)
    modifies m
    ensures r == (if start + len >= m.Length * 32 then ERR else OK)
    ensures if r == ERR then m[..] == old(m[..]) else Painted(m[..], old(m[..]), start, start + len, false)
  {
    hide BitOn, MaskAt, Unlit, Painted;
    if start + len >= m.Length * 32 {
      return ERR;
    }
    PaintNone(m[..], start, false);
    for i := 0 to len
      invariant Painted(m[..], old(m[..]), start, start + i, false)
    {
      var inum := start + i;
      PaintMore(m[..], old(m[..]), start, inum);
      assert WithoutBit(m[..], inum) == m[..][inum / 32 := Unlit(m[inum / 32], MaskAt(inum % 32))];
      m[inum / 32] := Unlit(m[inum / 32], MaskAt(inum % 32));
    }
    r := OK;
  }

  /** is_bit_on; its bound lets bit 32 * |m| through, which is read from beyond, the word after the map. */
  method IsBitOn(m: Map, beyond: bv32, bit: nat) returns (r: bool)
    ensures (r <==> bit < 32 * |m| && BitOn(m, bit)) <==> bit != 32 * |m| || !On(beyond, 0)
  {
    if bit > |m| * 32 {
      return false;
    }
    r := On(if bit / 32 < |m| then m[bit / 32] else beyond, bit % 32);
  }

  /** bitmap_clear. */
  method ClearAll(m: array<bv32>)
    modifies m
    ensures Clear(m[..], 0, 32 * m.Length)
  {
    for i := 0 to m.Length
      invariant forall k :: 0 <= k < i ==> m[k] == 0
    {
      m[i] := 0;
    }
    forall k: nat | k < 32 * m.Length
      ensures !BitOn(m[..], k)
    {
      NothingOn(MaskAt(k % 32));
    }
  }

  lemma {:induction false} NothingOn(a: bv32)
    ensures !Meets(0, a)
  {
  }
}
