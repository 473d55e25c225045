/** Printing and parsing numbers. */
module Numbers {
  const HALF: int := 0x8000_0000
  const WORD: int := 0x1_0000_0000

  /** What a 32-bit register holds after computing x. */
  function Wrap(x: int): (r: int)
    ensures -HALF <= r < HALF && (-HALF <= x < HALF ==> r == x)
  {
    (x + HALF) % WORD - HALF
  }

  // ---------- Numerals ----------

  predicate Base(b: nat) {
    b == 10 || b == 16
  }

  function Digit(d: nat): (c: char)
    requires d < 16
    ensures c != '\0' && DigitValue(c) == d && (d < 10 <==> '0' <= c <= '9')
  {
    if d < 10 then '0' + d as char else 'A' + (d - 10) as char
  }

  function DigitValue(c: char): int {
    if c as int <= 57 then c as int - 48 else c as int - 55
  }

  /** n in base b, without leading zeros; nothing for 0. */
  function Numeral(n: nat, b: nat): (s: seq<char>)
    requires Base(b)
    ensures n == 0 <==> s == []
    decreases n
  {
    if n == 0 then [] else Numeral(n / b, b) + [Digit(n % b)]
  }

  function Value(s: seq<char>, b: nat): int
    decreases |s|
  {
    if s == [] then 0 else Value(s[..|s| - 1], b) * b + DigitValue(s[|s| - 1])
  }

  /** What the program prints for n >= 0. */
  function Printed(n: nat, b: nat): seq<char>
    requires Base(b)
  {
    if n == 0 then ['0'] else Numeral(n, b)
  }

  lemma {:induction false} ValueSnoc(s: seq<char>, c: char, b: nat)
    ensures Value(s + [c], b) == Value(s, b) * b + DigitValue(c)
  {
    assert (s + [c])[..|s|] == s;
  }

  lemma {:induction false} NumeralValue(n: nat, b: nat)
    requires Base(b)
    ensures Value(Numeral(n, b), b) == n
    decreases n
  {
    if n > 0 {
      if b == 10 {
        NumeralValue(n / 10, 10);
        ValueSnoc(Numeral(n / 10, 10), Digit(n % 10), 10);
      } else {
        NumeralValue(n / 16, 16);
        ValueSnoc(Numeral(n / 16, 16), Digit(n % 16), 16);
      }
    }
  }

  lemma {:induction false} PrintedValue(n: nat, b: nat)
    requires Base(b)
    ensures Value(Printed(n, b), b) == n
  {
    if n == 0 {
      assert ['0'][..0] == [];
    } else {
      NumeralValue(n, b);
    }
  }

  predicate IsDigit(c: char, b: nat) {
    '0' <= c <= '9' || (b == 16 && 'A' <= c <= 'F')
  }

  /** A text of digits without leading zeros. */
  predicate Standard(s: seq<char>, b: nat) {
    s != [] && (forall i :: 0 <= i < |s| ==> IsDigit(s[i], b)) && (|s| > 1 ==> s[0] != '0')
  }

  /** What is printed for n is the only such text whose value is n. */
  lemma {:induction false} PrintedIff(s: seq<char>, n: nat, b: nat)
    requires Base(b)
    ensures s == Printed(n, b) <==> Standard(s, b) && Value(s, b) == n
  {
    PrintedValue(n, b);
    if n > 0 {
      NumeralStandard(n, b);
    }
    if Standard(s, b) {
      if s[0] == '0' {
        assert s == ['0'] && s[..0] == [];
      } else {
        StandardIsNumeral(s, b);
      }
    }
  }

  lemma {:induction false} DigitIs(c: char, b: nat)
    requires Base(b) && IsDigit(c, b)
    ensures 0 <= DigitValue(c) < b && Digit(DigitValue(c)) == c && (DigitValue(c) == 0 <==> c == '0')
  {
  }

  lemma {:induction false} NumeralStandard(n: nat, b: nat)
    requires Base(b) && n > 0
    ensures Standard(Numeral(n, b), b) && Numeral(n, b)[0] != '0'
    decreases n
  {
    var q, d := if b == 10 then n / 10 else n / 16, if b == 10 then n % 10 else n % 16;
    assert Numeral(n, b) == Numeral(q, b) + [Digit(d)];
    if q > 0 {
      NumeralStandard(q, b);
    } else {
      assert n == d;
    }
    hide Numeral;
    DigitOf(d, b);
  }

  lemma {:induction false} DigitOf(d: nat, b: nat)
    requires Base(b) && d < b
    ensures IsDigit(Digit(d), b) && (d > 0 ==> Digit(d) != '0')
  {
  }

  lemma {:induction false} StandardIsNumeral(s: seq<char>, b: nat)
    requires Base(b) && Standard(s, b) && s[0] != '0'
    ensures Value(s, b) > 0 && Numeral(Value(s, b), b) == s
    decreases |s|
  {
    var t, c := s[..|s| - 1], s[|s| - 1];
    DigitIs(c, b);
    if t == [] {
      assert s == [c];
      assert Numeral(0, b) == [];
    } else {
      StandardIsNumeral(t, b);
      assert s == t + [c];
    }
    hide Numeral;
    LastDigit(Value(t, b), DigitValue(c), b);
  }

  lemma {:induction false} LastDigit(x: int, d: nat, b: nat)
    requires Base(b) && d < b && x >= 0 && x + d > 0
    ensures x * b + d > 0 && Numeral(x * b + d, b) == Numeral(x, b) + [Digit(d)]
  {
    if b == 10 {
      assert (x * 10 + d) / 10 == x && (x * 10 + d) % 10 == d;
    } else {
      assert (x * 16 + d) / 16 == x && (x * 16 + d) % 16 == d;
    }
  }

  /** A power of one of the two bases. */
  function Pow(b: nat, k: nat): (r: nat)
    requires Base(b)
    ensures r > 0
  {
    if k == 0 then 1 else if b == 10 then 10 * Pow(b, k - 1) else 16 * Pow(b, k - 1)
  }

  lemma {:induction false} MulMono(u: int, v: int, p: nat)
    requires u <= v
    ensures u * p <= v * p
  {
    assert (v - u) * p >= 0;
  }

  lemma {:induction false} Distribute(t: int, b: nat, u: int, p: nat)
    ensures (t * b + u) * p == (b * p) * t + u * p
  {
  }

  lemma {:induction false} DivMod(n: nat, d: nat)
    requires d > 0
    ensures n == n / d * d + n % d && n % d < d
  {
  }

  lemma {:induction false} DivNat(n: nat, d: nat)
    requires d > 0
    ensures n / d >= 0
  {
    DivMod(n, d);
    var q := n / d;
    if q <= -1 {
      MulMono(q, -1, d);
    }
  }

  lemma {:induction false} DivDiv(n: nat, p: nat, b: nat)
    requires p > 0 && b > 0
    ensures b * p > 0 && n / (b * p) == n / p / b
  {
    var q, r := n / p, n % p;
    DivMod(n, p);
    var t, u := q / b, q % b;
    DivMod(q, b);
    Distribute(t, b, u, p);
    MulMono(u, b - 1, p);
    MulMono(1, b, p);
    var bp, up := b * p, u * p;
    DivStep(n, p, b, q, r, t, u, bp, up);
  }

  lemma {:induction false} DivStep(n: nat, p: nat, b: nat, q: nat, r: nat, t: nat, u: nat, bp: nat, up: nat)
    requires n == q * p + r && r < p && q == t * b + u && bp == b * p && bp > 0
    requires q * p == bp * t + up && up <= (b - 1) * p
    ensures n / bp == t
  {
    QuotientIs(n, bp, t);
  }

  lemma {:induction false} QuotientIs(n: int, d: nat, q: int)
    requires d > 0 && d * q <= n < d * q + d
    ensures n / d == q
  {
    var e := n / d;
    MulMono(if e < q then e + 1 else q + 1, if e < q then q else if e > q then e else q + 1, d);
  }

  /** n without its last k digits. */
  function Dropped(n: nat, b: nat, k: nat): nat
    requires Base(b)
  {
    DivNat(n, Pow(b, k));
    n / Pow(b, k)
  }

  /** One more digit. */
  lemma {:induction false} NextDigit(n: nat, b: nat, k: nat)
    requires Base(b) && Dropped(n, b, k) > 0
    ensures Numeral(Dropped(n, b, k), b) == Numeral(Dropped(n, b, k + 1), b) + [Digit(Dropped(n, b, k) % b)]
  {
    DroppedMore(n, b, k);
    hide Dropped;
  }

  lemma {:induction false} DroppedMore(n: nat, b: nat, k: nat)
    requires Base(b)
    ensures Dropped(n, b, k + 1) == Dropped(n, b, k) / b
  {
    DivDiv(n, Pow(b, k), b);
  }

  // ---------- Decimal ----------

  /** n in decimal, with a sign if it is negative. */
  function Decimal(n: int): seq<char> {
    if n < 0 then ['-'] + Printed(-n, 10) else Printed(n, 10)
  }

  /** s is a sign, if n is negative, and the digits of n. */
  predicate Denotes(s: seq<char>, n: int) {
    if n < 0 then s != [] && s[0] == '-' && Standard(s[1..], 10) && Value(s[1..], 10) == -n
    else Standard(s, 10) && Value(s, 10) == n
  }

  lemma {:induction false} DecimalIff(s: seq<char>, n: int)
    ensures s == Decimal(n) <==> Denotes(s, n)
  {
    if n < 0 {
      if s != [] {
        PrintedIff(s[1..], -n, 10);
        assert s == [s[0]] + s[1..];
      }
      assert Decimal(n)[1..] == Printed(-n, 10);
    } else {
      PrintedIff(s, n, 10);
    }
  }

  lemma {:induction false} Billion()
    ensures Pow(10, 9) == 1_000_000_000 && Pow(10, 10) == 10_000_000_000
  {
    assert Pow(10, 3) == 1000;
    assert Pow(10, 6) == 1_000_000;
  }

  /** The place of the first digit. */
  method FirstPlace(n: nat) returns (place: nat, ghost k: nat)
    requires 0 < n < HALF
    ensures k <= 9 && place == Pow(10, k) && place <= n < Pow(10, k + 1)
    ensures n < 10 * place
  {
    Billion();
    place, k := 1_000_000_000, 9;
    while place > n
      invariant k <= 9 && place == Pow(10, k) && n < Pow(10, k + 1)
    {
      assert k > 0;
      place, k := place / 10, k - 1;
    }
  }

  lemma {:induction false} FirstDropped(n: nat, k: nat)
    requires Pow(10, k) <= n < Pow(10, k + 1)
    ensures Dropped(n, 10, k) > 0 && Dropped(n, 10, k + 1) == 0
  {
    QuotientIs(n, Pow(10, k + 1), 0);
    DivAtLeast(n, Pow(10, k));
  }

  lemma {:induction false} DivAtLeast(n: nat, d: nat)
    requires 0 < d <= n
    ensures n / d > 0
  {
    assert n == n / d * d + n % d;
  }

  /** kputd_buf.  The smallest 32-bit number is left out: it has no negation, and the search for its first digit
      does not end. */
  method KputdBuf(n0: int, buf: array<char>) returns (offset: nat)
    requires -HALF < n0 < HALF && buf.Length >= 12
    modifies buf
    ensures offset < buf.Length && buf[offset] == '\0' && buf[..offset] == Decimal(n0)
    ensures Denotes(buf[..offset], n0)
  {
    hide Dropped, Numeral, Pow, Denotes;
    DecimalIff(Decimal(n0), n0);
    offset := 0;
    if n0 == 0 {
      buf[0] := '0';
      buf[1] := '\0';
      assert buf[..1] == ['0'];
      return 1;
    }
    var n := n0;
    if n < 0 {
      buf[0] := '-';
      offset := 1;
      n := -n;
    }
    ghost var sign := buf[..offset];
    assert sign == if n0 < 0 then ['-'] else [];
    var place;
    ghost var first;
    place, first := FirstPlace(n);
    FirstDropped(n, first);
    NumeralZero();
    ghost var k: int := first;
    while place != 0
      invariant -1 <= k <= first <= 9 && place == (if k >= 0 then Pow(10, k) else 0)
      invariant offset == |sign| + first - k && |sign| <= 1
      invariant k >= 0 ==> Dropped(n, 10, k) > 0
      invariant buf[..offset] == sign + Numeral(Dropped(n, 10, k + 1), 10)
      decreases k
    {
      NextDigit(n, 10, k);
      var d := n / place;
      DroppedIs(n, 10, k);
      ghost var was := buf[..offset];
      buf[offset] := Digit(d % 10);
      assert buf[..offset + 1] == was + [Digit(d % 10)];
      PlaceDown(k);
      if k > 0 {
        DroppedMore(n, 10, k - 1);
      }
      place := place / 10;
      offset, k := offset + 1, k - 1;
    }
    DroppedNone(n, 10);
    buf[offset] := '\0';
  }

  lemma {:induction false} NumeralZero()
    ensures Numeral(0, 10) == [] && Numeral(0, 16) == []
  {
  }

  lemma {:induction false} DroppedIs(n: nat, b: nat, k: nat)
    requires Base(b)
    ensures Pow(b, k) > 0 && Dropped(n, b, k) == n / Pow(b, k)
  {
  }

  lemma {:induction false} DroppedNone(n: nat, b: nat)
    requires Base(b)
    ensures Dropped(n, b, 0) == n
  {
  }

  lemma {:induction false} PlaceDown(k: nat)
    ensures Pow(10, k) > 0 && Pow(10, k) / 10 == if k > 0 then Pow(10, k - 1) else 0
  {
  }

  predicate AllDigits(s: seq<char>) {
    forall i :: 0 <= i < |s| ==> '0' <= s[i] <= '9'
  }

  lemma {:induction false} WrapStep(x: int, d: int)
    ensures Wrap(Wrap(x) * 10 + d) == Wrap(x * 10 + d)
  {
    var q := (x + HALF) / WORD;
    assert Wrap(x) == x - q * WORD;
    assert (x * 10 + d + HALF - 10 * q * WORD) % WORD == (x * 10 + d + HALF) % WORD;
  }

  /** The number that s denotes modulo 2^32, or 0 if s is not made of digits only. */
  function AtoiOf(s: seq<char>): int {
    if AllDigits(s) then Wrap(Value(s, 10)) else 0
  }

  /** atoi, of the characters before the terminator. */
  method Atoi(s: seq<char>) returns (res: int)
    ensures res == AtoiOf(s)
  {
    res := 0;
    for i := 0 to |s|
      invariant AllDigits(s[..i]) && res == Wrap(Value(s[..i], 10))
    {
      var c := s[i];
      if '0' <= c <= '9' {
        assert s[..i + 1][..i] == s[..i];
        WrapStep(Value(s[..i], 10), c as int - '0' as int);
        res := Wrap(res * 10 + (c as int - '0' as int));
      } else {
        return 0;
      }
    }
    assert s[..|s|] == s;
  }

  lemma {:induction false} NumeralDigits(n: nat)
    ensures AllDigits(Numeral(n, 10))
    decreases n
  {
    if n > 0 {
      NumeralDigits(n / 10);
    }
  }

  /** atoi undoes kputd_buf exactly for the numbers without a sign. */
  lemma {:induction false} AtoiUndoesKputdIff(n: int)
    requires -HALF < n < HALF
    ensures AtoiOf(Decimal(n)) == n <==> n >= 0
  {
    if n < 0 {
      assert Decimal(n)[0] == '-';
    } else {
      NumeralDigits(n);
      PrintedValue(n, 10);
    }
  }

  // ---------- Hexadecimal ----------

  lemma {:induction false} Sixteens()
    ensures Pow(16, 1) == 0x10 && Pow(16, 2) == 0x100 && Pow(16, 3) == 0x1000 && Pow(16, 4) == 0x1_0000
    ensures Pow(16, 5) == 0x10_0000 && Pow(16, 6) == 0x100_0000 && Pow(16, 7) == 0x1000_0000 && Pow(16, 8) == WORD
  {
    assert Pow(16, 2) == 0x100;
    assert Pow(16, 4) == 0x1_0000;
    assert Pow(16, 6) == 0x100_0000;
  }

  /** Four bits of n, by an arithmetic shift and a mask. */
  function Nibble(n: int, k: nat): (d: nat)
    ensures d < 16
  {
    n / Pow(16, k) % 16
  }

  /** An arithmetic shift of a negative number shows the digits of the word that represents it. */
  lemma {:induction false} SignedNibble(n: int, k: nat)
    requires -HALF <= n < HALF && k < 8
    ensures Nibble(n, k) == Dropped(n % WORD, 16, k) % 16
  {
    Sixteens();
    hide Pow;
    if n >= 0 {
      assert n % WORD == n;
    } else {
      assert n % WORD == n + WORD;
      NibbleAgain(n, k);
    }
    DroppedIs(n % WORD, 16, k);
  }

  lemma {:induction false} NibbleAgain(n: int, k: nat)
    requires k < 8
    ensures Pow(16, k) > 0 && n / Pow(16, k) % 16 == (n + WORD) / Pow(16, k) % 16
  {
    WordSplit(k);
    ShiftedMod(n, Pow(16, k), Pow(16, 7 - k));
  }

  lemma {:induction false} WordSplit(k: nat)
    requires k < 8
    ensures Pow(16, k) > 0 && Pow(16, k) * (16 * Pow(16, 7 - k)) == WORD
  {
    Sixteens();
    assert Pow(16, 0) == 1;
    hide Pow;
  }

  lemma {:induction false} ShiftedMod(n: int, p: nat, c: int)
    requires p > 0
    ensures n / p % 16 == (n + p * (16 * c)) / p % 16
  {
    var q, w := n / p, p * (16 * c);
    AddQuotient(n, p, 16 * c);
    assert (q + 16 * c) % 16 == q % 16;
  }

  lemma {:induction false} AddQuotient(n: int, p: nat, m: int)
    requires p > 0
    ensures (n + p * m) / p == n / p + m
  {
    var q := n / p;
    assert p * q <= n < p * q + p;
    assert p * (q + m) == p * q + p * m;
    QuotientIs(n + p * m, p, q + m);
  }

  /** kputx_buf. */
  method KputxBuf(n: int, buf: array<char>) returns (offset: nat)
    requires -HALF <= n < HALF && buf.Length >= 9
    modifies buf
    ensures offset < buf.Length && buf[offset] == '\0' && buf[..offset] == Printed(n % WORD, 16)
    ensures Standard(buf[..offset], 16) && Value(buf[..offset], 16) == n % WORD
  {
    hide Dropped, Numeral, Pow, Digit, Nibble, Standard, Value;
    PrintedIff(Printed(n % WORD, 16), n % WORD, 16);
    if n == 0 {
      buf[0] := '0';
      buf[1] := '\0';
      assert buf[..1] == ['0'];
      return 1;
    }
    ghost var u := n % WORD;
    offset := 0;
    var v := false;
    NumeralZero();
    TopDropped(u);
    var k := 7;
    while k >= 0
      invariant -1 <= k <= 7 && 0 <= offset <= 7 - k
      invariant buf[..offset] == Numeral(Dropped(u, 16, k + 1), 16)
      invariant v <==> Dropped(u, 16, k + 1) > 0
    {
      SignedNibble(n, k);
      DroppedMore(u, 16, k);
      var d := Nibble(n, k);
      ghost var was := buf[..offset];
      if Dropped(u, 16, k) > 0 {
        NextDigit(u, 16, k);
      }
      if d != 0 {
        v := true;
      }
      if d < 10 {
        if v {
          buf[offset] := Digit(d);
          offset := offset + 1;
          assert buf[..offset] == was + [Digit(d)];
        }
      } else {
        buf[offset] := Digit(d);
        offset := offset + 1;
        assert buf[..offset] == was + [Digit(d)];
      }
      k := k - 1;
    }
    DroppedNone(u, 16);
    buf[offset] := '\0';
  }

  lemma {:induction false} TopDropped(u: nat)
    requires u < WORD
    ensures Dropped(u, 16, 8) == 0
  {
    Sixteens();
  }

  lemma {:induction false} WrapAdd(x: int, y: int)
    ensures Wrap(Wrap(x) + y) == Wrap(x + y)
  {
  }

  lemma {:induction false} HexStep(s: seq<char>, i: nat, len: nat)
    requires i < len <= |s|
    ensures Value(s[..i], 16) * Pow(16, len - i) + DigitValue(s[i]) * Pow(16, len - 1 - i) ==
            Value(s[..i + 1], 16) * Pow(16, len - 1 - i)
  {
    assert s[..i + 1][..i] == s[..i];
    var x, d, p := Value(s[..i], 16), DigitValue(s[i]), Pow(16, len - 1 - i);
    assert Pow(16, len - i) == 16 * p;
    assert Value(s[..i + 1], 16) == x * 16 + d;
    HexAlgebra(x, d, p);
  }

  lemma {:induction false} HexAlgebra(x: int, d: int, p: int)
    ensures x * (16 * p) + d * p == (x * 16 + d) * p
  {
  }

  /** hex2int of the first len characters, no more than fit in a word. */
  method Hex2Int(s: seq<char>, len: nat) returns (val: int)
    requires len <= |s| && len <= 8
    ensures val == Wrap(Value(s[..len], 16))
  {
    val := 0;
    assert s[..0] == [];
    for i := 0 to len
      invariant val == Wrap(Value(s[..i], 16) * Pow(16, len - i))
    {
      HexStep(s, i, len);
      WrapAdd(Value(s[..i], 16) * Pow(16, len - i), DigitValue(s[i]) * Pow(16, len - 1 - i));
      val := Wrap(val + DigitValue(s[i]) * Pow(16, len - 1 - i));
    }
  }

  /** hex2int undoes kputx_buf for every 32-bit word. */
  lemma {:induction false} Hex2IntUndoesKputx(n: int)
    requires -HALF <= n < HALF
    ensures Wrap(Value(Printed(n % WORD, 16), 16)) == n
  {
    PrintedValue(n % WORD, 16);
  }
}
