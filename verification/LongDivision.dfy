/**
  What DIV computes, stated on numbers.  The dividend is read digit by digit into a window.  A
  window counts as big when it is longer than the divisor, or as long and not smaller; the divisor
  is then subtracted from it until it no longer is.  A window that was emptied and has filled up
  with a leading zero can be longer than the divisor and yet smaller.  Such a window is stalled:
  its leading cell is a byte that is counted down all the way from '0' to '0', so the
  subtractions see 256 more units at that place than the window is worth.
 */
module LongDivision {
  import opened Decimal

  /** Arithmetic on a C `char`: modulo 256. */
  function ByteAdd(c: char, d: int): (r: char)
    ensures (r as int - c as int - d) % 256 == 0 && r as int < 256
  {
    ((c as int + d) % 256) as char
  }

  datatype Window = Window(value: nat, len: nat)

  /** A divisor: its value and its number of digits. */
  datatype Divisor = Divisor(b: nat, size: nat)

  predicate IsDivisor(d: Divisor) {
    d.size > 0 && Pow10(d.size - 1) <= d.b < Pow10(d.size)
  }

  predicate Big(w: Window, d: Divisor) {
    w.len > d.size || (w.len == d.size && w.value >= d.b)
  }

  predicate Stalled(w: Window, d: Divisor) {
    w.len > d.size && w.value < d.b
  }

  /** The amount that is divided at a window. */
  function Load(w: Window, d: Divisor): nat {
    w.value + if Stalled(w, d) then 256 * Pow10(d.size) else 0
  }

  /** How often b can be taken off n, and what is left then. */
  function Rounds(n: nat, b: nat): nat {
    if b == 0 || n < b then 0 else 1 + Rounds(n - b, b)
  }

  function Left(n: nat, b: nat): (r: nat)
    ensures b > 0 ==> r < b
  {
    if b == 0 || n < b then n else Left(n - b, b)
  }

  /** The number of digits of v, none for zero. */
  function NumLen(v: nat): nat {
    if v == 0 then 0 else 1 + NumLen(v / 10)
  }

  function Extend(w: Window, digit: nat): Window {
    Window(10 * w.value + digit, w.len + 1)
  }

  function Reduce(w: Window, d: Divisor): Window {
    if Big(w, d) then var r := Left(Load(w, d), d.b); Window(r, NumLen(r)) else w
  }

  function Cell(w: Window, d: Divisor): char {
    if Big(w, d) then ByteAdd('0', Rounds(Load(w, d), d.b)) else '0'
  }

  function DigitAt(a: string, i: nat): (n: nat)
    ensures n <= 9
  {
    if i < |a| && IsDigit(a[i]) then Digit(a[i]) else 0
  }

  /** The window left when p digits of the dividend are done. */
  function After(a: string, d: Divisor, p: nat): Window {
    if p == 0 then Window(0, 0) else Reduce(Extend(After(a, d, p - 1), DigitAt(a, p - 1)), d)
  }

  /** The window with digit p just read. */
  function Reached(a: string, d: Divisor, p: nat): Window
    requires p > 0
  {
    Extend(After(a, d, p - 1), DigitAt(a, p - 1))
  }

  /** The quotient cells for the first p digits. */
  function Quotient(a: string, d: Divisor, p: nat): (q: string)
    ensures |q| == p
  {
    if p == 0 then "" else Quotient(a, d, p - 1) + [Cell(Reached(a, d, p), d)]
  }

  /** Some window among the first p stalled. */
  predicate Stalls(a: string, d: Divisor, p: nat) {
    p > 0 && (Stalled(Reached(a, d, p), d) || Stalls(a, d, p - 1))
  }

  /** The window starts with a zero. */
  predicate ZeroLed(w: Window) {
    w.len > 0 && w.value < Pow10(w.len - 1)
  }

  lemma {:induction false} NumLenBounds(v: nat)
    ensures v < Pow10(NumLen(v))
    ensures v > 0 ==> Pow10(NumLen(v) - 1) <= v
  {
    if v > 0 { NumLenBounds(v / 10); }
  }

  /** Powers of ten are in the order of their exponents. */
  lemma PowBetween(m: nat, n: nat, v: nat)
    requires Pow10(m) <= v < Pow10(n)
    ensures m < n
  {
    if n <= m { Pow10Mono(n, m); }
  }

  /** What one step keeps of a window: below the divisor, no longer than it, long enough for its value. */
  lemma ReduceBounds(w: Window, d: Divisor)
    requires IsDivisor(d) && w.value < Pow10(w.len)
    ensures var r := Reduce(w, d); r.value < d.b && r.len <= d.size && r.value < Pow10(r.len)
    ensures Big(w, d) ==> !ZeroLed(Reduce(w, d))
  {
    if Big(w, d) {
      var r := Left(Load(w, d), d.b);
      NumLenBounds(r);
      if r > 0 { PowBetween(NumLen(r) - 1, d.size, r); }
    } else if w.len < d.size {
      Pow10Mono(w.len, d.size - 1);
    }
  }

  /** Every window is below the divisor once reduced, no longer than it, and holds its value. */
  lemma {:induction false} WindowBounds(a: string, d: Divisor, p: nat)
    requires IsDivisor(d)
    ensures var w := After(a, d, p); w.value < d.b && w.len <= d.size && w.value < Pow10(w.len)
  {
    hide Reduce, ZeroLed, DigitAt;
    if p > 0 {
      WindowBounds(a, d, p - 1);
      ReduceBounds(Reached(a, d, p), d);
    }
  }

  /** The contribution of one window to quotient * b + rest - dividend. */
  function Slip(w: Window, d: Divisor): int {
    Digit(Cell(w, d)) * d.b + Reduce(w, d).value - w.value
  }

  /** quotient * b + rest - dividend after p digits, as the windows accumulate it. */
  function Error(a: string, d: Divisor, p: nat): int {
    if p == 0 then 0 else 10 * Error(a, d, p - 1) + Slip(Reached(a, d, p), d)
  }

  lemma MulFacts(x: int, b: nat)
    ensures x >= 1 ==> x * b >= b
    ensures x <= -1 ==> x * b + b <= 0
  {}

  lemma DivMod(n: nat, b: nat, q: nat, r: nat)
    requires r < b && n == q * b + r
    ensures n / b == q && n % b == r
  {
    var x := n / b - q;
    assert x * b == r - n % b;
    MulFacts(x, b);
  }

  lemma QuotientRest(n: nat, b: nat)
    requires b > 0
    ensures n / b * b + n % b == n
  {}

  /** Repeated subtraction is division. */
  lemma {:induction false} RoundsAreDivision(n: nat, b: nat)
    requires b > 0
    ensures Rounds(n, b) == n / b && Left(n, b) == n % b
  {
    if n >= b {
      RoundsAreDivision(n - b, b);
      QuotientRest(n - b, b);
      assert (Rounds(n - b, b) + 1) * b == (n - b) / b * b + b;
      DivMod(n, b, Rounds(n - b, b) + 1, Left(n - b, b));
    } else {
      DivMod(n, b, 0, n);
    }
  }

  lemma AccountStep(q: int, q': int, c: int, b: int, r: int, r': int, v: int, v': int, digit: int)
    requires q' == 10 * q + c && v' == 10 * v + digit
    ensures 10 * (q * b + r - v) + (c * b + r' - (10 * r + digit)) == q' * b + r' - v'
  {
    assert q' * b == 10 * (q * b) + c * b;
  }

  lemma QuotientStep(a: string, d: Divisor, p: nat)
    requires p > 0
    ensures Val(Quotient(a, d, p)) == 10 * Val(Quotient(a, d, p - 1)) + Digit(Cell(Reached(a, d, p), d))
    ensures AllDigits(Quotient(a, d, p)) ==> AllDigits(Quotient(a, d, p - 1)) && IsDigit(Cell(Reached(a, d, p), d))
  {
    var q, q' := Quotient(a, d, p - 1), Quotient(a, d, p);
    ValSnoc(q');
    assert q'[..p - 1] == q && q'[p - 1] == Cell(Reached(a, d, p), d);
  }

  lemma SliceStep(a: string, k: nat, p: nat)
    requires k < p <= |a| && AllDigits(a)
    ensures Val(a[k..p]) == 10 * Val(a[k..p - 1]) + DigitAt(a, p - 1)
  {
    ValSnoc(a[k..p]);
    assert a[k..p][..p - k - 1] == a[k..p - 1];
  }

  lemma {:induction false} ErrorIs(a: string, d: Divisor, p: nat)
    requires AllDigits(a) && p <= |a|
    ensures Error(a, d, p) == Val(Quotient(a, d, p)) * d.b + After(a, d, p).value - Val(a[0..p])
  {
    if p > 0 {
      ErrorIs(a, d, p - 1);
      QuotientStep(a, d, p);
      SliceStep(a, 0, p);
      AccountStep(Val(Quotient(a, d, p - 1)), Val(Quotient(a, d, p)), Digit(Cell(Reached(a, d, p), d)), d.b,
                  After(a, d, p - 1).value, After(a, d, p).value, Val(a[0..p - 1]), Val(a[0..p]), DigitAt(a, p - 1));
    }
  }

  lemma DigitCell(q: nat)
    requires q <= 9
    ensures IsDigit(ByteAdd('0', q)) && Digit(ByteAdd('0', q)) == q
  {}

  lemma SmallQuotient(n: nat, b: nat)
    requires 0 < b && n < 10 * b
    ensures Rounds(n, b) <= 9 && Rounds(n, b) * b + Left(n, b) == n
  {
    RoundsAreDivision(n, b);
    QuotientRest(n, b);
    MulFacts(n / b - 9, b);
    assert (n / b - 9) * b == n / b * b - 9 * b;
  }

  /** A window that is not stalled is divided exactly, by at most nine subtractions. */
  lemma NoSlip(w: Window, d: Divisor)
    requires IsDivisor(d) && w.value < 10 * d.b && !Stalled(w, d)
    ensures Slip(w, d) == 0 && IsDigit(Cell(w, d))
  {
    if Big(w, d) {
      SmallQuotient(w.value, d.b);
      DigitCell(Rounds(w.value, d.b));
    }
  }

  /** 256 P + v is divided by b as v would be, up to a multiple of 256 rounds, when b divides P. */
  lemma StallHarmless(v: nat, P: nat, b: nat)
    requires v < b && P % b == 0
    ensures Rounds(v + 256 * P, b) % 256 == 0 && Left(v + 256 * P, b) == v
  {
    var t := P / b;
    assert P == t * b;
    assert (256 * t) * b == 256 * (t * b);
    RoundsAreDivision(v + 256 * P, b);
    DivMod(v + 256 * P, b, 256 * t, v);
  }

  lemma ZeroCell(n: nat)
    requires n % 256 == 0
    ensures ByteAdd('0', n) == '0'
  {}

  /** The divisor divides the power of ten of its length, so a stall does no harm. */
  predicate Harmless(d: Divisor) {
    Left(Pow10(d.size), d.b) == 0
  }

  lemma HarmlessIs(d: Divisor)
    requires d.b > 0
    ensures Harmless(d) <==> Pow10(d.size) % d.b == 0
  {
    RoundsAreDivision(Pow10(d.size), d.b);
  }

  /** How often the quotient byte passes zero: '0' is 48, and every 256 rounds are forgotten. */
  function Turns(w: Window, d: Divisor): nat {
    (Rounds(Load(w, d), d.b) + 48) / 256
  }

  /** By how much the 256 units a stalled window has too many miss the divisors that are forgotten, in units of 256. */
  function Offset(w: Window, d: Divisor): int {
    if Stalled(w, d) then Pow10(d.size) - Turns(w, d) * d.b else 0
  }

  lemma CellIs(n: nat)
    ensures Digit(ByteAdd('0', n)) == n - 256 * ((n + 48) / 256)
  {}

  /** The account of a stalled window, whether its quotient byte is a digit or not. */
  lemma StallAccount(v: int, P: int, b: int, n: int, r: int, turns: int)
    requires 0 <= v < b < P && 0 <= r < b && 0 <= turns
    requires n * b + r == v + 256 * P && 256 * turns <= n + 48 < 256 * turns + 256
    ensures (n - 256 * turns) * b + r - v == 256 * (P - turns * b)
    ensures -P < P - turns * b < P
  {
    var x, y := n * b, turns * b;
    MulFacts(n - 255, b);
    assert (n - 255) * b == x - 255 * b;
    MulFacts(turns, b);
    assert (256 * turns) * b == 256 * y;
    Product(n + 48 - 256 * turns, b);
    assert (n + 48 - 256 * turns) * b == x + 48 * b - 256 * y;
    assert (n - 256 * turns) * b == x - 256 * y;
  }

  lemma Product(x: nat, b: nat)
    ensures x * b >= 0
  {}

  /** What a stall does to the account: a multiple of 256, and less than 256 units of the leading place. */
  lemma StallSlip(w: Window, d: Divisor)
    requires IsDivisor(d) && Stalled(w, d)
    ensures Slip(w, d) == 256 * Offset(w, d) && Abs(Offset(w, d)) < Pow10(d.size)
  {
    var load := Load(w, d);
    RoundsAreDivision(load, d.b);
    QuotientRest(load, d.b);
    CellIs(Rounds(load, d.b));
    StallAccount(w.value, Pow10(d.size), d.b, Rounds(load, d.b), Left(load, d.b), Turns(w, d));
  }

  /** A stalled window comes out right exactly when the divisor divides the power of ten of its length. */
  lemma SlipAtStall(w: Window, d: Divisor)
    requires IsDivisor(d) && Stalled(w, d)
    ensures Slip(w, d) == 0 <==> Harmless(d)
    ensures Slip(w, d) == 0 ==> Cell(w, d) == '0'
  {
    StallSlip(w, d);
    HarmlessIs(d);
    if Harmless(d) {
      StallHarmless(w.value, Pow10(d.size), d.b);
      ZeroCell(Rounds(Load(w, d), d.b));
    } else if Offset(w, d) == 0 {
      DivMod(Pow10(d.size), d.b, Turns(w, d), 0);
    }
  }

  /** Every window's slip is 256 times its offset. */
  lemma SlipIs(w: Window, d: Divisor)
    requires IsDivisor(d) && w.value < 10 * d.b
    ensures Slip(w, d) == 256 * Offset(w, d)
  {
    if Stalled(w, d) { StallSlip(w, d); } else { NoSlip(w, d); }
  }

  /** The error in units of 256. */
  function Drift(a: string, d: Divisor, p: nat): int {
    if p == 0 then 0 else 10 * Drift(a, d, p - 1) + Offset(Reached(a, d, p), d)
  }

  lemma {:induction false} ErrorIsDrift(a: string, d: Divisor, p: nat)
    requires IsDivisor(d)
    ensures Error(a, d, p) == 256 * Drift(a, d, p)
  {
    hide Slip, Offset, IsDivisor, After;
    if p > 0 {
      ErrorIsDrift(a, d, p - 1);
      WindowBounds(a, d, p - 1);
      SlipIs(Reached(a, d, p), d);
    }
  }

  /** When nothing spoils a window, the account is balanced. */
  lemma {:induction false} NoError(a: string, d: Divisor, p: nat)
    requires AllDigits(a) && IsDivisor(d) && p <= |a|
    requires !Stalls(a, d, p) || Harmless(d)
    ensures Error(a, d, p) == 0 && AllDigits(Quotient(a, d, p))
  {
    if p > 0 {
      NoError(a, d, p - 1);
      WindowBounds(a, d, p - 1);
      var w := Reached(a, d, p);
      if Stalled(w, d) { SlipAtStall(w, d); } else { NoSlip(w, d); }
    }
  }

  /** When nothing spoils a window, the division is exact so far. */
  lemma ExactSoFar(a: string, d: Divisor, p: nat)
    requires AllDigits(a) && IsDivisor(d) && p <= |a|
    requires !Stalls(a, d, p) || Harmless(d)
    ensures AllDigits(Quotient(a, d, p)) && Val(a[..p]) >= 0
    ensures After(a, d, p).value == Val(a[..p]) % d.b && Val(Quotient(a, d, p)) == Val(a[..p]) / d.b
  {
    ValBound(a[..p]);
    WindowBounds(a, d, p);
    NoError(a, d, p);
    ErrorIs(a, d, p);
    assert a[0..p] == a[..p];
    ValBound(Quotient(a, d, p));
    DivMod(Val(a[..p]), d.b, Val(Quotient(a, d, p)), After(a, d, p).value);
  }

  /** The same, with the remainder as what repeated subtraction leaves. */
  lemma LeftSoFar(a: string, d: Divisor, p: nat)
    requires AllDigits(a) && IsDivisor(d) && p <= |a| && !Stalls(a, d, p)
    ensures After(a, d, p).value == Left(Abs(Val(a[..p])), d.b)
  {
    ExactSoFar(a, d, p);
    RoundsAreDivision(Val(a[..p]), d.b);
  }

  /** How far off the account must be while the window is w. */
  function Stake(w: Window): nat {
    if ZeroLed(w) then Pow10(w.len) else 1
  }

  /** The drift grows tenfold with every digit. */
  lemma DriftGrows(v: Window, digit: nat, d: Divisor, drift: int)
    requires IsDivisor(d) && digit <= 9 && v.value < Pow10(v.len) && Abs(drift) >= Stake(v)
    ensures Abs(10 * drift) >= Stake(Reduce(Extend(v, digit), d))
  {
    hide Reduce;
    if ZeroLed(Reduce(Extend(v, digit), d)) { ZeroLedStep(v, digit, d); }
  }

  /** A stall cannot make good a drift that size + 1 digits have multiplied. */
  lemma DriftOutweighs(v: Window, digit: nat, d: Divisor, drift: int)
    requires IsDivisor(d) && v.len <= d.size && Stalled(Extend(v, digit), d) && Abs(drift) >= Stake(v)
    ensures Abs(10 * drift + Offset(Extend(v, digit), d)) >= 1
  {
    StallStep(v, digit, d);
    StallSlip(Extend(v, digit), d);
  }

  /** A drift survives every further window. */
  lemma DriftSurvives(v: Window, digit: nat, d: Divisor, drift: int)
    requires IsDivisor(d) && digit <= 9 && v.len <= d.size && v.value < Pow10(v.len) && Abs(drift) >= Stake(v)
    ensures Abs(10 * drift + Offset(Extend(v, digit), d)) >= Stake(Reduce(Extend(v, digit), d))
  {
    hide Turns, Reduce, Load;
    if Stalled(Extend(v, digit), d) {
      DriftOutweighs(v, digit, d, drift);
      ReduceBounds(Extend(v, digit), d);
    } else {
      DriftGrows(v, digit, d, drift);
    }
  }

  /** The first stall makes one. */
  lemma DriftAppears(v: Window, digit: nat, d: Divisor)
    requires IsDivisor(d) && digit <= 9 && v.value < Pow10(v.len) && !Harmless(d) && Stalled(Extend(v, digit), d)
    ensures Abs(Offset(Extend(v, digit), d)) >= Stake(Reduce(Extend(v, digit), d))
  {
    hide Turns, Reduce, Load, Slip, Harmless;
    SlipAtStall(Extend(v, digit), d);
    StallSlip(Extend(v, digit), d);
    ReduceBounds(Extend(v, digit), d);
  }

  lemma {:induction false} DriftStays(a: string, d: Divisor, p: nat)
    requires AllDigits(a) && IsDivisor(d) && p <= |a| && Stalls(a, d, p) && !Harmless(d)
    ensures Abs(Drift(a, d, p)) >= Stake(After(a, d, p))
  {
    hide Stake, Offset, Reduce, Stalled, Harmless, IsDivisor;
    WindowBounds(a, d, p - 1);
    if Stalls(a, d, p - 1) {
      DriftStays(a, d, p - 1);
      DriftSurvives(After(a, d, p - 1), DigitAt(a, p - 1), d, Drift(a, d, p - 1));
    } else {
      NoDrift(a, d, p - 1);
      DriftAppears(After(a, d, p - 1), DigitAt(a, p - 1), d);
    }
  }

  lemma NoDrift(a: string, d: Divisor, p: nat)
    requires AllDigits(a) && IsDivisor(d) && p <= |a| && !Stalls(a, d, p)
    ensures Drift(a, d, p) == 0
  {
    NoError(a, d, p);
    ErrorIsDrift(a, d, p);
  }

  /**
    Once a window has stalled the account never balances again, whatever the cells are: every further
    digit multiplies the error by ten, and before the next stall can contribute a smaller one,
    size + 1 digits have passed.
   */
  lemma ErrorStays(a: string, d: Divisor, p: nat)
    requires AllDigits(a) && IsDivisor(d) && p <= |a| && Stalls(a, d, p) && !Harmless(d)
    ensures Abs(Error(a, d, p)) >= 256 * Stake(After(a, d, p))
  {
    DriftStays(a, d, p);
    ErrorIsDrift(a, d, p);
  }

  /** The window before a stall is zero-led and as long as the divisor. */
  lemma StallStep(v: Window, digit: nat, d: Divisor)
    requires IsDivisor(d) && v.len <= d.size && Stalled(Extend(v, digit), d)
    ensures v.len == d.size && ZeroLed(v)
  {}

  /** A zero-led window comes from a zero-led one, or from an empty one and a zero; nothing was taken off. */
  lemma ZeroLedStep(v: Window, digit: nat, d: Divisor)
    requires IsDivisor(d) && v.value < Pow10(v.len) && digit <= 9 && ZeroLed(Reduce(Extend(v, digit), d))
    ensures Reduce(Extend(v, digit), d) == Extend(v, digit)
    ensures if v.len == 0 then v.value == 0 && digit == 0 else ZeroLed(v)
  {
    ReduceBounds(Extend(v, digit), d);
  }

  /** The division is exact: every cell a digit, together the quotient, and the rest is the remainder. */
  ghost predicate Exact(a: string, d: Divisor) {
    && d.b > 0 && Val(a) >= 0
    && AllDigits(Quotient(a, d, |a|))
    && Val(Quotient(a, d, |a|)) == Val(a) / d.b
    && After(a, d, |a|).value == Val(a) % d.b
  }

  /** At k the window is empty and the next size + 1 digits, a zero in front, are worth less than the divisor. */
  ghost predicate Starved(a: string, d: Divisor, k: nat) {
    && d.b > 0 && 0 < k && k + d.size + 1 <= |a|
    && Val(a[..k]) % d.b == 0 && a[k] == '0' && Val(a[k..k + d.size + 1]) < d.b
  }

  /** The condition on the input. */
  ghost predicate NeverStarved(a: string, d: Divisor) {
    d.b > 0 && forall k: nat :: !Starved(a, d, k)
  }

  /** A zero-led window started right after an emptied one, on a zero, and nothing was taken off it. */
  ghost predicate StartedEmpty(a: string, d: Divisor, k: nat, p: nat, value: int) {
    k < p <= |a| && k > 0 && After(a, d, k).value == 0 && a[k] == '0' && Val(a[k..p]) == value
  }

  lemma StartedStep(a: string, d: Divisor, k: nat, p: nat, value: int)
    requires AllDigits(a) && p < |a| && StartedEmpty(a, d, k, p, value)
    ensures StartedEmpty(a, d, k, p + 1, 10 * value + DigitAt(a, p))
  {
    SliceStep(a, k, p + 1);
  }

  lemma StartedFirst(a: string, d: Divisor, k: nat)
    requires AllDigits(a) && 0 < k < |a| && After(a, d, k).value == 0 && DigitAt(a, k) == 0
    ensures StartedEmpty(a, d, k, k + 1, 0)
  {
    ValOne(a[k]);
    assert a[k..k + 1] == [a[k]];
  }

  lemma BeforeZeroLed(a: string, d: Divisor, p: nat)
    requires IsDivisor(d) && ZeroLed(After(a, d, p))
    ensures p > 0
    ensures var v, digit := After(a, d, p - 1), DigitAt(a, p - 1);
            && After(a, d, p) == Extend(v, digit)
            && if v.len == 0 then v.value == 0 && digit == 0 else ZeroLed(v)
  {
    WindowBounds(a, d, p - 1);
    ZeroLedStep(After(a, d, p - 1), DigitAt(a, p - 1), d);
  }

  lemma {:induction false} ZeroLedOrigin(a: string, d: Divisor, p: nat, w: Window) returns (k: nat)
    requires AllDigits(a) && |a| > 0 && a[0] != '0' && IsDivisor(d) && p <= |a|
    requires w == After(a, d, p) && ZeroLed(w)
    ensures k + w.len == p && StartedEmpty(a, d, k, p, w.value)
    decreases p, 0
  {
    hide ZeroLed, StartedEmpty, Reduce, IsDivisor, DigitAt;
    BeforeZeroLed(a, d, p);
    k := OriginBefore(a, d, p - 1, After(a, d, p - 1), DigitAt(a, p - 1));
  }

  /** Where a window started that is zero-led once the next digit is read. */
  lemma {:induction false} OriginBefore(a: string, d: Divisor, p: nat, v: Window, digit: nat) returns (k: nat)
    requires AllDigits(a) && p < |a| && a[0] != '0' && IsDivisor(d)
    requires v == After(a, d, p) && digit == DigitAt(a, p)
    requires if v.len == 0 then v.value == 0 && digit == 0 else ZeroLed(v)
    ensures k + v.len == p && StartedEmpty(a, d, k, p + 1, 10 * v.value + digit)
    decreases p, 1
  {
    if v.len == 0 {
      k := p;
      StartedFirst(a, d, k);
    } else {
      k := ZeroLedOrigin(a, d, p, v);
      StartedStep(a, d, k, p, v.value);
    }
  }

  /** The same with divisibility as nothing left by repeated subtraction. */
  ghost predicate Hungry(a: string, d: Divisor, k: nat) {
    && 0 < k && k + d.size + 1 <= |a|
    && Left(Abs(Val(a[..k])), d.b) == 0 && a[k] == '0' && Val(a[k..k + d.size + 1]) < d.b
  }

  ghost predicate Fed(a: string, d: Divisor) {
    forall k: nat :: !Hungry(a, d, k)
  }

  lemma StarvedIs(a: string, d: Divisor, k: nat)
    requires AllDigits(a) && d.b > 0
    ensures Hungry(a, d, k) <==> Starved(a, d, k)
  {
    if k <= |a| {
      ValBound(a[..k]);
      RoundsAreDivision(Val(a[..k]), d.b);
    }
  }

  lemma FedIs(a: string, d: Divisor)
    requires AllDigits(a) && d.b > 0
    ensures Fed(a, d) <==> NeverStarved(a, d)
  {
    hide Hungry, Starved;
    forall k: nat ensures Hungry(a, d, k) <==> Starved(a, d, k) { StarvedIs(a, d, k); }
  }

  /** The first stall exhibits a place where the condition fails. */
  lemma {:induction false} StallOrigin(a: string, d: Divisor, p: nat)
    requires Canonical(a) && IsDivisor(d) && p <= |a| && a[0] != '0'
    requires Stalls(a, d, p)
    ensures !Fed(a, d)
  {
    if Stalls(a, d, p - 1) {
      StallOrigin(a, d, p - 1);
    } else {
      FirstStall(a, d, p);
    }
  }

  lemma FirstStall(a: string, d: Divisor, p: nat)
    requires Canonical(a) && IsDivisor(d) && 0 < p <= |a| && a[0] != '0'
    requires Stalled(Reached(a, d, p), d) && !Stalls(a, d, p - 1)
    ensures !Fed(a, d)
  {
    var v, digit := After(a, d, p - 1), DigitAt(a, p - 1);
    WindowBounds(a, d, p - 1);
    StallStep(v, digit, d);
    var k := OriginBefore(a, d, p - 1, v, digit);
    NoStallPrefix(a, d, k, p - 1);
    LeftSoFar(a, d, k);
    StarvedAt(a, d, k, p);
  }

  /** A place where the digits read so far are divisible, and the next size + 1 digits are below the divisor. */
  lemma StarvedAt(a: string, d: Divisor, k: nat, p: nat)
    requires 0 < k && p == k + d.size + 1 <= |a| && a[k] == '0'
    requires Left(Abs(Val(a[..k])), d.b) == 0 && Val(a[k..p]) < d.b
    ensures !Fed(a, d)
  {
    assert Hungry(a, d, k);
  }

  /** A digit that leaves the window small is only added to it. */
  lemma PileStep(w: Window, digit: nat, d: Divisor)
    requires !Stalled(Extend(w, digit), d) && 10 * w.value + digit < d.b
    ensures Reduce(Extend(w, digit), d) == Extend(w, digit)
  {
    hide Load, Cell, Left;
  }

  /** While the digits from k on stay below the divisor, they only pile up in the window. */
  lemma {:induction false} PileUp(a: string, d: Divisor, k: nat, j: nat)
    requires AllDigits(a) && IsDivisor(d) && k + j <= |a| && !Stalls(a, d, k + j)
    requires After(a, d, k).value == 0 && 0 <= Val(a[k..k + j]) < d.b
    ensures After(a, d, k + j) == Window(Val(a[k..k + j]), After(a, d, k).len + j)
    decreases j
  {
    hide Reduce, Val, DigitAt, Stalled;
    ValBound(a[k..k + j]);
    if j > 0 {
      var w, digit := After(a, d, k + j - 1), DigitAt(a, k + j - 1);
      ValBound(a[k..k + j - 1]);
      SliceStep(a, k, k + j);
      PileUp(a, d, k, j - 1);
      assert w.value == Val(a[k..k + j - 1]);
      PileStep(w, digit, d);
    } else {
      NoDigits(a[k..k]);
    }
  }

  lemma NoDigits(s: string)
    requires s == ""
    ensures Val(s) == 0
  {}

  lemma NoStallPrefix(a: string, d: Divisor, p: nat, n: nat)
    requires AllDigits(a) && IsDivisor(d) && p <= n <= |a| && !Stalls(a, d, n)
    ensures !Stalls(a, d, p)
    decreases n - p
  {
    if p < n { NoStallPrefix(a, d, p, n - 1); }
  }

  lemma NonZeroHead(a: string)
    requires Canonical(a) && Val(a) > 0
    ensures a[0] != '0'
  {
    if |a| == 1 { ValSnoc(a); }
  }

  /** The run stalls exactly when the condition on the input fails. */
  lemma StallsIffStarved(a: string, d: Divisor)
    requires Canonical(a) && IsDivisor(d) && Val(a) > 0
    ensures Stalls(a, d, |a|) <==> !NeverStarved(a, d)
  {
    NonZeroHead(a);
    FedIs(a, d);
    if Stalls(a, d, |a|) {
      StallOrigin(a, d, |a|);
    } else {
      NoStallFed(a, d);
    }
  }

  lemma NoStallFed(a: string, d: Divisor)
    requires AllDigits(a) && IsDivisor(d) && !Stalls(a, d, |a|)
    ensures Fed(a, d)
  {
    hide Left, Val, Stalls;
    forall k: nat ensures !Hungry(a, d, k) {
      if Hungry(a, d, k) { FedHere(a, d, k); }
    }
  }

  lemma FedHere(a: string, d: Divisor, k: nat)
    requires AllDigits(a) && IsDivisor(d) && !Stalls(a, d, |a|)
    requires k + d.size + 1 <= |a| && Left(Abs(Val(a[..k])), d.b) == 0
    ensures Val(a[k..k + d.size + 1]) >= d.b
  {
    NoStallPrefix(a, d, k, |a|);
    LeftSoFar(a, d, k);
    NotStarved(a, d, k);
  }

  /** Where an emptied window is never starved of digits, there is no stall; and conversely. */
  lemma NotStarved(a: string, d: Divisor, k: nat)
    requires AllDigits(a) && IsDivisor(d) && !Stalls(a, d, |a|)
    requires k + d.size + 1 <= |a| && After(a, d, k).value == 0
    ensures Val(a[k..k + d.size + 1]) >= d.b
  {
    hide Val, After, Left, IsDivisor;
    var n := k + d.size + 1;
    NoStallPrefix(a, d, n, |a|);
    LengthBound(a, d, n);
    ValBound(a[k..n]);
    if Val(a[k..n]) < d.b { PiledLength(a, d, k, n); }
  }

  lemma PiledLength(a: string, d: Divisor, k: nat, n: nat)
    requires AllDigits(a) && IsDivisor(d) && k <= n <= |a| && !Stalls(a, d, n)
    requires After(a, d, k).value == 0 && 0 <= Val(a[k..n]) < d.b
    ensures After(a, d, n).len >= n - k
  {
    PileUp(a, d, k, n - k);
  }

  lemma LengthBound(a: string, d: Divisor, p: nat)
    requires IsDivisor(d)
    ensures After(a, d, p).len <= d.size
  {
    WindowBounds(a, d, p);
  }

  /** DIV is exact if and only if no window is starved, or the divisor divides 10^size. */
  lemma ExactIff(a: string, d: Divisor)
    requires Canonical(a) && IsDivisor(d) && Val(a) > 0
    ensures Exact(a, d) <==> NeverStarved(a, d) || Pow10(d.size) % d.b == 0
  {
    StallsIffStarved(a, d);
    var n := |a|;
    assert a[..n] == a;
    HarmlessIs(d);
    if NeverStarved(a, d) || Harmless(d) {
      ExactSoFar(a, d, n);
    } else if Exact(a, d) {
      ErrorStays(a, d, n);
      ErrorIs(a, d, n);
      assert a[0..n] == a;
      QuotientRest(Val(a), d.b);
    }
  }

  /** A dividend without zero digits is always divided exactly. */
  lemma NoZeroDigitsExact(a: string, d: Divisor)
    requires Canonical(a) && IsDivisor(d) && '0' !in a
    ensures Exact(a, d)
  {
    ValLower(a);
    ExactIff(a, d);
  }

  // ---------- inputs that show both sides ----------

  lemma Digits(a: string, d: Divisor, p: nat, w: Window, w': Window, c: char)
    requires p > 0 && After(a, d, p - 1) == w && Reduce(Extend(w, DigitAt(a, p - 1)), d) == w'
    requires Cell(Extend(w, DigitAt(a, p - 1)), d) == c
    ensures After(a, d, p) == w' && Quotient(a, d, p) == Quotient(a, d, p - 1) + [c]
  {}

  /** 700 / 7 comes out as "10" and the byte 157: the window "00" is longer than "7". */
  lemma SevenHundred(a: string, d: Divisor)
    requires a == "700" && d == Divisor(7, 1)
    ensures Quotient(a, d, 3) == "10" + [157 as char] && !Exact(a, d)
  {
    assert Pow10(1) == 10;
    OneRound(7, 7);
    Digits(a, d, 1, Window(0, 0), Window(0, 0), '1');
    Digits(a, d, 2, Window(0, 0), Window(0, 1), '0');
    assert Quotient(a, d, 2) == "10";
    var w := Window(0, 2);
    RoundsAreDivision(Load(w, d), 7);
    var q := Quotient(a, d, 3);
    assert q[2] == Cell(w, d) == ByteAdd('0', 365) == 157 as char;
    assert !IsDigit(q[2]);
  }

  /** A digit that does not make the window big. */
  lemma Kept(a: string, d: Divisor, p: nat, w: Window)
    requires p > 0 && Extend(After(a, d, p - 1), DigitAt(a, p - 1)) == w && !Big(w, d)
    ensures After(a, d, p) == w && Quotient(a, d, p) == Quotient(a, d, p - 1) + "0"
  {}

  /** 9970000 / 997 stalls as well, but for exactly 256 rounds: the cells are right, what is left is not. */
  lemma RightByWrapping(a: string, d: Divisor)
    requires a == "9970000" && d == Divisor(997, 3)
    ensures Quotient(a, d, 7) == "0010000" && After(a, d, 7).value == 768 && !Exact(a, d)
  {
    hide Reduce, Cell, Val, NeverStarved;
    Kept(a, d, 1, Window(9, 1));
    Kept(a, d, 2, Window(99, 2));
    FirstTurn(Extend(Window(99, 2), 7), d);
    Digits(a, d, 3, Window(99, 2), Window(0, 0), '1');
    Kept(a, d, 4, Window(0, 1));
    Kept(a, d, 5, Window(0, 2));
    Kept(a, d, 6, Window(0, 3));
    FullTurn(Extend(Window(0, 3), 0), d);
    assert Quotient(a, d, 6) == "001000";
    Worth(a);
  }

  lemma Worth(a: string)
    requires a == "9970000"
    ensures Val(a) == 9970000
  {
    assert Digit('9') == 9 && Digit('7') == 7;
    assert ValTo(a, 1) == 9;
    assert ValTo(a, 3) == 997;
    assert ValTo(a, 4) == 9970;
    assert ValTo(a, 5) == 99700;
    assert ValTo(a, 6) == 997000;
  }

  lemma FirstTurn(w: Window, d: Divisor)
    requires w == Window(997, 3) && d == Divisor(997, 3)
    ensures Cell(w, d) == '1' && Reduce(w, d) == Window(0, 0)
  {
    OneRound(997, 997);
  }

  lemma FullTurn(w: Window, d: Divisor)
    requires w == Window(0, 4) && d == Divisor(997, 3)
    ensures Cell(w, d) == '0' && Reduce(w, d).value == 768
  {
    assert Pow10(1) == 10 && Pow10(2) == 100 && Pow10(3) == 1000;
    RoundsAreDivision(Load(w, d), 997);
  }

  lemma OneRound(n: nat, b: nat)
    requires 0 < b <= n < 2 * b
    ensures Rounds(n, b) == 1 && Left(n, b) == n - b
  {}
}
