/**
  When the cells of DIV are the quotient, whatever is left in the window.  A stall is then made good
  only if it is the last one and its 256 units of the leading place, moved on by the digits that
  follow, are close enough to a multiple of the divisor.
 */
module Quotients {
  import opened Decimal
  import opened LongDivision

  /** Every cell is a digit, and together they are the quotient. */
  ghost predicate QuotientRight(a: string, d: Divisor) {
    && d.b > 0 && Val(a) >= 0
    && AllDigits(Quotient(a, d, |a|)) && Val(Quotient(a, d, |a|)) == Val(a) / d.b
  }

  /** The place where the window stalls for the first time is size + 1 digits behind this one. */
  ghost predicate FirstStarved(a: string, d: Divisor, k: nat) {
    Starved(a, d, k) && forall j: nat :: j < k ==> !Starved(a, d, j)
  }

  /** The 256 units too many that a stall puts in front of m further digits vanish in full turns and the rest. */
  predicate Absorbed(n: int, d: Divisor, m: nat)
  {
    d.b > 0 && (n % d.b + 256 * Pow10(m) * Pow10(d.size)) % (256 * Pow10(m) * d.b) < d.b
  }

  /** What dividend and divisor must be like for the quotient to come out right. */
  ghost predicate CleanQuotient(a: string, d: Divisor) {
    || NeverStarved(a, d)
    || (d.b > 0 && Pow10(d.size) % d.b == 0)
    || exists k: nat :: FirstStarved(a, d, k) && Absorbed(Val(a), d, |a| - (k + d.size + 1))
  }

  // ---------- where the first stall is ----------

  lemma {:induction false} PrefixSame(a: string, n: nat, d: Divisor, p: nat)
    requires p <= n <= |a|
    ensures After(a[..n], d, p) == After(a, d, p) && Stalls(a[..n], d, p) == Stalls(a, d, p)
  {
    hide Reduce, Extend, Stalled;
    if p > 0 { PrefixSame(a, n, d, p - 1); }
  }

  lemma PrefixCanonical(a: string, n: nat)
    requires AllDigits(a) && |a| > 0 && a[0] != '0' && 0 < n <= |a|
    ensures Canonical(a[..n]) && Val(a[..n]) > 0
  {
    ValLower(a[..n]);
  }

  lemma StarvedPrefix(a: string, n: nat, d: Divisor, k: nat)
    requires n <= |a|
    ensures Starved(a[..n], d, k) <==> Starved(a, d, k) && k + d.size + 1 <= n
  {
    hide Val;
    if k + d.size + 1 <= n {
      assert a[..n][..k] == a[..k];
      assert a[..n][k..k + d.size + 1] == a[k..k + d.size + 1];
    }
  }

  lemma StallsBy(a: string, d: Divisor, n: nat)
    requires Canonical(a) && IsDivisor(d) && a[0] != '0' && 0 < n <= |a|
    ensures Stalls(a, d, n) <==> exists k: nat :: Starved(a, d, k) && k + d.size + 1 <= n
  {
    hide Starved, Stalls;
    PrefixCanonical(a, n);
    PrefixSame(a, n, d, n);
    StallsIffStarved(a[..n], d);
    forall k: nat ensures Starved(a[..n], d, k) <==> Starved(a, d, k) && k + d.size + 1 <= n {
      StarvedPrefix(a, n, d, k);
    }
  }

  /** The first starved place gives the first stall. */
  lemma FirstStallPlace(a: string, d: Divisor, k: nat) returns (p: nat)
    requires Canonical(a) && IsDivisor(d) && a[0] != '0' && FirstStarved(a, d, k)
    ensures p == k + d.size + 1 && d.size + 1 < p <= |a| && Stalls(a, d, p) && !Stalls(a, d, p - 1)
  {
    hide Stalls;
    p := k + d.size + 1;
    assert Starved(a, d, k);
    StallsBy(a, d, p);
    StallsBy(a, d, p - 1);
  }

  lemma {:induction false} LeastStarved(a: string, d: Divisor, k: nat) returns (first: nat)
    requires Starved(a, d, k)
    ensures FirstStarved(a, d, first)
  {
    if j: nat :| j < k && Starved(a, d, j) {
      first := LeastStarved(a, d, j);
    } else {
      first := k;
    }
  }

  // ---------- the account after the first stall ----------

  /** Without another stall the drift is moved on, digit by digit. */
  lemma {:induction false} DriftMoves(a: string, d: Divisor, p: nat, n: nat)
    requires p <= n && forall j :: p < j <= n ==> !Stalled(Reached(a, d, j), d)
    ensures Drift(a, d, n) == Scale(Drift(a, d, p), n - p)
    decreases n - p
  {
    hide Stalled, Reached;
    if p < n {
      DriftMoves(a, d, p, n - 1);
      NoOffset(Reached(a, d, n), d);
    }
  }

  lemma NoOffset(w: Window, d: Divisor)
    requires !Stalled(w, d)
    ensures Offset(w, d) == 0
  {}

  /** At the first stall the drift is that of the stall. */
  lemma FirstDrift(a: string, d: Divisor, p: nat)
    requires AllDigits(a) && IsDivisor(d) && 0 < p <= |a| && Stalls(a, d, p) && !Stalls(a, d, p - 1)
    ensures Stalled(Reached(a, d, p), d)
    ensures Drift(a, d, p) == Pow10(d.size) - Turns(Reached(a, d, p), d) * d.b
  {
    hide Stalled, Reached, Turns;
    NoDrift(a, d, p - 1);
    OffsetAtStall(Reached(a, d, p), d);
  }

  lemma OffsetAtStall(w: Window, d: Divisor)
    requires Stalled(w, d)
    ensures Offset(w, d) == Pow10(d.size) - Turns(w, d) * d.b
  {}

  /** While the error is smaller than the divisor there is no second stall. */
  lemma NoFurtherStall(a: string, d: Divisor, p: nat)
    requires AllDigits(a) && IsDivisor(d) && !Harmless(d) && 0 < p < |a| && Stalls(a, d, p)
    requires 256 * Abs(Drift(a, d, p)) < d.b
    ensures !Stalled(Reached(a, d, p + 1), d)
  {
    hide Harmless, Reduce, Drift, Stalls;
    if Stalled(Reached(a, d, p + 1), d) {
      WindowBounds(a, d, p);
      DriftStays(a, d, p);
      StallStep(After(a, d, p), DigitAt(a, p), d);
    }
  }

  lemma {:induction false} StallsOn(a: string, d: Divisor, p: nat, n: nat)
    requires p <= n && Stalls(a, d, p)
    ensures Stalls(a, d, n)
    decreases n - p
  {
    if p < n { StallsOn(a, d, p, n - 1); }
  }

  // ---------- a right quotient has the account of one stall ----------

  lemma PrefixStep(q: int, q': int, c: int, b: nat, n: int, n': int, x: int)
    requires b > 0 && n >= 0 && 0 <= c <= 9 && 0 <= x <= 9 && q == 10 * q' + c && n == 10 * n' + x && q == n / b
    ensures q' == n' / b
  {
    var r, r' := n % b, n' % b;
    var y := q' - n' / b;
    QuotientRest(n, b);
    QuotientRest(n', b);
    assert (10 * q' + c) * b == 10 * (q' * b) + c * b;
    Between0And9(c, b);
    assert y * b == q' * b - n' / b * b;
    MulFacts(y, b);
  }

  lemma Between0And9(c: int, b: nat)
    requires 0 <= c <= 9
    ensures 0 <= c * b <= 9 * b
  {}

  /** If the quotient is right, so is every part of it. */
  lemma {:induction false} PartRight(a: string, d: Divisor, n: nat, p: nat)
    requires AllDigits(a) && d.b > 0 && p <= n <= |a|
    requires AllDigits(Quotient(a, d, n)) && Val(Quotient(a, d, n)) == Val(a[..n]) / d.b
    ensures AllDigits(Quotient(a, d, p)) && Val(Quotient(a, d, p)) == Val(a[..p]) / d.b
    decreases n - p
  {
    hide Val, Quotient, Reached, Cell;
    if p < n {
      QuotientStep(a, d, n);
      SliceStep(a, 0, n);
      assert a[0..n] == a[..n] && a[0..n - 1] == a[..n - 1];
      ValBound(a[..n]);
      PrefixStep(Val(Quotient(a, d, n)), Val(Quotient(a, d, n - 1)), Digit(Cell(Reached(a, d, n), d)), d.b,
                 Val(a[..n]), Val(a[..n - 1]), DigitAt(a, n - 1));
      PartRight(a, d, n - 1, p);
    }
  }

  /** Where the quotient is right the error is the rest against the remainder. */
  lemma ErrorOfRight(a: string, d: Divisor, p: nat)
    requires AllDigits(a) && IsDivisor(d) && p <= |a| && Val(Quotient(a, d, p)) == Val(a[..p]) / d.b
    ensures 256 * Drift(a, d, p) == After(a, d, p).value - Val(a[..p]) % d.b
    ensures 0 <= After(a, d, p).value < d.b
  {
    hide Val, Quotient, Drift;
    ErrorIs(a, d, p);
    ErrorIsDrift(a, d, p);
    assert a[0..p] == a[..p];
    WindowBounds(a, d, p);
    QuotientRest(Abs(Val(a[..p])), d.b);
    ValBound(a[..p]);
  }

  lemma Whole(a: string)
    ensures a[..|a|] == a
  {}

  /** A right quotient means that only one window stalled. */
  lemma OneStall(a: string, d: Divisor, p: nat, j: nat)
    requires AllDigits(a) && IsDivisor(d) && !Harmless(d) && 0 < p < j <= |a| && Stalls(a, d, p)
    requires QuotientRight(a, d)
    ensures !Stalled(Reached(a, d, j), d)
  {
    hide Val, Quotient, Drift, Stalls, Harmless;
    Whole(a);
    PartRight(a, d, |a|, j - 1);
    ErrorOfRight(a, d, j - 1);
    StallsOn(a, d, p, j - 1);
    NoFurtherStall(a, d, j - 1);
  }

  /** 256 units of the leading place, less `turns` divisors of them, behind m further digits. */
  function Excess(d: Divisor, turns: int, m: nat): int {
    256 * Scale(Pow10(d.size) - turns * d.b, m)
  }

  lemma ExcessIs(d: Divisor, turns: int, m: nat)
    ensures Excess(d, turns, m) == 256 * Pow10(m) * Pow10(d.size) - turns * (256 * Pow10(m) * d.b)
  {
    hide Pow10, Scale;
    var M, P, b := Pow10(m), Pow10(d.size), d.b;
    ScaleIs(P - turns * b, m);
    assert (P - turns * b) * M == P * M - turns * b * M;
    assert turns * (256 * M * b) == 256 * (turns * b * M);
  }

  lemma Positive(x: nat, y: nat)
    requires x > 0 && y > 0
    ensures x * y > 0
  {}

  /** Moving by whole turns does not leave the residue. */
  lemma ResidueFrom(n: int, d: Divisor, m: nat, turns: nat)
    requires d.b > 0 && 0 <= n % d.b + Excess(d, turns, m) < d.b
    ensures Absorbed(n, d, m)
  {
    hide Pow10, Excess;
    ExcessIs(d, turns, m);
    var rest := n % d.b + Excess(d, turns, m);
    var turn := 256 * Pow10(m) * d.b;
    Positive(256 * Pow10(m) - 1 + 1, d.b);
    MulFacts(256 * Pow10(m), d.b);
    DivMod(n % d.b + 256 * Pow10(m) * Pow10(d.size), turn, turns, rest);
  }

  lemma ResidueGives(n: int, d: Divisor, m: nat) returns (turns: nat)
    requires Absorbed(n, d, m)
    ensures 0 <= n % d.b + Excess(d, turns, m) < d.b
  {
    hide Pow10, Excess;
    var turn := 256 * Pow10(m) * d.b;
    Positive(256 * Pow10(m), d.b);
    var total := n % d.b + 256 * Pow10(m) * Pow10(d.size);
    turns := total / turn;
    QuotientRest(total, turn);
    ExcessIs(d, turns, m);
  }

  lemma RightIsAbsorbed(a: string, d: Divisor, p: nat)
    requires AllDigits(a) && IsDivisor(d) && !Harmless(d) && 0 < p <= |a| && Stalls(a, d, p) && !Stalls(a, d, p - 1)
    requires QuotientRight(a, d)
    ensures Absorbed(Val(a), d, |a| - p)
  {
    hide Val, Quotient, Drift, Stalls, Harmless, Turns, Absorbed;
    Whole(a);
    forall j | p < j <= |a| ensures !Stalled(Reached(a, d, j), d) { OneStall(a, d, p, j); }
    DriftMoves(a, d, p, |a|);
    FirstDrift(a, d, p);
    ErrorOfRight(a, d, |a|);
    ResidueFrom(Val(a), d, |a| - p, Turns(Reached(a, d, p), d));
  }

  // ---------- and conversely ----------

  /** n is the dividend, t and v what division has made of its first digits, M and low the digits behind them. */
  lemma RoomForRest(n: int, b: nat, t: int, v: int, M: nat, low: int, y: int)
    requires n == (t * b + v) * M + low && 0 <= v < b && 0 <= low < M
    requires 0 <= n % b + y * M < b
    ensures 0 <= v + y < b
  {
    var g := n / b - t * M;
    QuotientRestInt(n, b);
    assert (t * b + v) * M == t * M * b + v * M;
    assert g * b == n / b * b - t * M * b;
    Within(g, b, M, v, low, n % b);
    assert (v + y) * M == v * M + y * M;
    Fits(v + y, b, M, g * b + (n % b + y * M) - low);
  }

  lemma QuotientRestInt(n: int, b: nat)
    requires b > 0
    ensures n / b * b + n % b == n && 0 <= n % b < b
  {}

  /** g * b + r == v * M + low puts g between 0 and M. */
  lemma Within(g: int, b: nat, M: nat, v: int, low: int, r: int)
    requires b > 0 && 0 <= v < b && 0 <= low < M && 0 <= r < b && g * b + r == v * M + low
    ensures 0 <= g * b <= (M - 1) * b
  {
    Product(v, M);
    MulFacts(g + 0, b);
    MulFacts(b - 1 - v, M);
    assert (b - 1 - v) * M == b * M - M - v * M;
    assert (M - 1) * b == b * M - b;
    MulFacts(g - M, b);
    assert (g - M) * b == g * b - b * M;
    if g >= 0 { Product(g, b); }
    if g <= M - 1 {
      Product(M - 1 - g, b);
      assert (M - 1 - g) * b == (M - 1) * b - g * b;
    }
    if g >= M { Product(g - M, b); Product(b - 1 - v, M); }
  }

  lemma Fits(z: int, b: int, M: int, total: int)
    requires b > 0 && M > 0 && z * M == total && -M < total < M * b
    ensures 0 <= z < b
  {
    MulFacts(z + 1, M);
    MulFacts(z - b + 1, M);
    assert (z + 1) * M == z * M + M;
    assert (z - b + 1) * M == z * M - b * M + M;
  }

  /** If the excess can be absorbed, the stalled window makes exactly those turns and leaves a zero cell. */
  lemma StallAbsorbed(w: Window, d: Divisor, turns: nat)
    requires IsDivisor(d) && Stalled(w, d)
    requires var rest: int := w.value + 256 * Pow10(d.size) - 256 * (turns * d.b); 0 <= rest < d.b
    ensures Turns(w, d) == turns && Cell(w, d) == '0'
  {
    hide IsDivisor, Stalled, Pow10;
    AllIn(w.value, Pow10(d.size), d.b, turns);
    ZeroCell(256 * turns);
    assert Load(w, d) == w.value + 256 * Pow10(d.size);
    StalledIsBig(w, d);
  }

  lemma StalledIsBig(w: Window, d: Divisor)
    requires Stalled(w, d)
    ensures Big(w, d)
  {}

  lemma AllIn(v: nat, P: nat, b: nat, turns: nat)
    requires var rest: int := v + 256 * P - 256 * (turns * b); 0 <= rest < b
    ensures Rounds(v + 256 * P, b) == 256 * turns
  {
    assert (256 * turns) * b == 256 * (turns * b);
    RoundsAreDivision(v + 256 * P, b);
    DivMod(v + 256 * P, b, 256 * turns, v + 256 * P - 256 * (turns * b));
  }

  lemma {:induction false} ScaleGrows(x: int, m: nat, n: nat)
    requires m <= n
    ensures Abs(Scale(x, m)) <= Abs(Scale(x, n))
  {
    if m < n { ScaleGrows(x, m, n - 1); }
  }

  /** With a small excess no window stalls again, and every cell is a digit. */
  lemma {:induction false} DigitsOn(a: string, d: Divisor, p: nat, turns: nat, n: nat)
    requires AllDigits(a) && IsDivisor(d) && !Harmless(d) && 0 < p <= n <= |a| && Stalls(a, d, p)
    requires AllDigits(Quotient(a, d, p)) && Drift(a, d, p) == Pow10(d.size) - turns * d.b
    requires Abs(Excess(d, turns, |a| - p)) < d.b
    ensures AllDigits(Quotient(a, d, n)) && Drift(a, d, n) == Scale(Pow10(d.size) - turns * d.b, n - p)
    decreases n
  {
    hide Stalls, Harmless, Reached, Cell, Pow10, IsDivisor;
    if n > p {
      DigitsOn(a, d, p, turns, n - 1);
      ScaleGrows(Pow10(d.size) - turns * d.b, n - 1 - p, |a| - p);
      StallsOn(a, d, p, n - 1);
      NoFurtherStall(a, d, n - 1);
      NoOffset(Reached(a, d, n), d);
      NextDigit(a, d, n);
    }
  }

  lemma NextDigit(a: string, d: Divisor, n: nat)
    requires AllDigits(a) && IsDivisor(d) && 0 < n <= |a| && !Stalled(Reached(a, d, n), d)
    ensures IsDigit(Cell(Reached(a, d, n), d))
  {
    hide Reduce, Slip, Cell, Stalled;
    WindowBounds(a, d, n - 1);
    NoSlip(Reached(a, d, n), d);
  }

  /** The first window that stalls has room for the excess. */
  lemma FirstAbsorbed(a: string, d: Divisor, p: nat, turns: nat)
    requires AllDigits(a) && IsDivisor(d) && 0 < p <= |a| && Stalls(a, d, p) && !Stalls(a, d, p - 1)
    requires Val(a) >= 0 && 0 <= Val(a) % d.b + Excess(d, turns, |a| - p) < d.b
    ensures var rest: int := Reached(a, d, p).value + 256 * Pow10(d.size) - 256 * (turns * d.b); 0 <= rest < d.b
  {
    hide Stalls, Turns, IsDivisor, Pow10, Quotient, Reached, Val, Stalled, Scale, Drift;
    var w, m, y := Reached(a, d, p), |a| - p, Pow10(d.size) - turns * d.b;
    FirstDrift(a, d, p);
    assert a == a[..p] + a[p..];
    ValAppend(a[..p], a[p..]);
    ScaleIs(Val(a[..p]), m);
    ScaleIs(y, m);
    ValBound(a[p..]);
    var t := Val(a[..p - 1]) / d.b;
    StallReads(a, d, p);
    assert 256 * (y * Pow10(m)) == 256 * y * Pow10(m);
    RoomForRest(Val(a), d.b, 10 * t, w.value, Pow10(m), Val(a[p..]), 256 * y);
  }

  /** What is read before the first stall, and with it. */
  lemma StallReads(a: string, d: Divisor, p: nat)
    requires AllDigits(a) && IsDivisor(d) && 0 < p <= |a| && !Stalls(a, d, p - 1) && Stalled(Reached(a, d, p), d)
    ensures d.b > 0 && Val(a[..p]) == 10 * (Val(a[..p - 1]) / d.b) * d.b + Reached(a, d, p).value
    ensures 0 <= Reached(a, d, p).value < d.b
  {
    hide Val, Quotient, Stalls, DigitAt, Pow10, Stalled, After;
    ExactSoFar(a, d, p - 1);
    SliceStep(a, 0, p);
    assert a[0..p] == a[..p] && a[0..p - 1] == a[..p - 1];
    Unstalled(Reached(a, d, p), d);
    ReadOn(Val(a[..p - 1]), d.b, DigitAt(a, p - 1));
  }

  lemma Unstalled(w: Window, d: Divisor)
    requires Stalled(w, d)
    ensures w.value < d.b
  {}

  lemma ReadOn(n: int, b: nat, digit: nat)
    requires b > 0
    ensures 10 * n + digit == 10 * (n / b) * b + (10 * (n % b) + digit)
  {
    QuotientRestInt(n, b);
    assert 10 * (n / b) * b == 10 * (n / b * b);
  }

  lemma AbsorbedIsRight(a: string, d: Divisor, p: nat)
    requires AllDigits(a) && IsDivisor(d) && !Harmless(d) && 0 < p <= |a| && Stalls(a, d, p) && !Stalls(a, d, p - 1)
    requires Val(a) >= 0 && Absorbed(Val(a), d, |a| - p)
    ensures QuotientRight(a, d)
  {
    hide Stalls, Harmless, Turns, IsDivisor, Pow10, After, Val, Quotient, Absorbed;
    var turns := ResidueGives(Val(a), d, |a| - p);
    FirstAbsorbed(a, d, p, turns);
    FirstDrift(a, d, p);
    StallAbsorbed(Reached(a, d, p), d, turns);
    DigitsAtStall(a, d, p);
    QuotientRestInt(Val(a), d.b);
    DigitsOn(a, d, p, turns, |a|);
    Balance(a, d, Val(a) % d.b + Excess(d, turns, |a| - p));
  }

  lemma DigitsAtStall(a: string, d: Divisor, p: nat)
    requires AllDigits(a) && IsDivisor(d) && 0 < p <= |a| && !Stalls(a, d, p - 1) && Cell(Reached(a, d, p), d) == '0'
    ensures AllDigits(Quotient(a, d, p))
  {
    hide Stalls, Reached, Cell;
    NoError(a, d, p - 1);
  }

  /** The account with a proper rest determines the quotient. */
  lemma Balance(a: string, d: Divisor, rest: int)
    requires AllDigits(a) && IsDivisor(d) && Val(a) >= 0 && AllDigits(Quotient(a, d, |a|))
    requires 0 <= rest < d.b && 256 * Drift(a, d, |a|) == rest - Val(a) % d.b
    ensures QuotientRight(a, d)
  {
    hide Val, Quotient, Drift, IsDivisor;
    assert a[0..|a|] == a;
    ErrorIs(a, d, |a|);
    ErrorIsDrift(a, d, |a|);
    WindowBounds(a, d, |a|);
    QuotientRestInt(Val(a), d.b);
    SameQuotient(Val(Quotient(a, d, |a|)), After(a, d, |a|).value, Val(a) / d.b, rest, d.b);
  }

  lemma SameQuotient(q: int, r: int, q': int, r': int, b: nat)
    requires 0 <= r < b && 0 <= r' < b && q * b + r == q' * b + r'
    ensures q == q' && r == r'
  {
    assert (q - q') * b == q * b - q' * b;
    MulFacts(q - q', b);
  }

  // ---------- the theorem ----------

  /**
    The cells of DIV are the quotient if and only if no window is starved, or the divisor divides
    10^size, or the excess of the first stall is absorbed.
   */
  lemma QuotientIff(a: string, d: Divisor)
    requires Canonical(a) && IsDivisor(d) && Val(a) > 0
    ensures QuotientRight(a, d) <==> CleanQuotient(a, d)
  {
    hide Stalls, Harmless, IsDivisor, Pow10, Val, Quotient, Absorbed, Starved, Canonical;
    NonZeroHead(a);
    DivisorPositive(a, d);
    HarmlessIs(d);
    ExactIff(a, d);
    if k: nat :| Starved(a, d, k) {
      if !Harmless(d) {
        var first := LeastStarved(a, d, k);
        OnlyFirst(a, d, first);
        var p := FirstStallPlace(a, d, first);
        if QuotientRight(a, d) { RightIsAbsorbed(a, d, p); }
        if Absorbed(Val(a), d, |a| - p) { AbsorbedIsRight(a, d, p); }
      }
    }
  }

  lemma DivisorPositive(a: string, d: Divisor)
    requires Canonical(a) && IsDivisor(d)
    ensures d.b > 0 && AllDigits(a) && |a| > 0
  {}

  lemma OnlyFirst(a: string, d: Divisor, first: nat)
    requires FirstStarved(a, d, first)
    ensures forall k: nat :: FirstStarved(a, d, k) ==> k == first
  {
    hide Starved;
  }

  // ---------- cells that a NUL cuts short ----------

  lemma {:induction false} CellAt(a: string, d: Divisor, n: nat, j: nat)
    requires j < n
    ensures Quotient(a, d, n)[j] == Cell(Reached(a, d, j + 1), d) && Quotient(a, d, n)[..j] == Quotient(a, d, j)
  {
    hide Cell, Reached;
    if j < n - 1 {
      CellAt(a, d, n - 1, j);
    }
  }

  /** A cell that is not a digit comes from a stall, and the first one has more digits than the divisor before it. */
  lemma {:induction false} FirstStallOf(a: string, d: Divisor, n: nat) returns (p: nat)
    requires AllDigits(a) && IsDivisor(d) && n <= |a| && |a| > 0 && a[0] != '0' && Stalls(a, d, n)
    ensures d.size + 1 < p <= n && !Stalls(a, d, p - 1)
  {
    if Stalls(a, d, n - 1) {
      p := FirstStallOf(a, d, n - 1);
    } else {
      p := n;
      StallIsLate(a, d, p);
    }
  }

  lemma StallIsLate(a: string, d: Divisor, p: nat)
    requires AllDigits(a) && IsDivisor(d) && 0 < p <= |a| && a[0] != '0' && Stalled(Reached(a, d, p), d)
    ensures d.size + 1 < p
  {
    hide Reduce, IsDivisor;
    var v, digit := After(a, d, p - 1), DigitAt(a, p - 1);
    WindowBounds(a, d, p - 1);
    StallStep(v, digit, d);
    var k := OriginBefore(a, d, p - 1, v, digit);
  }

  /** Digit cells are worth less than one more unit of the last place before them. */
  lemma {:induction false} CellsBelow(a: string, d: Divisor, i: nat, j: nat)
    requires i <= j && AllDigits(Quotient(a, d, j))
    ensures Val(Quotient(a, d, j)) < Scale(Val(Quotient(a, d, i)) + 1, j - i)
    decreases j - i
  {
    hide Val, Cell, Reached, Quotient;
    if i < j {
      QuotientStep(a, d, j);
      CellsBelow(a, d, i, j - 1);
    }
  }

  /** The quotient of a longer dividend is worth at least that of its first digits, moved on. */
  lemma {:induction false} QuotientAbove(a: string, b: nat, i: nat, n: nat)
    requires AllDigits(a) && b > 0 && i <= n <= |a|
    ensures Val(a[..i]) >= 0 && Val(a[..n]) >= 0 && Val(a[..n]) / b >= Scale(Val(a[..i]) / b, n - i)
    decreases n - i
  {
    hide Val;
    ValBound(a[..n]);
    if i < n {
      QuotientAbove(a, b, i, n - 1);
      SliceStep(a, 0, n);
      assert a[0..n] == a[..n] && a[0..n - 1] == a[..n - 1];
      TenTimes(Val(a[..n - 1]), DigitAt(a, n - 1), b);
    }
  }

  lemma TenTimes(n: nat, x: nat, b: nat)
    requires b > 0
    ensures (10 * n + x) / b >= 10 * (n / b)
  {
    QuotientRest(n, b);
    QuotientRest(10 * n + x, b);
    var y := 10 * (n / b) - (10 * n + x) / b;
    assert y * b == 10 * (n / b * b) - (10 * n + x) / b * b;
    MulFacts(y, b);
  }

  lemma {:induction false} ScaleUp(x: nat, m: nat, n: nat)
    requires m <= n
    ensures Scale(x, m) <= Scale(x, n) && Scale(x, m) >= 0
  {
    if m < n {
      ScaleUp(x, m, n - 1);
    } else if m > 0 {
      ScaleUp(x, m - 1, m - 1);
    }
  }

  lemma AtLeastOne(n: nat, b: nat)
    requires 0 < b <= n
    ensures n / b >= 1
  {
    QuotientRest(n, b);
    MulFacts(n / b - 1 + 1, b);
  }

  /** Cells in front of one that is not a digit never are the quotient. */
  lemma CutTooShort(a: string, d: Divisor, j: nat)
    requires AllDigits(a) && |a| > 0 && a[0] != '0' && IsDivisor(d) && j < |a|
    requires !IsDigit(Quotient(a, d, |a|)[j]) && AllDigits(Quotient(a, d, j))
    ensures Val(a) >= 0 && d.b > 0 && Val(Quotient(a, d, j)) < Val(a) / d.b
  {
    hide Val, Quotient, Stalls, Cell, Reduce, Reached;
    CellAt(a, d, |a|, j);
    NotDigitStalls(a, d, j + 1);
    var p := FirstStallOf(a, d, j + 1);
    var i := p - 1;
    ExactSoFar(a, d, i);
    var q := Val(a[..i]) / d.b;
    FirstPartBig(a, d, i);
    CellsBelow(a, d, i, j);
    QuotientAbove(a, d.b, i, |a|);
    ScaleMono(q + 1, 10 * q, j - i);
    ScaleTen(10 * q, q, j - i);
    ScaleUp(q, j - i + 1, |a| - i);
    Whole(a);
  }

  lemma NotDigitStalls(a: string, d: Divisor, n: nat)
    requires AllDigits(a) && IsDivisor(d) && 0 < n <= |a| && !IsDigit(Cell(Reached(a, d, n), d))
    ensures Stalls(a, d, n)
  {
    hide Cell, Reached;
    if !Stalls(a, d, n) { NextDigit(a, d, n); }
  }

  lemma FirstPartBig(a: string, d: Divisor, i: nat)
    requires AllDigits(a) && IsDivisor(d) && d.size < i <= |a| && a[0] != '0'
    ensures d.b > 0 && Val(a[..i]) / d.b >= 1
  {
    hide Val;
    ValLower(a[..i]);
    Pow10Mono(d.size, i - 1);
    AtLeastOne(Val(a[..i]), d.b);
  }
}
