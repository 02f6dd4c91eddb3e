/** IsLeftStrBig, SubLoop and DIV of the calculator, on the digit buffers they overwrite. */
module Division {
  import opened Decimal
  import opened LongDivision

  /** The divisor a numeral stands for. */
  function DivisorOf(s: string): Divisor {
    Divisor(Abs(Val(s)), |s|)
  }

  lemma DivisorOfIsDivisor(s: string)
    requires Canonical(s) && s != "0"
    ensures s[0] != '0' && IsDivisor(DivisorOf(s)) && DivisorOf(s).b == Val(s)
  {
    assert s[0] == '0' ==> s == ['0'];
    ValLower(s);
  }

  /** 0 when the window a[lo..lo+lsize] counts as big: longer than pright, or as long and not smaller. */
  method IsLeftStrBig(a: array<char>, lo: nat, lsize: nat, pright: string) returns (r: int)
    requires lo + lsize <= a.Length && Canonical(pright) && pright != "0"
    requires lsize <= |pright| ==> AllDigits(a[lo..lo + lsize])
    ensures r == 0 || r == -1
    ensures r == 0 <==> lsize > |pright| || Val(a[lo..lo + lsize]) >= Val(pright)
    ensures r == 0 ==> lsize >= |pright|
  {
    var rsize := |pright|;
    DivisorOfIsDivisor(pright);
    if lsize <= rsize { ValBound(a[lo..lo + lsize]); }
    if lsize == rsize { StrCmpNumeric(a[lo..lo + lsize], pright); }
    if lsize < rsize { Pow10Mono(lsize, rsize - 1); }
    if lsize > rsize || (lsize == rsize && StrCmp(a[lo..lo + lsize], pright) >= 0) {
      return 0;
    }
    return -1;
  }

  /** The low cells done so far are the difference, up to a borrow from the next cell. */
  ghost predicate DiffSoFar(done: string, borrow: int, was: string, right: string) {
    && AllDigits(done) && |done| == |was| == |right| && 0 <= borrow <= 1
    && Val(done) == Val(was) - Val(right) + Scale(borrow, |done|)
  }

  lemma DiffStep(done: string, borrow: int, was: string, right: string, x: char, y: char, c: char, borrow': int)
    requires DiffSoFar(done, borrow, was, right) && IsDigit(c) && 0 <= borrow' <= 1
    requires Digit(x) - borrow - Digit(y) == Digit(c) - 10 * borrow'
    ensures DiffSoFar([c] + done, borrow', [x] + was, [y] + right)
  {
    var n := |done|;
    ValPrepend(c, done);
    ValPrepend(x, was);
    ValPrepend(y, right);
    ScaleSum(Digit(x), Digit(c) + Digit(y), borrow - 10 * borrow', n);
    ScaleSum(Digit(c) + Digit(y), Digit(c), Digit(y), n);
    ScaleSum(borrow, borrow - 10 * borrow', 10 * borrow', n);
    ScaleTen(10 * borrow', borrow', n);
  }

  /** No borrow is left over when the window was not smaller than the divisor. */
  lemma NoBorrowLeft(done: string, borrow: int, was: string, right: string)
    requires DiffSoFar(done, borrow, was, right) && Val(was) >= Val(right)
    ensures borrow == 0
  {
    ValBound(done);
    ScaleOne(|done|);
  }

  /**
    The state inside a round, with the cells of [lo, hi) above index k done: they are the difference
    of what was there and the low digits of pright; the cells up to k are untouched, but for the
    borrow owed by the nearest one.
   */
  ghost predicate RoundSoFar(now: string, was: string, lo: nat, hi: nat, k: int, borrow: int, pright: string) {
    && |now| == |was| && hi <= |was| && 0 < |pright| <= hi - lo && lo - 1 <= k && hi - 1 - |pright| <= k < hi
    && AllDigits(pright) && AllDigits(was[hi - |pright|..hi])
    && DiffSoFar(now[k + 1..hi], borrow, was[k + 1..hi], pright[|pright| - (hi - 1 - k)..])
    && (forall i :: 0 <= i < k ==> now[i] == was[i])
    && (0 <= k ==> now[k] == if borrow == 0 then was[k] else ByteAdd(was[k], -1))
    && now[hi..] == was[hi..]
  }

  /** The cells after one inner step. */
  function CellDone(now: string, k: nat, y: char): string
    requires k < |now| && '/' <= now[k] <= '9' && IsDigit(y) && (now[k] < y ==> k > 0)
  {
    if now[k] < y then now[k - 1 := ByteAdd(now[k - 1], -1)][k := DigitChar(Digit(now[k]) + 10 - Digit(y))]
    else now[k := DigitChar(Digit(now[k]) - Digit(y))]
  }

  /** The byte that is written is a digit, borrowed ten or not. */
  lemma CellByte(c: char, y: char)
    requires '/' <= c <= '9' && IsDigit(y)
    ensures c >= y ==> ByteAdd(c, '0' as int - y as int) == DigitChar(Digit(c) - Digit(y))
    ensures c < y ==> ByteAdd(ByteAdd(c, 10), '0' as int - y as int) == DigitChar(Digit(c) + 10 - Digit(y))
  {}

  /** One inner step: the digit y is taken off a[k], with a borrow from the cell before when that is too small. */
  method SubtractCell(a: array<char>, k: nat, y: char)
    requires k < a.Length && '/' <= a[k] <= '9' && IsDigit(y) && (a[k] < y ==> k > 0)
    modifies a
    ensures a[..] == CellDone(old(a[..]), k, y)
  {
    hide ByteAdd;
    CellByte(a[k], y);
    if a[k] < y {
      a[k - 1] := ByteAdd(a[k - 1], -1);
      a[k] := ByteAdd(a[k], 10);
    }
    a[k] := ByteAdd(a[k], '0' as int - y as int);
  }

  lemma CellInRange(now: string, was: string, lo: nat, hi: nat, k: nat, borrow: int, pright: string)
    requires RoundSoFar(now, was, lo, hi, k, borrow, pright) && hi - 1 - |pright| < k
    ensures IsDigit(was[k]) && '/' <= now[k] <= '9' && Digit(now[k]) == Digit(was[k]) - borrow
    ensures IsDigit(pright[|pright| - (hi - k)])
  {
    assert was[hi - |pright|..hi][k - (hi - |pright|)] == was[k];
  }

  lemma DifferenceStep(now: string, was: string, lo: nat, hi: nat, k: nat, borrow: int, pright: string)
    returns (borrow': int)
    requires RoundSoFar(now, was, lo, hi, k, borrow, pright) && hi - 1 - |pright| < k
    ensures var y := pright[|pright| - (hi - k)];
            && borrow' == (if now[k] < y then 1 else 0)
            && IsDigit(y) && '/' <= now[k] <= '9'
            && DiffSoFar([DigitChar(Digit(now[k]) + 10 * borrow' - Digit(y))] + now[k + 1..hi], borrow',
                         was[k..hi], pright[|pright| - (hi - k)..])
  {
    CellInRange(now, was, lo, hi, k, borrow, pright);
    var y := pright[|pright| - (hi - k)];
    borrow' := if now[k] < y then 1 else 0;
    var c := DigitChar(Digit(now[k]) + 10 * borrow' - Digit(y));
    DiffStep(now[k + 1..hi], borrow, was[k + 1..hi], pright[|pright| - (hi - 1 - k)..], was[k], y, c, borrow');
    assert was[k..hi] == [was[k]] + was[k + 1..hi];
    assert pright[|pright| - (hi - k)..] == [y] + pright[|pright| - (hi - 1 - k)..];
  }

  /** An inner step keeps the state, and at the first cell of a window that is as long as pright it needs no borrow. */
  lemma RoundStep(now: string, was: string, lo: nat, hi: nat, k: nat, borrow: int, pright: string)
    returns (borrow': int)
    requires RoundSoFar(now, was, lo, hi, k, borrow, pright) && hi - 1 - |pright| < k && lo <= k
    requires hi - lo == |pright| ==> Val(was[lo..hi]) >= Val(pright)
    ensures var y := pright[|pright| - (hi - k)];
            && '/' <= now[k] <= '9' && IsDigit(y) && (now[k] < y ==> k > lo)
            && RoundSoFar(CellDone(now, k, y), was, lo, hi, k - 1, borrow', pright)
            && (k == lo ==> borrow' == 0)
  {
    borrow' := DifferenceStep(now, was, lo, hi, k, borrow, pright);
    var y := pright[|pright| - (hi - k)];
    if k == lo {
      assert pright[0..] == pright;
      NoBorrowLeft([DigitChar(Digit(now[k]) + 10 * borrow' - Digit(y))] + now[k + 1..hi], borrow', was[lo..hi], pright);
    }
    var next := CellDone(now, k, y);
    assert next[k..hi] == [DigitChar(Digit(now[k]) + 10 * borrow' - Digit(y))] + now[k + 1..hi];
    assert next[hi..] == now[hi..];
  }

  /** The state after a round. */
  ghost predicate RoundDone(now: string, was: string, lo: nat, hi: nat, borrow: int, pright: string) {
    && |now| == |was| && hi <= |was| && 0 < |pright| <= hi - lo
    && DiffSoFar(now[hi - |pright|..hi], borrow, was[hi - |pright|..hi], pright)
    && now[..lo] == was[..lo] && now[hi..] == was[hi..]
    && (if hi - lo == |pright| then borrow == 0
        else now[lo] == if borrow == 0 then was[lo] else ByteAdd(was[lo], -1))
  }

  lemma RoundStart(was: string, lo: nat, hi: nat, pright: string)
    requires hi <= |was| && 0 < |pright| <= hi - lo && AllDigits(pright) && AllDigits(was[hi - |pright|..hi])
    ensures RoundSoFar(was, was, lo, hi, hi - 1, 0, pright)
  {
    assert DiffSoFar("", 0, "", "");
  }

  lemma RoundEnd(now: string, was: string, lo: nat, hi: nat, k: int, borrow: int, pright: string)
    requires RoundSoFar(now, was, lo, hi, k, borrow, pright)
    requires k == hi - 1 - |pright| && hi - lo <= |pright| + 1
    requires k < lo ==> borrow == 0
    ensures RoundDone(now, was, lo, hi, borrow, pright)
  {
    assert pright[0..] == pright;
  }

  /**
    One round of SubLoop: pright is subtracted from the low cells of the window, from the right.  A
    cell may drop below '0' for one step; the cell above the divisor's length, if there is one, is
    only ever decremented.
   */
  method SubtractOnce(a: array<char>, lo: nat, lsize: nat, pright: string) returns (ghost borrow: int)
    requires 0 < |pright| <= lsize <= |pright| + 1 && lo + lsize <= a.Length
    requires AllDigits(pright) && AllDigits(a[lo + lsize - |pright|..lo + lsize])
    requires lsize == |pright| ==> Val(a[lo..lo + lsize]) >= Val(pright)
    modifies a
    ensures RoundDone(a[..], old(a[..]), lo, lo + lsize, borrow, pright)
  {
    hide RoundSoFar, RoundDone, CellDone, Val, AllDigits;
    var rsize := |pright|;
    ghost var was, hi, k := a[..], lo + lsize, lo + lsize - 1;
    var ldatalen, rdatalen := lsize - 1, rsize - 1;
    borrow := 0;
    RoundStart(was, lo, hi, pright);
    while rdatalen >= 0 && ldatalen >= 0
      invariant ldatalen - rdatalen == lsize - rsize && -1 <= rdatalen < rsize && k == lo + ldatalen
      invariant RoundSoFar(a[..], was, lo, hi, k, borrow, pright)
      invariant k < lo ==> borrow == 0
    {
      borrow := RoundStep(a[..], was, lo, hi, k, borrow, pright);
      SubtractCell(a, lo + ldatalen, pright[rdatalen]);
      ldatalen := ldatalen - 1;
      rdatalen := rdatalen - 1;
      k := k - 1;
    }
    assert k == hi - 1 - rsize;
    RoundEnd(a[..], was, lo, hi, k, borrow, pright);
  }

  /** Leading zeros do not count. */
  lemma {:induction false} ZerosSkipped(s: string, n: nat)
    requires n <= |s| && forall i :: 0 <= i < n ==> s[i] == '0'
    ensures Val(s[n..]) == Val(s)
  {
    if n == 0 {
      assert s[0..] == s;
    } else {
      ZerosSkipped(s, n - 1);
      ValCons(s[n - 1..]);
      ScaleOne(|s| - n);
      assert s[n - 1..][1..] == s[n..];
    }
  }

  /** The strip loop of SubLoop and DIV: the window start moves over zeros; the cell is read before the length. */
  method SkipZeros(a: array<char>, lo: nat, lsize: nat) returns (lo': nat, lsize': nat)
    requires lo + lsize < a.Length
    ensures lo <= lo' && lo' + lsize' == lo + lsize
    ensures forall i :: lo <= i < lo' ==> a[i] == '0'
    ensures lsize' > 0 ==> a[lo'] != '0'
  {
    lo', lsize' := lo, lsize;
    while a[lo'] == '0' && lsize' > 0
      invariant lo <= lo' && lo' + lsize' == lo + lsize
      invariant forall i :: lo <= i < lo' ==> a[i] == '0'
    {
      lo' := lo' + 1;
      lsize' := lsize' - 1;
    }
  }

  /**
    The state between rounds of SubLoop on the window [lo, hi), of which [lo, cur) is stripped: the
    rest of it is worth `total`.  One cell beyond the divisor's length holds, modulo 256, the count
    `lead`, which starts at 256 when the window is stalled.
   */
  ghost predicate Between(now: string, was: string, lo: nat, hi: nat, cur: nat, lead: int, total: nat, pright: string) {
    && |now| == |was| && lo <= cur <= hi <= |was|
    && now[..lo] == was[..lo] && now[hi..] == was[hi..]
    && (forall i :: lo <= i < cur ==> now[i] == '0')
    && hi - cur <= |pright| + 1
    && (hi - cur <= |pright| ==> AllDigits(now[cur..hi]) && Val(now[cur..hi]) == total)
    && (hi - cur > |pright| ==> Leading(now[cur], now[cur + 1..hi], lead, total, pright))
  }

  ghost predicate Leading(c: char, low: string, lead: int, total: nat, pright: string) {
    && AllDigits(low) && |low| == |pright|
    && 0 <= lead <= 256 && c == ByteAdd('0', lead)
    && total == Scale(lead, |pright|) + Val(low)
    && (lead == 0 ==> Val(low) >= Val(pright))
    && (lead == 256 ==> Val(low) < Val(pright))
  }

  /** A window that counts as big holds at least the divisor. */
  lemma BigEnough(now: string, was: string, lo: nat, hi: nat, cur: nat, lead: int, total: nat, pright: string)
    requires Between(now, was, lo, hi, cur, lead, total, pright) && Canonical(pright) && pright != "0"
    requires hi - cur <= |pright| ==> total >= Val(pright)
    ensures total >= Val(pright)
  {
    ScaleOne(|pright|);
    if hi - cur > |pright| && lead > 0 {
      ValBound(now[cur + 1..hi]);
      ValBound(pright);
      ScaleMono(1, lead, |pright|);
    }
  }

  /** What a round does to the leading cell and the low cells. */
  lemma LeadingRound(c: char, low: string, lead: int, total: nat, c': char, low': string, borrow: int, pright: string)
    requires Leading(c, low, lead, total, pright) && total >= Val(pright)
    requires DiffSoFar(low', borrow, low, pright)
    requires c' == if borrow == 0 then c else ByteAdd(c, -1)
    ensures 0 <= lead - borrow < 256 && c' == ByteAdd('0', lead - borrow)
    ensures total - Val(pright) == Scale(lead - borrow, |pright|) + Val(low')
    ensures c' == '0' <==> lead == borrow
  {
    ValBound(low');
    if lead == 0 { NoBorrowLeft(low', borrow, low, pright); }
    if borrow == 0 { ScaleOne(|pright|); }
    ScaleSum(lead, lead - borrow, borrow, |pright|);
    ByteAddTwice('0', lead, -1);
    ByteZero(lead - borrow);
  }

  lemma ByteAddTwice(c: char, x: int, y: int)
    ensures ByteAdd(ByteAdd(c, x), y) == ByteAdd(c, x + y)
  {}

  lemma ByteZero(n: int)
    requires 0 <= n < 256
    ensures ByteAdd('0', n) == '0' <==> n == 0
  {}

  /** Stripping zeros off a part of the cells. */
  lemma Stripped(now: string, from: nat, cur: nat, hi: nat)
    requires from <= cur <= hi <= |now| && AllDigits(now[from..hi])
    requires forall i :: from <= i < cur ==> now[i] == '0'
    ensures AllDigits(now[cur..hi]) && Val(now[cur..hi]) == Val(now[from..hi])
  {
    ZerosSkipped(now[from..hi], cur - from);
    assert now[from..hi][cur - from..] == now[cur..hi];
  }

  /** A round leaves the cells outside the window, and those stripped, as they were. */
  lemma OutsideKept(before: string, now: string, was: string, lo: nat, hi: nat, cur: nat, borrow: int, pright: string)
    requires lo <= cur <= hi <= |was| == |before| && before[..lo] == was[..lo] && before[hi..] == was[hi..]
    requires forall i :: lo <= i < cur ==> before[i] == '0'
    requires RoundDone(now, before, cur, hi, borrow, pright)
    ensures now[..lo] == was[..lo] && now[hi..] == was[hi..] && forall i :: lo <= i < cur ==> now[i] == '0'
  {
    assert now[..lo] == now[..cur][..lo] == before[..cur][..lo] == before[..lo];
    forall i | lo <= i < cur ensures now[i] == '0' {
      assert now[i] == now[..cur][i] == before[..cur][i];
    }
  }

  /** A round on a window as long as the divisor. */
  lemma RoundOnDigits(before: string, now: string, lo: nat, hi: nat, borrow: int, pright: string)
    requires RoundDone(now, before, lo, hi, borrow, pright) && hi - lo == |pright|
    ensures AllDigits(now[lo..hi]) && Val(now[lo..hi]) == Val(before[lo..hi]) - Val(pright)
  {
    ScaleOne(|pright|);
  }

  /** A round on a window with a leading cell. */
  lemma RoundOnLeading(before: string, now: string, lo: nat, hi: nat, lead: int, borrow: int, total: nat,
                       pright: string)
    requires hi - lo == |pright| + 1 && hi <= |before|
    requires Leading(before[lo], before[lo + 1..hi], lead, total, pright) && total >= Val(pright)
    requires RoundDone(now, before, lo, hi, borrow, pright)
    ensures if now[lo] == '0' then AllDigits(now[lo + 1..hi]) && Val(now[lo + 1..hi]) == total - Val(pright)
            else Leading(now[lo], now[lo + 1..hi], lead - borrow, total - Val(pright), pright)
  {
    LeadingRound(before[lo], before[lo + 1..hi], lead, total, now[lo], now[lo + 1..hi], borrow, pright);
    ScaleOne(|pright|);
  }

  /** A round, and the stripping after it, lead from one state to the next, with the divisor taken off. */
  lemma NextRound(before: string, now: string, was: string, lo: nat, hi: nat, cur: nat, cur': nat,
                  lead: int, borrow: int, total: nat, pright: string)
    requires Between(before, was, lo, hi, cur, lead, total, pright) && total >= Val(pright)
    requires hi - cur >= |pright| && RoundDone(now, before, cur, hi, borrow, pright)
    requires cur <= cur' <= hi && (forall i :: cur <= i < cur' ==> now[i] == '0')
    requires cur' < hi ==> now[cur'] != '0'
    ensures Between(now, was, lo, hi, cur', lead - borrow, total - Val(pright), pright)
  {
    OutsideKept(before, now, was, lo, hi, cur, borrow, pright);
    if hi - cur == |pright| {
      RoundOnDigits(before, now, cur, hi, borrow, pright);
      Stripped(now, cur, cur', hi);
    } else {
      RoundOnLeading(before, now, cur, hi, lead, borrow, total, pright);
      if now[cur] == '0' { Stripped(now, cur + 1, cur', hi); }
    }
  }

  /** The window SubLoop is given, as a state. */
  lemma FirstState(was: string, lo: nat, hi: nat, pright: string) returns (lead: int)
    requires lo <= hi <= |was| && hi - lo <= |pright| + 1 && AllDigits(was[lo..hi])
    requires Canonical(pright) && pright != "0"
    ensures Val(was[lo..hi]) >= 0
    ensures Between(was, was, lo, hi, lo, lead, Load(Window(Val(was[lo..hi]), hi - lo), DivisorOf(pright)), pright)
  {
    ValBound(was[lo..hi]);
    lead := 0;
    if hi - lo > |pright| {
      lead := FirstLeading(was[lo], was[lo + 1..hi], was[lo..hi], pright);
    }
  }

  lemma FirstLeading(c: char, low: string, window: string, pright: string) returns (lead: int)
    requires window == [c] + low && AllDigits(window) && |low| == |pright| && Val(window) >= 0
    requires Canonical(pright) && pright != "0"
    ensures Leading(c, low, lead, Load(Window(Val(window), |pright| + 1), DivisorOf(pright)), pright)
  {
    var n := |pright|;
    assert IsDigit(window[0]) && AllDigits(low) by {
      forall i | 0 <= i < |low| ensures IsDigit(low[i]) { assert low[i] == window[i + 1]; }
    }
    ValPrepend(c, low);
    ValBound(low);
    ValBound(pright);
    ScaleOne(n);
    if c != '0' { ScaleMono(1, Digit(c), n); }
    if Val(window) < Val(pright) {
      lead := 256;
      ScaleIs(256, n);
      ByteAddTwice('0', 256, 0);
    } else {
      lead := Digit(c);
    }
  }

  /** At the end nothing but digits is left, and they are worth the total. */
  lemma LastState(now: string, was: string, lo: nat, hi: nat, cur: nat, lead: int, total: nat, pright: string)
    requires Between(now, was, lo, hi, cur, lead, total, pright) && hi - cur <= |pright|
    ensures AllDigits(now[lo..hi]) && Val(now[lo..hi]) == total
  {
    ZerosSkipped(now[lo..hi], cur - lo);
    assert now[lo..hi][cur - lo..] == now[cur..hi];
    forall i | 0 <= i < hi - lo ensures IsDigit(now[lo..hi][i]) {
      if lo + i >= cur { assert now[lo..hi][i] == now[cur..hi][lo + i - cur]; }
    }
  }

  lemma OneMoreRound(n: nat, b: nat)
    requires 0 < b <= n
    ensures Rounds(n, b) == 1 + Rounds(n - b, b) && Left(n, b) == Left(n - b, b)
  {}

  lemma NoMoreRounds(n: nat, b: nat)
    requires n < b
    ensures Rounds(n, b) == 0 && Left(n, b) == n
  {}

  /**
    Repeated subtraction in the window a[lo..lo+lsize], in place: the number of rounds comes back as
    '0' + rounds, and what is left stays in the window as digits.
   */
  method SubLoop(a: array<char>, lo: nat, lsize: nat, pright: string) returns (ret: char)
    requires lo + lsize < a.Length && lsize <= |pright| + 1 && AllDigits(a[lo..lo + lsize])
    requires Canonical(pright) && pright != "0"
    modifies a
    ensures old(Val(a[lo..lo + lsize])) >= 0
    ensures var d := DivisorOf(pright); var load := Load(Window(old(Val(a[lo..lo + lsize])), lsize), d);
            && ret == ByteAdd('0', Rounds(load, d.b))
            && AllDigits(a[lo..lo + lsize]) && Val(a[lo..lo + lsize]) == Left(load, d.b)
    ensures a[..lo] == old(a[..lo]) && a[lo + lsize..] == old(a[lo + lsize..])
  {
    hide Load, Rounds, Left, ByteAdd, Scale, Val;
    ghost var was, hi := a[..], lo + lsize;
    ghost var lead := FirstState(was, lo, hi, pright);
    ghost var load := Load(Window(Val(was[lo..hi]), lsize), DivisorOf(pright));
    ghost var total: nat, rounds: nat := load, 0;
    var pleft, n := lo, lsize;
    ret := '0';
    DivisorOfIsDivisor(pright);
    while true
      invariant pleft + n == hi
      invariant Between(a[..], was, lo, hi, pleft, lead, total, pright)
      invariant ret == ByteAdd('0', rounds)
      invariant Rounds(load, Val(pright)) == rounds + Rounds(total, Val(pright))
      invariant Left(load, Val(pright)) == Left(total, Val(pright))
      decreases total
    {
      var big := IsLeftStrBig(a, pleft, n, pright);
      assert a[pleft..pleft + n] == a[..][pleft..hi];
      if big < 0 {
        break;
      }
      BigEnough(a[..], was, lo, hi, pleft, lead, total, pright);
      OneMoreRound(total, Val(pright));
      ghost var before, cur := a[..], pleft;
      ghost var borrow := SubtractOnce(a, pleft, n, pright);
      pleft, n := SkipZeros(a, pleft, n);
      NextRound(before, a[..], was, lo, hi, cur, pleft, lead, borrow, total, pright);
      lead, total, rounds := lead - borrow, total - Val(pright), rounds + 1;
      ByteAddTwice('0', rounds - 1, 1);
      ret := ByteAdd(ret, 1);
    }
    LastState(a[..], was, lo, hi, pleft, lead, total, pright);
    NoMoreRounds(total, Val(pright));
  }

  /** The dividend copy of DIV: the window [lo, p) holds w, the digits from p on are untouched, a NUL ends it. */
  ghost predicate Holds(cells: string, data1: string, lo: nat, p: nat, w: Window) {
    && |cells| == |data1| + 1 && lo <= p <= |data1|
    && w.len == p - lo
    && AllDigits(cells[lo..p]) && Val(cells[lo..p]) == w.value
    && cells[p..] == data1[p..] + ['\0']
  }

  /** The result buffer of DIV: the quotient cells of the first p digits behind the sign, then zeros. */
  ghost predicate Shows(ret: string, sign: char, quotient: string, p: nat) {
    && p == |quotient| && p < |ret| && ret[0] == sign && ret[1..p + 1] == quotient
    && forall i :: p < i < |ret| ==> ret[i] == '0'
  }

  /** Reading one more digit extends the window. */
  lemma Grow(cells: string, data1: string, lo: nat, p: nat, w: Window)
    requires Holds(cells, data1, lo, p, w) && p < |data1| && AllDigits(data1)
    ensures Holds(cells, data1, lo, p + 1, Extend(w, DigitAt(data1, p)))
  {
    assert cells[p] == cells[p..][0] == data1[p];
    ValSnoc(cells[lo..p + 1]);
    assert cells[lo..p + 1][..p - lo] == cells[lo..p];
    assert cells[p + 1..] == cells[p..][1..];
  }

  lemma Shown(ret: string, ret': string, sign: char, quotient: string, p: nat, c: char)
    requires Shows(ret, sign, quotient, p) && p + 1 < |ret| && ret' == ret[p + 1 := c]
    ensures Shows(ret', sign, quotient + [c], p + 1)
  {
    assert ret'[1..p + 2] == quotient + [c];
  }

  /** The buffer is full of zeros to begin with. */
  lemma ShownZero(ret: string, sign: char, quotient: string, p: nat)
    requires Shows(ret, sign, quotient, p) && p + 1 < |ret|
    ensures Shows(ret, sign, quotient + ['0'], p + 1)
  {
    assert ret[1..p + 2] == quotient + ['0'];
  }

  /** After the subtractions and the stripping the window is the reduced one. */
  lemma Reduced(before: string, cells: string, data1: string, lo: nat, lo': nat, p: nat, w: Window, d: Divisor)
    requires Holds(before, data1, lo, p, w) && Big(w, d) && |cells| == |before|
    requires AllDigits(cells[lo..p]) && Val(cells[lo..p]) == Left(Load(w, d), d.b) && cells[p..] == before[p..]
    requires lo <= lo' <= p && (forall i :: lo <= i < lo' ==> cells[i] == '0') && (lo' < p ==> cells[lo'] != '0')
    ensures Holds(cells, data1, lo', p, Reduce(w, d))
  {
    ZerosSkipped(cells[lo..p], lo' - lo);
    assert cells[lo..p][lo' - lo..] == cells[lo'..p];
    StrippedLength(cells[lo'..p]);
  }

  lemma StrippedLength(s: string)
    requires AllDigits(s) && (|s| > 0 ==> s[0] != '0')
    ensures Val(s) >= 0 && |s| == NumLen(Val(s))
  {
    ValBound(s);
    if |s| > 0 {
      ValLower(s);
      NumLenBounds(Val(s));
      PowBetween(|s| - 1, NumLen(Val(s)), Val(s));
      PowBetween(NumLen(Val(s)) - 1, |s|, Val(s));
    }
  }

  /** A window that does not count as big stays, under a zero cell. */
  lemma SmallStep(data1: string, d: Divisor, p: nat)
    requires p > 0 && !Big(Reached(data1, d, p), d)
    ensures After(data1, d, p) == Reached(data1, d, p) && Quotient(data1, d, p) == Quotient(data1, d, p - 1) + ['0']
  {}

  /** Another is divided. */
  lemma BigStep(data1: string, d: Divisor, p: nat)
    requires p > 0 && Big(Reached(data1, d, p), d)
    ensures After(data1, d, p) == Reduce(Reached(data1, d, p), d)
    ensures Quotient(data1, d, p)
            == Quotient(data1, d, p - 1) + [ByteAdd('0', Rounds(Load(Reached(data1, d, p), d), d.b))]
  {}

  /** The window of step p, and whether it counts as big. */
  lemma WindowHere(cells: string, data1: string, data2: string, index: nat, p: nat)
    requires Canonical(data2) && data2 != "0" && 0 < p
    requires Holds(cells, data1, index, p, Reached(data1, DivisorOf(data2), p))
    ensures var w := Reached(data1, DivisorOf(data2), p);
            && w == Window(Abs(Val(cells[index..p])), p - index) && Val(cells[index..p]) == w.value
            && p - index <= |data2| + 1
            && (Big(w, DivisorOf(data2)) <==> p - index > |data2| || Val(cells[index..p]) >= Val(data2))
  {
    hide Val;
    DivisorOfIsDivisor(data2);
    WindowBounds(data1, DivisorOf(data2), p - 1);
    ValBound(cells[index..p]);
    if p - index < |data2| { Pow10Mono(p - index, |data2| - 1); }
  }

  /** One quotient cell: what happens at the window [index, index + datalen) when its last digit was just read. */
  method DivideWindow(cells: array<char>, pleft: array<char>, index: nat, datalen: nat, data1: string, data2: string)
    returns (index': nat, datalen': nat)
    requires Canonical(data1) && Canonical(data2) && data2 != "0" && cells != pleft && datalen > 0
    requires var p := index + datalen;
             && p <= |data1| && cells.Length == |data1| + 1
             && Holds(pleft[..], data1, index, p, Reached(data1, DivisorOf(data2), p))
             && Shows(cells[..], cells[0], Quotient(data1, DivisorOf(data2), p - 1), p - 1)
    modifies cells, pleft
    ensures var p := index + datalen;
            && index' + datalen' == p && cells[0] == old(cells[0])
            && Holds(pleft[..], data1, index', p, After(data1, DivisorOf(data2), p))
            && Shows(cells[..], cells[0], Quotient(data1, DivisorOf(data2), p), p)
  {
    hide Reduce, Quotient, After, Rounds, Left, Val, Reached, Shows, Big, Load;
    ghost var p, d := index + datalen, DivisorOf(data2);
    ghost var w, before, shown := Reached(data1, d, p), pleft[..], cells[..];
    DivisorOfIsDivisor(data2);
    WindowHere(before, data1, data2, index, p);
    index', datalen' := index, datalen;
    assert pleft[index..index + datalen] == before[index..p];
    var big := IsLeftStrBig(pleft, index, datalen, data2);
    if big < 0 {
      SmallStep(data1, d, p);
      ShownZero(shown, cells[0], Quotient(data1, d, p - 1), p - 1);
    } else {
      BigStep(data1, d, p);
      var digit := SubLoop(pleft, index, datalen, data2);
      cells[index + datalen] := digit;
      Shown(shown, cells[..], cells[0], Quotient(data1, d, p - 1), p - 1, digit);
      index', datalen' := SkipZeros(pleft, index, datalen);
      assert pleft[index..index + datalen] == pleft[..][index..p];
      Reduced(before, pleft[..], data1, index, index', p, w, d);
    }
  }

  /** The digits of the dividend with a NUL behind them, and a window over the first one. */
  lemma Opened(cells: string, data1: string, d: Divisor)
    requires cells == data1 + ['\0'] && AllDigits(data1) && |data1| > 0
    ensures Holds(cells, data1, 0, 1, Reached(data1, d, 1))
  {
    assert cells[0..] == data1[0..] + ['\0'];
    Grow(cells, data1, 0, 0, Window(0, 0));
  }

  /** The main loop of DIV: the window slides over the dividend, one quotient cell a step. */
  method DivideAll(cells: array<char>, pleft: array<char>, data1: string, data2: string) returns (ghost left: int)
    requires Canonical(data1) && Canonical(data2) && data2 != "0" && cells != pleft
    requires pleft[..] == data1 + ['\0']
    requires cells.Length == |data1| + 1 && forall i :: 0 < i < cells.Length ==> cells[i] == '0'
    modifies cells, pleft
    ensures cells[0] == old(cells[0]) && cells[1..] == Quotient(data1, DivisorOf(data2), |data1|)
    ensures left == After(data1, DivisorOf(data2), |data1|).value
  {
    ghost var d, p, sign := DivisorOf(data2), 1, cells[0];
    var size1, datalen: nat, index: nat := |data1|, 1, 0;
    Opened(pleft[..], data1, d);
    while index < size1
      invariant 1 <= datalen && p == index + datalen <= size1 && cells[0] == sign
      invariant Holds(pleft[..], data1, index, p, Reached(data1, d, p))
      invariant Shows(cells[..], sign, Quotient(data1, d, p - 1), p - 1)
      decreases size1 - p
    {
      index, datalen := DivideWindow(cells, pleft, index, datalen, data1, data2);
      datalen := datalen + 1;
      if index + datalen > size1 {
        break;
      }
      Grow(pleft[..], data1, index, p, After(data1, d, p));
      p := p + 1;
    }
    assert p == size1;
    left := After(data1, d, p).value;
    assert Val(pleft[..][index..p]) == left;
  }

  /**
    Nothing for a zero divisor, "0" for a dividend smaller than the divisor; otherwise the sign cell
    and one quotient cell for every digit of the dividend.  `left` is what remains in the window.
   */
  method Div(data1: string, data2: string, sybom1: char, sybom2: char) returns (ret: array?<char>, ghost left: int)
    requires Canonical(data1) && Canonical(data2)
    ensures ret == null <==> data2 == "0"
    ensures ret != null ==> fresh(ret)
    ensures ret != null && Val(data1) < Val(data2) ==> ret[..] == "0"
    ensures ret != null && Val(data1) >= Val(data2) ==>
              && ret[..] == [if sybom1 == sybom2 then '+' else '-'] + Quotient(data1, DivisorOf(data2), |data1|)
              && left == After(data1, DivisorOf(data2), |data1|).value
  {
    left := 0;
    if data2 == "0" {
      return null, 0;
    }
    var size1, size2 := |data1|, |data2|;
    LengthThenStrCmp(data1, data2);
    if size1 < size2 || (size1 == size2 && StrCmp(data1, data2) < 0) {
      var zero := new char[1];
      zero[0] := '0';
      return zero, 0;
    }
    var retlen := size1 + 1;
    var cells := ZeroCells(retlen);
    cells[0] := if sybom1 == sybom2 then '+' else '-';
    var pleft := new char[size1 + 1](i => if 0 <= i < size1 then data1[i] else '\0');
    assert pleft[..] == data1 + ['\0'];
    left := DivideAll(cells, pleft, data1, data2);
    ret := cells;
    assert cells[..] == [cells[0]] + cells[1..];
  }
}
