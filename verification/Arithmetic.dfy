/** ADD, SUB and MUL of the calculator: schoolbook arithmetic on digit buffers. */
module Arithmetic {
  import opened Decimal

  /** The digit of s at the place worth 10^j. */
  function Column(s: string, j: nat): int {
    if j < |s| then Digit(s[|s| - 1 - j]) else 0
  }

  /** The digit a loop over s takes at its index-th step from the right, if there is one. */
  lemma ColumnIs(s: string, index: nat)
    requires AllDigits(s) && index > 0
    ensures Column(s, index - 1) == (if index <= |s| then Digit(s[|s| - index]) else 0)
    ensures 0 <= Column(s, index - 1) <= 9
  {}

  /** What the low n places of s are worth. */
  function LowVal(s: string, n: nat): int {
    if n == 0 then 0 else Scale(Column(s, n - 1), n - 1) + LowVal(s, n - 1)
  }

  lemma {:induction false} LowValSuffix(s: string, n: nat)
    requires n <= |s|
    ensures LowVal(s, n) == Val(s[|s| - n..])
  {
    if n > 0 {
      LowValSuffix(s, n - 1);
      ValCons(s[|s| - n..]);
      assert s[|s| - n..][1..] == s[|s| - (n - 1)..];
    }
  }

  lemma {:induction false} LowValAll(s: string, n: nat)
    requires |s| <= n
    ensures LowVal(s, n) == Val(s)
    decreases n
  {
    if n == |s| {
      LowValSuffix(s, n);
      assert s[0..] == s;
    } else {
      LowValAll(s, n - 1);
      ScaleOne(n - 1);
    }
  }

  /** The cells written so far and the running carry account for the low columns of d1 + d2 or d1 - d2. */
  ghost predicate Balanced(cells: string, carry: int, d1: string, d2: string, plus: bool) {
    && AllDigits(cells)
    && Val(cells) + Scale(carry, |cells|)
       == LowVal(d1, |cells|) + if plus then LowVal(d2, |cells|) else -LowVal(d2, |cells|)
  }

  lemma BalancedStart(d1: string, d2: string, plus: bool)
    ensures Balanced("", 0, d1, d2, plus)
  {}

  /** One more column keeps the account. */
  lemma BalancedStep(cells: string, carry: int, c: char, carry': int, d1: string, d2: string, plus: bool)
    requires Balanced(cells, carry, d1, d2, plus) && IsDigit(c)
    requires var y := Column(d2, |cells|);
             Column(d1, |cells|) + (if plus then y else -y) + carry == Digit(c) + 10 * carry'
    ensures Balanced([c] + cells, carry', d1, d2, plus)
  {
    var n, x, y := |cells|, Column(d1, |cells|), Column(d2, |cells|);
    var total := Digit(c) + 10 * carry';
    ValPrepend(c, cells);
    ScaleSum(x + carry, x, carry, n);
    ScaleSum(total, x + carry, if plus then y else -y, n);
    ScaleSum(0, y, -y, n);
    ScaleOne(n);
    ScaleSum(total, Digit(c), 10 * carry', n);
    ScaleTen(10 * carry', carry', n);
  }

  /** Once every column is done the account is about the whole operands. */
  lemma BalancedEnd(cells: string, carry: int, d1: string, d2: string, plus: bool)
    requires Balanced(cells, carry, d1, d2, plus) && |d2| <= |d1| == |cells|
    ensures Val(cells) + Scale(carry, |cells|) == Val(d1) + if plus then Val(d2) else -Val(d2)
  {
    LowValAll(d1, |cells|);
    LowValAll(d2, |cells|);
  }

  lemma AddEnd(cells: string, carry: nat, d1: string, d2: string)
    requires Balanced(cells, carry, d1, d2, true) && |d2| <= |d1| == |cells| && carry < 10
    ensures Val(d1) + Val(d2) >= 0
    ensures [DigitChar(carry)] + cells == Pad(Val(d1) + Val(d2), |d1| + 1)
  {
    var s := [DigitChar(carry)] + cells;
    assert Val(s) == Val(d1) + Val(d2) by {
      BalancedEnd(cells, carry, d1, d2, true);
      ValPrepend(DigitChar(carry), cells);
    }
    PadIs(s);
  }

  /** No borrow is left at the top when the larger operand is in front. */
  lemma SubEnd(cells: string, borrow: int, d1: string, d2: string)
    requires Balanced(cells, -borrow, d1, d2, false) && |d2| <= |d1| == |cells|
    requires Val(d1) >= Val(d2) && borrow >= 0
    ensures borrow == 0
    ensures cells == Pad(Val(d1) - Val(d2), |d1|)
  {
    BalancedEnd(cells, -borrow, d1, d2, false);
    ValBound(cells);
    ScaleOne(|cells|);
    ScaleSum(0, borrow, -borrow, |cells|);
    if borrow >= 1 {
      ScaleMono(1, borrow, |cells|);
    }
    PadIs(cells);
  }

  /** ret[0] is the sign of the first operand, the other cells are |data1| + |data2|. */
  method Add(data1: string, data2: string, sybom1: char, sybom2: char) returns (ret: array<char>)
    requires Canonical(data1) && Canonical(data2)
    ensures fresh(ret)
    ensures Val(data1) + Val(data2) >= 0
    ensures ret[..] == [sybom1] + Pad(Val(data1) + Val(data2), Max(|data1|, |data2|) + 1)
  {
    hide Balanced, Pad, Column, Val;
    var d1, d2 := data1, data2;
    var size1, size2 := |d1|, |d2|;
    if size1 < size2 {
      d1, d2 := d2, d1;
      size1 := |d1|;
      size2 := |d2|;
    }
    ret := new char[size1 + 2];
    ret[0] := sybom1;
    var index, step := 1, 0;
    ghost var cells := "";
    BalancedStart(d1, d2, true);
    while index <= size1
      invariant 1 <= index <= size1 + 1 == |cells| + 2 + size1 - index
      invariant 0 <= step <= 1
      invariant ret[0] == sybom1 && ret[size1 + 3 - index..] == cells
      invariant Balanced(cells, step, d1, d2, true)
    {
      ColumnIs(d1, index);
      ColumnIs(d2, index);
      var tmp := Digit(d1[size1 - index]) + step;
      if index <= size2 {
        tmp := tmp + Digit(d2[size2 - index]);
      }
      BalancedStep(cells, step, DigitChar(tmp % 10), tmp / 10, d1, d2, true);
      ret[size1 - index + 2] := DigitChar(tmp % 10);
      step := tmp / 10;
      cells := [ret[size1 - index + 2]] + cells;
      assert ret[size1 - index + 2..] == cells;
      index := index + 1;
    }
    AddEnd(cells, step, d1, d2);
    ret[1] := DigitChar(step);
    assert ret[..] == [sybom1] + ([DigitChar(step)] + cells);
  }

  /** ret[0] is the sign of the larger operand, the first on a tie; the other cells are the distance. */
  method Sub(data1: string, data2: string, sybom1: char, sybom2: char) returns (ret: array<char>)
    requires Canonical(data1) && Canonical(data2)
    ensures fresh(ret)
    ensures ret[..] == [if Val(data1) < Val(data2) then sybom2 else sybom1]
                    + Pad(Abs(Val(data1) - Val(data2)), Max(|data1|, |data2|))
  {
    hide Balanced, Pad, StrCmp, Column, Val;
    LengthThenStrCmp(data1, data2);
    var d1, d2 := data1, data2;
    var size1, size2 := |d1|, |d2|;
    var sybom;
    if size1 < size2 || (size1 == size2 && StrCmp(d1, d2) < 0) {
      d1, d2 := d2, d1;
      size1 := |d1|;
      size2 := |d2|;
      sybom := sybom2;
    } else {
      sybom := sybom1;
    }
    assert size1 >= size2 && size1 == Max(|data1|, |data2|);
    assert Val(d1) - Val(d2) == Abs(Val(data1) - Val(data2));
    assert sybom == if Val(data1) < Val(data2) then sybom2 else sybom1;
    ret := new char[size1 + 1];
    ret[0] := sybom;
    var index, step := 1, 0;
    ghost var cells := "";
    BalancedStart(d1, d2, false);
    while index <= size1
      invariant 1 <= index <= size1 + 1 == |cells| + 2 + size1 - index
      invariant 0 <= step <= 1
      invariant ret[0] == sybom && ret[size1 + 2 - index..] == cells
      invariant Balanced(cells, -step, d1, d2, false)
    {
      ColumnIs(d1, index);
      ColumnIs(d2, index);
      var tmp := Digit(d1[size1 - index]) - step;
      if index <= size2 {
        tmp := tmp - Digit(d2[size2 - index]);
      }
      ghost var borrow := step;
      if tmp < 0 {
        step := 1;
        tmp := tmp + 10;
      } else {
        step := 0;
      }
      BalancedStep(cells, -borrow, DigitChar(tmp), -step, d1, d2, false);
      ret[size1 - index + 1] := DigitChar(tmp);
      cells := [ret[size1 - index + 1]] + cells;
      assert ret[size1 - index + 1..] == cells;
      index := index + 1;
    }
    SubEnd(cells, step, d1, d2);
    assert ret[..] == [sybom] + cells;
  }

  /** tmp times the low n places of s, column by column. */
  function RowVal(tmp: int, s: string, n: nat): int {
    if n == 0 then 0 else Scale(tmp * Column(s, n - 1), n - 1) + RowVal(tmp, s, n - 1)
  }

  lemma {:induction false} RowValIs(tmp: int, s: string, n: nat)
    ensures RowVal(tmp, s, n) == tmp * LowVal(s, n)
  {
    if n > 0 {
      RowValIs(tmp, s, n - 1);
      ScaleMul(tmp, Column(s, n - 1), n - 1);
      Distribute(tmp, Scale(Column(s, n - 1), n - 1), LowVal(s, n - 1));
    }
  }

  lemma Distribute(k: int, a: int, b: int)
    ensures k * (a + b) == k * a + k * b
  {}

  lemma DigitProduct(a: int, b: int)
    requires 0 <= a <= 9 && 0 <= b <= 9
    ensures 0 <= a * b <= 81
  {}

  /** Part of a row of MUL: `done` replaces `was` and, with the carry, has gained tmp times the low places of d1. */
  ghost predicate RowSoFar(done: string, carry: int, was: string, tmp: int, d1: string) {
    && AllDigits(done) && |done| == |was|
    && Val(done) + Scale(carry, |done|) == Val(was) + RowVal(tmp, d1, |done|)
  }

  lemma RowStart(tmp: int, d1: string)
    ensures RowSoFar("", 0, "", tmp, d1)
  {}

  lemma RowStep(done: string, carry: int, was: string, tmp: int, d1: string, x: char, c: char, carry': int)
    requires RowSoFar(done, carry, was, tmp, d1) && IsDigit(c)
    requires tmp * Column(d1, |done|) + carry + Digit(x) == Digit(c) + 10 * carry'
    ensures RowSoFar([c] + done, carry', [x] + was, tmp, d1)
  {
    var n := |done|;
    var product := tmp * Column(d1, n);
    ValPrepend(c, done);
    ValPrepend(x, was);
    var total := Digit(c) + 10 * carry';
    ScaleSum(product + carry, product, carry, n);
    ScaleSum(total, product + carry, Digit(x), n);
    ScaleSum(total, Digit(c), 10 * carry', n);
    ScaleTen(10 * carry', carry', n);
  }

  /** The final carry falls on a cell that is still zero, and the row has gained tmp * d1. */
  lemma RowEnd(done: string, carry: nat, was: string, tmp: int, d1: string)
    requires RowSoFar(done, carry, was, tmp, d1) && |done| == |d1| && carry < 10
    ensures Val([DigitChar(carry)] + done) == Val(['0'] + was) + tmp * Val(d1)
  {
    ValPrepend(DigitChar(carry), done);
    ValPrepend('0', was);
    ScaleOne(|was|);
    RowValIs(tmp, d1, |done|);
    LowValAll(d1, |done|);
  }

  lemma HeadReplaced(was: string, now: string, delta: int, low: string)
    requires Val(now) == Val(was) + delta
    ensures Val(now + low) == Val(was + low) + Scale(delta, |low|)
  {
    ValAppend(now, low);
    ValAppend(was, low);
    ScaleSum(Val(now), Val(was), delta, |low|);
  }

  lemma TailReplaced(pre: string, was: string, now: string)
    requires |was| == |now|
    ensures Val(pre + now) == Val(pre + was) + Val(now) - Val(was)
  {
    ValAppend(pre, now);
    ValAppend(pre, was);
  }

  lemma {:induction false} ZerosValTo(s: string, n: nat)
    requires n <= |s| && forall i :: 0 <= i < n ==> s[i] == '0'
    ensures ValTo(s, n) == 0
  {
    if n > 0 { ZerosValTo(s, n - 1); }
  }

  /** The shape of MUL's buffer between rows: digits behind the sign, still zero above the next row. */
  ghost predicate BetweenRows(cells: string, d1: string, d2: string, offset: nat) {
    && |cells| == |d1| + |d2| + 1 && offset <= |d2|
    && AllDigits(cells[1..])
    && (forall k :: 1 <= k <= |d2| - offset ==> cells[k] == '0')
  }

  lemma RowDone(was: string, now: string, done: string, carry: nat, d1: string, d2: string, offset: nat)
    requires BetweenRows(was, d1, d2, offset) && offset < |d2| && |done| == |d1| && carry < 10
    requires var base := |was| - offset;
             && RowSoFar(done, carry, was[base - |d1|..base], Column(d2, offset), d1)
             && now == was[..base - |d1| - 1] + ([DigitChar(carry)] + done) + was[base..]
    ensures BetweenRows(now, d1, d2, offset + 1)
    ensures Val(now[1..]) == Val(was[1..]) + Scale(Column(d2, offset) * Val(d1), offset)
  {
    var base := |was| - offset;
    var top := base - |d1| - 1;
    var seg, row, low := was[base - |d1|..base], [DigitChar(carry)] + done, was[base..];
    RowEnd(done, carry, seg, Column(d2, offset), d1);
    TailReplaced(was[1..top], ['0'] + seg, row);
    HeadReplaced(was[1..top] + (['0'] + seg), was[1..top] + row, Column(d2, offset) * Val(d1), low);
    assert was[1..] == was[1..top] + (['0'] + seg) + low;
    assert now[1..] == was[1..top] + row + low;
  }

  lemma BufferShape(cells: string, d1: string, d2: string, offset: nat)
    requires BetweenRows(cells, d1, d2, offset) && offset < |d2|
    ensures |cells| == |d1| + |d2| + 1
    ensures (forall k :: 1 <= k < |cells| ==> IsDigit(cells[k])) && cells[|d2| - offset] == '0'
  {
    forall k | 1 <= k < |cells| ensures IsDigit(cells[k]) { assert cells[k] == cells[1..][k - 1]; }
  }

  /** The buffer inside a row: `done` has replaced `seg` in front of place `base`, the rest is as it was. */
  ghost predicate RowCells(now: string, was: string, base: nat, done: string, seg: string) {
    && |now| == |was| && |done| <= base <= |was|
    && now == was[..base - |done|] + done + was[base..]
    && seg == was[base - |done|..base]
  }

  lemma RowCellsStart(was: string, base: nat)
    requires base <= |was|
    ensures RowCells(was, was, base, "", "")
  {}

  lemma RowCellsStep(now: string, was: string, base: nat, done: string, seg: string, c: char)
    requires RowCells(now, was, base, done, seg) && |done| < base
    ensures var cell := base - |done| - 1;
            && now[cell] == was[cell]
            && RowCells(now[cell := c], was, base, [c] + done, [was[cell]] + seg)
  {
    var cell := base - |done| - 1;
    assert was[..cell + 1] == was[..cell] + [was[cell]];
    assert was[cell..base] == [was[cell]] + seg;
  }

  lemma RowCellsEnd(now: string, was: string, base: nat, c: char, done: string, seg: string)
    requires RowCells(now, was, base, [c] + done, seg)
    ensures now == was[..base - |done| - 1] + ([c] + done) + was[base..] && |now| == |was|
  {}

  lemma RowCellsAre(now: string, was: string, base: nat, done: string, seg: string)
    requires RowCells(now, was, base, done, seg)
    ensures |now| == |was| && |done| <= base <= |was| && seg == was[base - |done|..base]
  {}

  /** Product, carry and cell together have two digits. */
  lemma CellSum(a: int, b: int, step: int, y: int)
    requires 0 <= a <= 9 && 0 <= b <= 9 && 0 <= step <= 9 && 0 <= y <= 9
    ensures var n := a * b + step + y;
            0 <= n / 10 <= 9 && 0 <= n % 10 <= 9 && n == n % 10 + 10 * (n / 10)
  {
    DigitProduct(a, b);
  }

  /** One cell of a row: its new digit, the carry, and what that does to the row. */
  lemma RowAdvance(now: string, was: string, base: nat, done: string, seg: string,
                   tmp: int, d1: string, step: int, onebyone: int)
    requires RowCells(now, was, base, done, seg) && RowSoFar(done, step, seg, tmp, d1) && AllDigits(d1)
    requires |done| < |d1| && |done| < base && 0 <= tmp <= 9 && 0 <= step <= 9 && IsDigit(was[base - |done| - 1])
    requires onebyone == tmp * Digit(d1[|d1| - 1 - |done|]) + step + Digit(now[base - |done| - 1])
    ensures 0 <= onebyone % 10 < 10 && 0 <= onebyone / 10 <= 9
    ensures var cell, c := base - |done| - 1, DigitChar(onebyone % 10);
            && RowCells(now[cell := c], was, base, [c] + done, [was[cell]] + seg)
            && RowSoFar([c] + done, onebyone / 10, [was[cell]] + seg, tmp, d1)
  {
    hide Val, RowSoFar, Scale, Column;
    var cell := base - |done| - 1;
    ColumnIs(d1, |done| + 1);
    RowCellsStep(now, was, base, done, seg, '0');
    CellSum(tmp, Digit(d1[|d1| - 1 - |done|]), step, Digit(now[cell]));
    var c := DigitChar(onebyone % 10);
    RowCellsStep(now, was, base, done, seg, c);
    RowStep(done, step, seg, tmp, d1, was[cell], c, onebyone / 10);
  }

  /** One row of MUL: data1 times the digit of data2 at `offset`, added in place at that place. */
  method AddRow(ret: array<char>, d1: string, d2: string, offset: nat)
    requires BetweenRows(ret[..], d1, d2, offset) && offset < |d2|
    requires AllDigits(d1) && AllDigits(d2)
    modifies ret
    ensures BetweenRows(ret[..], d1, d2, offset + 1) && ret[0] == old(ret[0])
    ensures Val(ret[..][1..]) == old(Val(ret[..][1..])) + Scale(Column(d2, offset) * Val(d1), offset)
  {
    hide Val, RowSoFar, Scale, BetweenRows, RowCells, Column, AllDigits;
    BufferShape(ret[..], d1, d2, offset);
    var retlen, size1 := ret.Length, |d1|;
    var tmp := Digit(d2[|d2| - 1 - offset]);
    var step := 0;
    ghost var was, base, done, seg := ret[..], retlen - offset, "", "";
    ColumnIs(d2, offset + 1);
    RowStart(tmp, d1);
    RowCellsStart(was, base);
    var i := 1;
    while i <= size1
      invariant 1 <= i <= size1 + 1 && |done| == i - 1
      invariant 0 <= step <= 9
      invariant RowCells(ret[..], was, base, done, seg) && RowSoFar(done, step, seg, tmp, d1)
    {
      var cell := retlen - offset - i;
      assert ret[cell] == ret[..][cell];
      var onebyone := tmp * Digit(d1[size1 - i]);
      onebyone := onebyone + step;
      onebyone := onebyone + Digit(ret[cell]);
      RowAdvance(ret[..], was, base, done, seg, tmp, d1, step, onebyone);
      ret[cell] := DigitChar(onebyone % 10);
      step := onebyone / 10;
      done := [DigitChar(onebyone % 10)] + done;
      seg := [was[cell]] + seg;
      i := i + 1;
    }
    var top := retlen - offset - size1 - 1;
    RowCellsAre(ret[..], was, base, done, seg);
    RowCellsStep(ret[..], was, base, done, seg, DigitChar(step));
    assert ret[top] == ret[..][top] == was[top] == '0';
    ret[top] := DigitChar(Digit(ret[top]) + step);
    RowCellsEnd(ret[..], was, base, DigitChar(step), done, [was[top]] + seg);
    RowDone(was, ret[..], done, step, d1, d2, offset);
  }

  /** Adding a row moves the running product on by one digit of d2. */
  lemma ProductStep(d1: string, d2: string, j: nat)
    ensures Val(d1) * LowVal(d2, j) + Scale(Column(d2, j) * Val(d1), j) == Val(d1) * LowVal(d2, j + 1)
  {
    ScaleMul(Val(d1), Column(d2, j), j);
    assert Val(d1) * Column(d2, j) == Column(d2, j) * Val(d1);
    Distribute(Val(d1), Scale(Column(d2, j), j), LowVal(d2, j));
  }

  /** All rows of MUL, one for each nonzero digit of d2, from the lowest place up. */
  method AddRows(ret: array<char>, d1: string, d2: string)
    requires BetweenRows(ret[..], d1, d2, 0)
    requires Val(ret[..][1..]) == 0
    requires AllDigits(d1) && AllDigits(d2)
    modifies ret
    ensures ret[0] == old(ret[0]) && AllDigits(ret[..][1..])
    ensures Val(ret[..][1..]) == Val(d1) * Val(d2)
  {
    var size2 := |d2|;
    var index, offset := 1, 0;
    while index <= size2
      invariant 1 <= index <= size2 + 1 && offset == index - 1
      invariant ret[0] == old(ret[0])
      invariant BetweenRows(ret[..], d1, d2, offset)
      invariant Val(ret[..][1..]) == Val(d1) * LowVal(d2, offset)
    {
      ProductStep(d1, d2, offset);
      var tmp := Digit(d2[size2 - index]);
      if tmp == 0 {
        ScaleOne(offset);
      } else {
        AddRow(ret, d1, d2, offset);
      }
      offset := offset + 1;
      index := index + 1;
    }
    LowValAll(d2, size2);
  }

  lemma SignedCells(cells: string, n: nat)
    requires |cells| > 0 && AllDigits(cells[1..]) && Val(cells[1..]) == n
    ensures cells == [cells[0]] + Pad(n, |cells| - 1)
  {
    PadIs(cells[1..]);
  }

  /** MUL on operands in order of length: the sign cell and the product. */
  method MulDigits(d1: string, d2: string, sign: char) returns (ret: array<char>)
    requires Canonical(d1) && Canonical(d2)
    ensures fresh(ret) && Val(d1) * Val(d2) >= 0
    ensures ret[..] == [sign] + Pad(Val(d1) * Val(d2), |d1| + |d2|)
  {
    var retlen := |d1| + |d2| + 1;
    ret := ZeroCells(retlen);
    ret[0] := sign;
    ZerosValTo(ret[..][1..], retlen - 1);
    AddRows(ret, d1, d2);
    ValBound(ret[..][1..]);
    SignedCells(ret[..], Val(ret[..][1..]));
  }

  /** "0" when an operand is "0"; otherwise the sign cell and the |data1| + |data2| digits of the product. */
  method Mul(data1: string, data2: string, sybom1: char, sybom2: char) returns (ret: array<char>)
    requires Canonical(data1) && Canonical(data2)
    ensures fresh(ret)
    ensures Val(data1) * Val(data2) >= 0
    ensures ret[..] == if data1 == "0" || data2 == "0" then "0"
                       else [if sybom1 == sybom2 then '+' else '-'] + Pad(Val(data1) * Val(data2), |data1| + |data2|)
  {
    if data1 == "0" || data2 == "0" {
      ProductNat(data1, data2);
      ret := new char[1];
      ret[0] := '0';
      return;
    }
    var d1, d2 := data1, data2;
    if |d1| < |d2| {
      d1, d2 := d2, d1;
    }
    assert Val(d1) * Val(d2) == Val(data1) * Val(data2) && |d1| + |d2| == |data1| + |data2|;
    ret := MulDigits(d1, d2, if sybom1 == sybom2 then '+' else '-');
  }

  lemma ProductNat(s: string, t: string)
    requires AllDigits(s) && AllDigits(t)
    ensures Val(s) * Val(t) >= 0
  {
    ValBound(s);
    ValBound(t);
  }
}
