/** The sliding-window loop that all four box-blur passes of util/SurfaceTransformBlur.cs run
    over each row (horizontal passes) or column (vertical passes) of their rectangle. */
module BlurKernel {
  import opened BlurPixel
  import opened BlurWindow
  import opened BlurGrid

  /** After a pass has handled positions 0 .. x-1 of line l: those hold what LineOut says, the
      rest of the line still holds the destination's previous pixels, and every pixel off the
      line is untouched. L is the line as read from the source buffer. */
  ghost predicate WrittenUpTo(D: seq<bv32>, D0: seq<bv32>, L: seq<bv32>, w: int, h: int, l: Line,
                              r: nat, test: int, skip: nat, avg: Average, x: int)
  {
    |D| == w * h && |D0| == w * h && Inside(w, h, l) && |L| == l.len && l.len > 0 &&
    (forall i :: 0 <= i < l.len ==>
      D[At(w, h, l, i)] == if i < x then LineOut(L, r, test, skip, avg, i, D0[At(w, h, l, i)]) else D0[At(w, h, l, i)]) &&
    (forall px, py :: 0 <= px < w && 0 <= py < h && !OnLine(l, px, py) ==> D[Idx(w, h, px, py)] == D0[Idx(w, h, px, py)])
  }

  /** The buffer positions of line l, in the order the pass visits them. */
  function Positions(w: int, h: int, l: Line): (idx: seq<int>)
    requires Inside(w, h, l)
    ensures |idx| == l.len && forall i :: 0 <= i < l.len ==> idx[i] == At(w, h, l, i)
  {
    seq(l.len, i requires 0 <= i < l.len => At(w, h, l, i))
  }

  /** Consecutive positions are one stride apart: the cursors `ti`, `li` and `ri` move by
      `st` per step. */
  ghost predicate Strided(idx: seq<int>, st: int) {
    forall i :: 0 < i < |idx| ==> Gap(idx, i) == st
  }

  /** How far position i lies after position i - 1. */
  ghost function Gap(idx: seq<int>, i: int): int
    requires 0 < i < |idx|
  {
    idx[i] - idx[i - 1]
  }

  /** No buffer position is visited twice. */
  ghost predicate Distinct(idx: seq<int>) {
    forall i, k :: 0 <= i < k < |idx| ==> idx[i] != idx[k]
  }

  /** The loops' view of a line: positions idx inside a buffer of N pixels, one stride apart
      and distinct, at which the source S holds the line's pixels L. */
  ghost predicate Walk(S: seq<bv32>, N: int, L: seq<bv32>, idx: seq<int>, st: int) {
    |S| == N && |L| == |idx| > 0 &&
    (forall i :: 0 <= i < |idx| ==> 0 <= idx[i] < N && L[i] == S[idx[i]]) &&
    Strided(idx, st) && Distinct(idx)
  }

  /** Position a + k lies `jump` buffer slots after position a. */
  ghost predicate Shifted(idx: seq<int>, a: int, k: nat, jump: int) {
    0 <= a && a + k < |idx| ==> idx[a + k] == idx[a] + jump
  }

  /** The jump `ti += skip` / `ti += skip * w` at x == test, applied after the cursors `ti`
      (then at test+1), `ri` (at test+1+r) and `li` (at test-r) have moved one stride. */
  ghost predicate Jumps(idx: seq<int>, r: nat, test: int, skip: nat, jump: int) {
    Shifted(idx, test + 1, skip, jump) && Shifted(idx, test + 1 + r, skip, jump) && Shifted(idx, test - r, skip, jump)
  }

  /** The loops' version of WrittenUpTo, over the positions idx of the line in a buffer D. */
  ghost predicate Written(D: seq<bv32>, D0: seq<bv32>, L: seq<bv32>, idx: seq<int>,
                          r: nat, test: int, skip: nat, avg: Average, x: int)
  {
    |D| == |D0| && |L| == |idx| > 0 &&
    (forall i :: 0 <= i < |idx| ==> 0 <= idx[i] < |D|) &&
    (forall i :: 0 <= i < |idx| ==>
      D[idx[i]] == if i < x then LineOut(L, r, test, skip, avg, i, D0[idx[i]]) else D0[idx[i]]) &&
    (forall j :: 0 <= j < |D| && j !in idx ==> D[j] == D0[j])
  }

  /** Writing LineOut at position x extends the written prefix by one. */
  lemma {:induction false} WriteStep(D: seq<bv32>, D0: seq<bv32>, L: seq<bv32>, idx: seq<int>,
                                     r: nat, test: int, skip: nat, avg: Average, x: int, v: bv32)
    requires Written(D, D0, L, idx, r, test, skip, avg, x) && Distinct(idx) && 0 <= x < |idx|
    requires v == LineOut(L, r, test, skip, avg, x, D0[idx[x]])
    ensures Written(D[idx[x] := v], D0, L, idx, r, test, skip, avg, x + 1)
  {
    var D' := D[idx[x] := v];
    forall i | 0 <= i < |idx|
      ensures D'[idx[i]] == if i < x + 1 then LineOut(L, r, test, skip, avg, i, D0[idx[i]]) else D0[idx[i]]
    {
      if i < x {
        assert idx[i] != idx[x];
      } else if x < i {
        assert idx[x] != idx[i];
      }
    }
  }

  /** The jump at x = test leaves positions test+1 .. test+skip as they were, which is what
      LineOut prescribes for skipped positions. */
  lemma {:induction false} SkipStep(D: seq<bv32>, D0: seq<bv32>, L: seq<bv32>, idx: seq<int>,
                                    r: nat, test: int, skip: nat, avg: Average)
    requires Written(D, D0, L, idx, r, test, skip, avg, test + 1)
    requires Fires(|idx|, r, test) && test + skip + 1 <= |idx|
    ensures Written(D, D0, L, idx, r, test, skip, avg, test + skip + 1)
  {
    forall i | 0 <= i < |idx|
      ensures D[idx[i]] == if i < test + skip + 1 then LineOut(L, r, test, skip, avg, i, D0[idx[i]]) else D0[idx[i]]
    {
      if test + 1 <= i < test + skip + 1 {
        assert Skipped(|idx|, r, test, skip, i);
      }
    }
  }

  /** The grid facts behind Walk: a line's positions are in the buffer, a stride apart and
      distinct, and the line's pixels are the source's pixels there. */
  lemma {:induction false} WalkLine(S: seq<bv32>, w: int, h: int, l: Line)
    requires |S| == w * h && Inside(w, h, l) && l.len > 0
    ensures Walk(S, w * h, LineOf(S, w, h, l), Positions(w, h, l), Stride(w, l))
  {
    var idx := Positions(w, h, l);
    forall i | 0 < i < |idx|
      ensures Gap(idx, i) == Stride(w, l)
    {
      AtShift(w, h, l, i - 1, 1);
    }
    forall i, k | 0 <= i < k < |idx|
      ensures idx[i] != idx[k]
    {
      AtInjective(w, h, l, i, k);
    }
  }

  /** The grid facts behind Jumps: `skip` positions along the line are `skip * Stride` slots. */
  lemma {:induction false} JumpsLine(w: int, h: int, l: Line, r: nat, test: int, skip: nat)
    requires Inside(w, h, l)
    ensures Jumps(Positions(w, h, l), r, test, skip, skip * Stride(w, l))
  {
    var idx := Positions(w, h, l);
    if 0 <= test + 1 && test + 1 + skip < |idx| { AtShift(w, h, l, test + 1, skip); }
    if 0 <= test + 1 + r && test + 1 + r + skip < |idx| { AtShift(w, h, l, test + 1 + r, skip); }
    if 0 <= test - r && test - r + skip < |idx| { AtShift(w, h, l, test - r, skip); }
  }

  /** Written over the line's positions is WrittenUpTo on the grid. */
  lemma {:induction false} WrittenOnGrid(D: seq<bv32>, D0: seq<bv32>, L: seq<bv32>, w: int, h: int, l: Line,
                                         r: nat, test: int, skip: nat, avg: Average, x: int)
    requires Inside(w, h, l) && |D0| == w * h
    requires Written(D, D0, L, Positions(w, h, l), r, test, skip, avg, x)
    ensures WrittenUpTo(D, D0, L, w, h, l, r, test, skip, avg, x)
  {
    var idx := Positions(w, h, l);
    forall px, py | 0 <= px < w && 0 <= py < h && !OnLine(l, px, py)
      ensures D[Idx(w, h, px, py)] == D0[Idx(w, h, px, py)]
    {
      var j := Idx(w, h, px, py);
      forall i | 0 <= i < |idx|
        ensures idx[i] != j
      {
        OffLine(w, h, l, i, px, py);
      }
      assert j !in idx;
    }
  }

  /** The three accumulators `valR`, `valG`, `valB` at the head of the loop for position x:
      the window of x-1, less the drift the jump has caused by position x. */
  ghost predicate Acc(L: seq<bv32>, r: nat, test: int, skip: nat, x: int, valR: int, valG: int, valB: int) {
    |L| > 0 &&
    valR == Win(L, x - 1, r, Red) - Drift(L, r, test, skip, x, Red) &&
    valG == Win(L, x - 1, r, Green) - Drift(L, r, test, skip, x, Green) &&
    valB == Win(L, x - 1, r, Blue) - Drift(L, r, test, skip, x, Blue)
  }

  /** The accumulators after the update at position x: the window of x less the drift at x. */
  ghost predicate AccAt(L: seq<bv32>, r: nat, test: int, skip: nat, x: int, valR: int, valG: int, valB: int) {
    |L| > 0 &&
    valR == Win(L, x, r, Red) - Drift(L, r, test, skip, x, Red) &&
    valG == Win(L, x, r, Green) - Drift(L, r, test, skip, x, Green) &&
    valB == Win(L, x, r, Blue) - Drift(L, r, test, skip, x, Blue)
  }

  /** One channel of the update `val += entering - leaving`. */
  lemma {:induction false} ChannelSlide(L: seq<bv32>, r: nat, test: int, skip: nat, x: int, c: Channel,
                                        val: int, col1: bv32, col2: bv32)
    requires |L| > 0 && val == Win(L, x - 1, r, c) - Drift(L, r, test, skip, x, c)
    requires col1 == L[Clamp(x + r, |L|)] && col2 == L[Clamp(x - r - 1, |L|)]
    ensures val + Ch(col1, c) - Ch(col2, c) == Win(L, x, r, c) - Drift(L, r, test, skip, x, c)
  {
    Slide(L, x, r, c);
  }

  /** The update at x, for all three channels, with the entering pixel `col1` and the leaving
      pixel `col2`. */
  lemma {:induction false} AccSlide(L: seq<bv32>, r: nat, test: int, skip: nat, x: int,
                                    valR: int, valG: int, valB: int, col1: bv32, col2: bv32)
    requires Acc(L, r, test, skip, x, valR, valG, valB)
    requires col1 == L[Clamp(x + r, |L|)] && col2 == L[Clamp(x - r - 1, |L|)]
    ensures AccAt(L, r, test, skip, x, valR + Ch(col1, Red) - Ch(col2, Red),
                  valG + Ch(col1, Green) - Ch(col2, Green), valB + Ch(col1, Blue) - Ch(col2, Blue))
  {
    ChannelSlide(L, r, test, skip, x, Red, valR, col1, col2);
    ChannelSlide(L, r, test, skip, x, Green, valG, col1, col2);
    ChannelSlide(L, r, test, skip, x, Blue, valB, col1, col2);
  }

  /** Moving on to x + 1 without a jump: the drift only changes right after the skipped span. */
  lemma {:induction false} AccAdvance(L: seq<bv32>, r: nat, test: int, skip: nat, p: int, x: int, valR: int, valG: int, valB: int)
    requires AccAt(L, r, test, skip, p, valR, valG, valB) && x == p + 1
    requires Fires(|L|, r, test) ==> p != test + skip
    ensures Acc(L, r, test, skip, x, valR, valG, valB)
  {
  }

  /** Jumping from x = test to test + skip + 1 with unchanged accumulators: from there on they
      lag the window by Offset, which is the drift. */
  lemma {:induction false} AccJump(L: seq<bv32>, r: nat, test: int, skip: nat, p: int, x: int, valR: int, valG: int, valB: int)
    requires p == test && x == p + skip + 1 && AccAt(L, r, test, skip, p, valR, valG, valB) && Fires(|L|, r, test)
    ensures Acc(L, r, test, skip, x, valR, valG, valB)
  {
  }

  /** Moving on from position p to x = p + 1: the cursors `ti` (at x), `ri` (at x + r) and
      `li` (at x - r - 1) have each moved one stride. */
  lemma {:induction false} Moved(idx: seq<int>, st: int, p: int, x: int, r: nat)
    requires Strided(idx, st) && 0 <= p && x == p + 1
    ensures x < |idx| ==> idx[x] == idx[p] + st
    ensures x + r < |idx| ==> idx[x + r] == idx[p + r] + st
    ensures r + 1 <= p && x - r - 1 < |idx| ==> idx[x - r - 1] == idx[p - r - 1] + st
  {
    if x < |idx| { assert Gap(idx, x) == st; }
    if x + r < |idx| { assert Gap(idx, x + r) == st; }
    if r + 1 <= p && x - r - 1 < |idx| { assert Gap(idx, x - r - 1) == st; }
  }

  /** The same after the jump from p = test, which moves them `jump` slots further:
      x = p + 1 + skip. */
  lemma {:induction false} MovedJump(idx: seq<int>, st: int, jump: int, p: int, x: int, skip: nat, r: nat)
    requires Strided(idx, st) && Jumps(idx, r, p, skip, jump)
    requires r + 1 <= p && x == p + 1 + skip && x <= |idx| - r
    ensures x < |idx| ==> idx[x] == idx[p] + st + jump
    ensures x + r < |idx| ==> idx[x + r] == idx[p + r] + st + jump
    ensures idx[x - r - 1] == idx[p - r - 1] + st + jump
  {
    if x < |idx| { assert Gap(idx, p + 1) == st; }
    if x + r < |idx| { assert Gap(idx, p + r + 1) == st; }
    assert Gap(idx, p - r) == st;
  }

  /** What a loop body writes at an unskipped position x is LineOut. */
  lemma {:induction false} AccOut(L: seq<bv32>, r: nat, test: int, skip: nat, avg: Average, x: int,
                                  valR: int, valG: int, valB: int, prev: bv32)
    requires AccAt(L, r, test, skip, x, valR, valG, valB) && !Skipped(|L|, r, test, skip, x)
    ensures Pack(AlphaOf(prev), avg(r, valB), avg(r, valG), avg(r, valR)) == LineOut(L, r, test, skip, avg, x, prev)
  {
  }

  /** What every loop of a line relies on: distinct buffers, the line's positions in them
      (`len` of them, at least 2r+1), and a jump that stays inside the middle loop. */
  ghost predicate Fits(src: array<bv32>, dest: array<bv32>, L: seq<bv32>, idx: seq<int>, len: nat, st: int,
                       r: nat, test: int, skip: nat)
    reads src, dest
  {
    src != dest && Walk(src[..], dest.Length, L, idx, st) && len == |idx| && 2 * r + 1 <= len &&
    (Fires(len, r, test) ==> test + skip + 1 <= len - r)
  }

  /** One line of a pass (the body of the row loop of `boxBlurH_4RGB*` or of the column loop
      of `boxBlurT_4RGB*`): reads line l of `src`, writes line l of `dest`. `test` is the local
      position at which the middle loop jumps `skip` positions, or a position where it never
      does. The four loops of the source are the seed loop below and the three methods it
      calls, which hand the cursors and accumulators on to each other. */
  method BlurLine(src: array<bv32>, dest: array<bv32>, w: nat, h: nat, l: Line,
                  r: nat, test: int, skip: nat, avg: Average)
    requires src != dest && src.Length == w * h && dest.Length == w * h
    requires Inside(w, h, l) && 2 * r + 1 <= l.len
    requires Fires(l.len, r, test) ==> test + skip + 1 <= l.len - r
    modifies dest
    ensures WrittenUpTo(dest[..], old(dest[..]), LineOf(src[..], w, h, l), w, h, l, r, test, skip, avg, l.len)
  {
    ghost var L := LineOf(src[..], w, h, l);
    ghost var D0 := dest[..];
    ghost var idx := Positions(w, h, l);
    var len := l.len;
    var st := Stride(w, l);
    var jump := skip * st;  // `xSkip` along a row, `ySkip * w` down a column
    LineReady(src, dest, w, h, l, r, test, skip);
    var ti := At(w, h, l, 0);
    var ri := ti + r * st;
    var first, last := src[ti], src[ti + (len - 1) * st];
    var valR, valG, valB := Seed(src, w, h, l, r, L, first);
    SeedAcc(L, r, test, skip, valR, valG, valB);
    Sweep(src, dest, len, st, jump, r, test, skip, avg, L, idx, D0, first, last, ti, ri, valR, valG, valB);
    WrittenOnGrid(dest[..], D0, L, w, h, l, r, test, skip, avg, len);
  }

  /** What the loops of a line need of its positions: they walk the line in strides, jump
      where the source jumps, and the cursors start at the first, r-th and last of them. */
  lemma {:induction false} LineReady(src: array<bv32>, dest: array<bv32>, w: nat, h: nat, l: Line,
                                     r: nat, test: int, skip: nat)
    requires src != dest && src.Length == w * h && dest.Length == w * h
    requires Inside(w, h, l) && 2 * r + 1 <= l.len
    requires Fires(l.len, r, test) ==> test + skip + 1 <= l.len - r
    ensures var idx, st := Positions(w, h, l), Stride(w, l);
            Fits(src, dest, LineOf(src[..], w, h, l), idx, l.len, st, r, test, skip) &&
            Jumps(idx, r, test, skip, skip * st) &&
            idx[0] == At(w, h, l, 0) && idx[r] == idx[0] + r * st && idx[l.len - 1] == idx[0] + (l.len - 1) * st
  {
    WalkLine(src[..], w, h, l);
    JumpsLine(w, h, l, r, test, skip);
    AtShift(w, h, l, 0, r);
    AtShift(w, h, l, 0, l.len - 1);
  }

  /** The seeded accumulators are the window before position 0, where nothing has drifted. */
  lemma {:induction false} SeedAcc(L: seq<bv32>, r: nat, test: int, skip: nat, valR: int, valG: int, valB: int)
    requires |L| > 0
    requires valR == (r + 1) * Ch(L[0], Red) + Sum(L, 0, r, Red)
    requires valG == (r + 1) * Ch(L[0], Green) + Sum(L, 0, r, Green)
    requires valB == (r + 1) * Ch(L[0], Blue) + Sum(L, 0, r, Blue)
    ensures Acc(L, r, test, skip, 0, valR, valG, valB)
  {
    SeedWindow(L, r, Red);
    SeedWindow(L, r, Green);
    SeedWindow(L, r, Blue);
  }

  /** The three writing loops of a line, from the seeded accumulators on: each hands its
      cursors and accumulators on to the next. */
  method Sweep(src: array<bv32>, dest: array<bv32>, len: nat, st: int, jump: int, r: nat, test: int, skip: nat,
               avg: Average, ghost L: seq<bv32>, ghost idx: seq<int>, ghost D0: seq<bv32>, first: bv32, last: bv32,
               ti0: int, ri0: int, valR0: int, valG0: int, valB0: int)
    requires Fits(src, dest, L, idx, len, st, r, test, skip) && Jumps(idx, r, test, skip, jump)
    requires first == L[0] && last == L[len - 1] && ti0 == idx[0] && ri0 == idx[r]
    requires Acc(L, r, test, skip, 0, valR0, valG0, valB0) && dest[..] == D0
    modifies dest
    ensures Written(dest[..], D0, L, idx, r, test, skip, avg, len)
  {
    var ti, ri, valR, valG, valB := LeftLoop(src, dest, len, st, r, test, skip, avg, L, idx, D0, first, ti0, ri0, valR0, valG0, valB0);
    var li;
    ti, li, valR, valG, valB := MiddleLoop(src, dest, len, st, jump, r, test, skip, avg, L, idx, D0, ti, ri, ti0, valR, valG, valB);
    RightLoop(src, dest, len, st, r, test, skip, avg, L, idx, D0, last, ti, li, valR, valG, valB);
  }

  /** The accumulators before the left loop: `(r + 1) * fv` plus the first r pixels. */
  method Seed(src: array<bv32>, w: nat, h: nat, l: Line, r: nat, ghost L: seq<bv32>, first: bv32)
    returns (valR: int, valG: int, valB: int)
    requires src.Length == w * h && Inside(w, h, l) && r < l.len
    requires L == LineOf(src[..], w, h, l) && first == L[0]
    ensures valR == (r + 1) * Ch(L[0], Red) + Sum(L, 0, r, Red)
    ensures valG == (r + 1) * Ch(L[0], Green) + Sum(L, 0, r, Green)
    ensures valB == (r + 1) * Ch(L[0], Blue) + Sum(L, 0, r, Blue)
  {
    var fvR, fvG, fvB := Ch(first, Red), Ch(first, Green), Ch(first, Blue);
    valR, valG, valB := (r + 1) * fvR, (r + 1) * fvG, (r + 1) * fvB;
    var x := 0;
    while x < r
      invariant 0 <= x <= r
      invariant valR == (r + 1) * fvR + Sum(L, 0, x, Red)
      invariant valG == (r + 1) * fvG + Sum(L, 0, x, Green)
      invariant valB == (r + 1) * fvB + Sum(L, 0, x, Blue)
    {
      var col := src[At(w, h, l, x)];  // `srcP[ti + x]` along a row, `srcP[ti + y * w]` down a column
      valR, valG, valB := valR + Ch(col, Red), valG + Ch(col, Green), valB + Ch(col, Blue);
      x := x + 1;
    }
  }

  /** The state of the left loop at the head of the iteration for position x. */
  ghost predicate Left(D: seq<bv32>, D0: seq<bv32>, L: seq<bv32>, idx: seq<int>, len: nat,
                       r: nat, test: int, skip: nat, avg: Average,
                       x: int, ti: int, ri: int, valR: int, valG: int, valB: int)
  {
    |L| == |idx| == len && 0 <= x <= r + 1 &&
    (x < len ==> ti == idx[x]) && (x + r < len ==> ri == idx[x + r]) &&
    Acc(L, r, test, skip, x, valR, valG, valB) &&
    Written(D, D0, L, idx, r, test, skip, avg, x)
  }

  /** Positions 0 .. r: the pixel leaving the window on the left is the replicated first pixel. */
  method LeftLoop(src: array<bv32>, dest: array<bv32>, len: nat, st: int, r: nat, test: int, skip: nat,
                  avg: Average, ghost L: seq<bv32>, ghost idx: seq<int>, ghost D0: seq<bv32>, first: bv32,
                  ti0: int, ri0: int, valR0: int, valG0: int, valB0: int)
    returns (ti: int, ri: int, valR: int, valG: int, valB: int)
    requires Fits(src, dest, L, idx, len, st, r, test, skip) && first == L[0]
    requires ti0 == idx[0] && ri0 == idx[r]
    requires Acc(L, r, test, skip, 0, valR0, valG0, valB0) && dest[..] == D0
    modifies dest
    ensures (r + 1 < len ==> ti == idx[r + 1]) && (2 * r + 1 < len ==> ri == idx[2 * r + 1])
    ensures Acc(L, r, test, skip, r + 1, valR, valG, valB)
    ensures Written(dest[..], D0, L, idx, r, test, skip, avg, r + 1)
  {
    ti, ri, valR, valG, valB := ti0, ri0, valR0, valG0, valB0;
    var x := 0;
    while x <= r
      invariant Fits(src, dest, L, idx, len, st, r, test, skip)
      invariant Left(dest[..], D0, L, idx, len, r, test, skip, avg, x, ti, ri, valR, valG, valB)
      decreases r + 1 - x
    {
      x, ti, ri, valR, valG, valB := LeftStep(src, dest, len, st, r, test, skip, avg, L, idx, D0, first,
                                              x, ti, ri, valR, valG, valB);
    }
    LeftExit(dest[..], D0, L, idx, len, r, test, skip, avg, x, ti, ri, valR, valG, valB);
  }

  /** Leaving the left loop at x == r + 1. */
  lemma {:induction false} LeftExit(D: seq<bv32>, D0: seq<bv32>, L: seq<bv32>, idx: seq<int>, len: nat,
                                    r: nat, test: int, skip: nat, avg: Average,
                                    x: int, ti: int, ri: int, valR: int, valG: int, valB: int)
    requires Left(D, D0, L, idx, len, r, test, skip, avg, x, ti, ri, valR, valG, valB) && r < x
    ensures (r + 1 < len ==> ti == idx[r + 1]) && (2 * r + 1 < len ==> ri == idx[2 * r + 1])
    ensures Acc(L, r, test, skip, r + 1, valR, valG, valB)
    ensures Written(D, D0, L, idx, r, test, skip, avg, r + 1)
  {
  }

  /** One iteration of the left loop, for position x. */
  method LeftStep(src: array<bv32>, dest: array<bv32>, len: nat, st: int, r: nat, test: int, skip: nat,
                  avg: Average, ghost L: seq<bv32>, ghost idx: seq<int>, ghost D0: seq<bv32>, first: bv32,
                  x0: int, ti0: int, ri0: int, valR0: int, valG0: int, valB0: int)
    returns (x: int, ti: int, ri: int, valR: int, valG: int, valB: int)
    requires Fits(src, dest, L, idx, len, st, r, test, skip) && first == L[0]
    requires Left(dest[..], D0, L, idx, len, r, test, skip, avg, x0, ti0, ri0, valR0, valG0, valB0) && x0 <= r
    modifies dest
    ensures x == x0 + 1
    ensures Left(dest[..], D0, L, idx, len, r, test, skip, avg, x, ti, ri, valR, valG, valB)
  {
    var col := src[ri0];
    valR, valG, valB := Emit(dest, ti0, L, idx, D0, r, test, skip, avg, x0, col, first, valR0, valG0, valB0);
    ri, ti := ri0 + st, ti0 + st;
    x := x0 + 1;
    Moved(idx, st, x0, x, r);
    AccAdvance(L, r, test, skip, x0, x, valR, valG, valB);
  }

  /** The state of the middle loop at the head of the iteration for position x. */
  ghost predicate Middle(S: seq<bv32>, D: seq<bv32>, D0: seq<bv32>, L: seq<bv32>, idx: seq<int>, len: nat,
                         r: nat, test: int, skip: nat, avg: Average,
                         x: int, ti: int, ri: int, li: int, valR: int, valG: int, valB: int)
  {
    |L| == |idx| == len && r + 1 <= x <= len - r &&
    (x < len ==> ti == idx[x]) && (x + r < len ==> ri == idx[x + r]) && li == idx[x - r - 1] &&
    (Fires(len, r, test) ==> x <= test || test + skip < x) &&
    Acc(L, r, test, skip, x, valR, valG, valB) &&
    Written(D, D0, L, idx, r, test, skip, avg, x)
  }

  /** Positions r+1 .. len-r-1: the window slides along the line; the edge-only passes jump
      over `skip` positions at x == test, moving the cursors `jump` slots but not the
      accumulators. */
  method MiddleLoop(src: array<bv32>, dest: array<bv32>, len: nat, st: int, jump: int, r: nat, test: int, skip: nat,
                    avg: Average, ghost L: seq<bv32>, ghost idx: seq<int>, ghost D0: seq<bv32>,
                    ti0: int, ri0: int, li0: int, valR0: int, valG0: int, valB0: int)
    returns (ti: int, li: int, valR: int, valG: int, valB: int)
    requires Fits(src, dest, L, idx, len, st, r, test, skip) && Jumps(idx, r, test, skip, jump)
    requires (r + 1 < len ==> ti0 == idx[r + 1]) && (2 * r + 1 < len ==> ri0 == idx[2 * r + 1])
    requires li0 == idx[0]
    requires Acc(L, r, test, skip, r + 1, valR0, valG0, valB0)
    requires Written(dest[..], D0, L, idx, r, test, skip, avg, r + 1)
    modifies dest
    ensures (r > 0 ==> ti == idx[len - r]) && li == idx[len - r - r - 1]
    ensures Acc(L, r, test, skip, len - r, valR, valG, valB)
    ensures Written(dest[..], D0, L, idx, r, test, skip, avg, len - r)
  {
    var ri := ri0;
    ti, li, valR, valG, valB := ti0, li0, valR0, valG0, valB0;
    var x := r + 1;
    while x < len - r
      invariant Fits(src, dest, L, idx, len, st, r, test, skip)
      invariant Middle(src[..], dest[..], D0, L, idx, len, r, test, skip, avg, x, ti, ri, li, valR, valG, valB)
      decreases len - x
    {
      x, ti, ri, li, valR, valG, valB := MiddleStep(src, dest, len, st, jump, r, test, skip, avg, L, idx, D0,
                                                     x, ti, ri, li, valR, valG, valB);
    }
    MiddleExit(src[..], dest[..], D0, L, idx, len, r, test, skip, avg, x, ti, ri, li, valR, valG, valB);
  }

  /** Leaving the middle loop at x == len - r. */
  lemma {:induction false} MiddleExit(S: seq<bv32>, D: seq<bv32>, D0: seq<bv32>, L: seq<bv32>, idx: seq<int>, len: nat,
                                      r: nat, test: int, skip: nat, avg: Average,
                                      x: int, ti: int, ri: int, li: int, valR: int, valG: int, valB: int)
    requires Middle(S, D, D0, L, idx, len, r, test, skip, avg, x, ti, ri, li, valR, valG, valB) && len - r <= x
    ensures (r > 0 ==> ti == idx[len - r]) && li == idx[len - r - r - 1]
    ensures Acc(L, r, test, skip, len - r, valR, valG, valB)
    ensures Written(D, D0, L, idx, r, test, skip, avg, len - r)
  {
  }

  /** One iteration of the middle loop, for position x. */
  method MiddleStep(src: array<bv32>, dest: array<bv32>, len: nat, st: int, jump: int, r: nat, test: int, skip: nat,
                    avg: Average, ghost L: seq<bv32>, ghost idx: seq<int>, ghost D0: seq<bv32>,
                    x0: int, ti0: int, ri0: int, li0: int, valR0: int, valG0: int, valB0: int)
    returns (x: int, ti: int, ri: int, li: int, valR: int, valG: int, valB: int)
    requires Fits(src, dest, L, idx, len, st, r, test, skip) && Jumps(idx, r, test, skip, jump)
    requires Middle(src[..], dest[..], D0, L, idx, len, r, test, skip, avg, x0, ti0, ri0, li0, valR0, valG0, valB0)
    requires x0 < len - r
    modifies dest
    ensures x0 < x
    ensures Middle(src[..], dest[..], D0, L, idx, len, r, test, skip, avg, x, ti, ri, li, valR, valG, valB)
  {
    x, ti, ri, li := x0, ti0, ri0, li0;
    var col1, col2 := src[ri], src[li];
    valR, valG, valB := Emit(dest, ti, L, idx, D0, r, test, skip, avg, x, col1, col2, valR0, valG0, valB0);
    ri, li, ti := ri + st, li + st, ti + st;
    if x == test {
      SkipStep(dest[..], D0, L, idx, r, test, skip, avg);
      x := x + skip;
      ri, li, ti := ri + jump, li + jump, ti + jump;
    }
    x := x + 1;
    if x0 == test {
      MovedJump(idx, st, jump, x0, x, skip, r);
      AccJump(L, r, test, skip, x0, x, valR, valG, valB);
    } else {
      Moved(idx, st, x0, x, r);
      AccAdvance(L, r, test, skip, x0, x, valR, valG, valB);
    }
  }

  /** The state of the right loop at the head of the iteration for position x. */
  ghost predicate Right(D: seq<bv32>, D0: seq<bv32>, L: seq<bv32>, idx: seq<int>, len: nat,
                        r: nat, test: int, skip: nat, avg: Average,
                        x: int, ti: int, li: int, valR: int, valG: int, valB: int)
  {
    |L| == |idx| == len && 2 * r + 1 <= len && len - r <= x <= len &&
    (x < len ==> ti == idx[x]) && li == idx[x - r - 1] &&
    Acc(L, r, test, skip, x, valR, valG, valB) &&
    Written(D, D0, L, idx, r, test, skip, avg, x)
  }

  /** Positions len-r .. len-1: the pixel entering the window on the right is the replicated
      last pixel. */
  method RightLoop(src: array<bv32>, dest: array<bv32>, len: nat, st: int, r: nat, test: int, skip: nat,
                   avg: Average, ghost L: seq<bv32>, ghost idx: seq<int>, ghost D0: seq<bv32>, last: bv32,
                   ti0: int, li0: int, valR0: int, valG0: int, valB0: int)
    requires Fits(src, dest, L, idx, len, st, r, test, skip) && last == L[len - 1]
    requires (r > 0 ==> ti0 == idx[len - r]) && li0 == idx[len - r - r - 1]
    requires Acc(L, r, test, skip, len - r, valR0, valG0, valB0)
    requires Written(dest[..], D0, L, idx, r, test, skip, avg, len - r)
    modifies dest
    ensures Written(dest[..], D0, L, idx, r, test, skip, avg, len)
  {
    var ti, li, valR, valG, valB := ti0, li0, valR0, valG0, valB0;
    var x := len - r;
    while x < len
      invariant Fits(src, dest, L, idx, len, st, r, test, skip)
      invariant Right(dest[..], D0, L, idx, len, r, test, skip, avg, x, ti, li, valR, valG, valB)
      decreases len - x
    {
      x, ti, li, valR, valG, valB := RightStep(src, dest, len, st, r, test, skip, avg, L, idx, D0, last,
                                               x, ti, li, valR, valG, valB);
    }
  }

  /** One iteration of the right loop, for position x. */
  method RightStep(src: array<bv32>, dest: array<bv32>, len: nat, st: int, r: nat, test: int, skip: nat,
                   avg: Average, ghost L: seq<bv32>, ghost idx: seq<int>, ghost D0: seq<bv32>, last: bv32,
                   x0: int, ti0: int, li0: int, valR0: int, valG0: int, valB0: int)
    returns (x: int, ti: int, li: int, valR: int, valG: int, valB: int)
    requires Fits(src, dest, L, idx, len, st, r, test, skip) && last == L[len - 1]
    requires Right(dest[..], D0, L, idx, len, r, test, skip, avg, x0, ti0, li0, valR0, valG0, valB0) && x0 < len
    modifies dest
    ensures x == x0 + 1
    ensures Right(dest[..], D0, L, idx, len, r, test, skip, avg, x, ti, li, valR, valG, valB)
  {
    var col := src[li0];
    valR, valG, valB := Emit(dest, ti0, L, idx, D0, r, test, skip, avg, x0, last, col, valR0, valG0, valB0);
    li, ti := li0 + st, ti0 + st;
    x := x0 + 1;
    Moved(idx, st, x0, x, r);
    AccAdvance(L, r, test, skip, x0, x, valR, valG, valB);
  }

  /** The body shared by the three loops: `val += entering - leaving` for each channel, then
      the write at cursor `ti` of the destination's alpha byte `valA` and the three averages.
      The left loop's leaving pixel is the first pixel (`fv`), the right loop's entering pixel
      the last (`lv`). */
  method Emit(dest: array<bv32>, ti: int, ghost L: seq<bv32>, ghost idx: seq<int>, ghost D0: seq<bv32>,
              r: nat, test: int, skip: nat, avg: Average, ghost x: int, enter: bv32, leave: bv32,
              valR0: int, valG0: int, valB0: int)
    returns (valR: int, valG: int, valB: int)
    requires 0 <= x < |idx| && ti == idx[x] && Distinct(idx)
    requires Written(dest[..], D0, L, idx, r, test, skip, avg, x)
    requires Acc(L, r, test, skip, x, valR0, valG0, valB0) && !Skipped(|idx|, r, test, skip, x)
    requires enter == L[Clamp(x + r, |L|)] && leave == L[Clamp(x - r - 1, |L|)]
    modifies dest
    ensures valR == valR0 + Ch(enter, Red) - Ch(leave, Red)
    ensures valG == valG0 + Ch(enter, Green) - Ch(leave, Green)
    ensures valB == valB0 + Ch(enter, Blue) - Ch(leave, Blue)
    ensures AccAt(L, r, test, skip, x, valR, valG, valB)
    ensures Written(dest[..], D0, L, idx, r, test, skip, avg, x + 1)
  {
    AccSlide(L, r, test, skip, x, valR0, valG0, valB0, enter, leave);
    valR := valR0 + Ch(enter, Red) - Ch(leave, Red);
    valG := valG0 + Ch(enter, Green) - Ch(leave, Green);
    valB := valB0 + Ch(enter, Blue) - Ch(leave, Blue);
    ghost var before := dest[..];
    var valA := AlphaOf(dest[ti]);
    AccOut(L, r, test, skip, avg, x, valR, valG, valB, dest[ti]);
    dest[ti] := Pack(valA, avg(r, valB), avg(r, valG), avg(r, valR));
    assert dest[..] == before[ti := dest[ti]];
    WriteStep(before, D0, L, idx, r, test, skip, avg, x, dest[ti]);
  }
}
