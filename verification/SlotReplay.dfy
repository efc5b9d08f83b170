/** Spin replay (sdk/slot.ts), proved against the direct meaning of a game specification. */
module SlotReplay {
  import opened Wrappers
  import opened NumberTheory
  import opened Bytes
  import opened Xorshift
  import opened SlotFormat

  const MULTIPLIER_SCALE: nat := 10000

  // ---------------------------------------------------------------- meaning of a spin

  /** The generator state after n draws. */
  function State(seed: Word, n: nat): Word {
    if n == 0 then seed else Next(State(seed, n - 1))
  }

  // The accessors below are total; on an encodable specification their defaults are never used.

  function Nat(x: int): nat {
    if x < 0 then 0 else x
  }

  function Get(s: seq<int>, i: int): nat {
    if 0 <= i < |s| then Nat(s[i]) else 0
  }

  function Row(t: seq<seq<int>>, i: int): seq<int> {
    if 0 <= i < |t| then t[i] else []
  }

  function StopAt(g: SlotGameSpec, seed: Word, col: nat): nat {
    var reel := Row(g.reels, col);
    if reel == [] then 0 else Output(State(seed, col + 1), |reel|)
  }

  function Stops(g: SlotGameSpec, seed: Word): (s: seq<nat>)
    ensures |s| == Nat(g.cols) && forall col :: 0 <= col < |s| ==> s[col] == StopAt(g, seed, col)
  {
    seq(Nat(g.cols), col requires 0 <= col < Nat(g.cols) => StopAt(g, seed, col))
  }

  /** The symbol at a position of a reel, which is a ring. */
  function Ring(strip: seq<int>, at: nat): nat {
    if |strip| == 0 then 0 else Nat(strip[at % |strip|])
  }

  function Column(strip: seq<int>, stop: nat, rows: nat): (c: seq<nat>)
    ensures |c| == rows && forall r :: 0 <= r < rows ==> c[r] == Ring(strip, stop + r)
  {
    seq<nat>(rows, r requires 0 <= r < rows => Ring(strip, stop + r))
  }

  /** The window a spin shows, column by column. */
  function Window(g: SlotGameSpec, seed: Word): (w: seq<seq<nat>>)
    ensures |w| == Nat(g.cols)
    ensures forall col :: 0 <= col < |w| ==> w[col] == Column(Row(g.reels, col), StopAt(g, seed, col), Nat(g.rows))
  {
    seq(Nat(g.cols), col requires 0 <= col < Nat(g.cols) => Column(Row(g.reels, col), StopAt(g, seed, col), Nat(g.rows)))
  }

  function At(w: seq<seq<nat>>, col: int, row: int): nat {
    if 0 <= col < |w| && 0 <= row < |w[col]| then w[col][row] else 0
  }

  /** The symbols a payline crosses. */
  function LineSymbols(w: seq<seq<nat>>, payline: seq<int>): (s: seq<nat>)
    ensures |s| == |w| && forall col :: 0 <= col < |s| ==> s[col] == At(w, col, Get(payline, col))
  {
    seq(|w|, col requires 0 <= col < |w| => At(w, col, Get(payline, col)))
  }

  /** The first n symbols hold no scatter and, wilds aside, one symbol only. */
  ghost predicate Run(s: seq<nat>, wild: nat, scatter: nat, n: nat) {
    && n <= |s|
    && (forall i :: 0 <= i < n ==> s[i] != scatter)
    && (forall i, j :: 0 <= i < n && 0 <= j < n && s[i] != wild && s[j] != wild ==> s[i] == s[j])
  }

  /** The longest run among those of at most n symbols. */
  ghost function Longest(s: seq<nat>, wild: nat, scatter: nat, n: nat): (m: nat)
    requires n <= |s|
    ensures m <= n && Run(s, wild, scatter, m)
  {
    if Run(s, wild, scatter, n) then n else Longest(s, wild, scatter, n - 1)
  }

  /** The symbol a run of n pays for: its first non-wild one, or wild. */
  function PayingSymbol(s: seq<nat>, wild: nat, n: nat): nat
    requires n <= |s|
  {
    if n == 0 then wild else if s[0] != wild then s[0] else PayingSymbol(s[1..], wild, n - 1)
  }

  /** scaleMultiplierRound: base * num / den rounded to the nearest integer, halves up, and nothing for
      a zero denominator. */
  function ScaleRound(base: nat, num: nat, den: nat): (r: nat)
    ensures den == 0 ==> r == 0
    ensures 0 < den ==> 2 * (r * den) - den <= 2 * (base * num) < 2 * (r * den) + den
  {
    if den == 0 then 0 else
      assert den * ((base * num + den / 2) / den) + (base * num + den / 2) % den == base * num + den / 2;
      (base * num + den / 2) / den
  }

  /** Two-stage rounding: truncate by the multiplier scale, then round half up. */
  function Payout(stake: nat, multiplier: nat, num: nat, den: nat): nat {
    ScaleRound(stake * multiplier / MULTIPLIER_SCALE, num, den)
  }

  function MinNat(a: nat, b: nat): nat {
    if a < b then a else b
  }

  /** What `count` matching symbols pay on a stake; fewer than three pay nothing. */
  function Pays(g: SlotGameSpec, stake: nat, symbol: nat, count: nat): nat {
    if count < 3 then 0
    else Payout(stake, Get(Row(g.paytable, symbol), MinNat(count, Nat(g.cols))), Nat(g.scaleNum), Nat(g.scaleDen))
  }

  /** x / 10000 without its fraction. */
  ghost predicate Truncated(base: int, x: int) {
    base * 10000 <= x < (base + 1) * 10000
  }

  /** n / d rounded to the nearest integer, halves up. */
  ghost predicate Nearest(r: int, n: int, d: int) {
    2 * (r * d) - d <= 2 * n < 2 * (r * d) + d
  }

  /** A payout in plain arithmetic: fewer than three symbols or a zero denominator pay nothing; otherwise
      the stake times the paytable entry is truncated to a ten-thousandth, and that times num / den is
      rounded to the nearest integer, halves up. */
  ghost predicate PaidOut(g: SlotGameSpec, stake: nat, symbol: nat, count: nat, win: nat)
    requires symbol < |g.paytable| && 0 <= g.cols < |g.paytable[symbol]|
  {
    if count < 3 || g.scaleDen <= 0 then win == 0
    else
      var multiplier := g.paytable[symbol][if count < g.cols then count else g.cols];
      exists base: nat :: Truncated(base, stake * multiplier) && Nearest(win, base * g.scaleNum, g.scaleDen)
  }

  lemma PaysIsPaidOut(g: SlotGameSpec, stake: nat, symbol: nat, count: nat)
    requires symbol < |g.paytable| && 0 <= g.cols < |g.paytable[symbol]| && 0 <= g.scaleNum
    requires forall j :: 0 <= j < |g.paytable[symbol]| ==> 0 <= g.paytable[symbol][j]
    ensures PaidOut(g, stake, symbol, count, Pays(g, stake, symbol, count))
  {
    if count >= 3 && g.scaleDen > 0 {
      var x := stake * g.paytable[symbol][if count < g.cols then count else g.cols];
      assert Truncated(x / 10000, x);
      assert Nearest(ScaleRound(x / 10000, g.scaleNum, g.scaleDen), x / 10000 * g.scaleNum, g.scaleDen);
    }
  }

  /** No other win meets the law. */
  lemma PaidOutUnique(g: SlotGameSpec, stake: nat, symbol: nat, count: nat, win: nat, win': nat)
    requires symbol < |g.paytable| && 0 <= g.cols < |g.paytable[symbol]|
    requires PaidOut(g, stake, symbol, count, win) && PaidOut(g, stake, symbol, count, win')
    ensures win == win'
  {
    if count >= 3 && g.scaleDen > 0 {
      var x := stake * g.paytable[symbol][if count < g.cols then count else g.cols];
      var b: nat :| Truncated(b, x) && Nearest(win, b * g.scaleNum, g.scaleDen);
      var c: nat :| Truncated(c, x) && Nearest(win', c * g.scaleNum, g.scaleDen);
      TruncatedUnique(b, c, x);
      NearestUnique(win, win', g.scaleDen, b * g.scaleNum);
    }
  }

  lemma TruncatedUnique(b: int, c: int, x: int)
    requires Truncated(b, x) && Truncated(c, x)
    ensures b == c
  {}

  lemma NearestUnique(w: int, v: int, d: int, n: int)
    requires 0 < d && Nearest(w, n, d) && Nearest(v, n, d)
    ensures w == v
  {
    if w < v { MulMono(d, w + 1, v); }
    if v < w { MulMono(d, v + 1, w); }
  }

  ghost function LineWin(g: SlotGameSpec, w: seq<seq<nat>>, bet: nat, payline: seq<int>): nat {
    var s := LineSymbols(w, payline);
    var n := Longest(s, Nat(g.wildIdx), Nat(g.scatterIdx), |s|);
    Pays(g, LineBet(g, bet), PayingSymbol(s, Nat(g.wildIdx), n), n)
  }

  function LineBet(g: SlotGameSpec, bet: nat): nat {
    if |g.paylines| == 0 then 0 else bet / |g.paylines|
  }

  ghost function LineWins(g: SlotGameSpec, w: seq<seq<nat>>, bet: nat, lines: nat): nat {
    if lines == 0 then 0 else LineWins(g, w, bet, lines - 1) + LineWin(g, w, bet, Row(g.paylines, lines - 1))
  }

  function ScattersInRow(w: seq<seq<nat>>, scatter: int, row: nat, cols: nat): nat {
    if cols == 0 then 0 else ScattersInRow(w, scatter, row, cols - 1) + (if At(w, cols - 1, row) == scatter then 1 else 0)
  }

  function Scatters(w: seq<seq<nat>>, scatter: int, rows: nat): nat {
    if rows == 0 then 0 else Scatters(w, scatter, rows - 1) + ScattersInRow(w, scatter, rows - 1, |w|)
  }

  /** All line wins on the line bet plus the scatter win on the full bet. */
  ghost function WindowWin(g: SlotGameSpec, w: seq<seq<nat>>, bet: nat): nat {
    LineWins(g, w, bet, |g.paylines|) + Pays(g, bet, Nat(g.scatterIdx), Scatters(w, g.scatterIdx, Nat(g.rows)))
  }

  /** The direct meaning of a spin. */
  ghost function TotalWin(g: SlotGameSpec, seed: Word, bet: nat): nat {
    WindowWin(g, Window(g, seed), bet)
  }

  // ---------------------------------------------------------------- replay

  lemma PaylineByte(p: SlotSpec, line: nat, col: nat)
    requires Sized(p) && line < p.h.paylinesCount && col < p.h.cols
    ensures 0 <= line * p.h.cols && p.paylinesOff + line * p.h.cols + col < |p.blob|
    ensures p.blob[p.paylinesOff + line * p.h.cols + col] == PaylineTable(p)[line][col]
  {
    CutAt(p.blob[p.paylinesOff..p.paytableOff], p.h.paylinesCount, p.h.cols, line);
  }

  lemma PaytableWord(p: SlotSpec, symbol: nat, count: nat)
    requires Sized(p) && symbol < p.h.symbolCount && count <= p.h.cols
    ensures var at := p.paytableOff + symbol * Stride(p.h.cols) + count * 8;
            0 <= at && at + 8 <= |p.blob| && FromLE(p.blob[at..at + 8]) == PayTable(p)[symbol][count]
  {
    CutAt(p.blob[p.paytableOff..], p.h.symbolCount, Stride(p.h.cols), symbol);
    var raw := RawRows(p)[symbol];
    CutAt(raw, p.h.cols + 1, 8, count);
    var row := symbol * Stride(p.h.cols);
    SubSlice(p.blob, p.paytableOff, |p.blob|, row, row + Stride(p.h.cols));
    assert p.blob[p.paytableOff..|p.blob|] == p.blob[p.paytableOff..];
    var base := p.paytableOff + row;
    SubSlice(p.blob, base, base + Stride(p.h.cols), count * 8, count * 8 + 8);
  }

  /** Specification and artifact agree on everything a payout depends on. */
  ghost predicate SamePays(p: SlotSpec, g: SlotGameSpec) {
    && Sized(p) && g.paytable == PayTable(p) && g.cols == p.h.cols && g.scaleNum == p.h.scaleNum && g.scaleDen == p.h.scaleDen
    && g.wildIdx == p.h.wildIdx < p.h.symbolCount && g.scatterIdx == p.h.scatterIdx < p.h.symbolCount
    && |g.paylines| == p.h.paylinesCount && 0 < p.h.paylinesCount
  }

  /** Reads a multiplier and pays it; a zero multiplier pays nothing, as rounding would. */
  method PayFromBlob(ghost g: SlotGameSpec, p: SlotSpec, stake: nat, symbol: nat, count: nat) returns (win: nat)
    requires SamePays(p, g) && symbol < p.h.symbolCount
    ensures win == Pays(g, stake, symbol, count) && PaidOut(g, stake, symbol, count, win)
  {
    PaysIsPaidOut(g, stake, symbol, count);
    if count < 3 {
      return 0;
    }
    var clamped := MinNat(count, p.h.cols);
    PaytableWord(p, symbol, clamped);
    var at := p.paytableOff + symbol * Stride(p.h.cols) + clamped * 8;
    var multiplier := FromLE(p.blob[at..at + 8]);
    if multiplier == 0 {
      ZeroPays(stake, p.h.scaleNum, p.h.scaleDen);
      return 0;
    }
    win := Payout(stake, multiplier, p.h.scaleNum, p.h.scaleDen);
  }

  lemma ZeroPays(stake: nat, num: nat, den: nat)
    ensures Payout(stake, 0, num, den) == 0
  {
    assert stake * 0 == 0;
    if den > 0 { DivModUnique(den / 2, den, 0, den / 2); }
  }

  /** The scanning loop over a payline: a scatter or a second symbol ends it. */
  method ScanLine(s: seq<nat>, wild: nat, scatter: nat, ghost bound: nat) returns (count: nat, target: int)
    requires forall i :: 0 <= i < |s| ==> s[i] < bound
    ensures count == Longest(s, wild, scatter, |s|)
    ensures (if target == -1 then wild else target) == PayingSymbol(s, wild, count)
    ensures -1 <= target < bound
  {
    target, count := -1, 0;
    for col := 0 to |s|
      invariant count == col && Scanned(s, wild, scatter, col, target) && -1 <= target < bound
    {
      if s[col] == scatter {
        break;
      }
      if s[col] == wild {
        count := count + 1;
        continue;
      }
      if target == -1 {
        target := s[col];
        count := count + 1;
      } else if s[col] == target {
        count := count + 1;
      } else {
        break;
      }
    }
    LongestIs(s, wild, scatter, count, |s|);
    PayingIs(s, wild, count, target);
  }

  /** The loop state: a run so far, whose only non-wild symbol is the target. */
  ghost predicate Scanned(s: seq<nat>, wild: nat, scatter: nat, n: nat, target: int) {
    && n <= |s|
    && (forall i :: 0 <= i < n ==> s[i] != scatter && (s[i] == wild || s[i] == target))
    && (target != -1 ==> target != wild && exists i :: 0 <= i < n && s[i] == target)
  }

  lemma {:induction false} LongestIs(s: seq<nat>, wild: nat, scatter: nat, m: nat, n: nat)
    requires m <= n <= |s| && Run(s, wild, scatter, m)
    requires m == |s| || !Run(s, wild, scatter, m + 1)
    ensures Longest(s, wild, scatter, n) == m
  {
    if n > m {
      LongestIs(s, wild, scatter, m, n - 1);
    }
  }

  lemma {:induction false} PayingIs(s: seq<nat>, wild: nat, n: nat, target: int)
    requires n <= |s| && forall i :: 0 <= i < n ==> s[i] == wild || s[i] == target
    requires target != -1 ==> target != wild && exists i :: 0 <= i < n && s[i] == target
    ensures PayingSymbol(s, wild, n) == if target == -1 then wild else target
  {
    if n > 0 && s[0] == wild {
      if target != -1 {
        var i :| 0 <= i < n && s[i] == target;
        assert s[1..][i - 1] == target;
      }
      PayingIs(s[1..], wild, n - 1, target);
    }
  }

  /** The grid shows the first `cols` columns of the window. */
  ghost predicate Shows(grid: array2<nat>, w: seq<seq<nat>>, cols: nat)
    reads grid
  {
    && cols <= |w| == grid.Length1
    && (forall c :: 0 <= c < |w| ==> |w[c]| == grid.Length0)
    && (forall r, c :: 0 <= r < grid.Length0 && 0 <= c < cols ==> grid[r, c] == w[c][r])
  }

  /** One column of the window. */
  method FillColumn(strip: bytes, grid: array2<nat>, col: nat, stop: nat)
    requires col < grid.Length1 && 0 < |strip|
    modifies grid
    ensures forall r :: 0 <= r < grid.Length0 ==> grid[r, col] == Column(strip, stop, grid.Length0)[r]
    ensures forall r, c :: 0 <= r < grid.Length0 && 0 <= c < grid.Length1 && c != col ==> grid[r, c] == old(grid[r, c])
  {
    for row := 0 to grid.Length0
      invariant forall r :: 0 <= r < row ==> grid[r, col] == Column(strip, stop, grid.Length0)[r]
      invariant forall r, c :: 0 <= r < grid.Length0 && 0 <= c < grid.Length1 && c != col ==> grid[r, c] == old(grid[r, c])
    {
      grid[row, col] := strip[(stop + row) % |strip|];
    }
  }

  method ShowColumn(ghost w: seq<seq<nat>>, strip: bytes, grid: array2<nat>, col: nat, stop: nat)
    requires Shows(grid, w, col) && col < |w| && 0 < |strip| && w[col] == Column(strip, stop, grid.Length0)
    modifies grid
    ensures Shows(grid, w, col + 1)
  {
    FillColumn(strip, grid, col, stop);
  }

  lemma ColumnOnStrip(g: SlotGameSpec, seed: Word, col: nat, strip: bytes)
    requires col < |g.reels| && g.cols == |g.reels| && g.reels[col] == strip && 0 < |strip|
    ensures StopAt(g, seed, col) == Output(State(seed, col + 1), |strip|)
    ensures Window(g, seed)[col] == Column(strip, StopAt(g, seed, col), Nat(g.rows))
  {}

  lemma WindowShape(g: SlotGameSpec, seed: Word, w: seq<seq<nat>>)
    requires w == Window(g, seed)
    ensures |w| == Nat(g.cols) && forall c :: 0 <= c < |w| ==> |w[c]| == Nat(g.rows)
  {}

  /** The first `col` stops have been drawn. */
  ghost predicate Drawn(g: SlotGameSpec, seed: Word, col: nat, state: Word, stops: seq<nat>) {
    state == State(seed, col) && col <= Nat(g.cols) && stops == Stops(g, seed)[..col]
  }

  /** Draws one stop. */
  method DrawStop(ghost g: SlotGameSpec, ghost seed: Word, strip: bytes, ghost col: nat, state: Word, ghost stops: seq<nat>)
    returns (state': Word, stop: nat)
    requires col < |g.reels| && g.cols == |g.reels| && g.reels[col] == strip && 0 < |strip|
    requires Drawn(g, seed, col, state, stops)
    ensures Drawn(g, seed, col + 1, state', stops + [stop])
    ensures Window(g, seed)[col] == Column(strip, stop, Nat(g.rows))
  {
    ColumnOnStrip(g, seed, col, strip);
    state' := Next(state);
    stop := Output(state', |strip|);
    PrefixSnoc(Stops(g, seed), col);
  }

  /** The window the spin shows, and the stops. */
  method FillGrid(ghost g: SlotGameSpec, reels: seq<bytes>, rows: nat, seed: Word) returns (grid: array2<nat>, stops: seq<nat>)
    requires g.reels == reels && g.cols == |reels| && g.rows == rows
    requires forall i :: 0 <= i < |reels| ==> 0 < |reels[i]|
    ensures fresh(grid) && grid.Length0 == rows && grid.Length1 == |reels|
    ensures stops == Stops(g, seed) && Shows(grid, Window(g, seed), |reels|)
  {
    grid := new nat[rows, |reels|]((_, _) => 0);
    var state := seed;
    stops := [];
    ghost var w := Window(g, seed);
    WindowShape(g, seed, w);
    for col := 0 to |reels|
      invariant Drawn(g, seed, col, state, stops)
      invariant Shows(grid, w, col)
    {
      var next, stop := DrawStop(g, seed, reels[col], col, state, stops);
      ShowColumn(w, reels[col], grid, col, stop);
      state, stops := next, stops + [stop];
    }
  }

  ghost predicate CellsBelow(w: seq<seq<nat>>, symbolCount: nat) {
    forall c, r :: 0 <= c < |w| && 0 <= r < |w[c]| ==> w[c][r] < symbolCount
  }

  lemma RingBelow(strip: seq<int>, symbolCount: nat, at: nat)
    requires ReelFits(strip, symbolCount)
    ensures Ring(strip, at) < symbolCount
  {}

  lemma WindowBelow(g: SlotGameSpec, seed: Word, symbolCount: nat)
    requires g.cols == |g.reels| && forall c :: 0 <= c < |g.reels| ==> ReelFits(g.reels[c], symbolCount)
    ensures CellsBelow(Window(g, seed), symbolCount)
  {
    var w := Window(g, seed);
    forall c, r | 0 <= c < |w| && 0 <= r < |w[c]|
      ensures w[c][r] < symbolCount
    {
      RingBelow(g.reels[c], symbolCount, StopAt(g, seed, c) + r);
    }
  }

  /** The symbols a payline crosses, read through the blob's row indices. */
  method ReadLine(ghost w: seq<seq<nat>>, p: SlotSpec, grid: array2<nat>, line: nat) returns (s: seq<nat>)
    requires Sized(p) && line < p.h.paylinesCount && AllBelow(PaylineTable(p)[line], p.h.rows)
    requires grid.Length0 == p.h.rows && grid.Length1 == p.h.cols && Shows(grid, w, p.h.cols)
    ensures s == LineSymbols(w, PaylineTable(p)[line])
  {
    s := [];
    ghost var payline := PaylineTable(p)[line];
    for col := 0 to p.h.cols
      invariant s == LineSymbols(w, payline)[..col]
    {
      PaylineByte(p, line, col);
      var row: nat := p.blob[p.paylinesOff + line * p.h.cols + col];
      assert row == Get(payline, col);
      PrefixSnoc(LineSymbols(w, payline), col);
      s := s + [grid[row, col]];
    }
  }

  lemma LineBelow(w: seq<seq<nat>>, payline: seq<int>, symbolCount: nat)
    requires CellsBelow(w, symbolCount) && 0 < symbolCount
    ensures forall i :: 0 <= i < |w| ==> LineSymbols(w, payline)[i] < symbolCount
  {}

  method CountScatters(ghost w: seq<seq<nat>>, grid: array2<nat>, scatterIdx: nat) returns (count: nat)
    requires Shows(grid, w, grid.Length1)
    ensures count == Scatters(w, scatterIdx, grid.Length0)
  {
    count := 0;
    for row := 0 to grid.Length0
      invariant count == Scatters(w, scatterIdx, row)
    {
      for col := 0 to grid.Length1
        invariant count == Scatters(w, scatterIdx, row) + ScattersInRow(w, scatterIdx, row, col)
      {
        if grid[row, col] == scatterIdx {
          count := count + 1;
        }
      }
    }
  }

  /** The header and table facts replay relies on. */
  ghost predicate Replayable(p: SlotSpec, g: SlotGameSpec) {
    && SamePays(p, g) && |p.reels| == p.h.cols && p.h.rows == g.rows
    && g.reels == p.reels && g.paylines == PaylineTable(p)
    && (forall i :: 0 <= i < |p.reels| ==> ReelFits(p.reels[i], p.h.symbolCount))
    && (forall i :: 0 <= i < p.h.paylinesCount ==> AllBelow(PaylineTable(p)[i], p.h.rows))
  }

  lemma ParsedReplayable(p: SlotSpec)
    requires Parsed(p)
    ensures Replayable(p, SpecOf(p))
  {
    SpecTablesOk(p);
  }

  method EvaluateLine(ghost g: SlotGameSpec, ghost w: seq<seq<nat>>, p: SlotSpec, bet: nat, grid: array2<nat>, line: nat)
    returns (win: nat)
    requires SamePays(p, g) && line < p.h.paylinesCount && CellsBelow(w, p.h.symbolCount)
    requires AllBelow(PaylineTable(p)[line], p.h.rows)
    requires grid.Length0 == p.h.rows && grid.Length1 == p.h.cols && Shows(grid, w, p.h.cols)
    ensures win == LineWin(g, w, bet, PaylineTable(p)[line])
  {
    var s := ReadLine(w, p, grid, line);
    LineBelow(w, PaylineTable(p)[line], p.h.symbolCount);
    win := PayLine(g, p, bet, s);
  }

  /** What the symbols of one line pay. */
  method PayLine(ghost g: SlotGameSpec, p: SlotSpec, bet: nat, s: seq<nat>) returns (win: nat)
    requires SamePays(p, g) && forall i :: 0 <= i < |s| ==> s[i] < p.h.symbolCount
    ensures var n := Longest(s, Nat(g.wildIdx), Nat(g.scatterIdx), |s|);
            win == Pays(g, LineBet(g, bet), PayingSymbol(s, Nat(g.wildIdx), n), n)
  {
    var count, target := ScanLine(s, p.h.wildIdx, p.h.scatterIdx, p.h.symbolCount);
    win := PayFromBlob(g, p, bet / p.h.paylinesCount, if target == -1 then p.h.wildIdx else target, count);
  }

  datatype Spin = Spin(totalWin: nat, stops: seq<nat>)

  function Seed(randomness: bytes): Word
    requires 8 <= |randomness|
  {
    FromNat(FromLE(randomness[..8]), WIDTH)
  }

  /** The generator starts from the first eight bytes of the randomness, least significant first. */
  lemma SeedValue(r: bytes)
    requires 8 <= |r|
    ensures Value(Seed(r)) == (r[0] as int) + 0x100 * (r[1] as int) + 0x1_0000 * (r[2] as int) + 0x100_0000 * (r[3] as int)
              + 0x1_0000_0000 * (r[4] as int) + 0x100_0000_0000 * (r[5] as int)
              + 0x1_0000_0000_0000 * (r[6] as int) + 0x100_0000_0000_0000 * (r[7] as int)
  {
    var s := r[..8];
    assert FromLE(s[8..]) == 0;
    FromLEStep(s, 7);
    FromLEStep(s, 6);
    FromLEStep(s, 5);
    FromLEStep(s, 4);
    FromLEStep(s, 3);
    FromLEStep(s, 2);
    FromLEStep(s, 1);
    FromLEStep(s, 0);
    assert s[0..] == s;
    WordValues();
    ValueOfFromNat(FromLE(s), WIDTH);
  }

  lemma FromLEStep(s: bytes, i: nat)
    requires i < |s|
    ensures FromLE(s[i..]) == s[i] + 256 * FromLE(s[i + 1..])
  {
    assert s[i..][1..] == s[i + 1..];
  }

  /** replaySpin: interpreting the blob gives the stops and the win of the specification the blob
      stands for. */
  method ReplaySpin(p: SlotSpec, randomness: bytes, bet: nat) returns (r: Result<Spin>)
    requires Parsed(p)
    ensures r.Ok? <==> |randomness| == 32
    ensures r.Ok? ==> r.value == Spin(TotalWin(SpecOf(p), Seed(randomness), bet), Stops(SpecOf(p), Seed(randomness)))
  {
    if |randomness| != 32 {
      return Err;
    }
    ParsedReplayable(p);
    var seed := Seed(randomness);
    var win, stops := Evaluate(SpecOf(p), p, seed, bet);
    r := Ok(Spin(win, stops));
  }

  method Evaluate(ghost g: SlotGameSpec, p: SlotSpec, seed: Word, bet: nat) returns (totalWin: nat, stops: seq<nat>)
    requires Replayable(p, g)
    ensures totalWin == TotalWin(g, seed, bet) && stops == Stops(g, seed)
  {
    assert forall i :: 0 <= i < |p.reels| ==> ReelFits(p.reels[i], p.h.symbolCount);
    var grid, ss := FillGrid(g, p.reels, p.h.rows, seed);
    stops := ss;
    ghost var w := Window(g, seed);
    WindowBelow(g, seed, p.h.symbolCount);
    totalWin := EvaluateWindow(g, w, p, grid, bet);
  }

  /** Every payline stays within the rows of the window. */
  ghost predicate LinesFit(p: SlotSpec)
    requires Sized(p)
  {
    forall i :: 0 <= i < p.h.paylinesCount ==> LineFits(p, i)
  }

  ghost predicate LineFits(p: SlotSpec, i: nat)
    requires Sized(p) && i < p.h.paylinesCount
  {
    AllBelow(PaylineTable(p)[i], p.h.rows)
  }

  /** The wins of the window in the grid. */
  method EvaluateWindow(ghost g: SlotGameSpec, ghost w: seq<seq<nat>>, p: SlotSpec, grid: array2<nat>, bet: nat)
    returns (totalWin: nat)
    requires SamePays(p, g) && p.h.rows == g.rows && CellsBelow(w, p.h.symbolCount)
    requires g.paylines == PaylineTable(p) && LinesFit(p)
    requires grid.Length0 == p.h.rows && grid.Length1 == p.h.cols && Shows(grid, w, p.h.cols)
    ensures totalWin == WindowWin(g, w, bet)
  {
    totalWin := 0;
    for line := 0 to p.h.paylinesCount
      invariant totalWin == LineWins(g, w, bet, line)
    {
      assert LineFits(p, line);
      var win := EvaluateLine(g, w, p, bet, grid, line);
      totalWin := totalWin + win;
    }
    var scatters := CountScatters(w, grid, p.h.scatterIdx);
    var scatterWin := PayFromBlob(g, p, bet, p.h.scatterIdx, scatters);
    totalWin := totalWin + scatterWin;
  }

  ghost predicate Accepted(g: SlotGameSpec) {
    Encodable(g) && |Layout(g)| <= MAX_SLOT_ARTIFACT_BYTES && IndicesSurvive(g)
  }

  /** Encode, then parse: the result stands for the specification with its indices reduced to bytes. */
  method EncodeAndParse(g: SlotGameSpec) returns (r: Result<SlotSpec>)
    ensures r.Ok? <==> Accepted(g)
    ensures r.Ok? ==> Parsed(r.value) && SpecOf(r.value) == Wrapped(g)
  {
    var blob := Encode(g);
    if blob.Err? {
      return Err;
    }
    EncodingStandsFor(g);
    r := Parse(blob.value);
    if r.Ok? { ParsedIndices(r.value, g); }
  }

  ghost function SpinOf(g: SlotGameSpec, randomness: bytes, bet: nat): Spin
    requires 8 <= |randomness|
  {
    Spin(TotalWin(g, Seed(randomness), bet), Stops(g, Seed(randomness)))
  }

  lemma NothingWrapped(g: SlotGameSpec)
    requires Encodable(g) && 0 <= g.wildIdx && 0 <= g.scatterIdx
    ensures Wrapped(g) == g
  {}

  /** Encode, parse and replay in a row. Spins come out exactly for encodable specifications of at
      most 8192 bytes whose index bytes are in range, on 32 bytes of randomness; and they are the stops
      and the win of evaluating the specification directly, its indices reduced to bytes. */
  method EncodeAndSpin(g: SlotGameSpec, randomness: bytes, bet: nat) returns (r: Result<Spin>)
    ensures r.Ok? <==> Accepted(g) && |randomness| == 32
    ensures r.Ok? ==> r.value == SpinOf(Wrapped(g), randomness, bet)
    ensures r.Ok? && 0 <= g.wildIdx && 0 <= g.scatterIdx ==> r.value == SpinOf(g, randomness, bet)
  {
    var p := EncodeAndParse(g);
    if p.Err? {
      return Err;
    }
    r := ReplaySpin(p.value, randomness, bet);
    if 0 <= g.wildIdx && 0 <= g.scatterIdx { NothingWrapped(g); }
  }

  /** maxWinCap: bet * maxWinMultiplier / 10000 rounded to the nearest integer, halves up. */
  function MaxWinCap(bet: nat, maxWinMultiplier: nat): (cap: nat)
    ensures cap * 10000 - 5000 <= bet * maxWinMultiplier < cap * 10000 + 5000
  {
    (bet * maxWinMultiplier + MULTIPLIER_SCALE / 2) / MULTIPLIER_SCALE
  }
}
