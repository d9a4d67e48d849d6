/**
 * What the generated program does when it runs: the setup code loads the anchors into
 * physical cells 1..n (working cell k is physical cell k + 1, cell 0 counts the loop),
 * and each byte's chunk prints that byte. Together: the program prints the text.
 */
module RoundTrip {
  import opened Commands
  import opened Machine
  import opened Encoding
  import opened Wrappers

  /** The tape mirrors the converter's bookkeeping: pointer and cell values. */
  predicate Matches(st: State, cells: seq<int>, pointer: int) {
    st.ptr == pointer + 1 &&
    forall k :: 0 <= k < |cells| ==> Cell(st, k + 1) == cells[k]
  }

  /** The setup loop after `step - c` passes: counter `c`, cell `i` holding `(step - c) * i`. */
  predicate LoopState(st: State, n: nat, step: int, c: int) {
    st.ptr == 0 && st.out == [] && Cell(st, 0) == c &&
    forall i :: 1 <= i <= n ==> Cell(st, i) == (step - c) * i
  }

  /** The last group of the loop body: one step right, then `m` increments there. */
  lemma LoopBodyTail(m: nat, st: State, fuel: nat)
    requires m > 0 && 0 <= Cell(st, st.ptr + 1) && Cell(st, st.ptr + 1) + m <= 255
    ensures Run([IncPtr] + Rep(IncVal, m), st, fuel) ==
      Some(Store(st.(ptr := st.ptr + 1), Cell(st, st.ptr + 1) + m))
  {
    RunPlainAppend([IncPtr], Rep(IncVal, m), st, fuel);
    var s := st.(ptr := st.ptr + 1);
    assert Run([IncPtr], st, fuel) == Some(s);
    RunIncVal(m, s, fuel);
  }

  /** Writing `m` more into cell `p + m` extends the ramp `p + 1 .. p + m - 1` by that cell. */
  lemma RampStep(m: nat, p: int, st: State, s1: State)
    requires m > 0
    requires forall j :: Cell(s1, j) == Cell(st, j) + (if p < j <= p + m - 1 then j - p else 0)
    ensures var s3 := Store(s1.(ptr := p + m), Cell(st, p + m) + m);
      forall j :: Cell(s3, j) == Cell(st, j) + (if p < j <= p + m then j - p else 0)
  {
    var s3 := Store(s1.(ptr := p + m), Cell(st, p + m) + m);
    forall j ensures Cell(s3, j) == Cell(st, j) + (if p < j <= p + m then j - p else 0) {
      if j != p + m {
        assert Cell(s3, j) == Cell(s1, j);
      }
    }
  }

  /** One pass of the loop body adds `i` to the cell `i` places to the right. */
  lemma {:induction false} LoopBodyRun(m: nat, st: State, fuel: nat)
    requires forall j :: st.ptr < j <= st.ptr + m ==> 0 <= Cell(st, j) && Cell(st, j) + (j - st.ptr) <= 255
    ensures var r := Run(LoopBody(m), st, fuel);
      r.Some? && r.value.ptr == st.ptr + m && r.value.out == st.out &&
      forall j :: Cell(r.value, j) == Cell(st, j) + (if st.ptr < j <= st.ptr + m then j - st.ptr else 0)
  {
    if m > 0 {
      var p := st.ptr;
      LoopBodyOnly(m - 1);
      assert Plain(LoopBody(m - 1));
      RunPlainAppend(LoopBody(m - 1), [IncPtr] + Rep(IncVal, m), st, fuel);
      LoopBodyRun(m - 1, st, fuel);
      var s1 := Run(LoopBody(m - 1), st, fuel).value;
      LoopBodyTail(m, s1, fuel);
      RampStep(m, p, st, s1);
    }
  }

  lemma LoopHeadroom(n: nat, step: int, c: int, i: int)
    requires 1 <= i <= n && 0 < c <= step && step * (n + 1) <= 127
    ensures 0 <= (step - c) * i && (step - c) * i + i <= 127
  {
    MulMono(0, step - c, i);
    MulMono(step - c + 1, step, i);
    MulMono(i, n, step);
    assert (step - c) * i + i == (step - c + 1) * i;
    assert step * (n + 1) == n * step + step;
  }

  /** One pass of the setup loop: every working cell gains its index, the counter loses one. */
  lemma InnerRun(n: nat, step: int, c: int, st: State, fuel: nat)
    requires LoopState(st, n, step, c) && 0 < c <= step && step * (n + 1) <= 127
    ensures var r := Run(Inner(n), st, fuel); r.Some? && LoopState(r.value, n, step, c - 1)
  {
    forall j | 0 < j <= n ensures 0 <= Cell(st, j) && Cell(st, j) + j <= 255 {
      LoopHeadroom(n, step, c, j);
    }
    LoopBodyRun(n, st, fuel);
    var s1 := Run(LoopBody(n), st, fuel).value;
    LoopBodyOnly(n);
    assert Plain(LoopBody(n));
    assert Inner(n) == LoopBody(n) + (Rep(DecPtr, n) + [DecVal]);
    RunPlainAppend(LoopBody(n), Rep(DecPtr, n) + [DecVal], st, fuel);
    assert LoopBegin !in Rep(DecPtr, n) && LoopEnd !in Rep(DecPtr, n);
    RunPlainAppend(Rep(DecPtr, n), [DecVal], s1, fuel);
    RunDecPtr(n, s1, fuel);
    var s2 := s1.(ptr := 0);
    assert Cell(s2, 0) == c;
    var s3 := Store(s2, c - 1);
    assert Run([DecVal], s2, fuel) == Some(s3);
    forall i | 1 <= i <= n ensures Cell(s3, i) == (step - (c - 1)) * i {
      assert Cell(s3, i) == Cell(s2, i) == Cell(s1, i) == Cell(st, i) + i;
      assert (step - c) * i + i == (step - (c - 1)) * i;
    }
  }

  /** The whole setup loop: after `c` more passes the counter is 0 and cell `i` holds `step * i`. */
  lemma {:induction false} LoopRun(n: nat, step: int, c: int, st: State, fuel: nat)
    requires LoopState(st, n, step, c) && 0 <= c <= step && step * (n + 1) <= 127 && fuel >= c
    ensures var r := Loop(Inner(n), st, fuel); r.Some? && LoopState(r.value, n, step, 0)
    decreases c
  {
    if c > 0 {
      InnerRun(n, step, c, st, fuel - 1);
      var s := Run(Inner(n), st, fuel - 1).value;
      LoopRun(n, step, c - 1, s, fuel - 1);
    }
  }

  /** The state the setup code leaves: counter 0, the anchors in cells 1..n, the pointer on cell 1. */
  predicate SetupDone(st: State, n: int)
    requires n >= 1
  {
    Matches(st, Anchors(n), 0) && Cell(st, 0) == 0 && st.out == []
  }

  /** The increments before the loop put `step` into the counter cell. */
  lemma CounterRun(n: int, fuel: nat)
    requires n >= 1
    ensures var r := Run(Rep(IncVal, StepSize(n)), Init, fuel);
      r.Some? && LoopState(r.value, n, StepSize(n), StepSize(n))
  {
    var step := StepSize(n);
    StepBound(n);
    if step > 0 {
      RunIncVal(step, Init, fuel);
    }
  }

  lemma SetupSplit(n: int, tail: seq<Cmd>)
    requires n >= 1
    ensures SetupCode(n) + tail ==
      Rep(IncVal, StepSize(n)) + ([LoopBegin] + Inner(n) + [LoopEnd] + ([IncPtr] + tail))
  {
    var inc, inner := Rep(IncVal, StepSize(n)), Inner(n);
    calc {
      SetupCode(n) + tail;
      inc + [LoopBegin] + inner + [LoopEnd, IncPtr] + tail;
      { assert [LoopEnd, IncPtr] + tail == [LoopEnd] + ([IncPtr] + tail); }
      inc + ([LoopBegin] + inner + [LoopEnd] + ([IncPtr] + tail));
    }
  }

  /** The setup code followed by straight-line code `tail`, given how its two parts run. */
  lemma SetupThen(n: int, tail: seq<Cmd>, fuel: nat, s1: State, s2: State)
    requires n >= 1 && Plain(tail)
    requires Run(Rep(IncVal, StepSize(n)), Init, fuel) == Some(s1)
    requires Loop(Inner(n), s1, fuel) == Some(s2)
    ensures Run(SetupCode(n) + tail, Init, fuel) == Run(tail, s2.(ptr := s2.ptr + 1), fuel)
  {
    var inc := Rep(IncVal, StepSize(n));
    var after := [IncPtr] + tail;
    var block := [LoopBegin] + Inner(n) + [LoopEnd] + after;
    assert LoopBegin !in inc && LoopEnd !in inc;
    SetupShape(n);
    calc {
      Run(SetupCode(n) + tail, Init, fuel);
      { SetupSplit(n, tail); }
      Run(inc + block, Init, fuel);
      { RunPlainAppend(inc, block, Init, fuel); }
      Run(block, s1, fuel);
      { RunLoopBlock(Inner(n), after, s1, fuel); }
      Run(after, s2, fuel);
      { RunPlainAppend([IncPtr], tail, s2, fuel);
        RunIncPtr(1, s2, fuel);
        assert Rep(IncPtr, 1) == [IncPtr]; }
      Run(tail, s2.(ptr := s2.ptr + 1), fuel);
    }
  }

  /** When the loop stops, one step right puts the pointer on working cell 0 over the anchor table. */
  lemma LoopDone(n: int, st: State)
    requires n >= 1 && LoopState(st, n, StepSize(n), 0)
    ensures SetupDone(st.(ptr := st.ptr + 1), n)
  {
    var s := st.(ptr := st.ptr + 1);
    forall k | 0 <= k < n ensures Cell(s, k + 1) == Anchors(n)[k] {
      assert Cell(s, k + 1) == Cell(st, k + 1) == (StepSize(n) - 0) * (k + 1);
    }
  }

  /**
   * The setup code runs (its loop repeats `step` times, within `fuel`), leaves the anchor
   * table on the tape, and the straight-line code after it continues from there.
   */
  lemma SetupRun(n: int, rest: seq<Cmd>, fuel: nat)
    requires n >= 1 && fuel >= StepSize(n) && Plain(rest)
    ensures var r := Run(SetupCode(n), Init, fuel);
      r.Some? && SetupDone(r.value, n) &&
      Run(SetupCode(n) + rest, Init, fuel) == Run(rest, r.value, fuel)
  {
    var step := StepSize(n);
    StepBound(n);
    CounterRun(n, fuel);
    var s1 := Run(Rep(IncVal, step), Init, fuel).value;
    LoopRun(n, step, step, s1, fuel);
    var s2 := Loop(Inner(n), s1, fuel).value;
    SetupThen(n, rest, fuel, s1, s2);
    SetupThen(n, [], fuel, s1, s2);
    assert SetupCode(n) + [] == SetupCode(n);
    LoopDone(n, s2);
  }

  /** The moves of a chunk shift the tape pointer from working cell `p` to working cell `k`. */
  lemma MoveRun(p: int, k: int, st: State, fuel: nat)
    ensures Run(MoveCode(p, k), st, fuel) == Some(st.(ptr := st.ptr + (k - p)))
  {
    if k < p {
      RunDecPtr(p - k, st, fuel);
    } else {
      RunIncPtr(k - p, st, fuel);
    }
  }

  /** The value changes of a chunk turn a cell holding `v` into one holding `b`, through bytes only. */
  lemma ChangeRun(v: int, b: Byte, st: State, fuel: nat)
    requires Cell(st, st.ptr) == v && 0 <= v <= 255
    ensures var r := Run(ChangeCode(v, b), st, fuel);
      r.Some? && r.value.ptr == st.ptr && r.value.out == st.out &&
      forall j :: Cell(r.value, j) == if j == st.ptr then b else Cell(st, j)
  {
    if b > v {
      RunIncVal(b - v, st, fuel);
    } else if b < v {
      RunDecVal(v - b, st, fuel);
    }
  }

  /** A chunk is its moves, then its value changes and the output, neither part holding a bracket. */
  lemma ChunkSplit(cells: seq<int>, p: int, b: Byte)
    requires |cells| > 0
    ensures var k := Nearest(cells, b); var move, change := MoveCode(p, k), ChangeCode(cells[k], b);
      Chunk(cells, p, b) == move + (change + [Output]) && Plain(move) && Plain(change)
  {
    var k := Nearest(cells, b);
    var move, change := MoveCode(p, k), ChangeCode(cells[k], b);
    assert Chunk(cells, p, b) == move + (change + [Output]);
    assert LoopBegin !in move && LoopEnd !in move;
    assert LoopBegin !in change && LoopEnd !in change;
  }

  /** Overwriting working cell `k` on the tape keeps the tape matching the updated cell values. */
  lemma MatchesAfterStore(cells: seq<int>, k: int, b: int, st: State, s2: State)
    requires 0 <= k < |cells| && Matches(st, cells, k)
    requires s2.ptr == st.ptr && forall j :: Cell(s2, j) == if j == st.ptr then b else Cell(st, j)
    ensures Matches(s2, cells[k := b], k)
  {
    var cells' := cells[k := b];
    forall j | 0 <= j < |cells| ensures Cell(s2, j + 1) == cells'[j] {
    }
  }

  /** The value changes and the output of a chunk: the cell becomes the byte, which is printed. */
  lemma ChangeOutputRun(v: int, b: Byte, st: State, fuel: nat)
    requires Cell(st, st.ptr) == v && 0 <= v <= 255
    ensures var r := Run(ChangeCode(v, b) + [Output], st, fuel);
      r.Some? && r.value.ptr == st.ptr && r.value.out == st.out + [b] &&
      forall j :: Cell(r.value, j) == if j == st.ptr then b else Cell(st, j)
  {
    var change := ChangeCode(v, b);
    assert LoopBegin !in change && LoopEnd !in change;
    RunPlainAppend(change, [Output], st, fuel);
    ChangeRun(v, b, st, fuel);
    var s2 := Run(change, st, fuel).value;
    assert Run([Output], s2, fuel) == Some(s2.(out := s2.out + [b]));
  }

  /** Each byte's chunk moves to the chosen cell, sets it to the byte and prints it. */
  lemma ChunkRun(cells: seq<int>, p: int, b: Byte, st: State, fuel: nat)
    requires WellFormed(Emission([], cells, p)) && Matches(st, cells, p)
    ensures var k := Nearest(cells, b); var r := Run(Chunk(cells, p, b), st, fuel);
      r.Some? && Matches(r.value, cells[k := b], k) && r.value.out == st.out + [b]
  {
    var k := Nearest(cells, b);
    var move, rest := MoveCode(p, k), ChangeCode(cells[k], b) + [Output];
    ChunkSplit(cells, p, b);
    RunPlainAppend(move, rest, st, fuel);
    MoveRun(p, k, st, fuel);
    var s1 := st.(ptr := k + 1);
    ChangeOutputRun(cells[k], b, s1, fuel);
    var s2 := Run(rest, s1, fuel).value;
    MatchesAfterStore(cells, k, b, s1, s2);
  }

  /** Output followed by a non-empty text is the output followed by its prefix, then its last byte. */
  lemma AppendLast(out: seq<int>, text: seq<Byte>)
    requires text != []
    ensures out + text == (out + text[..|text| - 1]) + [text[|text| - 1]]
  {
    assert text == text[..|text| - 1] + [text[|text| - 1]];
  }

  /** Appending one byte's chunk to code that leaves the tape matching `p` prints that byte. */
  lemma ChunksStep(p: Emission, b: Byte, st: State, fuel: nat)
    requires WellFormed(p) && Plain(p.code)
    requires var r := Run(p.code, st, fuel); r.Some? && Matches(r.value, p.cells, p.pointer)
    ensures var f := EmitByte(p, b); var r := Run(f.code, st, fuel);
      r.Some? && Matches(r.value, f.cells, f.pointer) && r.value.out == Run(p.code, st, fuel).value.out + [b]
  {
    RunPlainAppend(p.code, Chunk(p.cells, p.pointer, b), st, fuel);
    var s := Run(p.code, st, fuel).value;
    assert WellFormed(Emission([], p.cells, p.pointer));
    ChunkRun(p.cells, p.pointer, b, s, fuel);
  }

  /** The induction step of `ChunksRun`: the last byte of `text` is printed after the others. */
  lemma ChunksLast(e: Emission, text: seq<Byte>, st: State, fuel: nat)
    requires e.code == [] && WellFormed(e) && text != []
    requires var p := EmitAll(e, text[..|text| - 1]); var r := Run(p.code, st, fuel);
      r.Some? && Matches(r.value, p.cells, p.pointer) && r.value.out == st.out + text[..|text| - 1]
    ensures var f := EmitAll(e, text); var r := Run(f.code, st, fuel);
      r.Some? && Matches(r.value, f.cells, f.pointer) && r.value.out == st.out + text
  {
    var t, b := text[..|text| - 1], text[|text| - 1];
    var p := EmitAll(e, t);
    EmitAllShape(e, t);
    EmitAllWellFormed(e, t);
    ChunksStep(p, b, st, fuel);
    AppendLast(st.out, text);
  }

  /** The bytes' code prints the bytes, and afterwards the tape still mirrors the bookkeeping. */
  lemma {:induction false} ChunksRun(e: Emission, text: seq<Byte>, st: State, fuel: nat)
    requires e.code == [] && WellFormed(e) && Matches(st, e.cells, e.pointer)
    ensures var f := EmitAll(e, text); var r := Run(f.code, st, fuel);
      r.Some? && Matches(r.value, f.cells, f.pointer) && r.value.out == st.out + text
  {
    if text == [] {
      assert st.out + text == st.out;
    } else {
      ChunksRun(e, text[..|text| - 1], st, fuel);
      ChunksLast(e, text, st, fuel);
    }
  }

  /**
   * Round trip: the generated program prints exactly the input bytes, no cell ever leaves
   * 0..255 on the way, and the tape ends as the converter's cell values and pointer say.
   */
  lemma RoundTrip(text: seq<Byte>, n: int, fuel: nat)
    requires n >= 1 && fuel >= StepSize(n)
    ensures Outputs(Encoded(text, n).code, fuel) == Some(text)
    ensures var e := Encoded(text, n); var r := Run(e.code, Init, fuel);
      r.Some? && Matches(r.value, e.cells, e.pointer)
  {
    var e0 := Emission([], Anchors(n), 0);
    assert Start(n).(code := []) == e0;
    EmitAllAppends(Start(n), text);
    EmitAllShape(e0, text);
    var chunks := EmitAll(e0, text).code;
    SetupRun(n, chunks, fuel);
    var s := Run(SetupCode(n), Init, fuel).value;
    AnchorTable(n);
    ChunksRun(e0, text, s, fuel);
    assert [] + text == text;
  }

  /** What a successful conversion leaves: a program that prints the text, the pointer on a working cell. */
  lemma Converted(text: seq<Byte>, n: int)
    requires n >= 1
    ensures Outputs(Encoded(text, n).code, StepSize(n)) == Some(text)
    ensures 0 <= Encoded(text, n).pointer < |Encoded(text, n).cells| == n
    ensures forall i :: 0 <= i < n ==> 0 <= Encoded(text, n).cells[i] <= 255
  {
    RoundTrip(text, n, StepSize(n));
    AnchorTable(n);
    EmitAllWellFormed(Start(n), text);
  }
}
