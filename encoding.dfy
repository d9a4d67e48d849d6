/**
 * What `BrainfuckConverter#convert` emits, as functions of its inputs: the anchor
 * values ("auxiliary numbers"), the setup code that builds them with one loop, the
 * nearest-cell search and the chunk of code written for each byte.
 */
module Encoding {
  import opened Commands

  type Byte = x: int | 0 <= x < 256

  /** The number of working cells when none is given. */
  const DefaultCellsNum := 8

  /** Spacing of the anchors, `127 / (cells_num + 1)` (both operands positive). */
  function StepSize(n: int): int
    requires n >= 1
  {
    127 / (n + 1)
  }

  /** The anchor table: working cell `i` is loaded with `(i + 1) * step`. */
  function Anchors(n: int): seq<int>
    requires n >= 1
  {
    seq(n, i => (i + 1) * StepSize(n))
  }

  lemma StepBound(n: int)
    requires n >= 1
    ensures 0 <= StepSize(n) && StepSize(n) * (n + 1) <= 127
    ensures n >= 127 ==> StepSize(n) == 0
  {
  }

  lemma {:induction false} MulMono(a: int, b: int, c: int)
    requires 0 <= a <= b && 0 <= c
    ensures a * c <= b * c
  {
    if c > 0 {
      MulMono(a, b, c - 1);
    }
  }

  /** Two anchors in index order are in value order, strictly so when the step is positive. */
  lemma AnchorPair(n: int, i: int, j: int)
    requires n >= 1 && 0 <= i < j < n
    ensures Anchors(n)[i] <= Anchors(n)[j]
    ensures StepSize(n) > 0 ==> Anchors(n)[i] < Anchors(n)[j]
  {
    var s := StepSize(n);
    MulMono(i + 1, j, s);
    assert (j + 1) * s == j * s + s;
  }

  /** Every anchor lies in 0..126. */
  lemma AnchorRange(n: int, i: int)
    requires n >= 1 && 0 <= i < n
    ensures 0 <= Anchors(n)[i] < 127
  {
    var s := StepSize(n);
    StepBound(n);
    MulMono(0, i + 1, s);
    MulMono(i + 1, n, s);
    assert (n + 1) * s == n * s + s;
    assert s * (n + 1) == (n + 1) * s;
  }

  /** The anchor table: `cells_num` entries, non-decreasing, increasing when the step is positive, all below 127. */
  lemma AnchorTable(n: int)
    requires n >= 1
    ensures |Anchors(n)| == n
    ensures forall i :: 0 <= i < n ==> Anchors(n)[i] == (i + 1) * (127 / (n + 1))
    ensures forall i, j :: 0 <= i < j < n ==> Anchors(n)[i] <= Anchors(n)[j]
    ensures StepSize(n) > 0 ==> forall i, j :: 0 <= i < j < n ==> Anchors(n)[i] < Anchors(n)[j]
    ensures forall i :: 0 <= i < n ==> 0 <= Anchors(n)[i] < 127
  {
    forall i, j | 0 <= i < j < n ensures Anchors(n)[i] <= Anchors(n)[j] && (StepSize(n) > 0 ==> Anchors(n)[i] < Anchors(n)[j]) {
      AnchorPair(n, i, j);
    }
    forall i | 0 <= i < n ensures 0 <= Anchors(n)[i] < 127 {
      AnchorRange(n, i);
    }
  }

  /** The first anchor is the step itself. */
  lemma AnchorsFirst(n: int)
    requires n >= 1
    ensures Anchors(n)[..1] == [127 / (n + 1)]
  {
  }

  /** Each anchor is the previous one plus the step. */
  lemma AnchorsNext(n: int, i: int)
    requires 1 <= i < n
    ensures Anchors(n)[..i + 1] == Anchors(n)[..i] + [Anchors(n)[i - 1] + 127 / (n + 1)]
  {
    var s := StepSize(n);
    assert Anchors(n)[i] == (i + 1) * s == i * s + s;
    assert Anchors(n)[..i + 1] == Anchors(n)[..i] + [Anchors(n)[i]];
  }

  /** The body of the setup loop up to cell `m`: `>` followed by `m` increments, for cells 1..m. */
  function LoopBody(m: nat): seq<Cmd> {
    if m == 0 then [] else LoopBody(m - 1) + ([IncPtr] + Rep(IncVal, m))
  }

  /** Everything between `[` and `]` in the setup code. */
  function Inner(n: nat): seq<Cmd> {
    LoopBody(n) + Rep(DecPtr, n) + [DecVal]
  }

  /** The fixed block that loads the anchors and leaves the pointer on the first working cell. */
  function SetupCode(n: int): seq<Cmd>
    requires n >= 1
  {
    Rep(IncVal, StepSize(n)) + [LoopBegin] + Inner(n) + [LoopEnd, IncPtr]
  }

  /** One more pass of the setup loop's `for` appends `>` and `i` increments. */
  lemma LoopBodyNext(prefix: seq<Cmd>, i: nat)
    requires i >= 1
    ensures prefix + LoopBody(i - 1) + [IncPtr] + Rep(IncVal, i) == prefix + LoopBody(i)
  {
    assert LoopBody(i) == LoopBody(i - 1) + ([IncPtr] + Rep(IncVal, i));
  }

  /** The setup code is its seven pieces, appended one after another. */
  lemma SetupCodePieces(prefix: seq<Cmd>, n: int)
    requires n >= 1
    ensures prefix + SetupCode(n) ==
      prefix + Rep(IncVal, 127 / (n + 1)) + [LoopBegin] + LoopBody(n) + Rep(DecPtr, n) + [DecVal] + [LoopEnd] + [IncPtr]
  {
    var inner := LoopBody(n) + Rep(DecPtr, n) + [DecVal];
    assert SetupCode(n) == Rep(IncVal, 127 / (n + 1)) + [LoopBegin] + inner + [LoopEnd, IncPtr];
  }

  /** The setup loop body holds only right moves and increments. */
  lemma {:induction false} LoopBodyOnly(m: nat)
    ensures forall c :: c in LoopBody(m) ==> c == IncPtr || c == IncVal
  {
    if m > 0 {
      LoopBodyOnly(m - 1);
    }
  }

  /** The setup loop body for `m` cells is m + (1 + 2 + ... + m) commands long. */
  lemma {:induction false} LoopBodyLength(m: nat)
    ensures 2 * |LoopBody(m)| == m * (m + 3)
  {
    if m > 0 {
      LoopBodyLength(m - 1);
      assert |LoopBody(m)| == |LoopBody(m - 1)| + 1 + m;
      assert (m - 1) * (m + 2) == m * m + m - 2;
      assert m * (m + 3) == m * m + 3 * m;
    }
  }

  /** The setup code has no output command, and its loop body no bracket. */
  lemma SetupShape(n: int)
    requires n >= 1
    ensures Output !in SetupCode(n)
    ensures Plain(Inner(n))
  {
    LoopBodyOnly(n);
    assert Output !in LoopBody(n) && LoopBegin !in LoopBody(n) && LoopEnd !in LoopBody(n);
    assert Output !in Rep(IncVal, StepSize(n)) && Output !in Rep(DecPtr, n);
    assert LoopBegin !in Rep(DecPtr, n) && LoopEnd !in Rep(DecPtr, n);
  }

  /** The setup code is step + n(n+3)/2 + n + 4 commands long. */
  lemma SetupLength(n: int)
    requires n >= 1
    ensures 2 * |SetupCode(n)| == 2 * StepSize(n) + n * (n + 3) + 2 * n + 8
  {
    LoopBodyLength(n);
    assert |Inner(n)| == |LoopBody(n)| + n + 1;
    assert |SetupCode(n)| == StepSize(n) + 1 + |Inner(n)| + 2;
  }

  function Abs(x: int): nat {
    if x < 0 then -x else x
  }

  /** `@cell_values.map { |val| (search - val).abs }` */
  function Diffs(cells: seq<int>, b: int): seq<int> {
    seq(|cells|, i requires 0 <= i < |cells| => Abs(b - cells[i]))
  }

  /** `diffs.min` */
  function Min(s: seq<int>): (m: int)
    requires |s| > 0
    ensures m in s
    ensures forall i :: 0 <= i < |s| ==> m <= s[i]
  {
    if |s| == 1 then s[0]
    else
      var m := Min(s[1..]);
      assert forall i :: 1 <= i < |s| ==> s[i] == s[1..][i - 1];
      if s[0] <= m then s[0] else m
  }

  /** `diffs.index(x)`: the first position holding `x`. */
  function IndexOf(s: seq<int>, x: int): (k: nat)
    requires x in s
    ensures k < |s| && s[k] == x
    ensures forall i :: 0 <= i < k ==> s[i] != x
  {
    if s[0] == x then 0
    else
      assert x in s[1..] by {
        var j :| 0 <= j < |s| && s[j] == x;
        assert s[1..][j - 1] == x;
      }
      1 + IndexOf(s[1..], x)
  }

  /** The cell chosen for byte `b`: the lowest index whose current value is nearest to `b`. */
  function Nearest(cells: seq<int>, b: int): (k: nat)
    requires |cells| > 0
    ensures k < |cells|
    ensures forall i :: 0 <= i < |cells| ==> Abs(b - cells[k]) <= Abs(b - cells[i])
    ensures forall i :: 0 <= i < k ==> Abs(b - cells[k]) < Abs(b - cells[i])
  {
    var diffs := Diffs(cells, b);
    assert forall i :: 0 <= i < |cells| ==> diffs[i] == Abs(b - cells[i]);
    IndexOf(diffs, Min(diffs))
  }

  /** The two conditions on `Nearest` single out one index. */
  lemma NearestUnique(cells: seq<int>, b: int, k: nat)
    requires k < |cells|
    requires forall i :: 0 <= i < |cells| ==> Abs(b - cells[k]) <= Abs(b - cells[i])
    requires forall i :: 0 <= i < k ==> Abs(b - cells[k]) < Abs(b - cells[i])
    ensures Nearest(cells, b) == k
  {
  }

  /** With two cells, 63 lies 21 away from both anchors 42 and 84; the first cell wins. */
  lemma TieBreakExample()
    ensures Anchors(2) == [42, 84]
    ensures Nearest(Anchors(2), 63) == 0
  {
    NearestUnique(Anchors(2), 63, 0);
  }

  /** `move_pointer cur_pos, target_pos` */
  function MoveCode(cur: int, target: int): seq<Cmd> {
    var move := target - cur;
    Rep(if move < 0 then DecPtr else IncPtr, Abs(move))
  }

  /** `change_value target_value` on a cell holding `v` */
  function ChangeCode(v: int, target: int): seq<Cmd> {
    var change := target - v;
    Rep(if change < 0 then DecVal else IncVal, Abs(change))
  }

  /** The code, cell values and pointer of a conversion in progress. */
  datatype Emission = Emission(code: seq<Cmd>, cells: seq<int>, pointer: int)

  /** The state after the setup code (the pointer is on working cell 0). */
  function Start(n: int): Emission
    requires n >= 1
  {
    Emission(SetupCode(n), Anchors(n), 0)
  }

  /** The code written for one byte: moves, then value changes, then one output. */
  function Chunk(cells: seq<int>, pointer: int, b: int): seq<Cmd>
    requires |cells| > 0
  {
    var k := Nearest(cells, b);
    MoveCode(pointer, k) + ChangeCode(cells[k], b) + [Output]
  }

  /** One iteration of the `each_byte` block. */
  function EmitByte(e: Emission, b: int): Emission
    requires |e.cells| > 0
  {
    var k := Nearest(e.cells, b);
    Emission(e.code + Chunk(e.cells, e.pointer, b), e.cells[k := b], k)
  }

  /** One byte appends its moves, its value changes and one output, in that order. */
  lemma EmitBytePieces(e: Emission, b: int)
    requires |e.cells| > 0
    ensures var k := Nearest(e.cells, b);
      EmitByte(e, b) ==
      Emission(e.code + MoveCode(e.pointer, k) + ChangeCode(e.cells[k], b) + [Output], e.cells[k := b], k)
  {
  }

  /** The `each_byte` loop over `text`, one byte after another. */
  function EmitAll(e: Emission, text: seq<Byte>): (r: Emission)
    requires |e.cells| > 0
    ensures |r.cells| == |e.cells|
  {
    if text == [] then e
    else EmitByte(EmitAll(e, text[..|text| - 1]), text[|text| - 1])
  }

  /** The loop over a prefix one byte longer handles that byte last. */
  lemma EmitAllNext(e: Emission, text: seq<Byte>, i: int)
    requires |e.cells| > 0 && 0 <= i < |text|
    ensures EmitAll(e, text[..i + 1]) == EmitByte(EmitAll(e, text[..i]), text[i])
  {
    assert text[..i + 1][..i] == text[..i];
  }

  /** The converter's code, cell values and pointer after a successful `convert text, n`. */
  function Encoded(text: seq<Byte>, n: int): Emission
    requires n >= 1
  {
    EmitAll(Start(n), text)
  }

  /** `convert "A", 1`: 63 increments, the one-cell loop, then two more increments and an output. */
  lemma ExampleOneCell()
    ensures Encoded([65], 1).code ==
      Rep(IncVal, 63) + [LoopBegin, IncPtr, IncVal, DecPtr, DecVal, LoopEnd, IncPtr] + [IncVal, IncVal, Output]
    ensures Encoded([65], 1).cells == [65] && Encoded([65], 1).pointer == 0
  {
    assert Anchors(1) == [63];
    assert LoopBody(1) == [IncPtr, IncVal];
    assert Nearest([63], 65) == 0;
    assert ChangeCode(63, 65) == [IncVal, IncVal];
    assert [65][..0] == [];
  }

  /** Cell values are bytes and the pointer is on a working cell. */
  predicate WellFormed(e: Emission) {
    0 <= e.pointer < |e.cells| &&
    forall i :: 0 <= i < |e.cells| ==> 0 <= e.cells[i] <= 255
  }

  /** The pointer stays within the working cells and every cell value within 0..255. */
  lemma {:induction false} EmitAllWellFormed(e: Emission, text: seq<Byte>)
    requires WellFormed(e)
    ensures WellFormed(EmitAll(e, text))
  {
    if text != [] {
      EmitAllWellFormed(e, text[..|text| - 1]);
    }
  }

  /** Code is only appended: the chunks do not depend on the code written before them. */
  lemma {:induction false} EmitAllAppends(e: Emission, text: seq<Byte>)
    requires |e.cells| > 0
    ensures EmitAll(e, text).code == e.code + EmitAll(e.(code := []), text).code
    ensures EmitAll(e, text).cells == EmitAll(e.(code := []), text).cells
    ensures EmitAll(e, text).pointer == EmitAll(e.(code := []), text).pointer
  {
    if text != [] {
      var t, b := text[..|text| - 1], text[|text| - 1];
      EmitAllAppends(e, t);
      var p, q := EmitAll(e, t), EmitAll(e.(code := []), t);
      var chunk := Chunk(q.cells, q.pointer, b);
      assert EmitAll(e, text).code == p.code + chunk;
      assert EmitAll(e.(code := []), text).code == q.code + chunk;
      assert (e.code + q.code) + chunk == e.code + (q.code + chunk);
    }
  }

  /** Bytes are encoded in input order: encoding `t + u` encodes `u` after `t`. */
  lemma {:induction false} EmitAllSplit(e: Emission, t: seq<Byte>, u: seq<Byte>)
    requires |e.cells| > 0
    ensures EmitAll(e, t + u) == EmitAll(EmitAll(e, t), u)
    decreases |u|
  {
    if u == [] {
      assert t + u == t;
    } else {
      var u' := u[..|u| - 1];
      assert (t + u)[..|t + u| - 1] == t + u';
      EmitAllSplit(e, t, u');
    }
  }

  lemma ChunkShape(cells: seq<int>, pointer: int, b: int)
    requires |cells| > 0
    ensures Plain(Chunk(cells, pointer, b))
    ensures multiset(Chunk(cells, pointer, b))[Output] == 1
  {
    var k := Nearest(cells, b);
    var m, c := MoveCode(pointer, k), ChangeCode(cells[k], b);
    assert LoopBegin !in m && LoopEnd !in m && Output !in m;
    assert LoopBegin !in c && LoopEnd !in c && Output !in c;
    assert multiset(m)[Output] == 0 && multiset(c)[Output] == 0;
  }

  /** The bytes' code is straight-line and holds one output command per byte. */
  lemma {:induction false} EmitAllShape(e: Emission, text: seq<Byte>)
    requires |e.cells| > 0 && e.code == []
    ensures Plain(EmitAll(e, text).code)
    ensures multiset(EmitAll(e, text).code)[Output] == |text|
  {
    if text != [] {
      var p := EmitAll(e, text[..|text| - 1]);
      EmitAllShape(e, text[..|text| - 1]);
      ChunkShape(p.cells, p.pointer, text[|text| - 1]);
    }
  }

  /** The program starts with the setup code, prints once per byte, and is only the setup code for empty text. */
  lemma OutputCount(text: seq<Byte>, n: int)
    requires n >= 1
    ensures SetupCode(n) <= Encoded(text, n).code
    ensures multiset(Encoded(text, n).code)[Output] == |text|
    ensures text == [] ==> Encoded(text, n).code == SetupCode(n)
  {
    var s := Start(n);
    EmitAllAppends(s, text);
    EmitAllShape(s.(code := []), text);
    SetupShape(n);
  }
}
