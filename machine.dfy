/**
 * A minimal interpreter of the seven commands, used only to state what the generated
 * program does. Cells hold bytes and are strict: incrementing 255 or decrementing 0 is
 * an error, so a run that succeeds never took a cell outside 0..255. A loop may repeat
 * its body at most `fuel` times (nested loops get one less); running out is an error too.
 */
module Machine {
  import opened Commands
  import opened Wrappers

  /** The tape (unvisited cells read 0), the tape pointer and what has been printed. */
  datatype State = State(tape: map<int, int>, ptr: int, out: seq<int>)

  const Init := State(map[], 0, [])

  function Cell(st: State, i: int): int {
    if i in st.tape then st.tape[i] else 0
  }

  /** Writes `v` into the cell under the pointer. */
  function Store(st: State, v: int): State {
    st.(tape := st.tape[st.ptr := v])
  }

  /** One command that is not a bracket. */
  function Apply(c: Cmd, st: State): Option<State> {
    match c
    case IncVal => if Cell(st, st.ptr) < 255 then Some(Store(st, Cell(st, st.ptr) + 1)) else None
    case DecVal => if Cell(st, st.ptr) > 0 then Some(Store(st, Cell(st, st.ptr) - 1)) else None
    case IncPtr => Some(st.(ptr := st.ptr + 1))
    case DecPtr => Some(st.(ptr := st.ptr - 1))
    case Output => Some(st.(out := st.out + [Cell(st, st.ptr)]))
    case LoopBegin => None
    case LoopEnd => None
  }

  /** The index of the `LoopEnd` that closes a loop, scanning from `i` with `depth` loops still open. */
  function MatchEnd(code: seq<Cmd>, i: nat, depth: nat): (r: Option<nat>)
    ensures r.Some? ==> i <= r.value < |code| && code[r.value] == LoopEnd
    decreases |code| - i
  {
    if i >= |code| then None
    else if code[i] == LoopEnd then
      if depth == 0 then Some(i) else MatchEnd(code, i + 1, depth - 1)
    else if code[i] == LoopBegin then MatchEnd(code, i + 1, depth + 1)
    else MatchEnd(code, i + 1, depth)
  }

  /** Continues with `rest` after a run that succeeded. */
  function Then(r: Option<State>, rest: seq<Cmd>, fuel: nat): Option<State>
    decreases fuel, |rest|, 2
  {
    match r
    case None => None
    case Some(st) => Run(rest, st, fuel)
  }

  function Run(code: seq<Cmd>, st: State, fuel: nat): Option<State>
    decreases fuel, |code|, 1
  {
    if code == [] then Some(st)
    else if code[0] == LoopBegin then
      match MatchEnd(code, 1, 0)
      case None => None
      case Some(j) =>
        match Loop(code[1..j], st, fuel)
        case None => None
        case Some(st') => Run(code[j + 1..], st', fuel)
    else if code[0] == LoopEnd then None
    else
      match Apply(code[0], st)
      case None => None
      case Some(st') => Run(code[1..], st', fuel)
  }

  /** `[ body ]`: repeats `body` while the cell under the pointer is not 0. */
  function Loop(body: seq<Cmd>, st: State, fuel: nat): Option<State>
    decreases fuel, |body|, 0
  {
    if Cell(st, st.ptr) == 0 then Some(st)
    else if fuel == 0 then None
    else
      match Run(body, st, fuel - 1)
      case None => None
      case Some(st') => Loop(body, st', fuel - 1)
  }

  /** What a program prints when started on an empty tape. */
  function Outputs(code: seq<Cmd>, fuel: nat): Option<seq<int>> {
    match Run(code, Init, fuel)
    case None => None
    case Some(st) => Some(st.out)
  }

  /** Straight-line code runs first, then whatever follows it. */
  lemma {:induction false} RunPlainAppend(a: seq<Cmd>, b: seq<Cmd>, st: State, fuel: nat)
    requires Plain(a)
    ensures Run(a + b, st, fuel) == Then(Run(a, st, fuel), b, fuel)
  {
    if a == [] {
      assert a + b == b;
    } else {
      assert (a + b)[0] == a[0];
      assert (a + b)[1..] == a[1..] + b;
      assert a[0] in a;
      match Apply(a[0], st)
      case None =>
      case Some(s) =>
        assert Plain(a[1..]) by {
          forall c | c in a[1..] ensures c in a { }
        }
        RunPlainAppend(a[1..], b, s, fuel);
    }
  }

  /** With no bracket in between, the first `LoopEnd` closes the loop. */
  lemma {:induction false} MatchPlain(code: seq<Cmd>, i: nat, k: nat)
    requires i <= k < |code| && code[k] == LoopEnd
    requires forall j :: i <= j < k ==> code[j] != LoopBegin && code[j] != LoopEnd
    ensures MatchEnd(code, i, 0) == Some(k)
    decreases k - i
  {
    if i < k {
      MatchPlain(code, i + 1, k);
    }
  }

  /** A loop around straight-line code, followed by the rest of the program. */
  lemma RunLoopBlock(inner: seq<Cmd>, rest: seq<Cmd>, st: State, fuel: nat)
    requires Plain(inner)
    ensures Run([LoopBegin] + inner + [LoopEnd] + rest, st, fuel) == Then(Loop(inner, st, fuel), rest, fuel)
  {
    var code := [LoopBegin] + inner + [LoopEnd] + rest;
    var k := |inner| + 1;
    forall j | 1 <= j < k ensures code[j] != LoopBegin && code[j] != LoopEnd {
      assert code[j] == inner[j - 1];
    }
    MatchPlain(code, 1, k);
    assert code[1..k] == inner;
    assert code[k + 1..] == rest;
  }

  /** `k` increments add `k` to the current cell when it stays at most 255. */
  lemma {:induction false} RunIncVal(k: nat, st: State, fuel: nat)
    requires k > 0 && 0 <= Cell(st, st.ptr) && Cell(st, st.ptr) + k <= 255
    ensures Run(Rep(IncVal, k), st, fuel) == Some(Store(st, Cell(st, st.ptr) + k))
  {
    var s := Store(st, Cell(st, st.ptr) + 1);
    assert Rep(IncVal, k)[1..] == Rep(IncVal, k - 1);
    if k > 1 {
      RunIncVal(k - 1, s, fuel);
      assert Store(s, Cell(s, s.ptr) + (k - 1)) == Store(st, Cell(st, st.ptr) + k);
    }
  }

  /** `k` decrements subtract `k` from the current cell when it stays at least 0. */
  lemma {:induction false} RunDecVal(k: nat, st: State, fuel: nat)
    requires k > 0 && Cell(st, st.ptr) - k >= 0
    ensures Run(Rep(DecVal, k), st, fuel) == Some(Store(st, Cell(st, st.ptr) - k))
  {
    var s := Store(st, Cell(st, st.ptr) - 1);
    assert Rep(DecVal, k)[1..] == Rep(DecVal, k - 1);
    if k > 1 {
      RunDecVal(k - 1, s, fuel);
      assert Store(s, Cell(s, s.ptr) - (k - 1)) == Store(st, Cell(st, st.ptr) - k);
    }
  }

  /** `k` right moves shift the pointer by `k`; nothing else changes. */
  lemma {:induction false} RunIncPtr(k: nat, st: State, fuel: nat)
    ensures Run(Rep(IncPtr, k), st, fuel) == Some(st.(ptr := st.ptr + k))
  {
    if k > 0 {
      assert Rep(IncPtr, k)[1..] == Rep(IncPtr, k - 1);
      RunIncPtr(k - 1, st.(ptr := st.ptr + 1), fuel);
    }
  }

  /** `k` left moves shift the pointer back by `k`; nothing else changes. */
  lemma {:induction false} RunDecPtr(k: nat, st: State, fuel: nat)
    ensures Run(Rep(DecPtr, k), st, fuel) == Some(st.(ptr := st.ptr - k))
  {
    if k > 0 {
      assert Rep(DecPtr, k)[1..] == Rep(DecPtr, k - 1);
      RunDecPtr(k - 1, st.(ptr := st.ptr - 1), fuel);
    }
  }
}
