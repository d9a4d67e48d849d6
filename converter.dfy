/**
 * The converter object: `@code`, `@cell_values` and `@pointer` are fields that `convert`
 * and its three protected helpers update in place. `@code` is kept as the sequence of
 * commands; its text is `CodeText()`, the commands rendered with the symbol table.
 */
module Converter {
  import opened Commands
  import opened Machine
  import opened Encoding
  import opened Wrappers
  import RoundTrip

  class BrainfuckConverter {
    /** The symbol table; a conversion never changes it. */
    const cmds: CommandSet
    var code: seq<Cmd>
    var cellValues: seq<int>
    var pointer: int

    /** `BrainfuckConverter.new bf_cmds` (the fields are only set by `convert`). */
    constructor (bfCmds: CommandSet := DefaultCommands)
      ensures cmds == bfCmds && code == [] && cellValues == [] && pointer == 0
    {
      cmds := bfCmds;
      code := [];
      cellValues := [];
      pointer := 0;
    }

    /** The generated program as text. */
    function CodeText(): string
      reads this
    {
      Render(cmds, code)
    }

    /**
     * `convert text, cells_num`: `None` (Ruby's `false`) without touching any field when
     * fewer than one cell is asked for; otherwise the text itself, with the program that
     * prints it in `code`.
     */
    method Convert(text: seq<Byte>, cellsNum: int := DefaultCellsNum) returns (r: Option<seq<Byte>>)
      modifies this
      ensures cellsNum < 1 ==> r == None && code == old(code) && cellValues == old(cellValues) && pointer == old(pointer)
      ensures cellsNum >= 1 ==> r == Some(text)
      ensures cellsNum >= 1 ==>
        code == Encoded(text, cellsNum).code &&
        cellValues == Encoded(text, cellsNum).cells &&
        pointer == Encoded(text, cellsNum).pointer
      ensures cellsNum >= 1 ==> Outputs(code, StepSize(cellsNum)) == Some(text)
      ensures cellsNum >= 1 ==> 0 <= pointer < |cellValues| == cellsNum
    {
      if cellsNum < 1 {
        return None;
      }
      code := [];
      CalculateCellValues(cellsNum);
      EmitSetupCode(cellsNum);
      pointer := 0;

      for i := 0 to |text|
        invariant Emission(code, cellValues, pointer) == EmitAll(Start(cellsNum), text[..i])
        invariant |cellValues| == cellsNum
      {
        var search := text[i];
        var nearest := Nearest(cellValues, search);
        ghost var before := Emission(code, cellValues, pointer);
        EmitBytePieces(before, search);
        EmitAllNext(Start(cellsNum), text, i);
        MovePointer(pointer, nearest);
        ChangeValue(search);
        OutputCell();
        assert Emission(code, cellValues, pointer) == EmitByte(before, search);
      }
      assert text[..|text|] == text;

      RoundTrip.Converted(text, cellsNum);
      r := Some(text);
    }

    /** Lines 57-62 of `convert`: the auxiliary numbers, each the previous one plus the spacing. */
    method CalculateCellValues(cellsNum: int)
      requires cellsNum >= 1
      modifies this`cellValues
      ensures cellValues == Anchors(cellsNum)
    {
      var spaceCells := 127 / (cellsNum + 1);
      cellValues := [spaceCells];
      AnchorsFirst(cellsNum);
      for i := 1 to cellsNum
        invariant cellValues == Anchors(cellsNum)[..i]
      {
        AnchorsNext(cellsNum, i);
        cellValues := cellValues + [cellValues[i - 1] + spaceCells];
      }
    }

    /** Lines 67-76 of `convert`: the code that builds the auxiliary numbers by one multiplication loop. */
    method EmitSetupCode(cellsNum: int)
      requires cellsNum >= 1
      modifies this`code
      ensures code == old(code) + SetupCode(cellsNum)
    {
      var spaceCells := 127 / (cellsNum + 1);
      code := code + Rep(IncVal, spaceCells);
      code := code + [LoopBegin];
      ghost var head := code;
      assert code == head + LoopBody(0);
      for i := 1 to cellsNum + 1
        invariant code == head + LoopBody(i - 1)
      {
        LoopBodyNext(head, i);
        code := code + [IncPtr];
        code := code + Rep(IncVal, i);
      }
      code := code + Rep(DecPtr, cellsNum);
      code := code + [DecVal];
      code := code + [LoopEnd];
      code := code + [IncPtr];
      SetupCodePieces(old(code), cellsNum);
    }

    /** `move_pointer cur_pos, target_pos`: `|target - cur|` moves towards the target. */
    method MovePointer(curPos: int, targetPos: int)
      modifies this`code, this`pointer
      ensures code == old(code) + MoveCode(curPos, targetPos) && pointer == targetPos
    {
      var move := targetPos - curPos;
      code := code + Rep(if move < 0 then DecPtr else IncPtr, Abs(move));
      pointer := targetPos;
    }

    /** `change_value target_value`: the current cell is counted up or down to the target. */
    method ChangeValue(targetValue: int)
      requires 0 <= pointer < |cellValues|
      modifies this`code, this`cellValues
      ensures code == old(code) + ChangeCode(old(cellValues[pointer]), targetValue)
      ensures cellValues == old(cellValues)[pointer := targetValue]
    {
      var change := targetValue - cellValues[pointer];
      code := code + Rep(if change < 0 then DecVal else IncVal, Abs(change));
      cellValues := cellValues[pointer := targetValue];
    }

    /** `output_cell` */
    method OutputCell()
      modifies this`code
      ensures code == old(code) + [Output]
    {
      code := code + [Output];
    }
  }
}
