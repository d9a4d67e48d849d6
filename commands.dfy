/**
 * The instruction roles the converter emits and the table that maps each role to the
 * symbol written into the generated program (BrainfuckConverter::DEFAULT_COMMANDS and
 * the `bf_cmds` hash given to the constructor).
 */
module Commands {

  /** The seven instruction roles. */
  datatype Cmd = IncVal | DecVal | IncPtr | DecPtr | Output | LoopBegin | LoopEnd

  /** The symbol of every role; symbols may be any string. */
  datatype CommandSet = CommandSet(
    incVal: string, decVal: string, incPtr: string, decPtr: string,
    output: string, loopBegin: string, loopEnd: string)

  /** The classical eight-symbol language (without `,`, which is never emitted). */
  const DefaultCommands := CommandSet("+", "-", ">", "<", ".", "[", "]")

  function Symbol(cmds: CommandSet, c: Cmd): string {
    match c
    case IncVal => cmds.incVal
    case DecVal => cmds.decVal
    case IncPtr => cmds.incPtr
    case DecPtr => cmds.decPtr
    case Output => cmds.output
    case LoopBegin => cmds.loopBegin
    case LoopEnd => cmds.loopEnd
  }

  /** `k` copies of one command: the model of Ruby's `symbol * k`. */
  function Rep(c: Cmd, k: nat): (r: seq<Cmd>)
    ensures |r| == k
    ensures forall i :: 0 <= i < k ==> r[i] == c
  {
    if k == 0 then [] else [c] + Rep(c, k - 1)
  }

  /** Code without loop brackets: it runs straight through. */
  predicate Plain(code: seq<Cmd>) {
    LoopBegin !in code && LoopEnd !in code
  }

  /** The program text: every command replaced by its symbol, in order. */
  function Render(cmds: CommandSet, code: seq<Cmd>): string {
    if code == [] then "" else Symbol(cmds, code[0]) + Render(cmds, code[1..])
  }

  /** Appending commands appends their symbols: `@code += sym` on the string side. */
  lemma {:induction false} RenderAppend(cmds: CommandSet, a: seq<Cmd>, b: seq<Cmd>)
    ensures Render(cmds, a + b) == Render(cmds, a) + Render(cmds, b)
  {
    if a == [] {
      assert a + b == b;
    } else {
      var head, tail := Symbol(cmds, a[0]), Render(cmds, a[1..]);
      assert (a + b)[0] == a[0] && (a + b)[1..] == a[1..] + b;
      RenderAppend(cmds, a[1..], b);
      assert Render(cmds, a + b) == head + (tail + Render(cmds, b));
      assert head + (tail + Render(cmds, b)) == (head + tail) + Render(cmds, b);
    }
  }

  /** Reads a program written with the default symbols; any other character is a comment. */
  function Parse(s: string): seq<Cmd> {
    if s == [] then []
    else
      var c := s[0];
      var head :=
        if c == '+' then [IncVal]
        else if c == '-' then [DecVal]
        else if c == '>' then [IncPtr]
        else if c == '<' then [DecPtr]
        else if c == '.' then [Output]
        else if c == '[' then [LoopBegin]
        else if c == ']' then [LoopEnd]
        else [];
      head + Parse(s[1..])
  }

  /** With the default table every command is one character, and the text reads back as the same commands. */
  lemma {:induction false} ParseRender(code: seq<Cmd>)
    ensures |Render(DefaultCommands, code)| == |code|
    ensures Parse(Render(DefaultCommands, code)) == code
  {
    if code != [] {
      ParseRender(code[1..]);
      var s := Render(DefaultCommands, code);
      assert s[1..] == Render(DefaultCommands, code[1..]);
      assert code == [code[0]] + code[1..];
    }
  }
}
