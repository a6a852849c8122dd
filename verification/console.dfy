/** The terminal as a value: the lines still to be typed and the lines
    printed so far. */
module Console {

  datatype Io = Io(input: seq<string>, output: seq<string>)

  /** print(line) */
  function Emit(io: Io, line: string): Io
  {
    io.(output := io.output + [line])
  }

  /** sys.stdin.readline(): the next typed line, or "" once input is exhausted. */
  function ReadLine(io: Io): (string, Io)
  {
    if io.input == [] then ("", io) else (io.input[0], io.(input := io.input[1..]))
  }

  /** The line that the k-th read from now returns ("" once input runs out). */
  function Typed(io: Io, k: nat): string
  {
    if k < |io.input| then io.input[k] else ""
  }

  /** print(prompt) followed by sys.stdin.readline(): the line returned is
      the next one typed; afterwards the prompt has been printed and that line
      consumed. */
  function Prompt(io: Io, prompt: string): (r: (string, Io))
    ensures r.0 == Typed(io, 0)
    ensures r.1.output == io.output + [prompt]
    ensures forall k: nat :: Typed(r.1, k) == Typed(io, k + 1)
    ensures Advances(io, r.1)
  {
    ReadLine(Emit(io, prompt))
  }

  /** `later` is `earlier` after some lines were read and some printed:
      input is only consumed and output only appended. */
  predicate Advances(earlier: Io, later: Io)
  {
    |later.input| <= |earlier.input| &&
    later.input == earlier.input[|earlier.input| - |later.input|..] &&
    |earlier.output| <= |later.output| &&
    later.output[..|earlier.output|] == earlier.output
  }

  lemma AdvancesTransitive(a: Io, b: Io, c: Io)
    requires Advances(a, b) && Advances(b, c)
    ensures Advances(a, c)
  {
    assert c.output[..|a.output|] == c.output[..|b.output|][..|a.output|];
  }
}
