/**
 * The shared `Scanner` over standard input. The lines the user will type are fixed in advance
 * (`input`), and the scanner only remembers how many of them it has consumed, so every operation
 * can say exactly which lines it read.
 */
module Console {
  import opened Text

  /** Line `k` of what the user types; naming it keeps the lines apart from the scanner's state. */
  function Line(input: nat -> string, k: nat): string
  {
    input(k)
  }

  class Scanner {
    /** The `k`-th line the user types. */
    const input: nat -> string
    /** How many lines `nextLine` has returned so far. */
    var consumed: nat

    constructor (input: nat -> string)
      ensures this.input == input && consumed == 0
    {
      this.input := input;
      consumed := 0;
    }

    /** `nextLine`: the next line, without its terminator. */
    method NextLine() returns (line: string)
      modifies this`consumed
      ensures line == Line(input, old(consumed))
      ensures consumed == old(consumed) + 1
    {
      line := input(consumed);
      consumed := consumed + 1;
    }

    /** `nextLine().trim()`, the way every prompt reads its answer. */
    method NextTrimmed() returns (line: string)
      modifies this`consumed
      ensures line == Trim(Line(input, old(consumed)))
      ensures consumed == old(consumed) + 1
    {
      var raw := NextLine();
      line := Trim(raw);
    }
  }
}
