// _main of core-project/prog2/prog2.c:216-284, from the text of its argument to the
// line it prints.
module PiMain {
  import opened Arithmetic
  import opened Digits
  import opened ArctanProgram
  import opened Truncation
  import opened Machin
  import opened Printing
  import opened Libc

  datatype ExitStatus = Success | WrongArgumentCount | InvalidArgument | OutOfMemory

  function Codes(s: string): seq<int> {
    seq(|s|, i requires 0 <= i < |s| => s[i] as int % 256)
  }

  const USAGE := "Syntax: ./prog2 <number>   - <number> indicates the number of digits to compute\n"
  const INVALID := "Invalid argument - need <number>\n"
  const NO_MEMORY := "Unable to allocate enough memory.\n"
  const TIME_IS := "Calculation time "
  const CYCLES := " cycles\n"

  // How many cells hold `digits` digits after the point and the one cell before it.
  function CellCount(digits: int): int {
    TruncDiv(digits + BASE_DIGITS - 1, BASE_DIGITS) + 1
  }

  method Puts(console: Console, text: seq<int>)
    requires forall i :: 0 <= i < |text| ==> 0 <= text[i] < 256
    modifies console
    ensures console.out == old(console.out) + text
  {
    ghost var was := console.out;
    for i := 0 to |text|
      invariant console.out == was + text[..i]
    {
      console.PutChar(text[i]);
    }
    assert text[..|text|] == text;
  }

  // A run that succeeds prints a line that is the decimal text of the Machin sum.
  ghost predicate PrintsPi(line: seq<int>, digits: int)
    requires digits >= 1
  {
    exists cells: seq<int>, j: nat, k: nat ::
      MachinResult(cells, CellCount(digits), j, k) && line == PrintText(cells)
  }

  // What follows the digits: the time the calculation took.
  function TimeText(elapsed: int): seq<int> {
    Codes(TIME_IS) + ValText(elapsed) + Codes(CYCLES)
  }

  // `gotMemory` tells whether the three arrays could be had, `elapsed` what the two readings
  // of the clock differ by.
  method PiMain(console: Console, argc: int, mem: Memory, arg: nat, ghost nul: nat, gotMemory: bool, elapsed: int)
    returns (status: ExitStatus)
    requires argc == 2 ==> arg <= nul && ReadableWords(mem, arg, nul) && nul in mem && mem[nul] == 0
    modifies console
    ensures status.WrongArgumentCount? <==> argc != 2
    ensures status.WrongArgumentCount? ==> console.out == old(console.out) + Codes(USAGE)
    ensures argc == 2 ==>
              var digits := Wrap64(Meaning(TextAt(mem, arg, nul)));
              && (status.InvalidArgument? <==> digits <= 0)
              && (digits <= 0 ==> console.out == old(console.out) + Codes(INVALID))
              && (status.OutOfMemory? <==> digits > 0 && !gotMemory)
              && (digits > 0 && !gotMemory ==> console.out == old(console.out) + Codes(NO_MEMORY))
              && (digits > 0 && gotMemory ==>
                    exists line :: console.out == old(console.out) + line + TimeText(elapsed) && PrintsPi(line, digits))
  {
    if argc != 2 {
      Puts(console, Codes(USAGE));
      return WrongArgumentCount;
    }
    var digits := Atol(mem, arg, nul);
    if digits <= 0 {
      Puts(console, Codes(INVALID));
      return InvalidArgument;
    }
    if !gotMemory {
      Puts(console, Codes(NO_MEMORY));
      return OutOfMemory;
    }
    ghost var was := console.out;
    var p := new PiProgram(CellCount(digits));
    ghost var j, k, peak := RunMachin(p);
    Print(console, p.pi);
    ghost var line := PrintText(p.pi[..]);
    assert MachinResult(p.pi[..], CellCount(digits), j, k);
    assert PrintsPi(line, digits);
    PrintTime(console, elapsed);
    assert console.out == was + line + TimeText(elapsed);
    return Success;
  }

  method PrintTime(console: Console, elapsed: int)
    modifies console
    ensures console.out == old(console.out) + TimeText(elapsed)
  {
    Puts(console, Codes(TIME_IS));
    PrintVal(console, elapsed);
    Puts(console, Codes(CYCLES));
  }

  // The printed line: at least the requested digits after "3.", and, read as a decimal
  // with its point, within 2*size+2 units in the last place of every longer exact sum.
  lemma PrintedPi(cells: seq<int>, digits: int, j: nat, k: nat, n: nat)
    requires digits >= 1 && MachinResult(cells, CellCount(digits), j, k) && n >= j && n >= k
    ensures var line, size := PrintText(cells), CellCount(digits);
            var exact := ExactSum(FirstSeries(size), n) + ExactSum(SecondSeries(size), n);
            var shown := [line[0]] + line[2..|line| - 1];
            && line[..2] == [51, 46]
            && digits <= |shown| - 1 == 2 * (size - 1) <= digits + 1
            && AllDigits(shown)
            && -((2 * size + 2) as real) < DecimalValue(shown) as real - exact < (2 * size + 2) as real
  {
    PrintDenotes(cells);
    MachinAccuracy(cells, CellCount(digits), j, k, n);
  }
}
