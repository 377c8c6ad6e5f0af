// Division by ten as the assembly of core-project/prog2/prog2.S:28-47, 73-96 and 148-172
// does it: a 64x64 signed multiplication, an arithmetic shift and a sign correction.
module MagicDivision {
  import opened Arithmetic
  import opened MachineWords
  import opened Printing

  const MAGIC := 0x6666_6666_6666_6667

  // imulq: the high half of the 128-bit signed product, left in rdx
  function High64(n: int, m: int): int {
    n * m / TWO64
  }

  // shrq $63: the sign bit of a 64-bit register
  function ShiftRight63(r: int): int {
    if r < 0 then 1 else 0
  }

  // sarq $2
  function ArithmeticShift2(r: int): int {
    r / 4
  }

  function AsmQuotient(n: int): int {
    var rdx := High64(n, MAGIC);
    var rax := ShiftRight63(rdx);
    ArithmeticShift2(rdx) + rax
  }

  // The multiplication trick is truncating division for every signed 64-bit value, and
  // each register value it makes fits its register.
  lemma MagicIsDivision(n: int)
    requires Fits64(n)
    ensures AsmQuotient(n) == TruncDiv(n, 10)
    ensures Fits64(High64(n, MAGIC)) && Fits64(AsmQuotient(n))
  {
    var rdx := High64(n, MAGIC);
    assert n * MAGIC == TWO64 * rdx + n * MAGIC % TWO64;
    // 10 * MAGIC == 2^66 + 6
    assert 10 * MAGIC == 4 * TWO64 + 6;
    TruncDivRem(n, 10);
  }

  // PrintVal of the assembly emits what PrintVal of the C source emits.
  method AsmPrintVal(console: Console, rdi: int)
    requires Fits64(rdi)
    modifies console
    ensures console.out == old(console.out) + ValText(rdi)
    decreases if rdi > 9 then rdi else 0
  {
    ghost var was := console.out;
    var rbx := rdi;
    MagicIsDivision(rbx);
    TruncDivRem(rbx, 10);
    if !(rbx < 10) {
      AsmPrintVal(console, AsmQuotient(rbx));
    }
    var rdx := AsmQuotient(rbx);
    rdx := rdx * 2;
    var rax := -(rdx + rdx * 4);
    console.PutChar(48 + rbx + rax);
    if rbx > 9 {
      assert was + ValText(rbx / 10) + [ZERO_CHAR + rbx % 10] == was + (ValText(rbx / 10) + [ZERO_CHAR + rbx % 10]);
    }
  }

  // PrintShort of the assembly: both digits from two such divisions, without a buffer.
  method AsmPrintShort(console: Console, rdi: int)
    requires Fits64(rdi)
    modifies console
    ensures console.out == old(console.out) + PairText(rdi)
  {
    var r14 := rdi;
    MagicIsDivision(r14);
    TruncDivRem(r14, 10);
    var rbx := AsmQuotient(r14);
    MagicIsDivision(rbx);
    TruncDivRem(rbx, 10);
    var rdx := AsmQuotient(rbx) * 2;
    var rcx := rbx - (rdx + rdx * 4);
    console.PutChar(48 + rcx);
    rbx := rbx * 2;
    var rax := -(rbx + rbx * 4);
    console.PutChar(48 + r14 + rax);
  }

  // Print of the assembly: the loop test is at the bottom, guarded by one test before it.
  method AsmPrint(console: Console, num: array<int>)
    requires num.Length >= 1 && forall i :: 0 <= i < num.Length ==> Fits64(num[i])
    modifies console
    ensures console.out == old(console.out) + PrintText(num[..])
  {
    ghost var was := console.out;
    ghost var cells := num[..];
    console.PutChar(51);
    console.PutChar(46);
    var r12 := 1;
    if !(num.Length < 2) {
      while true
        invariant 1 <= r12 < num.Length
        invariant num[..] == cells
        invariant console.out == was + [51, 46] + PairsText(cells[1..r12])
        decreases num.Length - r12
      {
        AsmPrintShort(console, num[r12]);
        OnePairMore(was + [51, 46], cells, r12);
        r12 := r12 + 1;
        if !(r12 < num.Length) {
          break;
        }
      }
    }
    console.PutChar(10);
    assert cells[1..r12] == cells[1..];
  }
}
