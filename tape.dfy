/** The machine state of src/main.rs: the 30000-cell byte tape `MEMORY`, the
    cell pointer static, and the bytes written to standard output. The
    single-command effects of src/ast.rs live here as functions on a value
    snapshot of that state. */
module Tape {
  /** An unsigned byte. */
  type u8 = x: int | 0 <= x < 256

  const TapeSize: nat := 30000

  /** A snapshot of the tape, the pointer, and the output so far. */
  datatype State = State(tape: seq<u8>, ptr: nat, out: seq<u8>)

  /** The tape has its fixed size and the pointer, truncated to eight bits
      after every move, addresses a cell of it. */
  predicate WellFormed(st: State) {
    |st.tape| == TapeSize && st.ptr < 256
  }

  /** Every cell 0, pointer 0, nothing written. */
  function Initial(): (st: State)
    ensures WellFormed(st) && st.ptr == 0 && st.out == []
    ensures forall k :: 0 <= k < |st.tape| ==> st.tape[k] == 0
  {
    State(seq(TapeSize, _ => 0), 0, [])
  }

  /** `u8::overflowing_add(1).0`. */
  function WrapInc(v: u8): (r: u8)
    ensures v < 255 ==> r == v + 1
    ensures v == 255 ==> r == 0
  {
    (v + 1) % 256
  }

  /** `u8::overflowing_sub(1).0`. */
  function WrapDec(v: u8): (r: u8)
    ensures v > 0 ==> r == v - 1
    ensures v == 0 ==> r == 255
  {
    (v - 1) % 256
  }

  /** `overflowing_add(1).0 as u8 as usize` on the pointer: the sum of a pointer
      below 256 and 1 cannot wrap a usize, and the cast keeps its low eight
      bits. */
  function PtrRight(p: nat): (r: nat)
    requires p < 256
    ensures p < 255 ==> r == p + 1
    ensures p == 255 ==> r == 0
  {
    (p + 1) % 256
  }

  /** `overflowing_sub(1).0 as u8 as usize` on the pointer: the subtraction wraps
      modulo 2^64 (0 becomes `usize::MAX`), and the cast keeps the low eight
      bits. */
  function PtrLeft(p: nat): (r: nat)
    requires p < 256
    ensures p > 0 ==> r == p - 1
    ensures p == 0 ==> r == 255
  {
    (p + 0x1_0000_0000_0000_0000 - 1) % 0x1_0000_0000_0000_0000 % 256
  }

  /** The interpreter's global memory: one object holds the `static mut`
      tape and pointer, plus the output stream `Dot` writes to. */
  class Machine {
    const memory: array<u8>
    var pointer: nat
    var output: seq<u8>

    ghost predicate Valid()
      reads this
    {
      memory.Length == TapeSize && pointer < 256
    }

    function Snapshot(): (st: State)
      reads this, memory
      ensures Valid() ==> WellFormed(st)
    {
      State(memory[..], pointer, output)
    }

    /** `[0; 30000]` and pointer 0, as the statics start out. */
    constructor Init()
      ensures Valid() && Snapshot() == Initial()
      ensures fresh(memory)
    {
      memory := new u8[TapeSize](_ => 0);
      pointer := 0;
      output := [];
      new;
      assert memory[..] == Initial().tape;
    }
  }
}
