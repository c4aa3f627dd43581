/** One instruction set with the usual comparisons and negation, for the examples. */
module StandardIsa {
  import opened Opcodes
  import opened Machine

  function Truth(b: bool): int {
    if b then 1 else 0
  }

  function StandardAlu(op: Opcode, args: seq<int>): int {
    if op == CmpEq && |args| == 2 then Truth(args[0] == args[1])
    else if op == CmpLt && |args| == 2 then Truth(args[0] < args[1])
    else if op == PNot && |args| == 1 then Truth(args[0] == 0)
    else 0
  }

  /** A stored word is held whole in each of its bytes. */
  ghost function Standard(): (isa: Isa)
    ensures forall op, args :: isa.alu(op, args) == StandardAlu(op, args)
    ensures forall op, v, i :: isa.byteOf(op, v, i) == v
    ensures forall op, bytes :: |bytes| > 0 ==> isa.join(op, bytes) == bytes[0]
  {
    Isa((op, args) => StandardAlu(op, args), (op, v, i) => v, (op, bytes) => if |bytes| > 0 then bytes[0] else 0)
  }

  lemma {:induction false} StandardRoundTrips()
    ensures Standard().DoubleWordsRoundTrip()
  {
    forall v
      ensures Standard().join(LoadD, Standard().WordBytes(v)) == v
    {
      assert Standard().WordBytes(v)[0] == v;
    }
  }
}
