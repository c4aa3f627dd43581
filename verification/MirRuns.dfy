/** Where control goes in the machine intermediate representation, and what its runs are. */
module MirRuns {
  import opened Mir
  import opened Machine

  // ----- Transfers of control -----

  /** Where control goes at the end of a block: on to the code behind it, to a label, into a callee, or back. */
  datatype Transfer = Next | To(target: string) | Into(callee: string) | Back

  predicate Taken(s: State, cond: Reg) {
    ReadReg(s, RegKey(Pred, cond)) != 0
  }

  /** A branch is taken if its predicate holds, and falls through if not. */
  function MirTransfer(t: Terminator, s: State): Transfer {
    match t
    case BranchTo(cond, target) => if Taken(s, cond) then To(target) else Next
    case JumpTo(target) => To(target)
    case DirectCall(callee, _) => Into(callee)
    case Return => Back
  }

  /** Block j is the one a label names: the last block of that name. */
  predicate Named(blocks: seq<Block>, name: string, j: int) {
    0 <= j < |blocks| && blocks[j].name == name && forall m :: j < m < |blocks| ==> blocks[m].name != name
  }

  // ----- Places in a function -----

  /** Before syllable `at` of a block, or before its terminator if no syllable is left. */
  datatype Place = Place(block: nat, at: nat)

  predicate IsPlace(blocks: seq<Block>, p: Place) {
    p.block < |blocks| && p.at <= |blocks[p.block].syllables|
  }

  predicate AtTerminator(blocks: seq<Block>, p: Place)
    requires IsPlace(blocks, p)
  {
    p.at == |blocks[p.block].syllables|
  }

  function SyllableAt(blocks: seq<Block>, p: Place): Syllable
    requires IsPlace(blocks, p) && !AtTerminator(blocks, p)
  {
    blocks[p.block].syllables[p.at]
  }

  function TerminatorAt(blocks: seq<Block>, p: Place): Terminator
    requires IsPlace(blocks, p)
  {
    blocks[p.block].terminator
  }

  // ----- Runs of one function -----

  /** What a callee leaves behind. */
  type Calls = (string, State) -> State

  /** In state s control passes from the end of block i to the start of block j; a call comes back to its continuation. */
  predicate LeadsTo(blocks: seq<Block>, i: nat, s: State, j: nat)
    requires i < |blocks|
  {
    match MirTransfer(blocks[i].terminator, s)
    case Next => j == i + 1 < |blocks|
    case To(target) => Named(blocks, target, j)
    case Into(_) => Named(blocks, blocks[i].terminator.cont, j)
    case Back => false
  }

  datatype Config = Config(place: Place, state: State)

  predicate IsLocalStep(isa: Isa, calls: Calls, blocks: seq<Block>, c: Config, c': Config) {
    && IsPlace(blocks, c.place) && IsPlace(blocks, c'.place)
    && if AtTerminator(blocks, c.place) then
         var t := TerminatorAt(blocks, c.place);
         && c'.place.at == 0 && LeadsTo(blocks, c.place.block, c.state, c'.place.block)
         && c'.state == if t.DirectCall? then calls(t.callee, c.state) else c.state
       else
         && c'.place == Place(c.place.block, c.place.at + 1)
         && c'.state == Exec(isa, Decode(SyllableAt(blocks, c.place)), c.state)
  }

  /** A run of one function; what its callees do is a parameter. */
  ghost predicate IsLocalRun(isa: Isa, calls: Calls, blocks: seq<Block>, r: seq<Config>) {
    && r != [] && (forall n :: 0 <= n < |r| ==> IsPlace(blocks, r[n].place))
    && forall n :: 0 < n < |r| ==> IsLocalStep(isa, calls, blocks, r[n - 1], r[n])
  }

  // ----- Where control can go -----

  /** Control can pass from the end of block i to the start of block j. */
  predicate Goes(blocks: seq<Block>, i: nat, j: nat)
    requires i < |blocks|
  {
    match blocks[i].terminator
    case BranchTo(_, target) => Named(blocks, target, j) || j == i + 1 < |blocks|
    case JumpTo(target) => Named(blocks, target, j)
    case DirectCall(_, cont) => Named(blocks, cont, j)
    case Return => false
  }

  /** That is: it does pass there in some state. */
  lemma {:induction false} GoesExactlyWhen(blocks: seq<Block>, i: nat, j: nat)
    requires i < |blocks|
    ensures Goes(blocks, i, j) <==> exists s :: LeadsTo(blocks, i, s, j)
  {
    var t := blocks[i].terminator;
    if Goes(blocks, i, j) {
      var hold := if t.BranchTo? then map[RegKey(Pred, t.cond) := if Named(blocks, t.target, j) then 1 else 0] else map[];
      assert LeadsTo(blocks, i, State(hold, map[]), j);
    }
  }

  // ----- Runs of a module -----

  datatype BlockRef = BlockRef(fn: nat, block: nat)

  /** About to run a block; `calls` holds the blocks the callers continue at. */
  datatype ModuleConfig = ModuleConfig(at: BlockRef, state: State, calls: seq<BlockRef>)

  predicate InModule(fns: seq<Function>, at: BlockRef) {
    at.fn < |fns| && at.block < |fns[at.fn].blocks|
  }

  function BlockOf(fns: seq<Function>, at: BlockRef): Block
    requires InModule(fns, at)
  {
    fns[at.fn].blocks[at.block]
  }

  /** From a block whose terminator decides on the transfer t, control passes on to c'. */
  predicate Continues(fns: seq<Function>, c: ModuleConfig, t: Transfer, c': ModuleConfig)
    requires InModule(fns, c.at)
  {
    InModule(fns, c'.at) &&
    match t
    case Next => c'.at == BlockRef(c.at.fn, c.at.block + 1) && c'.calls == c.calls
    case To(target) => c'.at.fn == c.at.fn && Named(fns[c.at.fn].blocks, target, c'.at.block) && c'.calls == c.calls
    case Into(callee) =>
      && BlockOf(fns, c.at).terminator.DirectCall? && c'.at.block == 0 && fns[c'.at.fn].name == callee
      && |c'.calls| == |c.calls| + 1 && c'.calls[..|c.calls|] == c.calls
      && var back := c'.calls[|c.calls|];
      && back.fn == c.at.fn && Named(fns[c.at.fn].blocks, BlockOf(fns, c.at).terminator.cont, back.block)
    case Back => c.calls != [] && c'.at == c.calls[|c.calls| - 1] && c'.calls == c.calls[..|c.calls| - 1]
  }

  /** Run one block and its terminator. */
  predicate IsModuleStep(isa: Isa, fns: seq<Function>, c: ModuleConfig, c': ModuleConfig) {
    && InModule(fns, c.at)
    && c'.state == Run(isa, DecodeAll(BlockOf(fns, c.at).syllables), c.state)
    && Continues(fns, c, MirTransfer(BlockOf(fns, c.at).terminator, c'.state), c')
  }

  ghost predicate IsModuleRun(isa: Isa, fns: seq<Function>, r: seq<ModuleConfig>) {
    r != [] && forall n :: 0 < n < |r| ==> IsModuleStep(isa, fns, r[n - 1], r[n])
  }
}
