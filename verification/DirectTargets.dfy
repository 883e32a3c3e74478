/** Where the dispatcher's exits meet the constant folder: an exit's target is the folder's constant, if it has one, and
    that is the address that would have been stored at run time. */
module DirectTargets {
  import opened Bits
  import opened ConstFold
  import opened GuestProgram
  import Dispatch

  /** What the run-time leaves of a tree hold, given the machine. */
  type Leaves = Machine -> map<nat, int>

  /** The tree below a write_pc node, or below each arm of the conditional select there. */
  datatype Target = Tree(node: Node) | Csel(cond: Machine -> bool, whenTrue: Node, whenFalse: Node)

  /** The address computed at run time. */
  function AtRunTime(n: Node, pc: Pc, leaves: Leaves): PcValue
    requires WellFormed(n)
  {
    Computed((m: Machine) => Meaning(n, pc, leaves(m)))
  }

  /** What the translation takes the tree for: the folded constant, where there is one. */
  function Taken(n: Node, pc: Pc, leaves: Leaves): PcValue
    requires WellFormed(n)
  {
    if GetAsInt(n, pc).Value? then Known(GetAsInt(n, pc).v % Pow2(64)) else AtRunTime(n, pc, leaves)
  }

  /** If the tree folds, it folds right. */
  predicate FoldsRight(n: Node, pc: Pc) {
    && WellFormed(n) && Width(n) == 64
    && (GetAsInt(n, pc).Value? ==> RightShiftsOk(n, pc) && AmountsOk(n, pc) && DivisionsOk(n, pc))
  }

  lemma TakenIsRight(n: Node, pc: Pc, leaves: Leaves, m: Machine)
    requires FoldsRight(n, pc)
    ensures EvalPc(Taken(n, pc, leaves), m) == EvalPc(AtRunTime(n, pc, leaves), m)
    ensures Dispatch.AsInt(Taken(n, pc, leaves)).Some? <==> GetAsInt(n, pc).Value?
  {
    if GetAsInt(n, pc).Value? { DirectTargetIsExact(n, pc, leaves(m)); }
  }

  predicate TargetFoldsRight(t: Target, pc: Pc) {
    match t
    case Tree(n) => FoldsRight(n, pc)
    case Csel(_, a, b) => FoldsRight(a, pc) && FoldsRight(b, pc)
  }

  function TargetTaken(t: Target, pc: Pc, leaves: Leaves): PcValue
    requires TargetFoldsRight(t, pc)
  {
    match t
    case Tree(n) => Taken(n, pc, leaves)
    case Csel(c, a, b) => Select(c, Taken(a, pc, leaves), Taken(b, pc, leaves))
  }

  function TargetAtRunTime(t: Target, pc: Pc, leaves: Leaves): PcValue
    requires TargetFoldsRight(t, pc)
  {
    match t
    case Tree(n) => AtRunTime(n, pc, leaves)
    case Csel(c, a, b) => Select(c, AtRunTime(a, pc, leaves), AtRunTime(b, pc, leaves))
  }

  predicate Folds(t: Target, pc: Pc) {
    match t
    case Tree(n) => GetAsInt(n, pc).Value?
    case Csel(_, a, b) => GetAsInt(a, pc).Value? && GetAsInt(b, pc).Value?
  }

  /** Taking the folded constants for the target changes nothing a block's end does, and makes a plain branch chainable
      exactly when its tree, or both arms of its select, fold. */
  lemma ExitIsRight(kind: BranchKind, t: Target, pc: Pc, leaves: Leaves, th: GuestThread, memory: Memory)
    requires TargetFoldsRight(t, pc)
    ensures Terminate(WritePc(kind, TargetTaken(t, pc, leaves)), th, memory)
         == Terminate(WritePc(kind, TargetAtRunTime(t, pc, leaves)), th, memory)
    ensures !Dispatch.SelectExit(WritePc(kind, TargetTaken(t, pc, leaves))).Leave? <==> kind.Branch? && Folds(t, pc)
  {
    var m := Machine(th.regs, memory);
    match t
    case Tree(n) => TakenIsRight(n, pc, leaves, m);
    case Csel(_, a, b) => TakenIsRight(a, pc, leaves, m); TakenIsRight(b, pc, leaves, m);
  }
}
