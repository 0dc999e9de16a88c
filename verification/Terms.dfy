/** Symbolic values of the native-graph frontend and what they denote. */
module Terms {

  datatype Term =
    | Constant(size: nat, value: nat)
    | Input(size: nat, id: nat)
    | Committed(size: nat, memory: nat, address: Term)
    | Any(arg: Term)
    | Not(arg: Term)
    | And(a: Term, b: Term)
    | Or(a: Term, b: Term)
    | Equal(a: Term, b: Term)
    | Mux(condition: Term, yes: Term, no: Term)
    | Op(size: nat, name: nat, args: seq<Term>)

  function Width(t: Term): nat {
    match t
    case Constant(size, _) => size
    case Input(size, _) => size
    case Committed(size, _, _) => size
    case Any(_) => 1
    case Not(_) => 1
    case And(_, _) => 1
    case Or(_, _) => 1
    case Equal(_, _) => 1
    case Mux(_, yes, _) => Width(yes)
    case Op(size, _, _) => size
  }

  /** The inputs and committed memories of one evaluation, and the meaning of
      the primitive operations. */
  datatype World = World(input: nat -> nat, memory: (nat, nat) -> nat, operate: (nat, seq<nat>) -> nat)

  function Flag(b: bool): nat { if b then 1 else 0 }

  predicate Holds(t: Term, w: World) { Eval(t, w) != 0 }

  function Eval(t: Term, w: World): nat
    decreases t, 0
  {
    match t
    case Constant(_, value) => value
    case Input(_, id) => w.input(id)
    case Committed(_, memory, address) => w.memory(memory, Eval(address, w))
    case Any(a) => Flag(Eval(a, w) != 0)
    case Not(a) => Flag(Eval(a, w) == 0)
    case And(a, b) => Flag(Eval(a, w) != 0 && Eval(b, w) != 0)
    case Or(a, b) => Flag(Eval(a, w) != 0 || Eval(b, w) != 0)
    case Equal(a, b) => Flag(Eval(a, w) == Eval(b, w))
    case Mux(c, yes, no) => if Eval(c, w) != 0 then Eval(yes, w) else Eval(no, w)
    case Op(_, name, args) => w.operate(name, EvalAll(args, w))
  }

  function EvalAll(ts: seq<Term>, w: World): (r: seq<nat>)
    ensures |r| == |ts|
    decreases ts, 1
  {
    seq(|ts|, i requires 0 <= i < |ts| => Eval(ts[i], w))
  }

  lemma HoldsConnectives(a: Term, b: Term, w: World)
    ensures Holds(And(a, b), w) <==> Holds(a, w) && Holds(b, w)
    ensures Holds(Or(a, b), w) <==> Holds(a, w) || Holds(b, w)
    ensures Holds(Not(a), w) <==> !Holds(a, w)
    ensures Holds(Equal(a, b), w) <==> Eval(a, w) == Eval(b, w)
  {}
}
