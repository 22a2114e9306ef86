/** Model of bit/binaryops.py: an operator wrapped together with an optional inverse. */
module BinaryOps {
  import opened Results

  /** `BinaryOP(op, inverse=None)`: both fields are set once at construction. */
  datatype BinaryOp = BinaryOp(binop: (int, int) -> int, inverseOp: Option<(int, int) -> int>)

  /** `BinaryOP.__call__(a, b)`: applies the wrapped operator. */
  function Call(b: BinaryOp, x: int, y: int): (r: int)
    ensures IsAddition(b) ==> r == x + y
  {
    b.binop(x, y)
  }

  /** `BinaryOP.inverse(a, b)`: applies the inverse, or raises TypeError when none was given. */
  function Inverse(b: BinaryOp, x: int, y: int): (r: Result<int>)
    ensures r.Err? <==> b.inverseOp.None?
    ensures r.Err? ==> r.error == TypeError
    ensures r.Ok? ==> r.value == b.inverseOp.value(x, y)
  {
    match b.inverseOp
    case Some(inv) => Ok(inv(x, y))
    case None => Err(TypeError)
  }

  /** `Add = BinaryOP(add, sub)`. */
  const Add: BinaryOp := BinaryOp((x: int, y: int) => x + y, Some((x: int, y: int) => x - y))

  /** The operator is integer addition. */
  ghost predicate IsAddition(b: BinaryOp)
  {
    forall x: int, y: int :: b.binop(x, y) == x + y
  }

  /** An inverse, when present, undoes addition: it is integer subtraction. */
  ghost predicate InvertsAddition(b: BinaryOp)
  {
    b.inverseOp.Some? ==> forall x: int, y: int :: b.inverseOp.value(x, y) == x - y
  }

  lemma AdditionCall(b: BinaryOp, x: int, y: int)
    requires IsAddition(b)
    ensures Call(b, x, y) == x + y
  {
  }

  /** With an inverse that undoes addition, `inverse` subtracts. */
  lemma SubtractionInverse(b: BinaryOp, x: int, y: int)
    requires InvertsAddition(b) && b.inverseOp.Some?
    ensures Inverse(b, x, y) == Ok(x - y)
  {
  }

  /** `Add` is integer addition paired with subtraction. */
  lemma AddIsAddition()
    ensures IsAddition(Add) && InvertsAddition(Add) && Add.inverseOp.Some?
  {
  }

  /** `Add.inverse(Add(a, b), b) == a`. */
  lemma AddInverseUndoes(a: int, b: int)
    ensures Inverse(Add, Call(Add, a, b), b) == Ok(a)
  {
  }

  /** Without an inverse every call of `inverse` raises TypeError, whatever its arguments. */
  lemma MissingInverseRaises(b: BinaryOp, x: int, y: int)
    requires b.inverseOp.None?
    ensures Inverse(b, x, y) == Err(TypeError)
  {
  }
}
