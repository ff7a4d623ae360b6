// Machine words and optional values.
module Words {

  // unsigned long int: config.h fixes it at four bytes
  const ULONG_MODULUS: nat := 0x1_0000_0000

  type Word = n: nat | n < ULONG_MODULUS

  datatype Option<T> = None | Some(value: T) {
    predicate IsFailure() {
      None?
    }

    function PropagateFailure<U>(): Option<U>
      requires None?
    {
      None
    }

    function GetOr(otherwise: T): T {
      if Some? then value else otherwise
    }

    function Extract(): T
      requires Some?
    {
      value
    }
  }

  // The value of a C comparison or logical operator
  function Truth(b: bool): Word {
    if b then 1 else 0
  }

  function Max(a: nat, b: nat): nat {
    if a >= b then a else b
  }
}
