/** The bitwise operations on numbers of any width. */
module Bitwise {

  /** The low bit of k & j. */
  function Both(k: nat, j: nat): nat {
    if k % 2 == 1 && j % 2 == 1 then 1 else 0
  }

  function BitAnd(a: nat, b: nat): nat {
    if a == 0 || b == 0 then 0 else 2 * BitAnd(a / 2, b / 2) + Both(a, b)
  }

  function BitOr(a: nat, b: nat): nat {
    if a == 0 then b else if b == 0 then a else
      2 * BitOr(a / 2, b / 2) + if a % 2 == 1 || b % 2 == 1 then 1 else 0
  }

  function BitXor(a: nat, b: nat): nat {
    if a == 0 then b else if b == 0 then a else
      2 * BitXor(a / 2, b / 2) + if a % 2 != b % 2 then 1 else 0
  }
}
