/** Small shared vocabulary: optional values, bounded subtraction, removal from a map. */
module Wrappers {

  datatype Option<+T> = None | Some(value: T)

  function Min(a: int, b: int): int {
    if a <= b then a else b
  }

  function Max(a: int, b: int): int {
    if a >= b then a else b
  }

  function MaxReal(a: real, b: real): real {
    if a >= b then a else b
  }

  function Without<K, V>(m: map<K, V>, key: K): map<K, V> {
    map k | k in m && k != key :: m[k]
  }

  // Unsigned subtraction that stops at zero.
  function SaturatingSub(a: nat, b: nat): nat {
    if a >= b then a - b else 0
  }
}
