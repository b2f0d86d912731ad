/** Result types shared by the models. */
module Wrappers {

  datatype Option<+T> = None | Some(value: T)

  /** Outcome of reading a prefix of a byte sequence: a value and the number of bytes it used. */
  datatype Parse<+T> = Fail | Ok(value: T, used: nat) {
    /** The same outcome when `n` bytes were used before. */
    function After(n: nat): Parse<T> {
      match this
      case Fail => Fail
      case Ok(v, used) => Ok(v, n + used)
    }
  }

  lemma NonemptyHasMember<T>(s: seq<T>)
    ensures s == [] || exists x :: x in s
  {
    if s != [] { assert s[0] in s; }
  }
}
