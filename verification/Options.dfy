/** The usual optional value, a C++ pointer that may be NULL, and a fact about sequences. */
module Options {
  datatype Option<+T> = None | Some(value: T)

  lemma AppendAssociates<T>(a: seq<T>, b: seq<T>, c: seq<T>)
    ensures a + b + c == a + (b + c)
  {
  }
}
