/** Small types and facts shared by the other modules. */
module Collections {

  datatype Option<+T> = None | Some(value: T)

  function Elements<T>(s: seq<T>): set<T> {
    set x | x in s
  }

  lemma Associates<T>(a: seq<T>, b: seq<T>, c: seq<T>)
    ensures a + b + c == a + (b + c)
  {
  }
}

/** What an operation that may fail returns. */
module Results {

  datatype Result<+T> = Ok(value: T) | Err
}
