/** Values shared by the oracle server and the dapp client. */
module Common {

  /** An account address as web3 hands it out: an opaque hex string. */
  type Address = string

  /** A JavaScript value that may be `undefined`. */
  datatype Option<T> = None | Some(value: T)

  /** The outcome of an operation that either yields a value or fails. */
  datatype Result<T, E> = Success(value: T) | Failure(error: E)

  /** JavaScript array indexing: reading at or past the end yields `undefined`. */
  function At<T>(s: seq<T>, i: nat): (r: Option<T>)
    ensures r.Some? <==> i < |s|
    ensures r.Some? ==> r.value == s[i]
  {
    if i < |s| then Some(s[i]) else None
  }

  predicate NoDuplicates<T(==)>(s: seq<T>)
  {
    forall i, j :: 0 <= i < j < |s| ==> s[i] != s[j]
  }
}
