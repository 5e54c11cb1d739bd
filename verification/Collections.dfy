/** Small helpers shared by the modules. */
module Collections {

  datatype Option<T> = None | Some(value: T)

  /** The sequence without its element a. */
  function Drop<T>(s: seq<T>, a: nat): seq<T>
    requires a < |s|
  {
    s[..a] + s[a + 1..]
  }
}
