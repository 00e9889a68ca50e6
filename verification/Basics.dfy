/** Optional values, and sequences as stacks. */
module Basics {

  datatype Option<T> = None | Some(value: T)

  function Top<T>(s: seq<T>): T
    requires s != []
  {
    s[|s| - 1]
  }

  function Pop<T>(s: seq<T>): seq<T>
    requires s != []
  {
    s[..|s| - 1]
  }

  function SetTop<T>(s: seq<T>, x: T): seq<T>
    requires s != []
  {
    s[|s| - 1 := x]
  }
}
