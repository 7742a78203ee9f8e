/** Optional values: `None` stands for a NULL pointer or an absent result. */
module Wrappers {

  datatype Option<+T> = None | Some(value: T)

  /** What a conditional push leaves on a stack: the entry when there is one,
      nothing otherwise. */
  function Listed<T>(e: Option<T>): (s: seq<Option<T>>)
    ensures |s| <= 1 && (|s| == 1 <==> e.Some?)
    ensures |s| == 1 ==> s[0] == e
  {
    if e.Some? then [e] else []
  }
}
