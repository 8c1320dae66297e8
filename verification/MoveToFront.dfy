/** Moving one element of a list to its front, as the way lists, the rows of the branch target
    buffer and the page-table buckets do. */
module MoveToFront {

  /** Element i leaves its place and x comes first. */
  function ToFront<T>(s: seq<T>, i: nat, x: T): (r: seq<T>)
    requires i < |s|
    ensures |r| == |s|
  {
    [x] + s[..i] + s[i + 1..]
  }

  function Promoted<T>(s: seq<T>, i: nat): (r: seq<T>)
    requires i < |s|
    ensures |r| == |s|
  {
    ToFront(s, i, s[i])
  }
}
