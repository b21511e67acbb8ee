/** The existential search that .NET's Array.Exists performs: does some
    element of the array satisfy the match predicate? The public key uses it
    twice, once to look a size up in its table of allowed sizes and once to
    look a share's hash up in its table of stored hashes. */
module ArrayExists {

  /** Scans `s` from the front and answers as soon as an element matches. */
  function Exists<T>(s: seq<T>, p: T -> bool): (r: bool)
    ensures r <==> exists i :: 0 <= i < |s| && p(s[i])
  {
    if s == [] then false
    else p(s[0]) || Exists(s[1..], p)
  }
}
