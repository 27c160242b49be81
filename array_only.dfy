/** The `only` extension on arrays: the one element of a one-element array,
    and nothing for every other array. */
module ArrayOnly {

  /** Swift's `Optional`: `None` is `nil`. */
  datatype Option<+T> = None | Some(value: T)

  /** `count == 1 ? first : nil` */
  function Only<T>(a: seq<T>): (r: Option<T>)
    ensures r.Some? <==> |a| == 1
    ensures r.Some? ==> r.value == a[0]
    ensures |a| == 0 ==> r == None
    ensures |a| >= 2 ==> r == None
  {
    if |a| == 1 then Some(a[0]) else None
  }
}
