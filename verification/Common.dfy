/** Types that several components use. */
module Common {

  type byte = b: int | 0 <= b < 256

  datatype Option<+T> = None | Some(value: T) {
    function ToSeq(): (s: seq<T>) { if Some? then [value] else [] }
  }
}
