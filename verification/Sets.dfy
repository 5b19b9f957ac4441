// The members of a list.
module Sets {
  function SetOf<T(==)>(s: seq<T>): set<T> {
    set x | x in s
  }
}
