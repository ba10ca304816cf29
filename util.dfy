/** Slice helpers. */
module Util {

  /** A Go slice as far as its value goes: `nil`, or a (possibly empty)
      run of elements. */
  datatype Slice<T> = Nil | Of(elems: seq<T>)
  {
    function Len(): nat
    {
      if Nil? then 0 else |elems|
    }

    function Elems(): seq<T>
    {
      if Nil? then [] else elems
    }
  }

  /** `CloneSlice`: nil stays nil; otherwise the elements are appended to a
      nil slice, which again gives nil when there are none. */
  function CloneSlice<T>(s: Slice<T>): (r: Slice<T>)
    ensures s.Nil? ==> r.Nil?
    ensures r.Nil? <==> s.Len() == 0
    ensures r.Len() == s.Len() && r.Elems() == s.Elems()
  {
    if s.Nil? then Nil
    else AppendToNil(s.elems)
  }

  /** `append(S(nil), xs...)`. */
  function AppendToNil<T>(xs: seq<T>): (r: Slice<T>)
    ensures r.Elems() == xs
    ensures r.Nil? <==> xs == []
  {
    if xs == [] then Nil else Of([] + xs)
  }
}
