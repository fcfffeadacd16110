/** Optional values and fallible reads, as the parser composes them. */
module Wrappers {

  /** Rust's `Option<T>`. */
  datatype Option<+T> = None | Some(value: T)

  /** Rust's `Result<T, E>` with the error payload dropped: only success matters to the parser. */
  datatype Result<+T> = Ok(value: T) | Err

  /** The elements of an optional value, as a sequence of length 0 or 1. */
  function OptionToSeq<T>(o: Option<T>): (s: seq<T>)
    ensures |s| <= 1
    ensures s == [] <==> o.None?
    ensures o.Some? ==> s[0] == o.value
  {
    match o
    case None => []
    case Some(v) => [v]
  }

  /** The values of the present elements, in order. */
  function Somes<T>(os: seq<Option<T>>): seq<T> {
    if os == [] then [] else Somes(os[..|os| - 1]) + OptionToSeq(os[|os| - 1])
  }

  /** The positions of the present elements, in order. */
  function PresentIndices<T>(os: seq<Option<T>>): seq<nat> {
    if os == [] then []
    else PresentIndices(os[..|os| - 1]) + (if os[|os| - 1].Some? then [|os| - 1] else [])
  }

  /**
   * `Somes` keeps each present element exactly once, in order, and drops
   * every absent one: its m-th value sits at the m-th present position.
   */
  lemma {:induction false} SomesIndexed<T>(os: seq<Option<T>>)
    ensures var ix := PresentIndices(os);
      && |Somes(os)| == |ix|
      && (forall m :: 0 <= m < |ix| ==> ix[m] < |os| && os[ix[m]].Some? && Somes(os)[m] == os[ix[m]].value)
      && (forall m1, m2 :: 0 <= m1 < m2 < |ix| ==> ix[m1] < ix[m2])
      && (forall i :: 0 <= i < |os| && os[i].Some? ==> i in ix)
  {
    PresentIndicesOrdered(os);
    PresentIndicesComplete(os);
    SomesAtPresent(os);
  }

  /** The present positions are positions of present elements, in increasing order. */
  lemma {:induction false} PresentIndicesOrdered<T>(os: seq<Option<T>>)
    ensures forall m :: 0 <= m < |PresentIndices(os)| ==> PresentIndices(os)[m] < |os|
    ensures forall m :: 0 <= m < |PresentIndices(os)| ==> os[PresentIndices(os)[m]].Some?
    ensures forall m1, m2 :: 0 <= m1 < m2 < |PresentIndices(os)| ==> PresentIndices(os)[m1] < PresentIndices(os)[m2]
  {
    if os != [] {
      var init := os[..|os| - 1];
      PresentIndicesOrdered(init);
      var ix, ixInit := PresentIndices(os), PresentIndices(init);
      assert ix == ixInit + (if os[|os| - 1].Some? then [|os| - 1] else []);
      forall m | 0 <= m < |ixInit|
        ensures ix[m] == ixInit[m] && ix[m] < |init| && os[ix[m]] == init[ixInit[m]]
      {
      }
    }
  }

  /** Every present element has its position listed. */
  lemma {:induction false} PresentIndicesComplete<T>(os: seq<Option<T>>)
    ensures forall i :: 0 <= i < |os| && os[i].Some? ==> i in PresentIndices(os)
  {
    if os != [] {
      var init := os[..|os| - 1];
      PresentIndicesComplete(init);
      forall i | 0 <= i < |init| ensures init[i] == os[i] { }
    }
  }

  /** The m-th value of `Somes` is the element at the m-th present position. */
  lemma {:induction false} SomesAtPresent<T>(os: seq<Option<T>>)
    ensures var ix := PresentIndices(os);
      && |Somes(os)| == |ix|
      && (forall m :: 0 <= m < |ix| ==> ix[m] < |os| && os[ix[m]].Some? && Somes(os)[m] == os[ix[m]].value)
  {
    PresentIndicesOrdered(os);
    if os != [] {
      var init := os[..|os| - 1];
      SomesAtPresent(init);
      forall i | 0 <= i < |init| ensures init[i] == os[i] { }
    }
  }

  /** No value survives exactly when every element is absent. */
  lemma {:induction false} SomesEmpty<T>(os: seq<Option<T>>)
    ensures Somes(os) == [] <==> forall i :: 0 <= i < |os| ==> os[i].None?
  {
    if os != [] {
      var init := os[..|os| - 1];
      SomesEmpty(init);
      forall i | 0 <= i < |init| ensures init[i] == os[i] { }
    }
  }
}
