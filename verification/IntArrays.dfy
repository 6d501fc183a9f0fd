/** Integer arrays as sets, the index over them and the questions asked of it. */
module IntArrays {

  ghost function Elements(a: seq<int>): set<int> {
    set v | v in a
  }

  /** An index: leaves hold arrays, inner nodes hold subtrees. */
  datatype Index = Leaf(elems: seq<int>) | Node(kids: seq<Index>)

  /** Some leaf holds the array. */
  ghost predicate Indexed(t: Index, a: seq<int>) {
    match t
    case Leaf(b) => a == b
    case Node(kids) => exists i :: 0 <= i < |kids| && Indexed(kids[i], a)
  }

  datatype Strategy = Overlap | Same | Contains | ContainedBy

  /** What the operator behind a strategy asks. */
  ghost predicate Matches(st: Strategy, s: set<int>, query: set<int>) {
    match st
    case Overlap => s * query != {}
    case Same => s == query
    case Contains => query <= s
    case ContainedBy => s <= query
  }

  /** What is asked of a key: at a leaf the question itself, above it one that a larger set can answer. */
  function Asked(st: Strategy, leaf: bool): Strategy {
    if leaf then st else if st.Overlap? || st.ContainedBy? then Overlap else Contains
  }

  lemma {:induction false} SharedElement(st: Strategy, s: set<int>, query: set<int>) returns (v: int)
    requires Matches(st, s, query) && (st.Overlap? || (st.ContainedBy? && s != {}))
    ensures v in s && v in query
  {
    var shared := s * query;
    if st.ContainedBy? {
      assert shared == s;
    }
    if forall w :: w !in shared {
      assert false;
    }
    v :| v in shared;
  }

  lemma {:induction false} MatchesAbove(st: Strategy, s: set<int>, above: set<int>, query: set<int>)
    requires s <= above && Matches(st, s, query) && (st.ContainedBy? ==> s != {})
    ensures Matches(Asked(st, false), above, query)
  {
    if st.Overlap? || st.ContainedBy? {
      var v := SharedElement(st, s, query);
      assert v in above * query;
    }
  }
}
