/** Facts about sequences shared by the modules: their element sets and duplicate-freedom. */
module Seqs {

  /** The set of elements of `s`. */
  function Elements<T(==)>(s: seq<T>): set<T>
  {
    set x | x in s
  }

  predicate NoDuplicates<T(==)>(s: seq<T>)
  {
    forall i, j | 0 <= i < j < |s| :: s[i] != s[j]
  }

  /** A non-empty sequence has its first element as a member. */
  lemma HeadIn<T>(s: seq<T>)
    ensures s != [] ==> s[0] in s
  {
  }

  /** Appending an element not yet present adds it to the elements and keeps them distinct. */
  lemma AppendFresh<T>(xs: seq<T>, x: T)
    requires x !in xs
    ensures Elements(xs + [x]) == Elements(xs) + {x}
    ensures NoDuplicates(xs) ==> NoDuplicates(xs + [x])
  {
    assert forall i | 0 <= i < |xs| :: (xs + [x])[i] == xs[i];
  }

  lemma {:induction false} ElementsSize<T>(s: seq<T>)
    ensures |Elements(s)| <= |s|
  {
    if s != [] {
      var init, x := s[..|s| - 1], s[|s| - 1];
      ElementsSize(init);
      assert s == init + [x];
      var before := Elements(init);
      if x in before {
        assert Elements(s) == before;
      } else {
        assert Elements(s) == before + {x};
        assert |before + {x}| == |before| + 1;
      }
    }
  }
}
