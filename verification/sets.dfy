/** Cardinality facts about finite sets used by the termination measures
    and counting arguments of the model. */
module Sets {

  lemma {:induction false} SubsetSize<T>(a: set<T>, b: set<T>)
    requires a <= b
    ensures |a| <= |b|
    ensures a < b ==> |a| < |b|
    decreases |b|
  {
    if b != {} {
      var x :| x in b;
      if x in a {
        SubsetSize(a - {x}, b - {x});
        if a < b {
          var y :| y in b && y !in a;
          assert y in b - {x} && y !in a - {x};
        }
      } else {
        SubsetSize(a, b - {x});
      }
    }
  }

  /** Two sets of which one includes the other and that have the same
      size are equal. */
  lemma SubsetSameSizeEqual<T>(a: set<T>, b: set<T>)
    requires a <= b && |a| == |b|
    ensures a == b
  {
    if a < b {
      SubsetSize(a, b);
    }
  }

  /** Growing a set shrinks what is left of a fixed universe. */
  lemma RemainderShrinks<T>(universe: set<T>, small: set<T>, large: set<T>, x: T)
    requires small <= large && x in large - small && x in universe
    ensures |universe - large| < |universe - small|
  {
    assert universe - large < universe - small by {
      assert x in universe - small && x !in universe - large;
    }
    SubsetSize(universe - large, universe - small);
  }

  /** The elements of a sequence. */
  function Elements<T>(s: seq<T>): set<T>
  {
    set x | x in s
  }

  /** No element occurs twice. */
  predicate Distinct<T(==)>(s: seq<T>)
  {
    forall i, j | 0 <= i < j < |s| :: s[i] != s[j]
  }

  /** A sequence has at least as many entries as distinct elements, and
      exactly as many when no element repeats. */
  lemma {:induction false} ElementsSize<T>(s: seq<T>)
    ensures |Elements(s)| <= |s|
    ensures |Elements(s)| == |s| <==> Distinct(s)
  {
    if |s| > 0 {
      var t := s[..|s| - 1];
      var x := s[|s| - 1];
      ElementsSize(t);
      assert s == t + [x];
      assert Elements(s) == Elements(t) + {x};
      if x in t {
        assert Elements(s) == Elements(t);
        var i :| 0 <= i < |t| && t[i] == x;
        assert s[i] == s[|s| - 1];
      } else {
        assert |Elements(s)| == |Elements(t)| + 1;
        if Distinct(s) {
          assert Distinct(t) by {
            forall i, j | 0 <= i < j < |t| ensures t[i] != t[j] {
              assert t[i] == s[i] && t[j] == s[j];
            }
          }
        }
        if Distinct(t) {
          assert Distinct(s) by {
            forall i, j | 0 <= i < j < |s| ensures s[i] != s[j] {
              if j < |s| - 1 {
                assert t[i] == s[i] && t[j] == s[j];
              } else {
                assert s[i] == t[i] && t[i] in t;
              }
            }
          }
        }
      }
    }
  }

  /** Dropping the last entry of a repetition-free sequence leaves a
      repetition-free sequence without that entry. */
  lemma DistinctFront<T>(s: seq<T>)
    requires |s| > 0 && Distinct(s)
    ensures Distinct(s[..|s| - 1]) && s[|s| - 1] !in s[..|s| - 1]
    ensures Elements(s) == Elements(s[..|s| - 1]) + {s[|s| - 1]}
  {
    var front := s[..|s| - 1];
    forall i | 0 <= i < |front| ensures front[i] != s[|s| - 1] {
      assert front[i] == s[i];
    }
    assert s == front + [s[|s| - 1]];
  }
}
