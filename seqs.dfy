/** Facts about slices of a sequence that holds a concatenation. */
module Sequences {
  lemma SliceOfAppend<T>(buf: seq<T>, p: nat, x: seq<T>, y: seq<T>)
    requires p + |x| + |y| <= |buf| && buf[p..p + |x| + |y|] == x + y
    ensures buf[p..p + |x|] == x && buf[p + |x|..p + |x| + |y|] == y
  {
    assert buf[p..p + |x|] == buf[p..p + |x| + |y|][..|x|];
    assert buf[p + |x|..p + |x| + |y|] == buf[p..p + |x| + |y|][|x|..];
  }

  lemma SuffixOfAppend<T>(buf: seq<T>, p: nat, x: seq<T>, y: seq<T>)
    requires p <= |buf| && buf[p..] == x + y
    ensures p + |x| <= |buf| && buf[p..p + |x|] == x && buf[p + |x|..] == y
  {
    assert buf[p..p + |x|] == buf[p..][..|x|];
    assert buf[p + |x|..] == buf[p..][|x|..];
  }

  predicate NoAdjacentDuplicates<T(==)>(s: seq<T>) {
    forall i :: 0 <= i < |s| - 1 ==> s[i] != s[i + 1]
  }

  /** `Vec::dedup`: every run of equal neighbours collapses to one element. */
  function Dedup<T(==,!new)>(s: seq<T>): (r: seq<T>)
    ensures |r| <= |s| && (r == [] <==> s == [])
    ensures s != [] ==> r[0] == s[0] && r[|r| - 1] == s[|s| - 1]
    ensures NoAdjacentDuplicates(r)
    ensures forall x :: x in r <==> x in s
  {
    if |s| <= 1 then s
    else if s[0] == s[1] then Dedup(s[1..])
    else
      var rest := Dedup(s[1..]);
      assert s[1..][0] == s[1];
      assert forall x :: x in s <==> x == s[0] || x in s[1..];
      [s[0]] + rest
  }

  /** A sequence without equal neighbours is left as it is. */
  lemma {:induction false} DedupKeepsDistinctNeighbours<T(!new)>(s: seq<T>)
    requires NoAdjacentDuplicates(s)
    ensures Dedup(s) == s
  {
    if |s| > 1 {
      assert NoAdjacentDuplicates(s[1..]) by {
        forall i | 0 <= i < |s[1..]| - 1 ensures s[1..][i] != s[1..][i + 1] {
          assert s[1..][i] == s[i + 1] && s[1..][i + 1] == s[i + 2];
        }
      }
      DedupKeepsDistinctNeighbours(s[1..]);
      assert s == [s[0]] + s[1..];
    }
  }

  lemma DedupIdempotent<T(!new)>(s: seq<T>)
    ensures Dedup(Dedup(s)) == Dedup(s)
  {
    DedupKeepsDistinctNeighbours(Dedup(s));
  }

  /**
   * What `Vec::dedup` does as it scans left to right: an element is kept
   * exactly when it differs from the last one kept.
   */
  lemma {:induction false} DedupSnoc<T(!new)>(s: seq<T>, x: T)
    ensures Dedup(s + [x]) == if s != [] && s[|s| - 1] == x then Dedup(s) else Dedup(s) + [x]
    decreases |s|
  {
    if |s| == 0 {
    } else if |s| == 1 {
      assert s + [x] == [s[0], x];
      if s[0] == x {
        assert (s + [x])[1..] == [x];
      } else {
        assert (s + [x])[1..] == [x];
        assert Dedup(s + [x]) == [s[0]] + Dedup([x]);
      }
    } else {
      var t := s + [x];
      assert t[0] == s[0] && t[1] == s[1];
      assert t[1..] == s[1..] + [x];
      DedupSnoc(s[1..], x);
      assert s[1..][|s[1..]| - 1] == s[|s| - 1];
    }
  }
}
