/**
 * The RIB table both bottleneck test modules set up: three prefixes with
 * three AS paths each, and the common vectors the tests expect of them.
 */
module BottleneckFixture {
  import opened Wrappers
  import opened Bytes
  import opened CommonSuffixes

  lemma RevSetOfThree(x: seq<u32>, y: seq<u32>, z: seq<u32>)
    ensures RevSet({x, y, z}) == {Reverse(x), Reverse(y), Reverse(z)}
  {
    var three := {x, y, z};
    forall s | s in RevSet(three) ensures s in {Reverse(x), Reverse(y), Reverse(z)} {
      var p :| p in three && s == Reverse(p);
    }
    assert Reverse(x) in RevSet(three) && Reverse(y) in RevSet(three) && Reverse(z) in RevSet(three);
  }

  lemma LcpOfThree(x: seq<u32>, y: seq<u32>, z: seq<u32>)
    ensures Lcp({x, y, z}) == CommonPrefix(CommonPrefix(x, y), z)
  {
    LongestCommonPrefixSingleton(x);
    LongestCommonPrefixInsert(x, {x}, y);
    assert {x} + {y} == {x, y};
    LongestCommonPrefixInsert(CommonPrefix(x, y), {x, y}, z);
    assert {x, y} + {z} == {x, y, z};
    LongestCommonPrefixUnique(Lcp({x, y, z}), CommonPrefix(CommonPrefix(x, y), z), {x, y, z});
  }

  /**
   * Three paths whose reversals agree on their first `k` elements, the first
   * two differing right after, and the third agreeing on those `k`: their
   * common vector is those `k` elements.
   */
  lemma CommonVectorOfThree(x: seq<u32>, y: seq<u32>, z: seq<u32>, k: nat)
    requires k <= |x| && k <= |y| && k <= |z|
    requires Reverse(x)[..k] == Reverse(y)[..k] == Reverse(z)[..k]
    requires k < |x| && k < |y| ==> Reverse(x)[k] != Reverse(y)[k]
    requires |x| == k || |y| == k || k < |z|
    ensures Lcp(RevSet({x, y, z})) == Reverse(x)[..k]
  {
    var rx, ry, rz := Reverse(x), Reverse(y), Reverse(z);
    RevSetOfThree(x, y, z);
    LcpOfThree(rx, ry, rz);
    CommonPrefixAt(rx, ry, k);
    var c := rx[..k];
    assert c[..k] == c;
    CommonPrefixAt(c, rz, k);
  }

  lemma OriginsOfThree(x: seq<u32>, y: seq<u32>, z: seq<u32>)
    requires Origin(x) == Origin(y) == Origin(z)
    ensures OriginsAgree({x, y, z})
  {
  }

  /** 1.0.139.0/24: three paths through 38040 to 23969. */
  lemma Prefix139(paths: set<seq<u32>>, x: seq<u32>, y: seq<u32>, z: seq<u32>)
    requires x == [2497, 38040, 23969] && y == [25152, 6939, 4766, 38040, 23969] && z == [4777, 6939, 4766, 38040, 23969]
    requires paths == {x, y, z}
    ensures PathsWellFormed(paths) && OriginsAgree(paths)
    ensures Lcp(RevSet(paths)) == [23969, 38040]
  {
    assert Reverse(x) == [23969, 38040, 2497];
    assert Reverse(y) == [23969, 38040, 4766, 6939, 25152];
    assert Reverse(z) == [23969, 38040, 4766, 6939, 4777];
    CommonVectorOfThree(x, y, z, 2);
    OriginsOfThree(x, y, z);
  }

  /** 1.0.204.0/22: three paths through 38040 to 23969. */
  lemma Prefix204(paths: set<seq<u32>>, x: seq<u32>, y: seq<u32>, z: seq<u32>)
    requires x == [2497, 38040, 23969] && y == [4777, 6939, 4766, 38040, 23969] && z == [25152, 2914, 38040, 23969]
    requires paths == {x, y, z}
    ensures PathsWellFormed(paths) && OriginsAgree(paths)
    ensures Lcp(RevSet(paths)) == [23969, 38040]
  {
    assert Reverse(x) == [23969, 38040, 2497];
    assert Reverse(y) == [23969, 38040, 4766, 6939, 4777];
    assert Reverse(z) == [23969, 38040, 2914, 25152];
    CommonVectorOfThree(x, y, z, 2);
    OriginsOfThree(x, y, z);
  }

  /** 1.0.6.0/24: three paths through 4826 and 38803 to 56203. */
  lemma Prefix6(paths: set<seq<u32>>, x: seq<u32>, y: seq<u32>, z: seq<u32>)
    requires x == [2497, 4826, 38803, 56203] && y == [25152, 6939, 4826, 38803, 56203] && z == [4777, 6939, 4826, 38803, 56203]
    requires paths == {x, y, z}
    ensures PathsWellFormed(paths) && OriginsAgree(paths)
    ensures Lcp(RevSet(paths)) == [56203, 38803, 4826]
  {
    assert Reverse(x) == [56203, 38803, 4826, 2497];
    assert Reverse(y) == [56203, 38803, 4826, 6939, 25152];
    assert Reverse(z) == [56203, 38803, 4826, 6939, 4777];
    CommonVectorOfThree(x, y, z, 3);
    OriginsOfThree(x, y, z);
  }
}
