/**
 * What the bottleneck search computes for one prefix.
 *
 * Every AS path ends at the AS that originates the prefix.  Reversed, the
 * paths all start there, and the longest prefix that all reversed paths
 * share is the reversed longest common suffix of the paths: the chain of
 * ASes every route to the prefix passes through.  Its last element, the one
 * farthest from the origin, is the bottleneck AS.
 */
module CommonSuffixes {
  import opened Wrappers
  import opened Bytes

  /** `Vec::reverse` */
  function Reverse(s: seq<u32>): (r: seq<u32>)
    ensures |r| == |s|
    ensures forall i :: 0 <= i < |s| ==> r[i] == s[|s| - 1 - i]
  {
    if s == [] then [] else [s[|s| - 1]] + Reverse(s[..|s| - 1])
  }

  lemma ReverseReverse(s: seq<u32>)
    ensures Reverse(Reverse(s)) == s
  {
  }

  /** `Vec::first` */
  function First(s: seq<u32>): Option<u32> {
    if s == [] then None else Some(s[0])
  }

  /** The AS that announced the prefix: the last hop of the path. */
  function Origin(path: seq<u32>): Option<u32> {
    if path == [] then None else Some(path[|path| - 1])
  }

  lemma FirstOfReverse(path: seq<u32>)
    ensures First(Reverse(path)) == Origin(path)
  {
  }

  /** The longest prefix two sequences share. */
  function CommonPrefix(a: seq<u32>, b: seq<u32>): (r: seq<u32>)
    ensures r <= a && r <= b
    ensures |r| < |a| && |r| < |b| ==> a[|r|] != b[|r|]
  {
    if a == [] || b == [] || a[0] != b[0] then []
    else
      var r := [a[0]] + CommonPrefix(a[1..], b[1..]);
      assert a == [a[0]] + a[1..] && b == [b[0]] + b[1..];
      r
  }

  /** Every prefix both sequences share is a prefix of their common prefix. */
  lemma CommonPrefixGreatest(a: seq<u32>, b: seq<u32>, d: seq<u32>)
    requires d <= a && d <= b
    ensures d <= CommonPrefix(a, b)
  {
  }

  /** The common prefix is the first `k` elements when they agree up to `k` and not at `k`. */
  lemma CommonPrefixAt(a: seq<u32>, b: seq<u32>, k: nat)
    requires k <= |a| && k <= |b| && a[..k] == b[..k]
    requires k < |a| && k < |b| ==> a[k] != b[k]
    ensures CommonPrefix(a, b) == a[..k]
  {
    assert a[..k] <= b;
    CommonPrefixGreatest(a, b, a[..k]);
  }

  predicate IsCommonPrefix(c: seq<u32>, paths: set<seq<u32>>) {
    forall s :: s in paths ==> c <= s
  }

  /** `c` is a prefix of every sequence, and every other such prefix is a prefix of `c`. */
  ghost predicate IsLongestCommonPrefix(c: seq<u32>, paths: set<seq<u32>>) {
    IsCommonPrefix(c, paths) && forall d :: IsCommonPrefix(d, paths) ==> d <= c
  }

  lemma LongestCommonPrefixUnique(c: seq<u32>, d: seq<u32>, paths: set<seq<u32>>)
    requires IsLongestCommonPrefix(c, paths) && IsLongestCommonPrefix(d, paths)
    ensures c == d
  {
    assert c <= d && d <= c;
  }

  lemma LongestCommonPrefixSingleton(x: seq<u32>)
    ensures IsLongestCommonPrefix(x, {x})
  {
    forall d | IsCommonPrefix(d, {x}) ensures d <= x {
      assert x in {x};
    }
  }

  /** Adding a sequence shortens the longest common prefix to its common prefix with that sequence. */
  lemma LongestCommonPrefixInsert(c: seq<u32>, paths: set<seq<u32>>, p: seq<u32>)
    requires IsLongestCommonPrefix(c, paths)
    ensures IsLongestCommonPrefix(CommonPrefix(c, p), paths + {p})
  {
    var r := CommonPrefix(c, p);
    forall s | s in paths + {p} ensures r <= s {
      if s in paths {
        assert c <= s;
      }
    }
    forall d | IsCommonPrefix(d, paths + {p}) ensures d <= r {
      assert IsCommonPrefix(d, paths) by {
        forall s | s in paths ensures d <= s {
          assert s in paths + {p};
        }
      }
      assert p in paths + {p};
      CommonPrefixGreatest(c, p, d);
    }
  }

  lemma {:induction false} LongestCommonPrefixExists(paths: set<seq<u32>>)
    requires paths != {}
    ensures exists c :: IsLongestCommonPrefix(c, paths)
    decreases paths
  {
    var x :| x in paths;
    if paths == {x} {
      LongestCommonPrefixSingleton(x);
    } else {
      var rest := paths - {x};
      LongestCommonPrefixExists(rest);
      var c :| IsLongestCommonPrefix(c, rest);
      LongestCommonPrefixInsert(c, rest, x);
      assert rest + {x} == paths;
    }
  }

  /** The longest common prefix of a non-empty set of sequences. */
  ghost function Lcp(paths: set<seq<u32>>): (c: seq<u32>)
    requires paths != {}
    ensures IsLongestCommonPrefix(c, paths)
  {
    LongestCommonPrefixExists(paths);
    var c :| IsLongestCommonPrefix(c, paths);
    c
  }

  /** The paths reversed, origin first. */
  function RevSet(paths: set<seq<u32>>): (r: set<seq<u32>>)
    ensures r == {} <==> paths == {}
  {
    var r := set p | p in paths :: Reverse(p);
    assert forall p :: p in paths ==> Reverse(p) in r;
    r
  }

  lemma RevSetInsert(paths: set<seq<u32>>, p: seq<u32>)
    ensures RevSet(paths + {p}) == RevSet(paths) + {Reverse(p)}
  {
    var larger := paths + {p};
    forall s | s in RevSet(larger) ensures s in RevSet(paths) + {Reverse(p)} {
      var q :| q in larger && s == Reverse(q);
      if q != p {
        assert q in paths;
      }
    }
    forall s | s in RevSet(paths) + {Reverse(p)} ensures s in RevSet(larger) {
      if s != Reverse(p) {
        var q :| q in paths && s == Reverse(q);
        assert q in larger;
      }
    }
  }

  /** Every path has the same origin ("every IP should always belong to only one AS"). */
  predicate OriginsAgree(paths: set<seq<u32>>) {
    forall p, q :: p in paths && q in paths ==> Origin(p) == Origin(q)
  }

  /** The paths announced by origin `o`. */
  function SameOrigin(paths: set<seq<u32>>, o: Option<u32>): set<seq<u32>> {
    set p | p in paths && Origin(p) == o
  }

  /** A path no other path of the set is shorter than: the first one after `sort_by` on length. */
  predicate IsShortest(p: seq<u32>, paths: set<seq<u32>>) {
    p in paths && forall q :: q in paths ==> |p| <= |q|
  }

  lemma {:induction false} ShortestExists(paths: set<seq<u32>>)
    requires paths != {}
    ensures exists p :: IsShortest(p, paths)
    decreases paths
  {
    var x :| x in paths;
    if paths != {x} {
      var rest := paths - {x};
      ShortestExists(rest);
      var p :| IsShortest(p, rest);
      if |x| < |p| {
        assert IsShortest(x, paths);
      } else {
        assert IsShortest(p, paths);
      }
    } else {
      assert IsShortest(x, paths);
    }
  }

  /** A set of paths as the RIB table holds them: at least one path, and no path empty. */
  predicate PathsWellFormed(paths: set<seq<u32>>) {
    paths != {} && forall p :: p in paths ==> p != []
  }

  /**
   * For paths that agree on their origin, the common vector starts with that
   * origin, is no longer than any path, and read backwards ends every path.
   */
  lemma CommonSuffixOfAgreeingPaths(paths: set<seq<u32>>, p: seq<u32>)
    requires PathsWellFormed(paths) && OriginsAgree(paths) && p in paths
    ensures var c := Lcp(RevSet(paths));
      1 <= |c| <= |p| && Some(c[0]) == Origin(p) && Reverse(c) == p[|p| - |c|..]
  {
    var c := Lcp(RevSet(paths));
    var o := p[|p| - 1];
    assert IsCommonPrefix([o], RevSet(paths)) by {
      forall s | s in RevSet(paths) ensures [o] <= s {
        var q :| q in paths && s == Reverse(q);
        assert Origin(q) == Origin(p);
      }
    }
    assert [o] <= c;
    assert Reverse(p) in RevSet(paths);
    assert c <= Reverse(p);
    var suffix := p[|p| - |c|..];
    assert Reverse(c) == suffix by {
      forall i | 0 <= i < |c| ensures Reverse(c)[i] == suffix[i] {
        assert c[|c| - 1 - i] == Reverse(p)[|c| - 1 - i];
      }
    }
  }

  /** The bottleneck AS: the last element of the common vector, the AS farthest from the origin. */
  function Last(c: seq<u32>): u32
    requires c != []
  {
    c[|c| - 1]
  }

  /**
   * The loop at the heart of both variants: `for i in 1..len` over the
   * candidate, truncating it at the first index where the reversed path
   * differs.  The first elements were compared before, and the candidate is
   * never longer than the path.
   */
  method TruncateAtMismatch(revCommonSuffix: seq<u32>, revAsPath: seq<u32>) returns (c: seq<u32>)
    requires |revCommonSuffix| <= |revAsPath|
    requires First(revCommonSuffix) == First(revAsPath)
    ensures c == CommonPrefix(revCommonSuffix, revAsPath)
  {
    c := revCommonSuffix;
    var len := |revCommonSuffix|;
    if len == 0 {
      CommonPrefixAt(revCommonSuffix, revAsPath, 0);
      return;
    }
    var i := 1;
    while i < len
      invariant 1 <= i <= len
      invariant c == revCommonSuffix
      invariant revCommonSuffix[..i] == revAsPath[..i]
    {
      if revAsPath[i] != c[i] {
        CommonPrefixAt(revCommonSuffix, revAsPath, i);
        c := c[..i];
        return;
      }
      assert revCommonSuffix[..i + 1] == revCommonSuffix[..i] + [revCommonSuffix[i]];
      assert revAsPath[..i + 1] == revAsPath[..i] + [revAsPath[i]];
      i := i + 1;
    }
    assert revCommonSuffix[..len] == revCommonSuffix;
    CommonPrefixAt(revCommonSuffix, revAsPath, len);
  }
}
