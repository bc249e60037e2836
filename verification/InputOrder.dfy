/** The order on byte strings that pki/input.h defines with a pointer-advancing loop. */
module InputOrder {
  import opened Der

  /** Lexicographic order: a proper prefix, or smaller at the first difference. */
  ghost predicate Less(a: Input, b: Input) {
    if a == [] || b == [] then b != []
    else a[0] < b[0] || (a[0] == b[0] && Less(a[1..], b[1..]))
  }

  /** operator< on Input. */
  method LessThan(lhs: Input, rhs: Input) returns (less: bool)
    ensures less <==> Less(lhs, rhs)
  {
    var i := 0;
    while i != |lhs| && i != |rhs|
      invariant i <= |lhs| && i <= |rhs|
      invariant Less(lhs[i..], rhs[i..]) <==> Less(lhs, rhs)
      decreases |lhs| - i
    {
      if lhs[i] < rhs[i] {
        return true;
      } else if rhs[i] < lhs[i] {
        return false;
      }
      assert lhs[i..][1..] == lhs[i + 1..] && rhs[i..][1..] == rhs[i + 1..];
      i := i + 1;
    }
    return i != |rhs|;
  }

  lemma {:induction false} LessIsTransitive(a: Input, b: Input, c: Input)
    requires Less(a, b) && Less(b, c)
    ensures Less(a, c)
  {
    if a != [] && a[0] == b[0] == c[0] {
      LessIsTransitive(a[1..], b[1..], c[1..]);
    }
  }

  /** Exactly one of less, equal and greater holds; equality is equality of all bytes. */
  lemma {:induction false} LessIsTotal(a: Input, b: Input)
    ensures Less(a, b) <==> !Less(b, a) && a != b
  {
    if a != [] && b != [] {
      LessIsTotal(a[1..], b[1..]);
      assert a == [a[0]] + a[1..] && b == [b[0]] + b[1..];
    }
  }

  /** Comparing strings that start with blocks of equal size: the blocks decide first. */
  lemma {:induction false} LessOfBlocks(a: Input, b: Input, c: Input, d: Input)
    requires |a| == |c|
    ensures Less(a + b, c + d) <==> Less(a, c) || (a == c && Less(b, d))
  {
    if a == [] {
      assert a + b == b && c + d == d;
    } else {
      assert (a + b)[1..] == a[1..] + b && (c + d)[1..] == c[1..] + d;
      LessOfBlocks(a[1..], b, c[1..], d);
      assert a == [a[0]] + a[1..] && c == [c[0]] + c[1..];
    }
  }

  /** A proper prefix, or smaller in the first byte that differs. */
  ghost predicate IsProperPrefix(a: Input, b: Input) {
    |a| < |b| && a == b[..|a|]
  }

  ghost predicate SmallerAt(a: Input, b: Input, k: nat) {
    k < |a| && k < |b| && a[..k] == b[..k] && a[k] < b[k]
  }

  lemma SmallerAtTail(a: Input, b: Input, k: nat)
    requires a != [] && b != [] && a[0] == b[0]
    ensures SmallerAt(a[1..], b[1..], k) <==> SmallerAt(a, b, k + 1)
  {
    if k < |a| - 1 && k < |b| - 1 {
      assert a[..k + 1] == [a[0]] + a[1..][..k] && b[..k + 1] == [b[0]] + b[1..][..k];
    }
  }

  lemma PrefixTail(a: Input, b: Input)
    requires a != [] && b != [] && a[0] == b[0]
    ensures IsProperPrefix(a[1..], b[1..]) <==> IsProperPrefix(a, b)
  {
    if |a| < |b| {
      assert a == [a[0]] + a[1..] && b[..|a|] == [b[0]] + b[1..][..|a| - 1];
    }
  }

  lemma FirstByteDiffers(a: Input, b: Input)
    requires a != [] && b != [] && a[0] != b[0]
    ensures !IsProperPrefix(a, b) && (SmallerAt(a, b, 0) <==> a[0] < b[0])
    ensures forall k: nat :: k > 0 ==> !SmallerAt(a, b, k)
  {
    assert a[..0] == b[..0];
    assert |a| < |b| ==> b[..|a|][0] == b[0];
    forall k: nat | k > 0 && k < |a| && k < |b|
      ensures a[..k] != b[..k]
    {
      assert a[..k][0] == a[0] && b[..k][0] == b[0];
    }
  }

  /** One input is less than another if it is a proper prefix, or smaller in the first byte that differs. */
  lemma {:induction false} LessIsByFirstDifference(a: Input, b: Input)
    ensures Less(a, b) <==> IsProperPrefix(a, b) || exists k: nat :: SmallerAt(a, b, k)
  {
    if a != [] && b != [] {
      if a[0] == b[0] {
        LessIsByFirstDifference(a[1..], b[1..]);
        PrefixTail(a, b);
        if k: nat :| SmallerAt(a[1..], b[1..], k) {
          SmallerAtTail(a, b, k);
        }
        if k: nat :| SmallerAt(a, b, k) {
          SmallerAtTail(a, b, k - 1);
        }
      } else {
        FirstByteDiffers(a, b);
      }
    }
  }
}
