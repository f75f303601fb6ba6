/** Strict lexicographic order on strings, compared character by character
    by code point, with a proper prefix ordered before the longer string.
    This is the order a document store applies to string fields in a
    greater-than filter, which is how announcement expirations are compared
    against the current time. */
module LexOrder {

  /** `a` sorts strictly before `b`. */
  predicate Less(a: string, b: string)
  {
    if |a| == 0 then |b| > 0
    else if |b| == 0 then false
    else if a[0] == b[0] then Less(a[1..], b[1..])
    else a[0] < b[0]
  }

  /** No string sorts before itself: equal strings are never "later". */
  lemma {:induction false} LessIrreflexive(a: string)
    ensures !Less(a, a)
  {
    if |a| > 0 {
      LessIrreflexive(a[1..]);
    }
  }

  lemma {:induction false} LessAsymmetric(a: string, b: string)
    requires Less(a, b)
    ensures !Less(b, a)
  {
    if |a| > 0 && |b| > 0 && a[0] == b[0] {
      LessAsymmetric(a[1..], b[1..]);
    }
  }

  lemma {:induction false} LessTransitive(a: string, b: string, c: string)
    requires Less(a, b) && Less(b, c)
    ensures Less(a, c)
  {
    if |a| > 0 && a[0] == b[0] && b[0] == c[0] {
      LessTransitive(a[1..], b[1..], c[1..]);
    }
  }

  /** Any two distinct strings are ordered one way or the other. */
  lemma {:induction false} LessTotal(a: string, b: string)
    ensures a == b || Less(a, b) || Less(b, a)
  {
    if |a| > 0 && |b| > 0 && a[0] == b[0] {
      LessTotal(a[1..], b[1..]);
      if a[1..] == b[1..] {
        assert a == [a[0]] + a[1..] && b == [b[0]] + b[1..];
      }
    }
  }

  /** A proper prefix sorts first, so a timestamp written with less
      precision sorts before every longer timestamp that extends it. */
  lemma {:induction false} PrefixLess(a: string, b: string)
    requires |a| < |b| && a == b[..|a|]
    ensures Less(a, b)
  {
    if |a| > 0 {
      assert a[0] == b[0];
      assert a[1..] == b[1..][..|a| - 1];
      PrefixLess(a[1..], b[1..]);
    }
  }

  /** The two strings agree up to position `i` and differ there, with `a`
      holding the smaller character. */
  ghost predicate SmallerAt(a: string, b: string, i: nat)
  {
    i < |a| && i < |b| && a[..i] == b[..i] && a[i] < b[i]
  }

  /** Reference definition of the order: either `a` is a proper prefix of
      `b`, or at the first position where they differ `a` has the smaller
      character. */
  ghost predicate LessByFirstDifference(a: string, b: string)
  {
    (|a| < |b| && a == b[..|a|]) || exists i: nat :: SmallerAt(a, b, i)
  }

  lemma {:induction false} LessIffFirstDifference(a: string, b: string)
    ensures Less(a, b) <==> LessByFirstDifference(a, b)
  {
    if |a| == 0 || |b| == 0 {
      assert forall i: nat :: !SmallerAt(a, b, i);
    } else if a[0] != b[0] {
      assert forall i: nat :: SmallerAt(a, b, i) ==> i == 0;
      assert a[0] < b[0] ==> SmallerAt(a, b, 0);
    } else {
      LessIffFirstDifference(a[1..], b[1..]);
      if LessByFirstDifference(a[1..], b[1..]) {
        if |a| - 1 < |b| - 1 && a[1..] == b[1..][..|a| - 1] {
          assert a == [a[0]] + a[1..];
          assert b[..|a|] == [b[0]] + b[1..][..|a| - 1];
        } else {
          var i: nat :| SmallerAt(a[1..], b[1..], i);
          assert a[..i + 1] == [a[0]] + a[1..][..i];
          assert b[..i + 1] == [b[0]] + b[1..][..i];
          assert SmallerAt(a, b, i + 1);
        }
      }
      if LessByFirstDifference(a, b) {
        if |a| < |b| && a == b[..|a|] {
          assert a[1..] == b[1..][..|a| - 1];
        } else {
          var i: nat :| SmallerAt(a, b, i);
          assert i > 0;
          assert a[1..][..i - 1] == a[..i][1..];
          assert b[1..][..i - 1] == b[..i][1..];
          assert SmallerAt(a[1..], b[1..], i - 1);
        }
      }
    }
  }
}
