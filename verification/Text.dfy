/** Strings: their code-point order and the ways they are put together and taken apart. */
module Text {

  /** Code-point order. */
  predicate Less(a: string, b: string)
  {
    b != "" && (a == "" || a[0] < b[0] || (a[0] == b[0] && Less(a[1..], b[1..])))
  }

  /** It is the lexicographic one: after the longest part they share, `a` ends or has the smaller character. */
  lemma {:induction false} LessIff(a: string, b: string)
    ensures Less(a, b) <==> exists k :: 0 <= k <= |a| && DiffersAt(a, b, k)
  {
    if a == "" || b == "" || a[0] != b[0] {
      if Less(a, b) {
        assert DiffersAt(a, b, 0);
      }
    } else {
      LessIff(a[1..], b[1..]);
      assert forall k :: 0 <= k < |a| ==> (DiffersAt(a, b, k + 1) <==> DiffersAt(a[1..], b[1..], k)) by {
        SharedHead(a, b);
      }
      if k :| 0 <= k < |a| && DiffersAt(a[1..], b[1..], k) {
        assert DiffersAt(a, b, k + 1);
      }
      if k :| 0 <= k <= |a| && DiffersAt(a, b, k) {
        assert k > 0 && DiffersAt(a[1..], b[1..], k - 1);
      }
    }
  }

  /** They agree before position `k`, where `b` goes on and `a` has ended or has a smaller character. */
  predicate DiffersAt(a: string, b: string, k: nat)
  {
    k <= |a| && k < |b| && a[..k] == b[..k] && (k < |a| ==> a[k] < b[k])
  }

  lemma SharedHead(a: string, b: string)
    requires a != "" && b != "" && a[0] == b[0]
    ensures forall k :: 0 <= k < |a| ==> (DiffersAt(a, b, k + 1) <==> DiffersAt(a[1..], b[1..], k))
  {
    forall k | 0 <= k < |a| ensures DiffersAt(a, b, k + 1) <==> DiffersAt(a[1..], b[1..], k) {
      assert a == [a[0]] + a[1..] && b == [b[0]] + b[1..];
      if k < |b| - 1 {
        assert a[..k + 1] == [a[0]] + a[1..][..k] && b[..k + 1] == [b[0]] + b[1..][..k];
        assert a[1..][..k] == a[..k + 1][1..] && b[1..][..k] == b[..k + 1][1..];
      }
    }
  }

  lemma {:induction false} LessTrichotomy(a: string, b: string)
    ensures Less(a, b) || a == b || Less(b, a)
    ensures !(Less(a, b) && Less(b, a)) && (a == b ==> !Less(a, b))
  {
    if a != "" && b != "" && a[0] == b[0] {
      LessTrichotomy(a[1..], b[1..]);
      assert a == [a[0]] + a[1..] && b == [b[0]] + b[1..];
    }
  }

  lemma {:induction false} LessTransitive(a: string, b: string, c: string)
    requires Less(a, b) && Less(b, c)
    ensures Less(a, c)
  {
    if a != "" && a[0] == b[0] && b[0] == c[0] {
      LessTransitive(a[1..], b[1..], c[1..]);
    }
  }

  lemma AfterPrefix(p: string, x: string)
    ensures (p + x)[|p|..] == x && forall i :: 0 <= i < |p| ==> (p + x)[i] == p[i]
  {
  }

  lemma Assoc(a: string, b: string, c: string)
    ensures a + b + c == a + (b + c)
  {
  }

  predicate StartsWith(s: string, p: string)
  {
    |p| <= |s| && s[..|p|] == p
  }
}
