/** Vocabulary shared by every component. */
module Common {

  datatype Option<+T> = None | Some(value: T)

  datatype Result<+T, +E> = Ok(value: T) | Err(error: E)

  type Byte = b: nat | b < 256

  type ElectionId = int

  /** Some element of a non-empty set. */
  ghost function Pick<T>(x: set<T>): (r: T)
    requires x != {}
    ensures r in x
  {
    var r :| r in x;
    r
  }

  lemma HeadTail<T>(s: seq<T>)
    requires s != []
    ensures s == [s[0]] + s[1..] && (|s| == 1 ==> s == [s[0]])
  {
  }

  /** The state after a sequence of actions. */
  ghost function Fold<S(!new), A(!new)>(f: (S, A) -> S, s: S, actions: seq<A>): (s': S)
  {
    if actions == [] then s else f(Fold(f, s, actions[..|actions| - 1]), actions[|actions| - 1])
  }

  lemma {:induction false} FoldAppend<S(!new), A(!new)>(f: (S, A) -> S, s: S, a: seq<A>, b: seq<A>)
    ensures Fold(f, s, a + b) == Fold(f, Fold(f, s, a), b)
  {
    if b == [] {
      assert a + b == a;
    } else {
      FoldAppend(f, s, a, b[..|b| - 1]);
      assert (a + b)[..|a + b| - 1] == a + b[..|b| - 1];
    }
  }

  /** Tables with the same rows under the same ids are equal. */
  lemma SameRows<V>(a: map<int, V>, b: map<int, V>)
    requires forall k: int :: k in a <==> k in b
    requires forall k: int :: k in a ==> a[k] == b[k]
    ensures a == b
  {
    if a != b {
      if a.Keys - b.Keys != {} {
        var k := Pick(a.Keys - b.Keys);
        assert false;
      }
      if b.Keys - a.Keys != {} {
        var k := Pick(b.Keys - a.Keys);
        assert false;
      }
      var differing := set k: int | k in a && a[k] != b[k];
      if differing != {} {
        var k := Pick(differing);
        assert false;
      }
      assert false;
    }
  }
}
