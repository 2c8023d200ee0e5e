/** Orderings of collections: how a query's rows or a dictionary's keys are listed. */
module Sequences {

  /** No element occurs twice. */
  predicate Distinct<T(==)>(s: seq<T>)
  {
    forall i, j | 0 <= i < j < |s| :: s[i] != s[j]
  }

  /** `s` lists every element of `xs` exactly once (a query result or a dict's key order). */
  predicate Enumerates<T(==)>(s: seq<T>, xs: set<T>)
  {
    Distinct(s) && (forall x | x in s :: x in xs) && (forall x | x in xs :: x in s)
  }

  /** The concatenation of the parts, in order. */
  function Flatten<T>(parts: seq<seq<T>>): seq<T>
  {
    if parts == [] then [] else Flatten(parts[..|parts| - 1]) + parts[|parts| - 1]
  }

  lemma FlattenSnoc<T>(parts: seq<seq<T>>, p: seq<T>)
    ensures Flatten(parts + [p]) == Flatten(parts) + p
  {
    assert (parts + [p])[..|parts|] == parts;
  }

  /** A listing has as many elements as the set it lists. */
  lemma {:induction false} EnumeratesSize<T>(s: seq<T>, xs: set<T>)
    requires Enumerates(s, xs)
    ensures |s| == |xs|
  {
    if s != [] {
      var last := s[|s| - 1];
      var init := s[..|s| - 1];
      assert last !in init by {
        forall k | 0 <= k < |init| ensures init[k] != last {
          assert s[k] != s[|s| - 1];
        }
      }
      assert Enumerates(init, xs - {last}) by {
        forall x | x in xs - {last} ensures x in init {
          assert x in s;
          var k :| 0 <= k < |s| && s[k] == x;
          assert k != |s| - 1;
          assert init[k] == x;
        }
      }
      EnumeratesSize(init, xs - {last});
    }
  }

  /** The member of a one-element set. */
  ghost function Only<T>(s: set<T>): (r: T)
    requires |s| == 1
    ensures r in s
  {
    var x :| x in s; x
  }

  lemma OnlyIs<T>(s: set<T>, a: T)
    requires |s| == 1 && a in s
    ensures Only(s) == a
  {
    SingletonMember(s, a, Only(s));
  }

  /** A set of one element has no two different members. */
  lemma SingletonMember<T>(s: set<T>, a: T, b: T)
    requires |s| == 1 && a in s && b in s
    ensures a == b
  {
    assert |s - {a}| == 0;
    assert s - {a} == {};
  }
}
