/**
 * The render-side collaborator and the objects it shows.
 *
 * An actor is a named object with an opaque geometry payload; the renderer
 * keeps the set of actors currently in the 3D scene. The geometry library
 * itself is outside this model: a geometry is a handle and a point count.
 */
module Scene {

  datatype Option<T> = None | Some(value: T)

  /** Opaque geometry owned by the geometry library: a handle and its number of points. */
  datatype Geometry = Geometry(handle: nat, pointCount: nat)

  /** A scene object: a mutable display name over fixed geometry. */
  class Actor {
    var name: string
    const geometry: Geometry

    constructor (name: string, geometry: Geometry)
      ensures this.name == name && this.geometry == geometry
    {
      this.name := name;
      this.geometry := geometry;
    }
  }

  /**
   * The renderer's actor collection. Adding an actor that is already shown and
   * removing one that is not shown both leave the collection as it was, so the
   * collection is a set of actor identities.
   */
  class Renderer {
    var actors: set<Actor>

    constructor ()
      ensures actors == {}
    {
      actors := {};
    }

    method AddActor(a: Actor)
      modifies this
      ensures a in actors
      ensures forall b :: b != a ==> (b in actors <==> b in old(actors))
    {
      actors := actors + {a};
    }

    method RemoveActor(a: Actor)
      modifies this
      ensures a !in actors
      ensures forall b :: b != a ==> (b in actors <==> b in old(actors))
    {
      actors := actors - {a};
    }

    method RemoveAllViewProps()
      modifies this
      ensures actors == {}
    {
      actors := {};
    }
  }

  // ---------------------------------------------------------------------------
  // Lists of actors
  // ---------------------------------------------------------------------------

  function Elems<T>(s: seq<T>): set<T>
  {
    set x | x in s
  }

  /** No element occurs twice. */
  ghost predicate NoDup<T>(s: seq<T>)
  {
    forall i, j :: 0 <= i < j < |s| ==> s[i] != s[j]
  }

  /**
   * Removes the first occurrence of `x`, as a list's `remove` does. A list's
   * `remove` raises when `x` is absent; the registry guards the call with a
   * membership test, so here a list without `x` is returned unchanged.
   */
  function RemoveFirst<T(==)>(s: seq<T>, x: T): (r: seq<T>)
    ensures x !in s ==> r == s
    ensures x in s ==> |r| == |s| - 1
  {
    if s == [] then []
    else if s[0] == x then s[1..]
    else [s[0]] + RemoveFirst(s[1..], x)
  }

  /** `RemoveFirst` takes exactly one copy of `x` out of the list, if there is one. */
  lemma {:induction false} RemoveFirstMultiset<T>(s: seq<T>, x: T)
    ensures multiset(RemoveFirst(s, x)) == multiset(s) - multiset{x}
  {
    if s != [] {
      assert s == [s[0]] + s[1..];
      if s[0] != x {
        RemoveFirstMultiset(s[1..], x);
      }
    }
  }

  /** Where `RemoveFirst` cuts: the result is the list without its element at `k`. */
  lemma {:induction false} RemoveFirstSplits<T>(s: seq<T>, x: T) returns (k: nat)
    requires x in s
    ensures k < |s| && s[k] == x && x !in s[..k]
    ensures RemoveFirst(s, x) == s[..k] + s[k + 1..]
  {
    if s[0] == x {
      k := 0;
    } else {
      var t := s[1..];
      var k' := RemoveFirstSplits(t, x);
      k := k' + 1;
      assert RemoveFirst(s, x) == [s[0]] + RemoveFirst(t, x);
      assert t[..k'] == s[1..k];
      assert t[k' + 1..] == s[k + 1..];
      assert s[..k] == [s[0]] + t[..k'];
    }
  }

  /** Cutting the element at `k` out of a list without repetitions removes exactly that element. */
  lemma NoDupRemoveAt<T>(s: seq<T>, k: nat)
    requires NoDup(s) && k < |s|
    ensures NoDup(s[..k] + s[k + 1..])
    ensures Elems(s[..k] + s[k + 1..]) == Elems(s) - {s[k]}
  {
    var r := s[..k] + s[k + 1..];
    assert |r| == |s| - 1;
    assert forall i :: 0 <= i < k ==> r[i] == s[i];
    assert forall i :: k <= i < |r| ==> r[i] == s[i + 1];
    forall y | y in s && y != s[k] ensures y in r {
      var m :| 0 <= m < |s| && s[m] == y;
      assert r[if m < k then m else m - 1] == y;
    }
  }

  /** On a list without repetitions, `RemoveFirst` removes `x` altogether and keeps the rest distinct. */
  lemma RemoveFirstNoDup<T>(s: seq<T>, x: T)
    requires NoDup(s)
    ensures NoDup(RemoveFirst(s, x))
    ensures Elems(RemoveFirst(s, x)) == Elems(s) - {x}
  {
    if x in s {
      var k := RemoveFirstSplits(s, x);
      NoDupRemoveAt(s, k);
    }
  }

  /** A stack grown by a prefix of `xs` grows by the next element of `xs` on a push... */
  lemma PushNext<T>(u: seq<T>, xs: seq<T>, i: nat)
    requires i < |xs|
    ensures (u + xs[..i]) + [xs[i]] == u + xs[..i + 1]
  {
    assert xs[..i + 1] == xs[..i] + [xs[i]];
  }

  /** ...and loses it again on a pop. */
  lemma PopLast<T>(u: seq<T>, xs: seq<T>, k: nat)
    requires 0 < k <= |xs|
    ensures var s := u + xs[..k];
            s[..|s| - 1] == u + xs[..k - 1] && s[|s| - 1] == xs[k - 1]
  {
    assert xs[..k] == xs[..k - 1] + [xs[k - 1]];
  }

  /** A stack grown by no element of `xs` is unchanged. */
  lemma PushNone<T>(u: seq<T>, xs: seq<T>)
    ensures u + xs[..0] == u
  {
    assert xs[..0] == [];
  }

  /** A list without repeats holds each of its elements exactly once. */
  lemma {:induction false} NoDupCount<T>(s: seq<T>, x: T)
    requires NoDup(s)
    ensures multiset(s)[x] == if x in s then 1 else 0
  {
    if s != [] {
      assert s == [s[0]] + s[1..];
      assert NoDup(s[1..]);
      assert x == s[0] ==> x !in s[1..];
      NoDupCount(s[1..], x);
    }
  }

  /** Lists without repeats that hold the same elements are permutations of each other. */
  lemma NoDupMultiset<T>(a: seq<T>, b: seq<T>)
    requires NoDup(a) && NoDup(b) && Elems(a) == Elems(b)
    ensures multiset(a) == multiset(b)
  {
    forall x
      ensures multiset(a)[x] == multiset(b)[x]
    {
      NoDupCount(a, x);
      NoDupCount(b, x);
      assert x in a <==> x in Elems(a);
      assert x in b <==> x in Elems(b);
    }
  }

  lemma NoDupAppend<T>(s: seq<T>, x: T)
    requires NoDup(s) && x !in s
    ensures NoDup(s + [x])
  {
  }

  /**
   * Moving the last element of one list without repetitions onto the end of a
   * disjoint one keeps both without repetitions and still disjoint.
   */
  lemma MoveLast<T>(from: seq<T>, to: seq<T>)
    requires from != [] && NoDup(from) && NoDup(to) && Elems(from) !! Elems(to)
    ensures var x := from[|from| - 1];
            NoDup(from[..|from| - 1]) && NoDup(to + [x]) && Elems(from[..|from| - 1]) !! Elems(to + [x])
  {
    var x := from[|from| - 1];
    assert x in Elems(from);
    assert Elems(to + [x]) == Elems(to) + {x};
    assert forall i :: 0 <= i < |from| - 1 ==> from[..|from| - 1][i] == from[i];
  }
}
