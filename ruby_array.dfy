/** The Ruby Array operations the staging service builds its queues and lists with:
    `uniq`, set intersection `a & b`, set union `a | b`, and the idiom
    `x = [x] unless x.is_a? Array`. */
module RubyArray {

  /** An argument that is either one element or an Array of them. */
  datatype Arg<T> = One(item: T) | Many(items: seq<T>)

  /** `x = [x] unless x.is_a? Array`. */
  function Wrap<T>(a: Arg<T>): seq<T>
  {
    match a
    case One(x) => [x]
    case Many(xs) => xs
  }

  predicate NoDups<T(==,!new)>(s: seq<T>)
  {
    forall i, j :: 0 <= i < j < |s| ==> s[i] != s[j]
  }

  /** The tail of a duplicate-free list is duplicate-free and misses the head. */
  lemma NoDupsTail<T(!new)>(s: seq<T>)
    requires s != []
    ensures NoDups(s) ==> NoDups(s[1..]) && s[0] !in s[1..]
  {
    if NoDups(s) {
      forall i, j | 0 <= i < j < |s[1..]| ensures s[1..][i] != s[1..][j] {
        assert s[1..][i] == s[i + 1] && s[1..][j] == s[j + 1];
      }
    }
  }

  /** Keeps the first occurrence of every element not in `seen`, in order. */
  function UniqFrom<T(==,!new)>(s: seq<T>, seen: set<T>): (r: seq<T>)
    ensures NoDups(r)
    ensures forall x :: x in r <==> x in s && x !in seen
    decreases |s|
  {
    if s == [] then []
    else if s[0] in seen then UniqFrom(s[1..], seen)
    else [s[0]] + UniqFrom(s[1..], seen + {s[0]})
  }

  /** `Array#uniq`. */
  function Uniq<T(==,!new)>(s: seq<T>): seq<T>
  {
    UniqFrom(s, {})
  }

  /** The elements of `a` that occur in `b`, in `a`'s order (duplicates kept). */
  function Select<T(==,!new)>(a: seq<T>, b: seq<T>): (r: seq<T>)
    ensures forall x :: x in r <==> x in a && x in b
    decreases |a|
  {
    if a == [] then []
    else if a[0] in b then [a[0]] + Select(a[1..], b)
    else Select(a[1..], b)
  }

  /** `a & b`: the elements common to both, in `a`'s order, each once. */
  function Intersect<T(==,!new)>(a: seq<T>, b: seq<T>): (r: seq<T>)
  {
    Uniq(Select(a, b))
  }

  /** `a | b`: the elements of either, `a`'s first, each once. */
  function Union<T(==,!new)>(a: seq<T>, b: seq<T>): (r: seq<T>)
  {
    Uniq(a + b)
  }

  lemma IntersectMembers<T(!new)>(a: seq<T>, b: seq<T>)
    ensures NoDups(Intersect(a, b))
    ensures forall x :: x in Intersect(a, b) <==> x in a && x in b
  {
  }

  lemma UnionMembers<T(!new)>(a: seq<T>, b: seq<T>)
    ensures NoDups(Union(a, b))
    ensures forall x :: x in Union(a, b) <==> x in a || x in b
  {
  }

  /** Removing duplicates from a list that has none changes nothing. */
  lemma {:induction false} UniqFromNoDups<T(!new)>(s: seq<T>, seen: set<T>)
    requires NoDups(s)
    requires forall x :: x in s ==> x !in seen
    ensures UniqFrom(s, seen) == s
    decreases |s|
  {
    if s != [] {
      assert s[0] !in s[1..];
      assert NoDups(s[1..]) by {
        forall i, j | 0 <= i < j < |s[1..]| ensures s[1..][i] != s[1..][j] {
          assert s[1..][i] == s[i + 1] && s[1..][j] == s[j + 1];
        }
      }
      UniqFromNoDups(s[1..], seen + {s[0]});
    }
  }

  /** Selecting the elements of `a` that all occur in `b` keeps `a` whole, in its order. */
  lemma {:induction false} SelectAll<T(!new)>(a: seq<T>, b: seq<T>)
    requires forall x :: x in a ==> x in b
    ensures Select(a, b) == a
    decreases |a|
  {
    if a != [] {
      assert forall x :: x in a[1..] ==> x in a;
      SelectAll(a[1..], b);
      assert [a[0]] + a[1..] == a;
    }
  }

  /** `a & b` on a duplicate-free `a` whose elements all occur in `b` is `a`, in `a`'s order. */
  lemma {:induction false} IntersectKeepsOrder<T(!new)>(a: seq<T>, b: seq<T>)
    requires NoDups(a) && forall x :: x in a ==> x in b
    ensures Intersect(a, b) == a
  {
    SelectAll(a, b);
    UniqFromNoDups(a, {});
  }

  /** `a | b` on a duplicate-free `a` keeps `a` as it is at the front. */
  lemma {:induction false} UnionKeepsFront<T(!new)>(a: seq<T>, b: seq<T>)
    requires NoDups(a)
    ensures |Union(a, b)| >= |a| && Union(a, b)[..|a|] == a
  {
    UniqFrontPrefix(a, b, {});
  }

  lemma {:induction false} UniqFrontPrefix<T(!new)>(a: seq<T>, b: seq<T>, seen: set<T>)
    requires NoDups(a)
    requires forall x :: x in a ==> x !in seen
    ensures |UniqFrom(a + b, seen)| >= |a| && UniqFrom(a + b, seen)[..|a|] == a
    decreases |a|
  {
    if a != [] {
      assert (a + b)[0] == a[0] && (a + b)[1..] == a[1..] + b;
      assert a[0] !in a[1..];
      assert NoDups(a[1..]) by {
        forall i, j | 0 <= i < j < |a[1..]| ensures a[1..][i] != a[1..][j] {
          assert a[1..][i] == a[i + 1] && a[1..][j] == a[j + 1];
        }
      }
      UniqFrontPrefix(a[1..], b, seen + {a[0]});
      assert [a[0]] + a[1..] == a;
    }
  }
}
