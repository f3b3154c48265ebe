/** Worker.list of server/server.go: the entries of a rule's directory tree, sorted. */
module WorkerListing {
  import opened DirectoryTree

  /** Go's order on strings. */
  predicate Leq(a: string, b: string)
    decreases |a|
  {
    a == [] || (b != [] && (a[0] < b[0] || (a[0] == b[0] && Leq(a[1..], b[1..]))))
  }

  lemma {:induction false} LeqTotal(a: string, b: string)
    ensures Leq(a, b) || Leq(b, a)
    decreases |a|
  {
    if a != [] && b != [] && a[0] == b[0] {
      LeqTotal(a[1..], b[1..]);
    }
  }

  lemma {:induction false} LeqTransitive(a: string, b: string, c: string)
    requires Leq(a, b) && Leq(b, c)
    ensures Leq(a, c)
    decreases |a|
  {
    if a != [] && a[0] == b[0] == c[0] {
      LeqTransitive(a[1..], b[1..], c[1..]);
    }
  }

  lemma {:induction false} LeqAntisymmetric(a: string, b: string)
    requires Leq(a, b) && Leq(b, a)
    ensures a == b
    decreases |a|
  {
    if a != [] && b != [] {
      LeqAntisymmetric(a[1..], b[1..]);
      assert a == [a[0]] + a[1..] && b == [b[0]] + b[1..];
    }
  }

  /** The order is that of the first difference, and a prefix comes first. */
  lemma {:induction false} LeqAtDifference(p: string, a: string, b: string)
    ensures Leq(p, p + a)
    ensures a != [] && b != [] && a[0] < b[0] ==> Leq(p + a, p + b) && !Leq(p + b, p + a)
    decreases |p|
  {
    if p == [] {
      assert p + a == a && p + b == b;
    } else {
      assert (p + a)[1..] == p[1..] + a && (p + b)[1..] == p[1..] + b;
      LeqAtDifference(p[1..], a, b);
    }
  }

  predicate IsSorted(r: seq<string>) {
    r == [] || ((forall x :: x in r[1..] ==> Leq(r[0], x)) && IsSorted(r[1..]))
  }

  function Insert(x: string, r: seq<string>): seq<string> {
    if r == [] || Leq(x, r[0]) then [x] + r else [r[0]] + Insert(x, r[1..])
  }

  function Sort(r: seq<string>): seq<string> {
    if r == [] then [] else Insert(r[0], Sort(r[1..]))
  }

  lemma {:induction false} InsertPermutes(x: string, r: seq<string>)
    ensures multiset(Insert(x, r)) == multiset{x} + multiset(r)
  {
    if r != [] && !Leq(x, r[0]) {
      InsertPermutes(x, r[1..]);
      assert r == [r[0]] + r[1..];
    }
  }

  lemma {:induction false} InsertSorts(x: string, r: seq<string>)
    requires IsSorted(r)
    ensures IsSorted(Insert(x, r))
  {
    if r == [] {
      assert ([x] + r)[1..] == r;
    } else if Leq(x, r[0]) {
      assert ([x] + r)[1..] == r;
      forall y | y in r ensures Leq(x, y) {
        if y != r[0] {
          assert y in r[1..];
          LeqTransitive(x, r[0], y);
        }
      }
    } else {
      var rest := Insert(x, r[1..]);
      InsertSorts(x, r[1..]);
      InsertPermutes(x, r[1..]);
      LeqTotal(x, r[0]);
      assert ([r[0]] + rest)[1..] == rest;
      forall y | y in rest ensures Leq(r[0], y) {
        assert y in multiset(rest);
      }
    }
  }

  /** The result is sorted and a permutation of the input. */
  lemma {:induction false} SortSorts(r: seq<string>)
    ensures IsSorted(Sort(r)) && multiset(Sort(r)) == multiset(r)
  {
    if r != [] {
      SortSorts(r[1..]);
      InsertSorts(r[0], Sort(r[1..]));
      InsertPermutes(r[0], Sort(r[1..]));
      assert r == [r[0]] + r[1..];
    }
  }

  lemma LeastFirst(a: seq<string>, b: seq<string>)
    requires a != [] && b != [] && IsSorted(a) && multiset(a) == multiset(b)
    ensures Leq(a[0], b[0])
  {
    assert b[0] in multiset(a);
    LeqTotal(a[0], a[0]);
    assert a == [a[0]] + a[1..];
  }

  lemma TailOf(a: seq<string>)
    requires a != []
    ensures multiset(a[1..]) == multiset(a) - multiset{a[0]}
  {
    assert a == [a[0]] + a[1..];
  }

  /** Any two sorted permutations of the same entries are the same, whatever the algorithm. */
  lemma {:induction false} SortedUnique(a: seq<string>, b: seq<string>)
    requires IsSorted(a) && IsSorted(b) && multiset(a) == multiset(b)
    ensures a == b
    decreases |a|
  {
    hide Leq;
    assert |a| == |multiset(a)| == |multiset(b)| == |b|;
    if a != [] {
      assert IsSorted(a[1..]) && IsSorted(b[1..]);
      LeastFirst(a, b);
      LeastFirst(b, a);
      LeqAntisymmetric(a[0], b[0]);
      TailOf(a);
      TailOf(b);
      hide IsSorted;
      SortedUnique(a[1..], b[1..]);
      assert a == [a[0]] + a[1..] && b == [b[0]] + b[1..];
    }
  }

  /** The reply to a listing: the entries of exactly the tracked files of the tree, each once, in order. */
  method WorkerList(d: Directory, ghost t: Tree) returns (r: seq<string>, ghost order: seq<LastPosition>)
    requires d.Mirrors(t) && OwnNames(t) && Apart(t)
    ensures Lists(order, All(t))
    ensures IsSorted(r) && multiset(r) == multiset(Infos(order))
  {
    r, order := d.List([], t);
    assert [] + Infos(order) == Infos(order);
    SortSorts(r);
    r := Sort(r);
  }
}
