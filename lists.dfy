/**
 * The JavaScript array and set operations the candidate lists rely on,
 * stated on Dafny sequences: `indexOf`, removal of one entry by `splice`,
 * `push` of an absent value, and the insertion order of a `Set`.
 */
module Lists {

  /** No element occurs twice. */
  predicate Distinct<T(==)>(s: seq<T>)
  {
    forall p, q | 0 <= p < q < |s| :: s[p] != s[q]
  }

  /** `s.indexOf(v)`: the first position holding `v`, or -1 when there is none. */
  function IndexOf<T(==)>(s: seq<T>, v: T): (r: int)
    ensures r == -1 <==> v !in s
    ensures r != -1 ==> 0 <= r < |s| && s[r] == v && v !in s[..r]
  {
    if s == [] then -1
    else if s[0] == v then 0
    else
      var k := IndexOf(s[1..], v);
      if k == -1 then -1
      else
        assert s[..k + 1] == [s[0]] + s[1..][..k];
        k + 1
  }

  /** Reference definition: `s` without its first occurrence of `v`. */
  function RemoveFirst<T(==)>(s: seq<T>, v: T): seq<T>
  {
    if s == [] then []
    else if s[0] == v then s[1..]
    else [s[0]] + RemoveFirst(s[1..], v)
  }

  /** `n` successive removals of the first occurrence of `v`. */
  function RemoveN<T(==)>(s: seq<T>, v: T, n: nat): seq<T>
  {
    if n == 0 then s else RemoveFirst(RemoveN(s, v, n - 1), v)
  }

  /** Removals compose: `b` removals after `a` removals are `a + b` removals. */
  lemma {:induction false} RemoveNAdd<T>(s: seq<T>, v: T, a: nat, b: nat)
    ensures RemoveN(RemoveN(s, v, a), v, b) == RemoveN(s, v, a + b)
  {
    if b > 0 {
      RemoveNAdd(s, v, a, b - 1);
    }
  }

  /** Reference definition: `s` with every occurrence of `v` dropped, order kept. */
  function Filter<T(==)>(s: seq<T>, v: T): (r: seq<T>)
    ensures v !in r
    ensures forall k | 0 <= k < |r| :: r[k] in s
    ensures forall k | 0 <= k < |s| && s[k] != v :: s[k] in r
  {
    if s == [] then []
    else if s[0] == v then Filter(s[1..], v)
    else [s[0]] + Filter(s[1..], v)
  }

  /** `if (!s.includes(v)) s.push(v)`, which is also how a `Set` records an insertion. */
  function AddIfAbsent<T(==)>(s: seq<T>, v: T): seq<T>
  {
    if v in s then s else s + [v]
  }

  /** The list reached by adding every element of `xs`, in order, to `acc`. */
  function AddAll<T(==)>(acc: seq<T>, xs: seq<T>): seq<T>
  {
    if xs == [] then acc else AddIfAbsent(AddAll(acc, xs[..|xs| - 1]), xs[|xs| - 1])
  }

  /** Splicing out the entry found by `indexOf` is removing the first occurrence. */
  lemma {:induction false} SpliceAtIndexOf<T>(s: seq<T>, v: T)
    requires v in s
    ensures var k := IndexOf(s, v); s[..k] + s[k + 1..] == RemoveFirst(s, v)
  {
    if s[0] != v {
      SpliceAtIndexOf(s[1..], v);
      var k := IndexOf(s[1..], v);
      assert s[..k + 1] == [s[0]] + s[1..][..k];
      assert s[k + 2..] == s[1..][k + 1..];
    }
  }

  /** Removing an absent value changes nothing. */
  lemma {:induction false} RemoveFirstAbsent<T>(s: seq<T>, v: T)
    requires v !in s
    ensures RemoveFirst(s, v) == s
  {
    if s != [] {
      assert s == [s[0]] + s[1..];
      RemoveFirstAbsent(s[1..], v);
    }
  }

  /** Exactly one copy of `v` leaves, when there is one; nothing else is lost or gained. */
  lemma {:induction false} RemoveFirstMultiset<T>(s: seq<T>, v: T)
    ensures multiset(RemoveFirst(s, v)) == multiset(s) - multiset{v}
  {
    if s != [] {
      assert s == [s[0]] + s[1..];
      RemoveFirstMultiset(s[1..], v);
    }
  }

  lemma {:induction false} FilterDistinct<T>(s: seq<T>, v: T)
    requires Distinct(s)
    ensures Distinct(Filter(s, v))
  {
    if s != [] {
      assert Distinct(s[1..]) by {
        forall p, q | 0 <= p < q < |s[1..]| ensures s[1..][p] != s[1..][q] {
          assert s[1..][p] == s[p + 1] && s[1..][q] == s[q + 1];
        }
      }
      FilterDistinct(s[1..], v);
      if s[0] != v {
        var t := Filter(s[1..], v);
        assert s[0] !in s[1..] by {
          forall q | 0 <= q < |s[1..]| ensures s[1..][q] != s[0] {
            assert s[1..][q] == s[q + 1];
          }
        }
        assert s[0] !in t;
        forall p, q | 0 <= p < q < |[s[0]] + t| ensures ([s[0]] + t)[p] != ([s[0]] + t)[q] {
          if p == 0 {
            assert ([s[0]] + t)[q] == t[q - 1];
          } else {
            assert ([s[0]] + t)[p] == t[p - 1] && ([s[0]] + t)[q] == t[q - 1];
          }
        }
      }
    }
  }

  /** In a duplicate-free list the first occurrence is the only one. */
  lemma {:induction false} RemoveFirstOfDistinct<T>(s: seq<T>, v: T)
    requires Distinct(s)
    ensures RemoveFirst(s, v) == Filter(s, v)
  {
    if s != [] {
      assert Distinct(s[1..]) by {
        forall p, q | 0 <= p < q < |s[1..]| ensures s[1..][p] != s[1..][q] {
          assert s[1..][p] == s[p + 1] && s[1..][q] == s[q + 1];
        }
      }
      if s[0] == v {
        assert v !in s[1..] by {
          forall q | 0 <= q < |s[1..]| ensures s[1..][q] != v {
            assert s[1..][q] == s[q + 1];
          }
        }
        FilterOfAbsent(s[1..], v);
      } else {
        RemoveFirstOfDistinct(s[1..], v);
      }
    }
  }

  lemma {:induction false} FilterOfAbsent<T>(s: seq<T>, v: T)
    requires v !in s
    ensures Filter(s, v) == s
  {
    if s != [] {
      assert s == [s[0]] + s[1..];
      FilterOfAbsent(s[1..], v);
    }
  }

  /** Dropping `v` a second time changes nothing: `Set.delete` is idempotent. */
  lemma {:induction false} FilterIdempotent<T>(s: seq<T>, v: T)
    ensures Filter(Filter(s, v), v) == Filter(s, v)
  {
    FilterOfAbsent(Filter(s, v), v);
  }

  /**
   * On a duplicate-free list, one or more first-occurrence removals of `v`
   * leave exactly the list without `v`, in the original order.
   */
  lemma {:induction false} RemoveNOfDistinct<T>(s: seq<T>, v: T, n: nat)
    requires Distinct(s) && n > 0
    ensures RemoveN(s, v, n) == Filter(s, v)
    ensures v !in RemoveN(s, v, n) && Distinct(RemoveN(s, v, n))
  {
    FilterDistinct(s, v);
    if n == 1 {
      RemoveFirstOfDistinct(s, v);
    } else {
      RemoveNOfDistinct(s, v, n - 1);
      RemoveFirstAbsent(Filter(s, v), v);
    }
  }

  /** Removals never bring in a value: every survivor was already there. */
  lemma {:induction false} RemoveNSubset<T>(s: seq<T>, v: T, n: nat)
    ensures multiset(RemoveN(s, v, n)) <= multiset(s)
  {
    if n > 0 {
      RemoveNSubset(s, v, n - 1);
      RemoveFirstMultiset(RemoveN(s, v, n - 1), v);
    }
  }

  /** Adding if absent keeps a list duplicate-free and only ever brings in `v`. */
  lemma AddIfAbsentDistinct<T>(s: seq<T>, v: T)
    requires Distinct(s)
    ensures Distinct(AddIfAbsent(s, v))
    ensures v in AddIfAbsent(s, v)
    ensures forall w :: w in AddIfAbsent(s, v) <==> w in s || w == v
  {
  }

  /** Adding a sequence of values: the members are the old ones and the added ones. */
  lemma {:induction false} AddAllMembers<T>(acc: seq<T>, xs: seq<T>)
    ensures forall w :: w in AddAll(acc, xs) <==> w in acc || w in xs
  {
    if xs != [] {
      var init := xs[..|xs| - 1];
      AddAllMembers(acc, init);
      assert xs == init + [xs[|xs| - 1]];
    }
  }

  lemma {:induction false} AddAllDistinct<T>(acc: seq<T>, xs: seq<T>)
    requires Distinct(acc)
    ensures Distinct(AddAll(acc, xs))
  {
    if xs != [] {
      AddAllDistinct(acc, xs[..|xs| - 1]);
      AddIfAbsentDistinct(AddAll(acc, xs[..|xs| - 1]), xs[|xs| - 1]);
    }
  }

  /** Re-adding a duplicate-free list, in order, to an empty one gives the same list back. */
  lemma {:induction false} AddAllOfDistinct<T>(xs: seq<T>)
    requires Distinct(xs)
    ensures AddAll([], xs) == xs
  {
    if xs != [] {
      var init, last := xs[..|xs| - 1], xs[|xs| - 1];
      assert Distinct(init) by {
        forall p, q | 0 <= p < q < |init| ensures init[p] != init[q] {
          assert init[p] == xs[p] && init[q] == xs[q];
        }
      }
      AddAllOfDistinct(init);
      assert last !in init by {
        forall p | 0 <= p < |init| ensures init[p] != last {
          assert init[p] == xs[p];
        }
      }
      assert xs == init + [last];
    }
  }
}
