/**
 * `Domain<T>`: a mutable set of candidate values. The JavaScript `Set`
 * behind it iterates in insertion order, so the members are kept as a
 * duplicate-free sequence in that order.
 */
module Domaines {
  import opened Lists

  class Domain<T(==)> {
    var values: seq<T>

    /** A `Set` holds each member once. */
    ghost predicate Valid()
      reads this
    {
      Distinct(values)
    }

    /** A new domain has no members. */
    constructor ()
      ensures Valid() && values == []
      ensures forall x :: !HasValue(x)
    {
      values := [];
    }

    function HasValue(x: T): bool
      reads this
    {
      x in values
    }

    /** `Set.add`: a new member goes to the end; an old one keeps its place. */
    method AddValue(x: T)
      requires Valid()
      modifies this
      ensures Valid()
      ensures values == AddIfAbsent(old(values), x)
      ensures HasValue(x)
      ensures forall y :: y != x ==> (HasValue(y) <==> y in old(values))
    {
      AddIfAbsentDistinct(values, x);
      if x !in values {
        values := values + [x];
      }
    }

    /** `Set.delete`: the member leaves; the others keep their order. */
    method DeleteValue(x: T)
      requires Valid()
      modifies this
      ensures Valid()
      ensures values == Filter(old(values), x)
      ensures !HasValue(x)
      ensures forall y :: y != x ==> (HasValue(y) <==> y in old(values))
    {
      FilterDistinct(values, x);
      RemoveFirstOfDistinct(values, x);
      var k := IndexOf(values, x);
      if k != -1 {
        SpliceAtIndexOf(values, x);
        values := values[..k] + values[k + 1..];
      } else {
        FilterOfAbsent(values, x);
      }
    }

    /** A fresh domain filled by adding the members one by one, in order. */
    method Copy() returns (c: Domain<T>)
      requires Valid()
      ensures fresh(c) && c.Valid()
      ensures c.values == values && unchanged(this)
    {
      c := new Domain<T>();
      for k := 0 to |values|
        invariant fresh(c) && c.Valid()
        invariant c.values == AddAll([], values[..k])
      {
        assert values[..k + 1][..k] == values[..k];
        c.AddValue(values[k]);
      }
      assert values[..|values|] == values;
      AddAllOfDistinct(values);
    }

    /** `Array.from(this.values)`: every member exactly once, nothing else. */
    function ToJSON(): (r: seq<T>)
      requires Valid()
      reads this
      ensures Distinct(r)
      ensures forall k | 0 <= k < |r| :: HasValue(r[k])
      ensures forall k | 0 <= k < |values| :: values[k] in r
    {
      values
    }

    /** A fresh domain filled by adding the entries of `arr` in order; duplicates collapse. */
    static method FromJSON(arr: seq<T>) returns (d: Domain<T>)
      ensures fresh(d) && d.Valid()
      ensures d.values == AddAll([], arr)
      ensures forall k | 0 <= k < |arr| :: d.HasValue(arr[k])
      ensures forall k | 0 <= k < |d.values| :: d.values[k] in arr
    {
      d := new Domain<T>();
      for k := 0 to |arr|
        invariant fresh(d) && d.Valid()
        invariant d.values == AddAll([], arr[..k])
      {
        assert arr[..k + 1][..k] == arr[..k];
        d.AddValue(arr[k]);
      }
      assert arr[..|arr|] == arr;
      AddAllMembers([], arr);
    }

    /** `Domain.fromJSON(this.toJSON())`: a fresh domain with the same members in the same order. */
    method RoundTrip() returns (e: Domain<T>)
      requires Valid()
      ensures fresh(e) && e.Valid()
      ensures e.values == values
    {
      e := FromJSON(ToJSON());
      AddAllOfDistinct(values);
    }
  }
}
