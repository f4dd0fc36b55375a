/**
 * `Variable<T>`: an optional value bound by reference to a `Domain<T>`;
 * a value is accepted only while the domain holds it.
 */
module Variables {
  import opened Nullable
  import opened Domaines

  /** The `{ value: T | null }` object produced by `toJSON`. */
  datatype VariableJSON<T> = VariableJSON(value: Option<T>)

  /** The value `fromJSON` keeps: the serialized one if it is set and a member of `d`, else null. */
  function Decoded<T(==)>(j: VariableJSON<T>, d: Domain<T>): Option<T>
    reads d
  {
    if j.value.Some? && d.HasValue(j.value.value) then j.value else None
  }

  class Variable<T(==)> {
    var value: Option<T>
    var domain: Domain<T>

    /** Starts unset, bound to `domain` itself rather than to a copy. */
    constructor (domain: Domain<T>)
      ensures this.value == None
      ensures this.domain == domain
    {
      this.value := None;
      this.domain := domain;
    }

    /** Takes `x` exactly when the domain holds it; otherwise keeps the old value. */
    method SetValue(x: T)
      modifies this
      ensures domain == old(domain) && unchanged(domain)
      ensures domain.HasValue(x) ==> value == Some(x)
      ensures !domain.HasValue(x) ==> value == old(value)
    {
      if domain.HasValue(x) {
        value := Some(x);
      }
    }

    method UnsetValue()
      modifies this
      ensures domain == old(domain)
      ensures value == None
    {
      value := None;
    }

    /**
     * `{ value }`. Decoding it against the variable's own domain gives the
     * value back whenever that value is unset or still a member.
     */
    function ToJSON(): (j: VariableJSON<T>)
      reads this, domain
      ensures value.None? || domain.HasValue(value.value) ==> Decoded(j, domain) == value
      ensures value.Some? && !domain.HasValue(value.value) ==> Decoded(j, domain) == None
    {
      VariableJSON(value)
    }

    /** A fresh variable bound to `d`: it holds `j.value` if that is set and in `d`, else null. */
    static method FromJSON(j: VariableJSON<T>, d: Domain<T>) returns (v: Variable<T>)
      ensures fresh(v) && v.domain == d && unchanged(d)
      ensures v.value == Decoded(j, d)
    {
      v := new Variable(d);
      if j.value.Some? && d.HasValue(j.value.value) {
        v.SetValue(j.value.value);
      }
    }

    /**
     * `Variable.fromJSON(x.toJSON(), x.domain)`: a fresh variable on the same
     * domain with the same value, whenever that value is null or a member.
     */
    method RoundTrip() returns (y: Variable<T>)
      requires value.None? || domain.HasValue(value.value)
      ensures fresh(y) && y.domain == domain && y.value == value
    {
      y := FromJSON(ToJSON(), domain);
    }
  }
}
