/** MayBe<T>: a struct that wraps one reference that may be null, with
    presence tests, a guarded Value, structural equality and Unwrap. */
module MayBes {
  import opened Runtime

  /** The struct's only field is the wrapped reference `_Value`. */
  datatype MayBe<T> = MayBe(slot: Nullable<T>) {

    /** HasValue: the wrapped reference is not null. */
    predicate HasValue() {
      slot.Ref?
    }

    /** HasNoValue is always the negation of HasValue. */
    predicate HasNoValue() {
      !HasValue()
    }

    /** The Value property: the wrapped value, or InvalidOperationException
        when there is none. */
    function Value(): (o: Outcome<T>)
      ensures o.Throws? <==> slot == Null
      ensures o.Throws? ==> o.thrown == InvalidOperationException
      ensures o.Returns? ==> slot == Ref(o.value)
    {
      if HasNoValue() then Throws(InvalidOperationException) else Returns(slot.target)
    }

    /** Unwrap(defaultValue): the wrapped value when there is one, else the default. */
    function Unwrap(defaultValue: Nullable<T>): (r: Nullable<T>)
      ensures HasValue() ==> r.Ref? && Value() == Returns(r.target)
      ensures HasNoValue() ==> r == defaultValue
    {
      if HasValue() then Ref(slot.target) else defaultValue
    }
  }

  /** ToMayBe and the implicit conversion from a possibly-null T. */
  function ToMayBe<T>(value: Nullable<T>): (m: MayBe<T>)
    ensures m.HasValue() <==> value.Ref?
    ensures m.slot == value
  {
    MayBe(value)
  }

  /** What a C# `object` argument can be, as far as the equality members of
      MayBe and ValueProperty tell arguments apart: null, a held value, a
      boxed MayBe, a ValueProperty over the same held type (given by its
      Value), or an object of any other type. */
  datatype Boxed<T> =
    | NullObject
    | BoxedHeld(held: T)
    | BoxedMayBe(maybe: MayBe<T>)
    | BoxedProperty(propertyValue: MayBe<T>)
    | OtherObject

  /** Equals(MayBe other): two empties are equal, an empty and a full one are
      not, otherwise the wrapped values are compared. It is exactly
      structural equality of the two structs. */
  function Equals<T(==)>(m: MayBe<T>, other: MayBe<T>): (r: bool)
    ensures r <==> m == other
  {
    if m.HasNoValue() && other.HasNoValue() then true
    else if m.HasNoValue() || other.HasNoValue() then false
    else m.slot.target == other.slot.target
  }

  /** operator ==(MayBe, T): an empty MayBe equals only null; a full one
      compares its wrapped value with the argument. */
  function EqualsValue<T(==)>(m: MayBe<T>, value: Nullable<T>): (r: bool)
    ensures r <==> m.slot == value
  {
    if m.HasNoValue() then value == Null
    else value.Ref? && m.slot.target == value.target
  }

  /** operator !=(MayBe, T). */
  function NotEqualsValue<T(==)>(m: MayBe<T>, value: Nullable<T>): (r: bool)
    ensures r <==> !EqualsValue(m, value)
  {
    !EqualsValue(m, value)
  }

  /** operator ==(MayBe, MayBe): first.Equals(second). */
  function EqualsMayBe<T(==)>(first: MayBe<T>, second: MayBe<T>): (r: bool)
    ensures r <==> first == second
  {
    Equals(first, second)
  }

  /** operator !=(MayBe, MayBe). */
  function NotEqualsMayBe<T(==)>(first: MayBe<T>, second: MayBe<T>): (r: bool)
    ensures r <==> !EqualsMayBe(first, second)
  {
    !EqualsMayBe(first, second)
  }

  /** Equals(object): false for null, even when this MayBe is empty; a held
      value is compared as a MayBe wrapping it; a boxed empty MayBe equals
      an empty one; any other object is unequal. */
  function EqualsObject<T(==)>(m: MayBe<T>, obj: Boxed<T>): (r: bool)
    ensures obj.NullObject? ==> !r
    ensures obj.BoxedHeld? ==> (r <==> m.slot == Ref(obj.held))
    ensures obj.BoxedMayBe? ==> (r <==> m == obj.maybe)
    ensures obj.BoxedProperty? || obj.OtherObject? ==> !r
  {
    match obj
    case NullObject => false
    case BoxedHeld(x) => Equals(m, MayBe(Ref(x)))
    case BoxedMayBe(other) =>
      if other.HasNoValue() then m.slot == Null
      else Equals(m, MayBe(Ref(other.slot.target)))
    case _ => false
  }

  /** Equals(MayBe) is an equivalence: reflexive and symmetric (and
      transitive, being structural equality). */
  lemma EqualsIsEquivalence<T>(a: MayBe<T>, b: MayBe<T>, c: MayBe<T>)
    ensures Equals(a, a)
    ensures Equals(a, b) == Equals(b, a)
    ensures Equals(a, b) && Equals(b, c) ==> Equals(a, c)
  {
  }

  /** The two Equals overloads agree on a boxed MayBe, and the `==`
      operators agree with Equals. */
  lemma EqualsOverloadsAgree<T>(m: MayBe<T>, other: MayBe<T>, value: T)
    ensures EqualsObject(m, BoxedMayBe(other)) == Equals(m, other)
    ensures EqualsObject(m, BoxedHeld(value)) == EqualsValue(m, Ref(value))
    ensures EqualsMayBe(m, other) == Equals(m, other)
  {
  }
}
