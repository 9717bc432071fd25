/** ValueProperty<T, HeldType>: the base of the validated value types. It
    holds a MayBe<HeldType> and defines equality against objects, other
    properties, MayBe values and held values. A null property reference is
    `Null` of `Nullable<ValueProperty<H>>`; the subclass type parameter T
    plays no part in equality and is not modelled. */
module ValueProperties {
  import opened Runtime
  import opened MayBes

  datatype ValueProperty<H> = ValueProperty(Value: MayBe<H>)

  /** ToValueProperty(HeldType) and the implicit cast from a (non-null)
      held value: a property holding it. */
  function FromHeld<H>(value: H): (p: ValueProperty<H>)
    ensures p.Value.HasValue() && p.Value.Value() == Returns(value)
  {
    ValueProperty(MayBe(Ref(value)))
  }

  /** The implicit cast from MayBe<HeldType>: the MayBe is kept as it is,
      empty or not. */
  function FromMayBe<H>(value: MayBe<H>): (p: ValueProperty<H>)
    ensures p.Value == value
  {
    ValueProperty(value)
  }

  /** ToValueProperty(MayBe<HeldType>): reads value.Value, so an empty MayBe
      raises InvalidOperationException, unlike the implicit cast. */
  function ToValueProperty<H>(value: MayBe<H>): (o: Outcome<ValueProperty<H>>)
    ensures o.Throws? <==> value.HasNoValue()
    ensures o.Throws? ==> o.thrown == InvalidOperationException
    ensures o.Returns? ==> o.value == FromMayBe(value)
  {
    match value.Value()
    case Throws(e) => Throws(e)
    case Returns(v) => Returns(FromHeld(v))
  }

  /** The "other" held value Equals(object) extracts from its argument: the
      argument itself when it is a held value, the content of a non-empty
      MayBe or of a non-empty property, and null for anything else. */
  function Extract<H>(obj: Boxed<H>): (other: Nullable<H>)
    ensures obj.BoxedHeld? ==> other == Ref(obj.held)
    ensures obj.BoxedMayBe? ==> other == obj.maybe.slot
    ensures obj.BoxedProperty? ==> other == obj.propertyValue.slot
    ensures obj.NullObject? || obj.OtherObject? ==> other == Null
  {
    match obj
    case BoxedHeld(x) => Ref(x)
    case BoxedMayBe(m) => if m.HasValue() then Ref(m.slot.target) else Null
    case BoxedProperty(v) => if v.HasValue() then Ref(v.slot.target) else Null
    case _ => Null
  }

  /** The base EqualsCore(other): an empty property equals only null, a full
      one compares its held value with other. */
  function EqualsCore<H(==)>(p: ValueProperty<H>, other: Nullable<H>): (r: bool)
    ensures r <==> p.Value.slot == other
  {
    if p.Value.HasNoValue() then other == Null
    else other.Ref? && p.Value.slot.target == other.target
  }

  /** Equals(object). An empty property equals a null argument at once;
      otherwise the held value is extracted from the argument, an empty
      property equals it exactly when nothing was extracted, and a full
      one defers to EqualsCore. */
  function Equals<H(==)>(p: ValueProperty<H>, obj: Boxed<H>): (r: bool)
    ensures p.Value.HasNoValue() && obj.NullObject? ==> r
    ensures r <==> Extract(obj) == p.Value.slot
  {
    if p.Value.HasNoValue() && obj.NullObject? then true
    else
      var other := Extract(obj);
      if p.Value.HasNoValue() then other == Null
      else EqualsCore(p, other)
  }

  /** operator ==(property, property): two null references are equal, one
      null reference is not, otherwise a.Equals(b). This is equality of the
      held MayBe values. */
  function EqualsProperty<H(==)>(a: Nullable<ValueProperty<H>>, b: Nullable<ValueProperty<H>>): (r: bool)
    ensures a.Null? && b.Null? ==> r
    ensures a.Null? != b.Null? ==> !r
    ensures a.Ref? && b.Ref? ==> (r <==> a.target.Value == b.target.Value)
  {
    if a.Null? && b.Null? then true
    else if a.Null? || b.Null? then false
    else Equals(a.target, BoxedProperty(b.target.Value))
  }

  /** operator !=(property, property). */
  function NotEqualsProperty<H(==)>(a: Nullable<ValueProperty<H>>, b: Nullable<ValueProperty<H>>): (r: bool)
    ensures r <==> !EqualsProperty(a, b)
  {
    !EqualsProperty(a, b)
  }

  /** operator ==(property, MayBe): a null property equals nothing; two
      empties are equal; one empty is not; otherwise the held values are
      compared. */
  function EqualsMayBe<H(==)>(a: Nullable<ValueProperty<H>>, b: MayBe<H>): (r: bool)
    ensures r <==> a.Ref? && a.target.Value == b
  {
    if a.Null? then false
    else if a.target.Value.HasNoValue() && b.HasNoValue() then true
    else if a.target.Value.HasNoValue() || b.HasNoValue() then false
    else MayBes.Equals(a.target.Value, MayBe(Ref(b.slot.target)))
  }

  /** operator !=(property, MayBe). */
  function NotEqualsMayBe<H(==)>(a: Nullable<ValueProperty<H>>, b: MayBe<H>): (r: bool)
    ensures r <==> !EqualsMayBe(a, b)
  {
    !EqualsMayBe(a, b)
  }

  /** operator ==(MayBe, property): b == a. */
  function MayBeEquals<H(==)>(a: MayBe<H>, b: Nullable<ValueProperty<H>>): (r: bool)
    ensures r <==> EqualsMayBe(b, a)
  {
    EqualsMayBe(b, a)
  }

  /** operator !=(MayBe, property): !(b == a). */
  function MayBeNotEquals<H(==)>(a: MayBe<H>, b: Nullable<ValueProperty<H>>): (r: bool)
    ensures r <==> !MayBeEquals(a, b)
  {
    !EqualsMayBe(b, a)
  }

  /** operator ==(property, held value): a null property equals nothing, an
      empty one only null, a full one defers to Equals. */
  function EqualsHeld<H(==)>(a: Nullable<ValueProperty<H>>, b: Nullable<H>): (r: bool)
    ensures r <==> a.Ref? && a.target.Value.slot == b
  {
    if a.Null? then false
    else if a.target.Value.HasNoValue() then b == Null
    else Equals(a.target, if b.Null? then NullObject else BoxedHeld(b.target))
  }

  /** operator !=(property, held value). */
  function NotEqualsHeld<H(==)>(a: Nullable<ValueProperty<H>>, b: Nullable<H>): (r: bool)
    ensures r <==> !EqualsHeld(a, b)
  {
    !EqualsHeld(a, b)
  }

  /** operator ==(held value, property): b == a. */
  function HeldEquals<H(==)>(a: Nullable<H>, b: Nullable<ValueProperty<H>>): (r: bool)
    ensures r <==> EqualsHeld(b, a)
  {
    EqualsHeld(b, a)
  }

  /** operator !=(held value, property): !(b == a). */
  function HeldNotEquals<H(==)>(a: Nullable<H>, b: Nullable<ValueProperty<H>>): (r: bool)
    ensures r <==> !HeldEquals(a, b)
  {
    !EqualsHeld(b, a)
  }

  /** Equals(object) on an empty property is true for any argument from
      which no held value can be extracted: null, an empty MayBe, an empty
      property, and also an object of an unrelated type. */
  lemma EmptyPropertyEqualsAnythingWithoutValue<H>(p: ValueProperty<H>, unrelated: Boxed<H>, m: MayBe<H>)
    requires p.Value.HasNoValue() && m.HasNoValue()
    ensures Equals(p, NullObject) && Equals(p, OtherObject)
    ensures Equals(p, BoxedMayBe(m)) && Equals(p, BoxedProperty(m))
  {
  }

  /** The == operators agree with one another: comparing a property with a
      property, with its MayBe or with its held value gives the same
      answer, in either argument order. */
  lemma OperatorsAgree<H>(a: ValueProperty<H>, b: ValueProperty<H>, x: H)
    requires b.Value == MayBe(Ref(x))
    ensures EqualsProperty(Ref(a), Ref(b)) == EqualsMayBe(Ref(a), b.Value) == EqualsHeld(Ref(a), Ref(x))
    ensures EqualsProperty(Ref(a), Ref(b)) == EqualsProperty(Ref(b), Ref(a))
    ensures MayBeEquals(b.Value, Ref(a)) == EqualsMayBe(Ref(a), b.Value)
    ensures HeldEquals(Ref(x), Ref(a)) == EqualsHeld(Ref(a), Ref(x))
    ensures Equals(a, BoxedHeld(x)) == Equals(a, BoxedMayBe(b.Value)) == Equals(a, BoxedProperty(b.Value))
  {
  }
}
