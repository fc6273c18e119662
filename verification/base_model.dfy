/** Identity of model objects: BaseModel.equals and BaseModel.hashCode.

    A Java object is seen here through a reference: the address that `==`
    compares, the runtime class that `getClass()` returns, and the nullable
    Integer id the class stores. */
module BaseModel {
  import opened Common

  /** The concrete subclasses of BaseModel. */
  datatype ModelClass = RecipeClass | IngredientClass

  datatype ObjectRef = ObjectRef(address: nat, cls: ModelClass, id: Option<int>)

  /** Two references to one address are one object, so they agree on class and id. */
  predicate Coherent(a: ObjectRef, b: ObjectRef) {
    a.address == b.address ==> a == b
  }

  /** The id test `equals` applies to two distinct objects of one class:
      the receiver's id is non-null and equals the other id. */
  predicate SameIdentity(self: Option<int>, other: Option<int>) {
    self.Some? && self == other
  }

  /** `self.equals(o)`, with `o == null` written as None. */
  function Equals(self: ObjectRef, o: Option<ObjectRef>): (r: bool)
    ensures o.None? ==> !r
    ensures o.Some? && o.value.address == self.address ==> r
    ensures o.Some? && o.value.address != self.address ==>
              (r <==> o.value.cls == self.cls && SameIdentity(self.id, o.value.id))
  {
    if o.Some? && self.address == o.value.address then true
    else if o.None? || self.cls != o.value.cls then false
    else self.id != None && self.id == o.value.id
  }

  /** `hashCode()`: Integer.hashCode of the id is the id itself; a null id hashes to 0. */
  function HashCode(o: ObjectRef): int {
    if o.id.None? then 0 else o.id.value
  }

  /** A null id hashes to 0; Integer.hashCode is the value itself, so two
      non-null ids hash alike exactly when they are equal. */
  lemma HashCodeSeparatesIds(a: ObjectRef, b: ObjectRef)
    ensures a.id.None? ==> HashCode(a) == 0
    ensures a.id.Some? && b.id.Some? ==> (HashCode(a) == HashCode(b) <==> a.id == b.id)
  {
  }

  /** Two distinct objects whose ids are both null are never equal. */
  lemma NullIdsNeverEqual(a: ObjectRef, b: ObjectRef)
    requires a.address != b.address && a.id.None?
    ensures !Equals(a, Some(b)) && !Equals(b, Some(a))
  {
  }

  /** The equals/hashCode contract: equal objects have equal hash codes. */
  lemma EqualObjectsHashEqually(a: ObjectRef, b: ObjectRef)
    requires Coherent(a, b)
    requires Equals(a, Some(b))
    ensures HashCode(a) == HashCode(b)
  {
  }

  /** On coherent references equals is symmetric and transitive, hence an
      equivalence (reflexivity comes from the address test). */
  lemma EqualsIsEquivalence(a: ObjectRef, b: ObjectRef, c: ObjectRef)
    requires Coherent(a, b) && Coherent(b, c) && Coherent(a, c)
    ensures Equals(a, Some(a))
    ensures Equals(a, Some(b)) == Equals(b, Some(a))
    ensures Equals(a, Some(b)) && Equals(b, Some(c)) ==> Equals(a, Some(c))
  {
  }
}
