/** The identity of an ItemRequest entity (src application): equals compares database
    ids, hashCode is the same for every instance of the class. Java references are
    modelled as values that carry the address of the object they point to. */
module ItemRequestIdentity {
  import opened Common

  /** The address of a Java object. */
  type Ref = nat

  /** What an Object parameter can point to: nothing, an ItemRequest instance with its
      id field, or an instance of some other class. */
  datatype Object = Null | RequestObject(ref: Ref, id: Option<Id>) | OtherObject(ref: Ref)

  /** Two references seen together describe one heap: the same address is the same
      object, with the same class and field values. */
  predicate Coherent(a: Object, b: Object) {
    !a.Null? && !b.Null? && a.ref == b.ref ==> a == b
  }

  /** this == o: o points to the very object this does. */
  predicate SameInstance(self: Object, o: Object)
    requires self.RequestObject?
  {
    !o.Null? && o.ref == self.ref
  }

  /** equals: true for the same instance; false for null and any object that is not an
      ItemRequest; otherwise true exactly when this id is not null and equals o's id. */
  predicate Equals(self: Object, o: Object)
    requires self.RequestObject?
  {
    if SameInstance(self, o) then true
    else if !o.RequestObject? then false
    else self.id.Some? && self.id == o.id
  }

  /** hashCode: getClass().hashCode(), one value for every ItemRequest instance; the
      class's hash is a parameter because the JVM chooses it. */
  function HashCode(self: Object, classHash: int): (h: int)
    requires self.RequestObject?
    ensures h == classHash
  {
    classHash
  }

  /** Every instance equals itself, whether or not it has an id. */
  lemma EqualsIsReflexive(x: Object)
    requires x.RequestObject?
    ensures Equals(x, x)
  {
  }

  /** null and instances of other classes are never equal to an ItemRequest. */
  lemma OtherObjectsAreUnequal(x: Object, o: Object)
    requires x.RequestObject? && !o.RequestObject? && Coherent(x, o)
    ensures !Equals(x, o)
  {
  }

  /** Two distinct instances that are not yet saved (null ids) are not equal. */
  lemma UnsavedInstancesAreUnequal(x: Object, y: Object)
    requires x.RequestObject? && y.RequestObject? && x.ref != y.ref
    requires x.id.None? && y.id.None?
    ensures !Equals(x, y) && !Equals(y, x)
  {
  }

  /** Instances with the same non-null id are equal, in both directions. */
  lemma SameIdIsEqual(x: Object, y: Object, id: Id)
    requires x.RequestObject? && y.RequestObject? && x.id == Some(id) && y.id == Some(id)
    ensures Equals(x, y) && Equals(y, x)
  {
  }

  /** Instances with different ids are unequal. */
  lemma DifferentIdsAreUnequal(x: Object, y: Object)
    requires x.RequestObject? && y.RequestObject? && Coherent(x, y) && x.id != y.id
    ensures !Equals(x, y)
  {
  }

  /** equals is symmetric over one heap. */
  lemma EqualsIsSymmetric(x: Object, y: Object)
    requires x.RequestObject? && y.RequestObject? && Coherent(x, y)
    ensures Equals(x, y) <==> Equals(y, x)
  {
  }

  /** equals is transitive over one heap. */
  lemma EqualsIsTransitive(x: Object, y: Object, z: Object)
    requires x.RequestObject? && y.RequestObject? && z.RequestObject?
    requires Coherent(x, y) && Coherent(y, z) && Coherent(x, z)
    requires Equals(x, y) && Equals(y, z)
    ensures Equals(x, z)
  {
  }

  /** The hashCode contract: equal instances have equal hash codes. */
  lemma EqualInstancesHashAlike(x: Object, y: Object, classHash: int)
    requires x.RequestObject? && y.RequestObject? && Equals(x, y)
    ensures HashCode(x, classHash) == HashCode(y, classHash)
  {
  }
}
