/**
 * PinNode: a shared handle around one heap-pinned value.
 *
 * The handle's identity is the address of its heap slot; equality never looks
 * at the value. In Dafny an object reference is exactly such an identity, so a
 * PinNode is a class whose reference is the key and whose value never moves
 * and never changes.
 */
module PinNodes {

  class PinNode<T> {
    /** The wrapped value, reached by dereferencing the handle. */
    const value: T

    /** Wraps `v` in a fresh heap slot (a new identity). */
    constructor (v: T)
      ensures value == v
    {
      value := v;
    }

    /**
     * Identity equality: two handles are equal exactly when they share the
     * heap slot, whatever the values they wrap.
     */
    predicate Eq(other: PinNode<T>)
    {
      this == other
    }

    /** Another owner of the same slot: same identity, same value. */
    function Clone(): (r: PinNode<T>)
      ensures r.Eq(this) && this.Eq(r)
      ensures r.value == value
    {
      this
    }
  }

  /**
   * Two handles created from one value are two keys: wrapping equal values
   * never yields equal handles, while a clone is equal to its source.
   */
  method NewHandlesAreDistinct<T>(v: T) returns (a: PinNode<T>, b: PinNode<T>)
    ensures a.value == v && b.value == v
    ensures !a.Eq(b) && !b.Eq(a)
    ensures a.Clone().Eq(a) && !a.Clone().Eq(b)
  {
    a := new PinNode(v);
    b := new PinNode(v);
  }
}
