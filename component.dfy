/**
 * The component descriptor (src/lib.rs): how many frequency components to
 * extract along each axis. The source keeps the fields private and builds a
 * `Component` only through `try_new`, so every value in range; here the
 * subset type `Component` carries that invariant.
 */
module Components {
  import opened Primitives
  import opened Errors

  /** `(1..=9).contains(&v)`. */
  predicate InRange(v: int) {
    1 <= v <= 9
  }

  /** The struct's two fields. */
  datatype ComponentFields = ComponentFields(x: u8, y: u8)

  /** A `Component`: both counts in 1..=9. */
  type Component = c: ComponentFields | InRange(c.x) && InRange(c.y)
    witness ComponentFields(1, 1)

  /**
   * `Component::try_new`: succeeds exactly when both counts are in 1..=9;
   * x is checked first, so an out-of-range x is reported whatever y is.
   */
  function TryNew(x: u8, y: u8): (r: Result<Component>)
    ensures r.Ok? <==> InRange(x) && InRange(y)
    ensures !InRange(x) ==> r == Err(ComponentOutOfBounds(x))
    ensures InRange(x) && !InRange(y) ==> r == Err(ComponentOutOfBounds(y))
    ensures r.Ok? ==> X(r.value) == x && Y(r.value) == y
  {
    if !InRange(x) then Err(ComponentOutOfBounds(x))
    else if !InRange(y) then Err(ComponentOutOfBounds(y))
    else var c: Component := ComponentFields(x, y); Ok(c)
  }

  /** `Component::x`. */
  function X(c: Component): (r: u8)
    ensures InRange(r)
  {
    c.x
  }

  /** `Component::y`. */
  function Y(c: Component): (r: u8)
    ensures InRange(r)
  {
    c.y
  }

  /** Every component is the one `try_new` builds from its own accessors. */
  lemma TryNewOfAccessors(c: Component)
    ensures TryNew(X(c), Y(c)) == Ok(c)
  {
  }

  /** The edges of the accepted range. */
  lemma TryNewBoundaries()
    ensures TryNew(0, 5) == Err(ComponentOutOfBounds(0))
    ensures TryNew(10, 0) == Err(ComponentOutOfBounds(10))
    ensures TryNew(1, 0) == Err(ComponentOutOfBounds(0))
    ensures TryNew(1, 10) == Err(ComponentOutOfBounds(10))
    ensures TryNew(1, 1).Ok? && TryNew(9, 9).Ok?
  {
  }
}
