/**
 * The abstract document shared by the exporter, the labeler contract and the
 * labeling UI: elements in document order, each with a mutable map of
 * attributes. The tree structure is not modelled, because every operation
 * here visits all elements in document order.
 *
 * In the browser, `element.dataset.fta_id` is the attribute `data-fta_id`,
 * so the same `attrs` map stands for both.
 */
module Dom {

  type Attrs = map<string, string>

  /** The external (Fathom) label attribute. */
  const FathomAttr: string := "data-fathom"

  /** The internal element-identifier attribute. */
  const FtaIdAttr: string := "data-fta_id"

  /** An element of a parsed page; its attributes are updated in place. */
  class Element {
    var attrs: Attrs

    /** An element as the HTML parser creates it, carrying the attributes of its tag. */
    constructor (attrs: Attrs)
      ensures this.attrs == attrs
    {
      this.attrs := attrs;
    }
  }

  /** An id supply that never repeats, standing for `uuid4`. */
  ghost predicate Injective(supply: nat -> string) {
    forall a: nat, b: nat :: a != b ==> supply(a) != supply(b)
  }

  /** Number of elements in `doc` that carry attribute `key`. */
  function CountWith(doc: seq<Attrs>, key: string): (n: nat)
    ensures n <= |doc|
    ensures n == 0 <==> forall i :: 0 <= i < |doc| ==> key !in doc[i]
  {
    if doc == [] then 0
    else (if key in doc[0] then 1 else 0) + CountWith(doc[1..], key)
  }
}
