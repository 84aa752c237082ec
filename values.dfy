/** The shapes of the values a rule can be handed. The library examines an
    arbitrary `any` with reflection; here the kinds it tells apart are a closed
    variant. */
module Values {

  /** A non-collection value (what reflection reports as a basic kind). */
  datatype Scalar = IntVal(i: int) | StrVal(s: string) | BoolVal(b: bool)

  /** A map key: a plain scalar, a nil pointer or nil interface, or a non-nil
      pointer to a scalar, told apart from other pointers by its address. */
  datatype Key = PlainKey(scalar: Scalar) | NilKey | PtrKey(addr: nat, target: Scalar)

  /** A value as reflection sees it.
      - Atom: a scalar (or any other non-collection, non-pointer value);
      - Nil: the untyped nil, also what a nil interface holds;
      - NilPtr: a typed nil pointer;
      - Ptr: a non-nil pointer to the value it points to;
      - Iface: a non-nil interface-typed slot (an element of a []any or map[K]any,
        or what a *any points to) holding the value inside it;
      - Slice: a slice or an array;
      - MapVal: a map, its entries listed in the order MapKeys() returns them.
        The language randomises that order, so the order is part of the value
        here and lemmas say what does not depend on it. */
  datatype Value =
    | Atom(scalar: Scalar)
    | Nil
    | NilPtr
    | Ptr(target: Value)
    | Iface(inner: Value)
    | Slice(elems: seq<Value>)
    | MapVal(entries: seq<(Key, Value)>)

  /** A well-formed map lists each key once. */
  predicate DistinctKeys(entries: seq<(Key, Value)>) {
    forall i, j :: 0 <= i < j < |entries| ==> entries[i].0 != entries[j].0
  }

  /** A request context: it can only be passed along and read by rules. */
  datatype Context = Background | Todo | WithValue(parent: Context, key: int, val: Scalar)

  /** The context that the context-free Validate entry points use. */
  const TODO: Context := Todo

  datatype Option<T> = None | Some(value: T)
}
