/**
 * What an object slot or a stack register holds, as far as the containers
 * and the invoker of the runtime care: a small integer, nil, a tuple, a
 * reference to some other heap object, or memory nothing has written yet.
 */
module Values {
  datatype Value = Small(v: int) | Nil | Tuple(items: seq<Value>) | Ref(id: nat) | Unwritten

  /**
   * The filler the runtime writes into unused slots (`zis_object_vec_zero`
   * and the `(uintptr_t)-1` stores): all bits set, which reads as the small
   * integer -1.
   */
  const Filler: Value := Small(-1)
}
