/** The growable output buffer (tsk_buffer_t) that the serializers append to. */
module Buffers {

  class Buffer<T> {
    /** The bytes (or characters) written so far. */
    var data: seq<T>

    constructor ()
      ensures data == []
    {
      data := [];
    }

    /** tsk_buffer_append: append `more` at the end; bounded only by memory. */
    method Append(more: seq<T>)
      modifies this
      ensures data == old(data) + more
    {
      data := data + more;
    }
  }
}
