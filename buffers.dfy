/** The growable byte vector (`Vec<u8>`) that every `ssz_append` writes
    into. Only the operation the codecs use is modelled. */
module Buffers {
  import opened Uints

  class ByteBuf {
    var contents: seq<uint8>

    /** `vec![]` */
    constructor ()
      ensures contents == []
    {
      contents := [];
    }

    /** `extend_from_slice`: appends `s`, leaving what was there untouched. */
    method ExtendFromSlice(s: seq<uint8>)
      modifies this
      ensures contents == old(contents) + s
    {
      contents := contents + s;
    }
  }
}
