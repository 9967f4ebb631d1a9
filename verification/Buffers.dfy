/** A pointer together with the length that is passed beside it. */
module Buffers {
  import opened Words

  type Byte = u8

  /** A null pointer may come with any length. */
  datatype Buffer = Null(claimed: nat) | Bytes(data: seq<Byte>)
  {
    function Length(): nat {
      if Null? then claimed else |data|
    }

    function Content(): seq<Byte> {
      if Null? then [] else data
    }

    predicate NullWithLength() {
      Null? && claimed != 0
    }
  }
}
