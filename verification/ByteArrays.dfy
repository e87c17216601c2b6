/** Operations of QByteArray that stop at the ends of the array. */
module ByteArrays {
  import opened ByteStream

  /** QByteArray::mid, with its reading of negative positions and lengths. */
  function Mid(b: seq<Byte>, pos: int, len: int): seq<Byte> {
    if pos > |b| then []
    else if pos < 0 then
      if len < 0 || len + pos >= |b| then b
      else if len + pos <= 0 then []
      else b[..len + pos]
    else if len < 0 || len > |b| - pos then b[pos..]
    else b[pos..pos + len]
  }

  /** QByteArray::chop. */
  function Chop(b: seq<Byte>, n: nat): seq<Byte> {
    if n >= |b| then [] else b[..|b| - n]
  }

  lemma ChopNothing(b: seq<Byte>)
    ensures Chop(b, 0) == b
  {
  }
}
