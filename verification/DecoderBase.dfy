/** What the decoders have in common. */
module DecoderBase {
  datatype State = NeedsMoreData | RetrieveFrames | EndOfBitstream | Error
}
