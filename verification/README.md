# YUView: a model of its readers and decoders, with proofs

YUView plays raw and compressed video. This project models the parts of it that carry the most state
and arithmetic, and proves what they keep, for every input and every run. The code is modelled as it
is. Where it departs from what it is for, the exact condition under which it does its job is proved
in both directions, and an example shows the departure.

| files | what they model |
|---|---|
| `ByteStream`, `ByteArrays`, `AnnexBScan`, `AnnexBSteps`, `AnnexBRuns`, `AnnexBTail`, `AnnexBAccess`, `AnnexBFrames`, `AnnexBFrameData`, `AnnexBExamples`, `FileSourceAnnexBFile` | the reader of raw Annex B files (byte stream format, section B.2 of ITU-T H.265): a fixed read buffer that moves over the file, against the split of the whole file |
| `BlockStatistics` | values recorded for rectangles of pixels, and how often they cover a pixel |
| `Dav1dWalk`, `Dav1dFrame`, `Dav1dShown`, `DecoderDav1d` | the walk over AV1 block partitions (section 5.11.4 of the AV1 specification) that turns them into rectangles, and what these show of each pixel |
| `De265Trees`, `De265Blocks`, `De265Written` | coding blocks, prediction blocks and transform trees of HEVC pictures (sections 7.3.8.8 and 7.4.9.5 of ITU-T H.265) |
| `DecoderBase`, `De265Decoder`, `De265Answers`, `FFmpegDecoder` | the push/pull protocols of two decoders, against any behaviour of the libraries below them |
| `FFmpegPipelines` | loading and caching at once, with the one flag they share for refused packets |
| `FFmpegPlanes` | copying a decoded picture into one buffer |
| `Targa`, `TargaLines`, `TargaWrites`, `TargaCrossing`, `TargaCodings`, `TargaHeader`, `TargaReader`, `TargaFile` | the TGA reader, with a writer to invert: header, colormap, pixels, run-length packets within lines and across them, codings that run out, orientations, alpha repair |
| `Mp4Packets`, `Keyframes`, `FileSourceFFmpegFile` | packets with 4-byte unit lengths (ISO/IEC 14496-15), the guess of a packet's format, the index of key frames |
| `SyntaxTables`, `ParseTables` | the parser of the syntax tables of a standard, with a printer to invert |
| `EventSubsampler` | the rate limiter of events |

Objects that the code updates are classes here, with the fields of the code; each method is proved
against a function of the old state, and the theorems are about these functions.

## How to read the Annex B results

`Cut` is one call of `getNextNALUnit` written over the file instead of over the buffer; the class is
proved to compute it. `Units` is the split of the file at start codes, and `IsSplit` an independent
description of that split, which it alone meets. Three faults of the code separate the two, and
`Clean` excludes exactly these (`CleanTo` from a range of the file, `FrameClean` from the same range all
but those that do no harm to the data of a frame):

* `Halved`: a start code 00 00 | 00 01 with the window boundary in its middle. Line 170 chops one
  byte where two were appended, so the unit in front comes back with a zero too many.
* not `Seen`: a start code that reaches into a last window of one or two bytes. The boundary check at
  line 152 is skipped there and the code goes unnoticed.
* not `TailIsClean`: `indexOf` at line 124 also searches the stale bytes behind the last valid one.

`getFrameData` gives every unit a four-byte start code, while the comment in the header file announces
4-byte sizes. The model follows the code.

## Model

| member | source | states |
|---|---|---|
| ByteStream.UnitsAreSplit | YUViewLib/src/filesource/FileSourceAnnexBFile.cpp:101-204 | for every file and every unit start, the pieces of the split add up to the rest of the file, each begins with a start code and holds no other, and a zero in front of a three-byte code goes with that code |
| ByteStream.SplitIsUnique | YUViewLib/src/filesource/FileSourceAnnexBFile.cpp:101-204 | no other list of pieces meets that description |
| ByteStream.UnitIsOne | YUViewLib/src/filesource/FileSourceAnnexBFile.cpp:184-192 | every unit of the split begins with a start code and holds no other |
| AnnexBScan.CutIsValid | YUViewLib/src/filesource/FileSourceAnnexBFile.cpp:101-204 | every call but one at the end moves forward, and it leaves a window whose valid bytes are those of the file, with a position of -3 or more that never lies in front of the file |
| AnnexBScan.AtEndIsBehindFile | YUViewLib/src/filesource/FileSourceAnnexBFile.cpp:76-79 | the reader says it is at its end exactly when its position is not in front of the end of the file |
| AnnexBSteps.SearchHits | YUViewLib/src/filesource/FileSourceAnnexBFile.cpp:185-191 | a hit of the search in the buffer, stale or not, gives the position and the bytes of the file-wide description of the call |
| AnnexBSteps.BoundaryStep | YUViewLib/src/filesource/FileSourceAnnexBFile.cpp:143-183 | crossing into the next window, the three boundary cases find what the file-wide description finds and chop the bytes it does not return; when they find nothing, no start code straddles the boundary (unless the new window is too short) and the search goes on |
| AnnexBSteps.SearchEnds | YUViewLib/src/filesource/FileSourceAnnexBFile.cpp:134-141 | out of file, what was collected and the valid bytes left are what the file-wide description returns |
| AnnexBRuns.SeenStep | YUViewLib/src/filesource/FileSourceAnnexBFile.cpp:117-204 | a call that sees the next start code returns the unit (with one more zero exactly if the code is halved) and stands at the next unit start |
| AnnexBRuns.RunIsSplit | YUViewLib/src/filesource/FileSourceAnnexBFile.cpp:101-204 | from any unit start, for every window size and alignment, the units of repeated calls are the split of the file if and only if the rest of the file is Clean |
| AnnexBRuns.RunKeepsBytes | YUViewLib/src/filesource/FileSourceAnnexBFile.cpp:117-181 | conservation: the returned units add up to the file from the start on, if and only if no seen code is halved (and no stale code sits at the very front of the last buffer behind a zero); otherwise they add up to more, so that bytes are doubled but never lost |
| AnnexBAccess.OpenStands | YUViewLib/src/filesource/FileSourceAnnexBFile.cpp:58-99 | after opening a file whose first start code is seen, the reader stands at the first unit of the file |
| AnnexBAccess.OpenMisses | YUViewLib/src/filesource/FileSourceAnnexBFile.cpp:81-99 | if the first start code is hidden in a short last window, the first piece read after opening has at most two bytes, so what is read is not the split |
| AnnexBAccess.FirstPosition | YUViewLib/src/filesource/FileSourceAnnexBFile.cpp:95-98 | after opening, the position is not negative, as the code asserts, if and only if the first unit does not straddle two windows |
| AnnexBAccess.FileIsSplit | YUViewLib/src/filesource/FileSourceAnnexBFile.cpp:58-204 | opening a file with a start code and reading to its end gives the whole-file split if and only if the first code is seen and the file behind it is Clean; the result then does not depend on the buffer size |
| AnnexBAccess.CallIsExact | YUViewLib/src/filesource/FileSourceAnnexBFile.cpp:101-204 | a single call returns exactly its unit and ends behind it if and only if the code that ends it is seen and not halved, or there is none and the tail is clean |
| AnnexBAccess.SeekStands | YUViewLib/src/filesource/FileSourceAnnexBFile.cpp:257-289 | after a seek to a unit start the reader stands there, with the windows aligned to it |
| AnnexBAccess.SeekRereads | YUViewLib/src/filesource/FileSourceAnnexBFile.cpp:206-289 | seeking to a start that was reported and reading again from other windows returns the same unit if and only if both readings meet the same faults: the next code is seen by both and halved for both or neither, or hidden from both with their last pieces ending alike; and the unit of the file when both are clean |
| AnnexBAccess.SoughtStands | YUViewLib/src/filesource/FileSourceAnnexBFile.cpp:257-289 | a seek to any unit start, the beginning of the file included, stands there |
| AnnexBTail.LastPiece | YUViewLib/src/filesource/FileSourceAnnexBFile.cpp:124-141 | where the last piece of a run ends and where it leaves the reader, by the stale bytes of the last buffer alone |
| AnnexBTail.SecondPiece | YUViewLib/src/filesource/FileSourceAnnexBFile.cpp:124-141 | what is left in front of stale bytes never begins with a start code |
| AnnexBFrames.FrameIsUnits | YUViewLib/src/filesource/FileSourceAnnexBFile.cpp:206-242 | reading from a unit start up to any later position returns the units that begin in the range if and only if no start code up to the end of the range is halved or hidden and, when the range takes the last unit of the file, the tail fits; nothing behind the range matters |
| AnnexBFrames.UnitsToAreUnits | YUViewLib/src/filesource/FileSourceAnnexBFile.cpp:206-242 | each unit of a range begins with a start code and holds no other |
| AnnexBFrameData.RangeData | YUViewLib/src/filesource/FileSourceAnnexBFile.cpp:206-242 | from any reader at a unit start: all pieces of a range begin with a start code and their repackaging is that of the units, if and only if the range is clean for frames; a hidden four-byte code whose unit is in the range does no harm |
| AnnexBFrameData.FrameDataIsExact | YUViewLib/src/filesource/FileSourceAnnexBFile.cpp:206-242 | getFrameData on a range that begins at a unit start: its assertion holds and the data is the payloads of the range's units, each behind 00 00 00 01, if and only if the range is clean for frames |
| AnnexBFrameData.CleanIsFrameClean | YUViewLib/src/filesource/FileSourceAnnexBFile.cpp:206-242 | wherever the units of a range are read right, the data of the frame is |
| AnnexBFrameData.FourByteForm | YUViewLib/src/filesource/FileSourceAnnexBFile.cpp:225-238 | every piece that begins with a start code leaves getFrameData with a four-byte one and the rest unchanged |
| AnnexBExamples.HalvedExample | YUViewLib/src/filesource/FileSourceAnnexBFile.cpp:163-171 | for every buffer size from 5 on, a file for which a unit comes back with a zero too many |
| AnnexBExamples.HiddenExample | YUViewLib/src/filesource/FileSourceAnnexBFile.cpp:152-181 | for every buffer size from 5 on, a file whose two units come back as one |
| AnnexBExamples.StaleExample | YUViewLib/src/filesource/FileSourceAnnexBFile.cpp:124-126 | for every buffer size from 5 on, a file whose only unit is cut where stale bytes read as a start code |
| FileSourceAnnexBFile.FileSourceAnnexBFile.ReadFile | YUViewLib/src/filesource/FileSourceAnnexBFile.cpp:249 | reading fills the front of the buffer and leaves stale bytes behind it |
| FileSourceAnnexBFile.FileSourceAnnexBFile.UpdateBuffer | YUViewLib/src/filesource/FileSourceAnnexBFile.cpp:244-255 | the next window of the file, position at its front |
| FileSourceAnnexBFile.FileSourceAnnexBFile.CrossBoundary | YUViewLib/src/filesource/FileSourceAnnexBFile.cpp:143-181 | the last three bytes of the old window and the first three of the new one decide position and number of chopped bytes |
| FileSourceAnnexBFile.FileSourceAnnexBFile.SearchWindow | YUViewLib/src/filesource/FileSourceAnnexBFile.cpp:117-191 | one round of the search loop keeps the link to the file-wide description of the call |
| FileSourceAnnexBFile.FileSourceAnnexBFile.GetNextNALUnit | YUViewLib/src/filesource/FileSourceAnnexBFile.cpp:101-204 | returns the unit and leaves the window that the file-wide description says; reports start and end; asked for the last data again, changes nothing |
| FileSourceAnnexBFile.FileSourceAnnexBFile.SeekToFirstNAL | YUViewLib/src/filesource/FileSourceAnnexBFile.cpp:81-99 | stands at the first start code of the buffer, or where a call without one leads, and records how many bytes lie in front |
| FileSourceAnnexBFile.FileSourceAnnexBFile.OpenFile | YUViewLib/src/filesource/FileSourceAnnexBFile.cpp:58-74 | fails on the empty file only |
| FileSourceAnnexBFile.FileSourceAnnexBFile.IsAtEnd | YUViewLib/src/filesource/FileSourceAnnexBFile.cpp:76-79 | the end query |
| FileSourceAnnexBFile.FileSourceAnnexBFile.Seek | YUViewLib/src/filesource/FileSourceAnnexBFile.cpp:257-289 | the window at the position; true exactly at the start of the file or at a start code; behind the end, failure and an empty buffer |
| FileSourceAnnexBFile.FileSourceAnnexBFile.ReadAll | YUViewLib/src/filesource/FileSourceAnnexBFile.cpp:76-204 | calls until the end query holds return the run the theorems are about |
| FileSourceAnnexBFile.FileSourceAnnexBFile.GetFrameData | YUViewLib/src/filesource/FileSourceAnnexBFile.cpp:206-242 | the pieces between two positions, each repackaged, in order; from a unit start on, the data of the frame if and only if the range is clean for frames |
| FileSourceAnnexBFile.FileSourceAnnexBFile.AppendUnit | YUViewLib/src/filesource/FileSourceAnnexBFile.cpp:225-238 | the four-byte form of one piece is appended |
| Dav1dWalk.WalkGoesRightAndDown | YUViewLib/src/decoder/decoderDav1d.cpp:803-901 | no walk covers anything left of or above its origin, whatever the block data |
| Dav1dWalk.GoodTreeTiles | YUViewLib/src/decoder/decoderDav1d.cpp:803-901 | a tree of good leaves covers each unit of its square inside the frame once and no other unit |
| Dav1dWalk.OnlyGoodTreesTile | YUViewLib/src/decoder/decoderDav1d.cpp:803-901 | what a bad leaf gets wrong in its square no sibling makes good |
| Dav1dWalk.TilesIffGood | YUViewLib/src/decoder/decoderDav1d.cpp:803-901 | a walk covers its square exactly once if and only if its tree is good |
| Dav1dFrame.FrameCount | YUViewLib/src/decoder/decoderDav1d.cpp:781-801 | with good trees a unit is covered once with 128-pixel superblocks, and one, two or four times with 64-pixel ones, because every root is a 128-pixel block |
| Dav1dFrame.SecondIsDoubled | YUViewLib/src/decoder/decoderDav1d.cpp:796-801 | with 64-pixel superblocks what the second superblock walks was walked with the first, so that no larger frame is covered once, whatever the block data |
| Dav1dFrame.SmallSuperblocks | YUViewLib/src/decoder/decoderDav1d.cpp:781-901 | with 64-pixel superblocks and blocks of at most that size, a frame is covered exactly once if and only if it has at most 64 pixels each way and its only tree is good |
| Dav1dFrame.TreeIsGood | YUViewLib/src/decoder/decoderDav1d.cpp:781-901 | if a frame is covered once, every superblock's tree is good, by raster order |
| Dav1dFrame.CoversIffGood | YUViewLib/src/decoder/decoderDav1d.cpp:781-901 | with 128-pixel superblocks the frame is covered exactly once if and only if all trees are good |
| Dav1dFrame.StripsExample | YUViewLib/src/decoder/decoderDav1d.cpp:834-880 | four strips of a 32-pixel block leave a strip out, since the quarter offset is a half, so that the frame is not covered |
| Dav1dFrame.RightSplitExample | YUViewLib/src/decoder/decoderDav1d.cpp:864-868 | the split on the right leaves its upper right block out and has the lower left one twice, so that the frame is not covered |
| Dav1dFrame.AlignUp | YUViewLib/src/decoder/decoderDav1d.cpp:105-115 | the least multiple that is not below the size |
| Dav1dShown.StrideIsAligned | YUViewLib/src/decoder/decoderDav1d.cpp:105-115 | a line of the block array is as long as the picture aligned to 128 pixels, and no shorter than the picture |
| Dav1dShown.LeafHasPart | YUViewLib/src/decoder/decoderDav1d.cpp:831-899 | in a good leaf, the recorded block that a unit lies in is the part of the square that the standard says for its partition: halves, quarters and strips by the half or quarter the unit lies in |
| Dav1dShown.BadPartitions | YUViewLib/src/decoder/decoderDav1d.cpp:834-880 | what the other leaves come out as, unit by unit: strips that leave every other quarter out and spread over twice the square, and a split on the right whose upper quarter lies on the lower left one |
| Dav1dShown.TreeShows | YUViewLib/src/decoder/decoderDav1d.cpp:803-921 | for block data as the library writes it, a good tree records for each unit of its square the block the unit belongs to by its own level and partition, with the prediction mode stored there |
| Dav1dShown.PictureIsCovered | YUViewLib/src/decoder/decoderDav1d.cpp:105-901 | for every picture size and block array: with 128-pixel superblocks each pixel of its whole units is recorded exactly once if and only if all trees are good |
| Dav1dShown.SmallPictureIsCovered | YUViewLib/src/decoder/decoderDav1d.cpp:105-901 | with 64-pixel superblocks, if and only if the picture is less than 68 pixels wide and high and its only tree is good |
| Dav1dShown.PictureShowsBlocks | YUViewLib/src/decoder/decoderDav1d.cpp:105-921 | for every picture whose trees are good, from the lines of the block array to pixels: each pixel lies in exactly one recorded rectangle, that of its block by the data stored at its column and line, with the prediction mode stored there |
| DecoderDav1d.DecoderDav1d.ParseBlockPartition | YUViewLib/src/decoder/decoderDav1d.cpp:903-921 | a block with its origin outside the frame is dropped, any other recorded in pixels with its prediction mode |
| DecoderDav1d.DecoderDav1d.ParseLeaf | YUViewLib/src/decoder/decoderDav1d.cpp:831-899 | the blocks of each partition kind, in order |
| DecoderDav1d.DecoderDav1d.ParseBlockRecursive | YUViewLib/src/decoder/decoderDav1d.cpp:803-901 | appends the walk of the square; ends because the level grows to at most 4 |
| DecoderDav1d.DecoderDav1d.CacheStatistics | YUViewLib/src/decoder/decoderDav1d.cpp:781-801 | appends the walks of all superblocks in raster order |
| De265Trees.SplitsUpTo8 | YUViewLib/src/decoder/decoderLibde265.cpp:767-785 | a split bit is at depth 7 at most, as the information is one byte: the recursion ends |
| De265Trees.ChildrenAreQuadrants | YUViewLib/src/decoder/decoderLibde265.cpp:767-800 | division and remainder of the four linear indices are the positions of the four quadrants |
| De265Trees.StaysInNode | YUViewLib/src/decoder/decoderLibde265.cpp:767-840 | the units of a well-formed tree cover each pixel of its node once and no pixel outside |
| De265Trees.OddSplitMisses | YUViewLib/src/decoder/decoderLibde265.cpp:775-790 | a split of an odd width leaves pixels uncovered |
| De265Trees.TilesIffGood | YUViewLib/src/decoder/decoderLibde265.cpp:767-840 | a tree inside its line tiles its node exactly if and only if no node of odd width is split |
| De265Blocks.PbTilesIffDivides | YUViewLib/src/decoder/decoderLibde265.cpp:695-755 | for every part mode and every size, the 1, 2 or 4 prediction blocks tile the coding block if and only if the divisions of the mode leave no rest |
| De265Blocks.TreeTilesCb | YUViewLib/src/decoder/decoderLibde265.cpp:605-692 | the transform units of an aligned coding block cover exactly its pixels |
| De265Blocks.TusFollowCbs | YUViewLib/src/decoder/decoderLibde265.cpp:605-692 | over a whole picture every pixel is covered by as many transform units as coding blocks |
| De265Written.BlocksRoundTrip | YUViewLib/src/decoder/decoderLibde265.cpp:601-640 | for every list of coding blocks in scan order: the array written from it, with anything else in the unused bits, is scanned to exactly these blocks at their pixels, with their sizes and part modes |
| De265Written.TreeIsRead | YUViewLib/src/decoder/decoderLibde265.cpp:767-890 | a transform tree written as one byte per unit, a bit for each depth at which a square beginning there is split, is read back as that tree, its units in order with their depths |
| De265Written.TreesRoundTrip | YUViewLib/src/decoder/decoderLibde265.cpp:603-890 | for every choice of trees in the coding blocks of a picture the walk returns the units of all of them, block by block |
| De265Written.PbOfPixel | YUViewLib/src/decoder/decoderLibde265.cpp:695-752 | for every part mode, and sizes it divides, a pixel lies in the prediction block that its half or quarter of the coding block says, and in no other |
| De265Blocks.DecoderLibde265.GetPBSubPosition | YUViewLib/src/decoder/decoderLibde265.cpp:695-755 | position and size of a prediction block |
| De265Blocks.DecoderLibde265.CacheTUTree | YUViewLib/src/decoder/decoderLibde265.cpp:767-840 | appends the leaves of the tree, in the order of the recursion |
| De265Blocks.DecoderLibde265.AddCb | YUViewLib/src/decoder/decoderLibde265.cpp:607-692 | a unit of nonzero size adds its coding block and the tree below it |
| De265Blocks.DecoderLibde265.CacheStatistics | YUViewLib/src/decoder/decoderLibde265.cpp:605-692 | all coding blocks in scan order with their trees |
| De265Decoder.StepKeeps | YUViewLib/src/decoder/decoderLibde265.cpp:310-465 | every operation keeps the invariant of delivery, buffer and copies, whatever the library answers |
| De265Decoder.DeliveredInOrder | YUViewLib/src/decoder/decoderLibde265.cpp:310-390 | over every run: pictures accepted since the last reset are handed out in library order, each once, at most one waits, and one waits only in RetrieveFrames or Error |
| De265Decoder.WaitingIsNotLost | YUViewLib/src/decoder/decoderLibde265.cpp:310-465 | a waiting picture is only handed out or dropped by a reset, never overwritten |
| De265Decoder.RawIsCurrent | YUViewLib/src/decoder/decoderLibde265.cpp:392-412 | over every run: in RetrieveFrames the raw data is that of the picture last accepted, however often it is asked for |
| De265Decoder.CopiedOnce | YUViewLib/src/decoder/decoderLibde265.cpp:399-411 | over every run: copies follow the order of the pictures and none with bytes is copied (and its statistics recorded) twice |
| De265Decoder.FormatIsStable | YUViewLib/src/decoder/decoderLibde265.cpp:362-382 | size and format, once one is valid, never change, across resets and errors |
| De265Answers.AnswersTellAll | YUViewLib/src/decoder/decoderLibde265.cpp:310-465 | over every run, outside errors, from the library's answers alone: the pictures handed out and the waiting one are exactly the pictures among the answers, in order; data is asked for exactly if the library waits for it, and the bitstream has ended exactly if it said so |
| De265Answers.AnswerDecides | YUViewLib/src/decoder/decoderLibde265.cpp:326-397 | the last answer decides the state: waiting, a failure, the end, or a picture, which is an error exactly if it disagrees with size or format |
| De265Answers.AnswersTrue | YUViewLib/src/decoder/decoderLibde265.cpp:310-324 | decodeNextFrame is true exactly if it hands a picture out, pushData exactly if data was due and taken |
| De265Answers.InputEndsForGood | YUViewLib/src/decoder/decoderLibde265.cpp:414-465 | once the empty data is taken, no data is taken until a reset |
| De265Answers.ResetEnds | YUViewLib/src/decoder/decoderLibde265.cpp:115-308 | a reset ends in Error exactly if one of its steps fails, can be tried again exactly if a library decoder is left, and otherwise leads to a decoder that takes data |
| De265Decoder.DecoderLibde265.DecodeFrame | YUViewLib/src/decoder/decoderLibde265.cpp:326-390 | the loop over the library's answers ends with the first that settles it, and the state that goes with it |
| De265Decoder.DecoderLibde265.AcceptImage | YUViewLib/src/decoder/decoderLibde265.cpp:356-389 | the first picture fixes size and format, a later one must agree; accepting clears the output buffer |
| De265Decoder.DecoderLibde265.PushData | YUViewLib/src/decoder/decoderLibde265.cpp:414-465 | data only when needed and not flushing; a picture found at once waits |
| De265Decoder.DecoderLibde265.DecodeNextFrame | YUViewLib/src/decoder/decoderLibde265.cpp:310-324 | hands out the waiting picture first |
| De265Decoder.DecoderLibde265.GetRawFrameData | YUViewLib/src/decoder/decoderLibde265.cpp:392-412 | copies on first use only |
| De265Decoder.DecoderLibde265.ResetDecoder | YUViewLib/src/decoder/decoderLibde265.cpp:115-129 | forgets the waiting picture, buffer and flushing, or ends in Error |
| De265Decoder.DecoderLibde265.AllocateNewDecoder | YUViewLib/src/decoder/decoderLibde265.cpp:247-308 | a new decoder with an empty buffer, or Error |
| FFmpegDecoder.RunKeeps | YUViewLib/src/decoder/decoderFFmpeg.cpp:132-428 | over every run: flushing is never in NeedsMoreData, the end is only reached while flushing, and the buffer holds the frame |
| FFmpegDecoder.FlushingLasts | YUViewLib/src/decoder/decoderFFmpeg.cpp:325-428 | once flushing, no packet is taken and no data asked for until a reset |
| FFmpegDecoder.PacketsInOrderOnce | YUViewLib/src/playlistitem/playlistItemCompressedVideo.cpp:686-712 | over every run of one pipeline between seeks, whose caller offers refused packets again: the library has a prefix of the file's packets, each once and in order, and all of them when it flushes |
| FFmpegDecoder.StopsOnErrorOnly | YUViewLib/src/playlistitem/playlistItemCompressedVideo.cpp:701-711 | the caller only gives up on a packet rejected for good |
| FFmpegDecoder.FramesAreShown | YUViewLib/src/decoder/decoderFFmpeg.cpp:143-176 | from any reachable state: every frame the library gives is announced and is the raw data the caller then gets; when no more come, the bitstream has ended if it was flushed, and else data is asked for |
| FFmpegDecoder.RawTwice | YUViewLib/src/decoder/decoderFFmpeg.cpp:155-176 | asking for the raw data again gives the same |
| FFmpegDecoder.ResetTakesPackets | YUViewLib/src/decoder/decoderFFmpeg.cpp:132-141 | after a reset outside Error packets are taken again, one after another |
| FFmpegDecoder.DecoderFFmpeg.PushAVPacket | YUViewLib/src/decoder/decoderFFmpeg.cpp:325-388 | a packet is taken, refused for now (retrieve frames first), or an error; the empty one starts flushing |
| FFmpegDecoder.DecoderFFmpeg.DecodeNextFrame | YUViewLib/src/decoder/decoderFFmpeg.cpp:143-153 | a fetched frame clears the output buffer; out of frames, the state depends on flushing |
| FFmpegDecoder.DecoderFFmpeg.GetRawFrameData | YUViewLib/src/decoder/decoderFFmpeg.cpp:155-176 | copies on first use only |
| FFmpegDecoder.DecoderFFmpeg.ResetDecoder | YUViewLib/src/decoder/decoderFFmpeg.cpp:132-141 | ends flushing, except in Error |
| FFmpegPipelines.BothInOrderOnce | YUViewLib/src/playlistitem/playlistItemCompressedVideo.cpp:676-712 | loading and caching in any interleaving, with any seeks: if neither offers or seeks while the other has a refused packet to offer again, each library takes its file's packets from the last seek on in order, each once, and all of them before it is flushed |
| FFmpegPipelines.OfferIsDue | YUViewLib/src/playlistitem/playlistItemCompressedVideo.cpp:690-706 | the packet offered is the one that is due while the other has none to offer again; otherwise it is the one taken last |
| FFmpegPipelines.SeekSkips | YUViewLib/src/playlistitem/playlistItemCompressedVideo.cpp:837-841 | a seek of one clears the other's flag as well, and what that one then offers is the packet behind the one due |
| FFmpegPipelines.DoubledForGood | YUViewLib/src/playlistitem/playlistItemCompressedVideo.cpp:690-706 | a packet that is taken while the other has one to offer again comes twice, and the library's packets are not those of the file until it seeks, whatever happens |
| FFmpegPipelines.LostForGood | YUViewLib/src/playlistitem/playlistItemCompressedVideo.cpp:690-841 | likewise a refused packet is lost if the other seeks before it is offered again |
| FFmpegPipelines.PairExample | YUViewLib/src/playlistitem/playlistItemCompressedVideo.cpp:690-706 | a run in which caching takes a packet twice and loading ends without its last one |
| FFmpegPlanes.PlaneFits | YUViewLib/src/decoder/decoderFFmpeg.cpp:191-216 | a plane fits into the bytes reserved for it, and fills them if and only if the lines that subsampling drops are short enough |
| FFmpegPlanes.PlanesLieApart | YUViewLib/src/decoder/decoderFFmpeg.cpp:202-216 | planes never overlap, and up to three lie inside the buffer, for all sizes and subsampling factors |
| FFmpegPlanes.FourthPlane | YUViewLib/src/decoder/decoderFFmpeg.cpp:193-211 | the fourth plane would begin where the reserved bytes end |
| FFmpegPlanes.CopyStaysInside | YUViewLib/src/decoder/decoderFFmpeg.cpp:191-216 | for up to four planes, all lie inside the buffer if and only if there are at most three or the fourth is empty |
| FFmpegPlanes.PictureAt | YUViewLib/src/decoder/decoderFFmpeg.cpp:216-221 | each copied byte is the byte of the library's memory at the same line and column, whatever the line size |
| FFmpegPlanes.SampleAt | YUViewLib/src/decoder/decoderFFmpeg.cpp:187-222 | every byte of every sample, by its column and line in its plane, lies where a viewer looks for it and is the library's byte of that column and line |
| FFmpegPlanes.CopyPlane | YUViewLib/src/decoder/decoderFFmpeg.cpp:216-221 | one plane, line by line, and nothing outside its place |
| FFmpegPlanes.CopyCurImageToBuffer | YUViewLib/src/decoder/decoderFFmpeg.cpp:187-222 | all planes at their places in a buffer that is large enough |
| Targa.CellsDiffer | YUViewLib/src/decoder/decoderTarga.cpp:248-267 | different pixels have different 4-byte cells, for all sizes and orientations |
| Targa.CellIsTaken | YUViewLib/src/decoder/decoderTarga.cpp:248-267 | every cell is that of a pixel, so the map is a bijection |
| Targa.SetColorSets | YUViewLib/src/decoder/decoderTarga.cpp:248-267 | writing a pixel changes that pixel and no other |
| TargaLines.WriteInLine | YUViewLib/src/decoder/decoderTarga.cpp:348-393 | the packets of one line fill exactly their part of that line |
| TargaLines.LineReads | YUViewLib/src/decoder/decoderTarga.cpp:348-393 | one call reads exactly the packets that reach the end of the line, and the colors of their pixels |
| TargaLines.RleIsUncompressed | YUViewLib/src/decoder/decoderTarga.cpp:490-554 | any run-length coding whose packets break at the lines gives the same image as the uncompressed form, for all sizes, pixel formats and orientations |
| TargaLines.UncompressedPixels | YUViewLib/src/decoder/decoderTarga.cpp:490-554 | and in that image pixel (x, y) has the color of the file's pixel y * width + x |
| TargaLines.LastLineFits | YUViewLib/src/decoder/decoderTarga.cpp:348-393 | in the last line reading succeeds if and only if the packets end with the line |
| TargaWrites.WriteAcross | YUViewLib/src/decoder/decoderTarga.cpp:348-393 | pixels written across lines succeed exactly if they fit into the image; they change the pixels with the next numbers and no others |
| TargaWrites.LastWriteWins | YUViewLib/src/decoder/decoderTarga.cpp:490-554 | for every file, run-length coded or not, well formed or not: reading succeeds if and only if no line call reaches behind the image, and then every pixel shows what the last call that reaches it delivers there |
| TargaWrites.OwnLineStays | YUViewLib/src/decoder/decoderTarga.cpp:343-393 | a pixel that its own line's call reaches shows that call's pixel, whatever earlier calls spilled there |
| TargaCrossing.LastsIffBreaks | YUViewLib/src/decoder/decoderTarga.cpp:343-393 | the packets of a coding of exactly n lines last for n line calls if and only if they break at the lines |
| TargaCrossing.CallsOnCoding | YUViewLib/src/decoder/decoderTarga.cpp:490-554 | while the packets last, each line call takes those that make up a line, crossing or not, and the next one begins behind them |
| TargaCrossing.RunsOut | YUViewLib/src/decoder/decoderTarga.cpp:348-393 | a line call that has too few packets left delivers their pixels and goes on with whatever stands behind them |
| TargaCrossing.PacketBehind | YUViewLib/src/decoder/decoderTarga.cpp:196-201 | at the end of the file such a call still takes one packet, made of failed reads, and then stops |
| TargaCrossing.CodingIsRead | YUViewLib/src/decoder/decoderTarga.cpp:348-393 | what each line call delivers on a file that ends behind the coding, for any coding: its own packets, or those left and one packet of failed reads, or nothing |
| TargaCrossing.PositionTells | YUViewLib/src/decoder/decoderTarga.cpp:348-393 | for a coding of exactly the image, a read fails if and only if a packet crosses a line |
| TargaCrossing.ShowsBehind | YUViewLib/src/decoder/decoderTarga.cpp:490-554 | a coding that runs out shows, right behind its own pixels, a color read from behind it |
| TargaCodings.CrossingIsRight | YUViewLib/src/decoder/decoderTarga.cpp:490-554 | a coding of exactly the image's pixels is read as the image, whatever stands behind it, if and only if its packets break at the lines; the pixels' values play no part |
| TargaCodings.CrossingAtEnd | YUViewLib/src/decoder/decoderTarga.cpp:490-554 | the same for files that end behind the coding, whatever failed reads leave behind |
| TargaCodings.GrayAndRgbTell | YUViewLib/src/decoder/decoderTarga.cpp:306-341 | two bytes of different color, which the row above asks for, exist in every gray or RGB format |
| TargaCodings.CrossingExample | YUViewLib/src/decoder/decoderTarga.cpp:343-393 | four gray pixels coded as packets of three and one: reading fails unless the failed reads happen to make a packet of one pixel, and the image is wrong in any case |
| TargaFile.PixelRoundTrip | YUViewLib/src/decoder/decoderTarga.cpp:203-341 | for every pixel format and every color it can hold, reading the written pixel gives the color: blue first, five bits each with the top bit for opaque pixels, gray, or an index |
| TargaFile.UncompressedRoundTrip | YUViewLib/src/decoder/decoderTarga.cpp:248-267 | every picture written pixel by pixel is read back as itself, in all formats and orientations |
| TargaFile.RleRoundTrip | YUViewLib/src/decoder/decoderTarga.cpp:343-393 | and so is every run-length coding of it whose packets break at the lines |
| TargaFile.HeaderRoundTrip | YUViewLib/src/decoder/decoderTarga.cpp:395-488 | every header and colormap written is read, and the pixels begin behind it |
| TargaFile.FileRoundTrip | YUViewLib/src/decoder/decoderTarga.cpp:606-627 | the whole file of every picture is loaded as that picture, up to the repair of alpha, whatever follows the pixels |
| TargaFile.RleFileRoundTrip | YUViewLib/src/decoder/decoderTarga.cpp:606-627 | the same for run-length coded files |
| TargaFile.RepairedPicture | YUViewLib/src/decoder/decoderTarga.cpp:559-603 | exactly the RGB pictures with an alpha channel that are transparent in every pixel, while some pixel is not black, come out opaque |
| TargaReader.RepairIsIdempotent | YUViewLib/src/decoder/decoderTarga.cpp:559-603 | the repair changes alpha only, of all pixels or of none, and a second time changes nothing |
| TargaReader.Repairs | YUViewLib/src/decoder/decoderTarga.cpp:566-590 | what the pass over the pixels finds out decides whether the image needs repair |
| TargaReader.TgaReader.ReadColormap | YUViewLib/src/decoder/decoderTarga.cpp:269-304 | the entries of the colormap, in any depth |
| TargaReader.TgaReader.ReadHeader | YUViewLib/src/decoder/decoderTarga.cpp:395-488 | fields, id string and colormap; no header if the size is zero or the type invalid |
| TargaReader.TgaReader.LoadTga | YUViewLib/src/decoder/decoderTarga.cpp:606-627 | header, image and repair, or failure |
| TargaReader.TgaReader.ReadColor | YUViewLib/src/decoder/decoderTarga.cpp:306-341 | the pixel at the position, in any format |
| TargaReader.TgaReader.SetColorInImage | YUViewLib/src/decoder/decoderTarga.cpp:248-267 | writes the pixel in place; fails below the last line |
| TargaReader.TgaReader.ReadRunLengthDataIntoImage | YUViewLib/src/decoder/decoderTarga.cpp:348-393 | the packets of a call, written from its line on in place |
| TargaReader.TgaReader.ReadImage | YUViewLib/src/decoder/decoderTarga.cpp:490-554 | the lines, one after another, into a fresh image |
| TargaReader.TgaReader.PostProcessImage | YUViewLib/src/decoder/decoderTarga.cpp:559-603 | the repair, in place |
| Mp4Packets.PackedIsMp4 | YUViewLib/src/ffmpeg/AVPacketWrapper.cpp:54-78 | every packed list of units is accepted and taken apart into the same list |
| Mp4Packets.Mp4IsPacked | YUViewLib/src/ffmpeg/AVPacketWrapper.cpp:54-78 | every packet that is accepted is a packed list of units with at most three bytes left over |
| Mp4Packets.PackedIsGuessed | YUViewLib/src/ffmpeg/AVPacketWrapper.cpp:330-358 | a nonempty packed list is recognised if and only if its first unit is not one byte long; then it is taken for raw units |
| Mp4Packets.RawIsGuessed | YUViewLib/src/ffmpeg/AVPacketWrapper.cpp:330-358 | data behind a four-byte start code is taken for raw units; behind a three-byte one if and only if it is neither cut like a packed list nor answers to the OBU check; which it is when it is as long as the start code says as a length |
| Mp4Packets.GuessedIsRead | YUViewLib/src/filesource/FileSourceFFmpegFile.cpp:95-178 | every packet guessed to be in this format is read as its units, each once and in order, and is done with exactly if nothing is left over |
| Mp4Packets.FileIsRead | YUViewLib/src/filesource/FileSourceFFmpegFile.cpp:95-178 | over all packets of a file, repeated calls return all units in order and consume every packet |
| Mp4Packets.CutOffUnits | YUViewLib/src/filesource/FileSourceFFmpegFile.cpp:152-178 | from a packet cut off within a unit the units in front come out whole; the cut one comes out short without a sign of it if at most four bytes are missing, else nothing does, and the packet is done with |
| FileSourceFFmpegFile.CheckForMp4Format | YUViewLib/src/ffmpeg/AVPacketWrapper.cpp:54-78 | the loop over the lengths decides the same as the description by units |
| FileSourceFFmpegFile.AVPacketWrapper.GuessDataFormatFromData | YUViewLib/src/ffmpeg/AVPacketWrapper.cpp:330-358 | the guess, kept once it is known |
| FileSourceFFmpegFile.FileSourceFFmpegFile.GoToNextPacket | YUViewLib/src/filesource/FileSourceFFmpegFile.cpp:609-662 | the next packet; the format of the file is that of the first packet with a known one |
| FileSourceFFmpegFile.FileSourceFFmpegFile.GetNextUnit | YUViewLib/src/filesource/FileSourceFFmpegFile.cpp:95-178 | the next unit, loading a packet if none is left and guessing its format if it is not known yet; while it stays unknown, a packet is loaded and the unit before returned |
| FileSourceFFmpegFile.FileSourceFFmpegFile.ScanBitstream | YUViewLib/src/filesource/FileSourceFFmpegFile.cpp:482-528 | counts the frames and appends the key frames of the file to the index |
| FileSourceFFmpegFile.FileSourceFFmpegFile.GetClosestSeekableFrameBefore | YUViewLib/src/filesource/FileSourceFFmpegFile.cpp:461-480 | frame and time stamp of the entry the search ends on |
| Keyframes.IndexIsExact | YUViewLib/src/filesource/FileSourceFFmpegFile.cpp:502-520 | the index is strictly increasing, below the number of frames, and lists the key frames with their time stamps and nothing else |
| Keyframes.ClosestIsLast | YUViewLib/src/filesource/FileSourceFFmpegFile.cpp:461-480 | the search finds the greatest key frame not behind the frame, or the first one if there is none |
| Keyframes.RescanIsHarmless | YUViewLib/src/filesource/FileSourceFFmpegFile.cpp:461-520 | a second scan appends to the index, which is then not increasing, but every search gives the same answer |
| SyntaxTables.LoopReads | tools/standardTextToCode/parseTables.py:169-257 | the lines of a container are read back, and the rest starts at the first row outside of it |
| SyntaxTables.HeadIsRead | tools/standardTextToCode/parseTables.py:281-297 | a head is read as it is if and only if it is no else-if with a guard; of an else-if the guard is lost, and one behind a bracket becomes an else |
| SyntaxTables.LoopIsKept | tools/standardTextToCode/parseTables.py:284-294 | no parse result has a guarded else-if or a lone bracket |
| SyntaxTables.LoopComments | tools/standardTextToCode/parseTables.py:169-257 | no comment is made up |
| SyntaxTables.ParseComments | tools/standardTextToCode/parseTables.py:171-175 | a comment in front of the first row of a container is lost |
| SyntaxTables.MisplacedSpoils | tools/standardTextToCode/parseTables.py:169-257 | a comment at the beginning of a container, or behind one that is not closed, changes the tree that is read |
| SyntaxTables.TablesRoundTrip | tools/standardTextToCode/parseTables.py:169-257 | for every tree without empty containers and every choice of closing rows, parsing its rows gives the tree back and leaves no row, if and only if no else-if has a guard, no text is a lone bracket, no container begins with a comment, and no comment follows a container that is not closed |
| SyntaxTables.LoopGoesOn | tools/standardTextToCode/parseTables.py:169-257 | whatever follows, the lines of a tree are read back and the loop goes on behind them |
| SyntaxTables.TableEndsEarly | tools/standardTextToCode/parseTables.py:169-257 | a table that ends too early: a head without lines gives an empty container, a do without lines or without its closing row is lost with all its lines, and the lines in front stay |
| SyntaxTables.EmptyTakesNext | tools/standardTextToCode/parseTables.py:169-186 | a container without lines takes the next line of its parent |
| ParseTables.Container.ParseChildren | tools/standardTextToCode/parseTables.py:169-257 | the recursive loop over the row index appends the children and returns the index of the first row behind them, or leaves with an exception if no row follows |
| ParseTables.Container.ParseRow | tools/standardTextToCode/parseTables.py:188-250 | one round of that loop: the row, and if it opens a container, the rows of that container |
| ParseTables.ParseClosingWhile | tools/standardTextToCode/parseTables.py:334-354 | the condition of the row that closes a do, if it is one |
| EventSubsampler.StepKeeps | YUViewLib/src/common/EventSubsampler.h:49-76 | every post and timeout keeps the invariant of timer, distance and answered posts |
| EventSubsampler.RateIsLimited | YUViewLib/src/common/EventSubsampler.h:49-76 | for every schedule and every lateness of timers: emissions keep their distance, are no more than posts, one timer is armed unless idle, and each post is answered within one timeout (plus the lateness) or still has its timer to come |
| EventSubsampler.PromisedRate | YUViewLib/src/common/EventSubsampler.h:53-54 | no second holds more than eventsPerSecond emissions, on any schedule, if and only if eventsPerSecond divides 1000 |
| EventSubsampler.EventSubsampler.PostEvent | YUViewLib/src/common/EventSubsampler.h:49-61 | emits at once when idle, else remembers the event |
| EventSubsampler.EventSubsampler.TimerTimeout | YUViewLib/src/common/EventSubsampler.h:64-76 | emits a remembered event and arms the timer again, or falls idle |

## Left out

- FileSourceAnnexBFile.FileSourceAnnexBFile.GetFrameData: requires what the code asserts, that every piece begins with a start code, and a start in front of the end of the file; `AnnexBFrameData.FrameDataIsExact` tells on which ranges the assertion holds and the data is right.
- FileSourceAnnexBFile.FileSourceAnnexBFile.SeekToFirstNAL: the debug assertion that the position is not negative is not part of the method; `AnnexBAccess.FirstPosition` tells when it holds.
- FileSourceAnnexBFile.FileSourceAnnexBFile.constructor: the buffer size, 500000 in the code, is any number of at least 5; the bytes of a fresh buffer are arbitrary. With 4 bytes the boundary test reaches back in front of the search position of a reader that does not stand at a unit, and finds codes that the description of a call does not look for.
- FileSourceAnnexBFile.FileSourceAnnexBFile.OpenFile: a reader that has moved and is opened again keeps the window offset of the file before, as the code does not reset it; the model opens a reader that has not moved.
- AnnexBScan.ByteBefore: the code reads the byte in front of the buffer when a code stands at its very front; the model gives it any value.
- Dav1dWalk.GoodTreeTiles: a read behind the block array yields a fixed but arbitrary block.
- DecoderDav1d.DecoderDav1d.ParseBlockPartition: of the values recorded for a block only the prediction mode is kept, not modes, vectors or sizes of transform blocks.
- De265Blocks.DecoderLibde265.CacheStatistics: slices, prediction modes, flags, intra directions and motion vectors are not recorded; prediction blocks are covered by `De265Blocks.PbTilesIffDivides` one coding block at a time.
- De265Blocks.DecoderLibde265.AddCb: of the values of a coding block only the part mode is recorded.
- De265Blocks.DecoderLibde265.CacheTUTree: of the values of a transform unit only the depth is recorded, not the intra directions.
- De265Decoder.DecoderLibde265.GetRawFrameData: the plane copy of libde265 pictures is not modelled; the bytes of a picture are given.
- De265Decoder.DecoderLibde265.PushData: the bytes of the data, and the start code taken off them, do not appear; what the library answers to them is given.
- De265Decoder.DeliveredInOrder: after a failed reset the flag of a waiting picture may survive in Error; the code behaves so.
- FFmpegDecoder.DecoderFFmpeg.DecodeNextFrame: library return codes are a few kinds of answers; -35 is kept apart where it is not the library's "try again".
- FFmpegPipelines.OfferIsDue: a pipeline that has read no packet since its seek offers, while the other has one to offer again, the packet it read before the seek; before any packet the code has an empty one at that place, the model none.
- FFmpegDecoder.PacketsInOrderOnce: one pipeline between seeks; loading and caching share their repush flag, for which `FFmpegPipelines` states what holds.
- FFmpegPlanes.CopyCurImageToBuffer: a fourth plane that is not empty, for which no bytes are reserved (`FFmpegPlanes.CopyStaysInside`), and RGB frames.
- TargaCodings.CrossingAtEnd: an indexed image in which all 256 indices have one color is left out; `TargaCodings.CrossingIsRight` has no such condition.
- TargaFile.HeaderRoundTrip: colormaps are written with origin 0; the code reads the origin and does not use it.
- TargaReader.TgaReader.ReadColor: an index outside the colormap is undefined in the code and gives a fixed color here.
- TargaReader.TgaReader.SetColorInImage: index arithmetic is unbounded; an image of more than 2^30 pixels, where 32 bits wrap around, is not told apart.
- FileSourceFFmpegFile.FileSourceFFmpegFile.GetNextUnit: the branches for raw units and for OBUs are not part of the model. A read behind the end of a packet yields an arbitrary byte.
- FileSourceFFmpegFile.FileSourceFFmpegFile.GoToNextPacket: packets of other streams are skipped by the library loop before and do not appear; the answer of the OBU check is given with the packet.
- FileSourceFFmpegFile.FileSourceFFmpegFile.ScanBitstream: progress and cancelling.
- SyntaxTables.TablesRoundTrip: trees with empty containers, of which some come back and some do not (`SyntaxTables.EmptyTakesNext`). What a row's text is (variable, call, head of a container, anything else) is given, nor is an else-if without brackets a different tree from one whose guard was lost.
- ParseTables.Container.ParseChildren: cells that merged columns repeat are not modelled, nor the cleaning of texts.
- ParseTables.ParseClosingWhile: a closing while without brackets, which raises an exception, and repeated cells.
- EventSubsampler.RateIsLimited: eventsPerSecond must not be zero, by which the code divides. Timers do not fire early.
- EventSubsampler.EventSubsampler.TimerTimeout: a post that a receiver makes while the delayed event is emitted is forgotten by the code; in the model it is a post at that time in front of the emission, which counts as its answer.
- The decoders HM, VVDec, VTM and dav1d, whose push/pull state machines are variants of the one modelled for libde265.
- Parameter sets in the container's own format, with 16-bit lengths.
- Library loading, file watching, settings, dialogs, colour conversion, and everything on the screen.
