# quickdump: the QuickDumper append-only object log

This project models `QuickDumper` from `quickdump/dumper.py` in Dafny. The dumper is a labelled, append-only log of serialized values. For one label it keeps two files in its output directory:

- the **segment** `<output_dir>/<label>.qd`, the raw concatenation of the encodings of the values dumped since the last rotation;
- the **archive** `<output_dir>/<label>.cqd`, a concatenation of encoded byte strings, each one a gzip buffer of a former segment.

`dump(*objs)` appends the encodings of `objs` to the segment. Unless `skip_compression_check` is set, it then rotates when the segment has reached `max_uncompressed_size` bytes: `_compress` appends the compressed segment to the archive as one entry and truncates the segment. `iter_dumped` decodes the first archive entry and then the segment.

Layout of the Dafny project:

- `base.dfy` (module `Base`): the `byte` type and `Option`.
- `codec.dfy` (module `Codec`): a model of the serializer. It has a `Value` type (integers, byte strings, lists), a self-delimiting encoding, and one-value decoding. Decoding tells an empty stream (`EndOfInput`, Python's `EOFError`) apart from malformed bytes. Its lemmas prove the round trip and the prefix property.
- `gzip.dfy` (module `Gzip`): a model of `gzip.compress`/`gzip.decompress`. It has a header check and a proved round trip.
- `dumper.dfy` (module `QuickDump`): the dumper itself.
  - The frozen dataclass becomes the datatype `QuickDumper(labelName, outputDir, maxUncompressedSize)`. `label` is a Dafny keyword, so the field is named `labelName`.
  - The directory is a `Disk` object whose `files` map holds each path's bytes.
  - `dump`, `_compress`, `_dill_load` and `iter_dumped` are methods. Each is proved equal to a specification function (`AfterDump`, `Compressed`, `Load`, `ReadBack`).
  - A generator's output is a `Stream`: the values it yielded, then the exception that ended it, if any.
- `properties.dfy` (module `DumpProperties`): the lemmas about the specification functions. They cover file naming, one dump, rotation, and reading back after a run of dumps. A `View` is the list of archived chunks plus the pending values. `Layout` ties the two files to a view.
- `findings.dfy` (module `ReadBackFix`): the finding below. It holds the as-written counterexample and a corrected reader with its proof.

Three facts about the code that the model keeps:

- The two files are named `<label>.qd` and `<label>.cqd`, with no suffix of any other kind.
- `_dill_load` catches only `EOFError`. In the model, any undecodable tail therefore ends the stream with an error (`Unpickling`), not cleanly.
- `iter_dumped` decodes only the first archive blob, so the two files do not always give back the complete history (see Findings).

## Model

| member | source | states |
|---|---|---|
| `QuickDump.QuickDumper.UncompressedFile` | quickdump/dumper.py:39-41 | the segment path lies in the output directory (`dir + "/"` prefix) and ends in `.qd` |
| `QuickDump.QuickDumper.CompressedFile` | quickdump/dumper.py:43-45 | the archive path lies in the output directory and ends in `.cqd` |
| `DumpProperties.SegmentIsNeverAnArchive` | quickdump/dumper.py:39-45 | no dumper's segment path equals any dumper's archive path (so for one label the two names always differ) |
| `DumpProperties.SameDirectorySameLabel` | quickdump/dumper.py:39-45 | in one output directory, two dumpers have the same segment (and the same archive) exactly when their labels are equal |
| `QuickDump.DefaultDumper` | quickdump/dumper.py:13-24 | the default dumper (label `unlabeled_dump`, `~/.quickdump`, 10 * 10^6 bytes) writes its segment to `~/.quickdump/unlabeled_dump.qd` and its archive to `~/.quickdump/unlabeled_dump.cqd`, and rotates at 10,000,000 bytes |
| `Codec.Encode` | quickdump/dumper.py:51 | every value's encoding is non-empty |
| `Codec.DecodeOne` | quickdump/dumper.py:78 | decoding one value consumes at least one byte; end-of-input is reported exactly when the stream is empty |
| `Codec.DecodeOneEncode` | quickdump/dumper.py:51 | decoding the encoding of `v` followed by any bytes yields `v` and leaves exactly those bytes |
| `Codec.DecodeItemsEncodeAll` | quickdump/dumper.py:51 | the encodings of `n` values, followed by any bytes, decode back as those `n` values and leave those bytes |
| `Codec.DecodeOneExtends` | quickdump/dumper.py:78 | bytes appended after a complete encoding do not change the decoded value; they only follow it |
| `Codec.EncodeAllConcat` | quickdump/dumper.py:50-51 | encoding `a + b` is the encoding of `a` followed by the encoding of `b` |
| `Gzip.Compress` | quickdump/dumper.py:62 | every compressed buffer starts with the gzip header |
| `Gzip.Decompress` | quickdump/dumper.py:87 | decompression succeeds exactly on the empty buffer (which gives nothing back) and on buffers that start with the gzip header |
| `Gzip.DecompressCompress` | quickdump/dumper.py:62 | decompressing a compressed buffer gives the buffer back |
| `QuickDump.QuickDumper.Dump` | quickdump/dumper.py:47-55 | the directory afterwards is `AfterDump`: encodings appended one by one in argument order, then `_compress` exactly when the check is not skipped and the segment has reached the threshold |
| `QuickDump.QuickDumper.Append` | quickdump/dumper.py:49-51 | the directory afterwards is `Appended`: the segment (empty if it did not exist) followed by the encodings of `objs` in argument order, every other file unchanged |
| `QuickDump.QuickDumper.Compress` | quickdump/dumper.py:57-69 | the directory afterwards has the compressed old segment appended to the archive as one encoded entry and the segment truncated to empty |
| `QuickDump.QuickDumper.DillLoad` | quickdump/dumper.py:75-80 | the decode loop yields what `Load` specifies: values in stream order, stopping cleanly at end of stream and with `Unpickling` on malformed bytes |
| `QuickDump.QuickDumper.IterDumped` | quickdump/dumper.py:82-92 | the values yielded are those of `ReadBack`: the decoded first archive blob (if the archive exists), then the segment's values, with each exception path (empty archive, non-bytes entry, bad gzip, missing segment) |
| `DumpProperties.LoadEncodeAll` | quickdump/dumper.py:75-80 | loading the concatenated encodings of `[v1..vn]` yields exactly `[v1..vn]` and ends with no error |
| `DumpProperties.LoadConcat` | quickdump/dumper.py:75-80 | a stream that ends cleanly, followed by more bytes, yields its own values then those of the bytes after it |
| `DumpProperties.AppendTouchesOnlyTheSegment` | quickdump/dumper.py:47-51 | the write step leaves the segment as old bytes plus `Encode(o1) ++ ... ++ Encode(on)` and leaves the archive and every other file unchanged |
| `DumpProperties.AppendedValuesFollow` | quickdump/dumper.py:47-51 | read back, the segment after the write holds its earlier values followed by `o1..on` in order |
| `DumpProperties.CompressAddsOneEntry` | quickdump/dumper.py:57-69 | `_compress` empties the segment and makes the archive read as its earlier entries plus exactly one new entry, the compressed old segment; no other file changes |
| `DumpProperties.RotationIff` | quickdump/dumper.py:53-55 | the archive changes exactly when the check is not skipped and the segment size after the append is at least `max_uncompressed_size` (lines 71-73). The old archive is always a prefix of the new one, and with the check skipped the archive's existence is unchanged too |
| `DumpProperties.CompressionCheckSeesAppendedSize` | quickdump/dumper.py:71-73 | `_requires_compression`, run right after the write, holds exactly when the old segment size plus the bytes just written reaches `max_uncompressed_size` |
| `DumpProperties.SegmentStaysBelowThreshold` | quickdump/dumper.py:53-55 | with a positive threshold, the segment after a checked dump is below the threshold |
| `DumpProperties.FlattenSnoc` | quickdump/dumper.py:57-69 | appending a rotated chunk to the archive's chunks appends its values to the archived history |
| `DumpProperties.AppendRefinesView` | quickdump/dumper.py:47-51 | without rotation, the files keep the layout of a view whose pending values gained `objs` |
| `DumpProperties.RotationRefinesView` | quickdump/dumper.py:57-69 | rotation turns the pending values into the newest archive chunk and leaves nothing pending, with the history unchanged |
| `DumpProperties.DumpRefinesView` | quickdump/dumper.py:47-69 | a dump keeps the files in step with the view (rotating exactly when the encoded pending values reach the threshold) and creates the segment |
| `DumpProperties.DumpHistory` | quickdump/dumper.py:47-69 | whether or not it rotates, a dump appends exactly `objs` to the dumped history |
| `DumpProperties.ReplayRefinesView` | quickdump/dumper.py:47-69 | after any run of dumps the files hold the replayed view, and after at least one dump the segment exists |
| `DumpProperties.ReplayHistory` | quickdump/dumper.py:47-69 | after any run of dumps the history is the old history followed by all dumped values in call order |
| `DumpProperties.ReadBackIsFirstChunkThenSegment` | quickdump/dumper.py:82-92 | `iter_dumped` returns the first archive chunk, or nothing with no archive, followed by the segment's values, with no error |
| `DumpProperties.EmptyArchiveEntryReadsAsNothing` | quickdump/dumper.py:84-92 | when the first archive entry is the empty byte string, `iter_dumped` yields nothing from the archive and then every segment value, ending cleanly |
| `DumpProperties.RoundTripUpToOneRotation` | quickdump/dumper.py:84-92 | with at most one archive blob, `iter_dumped` returns every dumped value in dump order |
| `DumpProperties.LaterChunksAreLost` | quickdump/dumper.py:86-88 | when a second archive chunk is non-empty, `iter_dumped` returns fewer values than were dumped |
| `DumpProperties.FreshRoundTrip` | quickdump/dumper.py:47-92 | starting from a directory with neither file, after one or more dumps and at most one rotation, `iter_dumped` returns exactly the dumped values in order |
| `ReadBackFix.SecondRotationIsLost` | quickdump/dumper.py:86-88 | label `t`, threshold 1, `dump(0)` then `dump(1)`: `iter_dumped` yields only `[0]` |
| `ReadBackFix.UnpackBlobsOfChunks` | quickdump/dumper.py:87-88 | decompressing and decoding every archive entry yields all archived chunks' values in order |
| `ReadBackFix.ReadBackAllRoundTrip` | quickdump/dumper.py:82-92 | the corrected reader returns the whole dumped history after any number of rotations |
| `ReadBackFix.ReadersAgreeUpToOneRotation` | quickdump/dumper.py:82-92 | with at most one rotation, the corrected reader and `iter_dumped` return the same thing |

## Left out

- dill and gzip (quickdump/dumper.py:1, 8, 51, 62, 66, 78, 87) are foreign libraries. They are replaced by the model codec in `codec.dfy` and the model compressor in `gzip.dfy`. The model compressor stores the data after the gzip header; deflate and the CRC are not modelled. The model's byte counts therefore differ from the real ones, while the rotation rule on those counts is the same.
- Which dill exception a truncated trailing value raises depends on where the cut falls: `EOFError` between opcodes, `UnpicklingError` inside one. The model decodes an empty stream as the clean end and anything else undecodable as `Unpickling`.
- Serialization failures are not modelled: every model `Value` is encodable. So a `dump` that fails part-way through `objs` is not covered.
- `__post_init__` and `_validate_output_dir` (quickdump/dumper.py:26-33) are filesystem checks. They create the directory or raise `FileNotFoundError` and are not modelled; the directory is the `Disk` object.
- `file_basename` (quickdump/dumper.py:35-37) is not used by any operation.
- Logging (quickdump/dumper.py:58, 85, 90) is a side effect only.
- The `__main__` benchmark (quickdump/dumper.py:97-105) is a demo.
- `__call__ = dump` (quickdump/dumper.py:94) is an alias of `Dump`.
- File-system failures (permissions, full disk) are not modelled. Neither is a crash between the archive append and the segment truncation: `Compress` performs both steps.
- Paths are joined as `dir + "/" + name`, without `pathlib` normalisation. An absolute label, a trailing slash on the directory, `.` components and doubled slashes are not modelled. In the program, labels `./x` and `x` (or `a//b` and `a/b`) name the same file; in the model they are different paths, so `SameDirectorySameLabel` holds only for labels that `pathlib` leaves unchanged.
- `iter_dumped` is a lazy generator. The model computes everything it yields at once, so it does not model files changing while iteration is in progress.
- `quickdump/__init__.py` is not part of this model. Its `qd` helper passes a `force_flush` argument that `dump` does not accept, and it imports names that `dumper.py` does not define.
- `examples/basic.py` and `examples/mitmproxy_test.py` are demo scripts and are not part of this model.
- The dumper registry, timestamp suffixes, directory merge-reading and close hooks are not in `dumper.py`, so they are not modelled.

## Findings

| source | as written | input that shows it | evidently intended | confidence | as-written member | corrected member |
|---|---|---|---|---|---|---|
| quickdump/dumper.py:86-88 | `iter_dumped` runs `dill.load` once on the archive, so only the first compressed blob is decoded | label `t`, `max_uncompressed_size=1`, `dump(0)`, then `dump(1)`: each dump rotates, the archive holds two blobs, and `iter_dumped` yields `[0]` | every archive blob is decoded in order before the segment, so every dumped value comes back after any number of rotations | not executed | `ReadBackFix.SecondRotationIsLost` | `ReadBackFix.ReadBackAllRoundTrip` |
