/**
  QuickDumper: an append-only log of serialized values for one label, kept in
  two files of an output directory. The segment `<label>.qd` holds the
  encodings of the values dumped since the last rotation; the archive
  `<label>.cqd` holds one encoded, compressed blob per rotation. A dump that
  leaves the segment at or above `maxUncompressedSize` bytes rotates it: the
  whole segment becomes one archive blob and the segment is emptied.

  The dumper itself is an immutable value (a frozen record of label, output
  directory and threshold); what changes is the directory, modelled as a
  `Disk` object mapping each path to the bytes of that file.
*/
module QuickDump {
  import opened Base
  import opened Codec
  import Gzip

  const Megabyte: nat := 1000000
  const DefaultLabel: string := "unlabeled_dump"
  const DefaultMaxUncompressedSize: nat := 10 * Megabyte
  const SegmentExtension: string := ".qd"
  const ArchiveExtension: string := ".cqd"

  /** `Path(dir) / name`, without path normalisation. */
  function JoinPath(dir: string, name: string): (p: string)
    ensures |p| == |dir| + 1 + |name|
  {
    dir + "/" + name
  }

  /** The output directory used when none is given: `~/.quickdump`. */
  function DefaultOutputDir(home: string): string
  {
    JoinPath(home, ".quickdump")
  }

  /** Why reading back stopped early: the exception the generator raises. */
  datatype Failure =
    | OutOfInput    // EOFError from the single dill.load on an empty archive
    | Unpickling    // bytes that decode to no value
    | NotBytes      // the first archive entry is not a byte string: TypeError
    | BadGzip       // the first archive entry is not a gzip buffer
    | FileMissing   // the segment file does not exist

  /** What a generator produced: the values it yielded, then how it ended. */
  datatype Stream = Stream(values: seq<Value>, failure: Option<Failure>)

  /**
    `_dill_load`: decode values one after the other until the stream is
    exhausted; anything but a clean end of stream ends it with an error.
  */
  function Load(s: seq<byte>): Stream
    decreases |s|
  {
    match DecodeOne(s)
    case EndOfInput => Stream([], None)
    case Malformed => Stream([], Some(Unpickling))
    case Decoded(v, rest) =>
      var tail := Load(rest);
      Stream([v] + tail.values, tail.failure)
  }

  /** The directory the dumper writes to: each file's path and contents. */
  class Disk {
    var files: map<string, seq<byte>>
  }

  datatype QuickDumper = QuickDumper(labelName: string, outputDir: string, maxUncompressedSize: int)
  {
    /** `<outputDir>/<label>.qd`: a file in the output directory whose name ends in `.qd`. */
    function UncompressedFile(): (p: string)
      ensures |p| > |outputDir| + 3 && p[..|outputDir| + 1] == outputDir + "/"
      ensures p[|p| - 3..] == SegmentExtension
    {
      JoinPath(outputDir, labelName + SegmentExtension)
    }

    /** `<outputDir>/<label>.cqd`: a file in the output directory whose name ends in `.cqd`. */
    function CompressedFile(): (p: string)
      ensures |p| > |outputDir| + 4 && p[..|outputDir| + 1] == outputDir + "/"
      ensures p[|p| - 4..] == ArchiveExtension
    {
      JoinPath(outputDir, labelName + ArchiveExtension)
    }

    /** The segment's bytes; a missing file reads as empty once opened for append. */
    function SegmentBytes(files: map<string, seq<byte>>): seq<byte>
    {
      if UncompressedFile() in files then files[UncompressedFile()] else []
    }

    /** The archive's bytes; a missing file reads as empty once opened for append. */
    function ArchiveBytes(files: map<string, seq<byte>>): seq<byte>
    {
      if CompressedFile() in files then files[CompressedFile()] else []
    }

    /** The directory once `objs` are written to the segment, in order. */
    function Appended(files: map<string, seq<byte>>, objs: seq<Value>): map<string, seq<byte>>
    {
      files[UncompressedFile() := SegmentBytes(files) + EncodeAll(objs)]
    }

    /** `_requires_compression`: the segment has reached the threshold. */
    predicate RequiresCompression(files: map<string, seq<byte>>)
      requires UncompressedFile() in files
    {
      |files[UncompressedFile()]| >= maxUncompressedSize
    }

    /** The directory after `_compress`. */
    function Compressed(files: map<string, seq<byte>>): map<string, seq<byte>>
      requires UncompressedFile() in files
    {
      var blob := Gzip.Compress(files[UncompressedFile()]);
      files[CompressedFile() := ArchiveBytes(files) + Encode(Bytes(blob))][UncompressedFile() := []]
    }

    /** The directory after `dump(*objs, skip_compression_check=skip)`. */
    function AfterDump(files: map<string, seq<byte>>, objs: seq<Value>, skip: bool): map<string, seq<byte>>
    {
      var appended := Appended(files, objs);
      if !skip && RequiresCompression(appended) then Compressed(appended) else appended
    }

    /** The single `dill.load` on the archive, decompressed and decoded. */
    function LoadFirstBlob(archive: seq<byte>): Stream
    {
      match DecodeOne(archive)
      case EndOfInput => Stream([], Some(OutOfInput))
      case Malformed => Stream([], Some(Unpickling))
      case Decoded(v, _) =>
        if !v.Bytes? then Stream([], Some(NotBytes))
        else match Gzip.Decompress(v.data)
          case None => Stream([], Some(BadGzip))
          case Some(blob) => Load(blob)
    }

    /** What `iter_dumped` yields from the directory `files`. */
    function ReadBack(files: map<string, seq<byte>>): Stream
    {
      var archived := if CompressedFile() in files then LoadFirstBlob(files[CompressedFile()]) else Stream([], None);
      if archived.failure.Some? then archived
      else if UncompressedFile() !in files then Stream(archived.values, Some(FileMissing))
      else
        var segment := Load(files[UncompressedFile()]);
        Stream(archived.values + segment.values, segment.failure)
    }

    /** `dump`: append the encodings of `objs`, then rotate when the segment is too large. */
    method Dump(disk: Disk, objs: seq<Value>, skipCompressionCheck: bool)
      modifies disk
      ensures disk.files == AfterDump(old(disk.files), objs, skipCompressionCheck)
    {
      Append(disk, objs);
      if !skipCompressionCheck {
        if RequiresCompression(disk.files) {
          Compress(disk);
        }
      }
    }

    /** The write loop of `dump`: the segment is opened for append and each value is encoded onto it. */
    method Append(disk: Disk, objs: seq<Value>)
      modifies disk
      ensures disk.files == Appended(old(disk.files), objs)
    {
      var path := UncompressedFile();
      var written := SegmentBytes(disk.files);
      disk.files := disk.files[path := written];
      var i := 0;
      assert written + EncodeAll(objs[..0]) == written;
      while i < |objs|
        invariant 0 <= i <= |objs|
        invariant disk.files == old(disk.files)[path := written + EncodeAll(objs[..i])]
      {
        assert objs[..i + 1] == objs[..i] + [objs[i]];
        EncodeAllSnoc(objs[..i], objs[i]);
        AppendAssoc(written, EncodeAll(objs[..i]), Encode(objs[i]));
        disk.files := disk.files[path := disk.files[path] + Encode(objs[i])];
        i := i + 1;
      }
      assert objs[..i] == objs;
    }

    /** `_compress`: the whole segment becomes one archive blob; the segment is truncated. */
    method Compress(disk: Disk)
      requires UncompressedFile() in disk.files
      modifies disk
      ensures disk.files == Compressed(old(disk.files))
    {
      var blob := Gzip.Compress(disk.files[UncompressedFile()]);
      var archive := ArchiveBytes(disk.files);
      disk.files := disk.files[CompressedFile() := archive + Encode(Bytes(blob))];
      disk.files := disk.files[UncompressedFile() := []];
    }

    /** `_dill_load`: the decode loop that stops at the end of the stream. */
    method DillLoad(fd: seq<byte>) returns (out: Stream)
      ensures out == Load(fd)
    {
      var rest := fd;
      var yielded: seq<Value> := [];
      while true
        invariant Load(fd) == Stream(yielded + Load(rest).values, Load(rest).failure)
        decreases |rest|
      {
        match DecodeOne(rest)
        case EndOfInput =>
          return Stream(yielded, None);
        case Malformed =>
          return Stream(yielded, Some(Unpickling));
        case Decoded(v, next) =>
          yielded := yielded + [v];
          rest := next;
      }
    }

    /** `iter_dumped`: the first archive blob's values, then the segment's. */
    method IterDumped(disk: Disk) returns (out: Stream)
      ensures out == ReadBack(disk.files)
    {
      var yielded: seq<Value> := [];
      if CompressedFile() in disk.files {
        match DecodeOne(disk.files[CompressedFile()])
        case EndOfInput =>
          return Stream([], Some(OutOfInput));
        case Malformed =>
          return Stream([], Some(Unpickling));
        case Decoded(v, _) =>
          if !v.Bytes? {
            return Stream([], Some(NotBytes));
          }
          var blob := Gzip.Decompress(v.data);
          if blob.None? {
            return Stream([], Some(BadGzip));
          }
          var archived := DillLoad(blob.value);
          if archived.failure.Some? {
            return archived;
          }
          yielded := archived.values;
      }
      if UncompressedFile() !in disk.files {
        return Stream(yielded, Some(FileMissing));
      }
      var segment := DillLoad(disk.files[UncompressedFile()]);
      out := Stream(yielded + segment.values, segment.failure);
    }
  }

  /** The dumper built from the record's defaults, given the user's home directory. */
  function DefaultDumper(home: string): (qd: QuickDumper)
    ensures qd.UncompressedFile() == DefaultOutputDir(home) + "/unlabeled_dump.qd"
    ensures qd.CompressedFile() == DefaultOutputDir(home) + "/unlabeled_dump.cqd"
    ensures qd.maxUncompressedSize == 10 * Megabyte == 10000000
  {
    QuickDumper(DefaultLabel, DefaultOutputDir(home), DefaultMaxUncompressedSize)
  }
}
