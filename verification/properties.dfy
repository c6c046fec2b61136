/**
  What the dumper promises, stated over the directory functions of module
  QuickDump: file naming, what one dump does to the two files, when rotation
  happens, how the segment reads back, and what `iter_dumped` returns after a
  run of dumps.
*/
module DumpProperties {
  import opened Base
  import opened Codec
  import Gzip
  import opened QuickDump

  // ---------------------------------------------------------------------------
  // File names

  /** No dumper's segment is any dumper's archive: `.qd` never ends in `cqd`. */
  lemma {:induction false} SegmentIsNeverAnArchive(a: QuickDumper, b: QuickDumper)
    ensures a.UncompressedFile() != b.CompressedFile()
  {
    var s, c := a.UncompressedFile(), b.CompressedFile();
    assert s[|s| - 3] == s[|s| - 3..][0] == '.';
    assert c[|c| - 3] == c[|c| - 4..][1] == 'c';
  }

  /** In one directory, two dumpers share their files exactly when they share the label. */
  lemma {:induction false} SameDirectorySameLabel(a: QuickDumper, b: QuickDumper)
    requires a.outputDir == b.outputDir
    ensures a.UncompressedFile() == b.UncompressedFile() <==> a.labelName == b.labelName
    ensures a.CompressedFile() == b.CompressedFile() <==> a.labelName == b.labelName
  {
    var n := |a.outputDir| + 1;
    if a.UncompressedFile() == b.UncompressedFile() {
      var s := a.UncompressedFile();
      assert a.labelName == s[n..|s| - 3] by {
        assert s == a.outputDir + "/" + a.labelName + SegmentExtension;
      }
      assert b.labelName == s[n..|s| - 3] by {
        assert s == b.outputDir + "/" + b.labelName + SegmentExtension;
      }
    }
    if a.CompressedFile() == b.CompressedFile() {
      var c := a.CompressedFile();
      assert a.labelName == c[n..|c| - 4] by {
        assert c == a.outputDir + "/" + a.labelName + ArchiveExtension;
      }
      assert b.labelName == c[n..|c| - 4] by {
        assert c == b.outputDir + "/" + b.labelName + ArchiveExtension;
      }
    }
  }

  // ---------------------------------------------------------------------------
  // Reading a segment back

  /** Concatenated encodings read back as exactly those values, ending cleanly. */
  lemma {:induction false} LoadEncodeAll(vs: seq<Value>)
    ensures Load(EncodeAll(vs)) == Stream(vs, None)
    decreases vs
  {
    if vs == [] {
      assert DecodeOne(EncodeAll(vs)) == EndOfInput;
    } else {
      assert EncodeAll(vs) == Encode(vs[0]) + EncodeAll(vs[1..]);
      DecodeOneEncode(vs[0], EncodeAll(vs[1..]));
      LoadEncodeAll(vs[1..]);
      assert [vs[0]] + vs[1..] == vs;
    }
  }

  /** A stream that ends cleanly, followed by more bytes, reads as its values then theirs. */
  lemma {:induction false} LoadConcat(a: seq<byte>, b: seq<byte>)
    requires Load(a).failure.None?
    ensures Load(a + b) == Stream(Load(a).values + Load(b).values, Load(b).failure)
    decreases |a|
  {
    if a == [] {
      assert a + b == b;
    } else {
      var d := DecodeOne(a);
      LoadStep(a, d.value, d.rest);
      LoadConcat(d.rest, b);
      LoadConcatStep(a, b, d.value, d.rest);
    }
  }

  /** The inductive step of `LoadConcat`: one decoded value in front of the rest. */
  lemma LoadConcatStep(a: seq<byte>, b: seq<byte>, v: Value, rest: seq<byte>)
    requires DecodeOne(a) == Decoded(v, rest)
    requires Load(rest + b) == Stream(Load(rest).values + Load(b).values, Load(b).failure)
    ensures Load(a + b) == Stream(Load(a).values + Load(b).values, Load(b).failure)
  {
    LoadStep(a, v, rest);
    DecodeOneExtends(a, b);
    LoadStep(a + b, v, rest + b);
    AppendAssoc([v], Load(rest).values, Load(b).values);
  }

  /** One turn of the decode loop: the first value, then whatever the rest yields. */
  lemma LoadStep(s: seq<byte>, v: Value, rest: seq<byte>)
    requires DecodeOne(s) == Decoded(v, rest)
    ensures Load(s) == Stream([v] + Load(rest).values, Load(rest).failure)
  {
  }

  // ---------------------------------------------------------------------------
  // One dump

  /**
    Writing `objs` appends their encodings to the segment in argument order;
    the earlier segment bytes, the archive and every other file are untouched.
  */
  lemma AppendTouchesOnlyTheSegment(qd: QuickDumper, files: map<string, seq<byte>>, objs: seq<Value>)
    ensures var after := qd.Appended(files, objs);
      && qd.UncompressedFile() in after
      && after[qd.UncompressedFile()] == qd.SegmentBytes(files) + EncodeAll(objs)
      && (qd.CompressedFile() in after <==> qd.CompressedFile() in files)
      && qd.ArchiveBytes(after) == qd.ArchiveBytes(files)
      && forall p :: p != qd.UncompressedFile() ==>
           (p in after <==> p in files) && (p in files ==> after[p] == files[p])
  {
    SegmentIsNeverAnArchive(qd, qd);
  }

  /** Read back, the segment after the append holds its old values followed by `objs`. */
  lemma AppendedValuesFollow(qd: QuickDumper, files: map<string, seq<byte>>, objs: seq<Value>)
    requires Load(qd.SegmentBytes(files)).failure.None?
    ensures Load(qd.Appended(files, objs)[qd.UncompressedFile()])
         == Stream(Load(qd.SegmentBytes(files)).values + objs, None)
  {
    LoadConcat(qd.SegmentBytes(files), EncodeAll(objs));
    LoadEncodeAll(objs);
  }

  /**
    `_compress` empties the segment and adds exactly one archive entry, the
    compressed old segment, after the entries already there.
  */
  lemma CompressAddsOneEntry(qd: QuickDumper, files: map<string, seq<byte>>)
    requires qd.UncompressedFile() in files
    requires Load(qd.ArchiveBytes(files)).failure.None?
    ensures var after := qd.Compressed(files);
      && qd.UncompressedFile() in after && after[qd.UncompressedFile()] == []
      && qd.CompressedFile() in after
      && Load(after[qd.CompressedFile()])
         == Stream(Load(qd.ArchiveBytes(files)).values + [Bytes(Gzip.Compress(files[qd.UncompressedFile()]))], None)
      && forall p :: p != qd.UncompressedFile() && p != qd.CompressedFile() ==>
           (p in after <==> p in files) && (p in files ==> after[p] == files[p])
  {
    SegmentIsNeverAnArchive(qd, qd);
    var entry := Bytes(Gzip.Compress(files[qd.UncompressedFile()]));
    LoadConcat(qd.ArchiveBytes(files), Encode(entry));
    assert Encode(entry) == EncodeAll([entry]);
    LoadEncodeAll([entry]);
  }

  /**
    Rotation happens exactly when the check is not skipped and the segment,
    after the append, has reached the threshold; the archive only grows, and
    with the check skipped it does not change at all.
  */
  lemma RotationIff(qd: QuickDumper, files: map<string, seq<byte>>, objs: seq<Value>, skip: bool)
    ensures var after := qd.AfterDump(files, objs, skip);
      && (qd.ArchiveBytes(after) != qd.ArchiveBytes(files)
          <==> !skip && |qd.SegmentBytes(files) + EncodeAll(objs)| >= qd.maxUncompressedSize)
      && qd.ArchiveBytes(files) <= qd.ArchiveBytes(after)
      && (skip ==> (qd.CompressedFile() in after <==> qd.CompressedFile() in files))
  {
    SegmentIsNeverAnArchive(qd, qd);
    var appended := qd.Appended(files, objs);
    if !skip && qd.RequiresCompression(appended) {
      var blob := Encode(Bytes(Gzip.Compress(appended[qd.UncompressedFile()])));
      assert qd.ArchiveBytes(qd.AfterDump(files, objs, skip)) == qd.ArchiveBytes(files) + blob;
      assert |qd.ArchiveBytes(files) + blob| > |qd.ArchiveBytes(files)|;
    }
  }

  /**
    `_requires_compression` runs right after the write, so it compares the
    segment's old size plus the bytes just written against the threshold.
  */
  lemma CompressionCheckSeesAppendedSize(qd: QuickDumper, files: map<string, seq<byte>>, objs: seq<Value>)
    ensures qd.RequiresCompression(qd.Appended(files, objs))
        <==> |qd.SegmentBytes(files)| + |EncodeAll(objs)| >= qd.maxUncompressedSize
  {
  }

  /** With a positive threshold, a checked dump leaves the segment below it. */
  lemma SegmentStaysBelowThreshold(qd: QuickDumper, files: map<string, seq<byte>>, objs: seq<Value>)
    requires qd.maxUncompressedSize > 0
    ensures |qd.SegmentBytes(qd.AfterDump(files, objs, false))| < qd.maxUncompressedSize
  {
  }

  // ---------------------------------------------------------------------------
  // The two files as a history of dumped values

  /**
    The values a directory holds for one dumper: one chunk per archive blob,
    oldest first, and the values still in the segment.
  */
  datatype View = View(archived: seq<seq<Value>>, pending: seq<Value>)

  /** The archive entry written when `chunk` is rotated out of the segment. */
  function Blob(chunk: seq<Value>): Value
  {
    Bytes(Gzip.Compress(EncodeAll(chunk)))
  }

  function Blobs(chunks: seq<seq<Value>>): (r: seq<Value>)
    ensures |r| == |chunks|
    ensures forall i :: 0 <= i < |chunks| ==> r[i] == Blob(chunks[i])
  {
    seq(|chunks|, i requires 0 <= i < |chunks| => Blob(chunks[i]))
  }

  function Flatten(chunks: seq<seq<Value>>): seq<Value>
  {
    if chunks == [] then [] else chunks[0] + Flatten(chunks[1..])
  }

  lemma {:induction false} FlattenSnoc(chunks: seq<seq<Value>>, c: seq<Value>)
    ensures Flatten(chunks + [c]) == Flatten(chunks) + c
    decreases chunks
  {
    if chunks == [] {
      assert chunks + [c] == [c];
    } else {
      assert (chunks + [c])[1..] == chunks[1..] + [c];
      FlattenSnoc(chunks[1..], c);
    }
  }

  /** Every value dumped, in dump order. */
  function History(view: View): seq<Value>
  {
    Flatten(view.archived) + view.pending
  }

  /** The directory holds exactly `view`: the archive exists once something was rotated. */
  ghost predicate Layout(qd: QuickDumper, files: map<string, seq<byte>>, view: View)
  {
    && (qd.CompressedFile() in files <==> view.archived != [])
    && qd.ArchiveBytes(files) == EncodeAll(Blobs(view.archived))
    && qd.SegmentBytes(files) == EncodeAll(view.pending)
  }

  /** The view after `dump(*objs)`: `objs` join the pending values, which may be rotated out. */
  function ViewAfterDump(qd: QuickDumper, view: View, objs: seq<Value>, skip: bool): View
  {
    var pending := view.pending + objs;
    if !skip && |EncodeAll(pending)| >= qd.maxUncompressedSize then View(view.archived + [pending], [])
    else View(view.archived, pending)
  }

  /** A dump keeps the directory in step with the view, and adds `objs` to the history. */
  lemma DumpRefinesView(qd: QuickDumper, files: map<string, seq<byte>>, view: View, objs: seq<Value>, skip: bool)
    requires Layout(qd, files, view)
    ensures Layout(qd, qd.AfterDump(files, objs, skip), ViewAfterDump(qd, view, objs, skip))
    ensures qd.UncompressedFile() in qd.AfterDump(files, objs, skip)
  {
    var pending := view.pending + objs;
    var appended := qd.Appended(files, objs);
    AppendRefinesView(qd, files, view, objs);
    assert qd.RequiresCompression(appended) <==> |EncodeAll(pending)| >= qd.maxUncompressedSize;
    if !skip && qd.RequiresCompression(appended) {
      RotationRefinesView(qd, appended, view.archived, pending);
    }
  }

  /** A dump adds `objs` to the end of the history, whether or not it rotates. */
  lemma DumpHistory(qd: QuickDumper, view: View, objs: seq<Value>, skip: bool)
    ensures History(ViewAfterDump(qd, view, objs, skip)) == History(view) + objs
  {
    var pending := view.pending + objs;
    AppendAssoc(Flatten(view.archived), view.pending, objs);
    FlattenSnoc(view.archived, pending);
  }

  /** Without rotation the appended values join the pending ones. */
  lemma AppendRefinesView(qd: QuickDumper, files: map<string, seq<byte>>, view: View, objs: seq<Value>)
    requires Layout(qd, files, view)
    ensures Layout(qd, qd.Appended(files, objs), View(view.archived, view.pending + objs))
    ensures History(View(view.archived, view.pending + objs)) == History(view) + objs
  {
    var appended := qd.Appended(files, objs);
    assert qd.CompressedFile() in appended <==> qd.CompressedFile() in files by {
      SegmentIsNeverAnArchive(qd, qd);
    }
    assert qd.ArchiveBytes(appended) == qd.ArchiveBytes(files) by {
      SegmentIsNeverAnArchive(qd, qd);
    }
    assert qd.SegmentBytes(appended) == EncodeAll(view.pending + objs) by {
      EncodeAllConcat(view.pending, objs);
    }
    AppendAssoc(Flatten(view.archived), view.pending, objs);
  }

  /** Rotating a segment that holds `pending` turns it into the newest archive chunk. */
  lemma RotationRefinesView(qd: QuickDumper, files: map<string, seq<byte>>, archived: seq<seq<Value>>, pending: seq<Value>)
    requires Layout(qd, files, View(archived, pending))
    requires qd.UncompressedFile() in files
    ensures Layout(qd, qd.Compressed(files), View(archived + [pending], []))
    ensures History(View(archived + [pending], [])) == Flatten(archived) + pending
  {
    var after := qd.Compressed(files);
    assert qd.CompressedFile() in after;
    assert qd.ArchiveBytes(after) == EncodeAll(Blobs(archived)) + Encode(Blob(pending)) by {
      SegmentIsNeverAnArchive(qd, qd);
    }
    assert EncodeAll(Blobs(archived + [pending])) == EncodeAll(Blobs(archived)) + Encode(Blob(pending)) by {
      assert Blobs(archived + [pending]) == Blobs(archived) + [Blob(pending)];
      EncodeAllConcat(Blobs(archived), [Blob(pending)]);
      assert EncodeAll([Blob(pending)]) == Encode(Blob(pending)) + EncodeAll([]);
    }
    assert qd.SegmentBytes(after) == [] == EncodeAll([]);
    assert Flatten(archived + [pending]) + [] == Flatten(archived) + pending by {
      FlattenSnoc(archived, pending);
    }
  }

  /** The first archive chunk, or nothing when no rotation has happened. */
  function FirstChunk(view: View): seq<Value>
  {
    if view.archived == [] then [] else view.archived[0]
  }

  /**
    `iter_dumped` returns the first archive chunk and then the pending values:
    a single `dill.load` runs on the archive, so later chunks are never read.
  */
  lemma ReadBackIsFirstChunkThenSegment(qd: QuickDumper, files: map<string, seq<byte>>, view: View)
    requires Layout(qd, files, view)
    requires qd.UncompressedFile() in files
    ensures qd.ReadBack(files) == Stream(FirstChunk(view) + view.pending, None)
  {
    if view.archived != [] {
      var chunk := view.archived[0];
      var blobs := Blobs(view.archived);
      assert EncodeAll(blobs) == Encode(Blob(chunk)) + EncodeAll(blobs[1..]);
      DecodeOneEncode(Blob(chunk), EncodeAll(blobs[1..]));
      Gzip.DecompressCompress(EncodeAll(chunk));
      LoadEncodeAll(chunk);
      assert qd.LoadFirstBlob(files[qd.CompressedFile()]) == Stream(chunk, None);
    }
    LoadEncodeAll(view.pending);
  }

  /**
    An archive whose first entry is the empty byte string holds no gzip
    member: `iter_dumped` yields nothing from it and goes on to the segment.
  */
  lemma EmptyArchiveEntryReadsAsNothing(qd: QuickDumper, segment: seq<Value>)
    ensures var files := map[qd.CompressedFile() := Encode(Bytes([])), qd.UncompressedFile() := EncodeAll(segment)];
      qd.ReadBack(files) == Stream(segment, None)
  {
    SegmentIsNeverAnArchive(qd, qd);
    assert Encode(Bytes([])) + [] == Encode(Bytes([]));
    DecodeOneEncode(Bytes([]), []);
    assert Load([]) == Stream([], None);
    LoadEncodeAll(segment);
  }

  /** Up to one rotation, `iter_dumped` returns every dumped value in dump order. */
  lemma RoundTripUpToOneRotation(qd: QuickDumper, files: map<string, seq<byte>>, view: View)
    requires Layout(qd, files, view)
    requires qd.UncompressedFile() in files
    requires |view.archived| <= 1
    ensures qd.ReadBack(files) == Stream(History(view), None)
  {
    ReadBackIsFirstChunkThenSegment(qd, files, view);
    if view.archived != [] {
      assert view.archived[1..] == [];
      assert Flatten(view.archived) == view.archived[0] + Flatten([]);
    }
  }

  /** Values rotated into a second or later archive blob are not returned. */
  lemma LaterChunksAreLost(qd: QuickDumper, files: map<string, seq<byte>>, view: View)
    requires Layout(qd, files, view)
    requires qd.UncompressedFile() in files
    requires |view.archived| >= 2 && view.archived[1] != []
    ensures |qd.ReadBack(files).values| < |History(view)|
  {
    ReadBackIsFirstChunkThenSegment(qd, files, view);
    var a := view.archived;
    assert Flatten(a) == a[0] + (a[1] + Flatten(a[2..])) by {
      assert a[1..][0] == a[1] && a[1..][1..] == a[2..];
    }
  }

  // ---------------------------------------------------------------------------
  // A run of dumps

  /** One call `dump(*objs, skip_compression_check=skip)`. */
  datatype Call = Call(objs: seq<Value>, skip: bool)

  function Replay(qd: QuickDumper, files: map<string, seq<byte>>, calls: seq<Call>): map<string, seq<byte>>
  {
    if calls == [] then files
    else
      var last := calls[|calls| - 1];
      qd.AfterDump(Replay(qd, files, calls[..|calls| - 1]), last.objs, last.skip)
  }

  function ReplayView(qd: QuickDumper, view: View, calls: seq<Call>): View
  {
    if calls == [] then view
    else
      var last := calls[|calls| - 1];
      ViewAfterDump(qd, ReplayView(qd, view, calls[..|calls| - 1]), last.objs, last.skip)
  }

  /** The values of all calls, in call order. */
  function Dumped(calls: seq<Call>): seq<Value>
  {
    if calls == [] then [] else Dumped(calls[..|calls| - 1]) + calls[|calls| - 1].objs
  }

  /** After any run of dumps the directory holds the replayed view. */
  lemma {:induction false} ReplayRefinesView(qd: QuickDumper, files: map<string, seq<byte>>, view: View, calls: seq<Call>)
    requires Layout(qd, files, view)
    ensures Layout(qd, Replay(qd, files, calls), ReplayView(qd, view, calls))
    ensures calls != [] ==> qd.UncompressedFile() in Replay(qd, files, calls)
    decreases |calls|
  {
    if calls != [] {
      var init := calls[..|calls| - 1];
      var last := calls[|calls| - 1];
      ReplayRefinesView(qd, files, view, init);
      DumpRefinesView(qd, Replay(qd, files, init), ReplayView(qd, view, init), last.objs, last.skip);
    }
  }

  /** The replayed view's history is the old history followed by every dumped value, in call order. */
  lemma {:induction false} ReplayHistory(qd: QuickDumper, view: View, calls: seq<Call>)
    ensures History(ReplayView(qd, view, calls)) == History(view) + Dumped(calls)
    decreases |calls|
  {
    if calls != [] {
      var init := calls[..|calls| - 1];
      var last := calls[|calls| - 1];
      ReplayHistory(qd, view, init);
      DumpHistory(qd, ReplayView(qd, view, init), last.objs, last.skip);
      AppendAssoc(History(view), Dumped(init), last.objs);
    }
  }

  /**
    End to end: dumping into a directory that holds neither file, with at most
    one rotation, `iter_dumped` returns every value dumped, in order.
  */
  lemma FreshRoundTrip(qd: QuickDumper, files: map<string, seq<byte>>, calls: seq<Call>)
    requires qd.UncompressedFile() !in files && qd.CompressedFile() !in files
    requires calls != []
    requires |ReplayView(qd, View([], []), calls).archived| <= 1
    ensures qd.ReadBack(Replay(qd, files, calls)) == Stream(Dumped(calls), None)
  {
    var empty := View([], []);
    assert Layout(qd, files, empty);
    ReplayRefinesView(qd, files, empty, calls);
    ReplayHistory(qd, empty, calls);
    assert History(empty) + Dumped(calls) == Dumped(calls);
    RoundTripUpToOneRotation(qd, Replay(qd, files, calls), ReplayView(qd, empty, calls));
  }
}
