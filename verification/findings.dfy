/**
  `iter_dumped` runs `dill.load` once on the archive, so after a second
  rotation the values of every archive blob but the first are never returned.
  This module shows a concrete run where that happens, and a reader that
  decodes every archive entry, proved to return the whole history after any
  number of rotations.
*/
module ReadBackFix {
  import opened Base
  import opened Codec
  import Gzip
  import opened QuickDump
  import opened DumpProperties

  /**
    With a threshold of one byte every dump rotates; after two dumps the
    archive holds two blobs and `iter_dumped` returns only the first value.
  */
  lemma SecondRotationIsLost()
    ensures var qd := QuickDumper("t", "out", 1);
      var calls := [Call([Int(0)], false), Call([Int(1)], false)];
      && Dumped(calls) == [Int(0), Int(1)]
      && qd.ReadBack(Replay(qd, map[], calls)) == Stream([Int(0)], None)
  {
    var qd := QuickDumper("t", "out", 1);
    var calls := [Call([Int(0)], false), Call([Int(1)], false)];
    var empty := View([], []);
    assert Layout(qd, map[], empty);
    ReplayRefinesView(qd, map[], empty, calls);
    assert calls[..1] == [Call([Int(0)], false)];
    assert calls[..1][..0] == [];
    assert EncodeAll([Int(0)]) == Encode(Int(0)) + EncodeAll([]);
    assert EncodeAll([Int(1)]) == Encode(Int(1)) + EncodeAll([]);
    var view := ReplayView(qd, empty, calls);
    assert ReplayView(qd, empty, calls[..1][..0]) == empty;
    assert empty.pending + [Int(0)] == [Int(0)];
    assert |EncodeAll([Int(0)])| >= 1;
    assert ReplayView(qd, empty, calls[..1]) == ViewAfterDump(qd, empty, [Int(0)], false);
    assert ReplayView(qd, empty, calls[..1]) == View([[Int(0)]], []);
    assert [] + [Int(1)] == [Int(1)];
    assert |EncodeAll([Int(1)])| >= 1;
    assert view == View([[Int(0)], [Int(1)]], []);
    assert Dumped(calls[..1]) == [Int(0)];
    ReadBackIsFirstChunkThenSegment(qd, Replay(qd, map[], calls), view);
  }

  /**
    The values of all archive entries, in order: each entry must be a byte
    string holding a gzip buffer of encoded values.
  */
  function UnpackBlobs(entries: seq<Value>): Stream
  {
    if entries == [] then Stream([], None)
    else if !entries[0].Bytes? then Stream([], Some(NotBytes))
    else match Gzip.Decompress(entries[0].data)
      case None => Stream([], Some(BadGzip))
      case Some(blob) =>
        var first := Load(blob);
        if first.failure.Some? then first
        else
          var others := UnpackBlobs(entries[1..]);
          Stream(first.values + others.values, others.failure)
  }

  /** `iter_dumped` as evidently intended: every archive entry, then the segment. */
  function ReadBackAll(qd: QuickDumper, files: map<string, seq<byte>>): Stream
  {
    var archived :=
      if qd.CompressedFile() !in files then Stream([], None)
      else
        var entries := Load(files[qd.CompressedFile()]);
        var unpacked := UnpackBlobs(entries.values);
        if unpacked.failure.Some? then unpacked else Stream(unpacked.values, entries.failure);
    if archived.failure.Some? then archived
    else if qd.UncompressedFile() !in files then Stream(archived.values, Some(FileMissing))
    else
      var segment := Load(files[qd.UncompressedFile()]);
      Stream(archived.values + segment.values, segment.failure)
  }

  lemma {:induction false} UnpackBlobsOfChunks(chunks: seq<seq<Value>>)
    ensures UnpackBlobs(Blobs(chunks)) == Stream(Flatten(chunks), None)
    decreases chunks
  {
    if chunks != [] {
      assert Blobs(chunks)[1..] == Blobs(chunks[1..]);
      Gzip.DecompressCompress(EncodeAll(chunks[0]));
      LoadEncodeAll(chunks[0]);
      UnpackBlobsOfChunks(chunks[1..]);
    }
  }

  /** After any number of rotations the corrected reader returns the whole history. */
  lemma ReadBackAllRoundTrip(qd: QuickDumper, files: map<string, seq<byte>>, view: View)
    requires Layout(qd, files, view)
    requires qd.UncompressedFile() in files
    ensures ReadBackAll(qd, files) == Stream(History(view), None)
  {
    LoadEncodeAll(Blobs(view.archived));
    UnpackBlobsOfChunks(view.archived);
    LoadEncodeAll(view.pending);
  }

  /** Where `iter_dumped` is right, up to one rotation, the two readers agree. */
  lemma ReadersAgreeUpToOneRotation(qd: QuickDumper, files: map<string, seq<byte>>, view: View)
    requires Layout(qd, files, view)
    requires qd.UncompressedFile() in files
    requires |view.archived| <= 1
    ensures ReadBackAll(qd, files) == qd.ReadBack(files)
  {
    ReadBackAllRoundTrip(qd, files, view);
    RoundTripUpToOneRotation(qd, files, view);
  }
}
