/**
 * ProcessICO: parse the icon container, run every sub-image through
 * decode -> tint -> PNG encode, rewrite each directory entry, recompute the
 * image offsets and lay out the new file.
 *
 * The pure functions below (ParseDirectory, NewImages, AssignOffsets,
 * Assemble, Rebuild) specify the result; ProcessIco is the step-by-step
 * procedure and is proved to compute Rebuild. The per-entry work is any
 * transform `seq<byte> -> Option<seq<byte>>`; SubImageTransform is the one
 * the program uses.
 */
module IcoRebuild {
  import opened Wrappers
  import opened ByteCodec
  import opened IcoLayout
  import opened PngSniff
  import opened TintFilter

  datatype Error =
    | TooShort                      // fewer than the 6 header bytes
    | NotAnIcon                     // idType != 1
    | DirectoryTruncated            // the file ends inside the directory
    | EntryOutOfBounds(index: nat)  // entry `index` points outside the file
    | SubImageFailed(index: nat)    // entry `index` could not be decoded

  datatype Directory = Directory(header: Header, entries: seq<Entry>)

  /** The bytes the source reads out of the encoder's stream: at most 2^32 - 1. */
  type Blob = b: seq<byte> | |b| < U32Modulus witness []

  /** sizeof(ICONDIR) + count * sizeof(ICONDIRENTRY). */
  function DirectorySize(count: nat): nat
  {
    HeaderSize + EntrySize * count
  }

  // ---------------------------------------------------------------- parse

  function DecodeEntries(bytes: seq<byte>, count: nat): (es: seq<Entry>)
    requires DirectorySize(count) <= |bytes|
    ensures |es| == count
  {
    seq(count, i requires 0 <= i < count => DecodeEntry(EntryBytes(bytes, i)))
  }

  function ParseDirectory(bytes: seq<byte>): (r: Result<Directory, Error>)
    ensures r.Success? ==>
      |r.value.entries| == r.value.header.count && DirectorySize(r.value.header.count) <= |bytes|
    ensures |bytes| >= HeaderSize ==> (r == Failure(NotAnIcon) <==> DecodeU16(bytes[2..4]) != IconType)
  {
    if |bytes| < HeaderSize then Failure(TooShort)
    else
      assert bytes[..HeaderSize][2..4] == bytes[2..4];
      var header := DecodeHeader(bytes[..HeaderSize]);
      if header.kind != IconType then Failure(NotAnIcon)
      else if |bytes| < DirectorySize(header.count) then Failure(DirectoryTruncated)
      else Success(Directory(header, DecodeEntries(bytes, header.count)))
  }

  /**
   * Parsing fails exactly for a short file, a type other than 1, or a
   * truncated directory; otherwise the header and each entry are the exact
   * decodings of their bytes, the reserved field included, unchecked.
   */
  lemma ParseDirectoryOutcome(bytes: seq<byte>)
    ensures ParseDirectory(bytes) == Failure(TooShort) <==> |bytes| < HeaderSize
    ensures ParseDirectory(bytes) == Failure(NotAnIcon) <==>
      |bytes| >= HeaderSize && DecodeU16(bytes[2..4]) != IconType
    ensures ParseDirectory(bytes) == Failure(DirectoryTruncated) <==>
      |bytes| >= HeaderSize && DecodeU16(bytes[2..4]) == IconType
      && |bytes| < DirectorySize(DecodeU16(bytes[4..6]))
    ensures ParseDirectory(bytes).Success? ==>
      var dir := ParseDirectory(bytes).value;
      && EncodeHeader(dir.header) == bytes[..HeaderSize]
      && dir.header.count == DecodeU16(bytes[4..6])
      && (forall i :: 0 <= i < |dir.entries| ==> dir.entries[i] == DecodeEntry(EntryBytes(bytes, i)))
      && (forall i :: 0 <= i < |dir.entries| ==> EncodeEntry(dir.entries[i]) == EntryBytes(bytes, i))
  {
    if |bytes| >= HeaderSize {
      var h := bytes[..HeaderSize];
      assert h[2..4] == bytes[2..4] && h[4..6] == bytes[4..6];
      HeaderBytesRoundTrip(h);
    }
    if ParseDirectory(bytes).Success? {
      var dir := ParseDirectory(bytes).value;
      forall i | 0 <= i < |dir.entries| ensures EncodeEntry(dir.entries[i]) == EntryBytes(bytes, i) {
        EntryBytesRoundTrip(EntryBytes(bytes, i));
      }
    }
  }

  // ---------------------------------------------------------------- per-entry loop

  /** The raw bytes `[imageOffset, imageOffset + bytesInRes)` entry e points at, if they lie in the file. */
  function SubImage(bytes: seq<byte>, e: Entry): (r: Option<seq<byte>>)
    ensures r.Some? <==> e.imageOffset + e.bytesInRes <= |bytes|
  {
    if e.imageOffset + e.bytesInRes <= |bytes|
    then Some(bytes[e.imageOffset .. e.imageOffset + e.bytesInRes])
    else None
  }

  /** newSize = ULONG(stat.cbSize), then that many bytes are read back from the stream. */
  function StreamBytes(stream: seq<byte>): (r: Blob)
    ensures |r| == |stream| % U32Modulus && r == stream[..|r|]
    ensures |stream| < U32Modulus ==> r == stream
  {
    stream[..|stream| % U32Modulus]
  }

  /** Entry e lies inside the file and its transform succeeds. */
  predicate Converts(bytes: seq<byte>, e: Entry, t: seq<byte> -> Option<seq<byte>>)
  {
    SubImage(bytes, e).Some? && t(SubImage(bytes, e).value).Some?
  }

  function Converted(bytes: seq<byte>, e: Entry, t: seq<byte> -> Option<seq<byte>>): Blob
    requires Converts(bytes, e, t)
  {
    StreamBytes(t(SubImage(bytes, e).value).value)
  }

  /** `err` reports the first entry of `es` that does not convert, and why. */
  predicate FirstFailure(bytes: seq<byte>, es: seq<Entry>, t: seq<byte> -> Option<seq<byte>>, err: Error)
  {
    && (err.EntryOutOfBounds? || err.SubImageFailed?)
    && err.index < |es|
    && (forall j :: 0 <= j < err.index ==> Converts(bytes, es[j], t))
    && !Converts(bytes, es[err.index], t)
    && (err.EntryOutOfBounds? <==> SubImage(bytes, es[err.index]).None?)
  }

  lemma FirstFailureUnique(bytes: seq<byte>, es: seq<Entry>, t: seq<byte> -> Option<seq<byte>>, e1: Error, e2: Error)
    requires FirstFailure(bytes, es, t, e1) && FirstFailure(bytes, es, t, e2)
    ensures e1 == e2
  {
  }

  /** Entry i's turn of the loop: out of bounds, rejected by the transform, or its new blob. */
  function ConvertOne(bytes: seq<byte>, e: Entry, t: seq<byte> -> Option<seq<byte>>, i: nat): Result<Blob, Error>
  {
    match SubImage(bytes, e)
    case None => Failure(EntryOutOfBounds(i))
    case Some(raw) =>
      match t(raw)
      case None => Failure(SubImageFailed(i))
      case Some(stream) => Success(StreamBytes(stream))
  }

  /** One entry succeeds exactly when it converts, and fails with its own index and the reason. */
  lemma ConvertOneSpec(bytes: seq<byte>, e: Entry, t: seq<byte> -> Option<seq<byte>>, i: nat)
    ensures ConvertOne(bytes, e, t, i).Success? <==> Converts(bytes, e, t)
    ensures ConvertOne(bytes, e, t, i).Success? ==> ConvertOne(bytes, e, t, i).value == Converted(bytes, e, t)
    ensures ConvertOne(bytes, e, t, i).Failure? ==>
      ConvertOne(bytes, e, t, i).error == (if SubImage(bytes, e).None? then EntryOutOfBounds(i) else SubImageFailed(i))
  {
  }

  /** The newImages vector: the entries' blobs in directory order, or the first failure. */
  function NewImages(bytes: seq<byte>, es: seq<Entry>, t: seq<byte> -> Option<seq<byte>>): (r: Result<seq<Blob>, Error>)
    ensures r.Success? ==> |r.value| == |es|
    decreases |es|
  {
    if es == [] then Success([])
    else
      var k := |es| - 1;
      match NewImages(bytes, es[..k], t)
      case Failure(err) => Failure(err)
      case Success(done) =>
        match ConvertOne(bytes, es[k], t, k)
        case Failure(err) => Failure(err)
        case Success(blob) => Success(done + [blob])
  }

  /**
   * All-or-nothing: the loop succeeds exactly when every entry converts; blob
   * i is then entry i's converted sub-image, and otherwise the error names
   * the first entry that does not convert.
   */
  lemma {:induction false} NewImagesSpec(bytes: seq<byte>, es: seq<Entry>, t: seq<byte> -> Option<seq<byte>>)
    ensures NewImages(bytes, es, t).Success? <==> forall i :: 0 <= i < |es| ==> Converts(bytes, es[i], t)
    ensures NewImages(bytes, es, t).Success? ==>
      forall i :: 0 <= i < |es| ==> NewImages(bytes, es, t).value[i] == Converted(bytes, es[i], t)
    ensures NewImages(bytes, es, t).Failure? ==> FirstFailure(bytes, es, t, NewImages(bytes, es, t).error)
    decreases |es|
  {
    if es != [] {
      var k := |es| - 1;
      NewImagesSpec(bytes, es[..k], t);
      ConvertOneSpec(bytes, es[k], t, k);
      assert forall j :: 0 <= j < k ==> es[..k][j] == es[j];
    }
  }

  /** Blob i of a successful loop is entry i's converted sub-image. */
  lemma NewImagesAt(bytes: seq<byte>, es: seq<Entry>, t: seq<byte> -> Option<seq<byte>>, images: seq<Blob>, i: nat)
    requires NewImages(bytes, es, t) == Success(images) && i < |es|
    ensures Converts(bytes, es[i], t) && images[i] == Converted(bytes, es[i], t)
  {
    NewImagesSpec(bytes, es, t);
  }

  /** One more entry that converts extends the loop's result by its blob. */
  lemma NewImagesStep(bytes: seq<byte>, es: seq<Entry>, t: seq<byte> -> Option<seq<byte>>, i: nat, done: seq<Blob>)
    requires i < |es| && NewImages(bytes, es[..i], t) == Success(done)
    requires ConvertOne(bytes, es[i], t, i).Success?
    ensures NewImages(bytes, es[..i + 1], t) == Success(done + [ConvertOne(bytes, es[i], t, i).value])
  {
    assert es[..i + 1][..i] == es[..i];
  }

  /** If the first i entries convert and entry i does not, the whole loop fails at i, with that reason. */
  lemma NewImagesStopsAt(bytes: seq<byte>, es: seq<Entry>, t: seq<byte> -> Option<seq<byte>>, i: nat)
    requires i < |es| && NewImages(bytes, es[..i], t).Success? && ConvertOne(bytes, es[i], t, i).Failure?
    ensures NewImages(bytes, es, t) == Failure(ConvertOne(bytes, es[i], t, i).error)
  {
    var err := ConvertOne(bytes, es[i], t, i).error;
    ConvertOneSpec(bytes, es[i], t, i);
    NewImagesSpec(bytes, es[..i], t);
    assert forall j :: 0 <= j < i ==> es[..i][j] == es[j];
    assert FirstFailure(bytes, es, t, err);
    NewImagesSpec(bytes, es, t);
    FirstFailureUnique(bytes, es, t, err, NewImages(bytes, es, t).error);
  }

  // ---------------------------------------------------------------- directory rewrite

  /** e.dwBytesInRes = newSize; dwImageOffset = 0; bColorCount = 0; wPlanes = 1; wBitCount = 32. */
  function Rewritten(e: Entry, newSize: u32): (r: Entry)
  {
    e.(bytesInRes := newSize, imageOffset := 0, colorCount := 0, planes := 1, bitCount := 32)
  }

  function RewriteAll(es: seq<Entry>, images: seq<Blob>): (r: seq<Entry>)
    requires |es| == |images|
    ensures |r| == |es|
  {
    seq(|es|, i requires 0 <= i < |es| => Rewritten(es[i], |images[i]|))
  }

  /** Sum of dwBytesInRes over the entries. */
  function SumSizes(es: seq<Entry>): nat
  {
    if es == [] then 0 else SumSizes(es[..|es| - 1]) + es[|es| - 1].bytesInRes
  }

  /** The offset pass: entry i's offset is the DWORD running sum `base + size_0 + ... + size_(i-1)`. */
  function AssignOffsets(es: seq<Entry>, base: nat): (r: seq<Entry>)
    ensures |r| == |es|
  {
    seq(|es|, i requires 0 <= i < |es| => OffsetEntry(es, base, i))
  }

  function OffsetEntry(es: seq<Entry>, base: nat, i: nat): Entry
    requires i < |es|
  {
    es[i].(imageOffset := WrapU32(base + SumSizes(es[..i])))
  }

  /** One step of the offset pass: entry i gets the running offset, which then advances by its size. */
  lemma OffsetStep(es: seq<Entry>, base: nat, i: nat, offset: u32)
    requires i < |es| && offset == WrapU32(base + SumSizes(es[..i]))
    ensures OffsetEntry(es, base, i) == es[i].(imageOffset := offset)
    ensures SumSizes(es[..i + 1]) == SumSizes(es[..i]) + es[i].bytesInRes
    ensures WrapU32(offset + es[i].bytesInRes) == WrapU32(base + SumSizes(es[..i + 1]))
  {
    assert es[..i + 1][..i] == es[..i];
    WrapAdd(base + SumSizes(es[..i]), es[i].bytesInRes);
  }

  /** The offset table starts at `base` (wrapped) and each offset is the previous one plus its size, in 32-bit arithmetic. */
  lemma OffsetsContiguous(es: seq<Entry>, base: nat, i: nat)
    requires i < |es|
    ensures i == 0 ==> AssignOffsets(es, base)[i].imageOffset == WrapU32(base)
    ensures i + 1 < |es| ==>
      AssignOffsets(es, base)[i + 1].imageOffset
        == WrapU32(AssignOffsets(es, base)[i].imageOffset + es[i].bytesInRes)
  {
    if i + 1 < |es| {
      assert es[..i + 1][..i] == es[..i];
      WrapAdd(base + SumSizes(es[..i]), es[i].bytesInRes);
    }
  }

  /** Offsets only grow along the directory: a prefix never sums to more than the whole. */
  lemma {:induction false} SumSizesPrefix(es: seq<Entry>, i: nat)
    requires i <= |es|
    ensures SumSizes(es[..i]) <= SumSizes(es)
    decreases |es|
  {
    if i < |es| {
      var k := |es| - 1;
      assert es[..k][..i] == es[..i];
      SumSizesPrefix(es[..k], i);
    } else {
      assert es[..i] == es;
    }
  }

  /** When the whole file fits in 32 bits the running offsets do not wrap: no gaps, no overlaps. */
  lemma OffsetsExact(es: seq<Entry>, base: nat, i: nat)
    requires i < |es| && base + SumSizes(es) < U32Modulus
    ensures AssignOffsets(es, base)[i].imageOffset == base + SumSizes(es[..i])
    ensures AssignOffsets(es, base)[i].imageOffset + es[i].bytesInRes <= base + SumSizes(es)
  {
    SumSizesPrefix(es, i + 1);
    assert es[..i + 1][..i] == es[..i];
    var x := base + SumSizes(es[..i]);
    assert SumSizes(es[..i + 1]) == SumSizes(es[..i]) + es[i].bytesInRes;
    assert x < U32Modulus;
    assert AssignOffsets(es, base)[i] == es[i].(imageOffset := WrapU32(x));
  }

  function TotalSize(images: seq<seq<byte>>): nat
  {
    if images == [] then 0 else TotalSize(images[..|images| - 1]) + |images[|images| - 1]|
  }

  /** The rewritten entries' sizes are the blob sizes, so their running sums agree. */
  lemma {:induction false} SumSizesRewritten(es: seq<Entry>, images: seq<Blob>, i: nat)
    requires |es| == |images| && i <= |es|
    ensures SumSizes(RewriteAll(es, images)[..i]) == TotalSize(images[..i])
  {
    if i > 0 {
      SumSizesRewritten(es, images, i - 1);
      var rw := RewriteAll(es, images);
      assert rw[..i][..i - 1] == rw[..i - 1];
      assert images[..i][..i - 1] == images[..i - 1];
    }
  }

  /** The blobs written one after another. */
  function Concat(images: seq<seq<byte>>): (r: seq<byte>)
    ensures |r| == TotalSize(images)
  {
    if images == [] then [] else Concat(images[..|images| - 1]) + images[|images| - 1]
  }

  /** Blob i sits in the concatenation right after the blobs before it. */
  lemma {:induction false} ConcatAt(images: seq<seq<byte>>, i: nat)
    requires i < |images|
    ensures TotalSize(images[..i]) + |images[i]| <= TotalSize(images)
    ensures Concat(images)[TotalSize(images[..i]) .. TotalSize(images[..i]) + |images[i]|] == images[i]
  {
    var k := |images| - 1;
    var front := images[..k];
    if i < k {
      ConcatAt(front, i);
      assert front[..i] == images[..i] && front[i] == images[i];
    } else {
      assert images[..i] == front;
    }
  }

  // ---------------------------------------------------------------- output

  /** The new file: the original 6 header bytes, the rewritten directory, then the blobs in order. */
  function Assemble(header: seq<byte>, es: seq<Entry>, images: seq<Blob>): seq<byte>
    requires |es| == |images|
  {
    header + EncodeDirectory(AssignOffsets(RewriteAll(es, images), DirectorySize(|es|))) + Concat(images)
  }

  function Rebuild(bytes: seq<byte>, t: seq<byte> -> Option<seq<byte>>): (r: Result<seq<byte>, Error>)
    ensures |bytes| < HeaderSize ==> r == Failure(TooShort)
    ensures |bytes| >= HeaderSize && DecodeU16(bytes[2..4]) != IconType ==> r == Failure(NotAnIcon)
  {
    match ParseDirectory(bytes)
    case Failure(err) => Failure(err)
    case Success(dir) =>
      match NewImages(bytes, dir.entries, t)
      case Failure(err) => Failure(err)
      case Success(images) => Success(Assemble(bytes[..HeaderSize], dir.entries, images))
  }

  /** The rebuilt file is the original header, the rewritten directory and the blobs, nothing else. */
  lemma AssembleSize(header: seq<byte>, es: seq<Entry>, images: seq<Blob>)
    requires |header| == HeaderSize && |es| == |images|
    ensures |Assemble(header, es, images)| == DirectorySize(|es|) + TotalSize(images)
    ensures Assemble(header, es, images)[..HeaderSize] == header
  {
    var out := Assemble(header, es, images);
    assert out[..HeaderSize] == (header + EncodeDirectory(AssignOffsets(RewriteAll(es, images), DirectorySize(|es|))))[..HeaderSize];
  }

  /** The 16 bytes of entry i in a file made of a 6-byte header, an encoded directory and anything after it. */
  lemma DirectoryEntryAt(header: seq<byte>, es: seq<Entry>, rest: seq<byte>, i: nat)
    requires |header| == HeaderSize && i < |es|
    ensures HeaderSize + EntrySize * (i + 1) <= DirectorySize(|es|) <= |header + EncodeDirectory(es) + rest|
    ensures EntryBytes(header + EncodeDirectory(es) + rest, i) == EncodeEntry(es[i])
  {
    var dirBytes := EncodeDirectory(es);
    var lo := EntrySize * i;
    assert EntrySize * (i + 1) == lo + EntrySize;
    assert EntrySize * (i + 1) <= EntrySize * |es|;
    SliceOfFront(header + dirBytes, rest, HeaderSize + lo, HeaderSize + lo + EntrySize);
    SliceOfBack(header, dirBytes, HeaderSize + lo, HeaderSize + lo + EntrySize);
    EncodeDirectoryAt(es, i);
  }

  /** Entry i of the rewritten, placed directory. */
  lemma PlacedEntry(es: seq<Entry>, images: seq<Blob>, i: nat)
    requires |es| == |images| && i < |es|
    ensures AssignOffsets(RewriteAll(es, images), DirectorySize(|es|))[i] == Entry(
      es[i].width, es[i].height, 0, es[i].reserved, 1, 32, |images[i]|,
      WrapU32(DirectorySize(|es|) + TotalSize(images[..i])))
  {
    var rw := RewriteAll(es, images);
    SumSizesRewritten(es, images, i);
    assert AssignOffsets(rw, DirectorySize(|es|))[i] == OffsetEntry(rw, DirectorySize(|es|), i);
    assert rw[i] == Rewritten(es[i], |images[i]|);
  }

  /** Directory entry i of an assembled file, decoded back from its 16 bytes. */
  lemma AssembleEntry(header: seq<byte>, es: seq<Entry>, images: seq<Blob>, i: nat)
    requires |header| == HeaderSize && |es| == |images| && i < |es|
    ensures HeaderSize + EntrySize * (i + 1) <= DirectorySize(|es|) <= |Assemble(header, es, images)|
    ensures DecodeEntry(EntryBytes(Assemble(header, es, images), i)) == Entry(
      es[i].width, es[i].height, 0, es[i].reserved, 1, 32, |images[i]|,
      WrapU32(DirectorySize(|es|) + TotalSize(images[..i])))
  {
    var placed := AssignOffsets(RewriteAll(es, images), DirectorySize(|es|));
    DirectoryEntryAt(header, placed, Concat(images), i);
    EntryRoundTrip(placed[i]);
    PlacedEntry(es, images, i);
  }

  /** Blob i of an assembled file starts after the directory and the blobs before it. */
  lemma AssembleBlob(header: seq<byte>, es: seq<Entry>, images: seq<Blob>, i: nat)
    requires |header| == HeaderSize && |es| == |images| && i < |es|
    ensures var at := DirectorySize(|es|) + TotalSize(images[..i]);
      at + |images[i]| <= |Assemble(header, es, images)|
      && Assemble(header, es, images)[at .. at + |images[i]|] == images[i]
  {
    var front := header + EncodeDirectory(AssignOffsets(RewriteAll(es, images), DirectorySize(|es|)));
    ConcatAt(images, i);
    SliceOfBack(front, Concat(images), DirectorySize(|es|) + TotalSize(images[..i]),
              DirectorySize(|es|) + TotalSize(images[..i]) + |images[i]|);
  }

  /**
   * All-or-nothing: once the directory parses, the rebuild produces output
   * exactly when every entry converts, and otherwise reports the first entry
   * that does not.
   */
  lemma RebuildAllOrNothing(bytes: seq<byte>, t: seq<byte> -> Option<seq<byte>>, dir: Directory)
    requires ParseDirectory(bytes) == Success(dir)
    ensures Rebuild(bytes, t).Success? <==> forall i :: 0 <= i < |dir.entries| ==> Converts(bytes, dir.entries[i], t)
    ensures Rebuild(bytes, t).Failure? ==> FirstFailure(bytes, dir.entries, t, Rebuild(bytes, t).error)
  {
    NewImagesSpec(bytes, dir.entries, t);
  }

  /** Header and size of the rebuilt file: the original six bytes, then 16 bytes per entry, then the blobs. */
  lemma RebuildSize(bytes: seq<byte>, t: seq<byte> -> Option<seq<byte>>, dir: Directory, images: seq<Blob>)
    requires ParseDirectory(bytes) == Success(dir) && NewImages(bytes, dir.entries, t) == Success(images)
    ensures Rebuild(bytes, t) == Success(Assemble(bytes[..HeaderSize], dir.entries, images))
    ensures Rebuild(bytes, t).value[..HeaderSize] == bytes[..HeaderSize]
    ensures |Rebuild(bytes, t).value| == DirectorySize(dir.header.count) + TotalSize(images)
  {
    AssembleSize(bytes[..HeaderSize], dir.entries, images);
  }

  /** Blob i of the rebuilt file is entry i's converted sub-image, placed after the directory and the blobs before it. */
  lemma RebuildBlob(bytes: seq<byte>, t: seq<byte> -> Option<seq<byte>>, dir: Directory, images: seq<Blob>, i: nat)
    requires ParseDirectory(bytes) == Success(dir) && NewImages(bytes, dir.entries, t) == Success(images)
    requires i < |dir.entries|
    ensures Converts(bytes, dir.entries[i], t) && images[i] == Converted(bytes, dir.entries[i], t)
    ensures Rebuild(bytes, t).Success?
    ensures var at := DirectorySize(|dir.entries|) + TotalSize(images[..i]);
      at + |images[i]| <= |Rebuild(bytes, t).value|
      && Rebuild(bytes, t).value[at .. at + |images[i]|] == images[i]
  {
    NewImagesAt(bytes, dir.entries, t, images, i);
    RebuildBlobPlaced(bytes, t, dir, images, i);
  }

  /** Where blob i sits in the rebuilt file. */
  lemma RebuildBlobPlaced(bytes: seq<byte>, t: seq<byte> -> Option<seq<byte>>, dir: Directory, images: seq<Blob>, i: nat)
    requires ParseDirectory(bytes) == Success(dir) && NewImages(bytes, dir.entries, t) == Success(images)
    requires i < |dir.entries|
    ensures Rebuild(bytes, t).Success?
    ensures var at := DirectorySize(|dir.entries|) + TotalSize(images[..i]);
      at + |images[i]| <= |Rebuild(bytes, t).value|
      && Rebuild(bytes, t).value[at .. at + |images[i]|] == images[i]
  {
    RebuildSize(bytes, t, dir, images);
    AssembleBlob(bytes[..HeaderSize], dir.entries, images, i);
  }

  /**
   * Round trip: an assembled file under 4 GiB whose header says "icon, |es|
   * images" parses again with that header, and each entry's offset and size
   * select exactly its blob.
   */
  lemma AssembleReparses(header: seq<byte>, es: seq<Entry>, images: seq<Blob>)
    requires |header| == HeaderSize && |es| == |images|
    requires DecodeHeader(header).kind == IconType && DecodeHeader(header).count == |es|
    requires DirectorySize(|es|) + TotalSize(images) < U32Modulus
    ensures ParseDirectory(Assemble(header, es, images)).Success?
    ensures ParseDirectory(Assemble(header, es, images)).value.header == DecodeHeader(header)
    ensures var again := ParseDirectory(Assemble(header, es, images)).value.entries;
      |again| == |images|
      && forall i :: 0 <= i < |images| ==> SubImage(Assemble(header, es, images), again[i]) == Some(images[i])
  {
    var out := Assemble(header, es, images);
    AssembleSize(header, es, images);
    assert out[..HeaderSize] == header;
    var again := ParseDirectory(out).value.entries;
    forall i | 0 <= i < |images| ensures SubImage(out, again[i]) == Some(images[i]) {
      AssembleEntry(header, es, images, i);
      AssembleBlob(header, es, images, i);
      var at := DirectorySize(|es|) + TotalSize(images[..i]);
      assert again[i] == DecodeEntry(EntryBytes(out, i));
      assert again[i].imageOffset == at && again[i].bytesInRes == |images[i]|;
    }
  }

  /** A rebuilt file that fits in 32 bits parses again, with the original header, and its entries select its blobs. */
  lemma RebuildReparses(bytes: seq<byte>, t: seq<byte> -> Option<seq<byte>>, dir: Directory, images: seq<Blob>)
    requires ParseDirectory(bytes) == Success(dir) && NewImages(bytes, dir.entries, t) == Success(images)
    requires DirectorySize(dir.header.count) + TotalSize(images) < U32Modulus
    ensures Rebuild(bytes, t).Success?
    ensures ParseDirectory(Rebuild(bytes, t).value).Success?
    ensures ParseDirectory(Rebuild(bytes, t).value).value.header == dir.header
    ensures var again := ParseDirectory(Rebuild(bytes, t).value).value.entries;
      |again| == |images|
      && forall i :: 0 <= i < |images| ==> SubImage(Rebuild(bytes, t).value, again[i]) == Some(images[i])
  {
    RebuildSize(bytes, t, dir, images);
    ParseDirectoryOutcome(bytes);
    assert Rebuild(bytes, t).value == Assemble(bytes[..HeaderSize], dir.entries, images);
    HeaderRoundTrip(dir.header);
    AssembleReparses(bytes[..HeaderSize], dir.entries, images);
  }

  // ---------------------------------------------------------------- the program's transform

  /**
   * The platform codecs the source calls through GDI+ and Win32:
   * `decodeStream` is Bitmap(IStream*) on a PNG stream; `decodeIconResource` is
   * CreateIconFromResourceEx, Bitmap::FromHICON and Clone(PixelFormat32bppARGB),
   * None when any of them fails; `encodePng` is Save to an IStream with the PNG
   * encoder, whose status the source ignores, so it yields whatever the stream holds.
   */
  datatype Platform = Platform(
    decodeStream: seq<byte> -> Option<LockedBitmap>,
    decodeIconResource: seq<byte> -> Option<LockedBitmap>,
    encodePng: LockedBitmap -> seq<byte>)

  /** PNG sub-images go to the stream decoder, everything else to the legacy icon-resource decoder. */
  function DecodeSubImage(p: Platform, raw: seq<byte>): Option<LockedBitmap>
  {
    if IsPng(raw) then p.decodeStream(raw) else p.decodeIconResource(raw)
  }

  /** Decode, tint, encode; None when the decoder rejects the sub-image. */
  function TransformSubImage(p: Platform, m: ColourModel, raw: seq<byte>): Option<seq<byte>>
  {
    match DecodeSubImage(p, raw)
    case None => None
    case Some(bmp) => Some(p.encodePng(TintBitmap(bmp, m)))
  }

  function SubImageTransform(p: Platform, m: ColourModel): seq<byte> -> Option<seq<byte>>
  {
    raw => TransformSubImage(p, m, raw)
  }

  /** One entry's body of the loop: decode, TintPixels on the locked buffer, encode. */
  method ProcessSubImage(raw: seq<byte>, p: Platform, m: ColourModel) returns (stream: Option<seq<byte>>)
    ensures stream == TransformSubImage(p, m, raw)
  {
    var decoded: Option<LockedBitmap>;
    if IsPng(raw) {
      decoded := p.decodeStream(raw);
    } else {
      decoded := p.decodeIconResource(raw);
    }
    assert decoded == DecodeSubImage(p, raw);
    if decoded.None? {
      return None;
    }
    var bmp := decoded.value;
    var data := new byte[|bmp.pixels|](i requires 0 <= i < |bmp.pixels| => bmp.pixels[i]);
    assert data[..] == bmp.pixels;
    TintPixels(data, bmp.width, bmp.height, bmp.stride, m);
    var tinted: LockedBitmap := bmp.(pixels := data[..]);
    assert tinted == TintBitmap(bmp, m);
    stream := Some(p.encodePng(tinted));
  }

  /**
   * The body of the per-entry loop for entry i: the bounds test on
   * [imageOffset, imageOffset + bytesInRes), decode -> tint -> encode, and
   * the read-back of ULONG(cbSize) bytes from the stream.
   */
  method ConvertEntry(bytes: seq<byte>, e: Entry, i: nat, p: Platform, m: ColourModel) returns (r: Result<Blob, Error>)
    ensures r == ConvertOne(bytes, e, SubImageTransform(p, m), i)
  {
    if e.imageOffset + e.bytesInRes > |bytes| {
      return Failure(EntryOutOfBounds(i));
    }
    var raw := bytes[e.imageOffset .. e.imageOffset + e.bytesInRes];
    var encoded := ProcessSubImage(raw, p, m);
    if encoded.None? {
      return Failure(SubImageFailed(i));
    }
    var newSize := |encoded.value| % U32Modulus;
    var outBytes: Blob := encoded.value[..newSize];
    return Success(outBytes);
  }

  /**
   * The per-entry loop: each entry's blob is appended to newImages and the
   * entry rewritten in place. The first failing entry ends the procedure.
   */
  method ConvertEntries(bytes: seq<byte>, entries: array<Entry>, p: Platform, m: ColourModel)
    returns (r: Result<seq<Blob>, Error>)
    modifies entries
    ensures r == NewImages(bytes, old(entries[..]), SubImageTransform(p, m))
    ensures r.Success? ==> entries[..] == RewriteAll(old(entries[..]), r.value)
  {
    ghost var t := SubImageTransform(p, m);
    ghost var parsed := entries[..];
    var count := entries.Length;
    var newImages: seq<Blob> := [];
    for i := 0 to count
      invariant NewImages(bytes, parsed[..i], t) == Success(newImages)
      invariant forall j :: 0 <= j < i ==> entries[j] == Rewritten(parsed[j], |newImages[j]|)
      invariant forall j :: i <= j < count ==> entries[j] == parsed[j]
    {
      var e := entries[i];
      var one := ConvertEntry(bytes, e, i, p, m);
      if one.Failure? {
        NewImagesStopsAt(bytes, parsed, t, i);
        return Failure(one.error);
      }
      NewImagesStep(bytes, parsed, t, i, newImages);
      var newSize := |one.value|;
      newImages := newImages + [one.value];
      entries[i] := e.(bytesInRes := newSize, imageOffset := 0, colorCount := 0, planes := 1, bitCount := 32);
    }
    assert parsed[..count] == parsed;
    return Success(newImages);
  }

  /** The offset pass over the rewritten directory, in DWORD arithmetic. */
  method PlaceEntries(entries: array<Entry>, headerSize: u32)
    modifies entries
    ensures entries[..] == AssignOffsets(old(entries[..]), headerSize)
  {
    ghost var rewritten := entries[..];
    var offset: u32 := headerSize;
    assert rewritten[..0] == [];
    ghost var sum := 0;
    for i := 0 to entries.Length
      invariant sum == SumSizes(rewritten[..i]) && offset == WrapU32(headerSize + sum)
      invariant forall j :: 0 <= j < i ==> entries[j] == OffsetEntry(rewritten, headerSize, j)
      invariant forall j :: i <= j < entries.Length ==> entries[j] == rewritten[j]
    {
      var e := entries[i];
      OffsetStep(rewritten, headerSize, i, offset);
      entries[i] := e.(imageOffset := offset);
      offset := WrapU32(offset + e.bytesInRes);
      sum := sum + e.bytesInRes;
    }
  }

  /** The writes to the output stream: header, directory, then every blob in turn. */
  method WriteOutput(header: seq<byte>, directory: seq<byte>, images: seq<Blob>) returns (out: seq<byte>)
    ensures out == header + directory + Concat(images)
  {
    out := header + directory;
    for k := 0 to |images|
      invariant out == header + directory + Concat(images[..k])
    {
      assert images[..k + 1][..k] == images[..k];
      out := out + images[k];
    }
    assert images[..|images|] == images;
  }

  method ProcessIco(bytes: seq<byte>, p: Platform, m: ColourModel) returns (r: Result<seq<byte>, Error>)
    ensures r == Rebuild(bytes, SubImageTransform(p, m))
  {
    if |bytes| < HeaderSize {
      return Failure(TooShort);
    }
    var dir := DecodeHeader(bytes[..HeaderSize]);
    if dir.kind != IconType {
      return Failure(NotAnIcon);
    }
    var count := dir.count;
    if |bytes| < DirectorySize(count) {
      return Failure(DirectoryTruncated);
    }
    var entries := new Entry[count](i requires 0 <= i < count => DecodeEntry(EntryBytes(bytes, i)));
    ghost var parsed := entries[..];
    assert parsed == ParseDirectory(bytes).value.entries;
    var newImages := ConvertEntries(bytes, entries, p, m);
    if newImages.Failure? {
      return Failure(newImages.error);
    }
    PlaceEntries(entries, DirectorySize(count));
    var out := WriteOutput(bytes[..HeaderSize], EncodeDirectory(entries[..]), newImages.value);
    return Success(out);
  }
}
