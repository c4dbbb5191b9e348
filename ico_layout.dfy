/**
 * The on-disk layout of an icon container: a 6-byte ICONDIR header followed by
 * `count` 16-byte ICONDIRENTRY records, all fields little-endian.
 */
module IcoLayout {
  import opened ByteCodec

  const HeaderSize: nat := 6
  const EntrySize: nat := 16
  /** The header's type field for an icon (2 would be a cursor). */
  const IconType: u16 := 1

  /** ICONDIR: idReserved, idType, idCount. */
  datatype Header = Header(reserved: u16, kind: u16, count: u16)

  /** ICONDIRENTRY, field for field. */
  datatype Entry = Entry(
    width: byte,
    height: byte,
    colorCount: byte,
    reserved: byte,
    planes: u16,
    bitCount: u16,
    bytesInRes: u32,
    imageOffset: u32)

  function EncodeHeader(h: Header): (r: seq<byte>)
    ensures |r| == HeaderSize
  {
    EncodeU16(h.reserved) + EncodeU16(h.kind) + EncodeU16(h.count)
  }

  function DecodeHeader(b: seq<byte>): (h: Header)
    requires |b| == HeaderSize
  {
    Header(DecodeU16(b[0..2]), DecodeU16(b[2..4]), DecodeU16(b[4..6]))
  }

  lemma HeaderRoundTrip(h: Header)
    ensures DecodeHeader(EncodeHeader(h)) == h
  {
    var b := EncodeHeader(h);
    assert b[0..2] == EncodeU16(h.reserved);
    assert b[2..4] == EncodeU16(h.kind);
    assert b[4..6] == EncodeU16(h.count);
    U16RoundTrip(h.reserved);
    U16RoundTrip(h.kind);
    U16RoundTrip(h.count);
  }

  lemma HeaderBytesRoundTrip(b: seq<byte>)
    requires |b| == HeaderSize
    ensures EncodeHeader(DecodeHeader(b)) == b
  {
    U16BytesRoundTrip(b[0..2]);
    U16BytesRoundTrip(b[2..4]);
    U16BytesRoundTrip(b[4..6]);
    assert b == b[0..2] + b[2..4] + b[4..6];
  }

  function EncodeEntry(e: Entry): (r: seq<byte>)
    ensures |r| == EntrySize
    ensures r[0] == e.width && r[1] == e.height && r[2] == e.colorCount && r[3] == e.reserved
  {
    [e.width, e.height, e.colorCount, e.reserved]
      + EncodeU16(e.planes) + EncodeU16(e.bitCount)
      + EncodeU32(e.bytesInRes) + EncodeU32(e.imageOffset)
  }

  function DecodeEntry(b: seq<byte>): (e: Entry)
    requires |b| == EntrySize
  {
    Entry(b[0], b[1], b[2], b[3],
          DecodeU16(b[4..6]), DecodeU16(b[6..8]),
          DecodeU32(b[8..12]), DecodeU32(b[12..16]))
  }

  lemma EntryRoundTrip(e: Entry)
    ensures DecodeEntry(EncodeEntry(e)) == e
  {
    var b := EncodeEntry(e);
    var front := [e.width, e.height, e.colorCount, e.reserved] + EncodeU16(e.planes) + EncodeU16(e.bitCount);
    var size := EncodeU32(e.bytesInRes);
    var off := EncodeU32(e.imageOffset);
    assert b == front + size + off;
    assert |front| == 8;
    assert b[4..6] == EncodeU16(e.planes);
    assert b[6..8] == EncodeU16(e.bitCount);
    assert b[8..12] == EncodeU32(e.bytesInRes);
    assert b[12..16] == EncodeU32(e.imageOffset);
    U16RoundTrip(e.planes);
    U16RoundTrip(e.bitCount);
    U32RoundTrip(e.bytesInRes);
    U32RoundTrip(e.imageOffset);
  }

  lemma EntryBytesRoundTrip(b: seq<byte>)
    requires |b| == EntrySize
    ensures EncodeEntry(DecodeEntry(b)) == b
  {
    U16BytesRoundTrip(b[4..6]);
    U16BytesRoundTrip(b[6..8]);
    U32BytesRoundTrip(b[8..12]);
    U32BytesRoundTrip(b[12..16]);
    assert b == b[0..4] + b[4..6] + b[6..8] + b[8..12] + b[12..16];
  }

  /** The directory as written to the file: the entries' encodings, back to back, in order. */
  function EncodeDirectory(es: seq<Entry>): (r: seq<byte>)
    ensures |r| == EntrySize * |es|
  {
    if es == [] then [] else EncodeDirectory(es[..|es| - 1]) + EncodeEntry(es[|es| - 1])
  }

  /** Entry i of an encoded directory occupies bytes [16*i, 16*i + 16). */
  lemma {:induction false} EncodeDirectoryAt(es: seq<Entry>, i: nat)
    requires i < |es|
    ensures EncodeDirectory(es)[EntrySize * i .. EntrySize * i + EntrySize] == EncodeEntry(es[i])
  {
    var k := |es| - 1;
    var front := es[..k];
    var head := EncodeDirectory(front);
    assert EncodeDirectory(es) == head + EncodeEntry(es[k]);
    if i < k {
      EncodeDirectoryAt(front, i);
      assert EntrySize * i + EntrySize <= EntrySize * k;
      SliceOfFront(head, EncodeEntry(es[k]), EntrySize * i, EntrySize * i + EntrySize);
      assert front[i] == es[i];
    } else {
      assert |head| == EntrySize * i;
      SliceOfBack(head, EncodeEntry(es[k]), |head|, |head| + EntrySize);
      assert EncodeEntry(es[k])[0..EntrySize] == EncodeEntry(es[k]);
    }
  }

  lemma SliceOfFront(a: seq<byte>, b: seq<byte>, lo: nat, hi: nat)
    requires lo <= hi <= |a|
    ensures (a + b)[lo..hi] == a[lo..hi]
  {
  }

  lemma SliceOfBack(a: seq<byte>, b: seq<byte>, lo: nat, hi: nat)
    requires |a| <= lo <= hi <= |a| + |b|
    ensures (a + b)[lo..hi] == b[lo - |a| .. hi - |a|]
  {
  }

  /** The 16 bytes of directory entry i in a file whose directory is complete. */
  function EntryBytes(bytes: seq<byte>, i: nat): (r: seq<byte>)
    requires HeaderSize + EntrySize * (i + 1) <= |bytes|
    ensures |r| == EntrySize
  {
    bytes[HeaderSize + EntrySize * i .. HeaderSize + EntrySize * (i + 1)]
  }
}
