/**
  The `.bin` file of a cache item: the device binaries of one program, one
  per device, stored as the number of binaries followed by each binary as a
  length-prefixed field.
*/
module BinaryCodec {
  import opened Wrappers
  import opened Framing
  import opened FileSystems

  /** How readBinaryDataFromFile ends: it returns binaries, or an allocation throws. */
  datatype ReadOutcome = Returned(blobs: seq<Bytes>) | Threw

  /** Every binary, and their number, fits in a `size_t`. */
  predicate Encodable(blobs: seq<Bytes>) {
    |blobs| < SIZE_LIMIT && AllFramable(blobs)
  }

  /** The `.bin` layout: the number of binaries, then each binary as a field, in order. */
  function EncodeBinary(blobs: seq<Bytes>): Bytes {
    SizeT(|blobs|) + Fields(blobs)
  }

  /** writeBinaryDataToFile */
  method WriteBinaryDataToFile(fs: FileSystem, fileName: string, data: seq<Bytes>)
    modifies fs
    ensures fs.files == old(fs.files)[fileName := EncodeBinary(data)]
    ensures fs.dirs == old(fs.dirs)
  {
    var stream := SizeT(|data|);
    var i := 0;
    while i < |data|
      invariant 0 <= i <= |data|
      invariant stream == SizeT(|data|) + Fields(data[..i])
      invariant unchanged(fs)
    {
      FieldsSnoc(data[..i], data[i]);
      assert data[..i + 1] == data[..i] + [data[i]];
      ghost var before := stream;
      stream := stream + SizeT(|data[i]|);
      stream := stream + data[i];
      AppendAssoc(before, SizeT(|data[i]|), data[i]);
      AppendAssoc(SizeT(|data|), Fields(data[..i]), Field(data[i]));
      i := i + 1;
    }
    assert data[..i] == data;
    fs.WriteFile(fileName, stream);
  }

  /** How reading the binaries ends: an allocation threw, or the stream state and the binaries read. */
  datatype Images = AllocThrew | ImagesRead(cursor: Cursor, blobs: seq<Bytes>)

  /**
    The loop of readBinaryDataFromFile from the stream state `c`, with
    `sizeBuf` the bytes of `ImgSize` and `remaining` binaries still to read:
    read a `size_t` into `ImgSize`, allocate that many bytes, read them.
  */
  function ReadImages(c: Cursor, sizeBuf: Bytes, remaining: nat, maxAlloc: nat): Images
    decreases remaining
  {
    if remaining == 0 then ImagesRead(c, [])
    else
      var t1 := ReadInto(c, sizeBuf);
      var size := ValueOf(t1.1);
      if size > maxAlloc then AllocThrew
      else
        var t2 := ReadInto(t1.0, Zeros(size));
        Prepend([t2.1], ReadImages(t2.0, t1.1, remaining - 1, maxAlloc))
  }

  /** The binaries `done` read before the rest of the loop. */
  function Prepend(done: seq<Bytes>, r: Images): Images {
    if r.AllocThrew? then AllocThrew else ImagesRead(r.cursor, done + r.blobs)
  }

  /**
    What readBinaryDataFromFile does with the file's contents (None: no such
    file); `ImgNum` and `ImgSize` start as the zero bytes of a `size_t` 0.
  */
  function ReadBinary(file: Option<Bytes>, maxAlloc: nat): ReadOutcome {
    var t := ReadInto(OpenRead(file), Zeros(SIZE_T_BYTES));
    var imgNum := ValueOf(t.1);
    if imgNum > maxAlloc then Threw
    else
      match ReadImages(t.0, Zeros(SIZE_T_BYTES), imgNum, maxAlloc)
      case AllocThrew => Threw
      case ImagesRead(c, res) => if c.failed then Returned([]) else Returned(res)
  }

  /** readBinaryDataFromFile */
  method ReadBinaryDataFromFile(fs: FileSystem, fileName: string, maxAlloc: nat) returns (r: ReadOutcome)
    ensures r == ReadBinary(fs.Contents(fileName), maxAlloc)
  {
    var stream := OpenRead(fs.Contents(fileName));
    var imgNumBuf, imgSizeBuf := Zeros(SIZE_T_BYTES), Zeros(SIZE_T_BYTES);
    var t := ReadInto(stream, imgNumBuf);
    stream, imgNumBuf := t.0, t.1;
    var imgNum := ValueOf(imgNumBuf);
    if imgNum > maxAlloc {
      return Threw;
    }
    ghost var start := stream;
    var res := new Bytes[imgNum];
    var i := 0;
    while i < imgNum
      invariant 0 <= i <= imgNum == res.Length
      invariant Prepend(res[..i], ReadImages(stream, imgSizeBuf, imgNum - i, maxAlloc))
             == ReadImages(start, Zeros(SIZE_T_BYTES), imgNum, maxAlloc)
    {
      t := ReadInto(stream, imgSizeBuf);
      stream, imgSizeBuf := t.0, t.1;
      var imgSize := ValueOf(imgSizeBuf);
      if imgSize > maxAlloc {
        return Threw;
      }
      var imgData := Zeros(imgSize);
      t := ReadInto(stream, imgData);
      stream, imgData := t.0, t.1;
      ghost var done := res[..i];
      PrependTwice(done, [imgData], ReadImages(stream, imgSizeBuf, imgNum - i - 1, maxAlloc));
      res[i] := imgData;
      assert res[..i + 1] == done + [imgData];
      i := i + 1;
    }
    assert res[..] == res[..i] == res[..i] + [];
    if stream.failed {
      return Returned([]);
    }
    return Returned(res[..]);
  }

  lemma PrependTwice(a: seq<Bytes>, b: seq<Bytes>, r: Images)
    ensures Prepend(a, Prepend(b, r)) == Prepend(a + b, r)
  {
    if r.ImagesRead? {
      assert a + (b + r.blobs) == a + b + r.blobs;
    }
  }

  /**
    Reading well-formed fields yields exactly the stored binaries and leaves
    the stream good, right after them, unless one of them is too large to
    allocate.
  */
  lemma {:induction false} ReadImagesOfFields(c: Cursor, sizeBuf: Bytes, bs: seq<Bytes>, rest: Bytes, maxAlloc: nat)
    requires !c.failed && |sizeBuf| == SIZE_T_BYTES && AllFramable(bs) && c.rest == Fields(bs) + rest
    ensures ReadImages(c, sizeBuf, |bs|, maxAlloc)
         == if AllFit(bs, maxAlloc) then ImagesRead(Cursor(rest, false), bs) else AllocThrew
    decreases |bs|
  {
    if bs == [] {
      assert c == Cursor(rest, false);
    } else {
      var b, tail := bs[0], bs[1..];
      AllFramableCons(bs);
      AllFitCons(bs, maxAlloc);
      assert c.rest == Field(b) + (Fields(tail) + rest);
      ReadFieldAt(c, sizeBuf, Zeros(|b|), b, Fields(tail) + rest);
      if |b| <= maxAlloc {
        var c' := Cursor(Fields(tail) + rest, false);
        assert ReadImages(c, sizeBuf, |bs|, maxAlloc) == Prepend([b], ReadImages(c', SizeT(|b|), |tail|, maxAlloc));
        ReadImagesOfFields(c', SizeT(|b|), tail, rest, maxAlloc);
        assert [b] + tail == bs;
      }
    }
  }

  /**
    Round trip: reading what writeBinaryDataToFile wrote (with anything after
    it) gives back the same binaries, empty ones included, exactly when every
    allocation succeeds; otherwise the read throws.
  */
  lemma ReadBinaryOfEncoding(blobs: seq<Bytes>, rest: Bytes, maxAlloc: nat)
    requires Encodable(blobs)
    ensures ReadBinary(Some(EncodeBinary(blobs) + rest), maxAlloc)
         == if |blobs| <= maxAlloc && AllFit(blobs, maxAlloc) then Returned(blobs) else Threw
  {
    var data := EncodeBinary(blobs) + rest;
    var c := OpenRead(Some(data));
    AppendAssoc(SizeT(|blobs|), Fields(blobs), rest);
    assert c == Cursor(SizeT(|blobs|) + (Fields(blobs) + rest), false);
    ReadIntoAt(c, Zeros(SIZE_T_BYTES), SizeT(|blobs|), Fields(blobs) + rest);
    SizeTRoundTrip(|blobs|);
    var c' := Cursor(Fields(blobs) + rest, false);
    assert ReadInto(c, Zeros(SIZE_T_BYTES)) == (c', SizeT(|blobs|));
    if |blobs| <= maxAlloc {
      ReadImagesOfFields(c', Zeros(SIZE_T_BYTES), blobs, rest, maxAlloc);
      if AllFit(blobs, maxAlloc) {
        assert ReadImages(c', Zeros(SIZE_T_BYTES), |blobs|, maxAlloc) == ImagesRead(Cursor(rest, false), blobs);
      } else {
        assert ReadImages(c', Zeros(SIZE_T_BYTES), |blobs|, maxAlloc) == AllocThrew;
      }
    }
  }

  /**
    Whatever the file holds, a read loop that ends with a good stream
    consumed well-formed fields holding exactly the binaries it returns.
  */
  lemma {:induction false} ReadImagesSound(c: Cursor, sizeBuf: Bytes, remaining: nat, maxAlloc: nat)
    requires |sizeBuf| == SIZE_T_BYTES
    ensures var r := ReadImages(c, sizeBuf, remaining, maxAlloc);
      r.ImagesRead? && !r.cursor.failed ==>
        !c.failed && AllFramable(r.blobs) && c.rest == Fields(r.blobs) + r.cursor.rest
    decreases remaining
  {
    if remaining > 0 {
      var t1 := ReadInto(c, sizeBuf);
      var n := ValueOf(t1.1);
      var t2 := ReadInto(t1.0, Zeros(n));
      var r' := ReadImages(t2.0, t1.1, remaining - 1, maxAlloc);
      var r := ReadImages(c, sizeBuf, remaining, maxAlloc);
      assert r == if n > maxAlloc then AllocThrew else Prepend([t2.1], r');
      if n > maxAlloc {
        assert r == AllocThrew;
      } else if r'.ImagesRead? && !r'.cursor.failed {
        assert r == ImagesRead(r'.cursor, [t2.1] + r'.blobs);
        ReadImagesSound(t2.0, t1.1, remaining - 1, maxAlloc);
        FieldBeforeImages(c, sizeBuf, Zeros(n), r', r);
      } else {
        assert !(r.ImagesRead? && !r.cursor.failed);
      }
    }
  }

  /** A binary read after its length, in front of well-formed fields, adds one field in front of them. */
  lemma FieldBeforeImages(c: Cursor, sizeBuf: Bytes, buf: Bytes, r': Images, r: Images)
    requires |sizeBuf| == SIZE_T_BYTES && |buf| == ValueOf(ReadInto(c, sizeBuf).1)
    requires r'.ImagesRead? && !r'.cursor.failed && AllFramable(r'.blobs)
    requires var t2 := ReadInto(ReadInto(c, sizeBuf).0, buf);
      !t2.0.failed && t2.0.rest == Fields(r'.blobs) + r'.cursor.rest && r == Prepend([t2.1], r')
    ensures r.ImagesRead? && !c.failed && AllFramable(r.blobs) && c.rest == Fields(r.blobs) + r.cursor.rest
  {
    var t2 := ReadInto(ReadInto(c, sizeBuf).0, buf);
    ReadFieldSound(c, sizeBuf, buf);
    FieldThenFields(c.rest, t2.1, r'.blobs, r'.cursor.rest);
  }

  /** One well-formed field followed by well-formed fields are the fields of the whole list. */
  lemma FieldThenFields(s: Bytes, b: Bytes, bs: seq<Bytes>, rest: Bytes)
    requires Framable(b) && AllFramable(bs) && s == Field(b) + (Fields(bs) + rest)
    ensures AllFramable([b] + bs) && s == Fields([b] + bs) + rest
  {
    var all := [b] + bs;
    assert all[0] == b && all[1..] == bs;
    AllFramableCons(all);
  }

  /** The loop reads as many binaries as it was asked to, unless it throws. */
  lemma {:induction false} ReadImagesLength(c: Cursor, sizeBuf: Bytes, remaining: nat, maxAlloc: nat)
    ensures var r := ReadImages(c, sizeBuf, remaining, maxAlloc);
      r.ImagesRead? ==> |r.blobs| == remaining
    decreases remaining
  {
    if remaining > 0 {
      var t1 := ReadInto(c, sizeBuf);
      var t2 := ReadInto(t1.0, Zeros(ValueOf(t1.1)));
      ReadImagesLength(t2.0, t1.1, remaining - 1, maxAlloc);
    }
  }

  /**
    No partial data: a read that returns binaries returns either nothing or
    exactly the binaries whose encoding the file starts with; in particular a
    missing or truncated file never yields a partial list.
  */
  lemma ReadBinaryReturnsWholeEncoding(file: Option<Bytes>, maxAlloc: nat)
    ensures ReadBinary(file, maxAlloc).Returned? ==>
      var r := ReadBinary(file, maxAlloc).blobs;
      r == [] || (file.Some? && Encodable(r) && IsPrefix(EncodeBinary(r), file.value))
  {
    if file.None? {
      ReadBinaryMissingFile(maxAlloc);
    } else {
      ReadBinaryOfContents(file.value, maxAlloc);
    }
  }

  lemma ReadBinaryOfContents(data: Bytes, maxAlloc: nat)
    ensures var r := ReadBinary(Some(data), maxAlloc);
      r.Returned? ==> r.blobs == [] || (Encodable(r.blobs) && IsPrefix(EncodeBinary(r.blobs), data))
  {
    var t := ReadInto(Cursor(data, false), Zeros(SIZE_T_BYTES));
    var imgNum := ValueOf(t.1);
    var o := ReadImages(t.0, Zeros(SIZE_T_BYTES), imgNum, maxAlloc);
    assert OpenRead(Some(data)) == Cursor(data, false);
    if imgNum <= maxAlloc && o.ImagesRead? && !o.cursor.failed {
      assert ReadBinary(Some(data), maxAlloc) == Returned(o.blobs);
      ReadImagesSound(t.0, Zeros(SIZE_T_BYTES), imgNum, maxAlloc);
      ReadImagesLength(t.0, Zeros(SIZE_T_BYTES), imgNum, maxAlloc);
      EncodingBeforeRest(data, t.1, o.blobs, o.cursor.rest);
    } else {
      assert ReadBinary(Some(data), maxAlloc) == Threw || ReadBinary(Some(data), maxAlloc) == Returned([]);
    }
  }

  /** A count followed by that many well-formed fields is the encoding of those binaries. */
  lemma EncodingBeforeRest(data: Bytes, countBuf: Bytes, blobs: seq<Bytes>, rest: Bytes)
    requires |countBuf| == SIZE_T_BYTES && ValueOf(countBuf) == |blobs| && AllFramable(blobs)
    requires data == countBuf + (Fields(blobs) + rest)
    ensures Encodable(blobs) && IsPrefix(EncodeBinary(blobs), data)
  {
    SizeTOfValueOf(countBuf);
    var enc := EncodeBinary(blobs);
    assert enc == countBuf + Fields(blobs);
    AppendAssoc(countBuf, Fields(blobs), rest);
    PrefixOfAppend(enc, data, rest);
  }

  /** A missing file reads as no binaries at all. */
  lemma ReadBinaryMissingFile(maxAlloc: nat)
    ensures ReadBinary(None, maxAlloc) == Returned([])
  {
    ValueOfZeros(SIZE_T_BYTES);
  }
}
