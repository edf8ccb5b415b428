/**
  The `.src` file of a cache item: a copy of the four key inputs, kept so
  that a reader can tell a genuine hit from a hash collision. It holds
  exactly four fields, in the order device identity, build options,
  specialization constants, image.
*/
module SourceRecord {
  import opened Wrappers
  import opened Framing
  import opened FileSystems
  import opened CacheKeys

  /** The key inputs in the order the `.src` file stores and compares them. */
  function KeyFields(k: CacheKey): (fs: seq<Bytes>)
    ensures |fs| == 4
  {
    [DeviceIdString(k.device), k.buildOptions, k.specConsts, ImageBytes(k.img)]
  }

  /** Every key input fits in a `size_t`, as the length of an object in memory does. */
  predicate KeyEncodable(k: CacheKey) {
    AllFramable(KeyFields(k))
  }

  /** The `.src` layout: four (length, bytes) pairs. */
  function EncodeSource(k: CacheKey): (bs: Bytes)
    ensures bs == Fields(KeyFields(k))
  {
    FieldsOfFour(DeviceIdString(k.device), k.buildOptions, k.specConsts, ImageBytes(k.img));
    Field(DeviceIdString(k.device)) + Field(k.buildOptions) + Field(k.specConsts) + Field(ImageBytes(k.img))
  }

  lemma FieldsOfFour(a: Bytes, b: Bytes, c: Bytes, d: Bytes)
    ensures Fields([a, b, c, d]) == Field(a) + Field(b) + Field(c) + Field(d)
  {
    assert Fields([d]) == Field(d) by { assert [d][1..] == []; }
    assert Fields([c, d]) == Field(c) + Fields([d]) by { assert [c, d][1..] == [d]; }
    assert Fields([b, c, d]) == Field(b) + Fields([c, d]) by { assert [b, c, d][1..] == [c, d]; }
    assert Fields([a, b, c, d]) == Field(a) + Fields([b, c, d]) by { assert [a, b, c, d][1..] == [b, c, d]; }
  }

  /** writeSourceItem */
  method WriteSourceItem(fs: FileSystem, fileName: string, k: CacheKey)
    modifies fs
    ensures fs.files == old(fs.files)[fileName := EncodeSource(k)]
    ensures fs.dirs == old(fs.dirs)
  {
    var deviceString := DeviceIdString(k.device);
    var stream := SizeT(|deviceString|) + deviceString;
    stream := stream + SizeT(|k.buildOptions|) + k.buildOptions;
    stream := stream + SizeT(|k.specConsts|) + k.specConsts;
    var img := ImageBytes(k.img);
    stream := stream + SizeT(|img|) + img;
    assert stream == Field(deviceString) + Field(k.buildOptions) + Field(k.specConsts) + Field(img);
    fs.WriteFile(fileName, stream);
  }

  /** `res.resize(n)`: keep the first n bytes, or pad with zero bytes. */
  function Resize(res: Bytes, n: nat): (r: Bytes)
    ensures |r| == n
  {
    if n <= |res| then res[..n] else res + Zeros(n - |res|)
  }

  /** The fields of `bs[i..j]`, one after the other. */
  function FieldsBetween(bs: seq<Bytes>, i: nat, j: nat): Bytes
    requires i <= j <= |bs|
    decreases j - i
  {
    if i == j then [] else Field(bs[i]) + FieldsBetween(bs, i + 1, j)
  }

  lemma {:induction false} FieldsBetweenIsFields(bs: seq<Bytes>, i: nat)
    requires i <= |bs|
    ensures FieldsBetween(bs, i, |bs|) == Fields(bs[i..])
    decreases |bs| - i
  {
    if i < |bs| {
      FieldsBetweenIsFields(bs, i + 1);
      assert bs[i..][0] == bs[i] && bs[i..][1..] == bs[i + 1..];
    }
  }

  lemma {:induction false} FieldsBetweenSnoc(bs: seq<Bytes>, i: nat, j: nat)
    requires i <= j < |bs|
    ensures FieldsBetween(bs, i, j + 1) == FieldsBetween(bs, i, j) + Field(bs[j])
    decreases j - i
  {
    if i < j {
      FieldsBetweenSnoc(bs, i + 1, j);
    }
  }

  /** Every one of `bs[i..j]` can be allocated. */
  predicate FitBetween(bs: seq<Bytes>, i: nat, j: nat, maxAlloc: nat)
    requires i <= j <= |bs|
  {
    forall k | i <= k < j :: |bs[k]| <= maxAlloc
  }

  /** How the comparison of the stored fields with the expected ones ends. */
  datatype Scan =
    | ScanThrew             // an allocation for a stored length threw
    | Mismatch(field: nat)  // the early `return false` at this field
    | AllMatched(failed: bool)  // all of them compared equal; the stream's fail bit at the end

  /** The outcome of reading one stored field into `Size` and `res`. */
  datatype FieldRead = ReadThrew | ReadDone(cursor: Cursor, size: Bytes, res: Bytes)

  /**
    One field of isCacheItemSrcEqual: read a `size_t` into `Size` (held as
    its bytes `sizeBuf`), resize `res` to it, which throws when the length
    cannot be allocated, then read that many bytes into `res`.
  */
  function ReadSourceField(c: Cursor, sizeBuf: Bytes, res: Bytes, maxAlloc: nat): FieldRead {
    var t1 := ReadInto(c, sizeBuf);
    var size := ValueOf(t1.1);
    if size > maxAlloc then ReadThrew
    else
      var t2 := ReadInto(t1.0, Resize(res, size));
      ReadDone(t2.0, t1.1, t2.1)
  }

  /** At a well-formed stored field that can be allocated, the read yields exactly that field. */
  lemma ReadSourceFieldAt(c: Cursor, sizeBuf: Bytes, res: Bytes, b: Bytes, rest: Bytes, maxAlloc: nat)
    requires !c.failed && |sizeBuf| == SIZE_T_BYTES && c.rest == Field(b) + rest
    requires Framable(b) && |b| <= maxAlloc
    ensures ReadSourceField(c, sizeBuf, res, maxAlloc) == ReadDone(Cursor(rest, false), SizeT(|b|), b)
  {
    ReadFieldAt(c, sizeBuf, Resize(res, |b|), b, rest);
  }

  /** A read that leaves the stream good consumed one well-formed field holding what it returned. */
  lemma ReadSourceFieldSound(c: Cursor, sizeBuf: Bytes, res: Bytes, maxAlloc: nat)
    requires |sizeBuf| == SIZE_T_BYTES
    ensures var r := ReadSourceField(c, sizeBuf, res, maxAlloc);
      r.ReadDone? ==> |r.size| == SIZE_T_BYTES && (!r.cursor.failed ==>
        !c.failed && Framable(r.res) && c.rest == Field(r.res) + r.cursor.rest)
  {
    var t1 := ReadInto(c, sizeBuf);
    ReadFieldSound(c, sizeBuf, Resize(res, ValueOf(t1.1)));
  }

  /**
    The body of isCacheItemSrcEqual from the stream state `c`, with `Size`
    and `res` as the previous field left them, comparing the stored fields
    from the i-th on with the expected ones and stopping at the first that
    differs.
  */
  function CompareFields(c: Cursor, sizeBuf: Bytes, res: Bytes, expected: seq<Bytes>, i: nat, maxAlloc: nat): Scan
    decreases |expected| - i
  {
    if |expected| <= i then AllMatched(c.failed)
    else
      match ReadSourceField(c, sizeBuf, res, maxAlloc)
      case ReadThrew => ScanThrew
      case ReadDone(c1, sizeBuf1, res1) =>
        if res1 != expected[i] then Mismatch(i)
        else CompareFields(c1, sizeBuf1, res1, expected, i + 1, maxAlloc)
  }

  /**
    isCacheItemSrcEqual up to its last comparison; `Size` starts as the zero
    bytes of a `size_t` 0 and `res` is first sized by `std::string res(Size, '\0')`,
    which is resizing an empty string.
  */
  function ScanSource(file: Option<Bytes>, k: CacheKey, maxAlloc: nat): Scan {
    CompareFields(OpenRead(file), Zeros(SIZE_T_BYTES), [], KeyFields(k), 0, maxAlloc)
  }

  /** The result of isCacheItemSrcEqual, or the exception it lets escape. */
  datatype SrcOutcome = SrcThrew | SrcCompared(equal: bool)

  /** isCacheItemSrcEqual as written: a fail bit noticed after the four comparisons is only traced. */
  function IsCacheItemSrcEqualAsWritten(file: Option<Bytes>, k: CacheKey, maxAlloc: nat): SrcOutcome {
    match ScanSource(file, k, maxAlloc)
    case ScanThrew => SrcThrew
    case Mismatch(_) => SrcCompared(false)
    case AllMatched(_) => SrcCompared(true)
  }

  /** isCacheItemSrcEqual as its comment intends: a failed read makes the item unequal. */
  function IsCacheItemSrcEqual(file: Option<Bytes>, k: CacheKey, maxAlloc: nat): SrcOutcome {
    match ScanSource(file, k, maxAlloc)
    case ScanThrew => SrcThrew
    case Mismatch(_) => SrcCompared(false)
    case AllMatched(failed) => SrcCompared(!failed)
  }

  /** Which of the two comparisons a caller makes. */
  datatype Comparator = AsWritten | Corrected

  function SrcCompare(cmp: Comparator, file: Option<Bytes>, k: CacheKey, maxAlloc: nat): SrcOutcome {
    match cmp
    case AsWritten => IsCacheItemSrcEqualAsWritten(file, k, maxAlloc)
    case Corrected => IsCacheItemSrcEqual(file, k, maxAlloc)
  }

  /** The two comparisons agree except where the corrected one rejects a record that the one as written accepts. */
  lemma CorrectedOnlyRejectsMore(file: Option<Bytes>, k: CacheKey, maxAlloc: nat)
    ensures || IsCacheItemSrcEqual(file, k, maxAlloc) == IsCacheItemSrcEqualAsWritten(file, k, maxAlloc)
            || (IsCacheItemSrcEqualAsWritten(file, k, maxAlloc) == SrcCompared(true)
                && IsCacheItemSrcEqual(file, k, maxAlloc) == SrcCompared(false))
  {
  }

  /** Comparing one well-formed stored field that equals the expected one moves on to the next. */
  lemma CompareFieldsStep(c: Cursor, sizeBuf: Bytes, res: Bytes, expected: seq<Bytes>, i: nat, rest: Bytes, maxAlloc: nat)
    requires !c.failed && |sizeBuf| == SIZE_T_BYTES && i < |expected|
    requires Framable(expected[i]) && |expected[i]| <= maxAlloc && c.rest == Field(expected[i]) + rest
    ensures CompareFields(c, sizeBuf, res, expected, i, maxAlloc)
         == CompareFields(Cursor(rest, false), SizeT(|expected[i]|), expected[i], expected, i + 1, maxAlloc)
  {
    ReadSourceFieldAt(c, sizeBuf, res, expected[i], rest, maxAlloc);
  }

  /** A stored well-formed field that differs from the expected one ends the comparison there. */
  lemma CompareFieldsDiffer(c: Cursor, sizeBuf: Bytes, res: Bytes, expected: seq<Bytes>, i: nat, x: Bytes, rest: Bytes, maxAlloc: nat)
    requires !c.failed && |sizeBuf| == SIZE_T_BYTES && i < |expected|
    requires Framable(x) && |x| <= maxAlloc && x != expected[i] && c.rest == Field(x) + rest
    ensures CompareFields(c, sizeBuf, res, expected, i, maxAlloc) == Mismatch(i)
  {
    ReadSourceFieldAt(c, sizeBuf, res, x, rest, maxAlloc);
  }

  /**
    When the stored fields agree with the expected ones from the i-th to
    before the j-th and the next stored field exists but differs from the
    j-th, the comparison stops with a mismatch at field j, whatever follows.
  */
  lemma {:induction false} CompareFieldsFirstDifference(
    c: Cursor, sizeBuf: Bytes, res: Bytes, expected: seq<Bytes>, i: nat, j: nat, x: Bytes, rest: Bytes, maxAlloc: nat)
    requires !c.failed && |sizeBuf| == SIZE_T_BYTES
    requires i <= j < |expected| && AllFramable(expected) && FitBetween(expected, i, j, maxAlloc)
    requires Framable(x) && |x| <= maxAlloc && x != expected[j]
    requires c.rest == FieldsBetween(expected, i, j) + (Field(x) + rest)
    ensures CompareFields(c, sizeBuf, res, expected, i, maxAlloc) == Mismatch(j)
    decreases j - i
  {
    if i == j {
      CompareFieldsDiffer(c, sizeBuf, res, expected, j, x, rest, maxAlloc);
    } else {
      var e := expected[i];
      var after := FieldsBetween(expected, i + 1, j) + (Field(x) + rest);
      assert c.rest == Field(e) + after;
      CompareFieldsStep(c, sizeBuf, res, expected, i, after, maxAlloc);
      CompareFieldsFirstDifference(Cursor(after, false), SizeT(|e|), e, expected, i + 1, j, x, rest, maxAlloc);
    }
  }

  /** When the stored fields are exactly the expected ones, all of them match and the stream stays good. */
  lemma {:induction false} CompareFieldsOfFields(
    c: Cursor, sizeBuf: Bytes, res: Bytes, expected: seq<Bytes>, i: nat, rest: Bytes, maxAlloc: nat)
    requires !c.failed && |sizeBuf| == SIZE_T_BYTES
    requires i <= |expected| && AllFramable(expected) && FitBetween(expected, i, |expected|, maxAlloc)
    requires c.rest == FieldsBetween(expected, i, |expected|) + rest
    ensures CompareFields(c, sizeBuf, res, expected, i, maxAlloc) == AllMatched(false)
    decreases |expected| - i
  {
    if i < |expected| {
      var e := expected[i];
      var after := FieldsBetween(expected, i + 1, |expected|) + rest;
      assert c.rest == Field(e) + after;
      CompareFieldsStep(c, sizeBuf, res, expected, i, after, maxAlloc);
      CompareFieldsOfFields(Cursor(after, false), SizeT(|e|), e, expected, i + 1, rest, maxAlloc);
    }
  }

  /** A comparison that ends with all fields equal and a good stream read exactly the expected fields. */
  lemma {:induction false} CompareFieldsSound(c: Cursor, sizeBuf: Bytes, res: Bytes, expected: seq<Bytes>, i: nat, maxAlloc: nat)
    requires |sizeBuf| == SIZE_T_BYTES && i <= |expected|
    requires CompareFields(c, sizeBuf, res, expected, i, maxAlloc) == AllMatched(false)
    ensures !c.failed && IsPrefix(FieldsBetween(expected, i, |expected|), c.rest)
    decreases |expected| - i
  {
    if i < |expected| {
      var r := ReadSourceField(c, sizeBuf, res, maxAlloc);
      ReadSourceFieldSound(c, sizeBuf, res, maxAlloc);
      assert r.ReadDone? && r.res == expected[i];
      assert CompareFields(r.cursor, r.size, r.res, expected, i + 1, maxAlloc) == AllMatched(false);
      CompareFieldsSound(r.cursor, r.size, r.res, expected, i + 1, maxAlloc);
      var tail := FieldsBetween(expected, i + 1, |expected|);
      var whole := FieldsBetween(expected, i, |expected|);
      assert whole == Field(expected[i]) + tail;
      assert c.rest == Field(expected[i]) + r.cursor.rest;
      assert c.rest[..|whole|] == Field(expected[i]) + r.cursor.rest[..|tail|];
    }
  }

  /**
    Round trip: after writeSourceItem for a key, comparing against the same
    key finds it equal (when its fields can be allocated), whatever follows
    the four fields.
  */
  lemma SrcEqualAfterWrite(k: CacheKey, rest: Bytes, maxAlloc: nat)
    requires KeyEncodable(k) && AllFit(KeyFields(k), maxAlloc)
    ensures IsCacheItemSrcEqual(Some(EncodeSource(k) + rest), k, maxAlloc) == SrcCompared(true)
    ensures IsCacheItemSrcEqualAsWritten(Some(EncodeSource(k) + rest), k, maxAlloc) == SrcCompared(true)
  {
    var fields := KeyFields(k);
    FieldsBetweenIsFields(fields, 0);
    assert fields[0..] == fields;
    CompareFieldsOfFields(OpenRead(Some(EncodeSource(k) + rest)), Zeros(SIZE_T_BYTES), [], fields, 0, rest, maxAlloc);
  }

  /**
    The four inputs are checked in the order device identity, build options,
    spec constants, image: when the record agrees with the key on the fields
    before field j and holds a different value at field j, the result is
    false, whatever the rest of the file holds.
  */
  lemma SrcUnequalAtFirstDifference(k: CacheKey, j: nat, x: Bytes, rest: Bytes, maxAlloc: nat)
    requires j < 4 && KeyEncodable(k) && FitBetween(KeyFields(k), 0, j, maxAlloc)
    requires Framable(x) && |x| <= maxAlloc && x != KeyFields(k)[j]
    ensures var file := Some(FieldsBetween(KeyFields(k), 0, j) + Field(x) + rest);
      && ScanSource(file, k, maxAlloc) == Mismatch(j)
      && IsCacheItemSrcEqual(file, k, maxAlloc) == SrcCompared(false)
      && IsCacheItemSrcEqualAsWritten(file, k, maxAlloc) == SrcCompared(false)
  {
    var fields := KeyFields(k);
    var data := FieldsBetween(fields, 0, j) + Field(x) + rest;
    assert data == FieldsBetween(fields, 0, j) + (Field(x) + rest);
    CompareFieldsFirstDifference(OpenRead(Some(data)), Zeros(SIZE_T_BYTES), [], fields, 0, j, x, rest, maxAlloc);
  }

  /** The comparison used by the cache accepts a record only when the file starts with that exact record. */
  lemma SrcEqualOnlyForExactRecord(file: Option<Bytes>, k: CacheKey, maxAlloc: nat)
    requires IsCacheItemSrcEqual(file, k, maxAlloc) == SrcCompared(true)
    ensures file.Some? && IsPrefix(EncodeSource(k), file.value)
  {
    var fields := KeyFields(k);
    CompareFieldsSound(OpenRead(file), Zeros(SIZE_T_BYTES), [], fields, 0, maxAlloc);
    FieldsBetweenIsFields(fields, 0);
    assert fields[0..] == fields;
  }

  /** A missing `.src` file never matches: the first field reads as empty, and a device identity is not. */
  lemma SrcMissingUnequal(k: CacheKey, maxAlloc: nat)
    ensures ScanSource(None, k, maxAlloc) == Mismatch(0)
    ensures IsCacheItemSrcEqual(None, k, maxAlloc) == SrcCompared(false)
    ensures IsCacheItemSrcEqualAsWritten(None, k, maxAlloc) == SrcCompared(false)
  {
    ValueOfZeros(SIZE_T_BYTES);
    var c := Cursor([], true);
    assert ReadSourceField(c, Zeros(SIZE_T_BYTES), [], maxAlloc) == ReadDone(c, Zeros(SIZE_T_BYTES), []);
    assert |KeyFields(k)[0]| >= 3;
  }

  /**
    The comparison as written accepts a truncated record: for an image of
    one zero byte and empty spec constants, a file that stops right after the
    image's length still compares equal, because the unread byte of `res`
    is the zero the resize padded it with and the final fail bit is only
    traced. The corrected comparison rejects it.
  */
  lemma AsWrittenAcceptsTruncatedRecord(k: CacheKey, maxAlloc: nat)
    requires KeyEncodable(k) && AllFit(KeyFields(k), maxAlloc)
    requires ImageBytes(k.img) == [0] && k.specConsts == []
    ensures var file := Some(FieldsBetween(KeyFields(k), 0, 3) + SizeT(1));
      && IsCacheItemSrcEqualAsWritten(file, k, maxAlloc) == SrcCompared(true)
      && IsCacheItemSrcEqual(file, k, maxAlloc) == SrcCompared(false)
      && !IsPrefix(EncodeSource(k), file.value)
  {
    var fields := KeyFields(k);
    var data := FieldsBetween(fields, 0, 3) + SizeT(1);
    CompareFieldsAfterMatches(OpenRead(Some(data)), Zeros(SIZE_T_BYTES), [], fields, 0, 3, SizeT(1), maxAlloc);
    ImageFieldTruncated(fields, SizeT(|fields[2]|), fields[2], maxAlloc);
    TruncatedIsNoPrefix(k);
  }

  /**
    Stored fields that agree with the expected ones from the i-th to before
    the j-th are compared and passed over, leaving `Size` and `res` as the
    last of them set them.
  */
  lemma {:induction false} CompareFieldsAfterMatches(
    c: Cursor, sizeBuf: Bytes, res: Bytes, expected: seq<Bytes>, i: nat, j: nat, rest: Bytes, maxAlloc: nat)
    requires !c.failed && |sizeBuf| == SIZE_T_BYTES
    requires i < j <= |expected| && AllFramable(expected) && FitBetween(expected, i, j, maxAlloc)
    requires c.rest == FieldsBetween(expected, i, j) + rest
    ensures CompareFields(c, sizeBuf, res, expected, i, maxAlloc)
         == CompareFields(Cursor(rest, false), SizeT(|expected[j - 1]|), expected[j - 1], expected, j, maxAlloc)
    decreases j - i
  {
    var e := expected[i];
    var mid := FieldsBetween(expected, i + 1, j);
    assert FieldsBetween(expected, i, j) == Field(e) + mid;
    AppendAssoc(Field(e), mid, rest);
    var after := mid + rest;
    assert Framable(e) && |e| <= maxAlloc;
    CompareFieldsStep(c, sizeBuf, res, expected, i, after, maxAlloc);
    if i + 1 < j {
      assert FitBetween(expected, i + 1, j, maxAlloc);
      CompareFieldsAfterMatches(Cursor(after, false), SizeT(|e|), e, expected, i + 1, j, rest, maxAlloc);
    } else {
      assert after == rest;
    }
  }

  /** A last field whose length says 1 but whose byte is missing reads as the zero byte, with the fail bit set. */
  lemma ImageFieldTruncated(expected: seq<Bytes>, sizeBuf: Bytes, res: Bytes, maxAlloc: nat)
    requires |expected| == 4 && expected[3] == [0] && 1 <= maxAlloc && |sizeBuf| == SIZE_T_BYTES && res == []
    ensures CompareFields(Cursor(SizeT(1), false), sizeBuf, res, expected, 3, maxAlloc) == AllMatched(true)
  {
    var c3 := Cursor(SizeT(1), false);
    ReadIntoAt(c3, sizeBuf, SizeT(1), []);
    SizeTRoundTrip(1);
    var padded := Resize(res, 1);
    assert padded == [0];
    assert ReadInto(Cursor([], false), padded) == (Cursor([], true), padded) by {
      assert [] + padded[0..] == padded;
    }
    assert ReadSourceField(c3, sizeBuf, res, maxAlloc) == ReadDone(Cursor([], true), SizeT(1), padded);
  }

  /** The file that stops after the image's length is shorter than the full record. */
  lemma TruncatedIsNoPrefix(k: CacheKey)
    requires ImageBytes(k.img) == [0]
    ensures !IsPrefix(EncodeSource(k), FieldsBetween(KeyFields(k), 0, 3) + SizeT(1))
  {
    var fields := KeyFields(k);
    FieldsBetweenSnoc(fields, 0, 3);
    FieldsBetweenIsFields(fields, 0);
    assert fields[0..] == fields;
  }
}
