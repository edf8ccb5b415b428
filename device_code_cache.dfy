/**
  The two protocols of the persistent device-code cache over the items of one
  key directory `dir`: item i is the files `dir/i.bin` (the binaries) and
  `dir/i.src` (the key record), guarded by the lock file `dir/i.lock`.
  putItemToDisc stores into the first index without a `.bin`; getItemFromDisc
  probes 0, 1, 2, ... while the item has a `.bin` or a `.src`.
*/
module DeviceCodeCache {
  import opened Wrappers
  import opened Framing
  import opened Decimal
  import opened FileSystems
  import opened CacheKeys
  import opened BinaryCodec
  import opened SourceRecord
  import opened LockItems

  /** `Path + "/" + std::to_string(i)`: the common stem of item i's files. */
  function ItemBase(dir: string, i: nat): string {
    dir + "/" + NatToString(i)
  }

  function BinName(base: string): string { base + ".bin" }

  function SrcName(base: string): string { base + ".src" }

  lemma SuffixCancel(a: string, b: string, s: string, t: string)
    requires |s| == |t| && a + s == b + t
    ensures a == b && s == t
  {
    assert a == (a + s)[..|a|] && b == (b + t)[..|b|];
    assert s == (a + s)[|a|..] && t == (b + t)[|b|..];
  }

  /** Different indices have different stems. */
  lemma ItemBaseInjective(dir: string, i: nat, j: nat)
    ensures ItemBase(dir, i) == ItemBase(dir, j) <==> i == j
  {
    if ItemBase(dir, i) == ItemBase(dir, j) {
      var n := |dir + "/"|;
      assert ItemBase(dir, i)[n..] == NatToString(i);
      assert ItemBase(dir, j)[n..] == NatToString(j);
      NatToStringInjective(i, j);
    }
  }

  /** The `.bin`, `.src` and `.lock` names of the items are all distinct, and none of them is the directory. */
  lemma ItemNamesDistinct(dir: string, i: nat, j: nat)
    ensures BinName(ItemBase(dir, i)) == BinName(ItemBase(dir, j)) ==> i == j
    ensures SrcName(ItemBase(dir, i)) == SrcName(ItemBase(dir, j)) ==> i == j
    ensures BinName(ItemBase(dir, i)) != SrcName(ItemBase(dir, j))
    ensures BinName(ItemBase(dir, i)) != LockFileName(ItemBase(dir, j))
    ensures SrcName(ItemBase(dir, i)) != LockFileName(ItemBase(dir, j))
    ensures LockFileName(ItemBase(dir, i)) == LockFileName(ItemBase(dir, j)) ==> i == j
    ensures BinName(ItemBase(dir, i)) != dir && SrcName(ItemBase(dir, i)) != dir
    ensures LockFileName(ItemBase(dir, i)) != dir
  {
    var bi, bj := ItemBase(dir, i), ItemBase(dir, j);
    // The names end in different letters.
    assert BinName(bi)[|BinName(bi)| - 1] == 'n';
    assert SrcName(bi)[|SrcName(bi)| - 1] == 'c';
    assert SrcName(bj)[|SrcName(bj)| - 1] == 'c';
    assert LockFileName(bj)[|LockFileName(bj)| - 1] == 'k';
    if BinName(bi) == BinName(bj) {
      SuffixCancel(bi, bj, ".bin", ".bin");
      ItemBaseInjective(dir, i, j);
    }
    if SrcName(bi) == SrcName(bj) {
      SuffixCancel(bi, bj, ".src", ".src");
      ItemBaseInjective(dir, i, j);
    }
    if LockFileName(bi) == LockFileName(bj) {
      SuffixCancel(bi, bj, ".lock", ".lock");
      ItemBaseInjective(dir, i, j);
    }
  }

  /** Item i has a `.bin` or a `.src`: the probe loop of getItemFromDisc goes on. */
  predicate Occupied(files: map<string, Bytes>, dirs: set<string>, dir: string, i: nat) {
    PathPresent(files, dirs, BinName(ItemBase(dir, i))) || PathPresent(files, dirs, SrcName(ItemBase(dir, i)))
  }

  predicate OccupiedBelow(files: map<string, Bytes>, dirs: set<string>, dir: string, n: nat) {
    forall j: nat :: j < n ==> Occupied(files, dirs, dir, j)
  }

  /** A path that witnesses that item j is occupied. */
  function OccupantOf(files: map<string, Bytes>, dirs: set<string>, dir: string, j: nat): string {
    if PathPresent(files, dirs, BinName(ItemBase(dir, j))) then BinName(ItemBase(dir, j)) else SrcName(ItemBase(dir, j))
  }

  /**
    There are only finitely many paths, so only finitely many items can be
    occupied one after the other: both probe loops end.
  */
  lemma OccupiedBound(files: map<string, Bytes>, dirs: set<string>, dir: string, n: nat)
    requires OccupiedBelow(files, dirs, dir, n)
    ensures n <= |files.Keys + dirs|
  {
    forall j: nat | j < n
      ensures OccupantOf(files, dirs, dir, j) in files.Keys + dirs
    {
      assert Occupied(files, dirs, dir, j);
    }
    OccupantsBound(files, dirs, dir, n, files.Keys + dirs);
  }

  lemma {:induction false} OccupantsBound(files: map<string, Bytes>, dirs: set<string>, dir: string, n: nat, paths: set<string>)
    requires forall j: nat :: j < n ==> OccupantOf(files, dirs, dir, j) in paths
    ensures n <= |paths|
  {
    if n > 0 {
      var last := OccupantOf(files, dirs, dir, n - 1);
      assert last in paths;
      forall j: nat | j < n - 1
        ensures OccupantOf(files, dirs, dir, j) in paths - {last}
      {
        OccupantsDiffer(files, dirs, dir, j, n - 1);
      }
      OccupantsBound(files, dirs, dir, n - 1, paths - {last});
      assert |paths - {last}| == |paths| - 1;
    }
  }

  lemma OccupantsDiffer(files: map<string, Bytes>, dirs: set<string>, dir: string, i: nat, j: nat)
    requires i != j
    ensures OccupantOf(files, dirs, dir, i) != OccupantOf(files, dirs, dir, j)
  {
    ItemNamesDistinct(dir, i, j);
    ItemNamesDistinct(dir, j, i);
  }

  lemma MoreOccupied(files: map<string, Bytes>, dirs: set<string>, dir: string, i: nat)
    requires OccupiedBelow(files, dirs, dir, i) && Occupied(files, dirs, dir, i)
    ensures OccupiedBelow(files, dirs, dir, i + 1) && i + 1 <= |files.Keys + dirs|
  {
    OccupiedBound(files, dirs, dir, i + 1);
  }

  /** The outcome of getItemFromDisc: the binaries it returns, or the exception it lets escape. */
  datatype FetchOutcome = Fetched(blobs: seq<Bytes>) | FetchThrew

  /**
    The probe loop of getItemFromDisc from index i: a locked item or one whose
    record differs is skipped; for a matching one a read that throws moves on
    and one that returns ends the fetch. The record comparison is called
    outside the try, so its exception escapes.
  */
  function FetchFrom(files: map<string, Bytes>, dirs: set<string>, dir: string, k: CacheKey, maxAlloc: nat, cmp: Comparator, i: nat): FetchOutcome
    requires OccupiedBelow(files, dirs, dir, i)
    decreases |files.Keys + dirs| - i
  {
    if !Occupied(files, dirs, dir, i) then Fetched([])
    else
      MoreOccupied(files, dirs, dir, i);
      var base := ItemBase(dir, i);
      if IsLocked(files, dirs, base) then FetchFrom(files, dirs, dir, k, maxAlloc, cmp, i + 1)
      else
        match SrcCompare(cmp, FileAt(files, SrcName(base)), k, maxAlloc)
        case SrcThrew => FetchThrew
        case SrcCompared(equal) =>
          if !equal then FetchFrom(files, dirs, dir, k, maxAlloc, cmp, i + 1)
          else
            match ReadBinary(FileAt(files, BinName(base)), maxAlloc)
            case Threw => FetchFrom(files, dirs, dir, k, maxAlloc, cmp, i + 1)
            case Returned(blobs) => Fetched(blobs)
  }

  /** getItemFromDisc on the file system `files`/`dirs`. */
  function FetchItem(files: map<string, Bytes>, dirs: set<string>, cfg: CacheConfig, H: Hasher, k: CacheKey, maxAlloc: nat, cmp: Comparator): FetchOutcome {
    if !IsImageCached(cfg, k.img) then Fetched([])
    else
      var dir := CacheItemPath(cfg.cacheDir, H, k);
      if dir == "" || !PathPresent(files, dirs, dir) then Fetched([])
      else FetchFrom(files, dirs, dir, k, maxAlloc, cmp, 0)
  }

  /** getItemFromDisc */
  method GetItemFromDisc(fs: FileSystem, cfg: CacheConfig, H: Hasher, k: CacheKey, maxAlloc: nat, cmp: Comparator) returns (r: FetchOutcome)
    ensures r == FetchItem(fs.files, fs.dirs, cfg, H, k, maxAlloc, cmp)
  {
    if !IsImageCached(cfg, k.img) {
      return Fetched([]);
    }
    var path := CacheItemPath(cfg.cacheDir, H, k);
    if path == "" || !fs.IsPathPresent(path) {
      return Fetched([]);
    }
    var i := 0;
    var fileName := ItemBase(path, i);
    while fs.IsPathPresent(BinName(fileName)) || fs.IsPathPresent(SrcName(fileName))
      invariant fileName == ItemBase(path, i)
      invariant OccupiedBelow(fs.files, fs.dirs, path, i)
      invariant FetchFrom(fs.files, fs.dirs, path, k, maxAlloc, cmp, i) == FetchItem(fs.files, fs.dirs, cfg, H, k, maxAlloc, cmp)
      decreases |fs.files.Keys + fs.dirs| - i
    {
      MoreOccupied(fs.files, fs.dirs, path, i);
      if !IsLocked(fs.files, fs.dirs, fileName) {
        var same := SrcCompare(cmp, fs.Contents(SrcName(fileName)), k, maxAlloc);
        if same.SrcThrew? {
          return FetchThrew;
        }
        if same.equal {
          var res := ReadBinaryDataFromFile(fs, BinName(fileName), maxAlloc);
          if res.Returned? {
            return Fetched(res.blobs);
          }
        }
      }
      i := i + 1;
      fileName := ItemBase(path, i);
    }
    return Fetched([]);
  }

  /** Index i is the smallest without a `.bin`: where putItemToDisc stores. */
  predicate FirstFree(files: map<string, Bytes>, dirs: set<string>, dir: string, i: nat) {
    && !PathPresent(files, dirs, BinName(ItemBase(dir, i)))
    && forall j: nat :: j < i ==> PathPresent(files, dirs, BinName(ItemBase(dir, j)))
  }

  /**
    putItemToDisc, given the device binaries of the built program. It does
    nothing for an image that is not cached or without a cache root;
    otherwise it creates the key directory, locks the first index without a
    `.bin` and, only if it owns that lock, writes the `.bin` and then the
    `.src`, and releases the lock. `slot` is that index.
  */
  method PutItemToDisc(fs: FileSystem, cfg: CacheConfig, H: Hasher, k: CacheKey, blobs: seq<Bytes>)
    returns (ghost slot: Option<nat>)
    modifies fs
    ensures slot.None? <==> !IsImageCached(cfg, k.img) || CacheItemPath(cfg.cacheDir, H, k) == ""
    ensures slot.None? ==> fs.files == old(fs.files) && fs.dirs == old(fs.dirs)
    ensures slot.Some? ==>
      var dir := CacheItemPath(cfg.cacheDir, H, k);
      var base := ItemBase(dir, slot.value);
      && FirstFree(old(fs.files), old(fs.dirs), dir, slot.value)
      && fs.dirs == old(fs.dirs) + {dir}
      && fs.files == if IsLocked(old(fs.files), old(fs.dirs), base) then old(fs.files)
                     else old(fs.files)[BinName(base) := EncodeBinary(blobs)][SrcName(base) := EncodeSource(k)]
  {
    if !IsImageCached(cfg, k.img) {
      return None;
    }
    var dirName := CacheItemPath(cfg.cacheDir, H, k);
    if dirName == "" {
      return None;
    }
    var i := FindFreeIndex(fs, dirName);
    var fileName := ItemBase(dirName, i);
    slot := Some(i);
    ItemNamesDistinct(dirName, i, i);
    StoreUnderLock(fs, dirName, fileName, k, blobs);
  }

  /** The do-while loop of putItemToDisc: the first index whose `.bin` does not exist. */
  method FindFreeIndex(fs: FileSystem, dirName: string) returns (i: nat)
    ensures FirstFree(fs.files, fs.dirs, dirName, i)
  {
    i := 0;
    var fileName := ItemBase(dirName, i);
    i := i + 1;
    while fs.IsPathPresent(BinName(fileName))
      invariant i >= 1 && fileName == ItemBase(dirName, i - 1)
      invariant forall j: nat :: j < i - 1 ==> PathPresent(fs.files, fs.dirs, BinName(ItemBase(dirName, j)))
      decreases |fs.files.Keys + fs.dirs| - i
    {
      assert OccupiedBelow(fs.files, fs.dirs, dirName, i);
      OccupiedBound(fs.files, fs.dirs, dirName, i);
      fileName := ItemBase(dirName, i);
      i := i + 1;
    }
    i := i - 1;
  }

  /**
    The try block of putItemToDisc: create the key directory, take the
    item's lock and, only when it is owned, write the `.bin` and then the
    `.src`; the lock is released when it goes out of scope.
  */
  method StoreUnderLock(fs: FileSystem, dirName: string, fileName: string, k: CacheKey, blobs: seq<Bytes>)
    requires LockFileName(fileName) != dirName
    requires LockFileName(fileName) != BinName(fileName) && LockFileName(fileName) != SrcName(fileName)
    modifies fs
    ensures fs.dirs == old(fs.dirs) + {dirName}
    ensures fs.files == if IsLocked(old(fs.files), old(fs.dirs), fileName) then old(fs.files)
                        else old(fs.files)[BinName(fileName) := EncodeBinary(blobs)][SrcName(fileName) := EncodeSource(k)]
  {
    ghost var files0, dirs0 := fs.files, fs.dirs;
    fs.MakeDir(dirName);
    var lock := new LockCacheItem(fs, fileName);
    ghost var locked := IsLocked(files0, dirs0, fileName);
    assert lock.owned == !locked;
    if lock.IsOwned() {
      WriteBinaryDataToFile(fs, BinName(fileName), blobs);
      WriteSourceItem(fs, SrcName(fileName), k);
    }
    lock.Release();
    if !locked {
      ReleaseKeepsItem(files0, LockFileName(fileName), BinName(fileName), SrcName(fileName), EncodeBinary(blobs), EncodeSource(k));
    }
  }

  /** Removing the lock file again leaves just the two item files added. */
  lemma ReleaseKeepsItem(files: map<string, Bytes>, lock: string, bin: string, src: string, binData: Bytes, srcData: Bytes)
    requires lock !in files && lock != bin && lock != src
    ensures files[lock := []][bin := binData][src := srcData] - {lock} == files[bin := binData][src := srcData]
  {
  }

  /**
    Round trip: once putItemToDisc has stored into index 0 of a key whose
    directory held no item 0 and no lock for it, getItemFromDisc for the same
    key returns the stored binaries, provided their allocations succeed.
    This holds with either comparison of the record.
  */
  lemma FetchAfterStore(files: map<string, Bytes>, dirs: set<string>, cfg: CacheConfig, H: Hasher, k: CacheKey,
                        blobs: seq<Bytes>, maxAlloc: nat, cmp: Comparator)
    requires IsImageCached(cfg, k.img) && CacheItemPath(cfg.cacheDir, H, k) != ""
    requires var base := ItemBase(CacheItemPath(cfg.cacheDir, H, k), 0);
      !PathPresent(files, dirs, BinName(base)) && !PathPresent(files, dirs, LockFileName(base))
    requires KeyEncodable(k) && AllFit(KeyFields(k), maxAlloc)
    requires Encodable(blobs) && |blobs| <= maxAlloc && AllFit(blobs, maxAlloc)
    ensures var dir := CacheItemPath(cfg.cacheDir, H, k);
      var base := ItemBase(dir, 0);
      FetchItem(files[BinName(base) := EncodeBinary(blobs)][SrcName(base) := EncodeSource(k)], dirs + {dir}, cfg, H, k, maxAlloc, cmp)
        == Fetched(blobs)
  {
    var dir := CacheItemPath(cfg.cacheDir, H, k);
    var base := ItemBase(dir, 0);
    var files' := files[BinName(base) := EncodeBinary(blobs)][SrcName(base) := EncodeSource(k)];
    var dirs' := dirs + {dir};
    ItemNamesDistinct(dir, 0, 0);
    assert !IsLocked(files', dirs', base);
    assert FileAt(files', SrcName(base)) == Some(EncodeSource(k));
    assert FileAt(files', BinName(base)) == Some(EncodeBinary(blobs));
    FetchFirstMatch(files', dirs', dir, k, maxAlloc, cmp, 0, blobs);
  }

  /**
    First match: when every item before j is locked or has a record that
    does not match, and item j is unlocked and holds what putItemToDisc
    writes for `k` and `blobs`, the scan from 0 returns exactly `blobs`.
  */
  lemma FetchFirstMatch(files: map<string, Bytes>, dirs: set<string>, dir: string, k: CacheKey, maxAlloc: nat,
                        cmp: Comparator, j: nat, blobs: seq<Bytes>)
    requires OccupiedBelow(files, dirs, dir, j)
    requires forall i: nat :: i < j ==> Skipped(files, dirs, dir, k, maxAlloc, cmp, i)
    requires var base := ItemBase(dir, j);
      && !IsLocked(files, dirs, base)
      && FileAt(files, SrcName(base)) == Some(EncodeSource(k))
      && FileAt(files, BinName(base)) == Some(EncodeBinary(blobs))
    requires KeyEncodable(k) && AllFit(KeyFields(k), maxAlloc)
    requires Encodable(blobs) && |blobs| <= maxAlloc && AllFit(blobs, maxAlloc)
    ensures FetchFrom(files, dirs, dir, k, maxAlloc, cmp, 0) == Fetched(blobs)
  {
    var base := ItemBase(dir, j);
    assert EncodeSource(k) + [] == EncodeSource(k) && EncodeBinary(blobs) + [] == EncodeBinary(blobs);
    SrcEqualAfterWrite(k, [], maxAlloc);
    assert SrcCompare(cmp, FileAt(files, SrcName(base)), k, maxAlloc) == SrcCompared(true);
    ReadBinaryOfEncoding(blobs, [], maxAlloc);
    assert ReadBinary(FileAt(files, BinName(base)), maxAlloc) == Returned(blobs);
    assert Occupied(files, dirs, dir, j);
    assert FetchFrom(files, dirs, dir, k, maxAlloc, cmp, j) == Fetched(blobs);
    SkipTo(files, dirs, dir, k, maxAlloc, cmp, 0, j);
  }

  /** Item i is passed over by the scan: it is locked, or its record compares unequal. */
  predicate Skipped(files: map<string, Bytes>, dirs: set<string>, dir: string, k: CacheKey, maxAlloc: nat, cmp: Comparator, i: nat) {
    || IsLocked(files, dirs, ItemBase(dir, i))
    || SrcCompare(cmp, FileAt(files, SrcName(ItemBase(dir, i))), k, maxAlloc) == SrcCompared(false)
  }

  /** A run of occupied items that are all passed over leads the scan from i to j. */
  lemma {:induction false} SkipTo(files: map<string, Bytes>, dirs: set<string>, dir: string, k: CacheKey, maxAlloc: nat,
                                  cmp: Comparator, i: nat, j: nat)
    requires i <= j && OccupiedBelow(files, dirs, dir, j)
    requires forall n: nat :: i <= n < j ==> Skipped(files, dirs, dir, k, maxAlloc, cmp, n)
    ensures OccupiedBelow(files, dirs, dir, i)
    ensures FetchFrom(files, dirs, dir, k, maxAlloc, cmp, i) == FetchFrom(files, dirs, dir, k, maxAlloc, cmp, j)
    decreases j - i
  {
    if i < j {
      assert Occupied(files, dirs, dir, i) && Skipped(files, dirs, dir, k, maxAlloc, cmp, i);
      SkipTo(files, dirs, dir, k, maxAlloc, cmp, i + 1, j);
    }
  }

  /**
    No false hits: binaries that a fetch with the corrected comparison
    returns, unless none, come from an unlocked item i whose `.src` starts
    with exactly the key's record and whose `.bin` starts with exactly their
    encoding.
  */
  lemma {:induction false} FetchFromSound(files: map<string, Bytes>, dirs: set<string>, dir: string, k: CacheKey, maxAlloc: nat, i: nat)
    requires OccupiedBelow(files, dirs, dir, i)
    ensures var r := FetchFrom(files, dirs, dir, k, maxAlloc, Corrected, i);
      r.Fetched? && r.blobs != [] ==>
        exists j: nat :: j >= i && StoredItem(files, dirs, ItemBase(dir, j), k, r.blobs)
    decreases |files.Keys + dirs| - i
  {
    if Occupied(files, dirs, dir, i) {
      MoreOccupied(files, dirs, dir, i);
      var base := ItemBase(dir, i);
      var r := FetchFrom(files, dirs, dir, k, maxAlloc, Corrected, i);
      FetchFromSound(files, dirs, dir, k, maxAlloc, i + 1);
      if !IsLocked(files, dirs, base) {
        var src := FileAt(files, SrcName(base));
        if IsCacheItemSrcEqual(src, k, maxAlloc) == SrcCompared(true) {
          var bin := FileAt(files, BinName(base));
          if ReadBinary(bin, maxAlloc).Returned? {
            SrcEqualOnlyForExactRecord(src, k, maxAlloc);
            ReadBinaryReturnsWholeEncoding(bin, maxAlloc);
            if r.Fetched? && r.blobs != [] {
              assert StoredItem(files, dirs, base, k, r.blobs);
            }
          }
        }
      }
    }
  }

  /** The item at `base` is unlocked and holds the record of `k` and the encoding of `blobs`. */
  predicate StoredItem(files: map<string, Bytes>, dirs: set<string>, base: string, k: CacheKey, blobs: seq<Bytes>) {
    && !IsLocked(files, dirs, base)
    && SrcName(base) in files && IsPrefix(EncodeSource(k), files[SrcName(base)])
    && BinName(base) in files && Encodable(blobs) && IsPrefix(EncodeBinary(blobs), files[BinName(base)])
  }

  /** No false hits, for the whole of getItemFromDisc with the corrected comparison. */
  lemma FetchSound(files: map<string, Bytes>, dirs: set<string>, cfg: CacheConfig, H: Hasher, k: CacheKey, maxAlloc: nat)
    ensures var r := FetchItem(files, dirs, cfg, H, k, maxAlloc, Corrected);
      r.Fetched? && r.blobs != [] ==>
        && IsImageCached(cfg, k.img)
        && exists j: nat :: StoredItem(files, dirs, ItemBase(CacheItemPath(cfg.cacheDir, H, k), j), k, r.blobs)
  {
    if IsImageCached(cfg, k.img) {
      var dir := CacheItemPath(cfg.cacheDir, H, k);
      if dir != "" && PathPresent(files, dirs, dir) {
        FetchFromSound(files, dirs, dir, k, maxAlloc, 0);
      }
    }
  }

  /**
    getItemFromDisc as written has false hits: when item 0's `.src` is the
    key's record cut off after the length of a one-byte image, the scan with
    the comparison as written returns item 0's binaries, although no item
    holds the key's record; with the corrected comparison it finds nothing.
  */
  lemma AsWrittenFetchFalseHit(dir: string, k: CacheKey, maxAlloc: nat, blobs: seq<Bytes>)
    requires KeyEncodable(k) && AllFit(KeyFields(k), maxAlloc)
    requires ImageBytes(k.img) == [0] && k.specConsts == []
    requires Encodable(blobs) && |blobs| <= maxAlloc && AllFit(blobs, maxAlloc) && blobs != []
    ensures var base := ItemBase(dir, 0);
      var files := map[BinName(base) := EncodeBinary(blobs), SrcName(base) := FieldsBetween(KeyFields(k), 0, 3) + SizeT(1)];
      && FetchFrom(files, {}, dir, k, maxAlloc, AsWritten, 0) == Fetched(blobs)
      && FetchFrom(files, {}, dir, k, maxAlloc, Corrected, 0) == Fetched([])
      && forall j: nat :: !StoredItem(files, {}, ItemBase(dir, j), k, blobs)
  {
    var base := ItemBase(dir, 0);
    var truncated := FieldsBetween(KeyFields(k), 0, 3) + SizeT(1);
    AsWrittenAcceptsTruncatedRecord(k, maxAlloc);
    assert EncodeBinary(blobs) + [] == EncodeBinary(blobs);
    ReadBinaryOfEncoding(blobs, [], maxAlloc);
    FetchSingleItem(dir, k, maxAlloc, AsWritten, EncodeBinary(blobs), truncated);
    FetchSingleItem(dir, k, maxAlloc, Corrected, EncodeBinary(blobs), truncated);
    SingleItem(dir, EncodeBinary(blobs), truncated);
    TruncatedIsNoPrefix(k);
  }

  /** The scan of a directory holding only item 0 looks at that item alone. */
  lemma FetchSingleItem(dir: string, k: CacheKey, maxAlloc: nat, cmp: Comparator, bin: Bytes, src: Bytes)
    ensures var base := ItemBase(dir, 0);
      var files := map[BinName(base) := bin, SrcName(base) := src];
      FetchFrom(files, {}, dir, k, maxAlloc, cmp, 0) ==
        match SrcCompare(cmp, Some(src), k, maxAlloc)
        case SrcThrew => FetchThrew
        case SrcCompared(equal) =>
          if !equal then Fetched([])
          else match ReadBinary(Some(bin), maxAlloc)
            case Threw => Fetched([])
            case Returned(blobs) => Fetched(blobs)
  {
    var base := ItemBase(dir, 0);
    var files := map[BinName(base) := bin, SrcName(base) := src];
    SingleItem(dir, bin, src);
    assert FetchFrom(files, {}, dir, k, maxAlloc, cmp, 1) == Fetched([]);
  }

  /** A directory holding only item 0 occupies index 0 and no other, and item 0 is unlocked. */
  lemma SingleItem(dir: string, bin: Bytes, src: Bytes)
    ensures var base := ItemBase(dir, 0);
      var files := map[BinName(base) := bin, SrcName(base) := src];
      && Occupied(files, {}, dir, 0) && !Occupied(files, {}, dir, 1) && !IsLocked(files, {}, base)
      && FileAt(files, BinName(base)) == Some(bin) && FileAt(files, SrcName(base)) == Some(src)
      && forall j: nat :: j != 0 ==> SrcName(ItemBase(dir, j)) !in files
  {
    var base := ItemBase(dir, 0);
    var files := map[BinName(base) := bin, SrcName(base) := src];
    ItemNamesDistinct(dir, 0, 0);
    forall j: nat | j != 0 ensures SrcName(ItemBase(dir, j)) !in files {
      ItemNamesDistinct(dir, j, 0);
      ItemNamesDistinct(dir, 0, j);
    }
    ItemNamesDistinct(dir, 1, 0);
    ItemNamesDistinct(dir, 0, 1);
  }

  /**
    A matching item whose read returns without throwing ends the fetch even
    when the read failed: an item with a matching `.src` but no `.bin` yields
    no binaries, and later items are not looked at.
  */
  lemma MissingBinaryEndsFetch(files: map<string, Bytes>, dirs: set<string>, dir: string, k: CacheKey, maxAlloc: nat,
                               cmp: Comparator, i: nat)
    requires OccupiedBelow(files, dirs, dir, i)
    requires var base := ItemBase(dir, i);
      && !IsLocked(files, dirs, base) && BinName(base) !in files && BinName(base) !in dirs
      && SrcCompare(cmp, FileAt(files, SrcName(base)), k, maxAlloc) == SrcCompared(true)
    ensures FetchFrom(files, dirs, dir, k, maxAlloc, cmp, i) == Fetched([])
  {
    var base := ItemBase(dir, i);
    SrcMissingUnequal(k, maxAlloc);
    assert Occupied(files, dirs, dir, i);
    ReadBinaryMissingFile(maxAlloc);
  }
}
