/**
  What identifies a cached device binary: the device, the input image, the
  specialization constants and the build options; which images may be cached
  at all; and the directory a key is stored under.
*/
module CacheKeys {
  import opened Wrappers
  import opened Framing
  import opened Decimal
  import opened Segments

  /** PiDeviceBinaryType */
  datatype BinaryType = NoneType | Native | Spirv | LlvmIrBitcode

  /** RTDeviceBinaryImage: its format and its raw bytes (None for a null BinaryStart). */
  datatype DeviceImage = DeviceImage(format: BinaryType, rawData: Option<Bytes>)

  /** The bytes between BinaryStart and BinaryEnd; a null image has none. */
  function ImageBytes(img: DeviceImage): Bytes {
    match img.rawData
    case Some(b) => b
    case None => []
  }

  /** Img.getSize() */
  function ImageSize(img: DeviceImage): nat {
    |ImageBytes(img)|
  }

  /** The four device queries the device identity is made from. */
  datatype DeviceInfo = DeviceInfo(platformName: Bytes, deviceName: Bytes, deviceVersion: Bytes, driverVersion: Bytes)

  datatype CacheKey = CacheKey(device: DeviceInfo, img: DeviceImage, specConsts: Bytes, buildOptions: Bytes)

  /**
    The configuration read from the environment: SYCL_CACHE_PERSISTENT,
    INTEL_ENABLE_OFFLOAD_ANNOTATIONS, SYCL_CACHE_MAX_DEVICE_IMAGE_SIZE,
    SYCL_CACHE_MIN_DEVICE_IMAGE_SIZE and SYCL_CACHE_DIR.
  */
  datatype CacheConfig = CacheConfig(
    persistentEnabled: bool,
    offloadAnnotations: bool,
    maxImageSize: nat,
    minImageSize: nat,
    cacheDir: string)

  /** std::hash<std::string>: any function of the string's bytes. */
  type Hasher = Bytes -> nat

  const SLASH: byte := 47

  /** Only SPIR-V and native images are cached. */
  predicate IsSupportedImageFormat(format: BinaryType) {
    format == Spirv || format == Native
  }

  /** A size between the thresholds, where a threshold of 0 sets no bound. */
  predicate WithinThresholds(size: nat, minSize: nat, maxSize: nat) {
    (maxSize == 0 || size <= maxSize) && (minSize == 0 || minSize <= size)
  }

  /** isImageCached */
  predicate IsImageCached(cfg: CacheConfig, img: DeviceImage) {
    if !cfg.persistentEnabled || !IsSupportedImageFormat(img.format) then false
    else if cfg.offloadAnnotations then false
    else if (cfg.maxImageSize != 0 && ImageSize(img) > cfg.maxImageSize)
         || (cfg.minImageSize != 0 && ImageSize(img) < cfg.minImageSize) then false
    else true
  }

  /** An image is cached exactly when all four conditions hold. */
  lemma IsImageCachedIff(cfg: CacheConfig, img: DeviceImage)
    ensures IsImageCached(cfg, img) <==>
      && cfg.persistentEnabled
      && (img.format == Spirv || img.format == Native)
      && !cfg.offloadAnnotations
      && WithinThresholds(ImageSize(img), cfg.minImageSize, cfg.maxImageSize)
  {
  }

  /** With both thresholds 0, the size of an image never matters. */
  lemma ZeroThresholdsAdmitEverySize(cfg: CacheConfig, img: DeviceImage, other: DeviceImage)
    requires cfg.maxImageSize == 0 && cfg.minImageSize == 0 && img.format == other.format
    ensures IsImageCached(cfg, img) == IsImageCached(cfg, other)
  {
  }

  /** getDeviceIDString: platform name, device name, device version and driver version, '/'-joined. */
  function DeviceIdString(d: DeviceInfo): (s: Bytes)
    ensures s == Join([d.platformName, d.deviceName, d.deviceVersion, d.driverVersion], SLASH)
  {
    JoinFour(d.platformName, d.deviceName, d.deviceVersion, d.driverVersion, SLASH);
    d.platformName + [SLASH] + d.deviceName + [SLASH] + d.deviceVersion + [SLASH] + d.driverVersion
  }

  /** When no query result contains '/', the identity splits back into the four of them. */
  lemma DeviceIdStringSplits(d: DeviceInfo)
    requires NoneContains([d.platformName, d.deviceName, d.deviceVersion, d.driverVersion], SLASH)
    ensures Split(DeviceIdString(d), SLASH) == [d.platformName, d.deviceName, d.deviceVersion, d.driverVersion]
  {
    SplitJoin([d.platformName, d.deviceName, d.deviceVersion, d.driverVersion], SLASH);
  }

  /** The image string that is hashed: the raw bytes, or the empty string for a null image. */
  function HashedImage(img: DeviceImage): Bytes {
    if img.rawData.Some? then ImageBytes(img) else []
  }

  /** The four hash segments of a key, in order: device, image, spec constants, build options. */
  function KeySegments(H: Hasher, k: CacheKey): seq<string> {
    [NatToString(H(DeviceIdString(k.device))), NatToString(H(HashedImage(k.img))),
     NatToString(H(k.specConsts)), NatToString(H(k.buildOptions))]
  }

  /** getCacheItemPath */
  function CacheItemPath(root: string, H: Hasher, k: CacheKey): (path: string)
    ensures root == "" <==> path == ""
    ensures root != "" ==> path == root + "/" + Join(KeySegments(H, k), '/')
  {
    if root == "" then ""
    else
      var segs := KeySegments(H, k);
      JoinFour(segs[0], segs[1], segs[2], segs[3], '/');
      assert segs == [segs[0], segs[1], segs[2], segs[3]];
      root + "/" + NatToString(H(DeviceIdString(k.device))) + "/"
        + NatToString(H(HashedImage(k.img))) + "/"
        + NatToString(H(k.specConsts)) + "/"
        + NatToString(H(k.buildOptions))
  }

  lemma DigitsHaveNoSlash(s: string)
    requires AllDigits(s)
    ensures '/' !in s
  {
  }

  lemma KeySegmentsAreDigits(H: Hasher, k: CacheKey)
    ensures |KeySegments(H, k)| == 4
    ensures forall i :: 0 <= i < 4 ==> AllDigits(KeySegments(H, k)[i])
    ensures NoneContains(KeySegments(H, k), '/')
  {
    var segs := KeySegments(H, k);
    forall i | 0 <= i < 4 ensures '/' !in segs[i] {
      DigitsHaveNoSlash(segs[i]);
    }
  }

  /**
    Below the root a path has exactly four '/'-separated segments, each the
    decimal rendering of one hash, in the order device, image, spec constants,
    build options.
  */
  lemma CacheItemPathSegments(root: string, H: Hasher, k: CacheKey)
    requires root != ""
    ensures var path := CacheItemPath(root, H, k);
      && |root| + 1 <= |path| && path[..|root| + 1] == root + "/"
      && var segs := Split(path[|root| + 1..], '/');
      && |segs| == 4 && (forall i :: 0 <= i < 4 ==> AllDigits(segs[i]))
      && DecimalValue(segs[0]) == H(DeviceIdString(k.device))
      && DecimalValue(segs[1]) == H(HashedImage(k.img))
      && DecimalValue(segs[2]) == H(k.specConsts)
      && DecimalValue(segs[3]) == H(k.buildOptions)
  {
    var path := CacheItemPath(root, H, k);
    var segs := KeySegments(H, k);
    KeySegmentsAreDigits(H, k);
    assert path[|root| + 1..] == Join(segs, '/');
    SplitJoin(segs, '/');
    DecimalValueOfNatToString(H(DeviceIdString(k.device)));
    DecimalValueOfNatToString(H(HashedImage(k.img)));
    DecimalValueOfNatToString(H(k.specConsts));
    DecimalValueOfNatToString(H(k.buildOptions));
  }

  /** Under one root, two keys share a directory exactly when all four hashes agree. */
  lemma CacheItemPathInjective(root: string, H: Hasher, k1: CacheKey, k2: CacheKey)
    requires root != ""
    ensures CacheItemPath(root, H, k1) == CacheItemPath(root, H, k2) <==>
      && H(DeviceIdString(k1.device)) == H(DeviceIdString(k2.device))
      && H(HashedImage(k1.img)) == H(HashedImage(k2.img))
      && H(k1.specConsts) == H(k2.specConsts)
      && H(k1.buildOptions) == H(k2.buildOptions)
  {
    var s1, s2 := KeySegments(H, k1), KeySegments(H, k2);
    KeySegmentsAreDigits(H, k1);
    KeySegmentsAreDigits(H, k2);
    if CacheItemPath(root, H, k1) == CacheItemPath(root, H, k2) {
      assert CacheItemPath(root, H, k1)[|root| + 1..] == Join(s1, '/');
      assert CacheItemPath(root, H, k2)[|root| + 1..] == Join(s2, '/');
      JoinInjective(s1, s2, '/');
      assert s1[0] == s2[0] && s1[1] == s2[1] && s1[2] == s2[2] && s1[3] == s2[3];
      NatToStringInjective(H(DeviceIdString(k1.device)), H(DeviceIdString(k2.device)));
      NatToStringInjective(H(HashedImage(k1.img)), H(HashedImage(k2.img)));
      NatToStringInjective(H(k1.specConsts), H(k2.specConsts));
      NatToStringInjective(H(k1.buildOptions), H(k2.buildOptions));
    }
  }

  /** A null image is hashed as the empty string. */
  lemma NullImageHashesEmpty(root: string, H: Hasher, k: CacheKey)
    requires k.img.rawData.None?
    ensures KeySegments(H, k)[1] == NatToString(H([]))
  {
  }
}
