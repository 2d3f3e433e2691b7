/** What a release holds and when there is one, from its request, its packages and the manifest before. */
module ReleaseContents {
  import opened Common
  import opened ReleaseVersions
  import opened ReleaseChain

  // ---------------------------------------------------------------- what a platform needs

  function ChecksummedNames(r: Release, p: Platform): seq<string> {
    match p
    case Linux => [DebName(r.version), RpmName(r.version)]
    case MacOS => [CoreZipName(r.version)]
    case Android => [ApkName(r.version, r.androidCode)]
    case Windows => [ExeName(r.version)]
  }

  function OtherNames(r: Release, p: Platform): seq<string> {
    if p.MacOS? then [DmgName(r.version), IntelDmgName(r.version), FEED, INTEL_FEED] else []
  }

  predicate Needs(r: Release, p: Platform, name: string) {
    name in ChecksummedNames(r, p) || name in OtherNames(r, p)
  }

  /** Everything a selected platform needs is there: its packages, the matching checksums of those that
      have one, and the build metadata. */
  predicate Complete(r: Release, p: Platform) {
    && (forall name | name in ChecksummedNames(r, p) :: name in r.packages && name in r.verified)
    && (forall name | name in OtherNames(r, p) :: name in r.packages)
    && (p.Linux? || p in r.metadataOk)
  }

  /** The files of one platform. */
  function FilesOf(r: Release, p: Platform): Option<seq<File>> {
    match p
    case Linux => LinuxFiles(r)
    case MacOS => MacFiles(r)
    case Android => AndroidFiles(r)
    case Windows => WindowsFiles(r)
  }

  ghost predicate AreTheNeeded(r: Release, p: Platform, files: seq<File>) {
    forall f: File :: f in files <==> Needs(r, p, f.name) && f.name in r.packages && f.digest == r.packages[f.name]
  }

  lemma FilesOfIff(r: Release, p: Platform)
    ensures FilesOf(r, p).Some? <==> Complete(r, p)
  {
    match p {
      case Linux =>
        var names := ChecksummedNames(r, p);
        assert names[0] == DebName(r.version) && names[1] == RpmName(r.version);
      case MacOS => MacFilesIff(r);
      case Android => assert ChecksummedNames(r, p)[0] == ApkName(r.version, r.androidCode);
      case Windows => assert ChecksummedNames(r, p)[0] == ExeName(r.version);
    }
  }

  lemma MacFilesIff(r: Release)
    ensures MacFiles(r).Some? <==> Complete(r, MacOS)
  {
    assert ChecksummedNames(r, MacOS)[0] == CoreZipName(r.version);
    var others := OtherNames(r, MacOS);
    assert others[0] == DmgName(r.version) && others[1] == IntelDmgName(r.version)
        && others[2] == FEED && others[3] == INTEL_FEED;
  }

  lemma MacFilesAre(r: Release)
    requires MacFiles(r).Some?
    ensures AreTheNeeded(r, MacOS, MacFiles(r).value)
  {
    var files := MacFiles(r).value;
    assert files[0].name == DmgName(r.version) && files[1].name == IntelDmgName(r.version)
        && files[2].name == FEED && files[3].name == INTEL_FEED && files[4].name == CoreZipName(r.version);
    assert |files| == 5;
    forall f: File
      ensures f in files <==> Needs(r, MacOS, f.name) && f.name in r.packages && f.digest == r.packages[f.name]
    {
      assert f in files ==> f in [files[0], files[1], files[2], files[3], files[4]];
    }
  }

  lemma FilesOfAre(r: Release, p: Platform)
    requires FilesOf(r, p).Some?
    ensures AreTheNeeded(r, p, FilesOf(r, p).value)
  {
    match p {
      case MacOS => MacFilesAre(r);
      case Linux =>
        var files := FilesOf(r, p).value;
        assert files[0].name == DebName(r.version) && files[1].name == RpmName(r.version);
      case Android => assert FilesOf(r, p).value[0].name == ApkName(r.version, r.androidCode);
      case Windows => assert FilesOf(r, p).value[0].name == ExeName(r.version);
    }
  }

  // ---------------------------------------------------------------- carried feeds

  /** The manifest lists one file of that name, at position i, and the file beside it still matches. */
  ghost predicate ListedAt(m: Manifest, dir: map<string, Digest>, name: string, i: int) {
    && 0 <= i < |m.files| && m.files[i].name == name && name in dir && dir[name] == m.files[i].digest
    && forall j | 0 <= j < |m.files| && m.files[j].name == name :: j == i
  }

  ghost predicate Unlisted(m: Manifest, name: string) {
    forall f | f in m.files :: f.name != name
  }

  /** A feed can be carried over: it is listed once and intact, or not listed and not required. */
  ghost predicate Carries(m: Manifest, dir: map<string, Digest>, name: string, required: bool) {
    (exists i: int :: ListedAt(m, dir, name, i)) || (Unlisted(m, name) && !required)
  }

  lemma {:induction false} NamedOnce(files: seq<File>, name: string)
    ensures Named(files, name) == [] <==> forall f | f in files :: f.name != name
    ensures |Named(files, name)| == 1 ==>
      exists i | 0 <= i < |files| :: files[i].name == name && Named(files, name) == [files[i]]
        && forall j | 0 <= j < |files| && files[j].name == name :: j == i
  {
    if files != [] {
      NamedOnce(files[1..], name);
      assert files == [files[0]] + files[1..];
      if |Named(files, name)| == 1 {
        if files[0].name == name {
          assert Named(files, name) == [files[0]];
          forall j | 0 < j < |files| ensures files[j].name != name {
            assert files[j] in files[1..];
          }
        } else {
          var i :| 0 <= i < |files[1..]| && files[1..][i].name == name && Named(files[1..], name) == [files[1..][i]]
            && forall j | 0 <= j < |files[1..]| && files[1..][j].name == name :: j == i;
          assert files[i + 1] == files[1..][i];
          forall j | 0 <= j < |files| && files[j].name == name ensures j == i + 1 {
            assert j > 0 && files[1..][j - 1] == files[j];
          }
        }
      }
    }
  }

  lemma {:induction false} NamedSingle(files: seq<File>, name: string, i: nat)
    requires i < |files| && files[i].name == name
    requires forall j | 0 <= j < |files| && files[j].name == name :: j == i
    ensures Named(files, name) == [files[i]]
  {
    if i == 0 {
      NamedNone(files[1..], name);
    } else {
      forall j | 0 <= j < |files[1..]| && files[1..][j].name == name ensures j == i - 1 {
        assert files[j + 1].name == name;
      }
      NamedSingle(files[1..], name, i - 1);
    }
  }

  /** Carrying a feed succeeds exactly then, with the file of the manifest before. */
  lemma CarryFeedIff(m: Manifest, dir: map<string, Digest>, name: string, required: bool)
    ensures CarryFeed(m, dir, name, required).Some? <==> Carries(m, dir, name, required)
    ensures Unlisted(m, name) && !required ==> CarryFeed(m, dir, name, required) == Some([])
    ensures forall i: int | ListedAt(m, dir, name, i) :: CarryFeed(m, dir, name, required) == Some([m.files[i]])
  {
    NamedOnce(m.files, name);
    forall i: int | ListedAt(m, dir, name, i) ensures CarryFeed(m, dir, name, required) == Some([m.files[i]]) {
      NamedSingle(m.files, name, i);
    }
    if CarryFeed(m, dir, name, required).Some? && Named(m.files, name) != [] {
      var i :| 0 <= i < |m.files| && m.files[i].name == name && Named(m.files, name) == [m.files[i]]
        && forall j | 0 <= j < |m.files| && m.files[j].name == name :: j == i;
      assert ListedAt(m, dir, name, i);
    }
  }

  predicate OffersIntel(downloads: Downloads) {
    MacOS in downloads && exists f | f in downloads[MacOS].files :: EndsWith(f.name, INTEL)
  }

  lemma IntelOfferedIff(downloads: Downloads)
    ensures IntelOffered(downloads) <==> OffersIntel(downloads)
  {
    if MacOS in downloads {
      CountNone(downloads[MacOS].files, INTEL);
    }
  }

  /** Without macOS among the selected platforms its feeds come from the manifest before. */
  ghost predicate FeedsCarry(r: Release, previous: Option<Manifest>, downloads: Downloads) {
    MacOS !in r.selected && previous.Some? ==>
      && Carries(previous.value, r.previousDir, FEED, MacOS in downloads)
      && Carries(previous.value, r.previousDir, INTEL_FEED, OffersIntel(downloads))
  }

  ghost predicate IsCarried(r: Release, previous: Option<Manifest>, f: File) {
    && MacOS !in r.selected && previous.Some? && f in previous.value.files && f.name in {FEED, INTEL_FEED}
    && f.name in r.previousDir && r.previousDir[f.name] == f.digest
  }

  // ---------------------------------------------------------------- the payloads

  ghost predicate IsPackage(r: Release, f: File) {
    (exists p | p in r.selected :: Needs(r, p, f.name)) && f.name in r.packages && f.digest == r.packages[f.name]
  }

  lemma MacPartIff(r: Release, previous: Option<Manifest>, downloads: Downloads)
    ensures MacPart(r, previous, downloads).Some? <==>
      FeedsCarry(r, previous, downloads) && (MacOS in r.selected ==> Complete(r, MacOS))
  {
    FilesOfIff(r, MacOS);
    IntelOfferedIff(downloads);
    if previous.Some? {
      CarryFeedIff(previous.value, r.previousDir, FEED, MacOS in downloads);
      CarryFeedIff(previous.value, r.previousDir, INTEL_FEED, IntelOffered(downloads));
    }
  }

  lemma PayloadsIff(r: Release, previous: Option<Manifest>, downloads: Downloads)
    ensures Payloads(r, previous, downloads).Some? <==>
      FeedsCarry(r, previous, downloads) && forall p | p in r.selected :: Complete(r, p)
  {
    MacPartIff(r, previous, downloads);
    FilesOfIff(r, Linux);
    FilesOfIff(r, Android);
    FilesOfIff(r, Windows);
  }

  lemma CarriedOne(m: Manifest, dir: map<string, Digest>, name: string, required: bool, f: File)
    requires CarryFeed(m, dir, name, required).Some?
    ensures f in CarryFeed(m, dir, name, required).value <==>
      f in m.files && f.name == name && name in dir && dir[name] == f.digest
  {
    CarryFeedIff(m, dir, name, required);
  }

  lemma MacPartHolds(r: Release, previous: Option<Manifest>, downloads: Downloads, f: File)
    requires MacPart(r, previous, downloads).Some?
    ensures f in MacPart(r, previous, downloads).value <==>
      if MacOS in r.selected then Needs(r, MacOS, f.name) && f.name in r.packages && f.digest == r.packages[f.name]
      else IsCarried(r, previous, f)
  {
    if MacOS in r.selected {
      FilesOfAre(r, MacOS);
    } else if previous.Some? {
      CarriedOne(previous.value, r.previousDir, FEED, MacOS in downloads, f);
      CarriedOne(previous.value, r.previousDir, INTEL_FEED, IntelOffered(downloads), f);
    }
  }

  ghost predicate InPart(r: Release, p: Platform, f: File) {
    p in r.selected && Needs(r, p, f.name) && f.name in r.packages && f.digest == r.packages[f.name]
  }

  lemma PartHolds(r: Release, p: Platform, f: File)
    requires Part(r, p, FilesOf(r, p)).Some?
    ensures f in Part(r, p, FilesOf(r, p)).value <==> InPart(r, p, f)
  {
    if p in r.selected {
      FilesOfAre(r, p);
    }
  }

  lemma PayloadsHold(r: Release, previous: Option<Manifest>, downloads: Downloads, f: File)
    requires Payloads(r, previous, downloads).Some?
    ensures f in Payloads(r, previous, downloads).value <==> IsPackage(r, f) || IsCarried(r, previous, f)
  {
    PartHolds(r, Linux, f);
    PartHolds(r, Android, f);
    PartHolds(r, Windows, f);
    MacPartHolds(r, previous, downloads, f);
    assert IsPackage(r, f) <==>
      InPart(r, Linux, f) || InPart(r, MacOS, f) || InPart(r, Android, f) || InPart(r, Windows, f)
    by {
      forall p | p in r.selected && Needs(r, p, f.name)
        ensures p.Linux? || p.MacOS? || p.Android? || p.Windows?
      {
      }
    }
  }

  // ---------------------------------------------------------------- the release

  predicate Distinct(platforms: seq<Platform>) {
    forall i, j | 0 <= i < j < |platforms| :: platforms[i] != platforms[j]
  }

  /** The manifest before is a valid one of an older version. */
  ghost predicate Follows(r: Release, previous: Option<Manifest>)
    requires VersionTuple(r.version).Some?
  {
    previous.Some? ==>
      && DownloadIndex(previous.value).Some? && VersionTuple(previous.value.productVersion).Some?
      && Less(VersionTuple(previous.value.productVersion).value, VersionTuple(r.version).value)
  }

  /** There is a release exactly if its version, tag and selection are well-formed, it follows a valid
      older manifest, if any, every selected platform is complete, the feeds of a platform it does not
      select carry over, and it is no preview. */
  lemma ReleasedIff(r: Release, previous: Option<Manifest>)
    requires WellFormed(r)
    ensures Assemble(r, previous).Some? <==>
      && VersionTuple(r.version).Some? && r.tag == "v" + r.version && r.channel != "preview" && r.outputEmpty
      && |r.selected| > 0 && Distinct(r.selected) && Follows(r, previous)
      && (forall p | p in r.selected :: Complete(r, p))
      && FeedsCarry(r, previous, Offered(previous))
  {
    PayloadsIff(r, previous, Offered(previous));
    if Draft(r, previous).Some? {
      FinalCheckAccepts(r, previous);
    }
  }

  /** It holds exactly the packages its platforms need, as they lie in the input, and the feeds carried
      over. */
  lemma ReleasedHolds(r: Release, previous: Option<Manifest>, m: Manifest, f: File)
    requires Assemble(r, previous) == Some(m)
    ensures m.productVersion == r.version && m.tag == r.tag && m.channel == r.channel
    ensures f in m.files <==> IsPackage(r, f) || IsCarried(r, previous, f)
  {
    PayloadsHold(r, previous, PreviousDownloads(r, previous).value, f);
  }

  /** The kinds of packages that come with a checksum list. */
  predicate IsChecksummed(name: string) {
    EndsWith(name, ".deb") || EndsWith(name, ".rpm") || EndsWith(name, ".zip") || EndsWith(name, ".apk")
    || EndsWith(name, ".exe")
  }

  lemma DmgDiffers()
    ensures ".dmg" != ".deb" && ".dmg" != ".rpm" && ".dmg" != ".zip" && ".dmg" != ".apk" && ".dmg" != ".exe"
  {
    assert ".dmg"[2] == 'm' && ".deb"[2] == 'e' && ".rpm"[2] == 'p' && ".zip"[2] == 'i' && ".apk"[2] == 'p'
        && ".exe"[2] == 'x';
  }

  lemma XmlDiffers()
    ensures ".xml" != ".deb" && ".xml" != ".rpm" && ".xml" != ".zip" && ".xml" != ".apk" && ".xml" != ".exe"
  {
    assert ".xml"[1] == 'x' && ".deb"[1] == 'd' && ".rpm"[1] == 'r' && ".zip"[1] == 'z' && ".apk"[1] == 'a'
        && ".exe"[1] == 'e';
  }

  lemma NotChecksummed(name: string)
    requires EndsWith(name, ".dmg") || EndsWith(name, ".xml")
    ensures !IsChecksummed(name)
  {
    var ext := if EndsWith(name, ".dmg") then ".dmg" else ".xml";
    DmgDiffers();
    XmlDiffers();
    ExtensionsDiffer(name, ext, ".deb");
    ExtensionsDiffer(name, ext, ".rpm");
    ExtensionsDiffer(name, ext, ".zip");
    ExtensionsDiffer(name, ext, ".apk");
    ExtensionsDiffer(name, ext, ".exe");
  }

  lemma OthersAreNotChecksummed(r: Release, p: Platform, name: string)
    requires name in OtherNames(r, p)
    ensures !IsChecksummed(name)
  {
    NameEndings(r.version, r.androidCode);
    assert name in [DmgName(r.version), IntelDmgName(r.version), FEED, INTEL_FEED];
    NotChecksummed(name);
  }

  /** Every deb, rpm, zip, apk and exe of a release matched its checksum and is listed with the digest
      of the package in the input, and every selected platform but Linux matched its metadata. */
  lemma ReleasedIsVerified(r: Release, previous: Option<Manifest>, m: Manifest)
    requires Assemble(r, previous) == Some(m)
    ensures forall f | f in m.files && IsChecksummed(f.name) ::
      f.name in r.verified && f.name in r.packages && f.digest == r.packages[f.name]
    ensures forall p | p in r.selected && !p.Linux? :: p in r.metadataOk
  {
    PayloadsIff(r, previous, PreviousDownloads(r, previous).value);
    forall f | f in m.files && IsChecksummed(f.name)
      ensures f.name in r.verified && f.name in r.packages && f.digest == r.packages[f.name]
    {
      ReleasedHolds(r, previous, m, f);
      if IsCarried(r, previous, f) {
        NameEndings("", "");
        NotChecksummed(f.name);
      } else {
        var p :| p in r.selected && Needs(r, p, f.name);
        if f.name in OtherNames(r, p) {
          OthersAreNotChecksummed(r, p, f.name);
        }
        assert Complete(r, p);
      }
    }
  }

  /** An instance: an installer is released if it matches its checksum, and is refused if it does not. */
  const VERIFIED := PREVIEW.(channel := "beta")

  lemma VerifiedPayloads()
    ensures Payloads(VERIFIED, None, map[]).Some?
  {
    assert Windows in VERIFIED.selected && Linux !in VERIFIED.selected && MacOS !in VERIFIED.selected
        && Android !in VERIFIED.selected;
    assert WindowsFiles(VERIFIED).Some?;
  }

  lemma VerifiedReleased()
    ensures Assemble(VERIFIED, None).Some?
  {
    OneZeroZero();
    assert "v" + "1.0.0" == "v1.0.0";
    VerifiedPayloads();
    FinalCheckAccepts(VERIFIED, None);
  }

  lemma UnverifiedRefused()
    ensures Assemble(VERIFIED.(verified := {}), None).None?
  {
    var r := VERIFIED.(verified := {});
    assert Windows in r.selected && ChecksummedNames(r, Windows)[0] == ExeName(r.version);
    PayloadsIff(r, None, map[]);
    assert !Complete(r, Windows);
  }

  // ---------------------------------------------------------------- the offers

  /** Exactly one of the files ends that way. */
  ghost predicate HasOne(files: seq<File>, suffix: string) {
    exists i | 0 <= i < |files| ::
      EndsWith(files[i].name, suffix) && forall j | 0 <= j < |files| && EndsWith(files[j].name, suffix) :: j == i
  }

  lemma {:induction false} CountNone(files: seq<File>, suffix: string)
    ensures CountEnding(files, suffix) == 0 <==> forall f | f in files :: !EndsWith(f.name, suffix)
    ensures CountEnding(files, suffix) <= |files|
    ensures CountEnding(files, suffix) == |files| <==> forall f | f in files :: EndsWith(f.name, suffix)
  {
    if files != [] {
      CountNone(files[1..], suffix);
      assert files == [files[0]] + files[1..];
    }
  }

  lemma {:induction false} CountOne(files: seq<File>, suffix: string)
    ensures CountEnding(files, suffix) == 1 <==> HasOne(files, suffix)
  {
    if files != [] {
      var rest := files[1..];
      CountOne(rest, suffix);
      CountNone(rest, suffix);
      if EndsWith(files[0].name, suffix) {
        OneAtHead(files, suffix);
      } else {
        OneInTail(files, suffix);
      }
    }
  }

  lemma OneAtHead(files: seq<File>, suffix: string)
    requires files != [] && EndsWith(files[0].name, suffix)
    ensures HasOne(files, suffix) <==> forall f | f in files[1..] :: !EndsWith(f.name, suffix)
  {
    if HasOne(files, suffix) {
      forall f | f in files[1..] ensures !EndsWith(f.name, suffix) {
        var k :| 0 <= k < |files[1..]| && files[1..][k] == f;
        assert files[k + 1] == f;
      }
    } else {
      var j :| 0 <= j < |files| && EndsWith(files[j].name, suffix) && j != 0;
      assert files[j] in files[1..];
    }
  }

  lemma OneInTail(files: seq<File>, suffix: string)
    requires files != [] && !EndsWith(files[0].name, suffix)
    ensures HasOne(files, suffix) <==> HasOne(files[1..], suffix)
  {
    var rest := files[1..];
    if HasOne(files, suffix) {
      var i :| 0 <= i < |files| && EndsWith(files[i].name, suffix)
        && forall j | 0 <= j < |files| && EndsWith(files[j].name, suffix) :: j == i;
      assert rest[i - 1] == files[i];
      forall j | 0 <= j < |rest| && EndsWith(rest[j].name, suffix) ensures j == i - 1 {
        assert files[j + 1] == rest[j];
      }
    }
    if HasOne(rest, suffix) {
      var i :| 0 <= i < |rest| && EndsWith(rest[i].name, suffix)
        && forall j | 0 <= j < |rest| && EndsWith(rest[j].name, suffix) :: j == i;
      assert files[i + 1] == rest[i];
      forall j | 0 <= j < |files| && EndsWith(files[j].name, suffix) ensures j == i + 1 {
        assert j > 0 && rest[j - 1] == files[j];
      }
    }
  }

  /** One installer for Windows, one package of each kind for Linux, one for Android; for macOS disk
      images only, one or two, of which at most one is for Intel and one is not. */
  ghost predicate IsWhole(p: Platform, files: seq<File>) {
    match p
    case Windows => |files| == 1 && HasOne(files, ".exe")
    case Linux => |files| == 2 && HasOne(files, ".deb") && HasOne(files, ".rpm")
    case Android => |files| == 1 && HasOne(files, APK)
    case MacOS =>
      && (forall f | f in files :: EndsWith(f.name, ".dmg"))
      && (|files| == 1 || (|files| == 2 && HasOne(files, INTEL)))
      && (|files| == 1 ==> !EndsWith(files[0].name, INTEL))
  }

  /** `download_files_ok` accepts exactly the whole offers. */
  lemma DownloadFilesOkIff(p: Platform, files: seq<File>)
    ensures DownloadFilesOk(p, files) <==> IsWhole(p, files)
  {
    match p {
      case Windows => CountOne(files, ".exe"); assert Suffixes(p)[0] == ".exe";
      case Linux =>
        CountOne(files, ".deb");
        CountOne(files, ".rpm");
        assert Suffixes(p)[0] == ".deb" && Suffixes(p)[1] == ".rpm";
      case Android => CountOne(files, APK); assert Suffixes(p)[0] == APK;
      case MacOS => DiskImagesOkIff(files);
    }
  }

  lemma DiskImagesOkIff(files: seq<File>)
    ensures DownloadFilesOk(MacOS, files) <==> IsWhole(MacOS, files)
  {
    CountAll(files, ".dmg");
    CountOne(files, INTEL);
    if |files| == 1 {
      CountSingle(files, INTEL);
    }
  }

  lemma CountAll(files: seq<File>, suffix: string)
    ensures CountEnding(files, suffix) == |files| <==> forall f | f in files :: EndsWith(f.name, suffix)
  {
    CountNone(files, suffix);
  }

  lemma CountSingle(files: seq<File>, suffix: string)
    requires |files| == 1
    ensures CountEnding(files, suffix) == if EndsWith(files[0].name, suffix) then 1 else 0
  {
    assert files[1..] == [];
  }

  predicate IsHexDigit(c: char) {
    '0' <= c <= '9' || 'a' <= c <= 'f'
  }

  /** A plain file name with the version in it, a lower-case SHA-256 and a size. */
  predicate IsDownload(f: File, version: string) {
    && Contains(f.name, version) && '/' !in f.name && '\\' !in f.name && f.digest.bytes > 0
    && |f.digest.sha256| == 64 && forall k | 0 <= k < 64 :: IsHexDigit(f.digest.sha256[k])
  }

  lemma DownloadIff(f: File, version: string)
    requires |version| > 1
    ensures FileOk(f, version) <==> IsDownload(f, version)
  {
    assert Contains(".", version) ==> |version| <= 1;
  }

  lemma AllDownloads(files: seq<File>, version: string)
    requires |version| > 1
    ensures AllOk(files, version) <==> forall f | f in files :: IsDownload(f, version)
  {
    forall f ensures FileOk(f, version) <==> IsDownload(f, version) {
      DownloadIff(f, version);
    }
    assert forall i | 0 <= i < |files| :: files[i] in files;
  }

  /** A valid entry is of a version no newer than the product and tagged with it; its files are whole. */
  ghost predicate IsOffer(p: Platform, e: Entry, product: Version) {
    && VersionTuple(e.version).Some? && !Less(product, VersionTuple(e.version).value) && e.tag == "v" + e.version
    && IsWhole(p, e.files) && forall f | f in e.files :: IsDownload(f, e.version)
  }

  lemma OfferIff(p: Platform, e: Entry, product: Version)
    ensures EntryOk(p, e, product) <==> IsOffer(p, e, product)
  {
    if VersionTuple(e.version).Some? {
      VersionShape(e.version);
      DownloadFilesOkIff(p, e.files);
      AllDownloads(e.files, e.version);
    }
  }

  lemma {:induction false} SelectHolds(files: seq<File>, p: Platform, f: File)
    ensures f in Select(files, p) <==> f in files && Belongs(f.name, p)
  {
    if files != [] {
      SelectHolds(files[1..], p, f);
      assert files == [files[0]] + files[1..];
    }
  }

  /** What a manifest offers: its `downloads`, or in older manifests its own files by platform. */
  ghost predicate Lists(m: Manifest, p: Platform, e: Entry) {
    if m.downloads.Some? then p in m.downloads.value && m.downloads.value[p] == e
    else
      && e.version == m.productVersion && e.tag == m.tag && e.files == Select(m.files, p)
      && exists f | f in m.files :: Belongs(f.name, p)
  }

  lemma LegacyIff(m: Manifest, p: Platform)
    ensures p in Legacy(m) <==> exists f | f in m.files :: Belongs(f.name, p)
    ensures p in Legacy(m) ==> Legacy(m)[p] == Entry(m.productVersion, m.tag, Select(m.files, p))
  {
    if Select(m.files, p) != [] {
      SelectHolds(m.files, p, Select(m.files, p)[0]);
    }
    forall f | f in m.files && Belongs(f.name, p) ensures Select(m.files, p) != [] {
      SelectHolds(m.files, p, f);
    }
  }

  lemma ListsIff(m: Manifest)
    ensures var downloads := if m.downloads.Some? then m.downloads.value else Legacy(m);
      forall p, e :: Lists(m, p, e) <==> p in downloads && downloads[p] == e
  {
    var downloads := if m.downloads.Some? then m.downloads.value else Legacy(m);
    forall p, e ensures Lists(m, p, e) <==> p in downloads && downloads[p] == e {
      LegacyIff(m, p);
    }
  }

  /** A manifest is accepted exactly if it is no preview, is tagged with its version, and all that it
      offers is valid; then that is what it offers. */
  lemma IndexIff(m: Manifest)
    ensures DownloadIndex(m).Some? <==>
      && VersionTuple(m.productVersion).Some? && m.channel != "preview" && m.tag == "v" + m.productVersion
      && forall p, e | Lists(m, p, e) :: IsOffer(p, e, VersionTuple(m.productVersion).value)
    ensures DownloadIndex(m).Some? ==>
      forall p, e :: Lists(m, p, e) <==> p in DownloadIndex(m).value && DownloadIndex(m).value[p] == e
  {
    var downloads := if m.downloads.Some? then m.downloads.value else Legacy(m);
    ListsIff(m);
    if VersionTuple(m.productVersion).Some? {
      var product := VersionTuple(m.productVersion).value;
      forall p | p in downloads ensures EntryOk(p, downloads[p], product) <==> IsOffer(p, downloads[p], product) {
        OfferIff(p, downloads[p], product);
        assert Lists(m, p, downloads[p]);
      }
    }
  }

  /** Along a chain every offer is whole, of a version no newer than the release and tagged with it, and
      its files are plain names with a digest and a size. */
  lemma OffersAreWhole(start: Option<Manifest>, rs: seq<Release>, ms: seq<Manifest>, i: nat, p: Platform)
    requires IsChain(start, rs, ms) && i < |ms| && ms[i].downloads.Some? && p in ms[i].downloads.value
    ensures VersionTuple(ms[i].productVersion).Some?
    ensures IsOffer(p, ms[i].downloads.value[p], VersionTuple(ms[i].productVersion).value)
  {
    ChainIsPublished(start, rs, ms, i);
    IndexedOk(ms[i], p);
    OfferIff(p, ms[i].downloads.value[p], VersionTuple(ms[i].productVersion).value);
  }
}
