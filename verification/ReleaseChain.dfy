/** Assembling a release on the manifest of the previous one (packaging/release/assemble.py). File
    contents are represented by their digests. */
module ReleaseChain {
  import opened Common
  import opened ReleaseVersions

  datatype Digest = Digest(sha256: string, bytes: int)
  datatype File = File(name: string, digest: Digest)
  datatype Entry = Entry(version: string, tag: string, files: seq<File>)
  type Downloads = map<Platform, Entry>

  /** `downloads` is None in manifests older than that field. */
  datatype Manifest = Manifest(productVersion: string, channel: string, tag: string, files: seq<File>,
                               downloads: Option<Downloads>)

  // ---------------------------------------------------------------- download_index

  function Select(files: seq<File>, p: Platform): seq<File> {
    if files == [] then []
    else if Belongs(files[0].name, p) then [files[0]] + Select(files[1..], p)
    else Select(files[1..], p)
  }

  function CountEnding(files: seq<File>, suffix: string): nat {
    if files == [] then 0 else (if EndsWith(files[0].name, suffix) then 1 else 0) + CountEnding(files[1..], suffix)
  }

  /** `download_files_ok` with `macos_disk_images`: one file per suffix, and for macOS one disk image
      with at most one more for Intel. */
  predicate DownloadFilesOk(p: Platform, files: seq<File>) {
    if p.MacOS? then
      && CountEnding(files, ".dmg") == |files|
      && |files| - CountEnding(files, INTEL) == 1 && CountEnding(files, INTEL) <= 1
    else
      && |files| == |Suffixes(p)|
      && forall i | 0 <= i < |Suffixes(p)| :: CountEnding(files, Suffixes(p)[i]) == 1
  }

  predicate IsSha(s: string) {
    |s| == 64 && forall i | 0 <= i < 64 :: 'a' <= s[i] <= 'f' || '0' <= s[i] <= '9'
  }

  predicate IsBaseName(name: string) {
    name != "." && '/' !in name && '\\' !in name
  }

  predicate FileOk(f: File, version: string) {
    IsBaseName(f.name) && Contains(f.name, version) && IsSha(f.digest.sha256) && f.digest.bytes > 0
  }

  predicate AllOk(files: seq<File>, version: string) {
    forall i | 0 <= i < |files| :: FileOk(files[i], version)
  }

  predicate EntryOk(p: Platform, e: Entry, product: Version) {
    && VersionTuple(e.version).Some? && !Less(product, VersionTuple(e.version).value) && e.tag == "v" + e.version
    && DownloadFilesOk(p, e.files)
    && AllOk(e.files, e.version)
  }

  function Legacy(m: Manifest): Downloads {
    map p | p in {Windows, Linux, Android, MacOS} && Select(m.files, p) != [] ::
      Entry(m.productVersion, m.tag, Select(m.files, p))
  }

  function DownloadIndex(m: Manifest): (r: Option<Downloads>)
    ensures r.Some? ==> VersionTuple(m.productVersion).Some?
  {
    var product :- VersionTuple(m.productVersion);
    if m.channel == "preview" || m.tag != "v" + m.productVersion then None
    else
      var downloads := if m.downloads.Some? then m.downloads.value else Legacy(m);
      if forall p | p in downloads :: EntryOk(p, downloads[p], product) then Some(downloads) else None
  }

  // ---------------------------------------------------------------- packages and feeds

  /** `packages` are the non-empty files of the input directory, `verified` those named by a matching
      checksum list, `metadataOk` the platforms whose build metadata matches, and `previousDir` the
      files beside the previous manifest. */
  datatype Release = Release(
    version: string, tag: string, channel: string, selected: seq<Platform>, androidCode: string,
    packages: map<string, Digest>, verified: set<string>, metadataOk: set<Platform>, outputEmpty: bool,
    previousDir: map<string, Digest>)

  function Package(r: Release, name: string, checked: bool): Option<File> {
    if name !in r.packages || (checked && name !in r.verified) then None else Some(File(name, r.packages[name]))
  }

  function LinuxFiles(r: Release): Option<seq<File>> {
    var deb :- Package(r, DebName(r.version), true);
    var rpm :- Package(r, RpmName(r.version), true);
    Some([deb, rpm])
  }

  function DiskImages(r: Release): Option<seq<File>> {
    var dmg :- Package(r, DmgName(r.version), false);
    var intel :- Package(r, IntelDmgName(r.version), false);
    Some([dmg, intel])
  }

  /** What goes with the disk images: the two update feeds and the core library. */
  function MacExtras(r: Release): Option<seq<File>> {
    var feed :- Package(r, FEED, false);
    var intelFeed :- Package(r, INTEL_FEED, false);
    var core :- Package(r, CoreZipName(r.version), true);
    Some([feed, intelFeed, core])
  }

  function MacFiles(r: Release): Option<seq<File>> {
    var images :- DiskImages(r);
    var extras :- MacExtras(r);
    if MacOS in r.metadataOk then Some(images + extras) else None
  }

  function AndroidFiles(r: Release): Option<seq<File>> {
    var apk :- Package(r, ApkName(r.version, r.androidCode), true);
    if Android in r.metadataOk then Some([apk]) else None
  }

  function WindowsFiles(r: Release): Option<seq<File>> {
    var exe :- Package(r, ExeName(r.version), true);
    if Windows in r.metadataOk then Some([exe]) else None
  }

  function Named(files: seq<File>, name: string): seq<File> {
    if files == [] then []
    else if files[0].name == name then [files[0]] + Named(files[1..], name)
    else Named(files[1..], name)
  }

  /** `copy_previous_feed` */
  function CarryFeed(m: Manifest, dir: map<string, Digest>, name: string, required: bool): Option<seq<File>> {
    var feeds := Named(m.files, name);
    if feeds == [] then (if required then None else Some([]))
    else if |feeds| != 1 || name !in dir || dir[name] != feeds[0].digest then None
    else Some([File(name, dir[name])])
  }

  predicate IntelOffered(downloads: Downloads) {
    MacOS in downloads && CountEnding(downloads[MacOS].files, INTEL) > 0
  }

  function CarryFeeds(m: Manifest, downloads: Downloads, dir: map<string, Digest>): Option<seq<File>> {
    var feed :- CarryFeed(m, dir, FEED, MacOS in downloads);
    var intel :- CarryFeed(m, dir, INTEL_FEED, IntelOffered(downloads));
    Some(feed + intel)
  }

  // ---------------------------------------------------------------- assemble

  predicate RequestOk(r: Release) {
    && VersionTuple(r.version).Some? && r.tag == "v" + r.version && r.selected != [] && r.outputEmpty
    && forall i, j | 0 <= i < j < |r.selected| :: r.selected[i] != r.selected[j]
  }

  /** The downloads to start from: an advancing version on a valid previous manifest. */
  function PreviousDownloads(r: Release, previous: Option<Manifest>): Option<Downloads>
    requires VersionTuple(r.version).Some?
  {
    if previous.None? then Some(map[])
    else
      var downloads :- DownloadIndex(previous.value);
      if Less(VersionTuple(previous.value.productVersion).value, VersionTuple(r.version).value) then Some(downloads)
      else None
  }

  function Part(r: Release, p: Platform, files: Option<seq<File>>): Option<seq<File>> {
    if p in r.selected then files else Some([])
  }

  function MacPart(r: Release, previous: Option<Manifest>, downloads: Downloads): Option<seq<File>> {
    if MacOS in r.selected then MacFiles(r)
    else if previous.Some? then CarryFeeds(previous.value, downloads, r.previousDir)
    else Some([])
  }

  function Payloads(r: Release, previous: Option<Manifest>, downloads: Downloads): Option<seq<File>> {
    var linux :- Part(r, Linux, LinuxFiles(r));
    var mac :- MacPart(r, previous, downloads);
    var android :- Part(r, Android, AndroidFiles(r));
    var windows :- Part(r, Windows, WindowsFiles(r));
    Some(linux + mac + android + windows)
  }

  function Entries(r: Release, files: seq<File>, platforms: seq<Platform>): Downloads {
    map p | p in platforms :: Entry(r.version, r.tag, Select(files, p))
  }

  function Build(r: Release, downloads: Downloads, files: seq<File>): Manifest {
    Manifest(r.version, r.channel, r.tag, files, Some(downloads + Entries(r, files, r.selected)))
  }

  /** The manifest before the final check. */
  function Draft(r: Release, previous: Option<Manifest>): Option<Manifest> {
    if !RequestOk(r) then None
    else
      var downloads :- PreviousDownloads(r, previous);
      var files :- Payloads(r, previous, downloads);
      Some(Build(r, downloads, files))
  }

  function Assemble(r: Release, previous: Option<Manifest>): Option<Manifest> {
    var m :- Draft(r, previous);
    var _ :- DownloadIndex(m);
    Some(m)
  }

  // ---------------------------------------------------------------- assembling in place

  method CopyPreviousFeeds(start: seq<File>, m: Manifest, downloads: Downloads, dir: map<string, Digest>)
    returns (payloads: Option<seq<File>>)
    ensures payloads.Some? <==> CarryFeeds(m, downloads, dir).Some?
    ensures payloads.Some? ==> payloads.value == start + CarryFeeds(m, downloads, dir).value
  {
    var feed :- CarryFeed(m, dir, FEED, MacOS in downloads);
    var intel :- CarryFeed(m, dir, INTEL_FEED, IntelOffered(downloads));
    return Some(start + feed + intel);
  }

  /** The block of one platform: its packages are added if it is selected. */
  method AddPackages(start: seq<File>, r: Release, p: Platform, packages: Option<seq<File>>)
    returns (payloads: Option<seq<File>>)
    ensures payloads.Some? <==> Part(r, p, packages).Some?
    ensures payloads.Some? ==> payloads.value == start + Part(r, p, packages).value
  {
    if p !in r.selected {
      return Some(start);
    }
    var files :- packages;
    return Some(start + files);
  }

  method AddMacPackages(start: seq<File>, r: Release, previous: Option<Manifest>, downloads: Downloads)
    returns (payloads: Option<seq<File>>)
    ensures payloads.Some? <==> MacPart(r, previous, downloads).Some?
    ensures payloads.Some? ==> payloads.value == start + MacPart(r, previous, downloads).value
  {
    if MacOS in r.selected {
      var files :- MacFiles(r);
      return Some(start + files);
    }
    if previous.None? {
      return Some(start);
    }
    payloads := CopyPreviousFeeds(start, previous.value, downloads, r.previousDir);
  }

  method CollectPayloads(r: Release, previous: Option<Manifest>, downloads: Downloads)
    returns (result: Option<seq<File>>)
    ensures result == Payloads(r, previous, downloads)
  {
    var linux :- AddPackages([], r, Linux, LinuxFiles(r));
    var mac :- AddMacPackages(linux, r, previous, downloads);
    var android :- AddPackages(mac, r, Android, AndroidFiles(r));
    var windows :- AddPackages(android, r, Windows, WindowsFiles(r));
    assert linux == Part(r, Linux, LinuxFiles(r)).value;
    return Some(windows);
  }

  lemma EntriesAdd(r: Release, before: Downloads, files: seq<File>, platforms: seq<Platform>, p: Platform)
    ensures before + Entries(r, files, platforms + [p])
         == (before + Entries(r, files, platforms))[p := Entry(r.version, r.tag, Select(files, p))]
  {
  }

  method ReplaceSelected(r: Release, before: Downloads, files: seq<File>) returns (downloads: Downloads)
    ensures downloads == before + Entries(r, files, r.selected)
  {
    downloads := before;
    for i := 0 to |r.selected|
      invariant downloads == before + Entries(r, files, r.selected[..i])
    {
      var p := r.selected[i];
      downloads := downloads[p := Entry(r.version, r.tag, Select(files, p))];
      EntriesAdd(r, before, files, r.selected[..i], p);
      assert r.selected[..i + 1] == r.selected[..i] + [p];
    }
    assert r.selected[..|r.selected|] == r.selected;
  }

  method AssembleRelease(r: Release, previous: Option<Manifest>) returns (result: Option<Manifest>)
    ensures result == Assemble(r, previous)
  {
    if !RequestOk(r) {
      return None;
    }
    var before :- PreviousDownloads(r, previous);
    var files :- CollectPayloads(r, previous, before);
    var downloads := ReplaceSelected(r, before, files);
    var manifest := Manifest(r.version, r.channel, r.tag, files, Some(downloads));
    var _ :- DownloadIndex(manifest);
    return Some(manifest);
  }

  // ---------------------------------------------------------------- the selected files

  /** What is true of digests and of a version code that `int` accepts, which has no slash. */
  ghost predicate WellFormed(r: Release) {
    && (forall name | name in r.packages :: IsSha(r.packages[name].sha256) && r.packages[name].bytes > 0)
    && (Android in r.selected ==> NoSlash(r.androidCode))
  }

  lemma {:induction false} SelectConcat(a: seq<File>, b: seq<File>, p: Platform)
    ensures Select(a + b, p) == Select(a, p) + Select(b, p)
  {
    if a == [] {
      assert a + b == b;
    } else {
      assert (a + b)[1..] == a[1..] + b;
      SelectConcat(a[1..], b, p);
    }
  }

  lemma NameEndings(v: string, code: string)
    ensures EndsWith(DebName(v), ".deb") && EndsWith(RpmName(v), ".rpm") && EndsWith(DmgName(v), ".dmg")
    ensures EndsWith(IntelDmgName(v), ".dmg") && EndsWith(IntelDmgName(v), INTEL) && EndsWith(CoreZipName(v), ".zip")
    ensures EndsWith(ApkName(v, code), ".apk") && EndsWith(ApkName(v, code), APK) && EndsWith(ExeName(v), ".exe")
    ensures EndsWith(FEED, ".xml") && EndsWith(INTEL_FEED, ".xml")
  {
    EndOfConcat("vnidrop_" + v, "-1_amd64.deb", ".deb");
    EndOfConcat("vnidrop-" + v, "-1.x86_64.rpm", ".rpm");
    EndOfConcat("VniDrop-" + v, ".dmg", ".dmg");
    EndOfConcat("VniDrop-" + v, "-x86_64.dmg", ".dmg");
    EndOfConcat("VniDrop-" + v, "-x86_64.dmg", INTEL);
    EndOfConcat("VnidropCore-" + v, ".zip", ".zip");
    var tail := "-" + code + "-play-universal.apk";
    EndOfConcat("VniDrop-" + v, tail, APK);
    EndOfConcat("VniDrop-" + v, tail, ".apk");
    EndOfConcat("-" + code, "-play-universal.apk", APK);
    EndOfConcat("-" + code, "-play-universal.apk", ".apk");
    EndOfConcat("VniDrop_" + v, "_x64.exe", ".exe");
  }

  lemma ExtensionsDiffer(name: string, a: string, b: string)
    requires |a| == |b| && EndsWith(name, a) && a != b
    ensures !EndsWith(name, b)
  {
  }

  /** An Intel name is told apart by an underscore no version has. */
  lemma DmgIsNotIntel(v: string)
    requires VersionTuple(v).Some?
    ensures !EndsWith(DmgName(v), INTEL)
  {
    VersionShape(v);
    var name := DmgName(v);
    assert name[|name| - 7] == v[|v| - 3];
    assert INTEL[4] == '_' && |INTEL| == 11;
    assert name[|name| - 11..][4] == name[|name| - 7];
  }

  lemma {:induction false} SelectUniform(files: seq<File>, p: Platform, belongs: bool)
    requires forall f | f in files :: Belongs(f.name, p) <==> belongs
    ensures Select(files, p) == if belongs then files else []
  {
    if files != [] {
      SelectUniform(files[1..], p, belongs);
    }
  }

  lemma {:induction false} NamedNone(files: seq<File>, name: string)
    requires forall f | f in files :: f.name != name
    ensures Named(files, name) == []
  {
    if files != [] {
      NamedNone(files[1..], name);
    }
  }

  lemma CountPair(a: File, b: File, suffix: string)
    ensures CountEnding([a, b], suffix)
         == (if EndsWith(a.name, suffix) then 1 else 0) + (if EndsWith(b.name, suffix) then 1 else 0)
  {
    assert [a, b][1..] == [b] && [b][1..] == [];
    assert CountEnding([], suffix) == 0;
    assert CountEnding([b], suffix) == if EndsWith(b.name, suffix) then 1 else 0;
  }

  /** The files of each platform are selected for it and for no other. */
  lemma LinuxSelected(r: Release, p: Platform)
    requires LinuxFiles(r).Some?
    ensures var files := LinuxFiles(r).value;
      Select(files, p) == if p.Linux? then files else []
  {
    NameEndings(r.version, r.androidCode);
    var files := LinuxFiles(r).value;
    ExtensionDecides(files[0].name, ".deb", p);
    ExtensionDecides(files[1].name, ".rpm", p);
    SelectUniform(files, p, p.Linux?);
  }

  lemma LinuxComplete(r: Release)
    requires LinuxFiles(r).Some?
    ensures DownloadFilesOk(Linux, LinuxFiles(r).value)
  {
    NameEndings(r.version, r.androidCode);
    var files := LinuxFiles(r).value;
    var deb, rpm := files[0].name, files[1].name;
    ExtensionsDiffer(deb, ".deb", ".rpm");
    ExtensionsDiffer(rpm, ".rpm", ".deb");
    CountPair(files[0], files[1], ".deb");
    CountPair(files[0], files[1], ".rpm");
    assert Suffixes(Linux)[0] == ".deb" && Suffixes(Linux)[1] == ".rpm";
  }

  lemma LinuxFeeds(r: Release)
    requires LinuxFiles(r).Some?
    ensures var files := LinuxFiles(r).value; Named(files, FEED) == [] && Named(files, INTEL_FEED) == []
  {
    NameEndings(r.version, r.androidCode);
    var files := LinuxFiles(r).value;
    var deb, rpm := files[0].name, files[1].name;
    ExtensionsDiffer(deb, ".deb", ".xml");
    ExtensionsDiffer(rpm, ".rpm", ".xml");
    NamedNone(files, FEED);
    NamedNone(files, INTEL_FEED);
  }

  lemma DiskImagesSelected(r: Release, p: Platform)
    requires DiskImages(r).Some?
    ensures Select(DiskImages(r).value, p) == if p.MacOS? then DiskImages(r).value else []
  {
    NameEndings(r.version, r.androidCode);
    var images := DiskImages(r).value;
    ExtensionDecides(images[0].name, ".dmg", p);
    ExtensionDecides(images[1].name, ".dmg", p);
    SelectUniform(images, p, p.MacOS?);
  }

  lemma MacExtrasSelected(r: Release, p: Platform)
    requires MacExtras(r).Some?
    ensures Select(MacExtras(r).value, p) == []
  {
    NameEndings(r.version, r.androidCode);
    var extras := MacExtras(r).value;
    ExtensionDecides(FEED, ".xml", p);
    ExtensionDecides(INTEL_FEED, ".xml", p);
    ExtensionDecides(extras[2].name, ".zip", p);
    SelectUniform(extras, p, false);
  }

  lemma MacSelected(r: Release, p: Platform)
    requires MacFiles(r).Some?
    ensures Select(MacFiles(r).value, p) == if p.MacOS? then DiskImages(r).value else []
  {
    DiskImagesSelected(r, p);
    MacExtrasSelected(r, p);
    SelectConcat(DiskImages(r).value, MacExtras(r).value, p);
  }

  lemma DiskImagesComplete(r: Release)
    requires DiskImages(r).Some? && VersionTuple(r.version).Some?
    ensures DownloadFilesOk(MacOS, DiskImages(r).value) && CountEnding(DiskImages(r).value, INTEL) == 1
  {
    NameEndings(r.version, r.androidCode);
    DmgIsNotIntel(r.version);
    var images := DiskImages(r).value;
    CountPair(images[0], images[1], ".dmg");
    CountPair(images[0], images[1], INTEL);
  }

  lemma DiskImagesAreNoFeeds(r: Release, name: string)
    requires DiskImages(r).Some? && EndsWith(name, ".xml")
    ensures Named(DiskImages(r).value, name) == []
  {
    NameEndings(r.version, r.androidCode);
    var images := DiskImages(r).value;
    ExtensionsDiffer(images[0].name, ".dmg", ".xml");
    ExtensionsDiffer(images[1].name, ".dmg", ".xml");
    NamedNone(images, name);
  }

  lemma CountNamed(a: File, b: File, c: File, name: string)
    ensures |Named([a, b, c], name)|
         == (if a.name == name then 1 else 0) + (if b.name == name then 1 else 0) + (if c.name == name then 1 else 0)
  {
    assert [a, b, c][1..] == [b, c] && [b, c][1..] == [c] && [c][1..] == [];
    assert |Named([c], name)| == if c.name == name then 1 else 0;
    assert |Named([b, c], name)| == (if b.name == name then 1 else 0) + |Named([c], name)|;
  }

  lemma MacExtrasFeeds(r: Release)
    requires MacExtras(r).Some?
    ensures |Named(MacExtras(r).value, FEED)| == 1 && |Named(MacExtras(r).value, INTEL_FEED)| == 1
  {
    NameEndings(r.version, r.androidCode);
    var extras := MacExtras(r).value;
    ExtensionsDiffer(extras[2].name, ".zip", ".xml");
    assert |FEED| != |INTEL_FEED|;
    CountNamed(extras[0], extras[1], extras[2], FEED);
    CountNamed(extras[0], extras[1], extras[2], INTEL_FEED);
  }

  lemma MacFeeds(r: Release)
    requires MacFiles(r).Some?
    ensures |Named(MacFiles(r).value, FEED)| == 1 && |Named(MacFiles(r).value, INTEL_FEED)| == 1
  {
    NameEndings(r.version, r.androidCode);
    forall name | name in {FEED, INTEL_FEED} ensures |Named(MacFiles(r).value, name)| == 1 {
      DiskImagesAreNoFeeds(r, name);
      MacExtrasFeeds(r);
      NamedConcat(DiskImages(r).value, MacExtras(r).value, name);
    }
  }

  lemma AndroidSelected(r: Release, p: Platform)
    requires AndroidFiles(r).Some?
    ensures var files := AndroidFiles(r).value;
      && Select(files, p) == (if p.Android? then files else []) && DownloadFilesOk(Android, files)
      && Named(files, FEED) == [] && Named(files, INTEL_FEED) == []
  {
    NameEndings(r.version, r.androidCode);
    var apk := ApkName(r.version, r.androidCode);
    ExtensionDecides(apk, ".apk", p);
    ExtensionsDiffer(apk, ".apk", ".xml");
    assert Suffixes(Android)[0] == APK;
    assert AndroidFiles(r).value[1..] == [];
  }

  lemma WindowsSelected(r: Release, p: Platform)
    requires WindowsFiles(r).Some?
    ensures var files := WindowsFiles(r).value;
      && Select(files, p) == (if p.Windows? then files else []) && DownloadFilesOk(Windows, files)
      && Named(files, FEED) == [] && Named(files, INTEL_FEED) == []
  {
    NameEndings(r.version, r.androidCode);
    var exe := ExeName(r.version);
    ExtensionDecides(exe, ".exe", p);
    ExtensionsDiffer(exe, ".exe", ".xml");
    assert Suffixes(Windows)[0] == ".exe";
    assert WindowsFiles(r).value[1..] == [];
  }

  lemma {:induction false} NamedAre(files: seq<File>, name: string)
    ensures forall f | f in Named(files, name) :: f.name == name && f in files
  {
    if files != [] {
      NamedAre(files[1..], name);
    }
  }

  lemma {:induction false} NamedConcat(a: seq<File>, b: seq<File>, name: string)
    ensures Named(a + b, name) == Named(a, name) + Named(b, name)
  {
    if a == [] {
      assert a + b == b;
    } else {
      assert (a + b)[1..] == a[1..] + b;
      NamedConcat(a[1..], b, name);
    }
  }

  /** What carrying the feeds adds: at most one file of each feed name, and no download. */
  lemma CarriedFeeds(m: Manifest, downloads: Downloads, dir: map<string, Digest>, p: Platform)
    requires CarryFeeds(m, downloads, dir).Some?
    ensures var files := CarryFeeds(m, downloads, dir).value;
      && Select(files, p) == []
      && |Named(files, FEED)| <= 1 && |Named(files, INTEL_FEED)| <= 1
      && (MacOS in downloads ==> |Named(files, FEED)| == 1)
      && (IntelOffered(downloads) ==> |Named(files, INTEL_FEED)| == 1)
  {
    NameEndings("", "");
    ExtensionDecides(FEED, ".xml", p);
    ExtensionDecides(INTEL_FEED, ".xml", p);
    var feed := CarryFeed(m, dir, FEED, MacOS in downloads).value;
    var intel := CarryFeed(m, dir, INTEL_FEED, IntelOffered(downloads)).value;
    assert |FEED| != |INTEL_FEED|;
    assert feed == [] || (feed[0].name == FEED && feed[1..] == []);
    assert intel == [] || (intel[0].name == INTEL_FEED && intel[1..] == []);
    SelectConcat(feed, intel, p);
    NamedConcat(feed, intel, FEED);
    NamedConcat(feed, intel, INTEL_FEED);
  }

  // ---------------------------------------------------------------- the assembled payloads

  /** The part of the payloads that belongs to a selected platform. */
  ghost function OwnFiles(r: Release, p: Platform): Option<seq<File>> {
    match p
    case Linux => LinuxFiles(r)
    case MacOS => if MacFiles(r).Some? then DiskImages(r) else None
    case Android => AndroidFiles(r)
    case Windows => WindowsFiles(r)
  }

  lemma SelectParts(a: seq<File>, b: seq<File>, c: seq<File>, d: seq<File>, p: Platform)
    ensures Select(a + b + c + d, p) == Select(a, p) + Select(b, p) + Select(c, p) + Select(d, p)
  {
    SelectConcat(a, b, p);
    SelectConcat(a + b, c, p);
    SelectConcat(a + b + c, d, p);
  }

  lemma NamedParts(a: seq<File>, b: seq<File>, c: seq<File>, d: seq<File>, name: string)
    ensures Named(a + b + c + d, name) == Named(a, name) + Named(b, name) + Named(c, name) + Named(d, name)
  {
    NamedConcat(a, b, name);
    NamedConcat(a + b, c, name);
    NamedConcat(a + b + c, d, name);
  }

  lemma PartsSelected(r: Release, p: Platform)
    ensures PartIsSelected(r, Linux, LinuxFiles(r), p) && PartIsSelected(r, Android, AndroidFiles(r), p)
    ensures PartIsSelected(r, Windows, WindowsFiles(r), p)
  {
    if LinuxFiles(r).Some? { LinuxSelected(r, p); }
    if AndroidFiles(r).Some? { AndroidSelected(r, p); }
    if WindowsFiles(r).Some? { WindowsSelected(r, p); }
  }

  /** The part of `own` is selected for that platform and for no other. */
  predicate PartIsSelected(r: Release, own: Platform, files: Option<seq<File>>, p: Platform) {
    var part := Part(r, own, files);
    part.Some? ==> Select(part.value, p) == if p == own then part.value else []
  }

  lemma MacPartSelected(r: Release, previous: Option<Manifest>, downloads: Downloads, p: Platform)
    requires MacPart(r, previous, downloads).Some?
    ensures Select(MacPart(r, previous, downloads).value, p)
         == if p.MacOS? && MacOS in r.selected then DiskImages(r).value else []
  {
    if MacOS in r.selected {
      MacSelected(r, p);
    } else if previous.Some? {
      CarriedFeeds(previous.value, downloads, r.previousDir, p);
    }
  }

  lemma PayloadsSelect(r: Release, previous: Option<Manifest>, downloads: Downloads, p: Platform)
    requires Payloads(r, previous, downloads).Some? && p in r.selected
    ensures OwnFiles(r, p).Some? && Select(Payloads(r, previous, downloads).value, p) == OwnFiles(r, p).value
  {
    SelectParts(Part(r, Linux, LinuxFiles(r)).value, MacPart(r, previous, downloads).value,
                Part(r, Android, AndroidFiles(r)).value, Part(r, Windows, WindowsFiles(r)).value, p);
    PartsSelected(r, p);
    MacPartSelected(r, previous, downloads, p);
  }

  lemma PayloadsFeeds(r: Release, previous: Option<Manifest>, downloads: Downloads, name: string)
    requires Payloads(r, previous, downloads).Some? && name in {FEED, INTEL_FEED}
    ensures Named(Payloads(r, previous, downloads).value, name) == Named(MacPart(r, previous, downloads).value, name)
  {
    NamedParts(Part(r, Linux, LinuxFiles(r)).value, MacPart(r, previous, downloads).value,
               Part(r, Android, AndroidFiles(r)).value, Part(r, Windows, WindowsFiles(r)).value, name);
    if Linux in r.selected { LinuxFeeds(r); }
    if Android in r.selected { AndroidSelected(r, Linux); }
    if Windows in r.selected { WindowsSelected(r, Linux); }
  }

  predicate NoSlash(s: string) {
    '/' !in s && '\\' !in s
  }

  lemma PackageOk(r: Release, head: string, tail: string, checked: bool)
    requires WellFormed(r) && VersionTuple(r.version).Some? && |head| > 1 && NoSlash(head) && NoSlash(tail)
    requires Package(r, head + r.version + tail, checked).Some?
    ensures FileOk(Package(r, head + r.version + tail, checked).value, r.version)
  {
    VersionShape(r.version);
    ContainsMiddle(head, r.version, tail);
  }

  lemma LinuxNamesArePlain()
    ensures NoSlash("vnidrop_") && NoSlash("vnidrop-") && NoSlash("-1_amd64.deb") && NoSlash("-1.x86_64.rpm")
  {
  }

  lemma OtherNamesArePlain()
    ensures NoSlash("VniDrop-") && NoSlash("VniDrop_")
    ensures NoSlash(".dmg") && NoSlash("-x86_64.dmg") && NoSlash("_x64.exe")
  {
  }

  lemma DebOk(r: Release)
    requires WellFormed(r) && VersionTuple(r.version).Some? && Package(r, DebName(r.version), true).Some?
    ensures FileOk(Package(r, DebName(r.version), true).value, r.version)
  {
    LinuxNamesArePlain();
    PackageOk(r, "vnidrop_", "-1_amd64.deb", true);
  }

  lemma RpmOk(r: Release)
    requires WellFormed(r) && VersionTuple(r.version).Some? && Package(r, RpmName(r.version), true).Some?
    ensures FileOk(Package(r, RpmName(r.version), true).value, r.version)
  {
    LinuxNamesArePlain();
    PackageOk(r, "vnidrop-", "-1.x86_64.rpm", true);
  }

  lemma LinuxFilesOk(r: Release)
    requires WellFormed(r) && VersionTuple(r.version).Some? && LinuxFiles(r).Some?
    ensures AllOk(LinuxFiles(r).value, r.version)
  {
    DebOk(r);
    RpmOk(r);
  }

  lemma DmgOk(r: Release)
    requires WellFormed(r) && VersionTuple(r.version).Some? && Package(r, DmgName(r.version), false).Some?
    ensures FileOk(Package(r, DmgName(r.version), false).value, r.version)
  {
    OtherNamesArePlain();
    PackageOk(r, "VniDrop-", ".dmg", false);
  }

  lemma IntelDmgOk(r: Release)
    requires WellFormed(r) && VersionTuple(r.version).Some? && Package(r, IntelDmgName(r.version), false).Some?
    ensures FileOk(Package(r, IntelDmgName(r.version), false).value, r.version)
  {
    OtherNamesArePlain();
    PackageOk(r, "VniDrop-", "-x86_64.dmg", false);
  }

  lemma AllOkPair(a: File, b: File, version: string)
    requires FileOk(a, version) && FileOk(b, version)
    ensures AllOk([a, b], version)
  {
  }

  lemma DiskImagesOk(r: Release)
    requires WellFormed(r) && VersionTuple(r.version).Some? && DiskImages(r).Some?
    ensures AllOk(DiskImages(r).value, r.version)
  {
    DmgOk(r);
    IntelDmgOk(r);
    AllOkPair(DiskImages(r).value[0], DiskImages(r).value[1], r.version);
  }

  lemma AndroidFilesOk(r: Release)
    requires WellFormed(r) && VersionTuple(r.version).Some? && AndroidFiles(r).Some? && Android in r.selected
    ensures AllOk(AndroidFiles(r).value, r.version)
  {
    var tail := "-" + r.androidCode + "-play-universal.apk";
    assert NoSlash(tail) by {
      assert forall c | c in tail :: c in "-play-universal.apk" || c in r.androidCode;
    }
    OtherNamesArePlain();
    PackageOk(r, "VniDrop-", tail, true);
  }

  lemma WindowsFilesOk(r: Release)
    requires WellFormed(r) && VersionTuple(r.version).Some? && WindowsFiles(r).Some?
    ensures AllOk(WindowsFiles(r).value, r.version)
  {
    OtherNamesArePlain();
    PackageOk(r, "VniDrop_", "_x64.exe", true);
  }

  /** Every selected platform's own entry passes the checks of `download_index`. */
  lemma OwnEntryOk(r: Release, p: Platform)
    requires WellFormed(r) && RequestOk(r) && OwnFiles(r, p).Some? && p in r.selected
    ensures EntryOk(p, Entry(r.version, r.tag, OwnFiles(r, p).value), VersionTuple(r.version).value)
  {
    match p {
      case Linux => LinuxComplete(r); LinuxFilesOk(r);
      case MacOS => DiskImagesComplete(r); DiskImagesOk(r);
      case Android => AndroidSelected(r, Android); AndroidFilesOk(r);
      case Windows => WindowsSelected(r, Windows); WindowsFilesOk(r);
    }
  }

  lemma LessTransitive(a: Version, b: Version, c: Version)
    ensures Less(a, b) && Less(b, c) ==> Less(a, c)
    ensures Less(a, b) ==> !Less(b, a)
    ensures Less(a, b) && !Less(a, c) ==> Less(c, b)
  {
  }

  lemma IndexedOk(m: Manifest, p: Platform)
    requires DownloadIndex(m).Some? && p in DownloadIndex(m).value
    ensures EntryOk(p, DownloadIndex(m).value[p], VersionTuple(m.productVersion).value)
  {
  }

  lemma StillOk(p: Platform, e: Entry, older: Version, newer: Version)
    requires EntryOk(p, e, older) && Less(older, newer)
    ensures EntryOk(p, e, newer)
  {
    LessTransitive(older, newer, VersionTuple(e.version).value);
    LessTransitive(newer, VersionTuple(e.version).value, VersionTuple(e.version).value);
  }

  /** What a release offers for one platform: its own files if selected, else the previous offer. */
  ghost predicate Offers(r: Release, before: Downloads, after: Downloads, p: Platform) {
    if p in r.selected then
      && OwnFiles(r, p).Some?
      && p in after && after[p] == Entry(r.version, r.tag, OwnFiles(r, p).value)
    else
      (p in after <==> p in before) && (p in after ==> after[p] == before[p])
  }

  lemma DraftOffers(r: Release, previous: Option<Manifest>, p: Platform)
    requires Draft(r, previous).Some?
    ensures Offers(r, PreviousDownloads(r, previous).value, Draft(r, previous).value.downloads.value, p)
  {
    if p in r.selected {
      PayloadsSelect(r, previous, PreviousDownloads(r, previous).value, p);
    }
  }

  lemma DraftEntryOk(r: Release, previous: Option<Manifest>, p: Platform)
    requires WellFormed(r) && Draft(r, previous).Some? && p in Draft(r, previous).value.downloads.value
    ensures EntryOk(p, Draft(r, previous).value.downloads.value[p], VersionTuple(r.version).value)
  {
    DraftOffers(r, previous, p);
    if p in r.selected {
      OwnEntryOk(r, p);
    } else {
      IndexedOk(previous.value, p);
      StillOk(p, PreviousDownloads(r, previous).value[p], VersionTuple(previous.value.productVersion).value,
              VersionTuple(r.version).value);
    }
  }

  lemma IndexAccepts(m: Manifest)
    requires m.downloads.Some? && VersionTuple(m.productVersion).Some? && m.tag == "v" + m.productVersion
    requires forall p | p in m.downloads.value :: EntryOk(p, m.downloads.value[p], VersionTuple(m.productVersion).value)
    ensures DownloadIndex(m) == if m.channel == "preview" then None else m.downloads
  {
  }

  /** The final check accepts every assembly that gets that far, unless it is a preview. */
  lemma FinalCheckAccepts(r: Release, previous: Option<Manifest>)
    requires WellFormed(r) && Draft(r, previous).Some?
    ensures Assemble(r, previous) == if r.channel == "preview" then None else Draft(r, previous)
    ensures DownloadIndex(Draft(r, previous).value)
         == if r.channel == "preview" then None else Draft(r, previous).value.downloads
  {
    var m := Draft(r, previous).value;
    forall p | p in m.downloads.value ensures EntryOk(p, m.downloads.value[p], VersionTuple(r.version).value) {
      DraftEntryOk(r, previous, p);
    }
    IndexAccepts(m);
  }

  // ---------------------------------------------------------------- the chain

  /** The update feeds a manifest needs: at most one of each, and one for the downloads it offers. */
  ghost predicate FeedsMatch(files: seq<File>, downloads: Downloads) {
    && |Named(files, FEED)| <= 1 && |Named(files, INTEL_FEED)| <= 1
    && (MacOS in downloads ==> |Named(files, FEED)| == 1)
    && (IntelOffered(downloads) ==> |Named(files, INTEL_FEED)| == 1)
  }

  /** What every published manifest satisfies: it passes its own check, and offering macOS (or Intel)
      downloads it carries exactly one matching update feed. */
  ghost predicate Published(m: Manifest) {
    m.downloads.Some? && DownloadIndex(m) == m.downloads && FeedsMatch(m.files, m.downloads.value)
  }

  lemma DraftFeeds(r: Release, previous: Option<Manifest>)
    requires WellFormed(r) && Draft(r, previous).Some?
    ensures var m := Draft(r, previous).value; FeedsMatch(m.files, m.downloads.value)
  {
    var before := PreviousDownloads(r, previous).value;
    PayloadsFeeds(r, previous, before, FEED);
    PayloadsFeeds(r, previous, before, INTEL_FEED);
    DraftOffers(r, previous, MacOS);
    if MacOS in r.selected {
      MacFeeds(r);
    } else if previous.Some? {
      CarriedFeeds(previous.value, before, r.previousDir, Linux);
    }
  }

  /** The feeds beside a published manifest are the ones it lists. */
  ghost predicate Intact(m: Manifest, dir: map<string, Digest>) {
    forall f | f in m.files && f.name in {FEED, INTEL_FEED} :: f.name in dir && dir[f.name] == f.digest
  }

  lemma CarryingOne(m: Manifest, dir: map<string, Digest>, name: string, required: bool)
    requires Intact(m, dir) && name in {FEED, INTEL_FEED}
    requires |Named(m.files, name)| <= 1 && (required ==> |Named(m.files, name)| == 1)
    ensures CarryFeed(m, dir, name, required).Some?
  {
    NamedAre(m.files, name);
    if Named(m.files, name) != [] {
      assert Named(m.files, name)[0] in Named(m.files, name);
    }
  }

  /** Carrying the feeds of a published manifest forward cannot fail. */
  lemma CarryingSucceeds(m: Manifest, dir: map<string, Digest>)
    requires Published(m) && Intact(m, dir)
    ensures CarryFeeds(m, DownloadIndex(m).value, dir).Some?
  {
    CarryingOne(m, dir, FEED, MacOS in m.downloads.value);
    CarryingOne(m, dir, INTEL_FEED, IntelOffered(m.downloads.value));
  }

  ghost predicate Advances(older: Manifest, newer: Manifest) {
    && VersionTuple(older.productVersion).Some? && VersionTuple(newer.productVersion).Some?
    && Less(VersionTuple(older.productVersion).value, VersionTuple(newer.productVersion).value)
  }

  /** The downloads a manifest offers. */
  ghost function Offered(m: Option<Manifest>): Downloads {
    if m.Some? && DownloadIndex(m.value).Some? then DownloadIndex(m.value).value else map[]
  }

  /** The entries a release makes of its own files. */
  ghost function OwnEntries(r: Release): Downloads {
    map p | p in r.selected && OwnFiles(r, p).Some? :: Entry(r.version, r.tag, OwnFiles(r, p).value)
  }

  ghost predicate Released(r: Release, previous: Option<Manifest>, m: Manifest) {
    WellFormed(r) && Assemble(r, previous) == Some(m)
  }

  /** Whatever the previous manifest was, assembling publishes a valid one. */
  lemma ReleasedIsPublished(r: Release, previous: Option<Manifest>, m: Manifest)
    requires Released(r, previous, m)
    ensures Published(m)
  {
    FinalCheckAccepts(r, previous);
    DraftFeeds(r, previous);
  }

  lemma OverlayOfOffers(r: Release, before: Downloads, after: Downloads)
    requires forall p: Platform :: Offers(r, before, after, p)
    ensures after == before + OwnEntries(r)
  {
    forall p: Platform
      ensures p in after <==> p in before || p in OwnEntries(r)
      ensures p in after ==> after[p] == (before + OwnEntries(r))[p]
    {
      assert Offers(r, before, after, p);
    }
  }

  lemma PreviousIsOffered(r: Release, previous: Option<Manifest>)
    requires Draft(r, previous).Some?
    ensures PreviousDownloads(r, previous) == Some(Offered(previous))
  {
  }

  /** It offers its own entries and, for the other platforms, what was offered before. */
  lemma ReleasedOffers(r: Release, previous: Option<Manifest>, m: Manifest)
    requires Released(r, previous, m)
    ensures m.downloads == Some(Offered(previous) + OwnEntries(r))
  {
    PreviousIsOffered(r, previous);
    forall p: Platform ensures Offers(r, Offered(previous), m.downloads.value, p) {
      DraftOffers(r, previous, p);
    }
    OverlayOfOffers(r, Offered(previous), m.downloads.value);
  }

  lemma ReleasedIsOffered(r: Release, previous: Option<Manifest>, m: Manifest)
    requires Released(r, previous, m)
    ensures m.downloads == Some(Offered(Some(m)))
  {
    ReleasedIsPublished(r, previous, m);
  }

  lemma ReleasedAdvances(r: Release, previous: Manifest, m: Manifest)
    requires Released(r, Some(previous), m)
    ensures Advances(previous, m)
  {
  }

  lemma ReleasedSelects(r: Release, previous: Option<Manifest>, m: Manifest, p: Platform)
    requires Released(r, previous, m) && p in r.selected
    ensures OwnFiles(r, p).Some?
  {
    PayloadsSelect(r, previous, PreviousDownloads(r, previous).value, p);
  }

  ghost function Before(start: Option<Manifest>, ms: seq<Manifest>, i: nat): Option<Manifest>
    requires i <= |ms|
  {
    if i == 0 then start else Some(ms[i - 1])
  }

  ghost predicate ReleasedAt(start: Option<Manifest>, rs: seq<Release>, ms: seq<Manifest>, i: nat) {
    i < |rs| && i < |ms| && Released(rs[i], Before(start, ms, i), ms[i])
  }

  /** Each release is assembled on the manifest of the one before, the first one on `start`, which may
      be an older manifest without `downloads` or none at all. */
  ghost predicate IsChain(start: Option<Manifest>, rs: seq<Release>, ms: seq<Manifest>) {
    |rs| == |ms| && forall i: nat | i < |rs| :: ReleasedAt(start, rs, ms, i)
  }

  lemma ChainIsPublished(start: Option<Manifest>, rs: seq<Release>, ms: seq<Manifest>, i: nat)
    requires IsChain(start, rs, ms) && i < |ms|
    ensures Published(ms[i])
  {
    assert ReleasedAt(start, rs, ms, i);
    ReleasedIsPublished(rs[i], Before(start, ms, i), ms[i]);
  }

  ghost predicate AdvancesAt(all: seq<Manifest>, k: nat) {
    0 < k < |all| && Advances(all[k - 1], all[k])
  }

  lemma {:induction false} AdvancesAlong(all: seq<Manifest>, i: nat, j: nat)
    requires i < j < |all| && forall k: nat | 0 < k < |all| :: AdvancesAt(all, k)
    ensures Advances(all[i], all[j])
  {
    assert AdvancesAt(all, j);
    if i < j - 1 {
      AdvancesAlong(all, i, j - 1);
    }
  }

  lemma ChainAdvances(start: Option<Manifest>, rs: seq<Release>, ms: seq<Manifest>, k: nat)
    requires IsChain(start, rs, ms) && k < |ms|
    ensures k > 0 ==> Advances(ms[k - 1], ms[k])
    ensures k == 0 && start.Some? ==> Advances(start.value, ms[0])
  {
    assert ReleasedAt(start, rs, ms, k);
    if Before(start, ms, k).Some? {
      ReleasedAdvances(rs[k], Before(start, ms, k).value, ms[k]);
    }
  }

  function Line(start: Option<Manifest>, ms: seq<Manifest>): seq<Manifest> {
    (if start.Some? then [start.value] else []) + ms
  }

  lemma LineAdvances(start: Option<Manifest>, rs: seq<Release>, ms: seq<Manifest>, k: nat)
    requires IsChain(start, rs, ms) && 0 < k < |Line(start, ms)|
    ensures AdvancesAt(Line(start, ms), k)
  {
    ChainAdvances(start, rs, ms, if start.Some? then k - 1 else k);
  }

  /** Versions strictly increase along a chain, from its start on. */
  lemma VersionsIncrease(start: Option<Manifest>, rs: seq<Release>, ms: seq<Manifest>, i: nat, j: nat)
    requires IsChain(start, rs, ms) && i < j < |Line(start, ms)|
    ensures Advances(Line(start, ms)[i], Line(start, ms)[j])
  {
    forall k: nat | 0 < k < |Line(start, ms)| ensures AdvancesAt(Line(start, ms), k) {
      LineAdvances(start, rs, ms, k);
    }
    AdvancesAlong(Line(start, ms), i, j);
  }

  // ---------------------------------------------------------------- the offers along a chain

  ghost predicate OverlaidAt(base: Downloads, updates: seq<Downloads>, results: seq<Downloads>, k: nat) {
    && k < |updates| && k < |results|
    && results[k] == (if k == 0 then base else results[k - 1]) + updates[k]
  }

  /** Each of `results` is the one before, or `base`, overlaid with an update. */
  ghost predicate AreOverlaid(base: Downloads, updates: seq<Downloads>, results: seq<Downloads>) {
    |updates| == |results| && forall k: nat | k < |updates| :: OverlaidAt(base, updates, results, k)
  }

  lemma {:induction false} LatestUpdateStays(base: Downloads, updates: seq<Downloads>, results: seq<Downloads>,
                                             j: nat, i: nat, p: Platform)
    requires AreOverlaid(base, updates, results) && j <= i < |updates| && p in updates[j]
    requires forall k | j < k <= i :: p !in updates[k]
    ensures p in results[i] && results[i][p] == updates[j][p]
  {
    assert OverlaidAt(base, updates, results, i);
    if j < i {
      LatestUpdateStays(base, updates, results, j, i - 1, p);
      assert p !in updates[i];
    }
  }

  lemma {:induction false} BaseStays(base: Downloads, updates: seq<Downloads>, results: seq<Downloads>,
                                     i: nat, p: Platform)
    requires AreOverlaid(base, updates, results) && i < |updates|
    requires forall k | 0 <= k <= i :: p !in updates[k]
    ensures (p in results[i] <==> p in base) && (p in base ==> results[i][p] == base[p])
  {
    assert OverlaidAt(base, updates, results, i);
    assert p !in updates[i];
    if i > 0 {
      BaseStays(base, updates, results, i - 1, p);
    }
  }

  lemma ChainOffers(start: Option<Manifest>, rs: seq<Release>, ms: seq<Manifest>, k: nat)
    requires IsChain(start, rs, ms) && k < |rs|
    ensures ms[k].downloads.Some? && (k > 0 ==> ms[k - 1].downloads.Some?)
    ensures ms[k].downloads.value == (if k == 0 then Offered(start) else ms[k - 1].downloads.value) + OwnEntries(rs[k])
  {
    assert ReleasedAt(start, rs, ms, k);
    if k > 0 {
      assert ReleasedAt(start, rs, ms, k - 1);
      ReleasedIsOffered(rs[k - 1], Before(start, ms, k - 1), ms[k - 1]);
    }
    ReleasedOffers(rs[k], Before(start, ms, k), ms[k]);
  }

  lemma ChainOverlays(start: Option<Manifest>, rs: seq<Release>, ms: seq<Manifest>)
    returns (updates: seq<Downloads>, results: seq<Downloads>)
    requires IsChain(start, rs, ms)
    ensures AreOverlaid(Offered(start), updates, results) && |updates| == |rs|
    ensures forall k | 0 <= k < |rs| :: updates[k] == OwnEntries(rs[k]) && ms[k].downloads == Some(results[k])
  {
    forall k | 0 <= k < |rs| ensures ms[k].downloads.Some? {
      ChainOffers(start, rs, ms, k);
    }
    updates := seq(|rs|, k requires 0 <= k < |rs| => OwnEntries(rs[k]));
    results := seq(|rs|, k requires 0 <= k < |rs| => ms[k].downloads.value);
    forall k: nat | k < |rs| ensures OverlaidAt(Offered(start), updates, results, k) {
      ChainOffers(start, rs, ms, k);
    }
  }

  /** The entry of a platform is the one of the latest release that selected it. */
  lemma LatestSelectionOffered(start: Option<Manifest>, rs: seq<Release>, ms: seq<Manifest>,
                               j: nat, i: nat, p: Platform)
    requires IsChain(start, rs, ms) && j <= i < |ms| && p in rs[j].selected
    requires forall k | j < k <= i :: p !in rs[k].selected
    ensures OwnFiles(rs[j], p).Some? && ms[i].downloads.Some? && p in ms[i].downloads.value
    ensures ms[i].downloads.value[p] == Entry(rs[j].version, rs[j].tag, OwnFiles(rs[j], p).value)
  {
    var updates, results := ChainOverlays(start, rs, ms);
    assert ReleasedAt(start, rs, ms, j);
    ReleasedSelects(rs[j], Before(start, ms, j), ms[j], p);
    LatestUpdateStays(Offered(start), updates, results, j, i, p);
  }

  /** A platform no release selected keeps the entry of the start, and is not offered if it had none. */
  lemma NeverSelectedKeepsStart(start: Option<Manifest>, rs: seq<Release>, ms: seq<Manifest>, i: nat, p: Platform)
    requires IsChain(start, rs, ms) && i < |ms| && forall k | 0 <= k <= i :: p !in rs[k].selected
    ensures ms[i].downloads.Some? && (p in ms[i].downloads.value <==> p in Offered(start))
    ensures p in Offered(start) ==> ms[i].downloads.value[p] == Offered(start)[p]
  {
    var updates, results := ChainOverlays(start, rs, ms);
    BaseStays(Offered(start), updates, results, i, p);
  }

  /** Along a chain whose published feeds stay intact, carrying them forward never fails. */
  lemma ChainCarriesFeeds(start: Option<Manifest>, rs: seq<Release>, ms: seq<Manifest>,
                          i: nat, dir: map<string, Digest>)
    requires IsChain(start, rs, ms) && i < |ms| && Intact(ms[i], dir)
    ensures DownloadIndex(ms[i]).Some? && CarryFeeds(ms[i], DownloadIndex(ms[i]).value, dir).Some?
  {
    ChainIsPublished(start, rs, ms, i);
    CarryingSucceeds(ms[i], dir);
  }

  // ---------------------------------------------------------------- an instance

  const PREVIEW := Release(
    "1.0.0", "v1.0.0", "preview", [Windows], "", map[ExeName("1.0.0") := Digest(seq(64, _ => '0'), 1)],
    {ExeName("1.0.0")}, {Windows}, true, map[])

  lemma OneZeroZero()
    ensures VersionTuple("1.0.0") == Some(Version(1, 0, 0))
  {
    assert "1.0.0"[1..] == ".0.0" && "1.0.0"[2..] == "0.0" && "0.0"[1..] == ".0" && "0.0"[2..] == "0" && "0"[1..] == "";
    assert UpToDot(".0.0") == "" && UpToDot("1.0.0") == "1";
    assert UpToDot(".0") == "" && UpToDot("0.0") == "0";
    assert "1"[..0] == "" && "0"[..0] == "";
    assert NumeralValue("1") == 1 && NumeralValue("0") == 0;
  }

  lemma PreviewPayloads()
    ensures Payloads(PREVIEW, None, map[]).Some?
  {
    assert Windows in PREVIEW.selected && Linux !in PREVIEW.selected && MacOS !in PREVIEW.selected
        && Android !in PREVIEW.selected;
    assert WindowsFiles(PREVIEW).Some?;
  }

  /** A preview release that gets as far as the final check and is refused there. */
  lemma PreviewRefused()
    ensures WellFormed(PREVIEW) && Draft(PREVIEW, None).Some? && Assemble(PREVIEW, None).None?
  {
    OneZeroZero();
    assert "v" + "1.0.0" == "v1.0.0";
    PreviewPayloads();
    FinalCheckAccepts(PREVIEW, None);
  }
}
