/** Collecting a package: path, size and metadata checks over the listed files, and the digest
    of what was read. The listing order plays no part in what is admitted. */
module PackageCollection {
  import opened Basics
  import opened ByteOrder
  import opened PackageDigest
  import Text

  const MAX_PACKAGE_FILES: nat := 10000
  const MAX_PACKAGE_BYTES: nat := 512 * 1024 * 1024
  const MAX_PACKAGE_FILE_BYTES: nat := 64 * 1024 * 1024

  datatype Entry = Entry(path: string, size: int, isFile: bool)

  datatype StatKind = Regular | Symlink | Other | Missing

  datatype Stat = Stat(kind: StatKind, size: int, mtimeNs: int)

  /** What the callbacks answer: the stat before and after reading, and the content read. */
  datatype Source = Source(before: string -> Option<Stat>, after: string -> Option<Stat>, read: string -> Option<Bytes>)

  /** The text of `iweb.json`, and the canonical text of the value it parses to, if it does. */
  datatype RawText = RawText(text: string, parsed: Option<string>)

  /** What is looked at of a manifest, its canonical text, and the text that may come with it. */
  datatype Manifest = Manifest(entrypoint: string, assetsRoot: string, canonicalText: string, raw: Option<RawText>)

  datatype Collection =
    | Collected(digest: Bytes, fileCount: nat, bytes: int, files: seq<Entry>)
    | Refused(errors: seq<string>)

  type Encoding = string -> Bytes

  // ------------------------------------------------------------------ paths

  predicate SafePackagePath(p: string) {
    && 0 < |p| <= 512 && p[0] != '/'
    && ".." !in Text.Split(p, '/')
    && forall i :: 0 <= i < |p| ==> p[i] as int > 0x1f
  }

  /** The segment stands in the path between slashes or an end. */
  ghost predicate HasSegment(p: string, segment: string) {
    exists i, k :: IsSegmentAt(p, i, k) && p[i..k] == segment
  }

  predicate IsSegmentAt(p: string, i: int, k: int) {
    && 0 <= i <= k <= |p| && '/' !in p[i..k]
    && (i == 0 || p[i - 1] == '/') && (k == |p| || p[k] == '/')
  }

  lemma {:induction false} SegmentIff(p: string, segment: string)
    ensures segment in Text.Split(p, '/') <==> HasSegment(p, segment)
  {
    var k := FirstSlash(p);
    assert IsSegmentAt(p, 0, k);
    if k == |p| {
      Text.SplitOfPart(p, '/');
      assert p[0..k] == p;
      OnlySegment(p);
    } else {
      var rest := p[k + 1..];
      assert p[..k] == p[0..k] && p == p[..k] + ['/'] + rest;
      Text.SplitAfterPart(p[..k], rest, '/');
      SegmentIff(rest, segment);
      LaterSegments(p, k, segment);
    }
  }

  function FirstSlash(p: string): (k: nat)
    ensures k <= |p| && '/' !in p[..k] && (k < |p| ==> p[k] == '/')
  {
    if p == "" || p[0] == '/' then 0
    else
      var k := FirstSlash(p[1..]);
      assert p[..k + 1] == [p[0]] + p[1..][..k];
      k + 1
  }

  lemma OnlySegment(p: string)
    requires '/' !in p
    ensures forall i, k :: IsSegmentAt(p, i, k) ==> i == 0 && k == |p|
  {
    assert forall x :: 0 <= x < |p| ==> p[x] in p;
  }

  lemma NoSlash(p: string, i: int, k: int)
    requires 0 <= i <= k <= |p| && '/' !in p[i..k]
    ensures forall x :: i <= x < k ==> p[x] != '/'
  {
    forall x | i <= x < k ensures p[x] != '/' { assert p[i..k][x - i] in p[i..k]; }
  }

  lemma SliceOfRest(p: string, n: int, i: int, k: int)
    requires 0 <= n <= i <= k <= |p|
    ensures p[n..][i - n..k - n] == p[i..k]
  {
    assert |p[n..][i - n..k - n]| == |p[i..k]|;
    forall x | 0 <= x < k - i ensures p[n..][i - n..k - n][x] == p[i..k][x] {}
  }

  /** Behind its first slash a path has the segments of the rest. */
  lemma LaterSegments(p: string, k: nat, segment: string)
    requires k < |p| && p[k] == '/' && '/' !in p[0..k]
    ensures HasSegment(p, segment) <==> segment == p[0..k] || HasSegment(p[k + 1..], segment)
  {
    var rest := p[k + 1..];
    if segment == p[0..k] { assert IsSegmentAt(p, 0, k); }
    if i, m :| IsSegmentAt(rest, i, m) && rest[i..m] == segment {
      SegmentOfRest(p, k, i + k + 1, m + k + 1);
    }
    if i, m :| IsSegmentAt(p, i, m) && p[i..m] == segment {
      NoSlash(p, i, m);
      NoSlash(p, 0, k);
      if i > k { SegmentOfRest(p, k, i, m); }
    }
  }

  lemma SegmentOfRest(p: string, k: nat, i: int, m: int)
    requires k < |p| && p[k] == '/' && k < i <= m <= |p|
    ensures p[k + 1..][i - k - 1..m - k - 1] == p[i..m]
    ensures IsSegmentAt(p[k + 1..], i - k - 1, m - k - 1) <==> IsSegmentAt(p, i, m)
  {
    SliceOfRest(p, k + 1, i, m);
  }

  /** A safe path is relative, has no control character and no segment that leads upwards. */
  lemma SafeIff(p: string)
    ensures SafePackagePath(p) <==>
            && 1 <= |p| <= 512 && p[0] != '/' && !HasSegment(p, "..")
            && forall i :: 0 <= i < |p| ==> p[i] as int >= 32
  {
    SegmentIff(p, "..");
  }

  lemma {:induction false} KeptAre(segments: seq<string>, segment: string)
    ensures segment in KeptSegments(segments) <==> segment in segments && segment != "" && segment != "."
  {
    if segments != [] {
      KeptAre(segments[1..], segment);
      assert segments == [segments[0]] + segments[1..];
    }
  }

  /** The normal form of a path has exactly its segments that lead somewhere, in order; that of
      a safe path stays below its root. */
  lemma NormalSegments(p: string)
    ensures NormalizePath(p) != "" ==> Text.Split(NormalizePath(p), '/') == KeptSegments(Text.Split(p, '/'))
    ensures forall segment :: segment in KeptSegments(Text.Split(p, '/')) <==>
              HasSegment(p, segment) && segment != "" && segment != "."
    ensures SafePackagePath(p) ==> !HasSegment(NormalizePath(p), "..")
  {
    var segments := Text.Split(p, '/');
    Text.SplitIsWithout(p, '/');
    KeptAreKept(segments);
    if KeptSegments(segments) != [] { Text.SplitOfJoin(KeptSegments(segments), '/'); }
    forall segment
      ensures segment in KeptSegments(segments) <==> HasSegment(p, segment) && segment != "" && segment != "."
    {
      SegmentIff(p, segment);
      KeptAre(segments, segment);
    }
    if SafePackagePath(p) {
      SafeIff(p);
      SegmentIff(NormalizePath(p), "..");
      if KeptSegments(segments) == [] { assert Text.Split("", '/') == [""]; }
    }
  }

  predicate IsKept(segment: string) { segment != "" && segment != "." }

  function KeptSegments(segments: seq<string>): seq<string> {
    if segments == [] then []
    else (if IsKept(segments[0]) then [segments[0]] else []) + KeptSegments(segments[1..])
  }

  /** Repeated slashes collapse and `.` segments go. */
  function NormalizePath(p: string): string { Text.Join(KeptSegments(Text.Split(p, '/')), '/') }

  lemma {:induction false} KeptAreKept(segments: seq<string>)
    ensures forall i :: 0 <= i < |KeptSegments(segments)| ==> IsKept(KeptSegments(segments)[i])
    ensures Text.Without(segments, '/') ==> Text.Without(KeptSegments(segments), '/')
  {
    if segments != [] {
      KeptAreKept(segments[1..]);
      assert Text.Without(segments, '/') ==> Text.Without(segments[1..], '/') by {
        assert forall i :: 0 <= i < |segments[1..]| ==> segments[1..][i] == segments[i + 1];
      }
    }
  }

  lemma {:induction false} KeepingAgain(segments: seq<string>)
    requires forall i :: 0 <= i < |segments| ==> IsKept(segments[i])
    ensures KeptSegments(segments) == segments
  {
    if segments != [] { KeepingAgain(segments[1..]); }
  }

  /** A normalized path is its own normal form. */
  lemma NormalizingAgain(p: string)
    ensures NormalizePath(NormalizePath(p)) == NormalizePath(p)
  {
    var segments := Text.Split(p, '/');
    var kept := KeptSegments(segments);
    Text.SplitIsWithout(p, '/');
    KeptAreKept(segments);
    KeepingAgain(kept);
    if kept == [] {
      assert Text.Split("", '/') == [""];
      assert KeptSegments([""]) == KeptSegments([""][1..]);
    } else {
      Text.SplitOfJoin(kept, '/');
    }
  }

  // ------------------------------------------------------------------ what is admitted

  function TotalBytes(files: seq<Entry>): int {
    if files == [] then 0 else TotalBytes(files[..|files| - 1]) + files[|files| - 1].size
  }

  predicate EntryOk(e: Entry) { SafePackagePath(e.path) && e.isFile && 0 <= e.size <= MAX_PACKAGE_FILE_BYTES }

  predicate AllEntriesOk(files: seq<Entry>) { forall i :: 0 <= i < |files| ==> EntryOk(files[i]) }

  predicate DistinctPaths(files: seq<Entry>) {
    forall i, k :: 0 <= i < k < |files| ==> NormalizePath(files[i].path) != NormalizePath(files[k].path)
  }

  predicate ListingOk(files: seq<Entry>) {
    |files| <= MAX_PACKAGE_FILES && AllEntriesOk(files) && DistinctPaths(files)
      && TotalBytes(files) <= MAX_PACKAGE_BYTES
  }

  /** A regular file of the declared size that was read whole and did not change meanwhile. */
  predicate ReadOk(src: Source, e: Entry) {
    var before, after, content := src.before(e.path), src.after(e.path), src.read(e.path);
    && before.Some? && before.value.kind == Regular && before.value.size == e.size
    && content.Some? && |content.value| == e.size
    && after.Some? && after.value.kind == Regular && after.value.size == before.value.size
    && after.value.mtimeNs == before.value.mtimeNs
  }

  predicate AllRead(src: Source, files: seq<Entry>) { forall i :: 0 <= i < |files| ==> ReadOk(src, files[i]) }

  /** Text that comes with a manifest is its canonical text and parses to its value. */
  predicate RawTextOk(m: Manifest) {
    m.raw.Some? ==> m.raw.value.text == m.canonicalText && m.raw.value.parsed == Some(m.canonicalText)
  }

  predicate ManifestOk(m: Manifest, files: seq<Entry>) {
    && RawTextOk(m)
    && (exists i :: 0 <= i < |files| && NormalizePath(files[i].path) == m.entrypoint)
    && m.assetsRoot + "/" <= m.entrypoint
    && exists i :: 0 <= i < |files| && m.assetsRoot + "/" <= NormalizePath(files[i].path)
  }

  predicate Admitted(m: Manifest, src: Source, files: seq<Entry>) {
    ListingOk(files) && AllRead(src, files) && ManifestOk(m, files)
  }

  function FileOf(utf8: Encoding, src: Source, e: Entry): PackageFile {
    var content := src.read(e.path);
    PackageFile(utf8(e.path), if content.Some? then content.value else [])
  }

  function Snapshot(utf8: Encoding, src: Source, files: seq<Entry>): (r: seq<PackageFile>)
    ensures |r| == |files| && forall i :: 0 <= i < |r| ==> r[i] == FileOf(utf8, src, files[i])
  {
    seq(|files|, i requires 0 <= i < |files| => FileOf(utf8, src, files[i]))
  }

  // ------------------------------------------------------------------ collecting

  function InsertEntry(utf8: Encoding, s: seq<Entry>, e: Entry): (r: seq<Entry>)
    ensures multiset(r) == multiset(s) + multiset{e}
  {
    if s == [] || LexLess(utf8(e.path), utf8(s[0].path)) then [e] + s
    else
      assert s == [s[0]] + s[1..];
      [s[0]] + InsertEntry(utf8, s[1..], e)
  }

  /** The listed files in byte order of their paths. */
  function SortEntries(utf8: Encoding, s: seq<Entry>): (r: seq<Entry>)
    ensures multiset(r) == multiset(s)
  {
    if s == [] then []
    else
      assert s == s[..|s| - 1] + [s[|s| - 1]];
      InsertEntry(utf8, SortEntries(utf8, s[..|s| - 1]), s[|s| - 1])
  }

  /** The errors of one listed file, against the paths seen before it. */
  method CheckEntry(file: Entry, seenPaths: set<string>) returns (errors: seq<string>)
    ensures errors == [] <==> EntryOk(file) && NormalizePath(file.path) !in seenPaths
  {
    errors := [];
    if !SafePackagePath(file.path) {
      errors := errors + ["INVALID_PATH"];
    }
    if NormalizePath(file.path) in seenPaths {
      errors := errors + ["PACKAGE_DUPLICATE_PATH"];
    }
    if !file.isFile {
      errors := errors + ["INVALID_FILE_KIND"];
    }
    if file.size < 0 || file.size > MAX_PACKAGE_FILE_BYTES {
      errors := errors + ["INVALID_SIZE"];
    }
  }

  method CheckListing(files: seq<Entry>) returns (errors: seq<string>, totalBytes: int)
    ensures errors == [] <==> ListingOk(files)
    ensures totalBytes == TotalBytes(files)
  {
    errors := [];
    if |files| > MAX_PACKAGE_FILES {
      errors := errors + ["PACKAGE_TOO_MANY_FILES"];
    }
    totalBytes := 0;
    var seenPaths: set<string> := {};
    var i := 0;
    while i < |files|
      invariant 0 <= i <= |files| && totalBytes == TotalBytes(files[..i])
      invariant seenPaths == PathsUpTo(files, i)
      invariant errors == [] <==> |files| <= MAX_PACKAGE_FILES && CheckedUpTo(files, i)
    {
      OneMoreEntry(files, i);
      OneMorePath(files, i);
      PrefixElements(files, i);
      var found := CheckEntry(files[i], seenPaths);
      errors := errors + found;
      seenPaths := seenPaths + {NormalizePath(files[i].path)};
      totalBytes := totalBytes + files[i].size;
      i := i + 1;
    }
    assert files[..i] == files;
    if totalBytes > MAX_PACKAGE_BYTES {
      errors := errors + ["PACKAGE_TOO_LARGE"];
    }
  }

  function PathsUpTo(files: seq<Entry>, i: nat): set<string>
    requires i <= |files|
  {
    set k | 0 <= k < i :: NormalizePath(files[k].path)
  }

  predicate CheckedUpTo(files: seq<Entry>, i: nat)
    requires i <= |files|
  {
    AllEntriesOk(files[..i]) && DistinctPaths(files[..i])
  }

  lemma PrefixElements(files: seq<Entry>, i: nat)
    requires i < |files|
    ensures files[..i + 1] == files[..i] + [files[i]]
    ensures TotalBytes(files[..i + 1]) == TotalBytes(files[..i]) + files[i].size
  {
    assert files[..i + 1][..i] == files[..i];
  }

  lemma OneMoreDistinct(some: seq<Entry>, e: Entry)
    ensures DistinctPaths(some + [e]) <==>
            DistinctPaths(some) && forall k :: 0 <= k < |some| ==> NormalizePath(some[k].path) != NormalizePath(e.path)
  {
    var more := some + [e];
    assert forall k :: 0 <= k < |some| ==> more[k] == some[k];
    assert more[|some|] == e;
  }

  lemma OneMoreOk(some: seq<Entry>, e: Entry)
    ensures AllEntriesOk(some + [e]) <==> AllEntriesOk(some) && EntryOk(e)
  {
    var more := some + [e];
    assert forall k :: 0 <= k < |some| ==> more[k] == some[k];
    assert more[|some|] == e;
  }

  lemma SeenIffListed(files: seq<Entry>, i: nat, path: string)
    requires i <= |files|
    ensures path in PathsUpTo(files, i)
            <==> exists k :: 0 <= k < |files[..i]| && NormalizePath(files[..i][k].path) == path
  {
    assert forall k :: 0 <= k < i ==> files[..i][k] == files[k];
  }

  lemma OneMoreEntry(files: seq<Entry>, i: nat)
    requires i < |files|
    ensures CheckedUpTo(files, i + 1) <==>
            CheckedUpTo(files, i) && EntryOk(files[i]) && NormalizePath(files[i].path) !in PathsUpTo(files, i)
  {
    PrefixElements(files, i);
    OneMoreOk(files[..i], files[i]);
    OneMoreDistinct(files[..i], files[i]);
    SeenIffListed(files, i, NormalizePath(files[i].path));
  }

  lemma OneMorePath(files: seq<Entry>, i: nat)
    requires i < |files|
    ensures PathsUpTo(files, i + 1) == PathsUpTo(files, i) + {NormalizePath(files[i].path)}
  {
  }

  /** One file: its error, or its content. */
  method ReadFile(src: Source, file: Entry) returns (error: Option<string>, content: Bytes)
    ensures error.None? <==> ReadOk(src, file)
    ensures error.None? ==> Some(content) == src.read(file.path)
  {
    content := [];
    var before := src.before(file.path);
    if before.None? {
      return Some("PACKAGE_STAT_FAILED"), content;
    }
    if before.value.kind == Symlink {
      return Some("PACKAGE_SYMLINK"), content;
    }
    if before.value.kind == Missing {
      return Some("PACKAGE_MISSING"), content;
    }
    if before.value.kind != Regular {
      return Some("PACKAGE_NON_REGULAR"), content;
    }
    if before.value.size != file.size {
      return Some("SIZE_MISMATCH"), content;
    }
    var read := src.read(file.path);
    if read.None? {
      return Some("PACKAGE_READ_FAILED"), content;
    }
    content := read.value;
    if |content| != file.size {
      return Some("SIZE_MISMATCH"), content;
    }
    var after := src.after(file.path);
    if after.None? || after.value.kind != Regular || after.value.size != before.value.size
       || after.value.mtimeNs != before.value.mtimeNs {
      return Some("PACKAGE_TOCTOU_CHANGED"), content;
    }
    error := None;
  }

  method ReadFiles(utf8: Encoding, src: Source, canonical: seq<Entry>)
      returns (errors: seq<string>, digested: seq<PackageFile>)
    ensures errors == [] <==> AllRead(src, canonical)
    ensures errors == [] ==> digested == Snapshot(utf8, src, canonical)
  {
    errors, digested := [], [];
    var i := 0;
    while i < |canonical|
      invariant 0 <= i <= |canonical|
      invariant errors == [] <==> forall k :: 0 <= k < i ==> ReadOk(src, canonical[k])
      invariant errors == [] ==> digested == Snapshot(utf8, src, canonical)[..i]
    {
      var error, content := ReadFile(src, canonical[i]);
      if error.Some? {
        errors := errors + [error.value];
      } else {
        digested := digested + [PackageFile(utf8(canonical[i].path), content)];
      }
      i := i + 1;
    }
    assert Snapshot(utf8, src, canonical)[..i] == Snapshot(utf8, src, canonical);
  }

  method CheckManifest(m: Manifest, files: seq<Entry>) returns (errors: seq<string>)
    ensures errors == [] <==> ManifestOk(m, files)
  {
    errors := [];
    var entrypoint, assets := false, false;
    var i := 0;
    while i < |files|
      invariant 0 <= i <= |files|
      invariant entrypoint <==> exists k :: 0 <= k < i && NormalizePath(files[k].path) == m.entrypoint
      invariant assets <==> exists k :: 0 <= k < i && m.assetsRoot + "/" <= NormalizePath(files[k].path)
    {
      var normalized := NormalizePath(files[i].path);
      entrypoint := entrypoint || normalized == m.entrypoint;
      assets := assets || m.assetsRoot + "/" <= normalized;
      i := i + 1;
    }
    if !entrypoint {
      errors := errors + ["MANIFEST_ENTRYPOINT_MISSING"];
    }
    if !(m.assetsRoot + "/" <= m.entrypoint) {
      errors := errors + ["MANIFEST_ENTRYPOINT_OUTSIDE_ASSETS"];
    }
    if !assets {
      errors := errors + ["MANIFEST_ASSETS_ROOT_MISSING"];
    }
    if m.raw.Some? {
      if m.raw.value.parsed.None? {
        errors := errors + ["MANIFEST_INVALID_TEXT"];
      } else if m.raw.value.text != m.canonicalText || m.raw.value.parsed.value != m.canonicalText {
        errors := errors + ["MANIFEST_NOT_CANONICAL"];
      }
    }
  }

  /** Distinct listed paths have distinct bytes; ill-formed strings need not. */
  predicate Injective(utf8: Encoding, files: seq<Entry>) {
    forall i, k :: 0 <= i < |files| && 0 <= k < |files| && utf8(files[i].path) == utf8(files[k].path) ==>
      files[i].path == files[k].path
  }

  /** Admitted exactly when every check holds; the digest is that of the files as listed, in
      whatever order they are listed. */
  method CollectPackage(utf8: Encoding, m: Manifest, src: Source, files: seq<Entry>) returns (r: Collection)
    ensures r.Collected? <==> Admitted(m, src, files)
    ensures r.Collected? ==>
              && multiset(r.files) == multiset(files) && r.fileCount == |files| && r.bytes == TotalBytes(files)
              && (Injective(utf8, files) ==> r.digest == Stream(Canonical(Snapshot(utf8, src, files))))
  {
    var errors, totalBytes := CheckListing(files);
    var canonical := SortEntries(utf8, files);
    var readErrors, digested := ReadFiles(utf8, src, canonical);
    SameMembers(src, files, canonical);
    var manifestErrors := CheckManifest(m, files);
    errors := errors + readErrors + manifestErrors;
    if errors != [] {
      return Refused(errors);
    }
    var digest := PackageFilesDigest(digested);
    if Injective(utf8, files) {
      SnapshotMultiset(utf8, src, files, canonical);
      SnapshotIsFunctional(utf8, src, files);
      OneContentOneOrder(Snapshot(utf8, src, files), Snapshot(utf8, src, canonical));
    }
    assert |multiset(canonical)| == |canonical| && |multiset(files)| == |files|;
    r := Collected(digest, |canonical|, totalBytes, canonical);
  }

  lemma SameMembers(src: Source, a: seq<Entry>, b: seq<Entry>)
    requires multiset(a) == multiset(b)
    ensures AllRead(src, a) <==> AllRead(src, b)
  {
    forall i | 0 <= i < |a| ensures a[i] in b { assert a[i] in multiset(b); }
    forall i | 0 <= i < |b| ensures b[i] in a { assert b[i] in multiset(a); }
  }

  lemma SnapshotIsFunctional(utf8: Encoding, src: Source, files: seq<Entry>)
    requires Injective(utf8, files)
    ensures Functional(Snapshot(utf8, src, files))
  {
  }

  lemma SnapshotOfConcat(utf8: Encoding, src: Source, a: seq<Entry>, b: seq<Entry>)
    ensures Snapshot(utf8, src, a + b) == Snapshot(utf8, src, a) + Snapshot(utf8, src, b)
  {
  }

  /** Taking the last of one list out of the other leaves two lists of the same members. */
  lemma TakenOut(a: seq<Entry>, b: seq<Entry>) returns (k: nat)
    requires a != [] && multiset(a) == multiset(b)
    ensures k < |b| && b[k] == a[|a| - 1]
    ensures b == b[..k] + [b[k]] + b[k + 1..] && a == a[..|a| - 1] + [b[k]]
    ensures multiset(a[..|a| - 1]) == multiset(b[..k] + b[k + 1..])
  {
    var last := a[|a| - 1];
    assert last in multiset(b);
    k :| 0 <= k < |b| && b[k] == last;
    assert a == a[..|a| - 1] + [last];
    assert b == b[..k] + [last] + b[k + 1..];
    assert multiset(b[..k] + b[k + 1..]) == multiset(b) - multiset{last};
  }

  lemma {:induction false} SnapshotMultiset(utf8: Encoding, src: Source, a: seq<Entry>, b: seq<Entry>)
    requires multiset(a) == multiset(b)
    ensures multiset(Snapshot(utf8, src, a)) == multiset(Snapshot(utf8, src, b))
    decreases |a|
  {
    assert |a| == |multiset(a)| == |multiset(b)| == |b|;
    if a != [] {
      var k := TakenOut(a, b);
      SnapshotMultiset(utf8, src, a[..|a| - 1], b[..k] + b[k + 1..]);
      SnapshotOfConcat(utf8, src, a[..|a| - 1], [b[k]]);
      SnapshotOfConcat(utf8, src, b[..k] + [b[k]], b[k + 1..]);
      SnapshotOfConcat(utf8, src, b[..k], [b[k]]);
      SnapshotOfConcat(utf8, src, b[..k], b[k + 1..]);
    }
  }

  // ------------------------------------------------------------------ the listing order

  lemma {:induction false} TotalOfConcat(a: seq<Entry>, b: seq<Entry>)
    ensures TotalBytes(a + b) == TotalBytes(a) + TotalBytes(b)
    decreases |b|
  {
    if b == [] {
      assert a + b == a;
    } else {
      assert (a + b)[..|a + b| - 1] == a + b[..|b| - 1];
      TotalOfConcat(a, b[..|b| - 1]);
    }
  }

  lemma {:induction false} TotalIgnoresOrder(a: seq<Entry>, b: seq<Entry>)
    requires multiset(a) == multiset(b)
    ensures TotalBytes(a) == TotalBytes(b)
    decreases |a|
  {
    assert |a| == |multiset(a)| == |multiset(b)| == |b|;
    if a != [] {
      var k := TakenOut(a, b);
      TotalIgnoresOrder(a[..|a| - 1], b[..k] + b[k + 1..]);
      TotalOfConcat(b[..k], b[k + 1..]);
      TotalOfConcat(b[..k] + [b[k]], b[k + 1..]);
      TotalOfConcat(b[..k], [b[k]]);
      assert [b[k]][..0] == [];
    }
  }

  /** How often a normalized path is listed. */
  function Listed(files: seq<Entry>, path: string): nat {
    if files == [] then 0
    else Listed(files[..|files| - 1], path) + if NormalizePath(files[|files| - 1].path) == path then 1 else 0
  }

  lemma {:induction false} DistinctIffListedOnce(files: seq<Entry>)
    ensures DistinctPaths(files) <==> forall path :: Listed(files, path) <= 1
  {
    if files != [] {
      var m := |files| - 1;
      var path := NormalizePath(files[m].path);
      DistinctIffListedOnce(files[..m]);
      ListedSomewhere(files[..m], path);
      DistinctStep(files);
      if DistinctPaths(files) {
        forall p ensures Listed(files, p) <= 1 { assert Listed(files[..m], p) <= 1; }
      } else {
        if Listed(files[..m], path) > 0 {
          assert Listed(files, path) > 1;
        } else {
          var p :| Listed(files[..m], p) > 1;
          assert Listed(files, p) > 1;
        }
      }
    }
  }

  lemma DistinctStep(files: seq<Entry>)
    requires files != []
    ensures var m := |files| - 1;
            DistinctPaths(files) <==>
              DistinctPaths(files[..m])
              && !(exists k ::
                     0 <= k < |files[..m]| && NormalizePath(files[..m][k].path) == NormalizePath(files[m].path))
  {
    var m := |files| - 1;
    assert forall k :: 0 <= k < m ==> files[..m][k] == files[k];
  }

  lemma {:induction false} ListedSomewhere(files: seq<Entry>, path: string)
    ensures Listed(files, path) > 0 <==> exists k :: 0 <= k < |files| && NormalizePath(files[k].path) == path
  {
    if files != [] {
      var m := |files| - 1;
      ListedSomewhere(files[..m], path);
      assert forall k :: 0 <= k < m ==> files[..m][k] == files[k];
    }
  }

  lemma {:induction false} ListedOfConcat(a: seq<Entry>, b: seq<Entry>, path: string)
    ensures Listed(a + b, path) == Listed(a, path) + Listed(b, path)
    decreases |b|
  {
    if b == [] {
      assert a + b == a;
    } else {
      assert (a + b)[..|a + b| - 1] == a + b[..|b| - 1];
      ListedOfConcat(a, b[..|b| - 1], path);
    }
  }

  lemma {:induction false} ListedIgnoresOrder(a: seq<Entry>, b: seq<Entry>, path: string)
    requires multiset(a) == multiset(b)
    ensures Listed(a, path) == Listed(b, path)
    decreases |a|
  {
    assert |a| == |multiset(a)| == |multiset(b)| == |b|;
    if a != [] {
      var k := TakenOut(a, b);
      ListedIgnoresOrder(a[..|a| - 1], b[..k] + b[k + 1..], path);
      ListedOfConcat(b[..k], b[k + 1..], path);
      ListedOfConcat(b[..k] + [b[k]], b[k + 1..], path);
      ListedOfConcat(b[..k], [b[k]], path);
      assert [b[k]][..0] == [];
    }
  }

  lemma ManifestIgnoresOrder(m: Manifest, a: seq<Entry>, b: seq<Entry>)
    requires multiset(a) == multiset(b)
    ensures ManifestOk(m, a) ==> ManifestOk(m, b)
  {
    forall i | 0 <= i < |a| ensures exists k :: 0 <= k < |b| && b[k] == a[i] {
      assert a[i] in multiset(b);
    }
  }

  lemma AdmissionCarries(m: Manifest, src: Source, a: seq<Entry>, b: seq<Entry>)
    requires multiset(a) == multiset(b) && Admitted(m, src, a)
    ensures Admitted(m, src, b)
  {
    assert |a| == |multiset(a)| == |multiset(b)| == |b|;
    SameMembers(src, a, b);
    ManifestIgnoresOrder(m, a, b);
    TotalIgnoresOrder(a, b);
    DistinctIffListedOnce(a);
    DistinctIffListedOnce(b);
    forall path ensures Listed(b, path) <= 1 { ListedIgnoresOrder(a, b, path); }
    forall i | 0 <= i < |b| ensures EntryOk(b[i]) { assert b[i] in multiset(a); }
  }

  /** The order in which the files are listed changes neither the verdict nor the digest. */
  lemma ListingOrderDoesNotMatter(utf8: Encoding, m: Manifest, src: Source, a: seq<Entry>, b: seq<Entry>)
    requires multiset(a) == multiset(b) && Injective(utf8, a)
    ensures Admitted(m, src, a) <==> Admitted(m, src, b)
    ensures Canonical(Snapshot(utf8, src, a)) == Canonical(Snapshot(utf8, src, b))
  {
    if Admitted(m, src, a) { AdmissionCarries(m, src, a, b); }
    if Admitted(m, src, b) { AdmissionCarries(m, src, b, a); }
    SnapshotMultiset(utf8, src, a, b);
    SnapshotIsFunctional(utf8, src, a);
    OneContentOneOrder(Snapshot(utf8, src, a), Snapshot(utf8, src, b));
  }

  // ------------------------------------------------------------------ admission, in full

  /** A listed file is a plain file of at most 64 MiB under a safe path. */
  ghost predicate Listable(e: Entry) {
    && e.isFile && 0 <= e.size <= 67108864
    && 1 <= |e.path| <= 512 && e.path[0] != '/' && !HasSegment(e.path, "..")
    && forall i :: 0 <= i < |e.path| ==> e.path[i] as int >= 32
  }

  /** Before and after reading it is regular, of the listed size and untouched, and it was read
      whole. */
  ghost predicate ReadUnchanged(src: Source, e: Entry) {
    exists mtimeNs ::
      && src.before(e.path) == Some(Stat(Regular, e.size, mtimeNs))
      && src.after(e.path) == Some(Stat(Regular, e.size, mtimeNs))
      && src.read(e.path).Some? && |src.read(e.path).value| == e.size
  }

  /** The entry point is a listed file under the assets root, and a text that comes with the
      manifest is its canonical text. */
  ghost predicate ManifestFits(m: Manifest, files: seq<Entry>) {
    && (exists e :: e in files && NormalizePath(e.path) == m.entrypoint)
    && |m.assetsRoot| < |m.entrypoint| && m.entrypoint[..|m.assetsRoot|] == m.assetsRoot
    && m.entrypoint[|m.assetsRoot|] == '/'
    && (m.raw.Some? ==> m.raw.value.text == m.canonicalText && m.raw.value.parsed == Some(m.canonicalText))
  }

  lemma UnderRoot(root: string, p: string)
    ensures root + "/" <= p <==> |root| < |p| && p[..|root|] == root && p[|root|] == '/'
  {
    var start := root + "/";
    assert start[..|root|] == root && start[|root|] == '/';
    if |root| < |p| { assert p[..|start|] == p[..|root|] + [p[|root|]]; }
  }

  lemma ManifestFitsIff(m: Manifest, files: seq<Entry>)
    ensures ManifestOk(m, files) <==> ManifestFits(m, files)
  {
    UnderRoot(m.assetsRoot, m.entrypoint);
    if e :| e in files && NormalizePath(e.path) == m.entrypoint {
      var i :| 0 <= i < |files| && files[i] == e;
    }
    if i :| 0 <= i < |files| && NormalizePath(files[i].path) == m.entrypoint { assert files[i] in files; }
  }

  lemma ReadUnchangedIff(src: Source, e: Entry)
    ensures ReadOk(src, e) <==> ReadUnchanged(src, e)
  {
    if ReadOk(src, e) {
      var mtimeNs := src.before(e.path).value.mtimeNs;
      assert src.before(e.path) == Some(Stat(Regular, e.size, mtimeNs));
      assert src.after(e.path) == Some(Stat(Regular, e.size, mtimeNs));
    }
  }

  /** A package is admitted exactly with at most 10000 listable files of at most 512 MiB in all,
      no two of one normal path, each read unchanged, and a manifest that fits them. */
  lemma AdmittedIff(m: Manifest, src: Source, files: seq<Entry>)
    ensures Admitted(m, src, files) <==>
            && |files| <= 10000 && TotalBytes(files) <= 536870912
            && (forall e :: e in files ==> Listable(e) && ReadUnchanged(src, e))
            && (forall i, k :: 0 <= i < k < |files| ==> NormalizePath(files[i].path) != NormalizePath(files[k].path))
            && ManifestFits(m, files)
  {
    ManifestFitsIff(m, files);
    forall e | e in files ensures (EntryOk(e) <==> Listable(e)) && (ReadOk(src, e) <==> ReadUnchanged(src, e)) {
      SafeIff(e.path);
      ReadUnchangedIff(src, e);
    }
    assert AllEntriesOk(files) <==> forall e :: e in files ==> EntryOk(e);
    assert AllRead(src, files) <==> forall e :: e in files ==> ReadOk(src, e);
  }
}
