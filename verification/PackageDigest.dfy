/** The byte stream a package digest hashes: uniquely decodable, and a function of the set of
    files. The digest is modelled by the stream itself. */
module PackageDigest {
  import opened ByteOrder
  import opened Decimal

  type Bytes = seq<int>

  datatype PackageFile = PackageFile(path: Bytes, content: Bytes)

  // ------------------------------------------------------------------ the stream

  function LengthBytes(n: nat): (r: Bytes)
    ensures |r| > 0 && forall i :: 0 <= i < |r| ==> '0' as int <= r[i] <= '9' as int
  {
    Codes(DecimalText(n))
  }

  /** Path, NUL, decimal length, NUL, content. */
  function Frame(f: PackageFile): Bytes { f.path + [0] + LengthBytes(|f.content|) + [0] + f.content }

  function Stream(files: seq<PackageFile>): Bytes {
    if files == [] then [] else Frame(files[0]) + Stream(files[1..])
  }

  lemma {:induction false} StreamAppend(files: seq<PackageFile>, f: PackageFile)
    ensures Stream(files + [f]) == Stream(files) + Frame(f)
  {
    if files == [] {
      assert [f][1..] == [];
      assert Stream([f]) == Frame(f) + Stream([]);
    } else {
      assert (files + [f])[1..] == files[1..] + [f];
      StreamAppend(files[1..], f);
    }
  }

  /** What is fed to the hash for a file "a" of the two bytes "bc". */
  lemma OneFileStream()
    ensures Stream([PackageFile([97], [98, 99])]) == [97, 0, 50, 0, 98, 99]
  {
    var f := PackageFile([97], [98, 99]);
    assert DecimalText(2) == "2";
    assert Codes("2") == [50];
    assert [f][1..] == [];
  }

  predicate NulFree(path: Bytes) { 0 !in path }

  // ------------------------------------------------------------------ decoding

  function IndexOfNul(s: Bytes): (i: nat)
    ensures i <= |s| && (i < |s| ==> s[i] == 0) && forall k :: 0 <= k < i ==> s[k] != 0
  {
    if s == [] || s[0] == 0 then 0 else 1 + IndexOfNul(s[1..])
  }

  datatype Decoded = NotAStream | Files(files: seq<PackageFile>)

  predicate AreDigits(s: Bytes) { forall i :: 0 <= i < |s| ==> '0' as int <= s[i] <= '9' as int }

  function LengthValue(s: Bytes): nat
    requires AreDigits(s)
  {
    if s == [] then 0 else 10 * LengthValue(s[..|s| - 1]) + (s[|s| - 1] - '0' as int)
  }

  /** Reads frame after frame. */
  function Decode(s: Bytes): Decoded
    decreases |s|
  {
    if s == [] then Files([])
    else
      var i := IndexOfNul(s);
      if i == |s| then NotAStream
      else
        var rest := s[i + 1..];
        var k := IndexOfNul(rest);
        if k == |rest| || !AreDigits(rest[..k]) then NotAStream
        else
          var tail := rest[k + 1..];
          var n := LengthValue(rest[..k]);
          if n > |tail| then NotAStream
          else
            match Decode(tail[n..])
            case NotAStream => NotAStream
            case Files(files) => Files([PackageFile(s[..i], tail[..n])] + files)
  }

  lemma {:induction false} LengthRoundTrip(n: nat)
    ensures LengthValue(LengthBytes(n)) == n
  {
    var text := DecimalText(n);
    CodesValue(text);
    DecimalRoundTrip(n);
  }

  lemma {:induction false} CodesValue(text: string)
    requires forall i :: 0 <= i < |text| ==> '0' <= text[i] <= '9'
    ensures LengthValue(Codes(text)) == DecimalValue(text)
  {
    if text != [] {
      CodesValue(text[..|text| - 1]);
      assert Codes(text)[..|text| - 1] == Codes(text[..|text| - 1]);
    }
  }

  lemma NulAfter(p: Bytes, rest: Bytes)
    requires NulFree(p)
    ensures IndexOfNul(p + [0] + rest) == |p|
    ensures (p + [0] + rest)[..|p|] == p && (p + [0] + rest)[|p| + 1..] == rest
  {
    var s := p + [0] + rest;
    var i := IndexOfNul(s);
    assert s[|p|] == 0;
    forall k | 0 <= k < |p| ensures s[k] != 0 {
      assert s[k] == p[k] && p[k] in p;
    }
  }

  lemma DigitsAreNulFree(n: nat)
    ensures NulFree(LengthBytes(n))
  {
  }

  lemma FrameFirst(f: PackageFile, rest: Bytes)
    requires NulFree(f.path)
    ensures Frame(f) + rest == f.path + [0] + (LengthBytes(|f.content|) + [0] + (f.content + rest))
  {
  }

  /** Decoding undoes the stream: for NUL-free paths the bytes determine every path and every
      content. */
  lemma {:induction false} DecodeOfStream(files: seq<PackageFile>)
    requires AllNulFree(files)
    ensures Decode(Stream(files)) == Files(files)
  {
    if files != [] {
      DecodeOfStream(files[1..]);
      DecodeFirst(files[0], Stream(files[1..]), files[1..]);
      assert files == [files[0]] + files[1..];
    }
  }

  lemma DecodeFirst(f: PackageFile, after: Bytes, rest: seq<PackageFile>)
    requires NulFree(f.path) && Decode(after) == Files(rest)
    ensures Decode(Frame(f) + after) == Files([f] + rest)
  {
    FrameFirst(f, after);
    DecodeFrame(f, after);
  }

  lemma DecodeFrame(f: PackageFile, after: Bytes)
    requires NulFree(f.path) && Decode(after).Files?
    ensures Decode(f.path + [0] + (LengthBytes(|f.content|) + [0] + (f.content + after))) ==
            Files([f] + Decode(after).files)
  {
    var digits, tail := LengthBytes(|f.content|), f.content + after;
    NulAfter(f.path, digits + [0] + tail);
    DigitsAreNulFree(|f.content|);
    NulAfter(digits, tail);
    LengthRoundTrip(|f.content|);
    assert tail[..|f.content|] == f.content && tail[|f.content|..] == after;
  }

  lemma StreamInjective(a: seq<PackageFile>, b: seq<PackageFile>)
    requires AllNulFree(a) && AllNulFree(b)
    requires Stream(a) == Stream(b)
    ensures a == b
  {
    DecodeOfStream(a);
    DecodeOfStream(b);
  }

  // ------------------------------------------------------------------ the canonical order

  function InsertByPath(s: seq<PackageFile>, f: PackageFile): (r: seq<PackageFile>)
    ensures multiset(r) == multiset(s) + multiset{f}
  {
    if s == [] || LexLess(f.path, s[0].path) then [f] + s
    else
      assert s == [s[0]] + s[1..];
      [s[0]] + InsertByPath(s[1..], f)
  }

  /** Stable sorting by the bytes of the path. */
  function Canonical(s: seq<PackageFile>): (r: seq<PackageFile>)
    ensures multiset(r) == multiset(s)
  {
    if s == [] then []
    else
      assert s == s[..|s| - 1] + [s[|s| - 1]];
      InsertByPath(Canonical(s[..|s| - 1]), s[|s| - 1])
  }

  predicate Ascends(s: seq<PackageFile>) {
    forall i, k :: 0 <= i < k < |s| ==> !LexLess(s[k].path, s[i].path)
  }

  /** The files of one path, in order. */
  function Only(s: seq<PackageFile>, path: Bytes): seq<PackageFile> {
    if s == [] then []
    else Only(s[..|s| - 1], path) + if s[|s| - 1].path == path then [s[|s| - 1]] else []
  }

  lemma {:induction false} InsertAscends(s: seq<PackageFile>, f: PackageFile)
    requires Ascends(s)
    ensures Ascends(InsertByPath(s, f))
  {
    if s == [] {
    } else if LexLess(f.path, s[0].path) {
      forall k | 0 <= k < |s| ensures !LexLess(s[k].path, f.path) {
        assert k > 0 ==> !LexLess(s[k].path, s[0].path);
        LexIrreflexive(s[0].path);
        if LexLess(s[k].path, f.path) { LexTransitive(s[k].path, f.path, s[0].path); }
      }
    } else {
      InsertAscends(s[1..], f);
      var t := InsertByPath(s[1..], f);
      forall k | 0 <= k < |t| ensures !LexLess(t[k].path, s[0].path) {
        assert t[k] in multiset(t);
        if t[k] != f {
          assert t[k] in s[1..];
          var m :| 0 <= m < |s[1..]| && s[1..][m] == t[k];
          assert s[m + 1] == t[k];
        }
      }
    }
  }

  lemma {:induction false} CanonicalAscends(s: seq<PackageFile>)
    ensures Ascends(Canonical(s))
  {
    if s != [] {
      CanonicalAscends(s[..|s| - 1]);
      InsertAscends(Canonical(s[..|s| - 1]), s[|s| - 1]);
    }
  }

  lemma {:induction false} OnlyCons(f: PackageFile, s: seq<PackageFile>, path: Bytes)
    ensures Only([f] + s, path) == (if f.path == path then [f] else []) + Only(s, path)
  {
    if s == [] {
      assert ([f] + s)[..0] == [];
      assert Only([f] + s, path) == Only([], path) + if f.path == path then [f] else [];
    } else {
      assert ([f] + s)[..|s|] == [f] + s[..|s| - 1];
      OnlyCons(f, s[..|s| - 1], path);
    }
  }

  lemma {:induction false} OnlyAbsent(s: seq<PackageFile>, path: Bytes)
    requires forall i :: 0 <= i < |s| ==> s[i].path != path
    ensures Only(s, path) == []
  {
    if s != [] { OnlyAbsent(s[..|s| - 1], path); }
  }

  lemma NoneOfPath(s: seq<PackageFile>, path: Bytes)
    requires Ascends(s) && s != [] && LexLess(path, s[0].path)
    ensures Only(s, path) == []
  {
    forall i | 0 <= i < |s| ensures s[i].path != path {
      LexIrreflexive(path);
      assert i > 0 ==> !LexLess(s[i].path, s[0].path);
    }
    OnlyAbsent(s, path);
  }

  lemma {:induction false} InsertIsStable(s: seq<PackageFile>, f: PackageFile, path: Bytes)
    requires Ascends(s)
    ensures Only(InsertByPath(s, f), path) == Only(s, path) + if f.path == path then [f] else []
  {
    if s == [] {
      OnlyBehind([f], f, [], path);
    } else if LexLess(f.path, s[0].path) {
      InsertInFront(s, f, path);
    } else {
      InsertIsStable(s[1..], f, path);
      InsertBehind(s, f, path);
    }
  }

  lemma InsertInFront(s: seq<PackageFile>, f: PackageFile, path: Bytes)
    requires Ascends(s) && s != [] && LexLess(f.path, s[0].path)
    ensures Only(InsertByPath(s, f), path) == Only(s, path) + if f.path == path then [f] else []
  {
    OnlyBehind(InsertByPath(s, f), f, s, path);
    if f.path == path { NoneOfPath(s, path); }
  }

  lemma InsertBehind(s: seq<PackageFile>, f: PackageFile, path: Bytes)
    requires s != [] && !LexLess(f.path, s[0].path)
    requires Only(InsertByPath(s[1..], f), path) == Only(s[1..], path) + if f.path == path then [f] else []
    ensures Only(InsertByPath(s, f), path) == Only(s, path) + if f.path == path then [f] else []
  {
    InsertPasses(s, f);
    OnlyBehind(InsertByPath(s, f), s[0], InsertByPath(s[1..], f), path);
    OnlyBehind(s, s[0], s[1..], path);
    Regrouped(if s[0].path == path then [s[0]] else [], Only(s[1..], path), if f.path == path then [f] else []);
  }

  lemma InsertPasses(s: seq<PackageFile>, f: PackageFile)
    requires s != [] && !LexLess(f.path, s[0].path)
    ensures InsertByPath(s, f) == [s[0]] + InsertByPath(s[1..], f)
  {
  }

  lemma OnlyBehind(s: seq<PackageFile>, first: PackageFile, rest: seq<PackageFile>, path: Bytes)
    requires s == [first] + rest
    ensures Only(s, path) == (if first.path == path then [first] else []) + Only(rest, path)
  {
    OnlyCons(first, rest, path);
  }

  lemma Regrouped(a: seq<PackageFile>, b: seq<PackageFile>, c: seq<PackageFile>)
    ensures a + (b + c) == (a + b) + c
  {
  }

  /** Sorting keeps the order of files with one path. */
  lemma {:induction false} CanonicalIsStable(s: seq<PackageFile>, path: Bytes)
    ensures Only(Canonical(s), path) == Only(s, path)
  {
    if s != [] {
      CanonicalIsStable(s[..|s| - 1], path);
      CanonicalAscends(s[..|s| - 1]);
      InsertIsStable(Canonical(s[..|s| - 1]), s[|s| - 1], path);
    }
  }

  // ------------------------------------------------------------------ order independence

  /** Files of one path have one content. */
  predicate Functional(s: seq<PackageFile>) {
    forall i, k :: 0 <= i < |s| && 0 <= k < |s| && s[i].path == s[k].path ==> s[i] == s[k]
  }

  lemma SameFirst(a: seq<PackageFile>, b: seq<PackageFile>)
    requires Ascends(a) && Ascends(b) && Functional(a) && multiset(a) == multiset(b) && a != [] && b != []
    ensures a[0] == b[0]
  {
    assert a[0] in multiset(b) && b[0] in multiset(a);
    var i :| 0 <= i < |b| && b[i] == a[0];
    var k :| 0 <= k < |a| && a[k] == b[0];
    LexTotal(a[0].path, b[0].path);
    assert i > 0 ==> !LexLess(b[i].path, b[0].path);
    assert k > 0 ==> !LexLess(a[k].path, a[0].path);
    LexIrreflexive(a[0].path);
    assert a[0] == a[k];
  }

  /** An ascending list of such files is determined by its multiset. */
  lemma {:induction false} AscendingIsUnique(a: seq<PackageFile>, b: seq<PackageFile>)
    requires Ascends(a) && Ascends(b) && Functional(a) && multiset(a) == multiset(b)
    ensures a == b
  {
    assert |a| == |multiset(a)| == |multiset(b)| == |b|;
    if a != [] {
      SameFirst(a, b);
      assert a == [a[0]] + a[1..] && b == [b[0]] + b[1..];
      assert multiset(a[1..]) == multiset(a) - multiset{a[0]};
      assert multiset(b[1..]) == multiset(b) - multiset{b[0]};
      AscendingIsUnique(a[1..], b[1..]);
    }
  }

  lemma {:induction false} OnlyAt(s: seq<PackageFile>, i: nat)
    requires i < |s|
    ensures |Only(s[..i], s[i].path)| < |Only(s, s[i].path)|
    ensures Only(s, s[i].path)[|Only(s[..i], s[i].path)|] == s[i]
    decreases |s|
  {
    var m := |s| - 1;
    if i < m {
      OnlyAt(s[..m], i);
      assert s[..m][..i] == s[..i] && s[..m][i] == s[i];
    } else {
      assert s[..m] == s[..i];
    }
  }

  function Swapped(s: seq<PackageFile>, i: nat, k: nat): (t: seq<PackageFile>)
    requires i < k < |s|
    ensures |t| == |s| && t[i] == s[k] && t[k] == s[i] && t[..i] == s[..i]
  {
    s[i := s[k]][k := s[i]]
  }

  lemma SwappedMembers(s: seq<PackageFile>, i: nat, k: nat)
    requires i < k < |s|
    ensures multiset(Swapped(s, i, k)) == multiset(s)
  {
  }

  lemma OrderTells(s: seq<PackageFile>, t: seq<PackageFile>, path: Bytes)
    requires Only(s, path) != Only(t, path)
    ensures Canonical(s) != Canonical(t)
  {
    CanonicalIsStable(s, path);
    CanonicalIsStable(t, path);
  }

  /** Two files of one path with different contents, swapped, give a different order. */
  lemma SwappedDiffers(s: seq<PackageFile>, i: nat, k: nat)
    requires i < k < |s| && s[i].path == s[k].path && s[i] != s[k]
    ensures multiset(Swapped(s, i, k)) == multiset(s) && Canonical(Swapped(s, i, k)) != Canonical(s)
  {
    SwappedMembers(s, i, k);
    DifferFrom(s, Swapped(s, i, k), i);
    OrderTells(s, Swapped(s, i, k), s[i].path);
  }

  lemma DifferFrom(s: seq<PackageFile>, t: seq<PackageFile>, i: nat)
    requires i < |s| == |t| && s[..i] == t[..i] && s[i].path == t[i].path && s[i] != t[i]
    ensures Only(s, s[i].path) != Only(t, s[i].path)
  {
    OnlyAt(s, i);
    OnlyAt(t, i);
  }

  lemma OneContentOneOrder(s: seq<PackageFile>, t: seq<PackageFile>)
    requires Functional(s) && multiset(t) == multiset(s)
    ensures Canonical(t) == Canonical(s)
  {
    CanonicalAscends(s);
    CanonicalAscends(t);
    FunctionalIsOfMembers(s, Canonical(s));
    AscendingIsUnique(Canonical(s), Canonical(t));
  }

  lemma TwoContentsTwoStreams(s: seq<PackageFile>) returns (t: seq<PackageFile>)
    requires !Functional(s) && AllNulFree(s)
    ensures multiset(t) == multiset(s) && Stream(Canonical(t)) != Stream(Canonical(s))
  {
    var i, k :| 0 <= i < |s| && 0 <= k < |s| && s[i].path == s[k].path && s[i] != s[k];
    var a, b := if i < k then i else k, if i < k then k else i;
    SwappedDiffers(s, a, b);
    t := Swapped(s, a, b);
    MembersAreNulFree(s, t);
    DigestDeterminesFiles(t, s);
  }

  predicate AllNulFree(s: seq<PackageFile>) { forall i :: 0 <= i < |s| ==> NulFree(s[i].path) }

  predicate SameStream(s: seq<PackageFile>, t: seq<PackageFile>) { Stream(Canonical(t)) == Stream(Canonical(s)) }

  /** The stream is the same for every order of the files exactly when files of one path have
      one content; distinct paths are enough. */
  lemma OrderDoesNotMatterIff(s: seq<PackageFile>)
    requires AllNulFree(s)
    ensures Functional(s) <==> forall t: seq<PackageFile> :: multiset(t) == multiset(s) ==> SameStream(s, t)
  {
    if Functional(s) {
      forall t: seq<PackageFile> | multiset(t) == multiset(s) ensures SameStream(s, t) { OneContentOneOrder(s, t); }
    } else {
      var t := TwoContentsTwoStreams(s);
      assert !SameStream(s, t);
    }
  }

  lemma FunctionalIsOfMembers(s: seq<PackageFile>, t: seq<PackageFile>)
    requires Functional(s) && multiset(t) == multiset(s)
    ensures Functional(t)
  {
    forall i, k | 0 <= i < |t| && 0 <= k < |t| && t[i].path == t[k].path ensures t[i] == t[k] {
      assert t[i] in multiset(s) && t[k] in multiset(s);
      var a :| 0 <= a < |s| && s[a] == t[i];
      var b :| 0 <= b < |s| && s[b] == t[k];
    }
  }

  lemma MembersAreNulFree(s: seq<PackageFile>, t: seq<PackageFile>)
    requires multiset(t) == multiset(s) && AllNulFree(s)
    ensures AllNulFree(t)
  {
    forall i | 0 <= i < |t| ensures NulFree(t[i].path) {
      assert t[i] in multiset(s);
      var a :| 0 <= a < |s| && s[a] == t[i];
    }
  }

  /** Two digests agree only when the sorted lists of paths and contents do. */
  lemma DigestDeterminesFiles(a: seq<PackageFile>, b: seq<PackageFile>)
    requires AllNulFree(a) && AllNulFree(b)
    ensures Stream(Canonical(a)) == Stream(Canonical(b)) <==> Canonical(a) == Canonical(b)
  {
    MembersAreNulFree(a, Canonical(a));
    MembersAreNulFree(b, Canonical(b));
    if Stream(Canonical(a)) == Stream(Canonical(b)) { StreamInjective(Canonical(a), Canonical(b)); }
  }

  // ------------------------------------------------------------------ hashing, update by update

  lemma FiveUpdates(before: Bytes, f: PackageFile, after: Bytes)
    requires after == before + f.path + [0] + LengthBytes(|f.content|) + [0] + f.content
    ensures after == before + Frame(f)
  {
  }

  /** The updates as the source feeds them to the hash, in order. */
  method PackageFilesDigest(files: seq<PackageFile>) returns (hashed: Bytes)
    ensures hashed == Stream(Canonical(files))
  {
    var canonical := Canonical(files);
    hashed := [];
    var i := 0;
    while i < |canonical|
      invariant 0 <= i <= |canonical|
      invariant hashed == Stream(canonical[..i])
    {
      var f := canonical[i];
      ghost var before := hashed;
      StreamAppend(canonical[..i], f);
      assert canonical[..i + 1] == canonical[..i] + [f];
      hashed := hashed + f.path;
      hashed := hashed + [0];
      hashed := hashed + LengthBytes(|f.content|);
      hashed := hashed + [0];
      hashed := hashed + f.content;
      FiveUpdates(before, f, hashed);
      i := i + 1;
    }
    assert canonical[..i] == canonical;
  }
}
