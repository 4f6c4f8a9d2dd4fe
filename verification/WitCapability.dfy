/** WIT identities, the revision-1 capability matrix and the classification of host imports. */
module WitCapability {
  import opened Basics
  import opened ByteOrder

  const WASM_WORLD_LITERAL := "wasi:http/proxy@0.2.8"
  const WASM_HOST_ABI_LITERAL := "iweb-wasmd-abi@1.0.0"

  const WASM_INTERFACE_UNKNOWN := "WASM_INTERFACE_UNKNOWN"
  const WASM_INTERFACE_VERSION_UNLISTED := "WASM_INTERFACE_VERSION_UNLISTED"
  const WASM_IMPORT_UNRESOLVED := "WASM_IMPORT_UNRESOLVED"

  datatype Direction = Import | Export

  datatype Capability = Capability(package: string, iface: string, direction: Direction)

  datatype Identity = Identity(namespace: string, name: string, major: nat, minor: nat, patch: nat)

  // ------------------------------------------------------------------ grammar

  predicate IsLower(c: char) { 'a' <= c <= 'z' }

  predicate IsDigit(c: char) { '0' <= c <= '9' }

  /** Lower-case words of letters and digits joined by single hyphens. */
  predicate IsWitName(s: string) {
    && |s| > 0 && IsLower(s[0])
    && forall i :: 0 <= i < |s| ==> WitNameAt(s, i)
  }

  /** A letter, a digit, or a hyphen before a letter. */
  predicate WitNameAt(s: string, i: nat)
    requires i < |s|
  {
    IsLower(s[i]) || IsDigit(s[i]) || (s[i] == '-' && i + 1 < |s| && IsLower(s[i + 1]))
  }

  predicate IsNumeral(s: string) {
    && |s| > 0 && (s[0] == '0' ==> |s| == 1)
    && forall i :: 0 <= i < |s| ==> IsDigit(s[i])
  }

  function DigitValue(c: char): nat
    requires IsDigit(c)
  {
    c as nat - '0' as nat
  }

  /** The value of the first `n` digits. */
  function NumeralValue(s: string, n: nat): nat
    requires n <= |s| && forall i :: 0 <= i < |s| ==> IsDigit(s[i])
  {
    if n == 0 then 0 else 10 * NumeralValue(s, n - 1) + DigitValue(s[n - 1])
  }

  function IndexFrom(s: string, c: char, from: nat): (i: nat)
    requires from <= |s|
    ensures from <= i <= |s| && (i < |s| ==> s[i] == c) && forall k :: from <= k < i ==> s[k] != c
    decreases |s| - from
  {
    if from == |s| || s[from] == c then from else IndexFrom(s, c, from + 1)
  }

  /** The first position of the character, or the length. */
  function IndexOf(s: string, c: char): (i: nat)
    ensures i <= |s| && (i < |s| ==> s[i] == c) && forall k :: 0 <= k < i ==> s[k] != c
  {
    IndexFrom(s, c, 0)
  }

  lemma IndexOfIs(s: string, c: char, i: nat)
    requires i < |s| && s[i] == c && forall k :: 0 <= k < i ==> s[k] != c
    ensures IndexOf(s, c) == i
  {
  }

  function SafeNumeral(s: string): Option<nat> {
    if IsNumeral(s) && NumeralValue(s, |s|) <= MAX_SAFE_INTEGER then Some(NumeralValue(s, |s|)) else None
  }

  function ParseVersion(s: string): Option<(nat, nat, nat)> {
    var i := IndexOf(s, '.');
    if i == |s| then None
    else
      var k := IndexFrom(s, '.', i + 1);
      if k == |s| then None else VersionParts(SafeNumeral(s[..i]), SafeNumeral(s[i + 1..k]), SafeNumeral(s[k + 1..]))
  }

  function VersionParts(major: Option<nat>, minor: Option<nat>, patch: Option<nat>): Option<(nat, nat, nat)> {
    if major.None? || minor.None? || patch.None? then None else Some((major.value, minor.value, patch.value))
  }

  /** `namespace:name@major.minor.patch`, or nothing. */
  function NormalizeWitPackageIdentity(text: string): Option<Identity> {
    NormalizeAt(text, IndexOf(text, ':'), IndexOf(text, '@'))
  }

  function NormalizeAt(text: string, colon: nat, at: nat): Option<Identity>
    requires colon <= |text| && at <= |text|
  {
    if at == |text| || colon >= at then None
    else FromParts(text[..colon], text[colon + 1..at], ParseVersion(text[at + 1..]))
  }

  function FromParts(ns: string, name: string, version: Option<(nat, nat, nat)>): Option<Identity> {
    if !IsWitName(ns) || !IsWitName(name) || version.None? then None
    else Some(Identity(ns, name, version.value.0, version.value.1, version.value.2))
  }

  function PackageText(ns: string, name: string, version: string): string { ns + ":" + name + "@" + version }

  lemma WitNameCharacters(s: string, c: char)
    requires IsWitName(s) && (c == ':' || c == '@' || c == '/')
    ensures c !in s
  {
    forall i | 0 <= i < |s| ensures s[i] != c { assert WitNameAt(s, i); }
  }

  lemma Concatenated(a: string, c: char, b: string)
    requires c !in a
    ensures var s := a + [c] + b;
            IndexOf(s, c) == |a| && s[..|a|] == a && s[|a| + 1..] == b
  {
    var s := a + [c] + b;
    forall k | 0 <= k < |a| ensures s[k] != c { assert s[k] == a[k]; assert a[k] in a; }
    IndexOfIs(s, c, |a|);
  }

  lemma PackageTextSplits(ns: string, name: string, version: string)
    requires IsWitName(ns) && IsWitName(name)
    ensures var text, at := PackageText(ns, name, version), |ns| + 1 + |name|;
            && IndexOf(text, ':') == |ns| && IndexOf(text, '@') == at && at < |text|
            && text[..|ns|] == ns && text[|ns| + 1..at] == name && text[at + 1..] == version
  {
    var text := PackageText(ns, name, version);
    WitNameCharacters(ns, ':');
    WitNameCharacters(ns, '@');
    WitNameCharacters(name, '@');
    Concatenated(ns, ':', name + "@" + version);
    assert text == ns + [':'] + (name + "@" + version);
    Concatenated(ns + ":" + name, '@', version);
    assert text == (ns + ":" + name) + ['@'] + version;
  }

  lemma NormalizedFrom(text: string, ns: string, name: string, version: string)
    requires IndexOf(text, ':') == |ns| && IndexOf(text, '@') == |ns| + 1 + |name| < |text|
    requires text[..|ns|] == ns && text[|ns| + 1..|ns| + 1 + |name|] == name && text[|ns| + 1 + |name| + 1..] == version
    ensures NormalizeWitPackageIdentity(text) == FromParts(ns, name, ParseVersion(version))
  {
  }

  /** A well-formed package text yields exactly its parts. */
  lemma NormalizedParts(ns: string, name: string, version: string)
    requires IsWitName(ns) && IsWitName(name) && ParseVersion(version).Some?
    ensures var v := ParseVersion(version).value;
            NormalizeWitPackageIdentity(PackageText(ns, name, version)) == Some(Identity(ns, name, v.0, v.1, v.2))
  {
    PackageTextSplits(ns, name, version);
    NormalizedFrom(PackageText(ns, name, version), ns, name, version);
  }

  lemma TextFromParts(text: string, colon: nat, at: nat)
    requires colon < at < |text| && text[colon] == ':' && text[at] == '@'
    ensures text == PackageText(text[..colon], text[colon + 1..at], text[at + 1..])
  {
  }

  /** Accepted text names its parts: it is the parts' own text. */
  lemma NormalizedText(text: string)
    requires NormalizeWitPackageIdentity(text).Some?
    ensures var id := NormalizeWitPackageIdentity(text).value;
            && IsWitName(id.namespace) && IsWitName(id.name)
            && exists version :: text == PackageText(id.namespace, id.name, version)
                            && ParseVersion(version) == Some((id.major, id.minor, id.patch))
  {
    TextFromParts(text, IndexOf(text, ':'), IndexOf(text, '@'));
  }

  predicate IsIdentityText(text: string) { NormalizeWitPackageIdentity(text).Some? }

  // ------------------------------------------------------------------ keys

  function DirectionText(d: Direction): string { if d == Import then "import" else "export" }

  function WasmInterfaceKey(package: string, iface: string): string { package + "/" + iface }

  function WasmCapabilityKey(id: Capability): string {
    DirectionText(id.direction) + ":" + WasmInterfaceKey(id.package, id.iface)
  }

  lemma NumeralHasNoSlash(s: string)
    requires IsNumeral(s)
    ensures '/' !in s
  {
  }

  lemma Joined(a: string, b: string)
    ensures '/' !in a && '/' !in b ==> '/' !in a + b
  {
  }

  lemma NumeralsHaveNoSlash(version: string)
    requires ParseVersion(version).Some?
    ensures '/' !in version
  {
    var i := IndexOf(version, '.');
    var k := IndexFrom(version, '.', i + 1);
    NumeralHasNoSlash(version[..i]);
    NumeralHasNoSlash(version[i + 1..k]);
    NumeralHasNoSlash(version[k + 1..]);
    assert version == version[..i] + "." + version[i + 1..k] + "." + version[k + 1..];
  }

  lemma IdentityHasNoSlash(text: string)
    requires IsIdentityText(text)
    ensures '/' !in text
  {
    NormalizedText(text);
    var id := NormalizeWitPackageIdentity(text).value;
    var version :| text == PackageText(id.namespace, id.name, version)
      && ParseVersion(version) == Some((id.major, id.minor, id.patch));
    WitNameCharacters(id.namespace, '/');
    WitNameCharacters(id.name, '/');
    NumeralsHaveNoSlash(version);
    PackageHasNoSlash(id.namespace, id.name, version);
  }

  lemma PackageHasNoSlash(ns: string, name: string, version: string)
    requires '/' !in ns && '/' !in name && '/' !in version
    ensures '/' !in PackageText(ns, name, version)
  {
    Joined(ns, ":");
    Joined(ns + ":", name);
    Joined(ns + ":" + name, "@");
    Joined(ns + ":" + name + "@", version);
  }

  /** Well-formed interface keys determine package and interface. */
  lemma InterfaceKeyInjective(p: string, i: string, q: string, k: string)
    requires IsIdentityText(p) && IsIdentityText(q) && WasmInterfaceKey(p, i) == WasmInterfaceKey(q, k)
    ensures p == q && i == k
  {
    IdentityHasNoSlash(p);
    IdentityHasNoSlash(q);
    Concatenated(p, '/', i);
    Concatenated(q, '/', k);
    assert WasmInterfaceKey(p, i) == p + ['/'] + i && WasmInterfaceKey(q, k) == q + ['/'] + k;
  }

  /** The key starts with the direction, so keys of both directions never meet. */
  lemma KeyTellsDirection(a: Capability, b: Capability)
    requires WasmCapabilityKey(a) == WasmCapabilityKey(b)
    ensures a.direction == b.direction
  {
    assert WasmCapabilityKey(a)[0] == (if a.direction == Import then 'i' else 'e');
    assert WasmCapabilityKey(b)[0] == (if b.direction == Import then 'i' else 'e');
  }

  lemma CapabilityKeyInjective(a: Capability, b: Capability)
    requires IsIdentityText(a.package) && IsIdentityText(b.package)
    requires WasmCapabilityKey(a) == WasmCapabilityKey(b)
    ensures a == b
  {
    KeyTellsDirection(a, b);
    var prefix := DirectionText(a.direction) + ":";
    SamePrefix(prefix, WasmInterfaceKey(a.package, a.iface), WasmInterfaceKey(b.package, b.iface));
    InterfaceKeyInjective(a.package, a.iface, b.package, b.iface);
  }

  lemma SamePrefix(prefix: string, a: string, b: string)
    ensures prefix + a == prefix + b ==> a == b
  {
    assert (prefix + a)[|prefix|..] == a && (prefix + b)[|prefix|..] == b;
  }

  // ------------------------------------------------------------------ order and sorting

  /** By package, then interface, then direction, each in byte order. */
  predicate CapabilityBefore(a: Capability, b: Capability) {
    if a.package != b.package then Before(a.package, b.package)
    else if a.iface != b.iface then Before(a.iface, b.iface)
    else a.direction == Export && b.direction == Import
  }

  predicate SortedCapabilities(s: seq<Capability>) {
    forall i, k :: 0 <= i < k < |s| ==> CapabilityBefore(s[i], s[k])
  }

  lemma CapabilityTotal(a: Capability, b: Capability)
    ensures CapabilityBefore(a, b) || a == b || CapabilityBefore(b, a)
  {
    BeforeTotal(a.package, b.package);
    BeforeTotal(a.iface, b.iface);
  }

  lemma CapabilityTransitive(a: Capability, b: Capability, c: Capability)
    requires CapabilityBefore(a, b) && CapabilityBefore(b, c)
    ensures CapabilityBefore(a, c)
  {
    if a.package != b.package && b.package != c.package {
      BeforeTransitive(a.package, b.package, c.package);
      BeforeIrreflexive(a.package);
      if a.package == c.package { BeforeAsymmetric(a.package, b.package); }
    } else if a.package == b.package && b.package == c.package && a.iface != b.iface && b.iface != c.iface {
      BeforeTransitive(a.iface, b.iface, c.iface);
      if a.iface == c.iface { BeforeAsymmetric(a.iface, b.iface); }
    }
  }

  function InsertCapability(s: seq<Capability>, x: Capability): (r: seq<Capability>)
    ensures forall y :: y in r <==> y == x || y in s
  {
    if s == [] || CapabilityBefore(x, s[0]) then [x] + s
    else
      assert s == [s[0]] + s[1..];
      [s[0]] + InsertCapability(s[1..], x)
  }

  function SortWasmCapabilityIds(s: seq<Capability>): (r: seq<Capability>)
    ensures forall y :: y in r <==> y in s
  {
    if s == [] then []
    else
      assert s == [s[0]] + s[1..];
      InsertCapability(SortWasmCapabilityIds(s[1..]), s[0])
  }

  lemma {:induction false} InsertKeepsSorted(s: seq<Capability>, x: Capability)
    requires SortedCapabilities(s) && x !in s
    ensures SortedCapabilities(InsertCapability(s, x))
  {
    if s == [] {
    } else if CapabilityBefore(x, s[0]) {
      forall k | 0 < k < |s| ensures CapabilityBefore(x, s[k]) { CapabilityTransitive(x, s[0], s[k]); }
    } else {
      CapabilityTotal(x, s[0]);
      InsertKeepsSorted(s[1..], x);
      var r := InsertCapability(s[1..], x);
      forall k | 0 <= k < |r| ensures CapabilityBefore(s[0], r[k]) {
        assert r[k] in r;
        if r[k] != x { var m :| 0 <= m < |s[1..]| && s[1..][m] == r[k]; assert s[m + 1] == r[k]; }
      }
    }
  }

  predicate NoDuplicates(s: seq<Capability>) {
    forall i, k :: 0 <= i < k < |s| ==> s[i] != s[k]
  }

  lemma {:induction false} SortedResult(s: seq<Capability>)
    requires NoDuplicates(s)
    ensures SortedCapabilities(SortWasmCapabilityIds(s))
  {
    if s != [] {
      SortedResult(s[1..]);
      assert forall m :: 0 <= m < |s[1..]| ==> s[1..][m] == s[m + 1];
      assert s[0] !in s[1..];
      InsertKeepsSorted(SortWasmCapabilityIds(s[1..]), s[0]);
    }
  }

  // ------------------------------------------------------------------ the matrix

  const IWEB_CONFIG := PackageText("iweb", "config", "1.0.0")
  const IWEB_SECRETS := PackageText("iweb", "secrets", "1.0.0")
  const WASI_CLI := PackageText("wasi", "cli", "0.2.8")
  const WASI_CLOCKS := PackageText("wasi", "clocks", "0.2.8")
  const WASI_HTTP := PackageText("wasi", "http", "0.2.8")
  const WASI_IO := PackageText("wasi", "io", "0.2.8")
  const WASI_RANDOM := PackageText("wasi", "random", "0.2.8")

  const HOST_IMPORTS: seq<Capability> := [
    Capability(IWEB_CONFIG, "store", Import),
    Capability(IWEB_SECRETS, "store", Import),
    Capability(WASI_CLI, "stderr", Import),
    Capability(WASI_CLI, "stdin", Import),
    Capability(WASI_CLI, "stdout", Import),
    Capability(WASI_CLOCKS, "monotonic-clock", Import),
    Capability(WASI_CLOCKS, "wall-clock", Import),
    Capability(WASI_HTTP, "outgoing-handler", Import),
    Capability(WASI_HTTP, "types", Import),
    Capability(WASI_IO, "error", Import),
    Capability(WASI_IO, "poll", Import),
    Capability(WASI_IO, "streams", Import),
    Capability(WASI_RANDOM, "random", Import)]

  datatype Matrix = Matrix(world: string, hostABI: string, requiredRootExport: Capability, hostImports: seq<Capability>)

  const WASM_CAPABILITY_MATRIX_REVISION_1 := Matrix(
    WASM_WORLD_LITERAL, WASM_HOST_ABI_LITERAL, Capability(WASI_HTTP, "incoming-handler", Export), HOST_IMPORTS)

  /** The namespace and name of an accepted identity. */
  function Owner(package: string): Option<(string, string)> {
    var id := NormalizeWitPackageIdentity(package);
    if id.None? then None else Some((id.value.namespace, id.value.name))
  }

  predicate IsKnown(listed: Capability, owner: (string, string), iface: string) {
    Owner(listed.package) == Some(owner) && listed.iface == iface
  }

  /** The first listed import with the same owner and interface, or the length. */
  function FindKnown(imports: seq<Capability>, owner: (string, string), iface: string): (i: nat)
    ensures i <= |imports|
    ensures i < |imports| ==> IsKnown(imports[i], owner, iface)
    ensures forall k :: 0 <= k < i ==> !IsKnown(imports[k], owner, iface)
  {
    if imports == [] || IsKnown(imports[0], owner, iface) then 0 else 1 + FindKnown(imports[1..], owner, iface)
  }

  /** None is `allowed-host-import`; otherwise the rejection code. */
  function ClassifyWasmHostImport(m: Matrix, package: string, iface: string): Option<string> {
    var owner := Owner(package);
    if owner.None? || !IsWitName(iface) then Some(WASM_INTERFACE_UNKNOWN)
    else if package == m.requiredRootExport.package && iface == m.requiredRootExport.iface
            then Some(WASM_IMPORT_UNRESOLVED)
    else
      var i := FindKnown(m.hostImports, owner.value, iface);
      if i == |m.hostImports| then Some(WASM_INTERFACE_UNKNOWN)
      else if m.hostImports[i].package != package then Some(WASM_INTERFACE_VERSION_UNLISTED)
      else None
  }

  /** A matrix lists well-formed imports, one version for each package, and not its own
      root export. */
  ghost predicate MatrixOk(m: Matrix) {
    && IsIdentityText(m.requiredRootExport.package)
    && (forall i :: 0 <= i < |m.hostImports| ==> ListedOk(m, m.hostImports[i]))
    && forall i, k :: 0 <= i < |m.hostImports| && 0 <= k < |m.hostImports| ==>
         OneVersion(m.hostImports[i], m.hostImports[k])
  }

  predicate OneVersion(a: Capability, b: Capability) {
    Owner(a.package) == Owner(b.package) ==> a.package == b.package
  }

  predicate ListedOk(m: Matrix, c: Capability) {
    && c.direction == Import && IsIdentityText(c.package) && IsWitName(c.iface)
    && !(c.package == m.requiredRootExport.package && c.iface == m.requiredRootExport.iface)
  }

  lemma NumeralOfDigit(d: char)
    requires IsDigit(d)
    ensures SafeNumeral([d]) == Some(DigitValue(d))
  {
    assert NumeralValue([d], 0) == 0;
  }

  lemma SmallVersion(a: char, b: char, c: char)
    requires IsDigit(a) && IsDigit(b) && IsDigit(c)
    ensures ParseVersion([a, '.', b, '.', c]) == Some((DigitValue(a), DigitValue(b), DigitValue(c)))
  {
    var s := [a, '.', b, '.', c];
    IndexOfIs(s, '.', 1);
    assert IndexFrom(s, '.', 2) == 3;
    assert s[..1] == [a] && s[2..3] == [b] && s[4..] == [c];
    NumeralOfDigit(a);
    NumeralOfDigit(b);
    NumeralOfDigit(c);
  }

  lemma LowerWord(s: string)
    requires |s| > 0 && forall c :: c in s ==> IsLower(c)
    ensures IsWitName(s)
  {
  }

  lemma HyphenatedName(a: string, b: string)
    requires IsWitName(a) && IsWitName(b)
    ensures IsWitName(a + "-" + b)
  {
    var s := a + "-" + b;
    forall i | 0 <= i < |s| ensures WitNameAt(s, i) {
      if i < |a| {
        assert WitNameAt(a, i);
        assert s[i] == a[i] && (i + 1 < |a| ==> s[i + 1] == a[i + 1]);
      } else if i == |a| {
        assert s[i] == '-' && s[i + 1] == b[0];
      } else {
        var k := i - |a| - 1;
        assert WitNameAt(b, k);
        assert s[i] == b[k] && (k + 1 < |b| ==> s[i + 1] == b[k + 1]);
      }
    }
  }

  lemma OwnerOf(ns: string, name: string, version: string)
    requires IsWitName(ns) && IsWitName(name) && (version == "1.0.0" || version == "0.2.8")
    ensures Owner(PackageText(ns, name, version)) == Some((ns, name))
  {
    SmallVersion('1', '0', '0');
    SmallVersion('0', '2', '8');
    assert "1.0.0" == ['1', '.', '0', '.', '0'] && "0.2.8" == ['0', '.', '2', '.', '8'];
    NormalizedParts(ns, name, version);
  }

  lemma PlainInterfaceNames()
    ensures IsWitName("store") && IsWitName("stderr") && IsWitName("stdin") && IsWitName("stdout") && IsWitName("types")
    ensures IsWitName("error") && IsWitName("poll") && IsWitName("streams") && IsWitName("random")
  {
    LowerWord("store");
    LowerWord("stderr");
    LowerWord("stdin");
    LowerWord("stdout");
    LowerWord("types");
    LowerWord("error");
    LowerWord("poll");
    LowerWord("streams");
    LowerWord("random");
  }

  lemma HyphenatedInterfaceNames()
    ensures IsWitName("monotonic-clock") && IsWitName("wall-clock") && IsWitName("outgoing-handler")
  {
    LowerWord("monotonic");
    LowerWord("wall");
    LowerWord("clock");
    LowerWord("outgoing");
    LowerWord("handler");
    HyphenatedName("monotonic", "clock");
    HyphenatedName("wall", "clock");
    HyphenatedName("outgoing", "handler");
    assert "monotonic" + "-" + "clock" == "monotonic-clock";
    assert "wall" + "-" + "clock" == "wall-clock";
    assert "outgoing" + "-" + "handler" == "outgoing-handler";
  }

  lemma InterfaceNames()
    ensures forall i :: 0 <= i < |HOST_IMPORTS| ==> IsWitName(HOST_IMPORTS[i].iface)
  {
    PlainInterfaceNames();
    HyphenatedInterfaceNames();
  }

  // ------------------------------------------------------------------ the classification

  function VersionOf(ns: string): string { if ns == "iweb" then "1.0.0" else "0.2.8" }

  predicate ListedOwner(ns: string, name: string) {
    || (ns == "iweb" && (name == "config" || name == "secrets"))
    || (ns == "wasi" && (name == "cli" || name == "clocks" || name == "http" || name == "io" || name == "random"))
  }

  lemma ListedOwnerNames(ns: string, name: string)
    requires ListedOwner(ns, name)
    ensures IsWitName(ns) && IsWitName(name)
  {
    LowerWord(ns);
    LowerWord(name);
  }

  lemma ListedParts(i: nat) returns (ns: string, name: string)
    requires i < |HOST_IMPORTS|
    ensures ListedOwner(ns, name) && HOST_IMPORTS[i].package == PackageText(ns, name, VersionOf(ns))
  {
    ns := if i <= 1 then "iweb" else "wasi";
    name := if i == 0 then "config" else if i == 1 then "secrets" else if i <= 4 then "cli" else if i <= 6 then "clocks"
            else if i <= 8 then "http" else if i <= 11 then "io" else "random";
  }

  /** The version is a function of the owner, so the owner determines the whole package. */
  lemma SameOwnerSamePackage(i: nat, k: nat)
    requires i < |HOST_IMPORTS| && k < |HOST_IMPORTS|
    requires Owner(HOST_IMPORTS[i].package) == Owner(HOST_IMPORTS[k].package)
    ensures HOST_IMPORTS[i].package == HOST_IMPORTS[k].package && Owner(HOST_IMPORTS[i].package).Some?
  {
    var ns, name := ListedParts(i);
    var ms, mame := ListedParts(k);
    ListedOwnerNames(ns, name);
    ListedOwnerNames(ms, mame);
    OwnerOf(ns, name, VersionOf(ns));
    OwnerOf(ms, mame, VersionOf(ms));
  }

  lemma RootExportIsNoImport(i: nat)
    requires i < |HOST_IMPORTS|
    ensures !(HOST_IMPORTS[i].package == WASI_HTTP && HOST_IMPORTS[i].iface == "incoming-handler")
    ensures HOST_IMPORTS[i].direction == Import
  {
  }

  /** Revision 1 is such a matrix. */
  lemma RevisionOneIsOk()
    ensures MatrixOk(WASM_CAPABILITY_MATRIX_REVISION_1)
  {
    var m := WASM_CAPABILITY_MATRIX_REVISION_1;
    ListedOwnerNames("wasi", "http");
    OwnerOf("wasi", "http", "0.2.8");
    InterfaceNames();
    forall i | 0 <= i < |m.hostImports| ensures ListedOk(m, m.hostImports[i]) {
      SameOwnerSamePackage(i, i);
      RootExportIsNoImport(i);
    }
    forall i, k | 0 <= i < |m.hostImports| && 0 <= k < |m.hostImports|
      ensures OneVersion(m.hostImports[i], m.hostImports[k])
    {
      if Owner(m.hostImports[i].package) == Owner(m.hostImports[k].package) { SameOwnerSamePackage(i, k); }
    }
  }

  /** Some listed interface of the same owner and name, whatever its version. */
  ghost predicate KnownInterface(m: Matrix, package: string, iface: string) {
    exists k :: 0 <= k < |m.hostImports| && Owner(m.hostImports[k].package) == Owner(package)
      && m.hostImports[k].iface == iface
  }

  /** Allowed is exactly listed: same package text with its version, same interface. */
  lemma AllowedIffListed(m: Matrix, package: string, iface: string)
    requires MatrixOk(m)
    ensures ClassifyWasmHostImport(m, package, iface).None? <==> Capability(package, iface, Import) in m.hostImports
  {
    if Capability(package, iface, Import) in m.hostImports {
      var k :| 0 <= k < |m.hostImports| && m.hostImports[k] == Capability(package, iface, Import);
      assert ListedOk(m, m.hostImports[k]);
      var i := FindKnown(m.hostImports, Owner(package).value, iface);
      assert IsKnown(m.hostImports[k], Owner(package).value, iface);
      assert OneVersion(m.hostImports[i], m.hostImports[k]);
    }
    assert forall i :: 0 <= i < |m.hostImports| ==> ListedOk(m, m.hostImports[i]);
  }

  /** A rejected import is the root export itself, another version of a listed interface, or an
      interface the matrix does not know or no interface at all: each code exactly then. */
  lemma RejectionTellsWhy(m: Matrix, package: string, iface: string)
    requires MatrixOk(m)
    ensures var code := ClassifyWasmHostImport(m, package, iface);
            var wellFormed := Owner(package).Some? && IsWitName(iface);
            var root := package == m.requiredRootExport.package && iface == m.requiredRootExport.iface;
            var listed := Capability(package, iface, Import) in m.hostImports;
            && (code == Some("WASM_IMPORT_UNRESOLVED") <==> wellFormed && root)
            && (code == Some("WASM_INTERFACE_VERSION_UNLISTED") <==>
                  wellFormed && !root && KnownInterface(m, package, iface) && !listed)
            && (code == Some("WASM_INTERFACE_UNKNOWN") <==>
                  !wellFormed || (!root && !KnownInterface(m, package, iface)))
            && (code == None <==> listed)
  {
    AllowedIffListed(m, package, iface);
    if Owner(package).Some? { FoundIsKnown(m, package, iface); }
  }

  lemma FoundIsKnown(m: Matrix, package: string, iface: string)
    requires Owner(package).Some?
    ensures FindKnown(m.hostImports, Owner(package).value, iface) < |m.hostImports|
            <==> KnownInterface(m, package, iface)
  {
    var owner := Owner(package).value;
    var i := FindKnown(m.hostImports, owner, iface);
    forall k | 0 <= k < |m.hostImports|
      ensures IsKnown(m.hostImports[k], owner, iface) <==>
              Owner(m.hostImports[k].package) == Owner(package) && m.hostImports[k].iface == iface
    {
    }
  }
}
