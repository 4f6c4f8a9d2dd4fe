/** The key-value host service: single-key compare-and-swap, tombstone retention, cursors and
    bounded list pages. */
module HostKv {
  import opened Basics
  import opened ByteOrder

  const IWEB_KV_KEY_MAX_BYTES: nat := 128
  const IWEB_KV_VALUE_MAX_BYTES: nat := 65536
  const IWEB_KV_LIST_LIMIT_MAX: int := 256
  const IWEB_KV_VERSION_MAX: int := MAX_SAFE_INTEGER

  // ------------------------------------------------------------------ keys

  predicate IsKeyChar(c: char) {
    'a' <= c <= 'z' || '0' <= c <= '9' || c == '.' || c == '_' || c == '-'
  }

  predicate IsValidIwebKvKey(key: string) {
    && 1 <= |key| <= IWEB_KV_KEY_MAX_BYTES && 'a' <= key[0] <= 'z'
    && forall i :: 0 <= i < |key| ==> IsKeyChar(key[i])
  }

  // ------------------------------------------------------------------ compare and swap

  predicate IsVersion(v: int) { 1 <= v <= IWEB_KV_VERSION_MAX }

  datatype CasDecision = Committed(version: int) | Conflict | Unavailable

  function ApplyIwebKvCas(current: Option<int>, expected: Option<int>, nextVersion: int): CasDecision {
    if current.Some? && !IsVersion(current.value) then Unavailable
    else if expected.Some? && !IsVersion(expected.value) then Unavailable
    else if !IsVersion(nextVersion) then Unavailable
    else if current.None? && expected.Some? then Conflict
    else if current.Some? && expected.Some? && expected.value != current.value then Conflict
    else
      var version := if current.None? then 0 else current.value;
      if version == IWEB_KV_VERSION_MAX || nextVersion <= version then Unavailable else Committed(nextVersion)
  }

  /** A set or a delete: both commit a version, a delete that of its tombstone. */
  datatype Mutation = Mutation(expected: Option<int>, nextVersion: int)

  function After(current: Option<int>, m: Mutation): Option<int> {
    var d := ApplyIwebKvCas(current, m.expected, m.nextVersion);
    if d.Committed? then Some(d.version) else current
  }

  function AfterAll(current: Option<int>, ms: seq<Mutation>): Option<int>
    decreases |ms|
  {
    if ms == [] then current else AfterAll(After(current, ms[0]), ms[1..])
  }

  function Commits(current: Option<int>, ms: seq<Mutation>): nat
    decreases |ms|
  {
    if ms == [] then 0
    else (if ApplyIwebKvCas(current, ms[0].expected, ms[0].nextVersion).Committed? then 1 else 0)
         + Commits(After(current, ms[0]), ms[1..])
  }

  function VersionOf(current: Option<int>): int { if current.None? then 0 else current.value }

  /** Over any run of mutations of one key the version rises by at least one each commit. */
  lemma {:induction false} VersionsRise(current: Option<int>, ms: seq<Mutation>)
    requires current.Some? ==> IsVersion(current.value)
    ensures VersionOf(AfterAll(current, ms)) >= VersionOf(current) + Commits(current, ms)
    ensures AfterAll(current, ms).Some? ==> IsVersion(AfterAll(current, ms).value)
    decreases |ms|
  {
    if ms != [] { VersionsRise(After(current, ms[0]), ms[1..]); }
  }

  /** A writer that saw version `current` never commits against it again once anything, a
      tombstone included, was committed in between. */
  lemma StaleWriterConflicts(current: int, between: seq<Mutation>, nextVersion: int)
    requires IsVersion(current) && IsVersion(nextVersion) && Commits(Some(current), between) > 0
    ensures ApplyIwebKvCas(AfterAll(Some(current), between), Some(current), nextVersion) == Conflict
  {
    VersionsRise(Some(current), between);
  }

  /** At the maximum no mutation commits: versions never wrap. */
  lemma {:induction false} ExhaustedKeyIsFrozen(ms: seq<Mutation>)
    ensures AfterAll(Some(IWEB_KV_VERSION_MAX), ms) == Some(IWEB_KV_VERSION_MAX)
    decreases |ms|
  {
    if ms != [] { ExhaustedKeyIsFrozen(ms[1..]); }
  }

  // ------------------------------------------------------------------ cursors and tombstones

  datatype Cursor = Cursor(
    applicationId: string,
    hostServicePolicyDigest: string,
    prefix: string,
    snapshotToken: string,
    lastKey: string,
    expiresAtMs: int)

  datatype CursorDecision = Valid | InvalidScope | Expired

  predicate IsSafeInteger(n: int) { -MAX_SAFE_INTEGER <= n <= MAX_SAFE_INTEGER }

  predicate IsNonNegativeSafeInteger(n: int) { 0 <= n <= MAX_SAFE_INTEGER }

  predicate IsSha256(s: string) {
    |s| == 64 && forall i :: 0 <= i < |s| ==> '0' <= s[i] <= '9' || 'a' <= s[i] <= 'f'
  }

  predicate CursorOk(c: Cursor) {
    && IsSha256(c.hostServicePolicyDigest) && IsValidIwebKvKey(c.prefix) && c.snapshotToken != ""
    && IsValidIwebKvKey(c.lastKey) && IsSafeInteger(c.expiresAtMs)
  }

  function CheckIwebKvCursor(
    c: Cursor, applicationId: string, policyDigest: string, prefix: string, snapshotToken: string,
    snapshotAlive: bool, nowMs: int): CursorDecision
  {
    if !CursorOk(c) then InvalidScope
    else if c.applicationId != applicationId || c.hostServicePolicyDigest != policyDigest
            || c.prefix != prefix || c.snapshotToken != snapshotToken then InvalidScope
    else if !snapshotAlive || nowMs >= c.expiresAtMs then Expired
    else Valid
  }

  function TombstoneRetentionFloorMs(maxCursorTtlMs: int, hostCallReplayTtlMs: int): Option<int> {
    if !IsNonNegativeSafeInteger(maxCursorTtlMs) || !IsNonNegativeSafeInteger(hostCallReplayTtlMs) then None
    else if maxCursorTtlMs + hostCallReplayTtlMs > MAX_SAFE_INTEGER then None
    else Some(maxCursorTtlMs + hostCallReplayTtlMs)
  }

  predicate IsIwebKvTombstoneCollectable(
    deletedAtMs: int, nowMs: int, maxCursorTtlMs: int, hostCallReplayTtlMs: int, noActiveReferenceProof: bool)
  {
    var floor := TombstoneRetentionFloorMs(maxCursorTtlMs, hostCallReplayTtlMs);
    && noActiveReferenceProof
    && IsNonNegativeSafeInteger(deletedAtMs) && IsNonNegativeSafeInteger(nowMs)
    && floor.Some? && nowMs - deletedAtMs >= floor.value
  }

  /** Whenever a tombstone may go, every cursor issued up to its delete is refused, and so is
      each one issued within the replay window after it, for all later times. */
  lemma TombstoneOutlivesCursors(
    deletedAtMs: int, collectedAtMs: int, maxCursorTtlMs: int, hostCallReplayTtlMs: int,
    c: Cursor, issuedAtMs: int, laterMs: int,
    applicationId: string, policyDigest: string, prefix: string, snapshotToken: string, snapshotAlive: bool)
    requires IsIwebKvTombstoneCollectable(deletedAtMs, collectedAtMs, maxCursorTtlMs, hostCallReplayTtlMs, true)
    requires issuedAtMs <= deletedAtMs + hostCallReplayTtlMs && c.expiresAtMs <= issuedAtMs + maxCursorTtlMs
    requires laterMs >= collectedAtMs
    ensures CheckIwebKvCursor(c, applicationId, policyDigest, prefix, snapshotToken, snapshotAlive, laterMs) != Valid
  {
  }

  // ------------------------------------------------------------------ list pages

  datatype Entry = Entry(key: string, value: seq<bv8>)

  /** One snapshot listed with fixed arguments. */
  datatype Listing = Listing(
    entries: seq<Entry>,
    tombstoneKeys: seq<string>,
    prefix: string,
    limit: int,
    profileMaxListItems: int,
    maxListBytes: int)

  datatype PagePlan = Page(items: seq<Entry>, nextLastKey: Option<string>) | LimitExceeded

  function ListLimitCeiling(profileMaxListItems: int): int {
    if !IsSafeInteger(profileMaxListItems) || profileMaxListItems < 1 then 0
    else if profileMaxListItems < IWEB_KV_LIST_LIMIT_MAX then profileMaxListItems else IWEB_KV_LIST_LIMIT_MAX
  }

  predicate ArgumentsOk(l: Listing) {
    && IsValidIwebKvKey(l.prefix)
    && IsSafeInteger(l.maxListBytes) && l.maxListBytes >= 1
    && 1 <= l.limit <= ListLimitCeiling(l.profileMaxListItems)
  }

  predicate TombstonesOk(keys: seq<string>) {
    forall i :: 0 <= i < |keys| ==> IsValidIwebKvKey(keys[i])
  }

  predicate EntryOk(e: Entry) { IsValidIwebKvKey(e.key) && |e.value| <= IWEB_KV_VALUE_MAX_BYTES }

  predicate EntriesOk(entries: seq<Entry>) {
    forall i :: 0 <= i < |entries| ==> EntryOk(entries[i])
  }

  predicate StartsWith(s: string, prefix: string) { prefix <= s }

  predicate IsVisible(l: Listing, e: Entry) { e.key !in l.tombstoneKeys && StartsWith(e.key, l.prefix) }

  function VisibleUpTo(l: Listing, n: nat): seq<Entry>
    requires n <= |l.entries|
  {
    if n == 0 then []
    else VisibleUpTo(l, n - 1) + if IsVisible(l, l.entries[n - 1]) then [l.entries[n - 1]] else []
  }

  function InsertByKey(s: seq<Entry>, e: Entry): (r: seq<Entry>)
    ensures multiset(r) == multiset(s) + multiset{e}
  {
    if s == [] || Before(e.key, s[0].key) then [e] + s
    else
      assert s == [s[0]] + s[1..];
      [s[0]] + InsertByKey(s[1..], e)
  }

  /** Stable: an entry goes behind the earlier ones of its key. */
  function SortByKey(s: seq<Entry>): (r: seq<Entry>)
    ensures multiset(r) == multiset(s)
  {
    if s == [] then []
    else
      assert s == s[..|s| - 1] + [s[|s| - 1]];
      InsertByKey(SortByKey(s[..|s| - 1]), s[|s| - 1])
  }

  predicate Ascending(s: seq<Entry>) {
    forall i, k :: 0 <= i < k < |s| ==> !Before(s[k].key, s[i].key)
  }

  predicate StrictlyAscending(s: seq<Entry>) {
    forall i, k :: 0 <= i < k < |s| ==> Before(s[i].key, s[k].key)
  }

  lemma {:induction false} InsertKeepsAscending(s: seq<Entry>, e: Entry)
    requires Ascending(s)
    ensures Ascending(InsertByKey(s, e))
  {
    var r := InsertByKey(s, e);
    if s == [] {
    } else if Before(e.key, s[0].key) {
      forall k | 0 < k < |r| ensures !Before(r[k].key, e.key) {
        assert k - 1 > 0 ==> !Before(s[k - 1].key, s[0].key);
        BeforeIrreflexive(s[0].key);
        if Before(s[k - 1].key, e.key) { BeforeTransitive(s[k - 1].key, e.key, s[0].key); }
      }
    } else {
      InsertKeepsAscending(s[1..], e);
      var t := InsertByKey(s[1..], e);
      forall k | 0 <= k < |t| ensures !Before(t[k].key, s[0].key) {
        assert t[k] in multiset(t);
        if t[k] != e {
          assert t[k] in s[1..];
          var m :| 0 <= m < |s[1..]| && s[1..][m] == t[k];
          assert s[m + 1] == t[k];
        }
      }
    }
  }

  lemma {:induction false} SortAscends(s: seq<Entry>)
    ensures Ascending(SortByKey(s))
  {
    if s != [] {
      SortAscends(s[..|s| - 1]);
      InsertKeepsAscending(SortByKey(s[..|s| - 1]), s[|s| - 1]);
    }
  }

  /** What a listing is to enumerate: the visible entries in byte order of their keys. */
  function VisibleSorted(l: Listing): seq<Entry> { SortByKey(VisibleUpTo(l, |l.entries|)) }

  predicate NeighboursDiffer(s: seq<Entry>) {
    forall i :: 0 <= i < |s| - 1 ==> DiffersFromNext(s, i)
  }

  predicate DiffersFromNext(s: seq<Entry>, i: nat)
    requires i + 1 < |s|
  {
    s[i].key != s[i + 1].key
  }

  predicate ListingOk(l: Listing) {
    ArgumentsOk(l) && TombstonesOk(l.tombstoneKeys) && EntriesOk(l.entries) && NeighboursDiffer(VisibleSorted(l))
  }

  predicate IsAfter(e: Entry, afterKey: Option<string>) { afterKey.None? || Before(afterKey.value, e.key) }

  function CandidatesUpTo(s: seq<Entry>, afterKey: Option<string>, n: nat): seq<Entry>
    requires n <= |s|
  {
    if n == 0 then []
    else CandidatesUpTo(s, afterKey, n - 1) + if IsAfter(s[n - 1], afterKey) then [s[n - 1]] else []
  }

  function Candidates(l: Listing, afterKey: Option<string>): seq<Entry> {
    CandidatesUpTo(VisibleSorted(l), afterKey, |VisibleSorted(l)|)
  }

  function EntryBytes(e: Entry): nat { |e.key| + |e.value| }

  function PageBytes(items: seq<Entry>): nat {
    if items == [] then 0 else PageBytes(items[..|items| - 1]) + EntryBytes(items[|items| - 1])
  }

  /** How many candidates the page takes: as long as the count and the bytes allow. */
  function PageLength(cs: seq<Entry>, limit: int, maxBytes: int, n: nat): (m: nat)
    requires n <= |cs|
    ensures n <= m <= |cs|
    decreases |cs| - n
  {
    if n == |cs| || n >= limit || PageBytes(cs[..n]) + EntryBytes(cs[n]) > maxBytes then n
    else PageLength(cs, limit, maxBytes, n + 1)
  }

  function PlanSpec(l: Listing, afterKey: Option<string>): PagePlan {
    if !ListingOk(l) || (afterKey.Some? && !IsValidIwebKvKey(afterKey.value)) then LimitExceeded
    else PlanOfCandidates(l, Candidates(l, afterKey))
  }

  function PlanOfCandidates(l: Listing, cs: seq<Entry>): PagePlan {
    var m := PageLength(cs, l.limit, l.maxListBytes, 0);
    if m == 0 && cs != [] then LimitExceeded
    else Page(cs[..m], if |cs| > m && m > 0 then Some(cs[m - 1].key) else None)
  }

  // ------------------------------------------------------------------ planning, loop by loop

  method CollectTombstones(keys: seq<string>) returns (ok: bool, tombstones: set<string>)
    ensures ok <==> TombstonesOk(keys)
    ensures ok ==> forall k :: k in tombstones <==> k in keys
  {
    tombstones := {};
    var i := 0;
    while i < |keys|
      invariant 0 <= i <= |keys| && TombstonesOk(keys[..i])
      invariant forall k :: k in tombstones <==> k in keys[..i]
    {
      if !IsValidIwebKvKey(keys[i]) {
        return false, tombstones;
      }
      assert keys[..i + 1] == keys[..i] + [keys[i]];
      tombstones := tombstones + {keys[i]};
      i := i + 1;
    }
    assert keys[..i] == keys;
    ok := true;
  }

  method CollectVisible(l: Listing, tombstones: set<string>) returns (ok: bool, visible: seq<Entry>)
    requires forall k :: k in tombstones <==> k in l.tombstoneKeys
    ensures ok <==> EntriesOk(l.entries)
    ensures ok ==> visible == VisibleUpTo(l, |l.entries|)
  {
    visible := [];
    var i := 0;
    while i < |l.entries|
      invariant 0 <= i <= |l.entries| && visible == VisibleUpTo(l, i)
      invariant forall j :: 0 <= j < i ==> EntryOk(l.entries[j])
    {
      var e := l.entries[i];
      if !EntryOk(e) {
        return false, visible;
      }
      if e.key !in tombstones && StartsWith(e.key, l.prefix) {
        visible := visible + [e];
      }
      i := i + 1;
    }
    ok := true;
  }

  method HasDuplicate(sorted: seq<Entry>) returns (found: bool)
    ensures found <==> !NeighboursDiffer(sorted)
  {
    var i := 1;
    while i < |sorted|
      invariant 1 <= i && forall j :: 0 <= j < i - 1 && j < |sorted| - 1 ==> DiffersFromNext(sorted, j)
    {
      assert DiffersFromNext(sorted, i - 1) <==> sorted[i - 1].key != sorted[i].key;
      if sorted[i - 1].key == sorted[i].key {
        return true;
      }
      i := i + 1;
    }
    found := false;
  }

  method CollectCandidates(sorted: seq<Entry>, afterKey: Option<string>) returns (cs: seq<Entry>)
    ensures cs == CandidatesUpTo(sorted, afterKey, |sorted|)
  {
    cs := [];
    var i := 0;
    while i < |sorted|
      invariant 0 <= i <= |sorted| && cs == CandidatesUpTo(sorted, afterKey, i)
    {
      if afterKey.None? || Before(afterKey.value, sorted[i].key) {
        cs := cs + [sorted[i]];
      }
      i := i + 1;
    }
  }

  method PlanIwebKvListPage(l: Listing, afterKey: Option<string>) returns (r: PagePlan)
    ensures r == PlanSpec(l, afterKey)
  {
    if !IsValidIwebKvKey(l.prefix) {
      return LimitExceeded;
    }
    if afterKey.Some? && !IsValidIwebKvKey(afterKey.value) {
      return LimitExceeded;
    }
    if !IsSafeInteger(l.maxListBytes) || l.maxListBytes < 1 {
      return LimitExceeded;
    }
    var ceiling := ListLimitCeiling(l.profileMaxListItems);
    if ceiling < 1 || l.limit < 1 || l.limit > ceiling {
      return LimitExceeded;
    }
    var tombstonesOk, tombstones := CollectTombstones(l.tombstoneKeys);
    if !tombstonesOk {
      return LimitExceeded;
    }
    var entriesOk, visible := CollectVisible(l, tombstones);
    if !entriesOk {
      return LimitExceeded;
    }
    var sorted := SortByKey(visible);
    var duplicate := HasDuplicate(sorted);
    if duplicate {
      return LimitExceeded;
    }
    var candidates := CollectCandidates(sorted, afterKey);
    r := FillPage(l, candidates);
  }

  method FillPage(l: Listing, candidates: seq<Entry>) returns (r: PagePlan)
    requires l.limit >= 1
    ensures r == PlanOfCandidates(l, candidates)
  {
    var items: seq<Entry> := [];
    var pageBytes := 0;
    var n := 0;
    while n < |candidates| && n < l.limit && pageBytes + EntryBytes(candidates[n]) <= l.maxListBytes
      invariant 0 <= n <= |candidates| && items == candidates[..n] && pageBytes == PageBytes(items)
      invariant PageLength(candidates, l.limit, l.maxListBytes, 0) == PageLength(candidates, l.limit, l.maxListBytes, n)
    {
      assert candidates[..n + 1][..n] == candidates[..n];
      pageBytes := pageBytes + EntryBytes(candidates[n]);
      items := items + [candidates[n]];
      n := n + 1;
    }
    if n < |candidates| && n < l.limit && items == [] {
      return LimitExceeded;
    }
    var hasMore := |candidates| > |items| && |items| > 0;
    r := Page(items, if hasMore then Some(items[|items| - 1].key) else None);
  }

  // ------------------------------------------------------------------ following the cursor

  /** Distinct neighbours make the sorted list strictly ascending. */
  lemma SortedIsStrict(l: Listing)
    requires ListingOk(l)
    ensures StrictlyAscending(VisibleSorted(l))
  {
    var s := VisibleSorted(l);
    SortAscends(VisibleUpTo(l, |l.entries|));
    forall i, k | 0 <= i < k < |s| ensures Before(s[i].key, s[k].key) { StrictFromNeighbours(s, i, k); }
  }

  lemma {:induction false} StrictFromNeighbours(s: seq<Entry>, i: nat, k: nat)
    requires Ascending(s) && NeighboursDiffer(s) && i < k < |s|
    ensures Before(s[i].key, s[k].key)
    decreases k
  {
    BeforeTotal(s[k - 1].key, s[k].key);
    assert DiffersFromNext(s, k - 1) && !Before(s[k].key, s[k - 1].key);
    if i < k - 1 {
      StrictFromNeighbours(s, i, k - 1);
      BeforeTransitive(s[i].key, s[k - 1].key, s[k].key);
    }
  }

  lemma {:induction false} AllAreCandidates(s: seq<Entry>, n: nat)
    requires n <= |s|
    ensures CandidatesUpTo(s, None, n) == s[..n]
  {
    if n > 0 {
      AllAreCandidates(s, n - 1);
      assert s[..n] == s[..n - 1] + [s[n - 1]];
    }
  }

  /** After the key at position `i` the candidates are exactly the rest. */
  lemma {:induction false} RestAreCandidates(s: seq<Entry>, i: nat, n: nat)
    requires StrictlyAscending(s) && i < |s| && n <= |s|
    ensures CandidatesUpTo(s, Some(s[i].key), n) == if n <= i then [] else s[i + 1..n]
    decreases n
  {
    if n > 0 {
      RestAreCandidates(s, i, n - 1);
      if n - 1 == i {
        BeforeIrreflexive(s[i].key);
      } else if n - 1 < i {
        BeforeAsymmetric(s[n - 1].key, s[i].key);
      } else {
        assert s[i + 1..n] == s[i + 1..n - 1] + [s[n - 1]];
      }
    }
  }

  /** All pages from a cursor on, and whether they came to an end without a refusal. */
  function PagesFrom(plan: Option<string> -> PagePlan, afterKey: Option<string>, fuel: nat): (seq<seq<Entry>>, bool)
    decreases fuel
  {
    if fuel == 0 then ([], false)
    else match plan(afterKey)
      case LimitExceeded => ([], false)
      case Page(items, None) => ([items], true)
      case Page(items, Some(k)) =>
        var rest := PagesFrom(plan, Some(k), fuel - 1);
        ([items] + rest.0, rest.1)
  }

  function Concatenated(pages: seq<seq<Entry>>): seq<Entry> {
    if pages == [] then [] else pages[0] + Concatenated(pages[1..])
  }

  predicate AllFit(s: seq<Entry>, maxBytes: int) {
    forall i :: 0 <= i < |s| ==> EntryBytes(s[i]) <= maxBytes
  }

  predicate PagesBounded(pages: seq<seq<Entry>>, l: Listing) {
    forall i :: 0 <= i < |pages| ==> |pages[i]| <= l.limit && PageBytes(pages[i]) <= l.maxListBytes
  }

  /** The afterKey that leads to position `i`. */
  function KeyBefore(s: seq<Entry>, i: nat): Option<string>
    requires i <= |s|
  {
    if i == 0 then None else Some(s[i - 1].key)
  }

  lemma CandidatesAt(l: Listing, i: nat)
    requires ListingOk(l) && i <= |VisibleSorted(l)|
    ensures Candidates(l, KeyBefore(VisibleSorted(l), i)) == VisibleSorted(l)[i..]
  {
    var s := VisibleSorted(l);
    SortedIsStrict(l);
    if i == 0 { AllAreCandidates(s, |s|); } else { RestAreCandidates(s, i - 1, |s|); }
  }

  lemma {:induction false} VisibleAreEntries(l: Listing, n: nat, e: Entry)
    requires n <= |l.entries| && e in VisibleUpTo(l, n)
    ensures e in l.entries && IsVisible(l, e)
  {
    if n > 0 && e in VisibleUpTo(l, n - 1) { VisibleAreEntries(l, n - 1, e); }
  }

  lemma SortedAreEntries(l: Listing, i: nat)
    requires i < |VisibleSorted(l)|
    ensures VisibleSorted(l)[i] in l.entries && IsVisible(l, VisibleSorted(l)[i])
  {
    assert VisibleSorted(l)[i] in multiset(VisibleSorted(l));
    VisibleAreEntries(l, |l.entries|, VisibleSorted(l)[i]);
  }

  lemma KeyBeforeIsValid(l: Listing, i: nat)
    requires ListingOk(l) && 0 < i <= |VisibleSorted(l)|
    ensures IsValidIwebKvKey(VisibleSorted(l)[i - 1].key)
  {
    SortedAreEntries(l, i - 1);
    var k :| 0 <= k < |l.entries| && l.entries[k] == VisibleSorted(l)[i - 1];
    assert EntryOk(l.entries[k]);
  }

  lemma {:induction false} PageWithin(cs: seq<Entry>, limit: int, maxBytes: int, n: nat)
    requires n <= |cs| && n <= limit && PageBytes(cs[..n]) <= maxBytes
    ensures var m := PageLength(cs, limit, maxBytes, n); m <= limit && PageBytes(cs[..m]) <= maxBytes
    decreases |cs| - n
  {
    if !(n == |cs| || n >= limit || PageBytes(cs[..n]) + EntryBytes(cs[n]) > maxBytes) {
      assert cs[..n + 1][..n] == cs[..n];
      PageWithin(cs, limit, maxBytes, n + 1);
    }
  }

  lemma FirstPageStep(cs: seq<Entry>, limit: int, maxBytes: int)
    requires limit >= 1 && cs != []
    ensures PageLength(cs, limit, maxBytes, 0) == 0 <==> EntryBytes(cs[0]) > maxBytes
  {
    assert PageBytes(cs[..0]) == 0;
  }

  /** The plan for the candidates `s[i..]`, once the arguments are accepted. */
  function PlanFor(s: seq<Entry>, i: nat, m: nat): PagePlan
    requires i <= m <= |s|
  {
    if m == i && i < |s| then LimitExceeded else Page(s[i..m], if i < m < |s| then Some(s[m - 1].key) else None)
  }

  /** One page from a position: its items are the next entries, within limit and bytes, and
      its cursor leads to the position behind them. */
  lemma PageAt(l: Listing, i: nat) returns (m: nat)
    requires ListingOk(l) && i <= |VisibleSorted(l)|
    ensures i <= m <= |VisibleSorted(l)|
    ensures PlanSpec(l, KeyBefore(VisibleSorted(l), i)) == PlanFor(VisibleSorted(l), i, m)
    ensures m - i <= l.limit && PageBytes(VisibleSorted(l)[i..m]) <= l.maxListBytes
    ensures i < |VisibleSorted(l)| ==> (m == i <==> EntryBytes(VisibleSorted(l)[i]) > l.maxListBytes)
  {
    CandidatesAt(l, i);
    if i > 0 { KeyBeforeIsValid(l, i); }
    m := RestAt(l, VisibleSorted(l), i);
  }

  lemma RestAt(l: Listing, s: seq<Entry>, i: nat) returns (m: nat)
    requires i <= |s| && l.limit >= 1 && l.maxListBytes >= 0
    ensures i <= m <= |s| && PlanOfCandidates(l, s[i..]) == PlanFor(s, i, m)
    ensures m - i <= l.limit && PageBytes(s[i..m]) <= l.maxListBytes
    ensures i < |s| ==> (m == i <==> EntryBytes(s[i]) > l.maxListBytes)
  {
    m := i + PageLength(s[i..], l.limit, l.maxListBytes, 0);
    SliceOfRest(s, i, m);
    PageWithin(s[i..], l.limit, l.maxListBytes, 0);
    if i < |s| { FirstPageStep(s[i..], l.limit, l.maxListBytes); }
  }

  lemma SliceOfRest(s: seq<Entry>, i: nat, m: nat)
    requires i <= m <= |s|
    ensures s[i..][..m - i] == s[i..m]
    ensures i < m ==> s[i..][m - i - 1] == s[m - 1]
    ensures i < |s| ==> s[i..][0] == s[i]
  {
  }

  ghost predicate Enumerates(l: Listing, rest: seq<Entry>, r: (seq<seq<Entry>>, bool)) {
    && PagesBounded(r.0, l)
    && (r.1 <==> AllFit(rest, l.maxListBytes))
    && (r.1 ==> Concatenated(r.0) == rest)
    && (!r.1 ==> Concatenated(r.0) <= rest)
  }

  lemma OnePage(l: Listing, items: seq<Entry>)
    requires |items| <= l.limit && PageBytes(items) <= l.maxListBytes
    ensures Enumerates(l, items, ([items], true))
  {
    assert [items][1..] == [];
    assert Concatenated([items]) == items + Concatenated([items][1..]);
    FitsWithin(items, l.maxListBytes);
  }

  lemma OnePageMore(l: Listing, items: seq<Entry>, rest: seq<Entry>, r: (seq<seq<Entry>>, bool))
    requires |items| <= l.limit && PageBytes(items) <= l.maxListBytes && Enumerates(l, rest, r)
    ensures Enumerates(l, items + rest, ([items] + r.0, r.1))
  {
    ConcatenatedCons(items, r.0);
    BoundedCons(l, items, r.0);
    FitsWithin(items, l.maxListBytes);
    FitsConcat(items, rest, l.maxListBytes);
  }

  lemma ConcatenatedCons(items: seq<Entry>, pages: seq<seq<Entry>>)
    ensures Concatenated([items] + pages) == items + Concatenated(pages)
  {
    assert ([items] + pages)[1..] == pages;
  }

  lemma BoundedCons(l: Listing, items: seq<Entry>, pages: seq<seq<Entry>>)
    requires |items| <= l.limit && PageBytes(items) <= l.maxListBytes && PagesBounded(pages, l)
    ensures PagesBounded([items] + pages, l)
  {
    assert forall i :: 0 < i < |pages| + 1 ==> ([items] + pages)[i] == pages[i - 1];
  }

  lemma Refused(l: Listing, rest: seq<Entry>)
    requires rest != [] && EntryBytes(rest[0]) > l.maxListBytes
    ensures Enumerates(l, rest, ([], false))
  {
  }

  /** The plan at position `i` is a page of the entries up to `m`, or a refusal of the first. */
  predicate PlansPage(plan: Option<string> -> PagePlan, l: Listing, s: seq<Entry>, i: nat, m: nat) {
    && i <= m <= |s| && plan(KeyBefore(s, i)) == PlanFor(s, i, m)
    && m - i <= l.limit && PageBytes(s[i..m]) <= l.maxListBytes
    && (i < |s| ==> (m == i <==> EntryBytes(s[i]) > l.maxListBytes))
  }

  ghost predicate PlansPages(plan: Option<string> -> PagePlan, l: Listing, s: seq<Entry>) {
    forall i: nat :: i <= |s| ==> PlansSomePage(plan, l, s, i)
  }

  ghost predicate PlansSomePage(plan: Option<string> -> PagePlan, l: Listing, s: seq<Entry>, i: nat) {
    exists m: nat :: PlansPage(plan, l, s, i, m)
  }

  /** From any position: the pages end, they are bounded, and they enumerate the rest of the
      visible entries in order, each once; the listing is refused only at an entry that no
      page can hold. */
  lemma {:induction false} PagesFromPosition(
    plan: Option<string> -> PagePlan, l: Listing, s: seq<Entry>, i: nat, fuel: nat)
    requires PlansPages(plan, l, s) && i <= |s| && fuel > |s| - i
    ensures Enumerates(l, s[i..], PagesFrom(plan, KeyBefore(s, i), fuel))
    decreases fuel
  {
    assert PlansSomePage(plan, l, s, i);
    var m: nat :| PlansPage(plan, l, s, i, m);
    if i == m && i < |s| {
      Refused(l, s[i..]);
    } else if m == |s| {
      assert s[i..m] == s[i..];
      OnePage(l, s[i..m]);
    } else {
      PagesFromPosition(plan, l, s, m, fuel - 1);
      OnePageMore(l, s[i..m], s[m..], PagesFrom(plan, KeyBefore(s, m), fuel - 1));
      assert s[i..] == s[i..m] + s[m..];
    }
  }

  function PlanFrom(l: Listing): Option<string> -> PagePlan {
    (afterKey: Option<string>) => PlanSpec(l, afterKey)
  }

  lemma ListingPlansPages(l: Listing)
    requires ListingOk(l)
    ensures PlansPages(PlanFrom(l), l, VisibleSorted(l))
  {
    forall i: nat | i <= |VisibleSorted(l)| ensures PlansSomePage(PlanFrom(l), l, VisibleSorted(l), i) {
      var m := PageAt(l, i);
      assert PlansPage(PlanFrom(l), l, VisibleSorted(l), i, m);
    }
  }

  lemma {:induction false} FitsWithin(items: seq<Entry>, maxBytes: int)
    requires PageBytes(items) <= maxBytes
    ensures AllFit(items, maxBytes)
  {
    if items != [] {
      FitsWithin(items[..|items| - 1], maxBytes);
      assert items == items[..|items| - 1] + [items[|items| - 1]];
    }
  }

  lemma FitsConcat(a: seq<Entry>, b: seq<Entry>, maxBytes: int)
    ensures AllFit(a + b, maxBytes) <==> AllFit(a, maxBytes) && AllFit(b, maxBytes)
  {
    assert forall i :: 0 <= i < |a| ==> (a + b)[i] == a[i];
    assert forall i :: 0 <= i < |b| ==> (a + b)[|a| + i] == b[i];
  }

  lemma {:induction false} VisibleAreListed(l: Listing, n: nat)
    requires n <= |l.entries|
    ensures forall e :: e in l.entries[..n] && IsVisible(l, e) ==> e in VisibleUpTo(l, n)
  {
    if n > 0 {
      VisibleAreListed(l, n - 1);
      assert l.entries[..n] == l.entries[..n - 1] + [l.entries[n - 1]];
    }
  }

  /** Following the cursor from the start ends after at most one page more than there are
      entries. It enumerates exactly the entries under the prefix without a tombstone, in
      byte order, each once, exactly when each of them alone fits the byte cap. */
  lemma ListingEnumeratesVisible(l: Listing, fuel: nat)
    requires ListingOk(l) && fuel > |VisibleSorted(l)|
    ensures var s := VisibleSorted(l);
            var r := PagesFrom(PlanFrom(l), None, fuel);
            && PagesBounded(r.0, l) && (r.1 <==> AllFit(s, l.maxListBytes)) && (r.1 ==> Concatenated(r.0) == s)
            && StrictlyAscending(s)
            && forall e :: e in s <==> e in l.entries && IsVisible(l, e)
  {
    var s := VisibleSorted(l);
    ListingPlansPages(l);
    PagesFromPosition(PlanFrom(l), l, s, 0, fuel);
    assert s[0..] == s;
    SortedIsStrict(l);
    forall e ensures e in s <==> e in l.entries && IsVisible(l, e) {
      if e in s { var i :| 0 <= i < |s| && s[i] == e; SortedAreEntries(l, i); }
      VisibleAreListed(l, |l.entries|);
      assert l.entries[..|l.entries|] == l.entries;
      if e in l.entries && IsVisible(l, e) { assert e in multiset(VisibleUpTo(l, |l.entries|)); }
    }
  }
}
