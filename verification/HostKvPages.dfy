/** What a compare-and-swap, a cursor check, a tombstone check and a list page answer, for
    every input, told from the stored entries. */
module HostKvPages {
  import opened Basics
  import opened ByteOrder
  import opened HostKv

  // ------------------------------------------------------------------ compare and swap

  /** Versions run from 1 to 2^53 - 1. */
  predicate VersionsOk(current: Option<int>, expected: Option<int>, nextVersion: int) {
    && (current.Some? ==> 1 <= current.value <= 9007199254740991)
    && (expected.Some? ==> 1 <= expected.value <= 9007199254740991)
    && 1 <= nextVersion <= 9007199254740991
  }

  /** A writer expects nothing, or exactly the stored version. */
  predicate UpToDate(current: Option<int>, expected: Option<int>) { expected.None? || expected == current }

  /** A mutation commits its version exactly if the writer is up to date and the version is
      above the stored one, conflicts exactly if the writer is not up to date, and is
      unavailable exactly otherwise: a version out of range, or one that would not rise. */
  lemma CasDecides(current: Option<int>, expected: Option<int>, nextVersion: int)
    ensures var d := ApplyIwebKvCas(current, expected, nextVersion);
            var ok := VersionsOk(current, expected, nextVersion);
            var rises := current.None? || current.value < nextVersion;
            && (forall v :: d == Committed(v) <==> ok && UpToDate(current, expected) && rises && v == nextVersion)
            && (d == Conflict <==> ok && !UpToDate(current, expected))
            && (d == Unavailable <==> !ok || (UpToDate(current, expected) && !rises))
  {
  }

  /** So a writer that read the version last stored commits the next one, until the maximum. */
  lemma UpToDateWriterCommits(start: Option<int>, ms: seq<Mutation>)
    requires start.Some? ==> IsVersion(start.value)
    ensures var current := HostKv.AfterAll(start, ms);
            && (VersionOf(current) < 9007199254740991 ==>
                  ApplyIwebKvCas(current, current, VersionOf(current) + 1) == Committed(VersionOf(current) + 1))
            && (VersionOf(current) == 9007199254740991 ==>
                  forall next :: ApplyIwebKvCas(current, current, next) == Unavailable)
  {
    VersionsRise(start, ms);
  }

  // ------------------------------------------------------------------ cursors and tombstones

  /** The cursor was issued for this listing of this snapshot. */
  predicate SameScope(c: Cursor, applicationId: string, policyDigest: string, prefix: string, snapshotToken: string) {
    && c.applicationId == applicationId && c.hostServicePolicyDigest == policyDigest
    && c.prefix == prefix && c.snapshotToken == snapshotToken
  }

  /** Scope comes before expiry: a cursor is valid exactly if it is well formed, of this scope,
      its snapshot lives and its time has not come; expired exactly if only the latter fails. */
  lemma CursorDecides(
    c: Cursor, applicationId: string, policyDigest: string, prefix: string, snapshotToken: string,
    snapshotAlive: bool, nowMs: int)
    ensures var d := CheckIwebKvCursor(c, applicationId, policyDigest, prefix, snapshotToken, snapshotAlive, nowMs);
            var inScope := CursorOk(c) && SameScope(c, applicationId, policyDigest, prefix, snapshotToken);
            && (d == Valid <==> inScope && snapshotAlive && nowMs < c.expiresAtMs)
            && (d == Expired <==> inScope && (!snapshotAlive || nowMs >= c.expiresAtMs))
            && (d == InvalidScope <==> !inScope)
  {
  }

  /** A tombstone may go exactly if nothing refers to it, all times are in range, and the
      cursor lifetime and the replay window have both passed since the delete. */
  lemma CollectableIff(deletedAtMs: int, nowMs: int, maxCursorTtlMs: int, hostCallReplayTtlMs: int, proof: bool)
    ensures IsIwebKvTombstoneCollectable(deletedAtMs, nowMs, maxCursorTtlMs, hostCallReplayTtlMs, proof) <==>
            && proof && maxCursorTtlMs >= 0 && hostCallReplayTtlMs >= 0
            && maxCursorTtlMs + hostCallReplayTtlMs <= 9007199254740991
            && 0 <= deletedAtMs <= 9007199254740991 && 0 <= nowMs <= 9007199254740991
            && deletedAtMs + maxCursorTtlMs + hostCallReplayTtlMs <= nowMs
  {
  }

  // ------------------------------------------------------------------ what is visible

  /** Stored, not masked by a tombstone, and under the prefix. */
  predicate Visible(l: Listing, e: Entry) {
    e in l.entries && e.key !in l.tombstoneKeys && |l.prefix| <= |e.key| && e.key[..|l.prefix|] == l.prefix
  }

  predicate After(e: Entry, afterKey: Option<string>) { afterKey.Some? ==> Before(afterKey.value, e.key) }

  lemma {:induction false} VisibleUpToIs(l: Listing, n: nat, e: Entry)
    requires n <= |l.entries|
    ensures e in VisibleUpTo(l, n) <==> e in l.entries[..n] && Visible(l, e)
  {
    if n > 0 {
      VisibleUpToIs(l, n - 1, e);
      assert l.entries[..n] == l.entries[..n - 1] + [l.entries[n - 1]];
    }
  }

  lemma SortedIsVisible(l: Listing, e: Entry)
    ensures e in VisibleSorted(l) <==> Visible(l, e)
  {
    VisibleUpToIs(l, |l.entries|, e);
    assert l.entries[..|l.entries|] == l.entries;
    assert e in VisibleSorted(l) <==> e in multiset(VisibleSorted(l));
    assert e in VisibleUpTo(l, |l.entries|) <==> e in multiset(VisibleUpTo(l, |l.entries|));
  }

  lemma {:induction false} CandidatesAre(s: seq<Entry>, afterKey: Option<string>, n: nat, e: Entry)
    requires n <= |s|
    ensures e in CandidatesUpTo(s, afterKey, n) <==> e in s[..n] && After(e, afterKey)
  {
    if n > 0 {
      CandidatesAre(s, afterKey, n - 1, e);
      assert s[..n] == s[..n - 1] + [s[n - 1]];
    }
  }

  lemma {:induction false} CandidatesAscend(s: seq<Entry>, afterKey: Option<string>, n: nat)
    requires n <= |s| && StrictlyAscending(s)
    ensures StrictlyAscending(CandidatesUpTo(s, afterKey, n))
  {
    if n > 0 {
      CandidatesAscend(s, afterKey, n - 1);
      var before := CandidatesUpTo(s, afterKey, n - 1);
      forall i | 0 <= i < |before| ensures Before(before[i].key, s[n - 1].key) {
        CandidatesAre(s, afterKey, n - 1, before[i]);
      }
    }
  }

  /** What is still to be listed behind the key: the visible entries with a later key, in
      byte order, each once. */
  ghost predicate RemainsAfter(l: Listing, afterKey: Option<string>, rest: seq<Entry>) {
    StrictlyAscending(rest) && forall e :: e in rest <==> Visible(l, e) && After(e, afterKey)
  }

  lemma CandidatesRemain(l: Listing, afterKey: Option<string>)
    requires ListingOk(l)
    ensures RemainsAfter(l, afterKey, Candidates(l, afterKey))
  {
    var s := VisibleSorted(l);
    SortedIsStrict(l);
    CandidatesAscend(s, afterKey, |s|);
    assert s[..|s|] == s;
    forall e ensures e in Candidates(l, afterKey) <==> Visible(l, e) && After(e, afterKey) {
      CandidatesAre(s, afterKey, |s|, e);
      SortedIsVisible(l, e);
    }
  }

  // ------------------------------------------------------------------ one page

  /** As many of the first entries as the limit and the bytes allow. */
  ghost predicate Fills(l: Listing, rest: seq<Entry>, items: seq<Entry>) {
    && items <= rest && |items| <= l.limit && PageBytes(items) <= l.maxListBytes
    && (|items| < |rest| ==>
          |items| == l.limit || PageBytes(items) + EntryBytes(rest[|items|]) > l.maxListBytes)
  }

  /** A page of what remains: full, and with a cursor exactly if something is left behind it. */
  ghost predicate IsPage(l: Listing, rest: seq<Entry>, r: PagePlan) {
    if rest != [] && EntryBytes(rest[0]) > l.maxListBytes then r == LimitExceeded
    else
      && r.Page? && Fills(l, rest, r.items) && (rest != [] ==> r.items != [])
      && (if r.items == rest then r.nextLastKey == None
          else r.items != [] && r.nextLastKey == Some(r.items[|r.items| - 1].key))
  }

  lemma {:induction false} LengthFills(cs: seq<Entry>, limit: int, maxBytes: int, n: nat)
    requires n <= |cs| && n <= limit
    ensures var m := PageLength(cs, limit, maxBytes, n);
            m < |cs| ==> m == limit || PageBytes(cs[..m]) + EntryBytes(cs[m]) > maxBytes
    decreases |cs| - n
  {
    if !(n == |cs| || n >= limit || PageBytes(cs[..n]) + EntryBytes(cs[n]) > maxBytes) {
      LengthFills(cs, limit, maxBytes, n + 1);
    }
  }

  lemma PlanIsPage(l: Listing, cs: seq<Entry>)
    requires l.limit >= 1 && l.maxListBytes >= 0
    ensures IsPage(l, cs, PlanOfCandidates(l, cs))
  {
    var m := PageLength(cs, l.limit, l.maxListBytes, 0);
    assert PageBytes(cs[..0]) == 0;
    PageWithin(cs, l.limit, l.maxListBytes, 0);
    LengthFills(cs, l.limit, l.maxListBytes, 0);
    if cs != [] { FirstPageStep(cs, l.limit, l.maxListBytes); }
  }

  /** No two visible entries share a key. */
  ghost predicate VisibleKeysDiffer(l: Listing) {
    forall i, k :: (0 <= i < k < |l.entries| && Visible(l, l.entries[i]) && Visible(l, l.entries[k])) ==>
      l.entries[i].key != l.entries[k].key
  }

  /** The arguments and the stored data a listing accepts. */
  ghost predicate Listable(l: Listing, afterKey: Option<string>) {
    && IsValidIwebKvKey(l.prefix) && (afterKey.Some? ==> IsValidIwebKvKey(afterKey.value))
    && 1 <= l.maxListBytes <= 9007199254740991
    && 1 <= l.limit <= 256 && l.limit <= l.profileMaxListItems <= 9007199254740991
    && (forall k :: k in l.tombstoneKeys ==> IsValidIwebKvKey(k))
    && (forall e :: e in l.entries ==> IsValidIwebKvKey(e.key) && |e.value| <= 65536)
    && VisibleKeysDiffer(l)
  }

  ghost predicate KeysDiffer(s: seq<Entry>) { forall i, k :: 0 <= i < k < |s| ==> s[i].key != s[k].key }

  ghost predicate HoldsKey(s: seq<Entry>, key: string) { exists i :: 0 <= i < |s| && s[i].key == key }

  lemma KeysDifferAppend(s: seq<Entry>, e: Entry)
    ensures KeysDiffer(s + [e]) <==> KeysDiffer(s) && !HoldsKey(s, e.key)
  {
    var t := s + [e];
    if KeysDiffer(t) {
      forall i, k | 0 <= i < k < |s| ensures s[i].key != s[k].key { assert t[i].key != t[k].key; }
      forall i | 0 <= i < |s| ensures s[i].key != e.key { assert t[i].key != t[|s|].key; }
    }
  }

  lemma {:induction false} KeysDifferInserted(s: seq<Entry>, e: Entry)
    ensures KeysDiffer(InsertByKey(s, e)) <==> KeysDiffer(s) && !HoldsKey(s, e.key)
    ensures forall key :: HoldsKey(InsertByKey(s, e), key) <==> HoldsKey(s, key) || key == e.key
  {
    if s == [] || Before(e.key, s[0].key) {
      var r := [e] + s;
      assert forall i :: 0 <= i < |s| ==> r[i + 1] == s[i];
      KeysDifferCons(e, s);
      HoldsKeyCons(e, s);
    } else {
      KeysDifferInserted(s[1..], e);
      KeysDifferCons(s[0], s[1..]);
      KeysDifferCons(s[0], InsertByKey(s[1..], e));
      HoldsKeyCons(s[0], s[1..]);
      HoldsKeyCons(s[0], InsertByKey(s[1..], e));
      assert s == [s[0]] + s[1..];
    }
  }

  lemma KeysDifferCons(e: Entry, s: seq<Entry>)
    ensures KeysDiffer([e] + s) <==> KeysDiffer(s) && !HoldsKey(s, e.key)
  {
    var t := [e] + s;
    if KeysDiffer(t) {
      forall i, k | 0 <= i < k < |s| ensures s[i].key != s[k].key { assert t[i + 1].key != t[k + 1].key; }
      forall i | 0 <= i < |s| ensures s[i].key != e.key { assert t[0].key != t[i + 1].key; }
    }
  }

  lemma HoldsKeyCons(e: Entry, s: seq<Entry>)
    ensures forall key :: HoldsKey([e] + s, key) <==> e.key == key || HoldsKey(s, key)
  {
    var t := [e] + s;
    forall key ensures HoldsKey(t, key) <==> e.key == key || HoldsKey(s, key) {
      if e.key == key { assert t[0].key == key; }
      if i :| 0 <= i < |s| && s[i].key == key { assert t[i + 1].key == key; }
      if i :| 0 <= i < |t| && t[i].key == key { assert i > 0 ==> s[i - 1].key == key; }
    }
  }

  lemma {:induction false} KeysDifferSorted(s: seq<Entry>)
    ensures KeysDiffer(SortByKey(s)) <==> KeysDiffer(s)
    ensures forall key :: HoldsKey(SortByKey(s), key) <==> HoldsKey(s, key)
  {
    if s != [] {
      var m := |s| - 1;
      KeysDifferSorted(s[..m]);
      KeysDifferInserted(SortByKey(s[..m]), s[m]);
      KeysDifferAppend(s[..m], s[m]);
      assert s == s[..m] + [s[m]];
      forall key ensures HoldsKey(s, key) <==> HoldsKey(s[..m], key) || key == s[m].key {
        HoldsKeyAppend(s[..m], s[m], key);
      }
    }
  }

  ghost predicate VisibleKeysDifferUpTo(l: Listing, n: nat)
    requires n <= |l.entries|
  {
    forall i, k :: (0 <= i < k < n && Visible(l, l.entries[i]) && Visible(l, l.entries[k])) ==>
      l.entries[i].key != l.entries[k].key
  }

  ghost predicate HoldsVisible(l: Listing, n: nat, key: string)
    requires n <= |l.entries|
  {
    exists i :: 0 <= i < n && Visible(l, l.entries[i]) && l.entries[i].key == key
  }

  lemma HoldsKeyAppend(s: seq<Entry>, e: Entry, key: string)
    ensures HoldsKey(s + [e], key) <==> HoldsKey(s, key) || e.key == key
  {
    var t := s + [e];
    if e.key == key { assert t[|s|].key == key; }
    if i :| 0 <= i < |s| && s[i].key == key { assert t[i].key == key; }
  }

  lemma VisibleUpToStep(l: Listing, n: nat)
    requires 0 < n <= |l.entries|
    ensures VisibleUpTo(l, n) == VisibleUpTo(l, n - 1) + if Visible(l, l.entries[n - 1]) then [l.entries[n - 1]] else []
  {
    var e := l.entries[n - 1];
    VisibleUpToIs(l, n, e);
    assert l.entries[..n][n - 1] == e;
    assert Visible(l, e) <==> IsVisible(l, e);
  }

  lemma {:induction false} HeldIsVisible(l: Listing, n: nat, key: string)
    requires n <= |l.entries|
    ensures HoldsKey(VisibleUpTo(l, n), key) <==> HoldsVisible(l, n, key)
  {
    if n > 0 {
      HeldIsVisible(l, n - 1, key);
      VisibleUpToStep(l, n);
      HoldsKeyAppend(VisibleUpTo(l, n - 1), l.entries[n - 1], key);
      assert VisibleUpTo(l, n - 1) + [] == VisibleUpTo(l, n - 1);
    }
  }

  lemma {:induction false} KeysDifferUpTo(l: Listing, n: nat)
    requires n <= |l.entries|
    ensures KeysDiffer(VisibleUpTo(l, n)) <==> VisibleKeysDifferUpTo(l, n)
  {
    if n > 0 {
      var e := l.entries[n - 1];
      KeysDifferUpTo(l, n - 1);
      VisibleUpToStep(l, n);
      HeldIsVisible(l, n - 1, e.key);
      KeysDifferAppend(VisibleUpTo(l, n - 1), e);
      assert VisibleUpTo(l, n - 1) + [] == VisibleUpTo(l, n - 1);
    }
  }

  lemma NeighboursDifferIff(l: Listing)
    ensures NeighboursDiffer(VisibleSorted(l)) <==> VisibleKeysDiffer(l)
  {
    var s := VisibleSorted(l);
    KeysDifferUpTo(l, |l.entries|);
    KeysDifferSorted(VisibleUpTo(l, |l.entries|));
    SortAscends(VisibleUpTo(l, |l.entries|));
    if NeighboursDiffer(s) {
      forall i, k | 0 <= i < k < |s| ensures s[i].key != s[k].key {
        StrictFromNeighbours(s, i, k);
        BeforeIrreflexive(s[i].key);
      }
    } else {
      var i :| 0 <= i < |s| - 1 && !DiffersFromNext(s, i);
      assert s[i].key == s[i + 1].key;
    }
  }

  lemma ListableIff(l: Listing, afterKey: Option<string>)
    ensures Listable(l, afterKey) <==> ListingOk(l) && (afterKey.Some? ==> IsValidIwebKvKey(afterKey.value))
  {
    NeighboursDifferIff(l);
    assert (forall k :: k in l.tombstoneKeys ==> IsValidIwebKvKey(k)) <==> TombstonesOk(l.tombstoneKeys);
    assert EntriesOk(l.entries) ==> forall e :: e in l.entries ==> EntryOk(e);
  }

  /** Every list page, for whatever cursor key: refused exactly for arguments or data no listing
      accepts or a first entry no page can hold; otherwise as many of the visible entries behind
      the key, in byte order, as fit, with a cursor exactly if something is left. */
  lemma PageIsExact(l: Listing, afterKey: Option<string>, rest: seq<Entry>)
    ensures !Listable(l, afterKey) ==> PlanSpec(l, afterKey) == LimitExceeded
    ensures Listable(l, afterKey) && RemainsAfter(l, afterKey, rest) ==> IsPage(l, rest, PlanSpec(l, afterKey))
  {
    ListableIff(l, afterKey);
    if Listable(l, afterKey) && RemainsAfter(l, afterKey, rest) {
      var cs := Candidates(l, afterKey);
      CandidatesRemain(l, afterKey);
      OneAscendingList(rest, cs);
      PlanIsPage(l, cs);
    }
  }

  lemma BothEmpty(a: seq<Entry>, b: seq<Entry>)
    requires forall e :: e in a <==> e in b
    ensures a == [] <==> b == []
  {
    if a != [] { assert a[0] in a; }
    if b != [] { assert b[0] in b; }
  }

  /** Two strictly ascending lists of the same entries are the same list. */
  lemma {:induction false} OneAscendingList(a: seq<Entry>, b: seq<Entry>)
    requires StrictlyAscending(a) && StrictlyAscending(b) && forall e :: e in a <==> e in b
    ensures a == b
    decreases |a|
  {
    BothEmpty(a, b);
    if a != [] {
      assert a[0] in b;
      FirstIsLeast(a, b);
      forall e ensures e in a[1..] <==> e in b[1..] {
        BeforeIrreflexive(a[0].key);
        assert e in a <==> e == a[0] || e in a[1..];
        assert e in b <==> e == b[0] || e in b[1..];
        if e in a[1..] { var i :| 0 <= i < |a[1..]| && a[1..][i] == e; assert Before(a[0].key, a[i + 1].key); }
        if e in b[1..] { var i :| 0 <= i < |b[1..]| && b[1..][i] == e; assert Before(b[0].key, b[i + 1].key); }
      }
      OneAscendingList(a[1..], b[1..]);
      assert a == [a[0]] + a[1..] && b == [b[0]] + b[1..];
    }
  }

  lemma FirstIsLeast(a: seq<Entry>, b: seq<Entry>)
    requires StrictlyAscending(a) && StrictlyAscending(b) && a != [] && b != [] && a[0] in b && b[0] in a
    ensures a[0] == b[0]
  {
    var i :| 0 <= i < |b| && b[i] == a[0];
    var k :| 0 <= k < |a| && a[k] == b[0];
    if i > 0 && k > 0 { BeforeAsymmetric(a[0].key, b[0].key); }
  }
}
