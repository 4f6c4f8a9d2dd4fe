/** Address text: dotted quads and the colon forms of RFC 4291. */
module AddressText {
  import opened Basics
  import opened Decimal
  import opened Text

  // ------------------------------------------------------------------ dotted quads

  predicate AllDigits(t: string) { forall i :: 0 <= i < |t| ==> '0' <= t[i] <= '9' }

  /** One to three digits, no leading zero, at most 255. */
  predicate IsOctetText(t: string) {
    1 <= |t| <= 3 && AllDigits(t) && !(|t| > 1 && t[0] == '0') && DecimalValue(t) <= 255
  }

  function OctetValue(t: string): nat {
    if AllDigits(t) then DecimalValue(t) else 0
  }

  function OctetsOf(parts: seq<string>): (r: seq<nat>)
    ensures |r| == |parts| && forall i :: 0 <= i < |r| ==> r[i] == OctetValue(parts[i])
  {
    seq(|parts|, i requires 0 <= i < |parts| => OctetValue(parts[i]))
  }

  function Ipv4Octets(s: string): Option<seq<nat>> {
    var parts := Split(s, '.');
    if |parts| == 4 && forall i :: 0 <= i < |parts| ==> IsOctetText(parts[i]) then Some(OctetsOf(parts)) else None
  }

  method ParseIpv4(s: string) returns (r: Option<seq<nat>>)
    ensures r == Ipv4Octets(s)
  {
    var parts := Split(s, '.');
    if |parts| != 4 {
      return None;
    }
    var octets: seq<nat> := [];
    var i := 0;
    while i < |parts|
      invariant 0 <= i <= |parts| && |octets| == i
      invariant forall k :: 0 <= k < i ==> IsOctetText(parts[k]) && octets[k] == OctetValue(parts[k])
    {
      var part := parts[i];
      if !(1 <= |part| <= 3) || !AllDigits(part) {
        return None;
      }
      if |part| > 1 && part[0] == '0' {
        return None;
      }
      var octet := DecimalValue(part);
      if octet > 255 {
        return None;
      }
      octets := octets + [octet];
      i := i + 1;
    }
    assert octets == OctetsOf(parts);
    r := Some(octets);
  }

  predicate AreOctets(octets: seq<nat>) { |octets| == 4 && forall i :: 0 <= i < 4 ==> octets[i] <= 255 }

  function DottedParts(octets: seq<nat>): (r: seq<string>)
    ensures |r| == |octets| && forall i :: 0 <= i < |r| ==> r[i] == DecimalText(octets[i])
  {
    seq(|octets|, i requires 0 <= i < |octets| => DecimalText(octets[i]))
  }

  /** The one spelling of an IPv4 address. */
  function DottedQuad(octets: seq<nat>): string { Join(DottedParts(octets), '.') }

  lemma OneDigit(t: string)
    requires |t| == 1 && AllDigits(t)
    ensures DecimalValue(t) == (t[0] - '0') as nat && DecimalText(DecimalValue(t)) == t
  {
    assert t[..0] == [];
    assert DecimalValue(t) == 10 * DecimalValue(t[..0]) + (t[0] - '0') as nat;
    assert t == [t[0]];
  }

  lemma ValueStep(t: string)
    requires |t| > 0 && AllDigits(t)
    ensures DecimalValue(t) == 10 * DecimalValue(t[..|t| - 1]) + (t[|t| - 1] - '0') as nat
  {
  }

  lemma MoreDigits(t: string, n: nat)
    requires |t| > 1 && AllDigits(t) && n > 0 && DecimalText(n) == t[..|t| - 1]
    ensures DecimalText(10 * n + (t[|t| - 1] - '0') as nat) == t
  {
    var d := (t[|t| - 1] - '0') as nat;
    LastDigit(n, d);
    assert Digit(d) == t[|t| - 1] && t == t[..|t| - 1] + [t[|t| - 1]];
  }

  lemma LastDigit(n: nat, d: nat)
    requires n > 0 && d < 10
    ensures DecimalText(10 * n + d) == DecimalText(n) + [Digit(d)]
  {
  }

  lemma {:induction false} DecimalOfValue(t: string)
    requires |t| > 0 && AllDigits(t) && !(|t| > 1 && t[0] == '0')
    ensures DecimalText(DecimalValue(t)) == t
    ensures t[0] != '0' ==> DecimalValue(t) > 0
  {
    var m := |t| - 1;
    if m == 0 {
      OneDigit(t);
    } else {
      assert t[..m][0] == t[0];
      DecimalOfValue(t[..m]);
      ValueStep(t);
      MoreDigits(t, DecimalValue(t[..m]));
    }
  }

  lemma OctetTextOf(n: nat)
    requires n <= 255
    ensures IsOctetText(DecimalText(n)) && DecimalValue(DecimalText(n)) == n && '.' !in DecimalText(n)
  {
    DecimalRoundTrip(n);
    if n >= 100 {
      assert DecimalText(n) == DecimalText(n / 10) + [Digit(n % 10)];
      assert DecimalText(n / 10) == DecimalText(n / 100) + [Digit(n / 10 % 10)];
    } else if n >= 10 {
      assert DecimalText(n) == DecimalText(n / 10) + [Digit(n % 10)];
    }
  }

  /** Parsing accepts exactly the dotted quads of four octets and returns the octets. */
  lemma Ipv4Exactly(s: string, octets: seq<nat>)
    ensures Ipv4Octets(s) == Some(octets) <==> AreOctets(octets) && s == DottedQuad(octets)
  {
    if Ipv4Octets(s) == Some(octets) {
      var parts := Split(s, '.');
      forall i | 0 <= i < 4 ensures DottedParts(octets)[i] == parts[i] {
        assert IsOctetText(parts[i]);
        DecimalOfValue(parts[i]);
      }
      assert DottedParts(octets) == parts;
      JoinOfSplit(s, '.');
    }
    if AreOctets(octets) && s == DottedQuad(octets) {
      var parts := DottedParts(octets);
      forall i | 0 <= i < 4 ensures IsOctetText(parts[i]) && DecimalValue(parts[i]) == octets[i] && '.' !in parts[i] {
        OctetTextOf(octets[i]);
      }
      SplitOfJoin(parts, '.');
      assert OctetsOf(parts) == octets;
    }
  }

  // ------------------------------------------------------------------ hexadecimal groups

  predicate IsHexDigit(c: char) { '0' <= c <= '9' || 'a' <= c <= 'f' }

  function HexDigit(c: char): (d: nat)
    requires IsHexDigit(c)
    ensures d < 16
  {
    if '0' <= c <= '9' then (c - '0') as nat else 10 + (c - 'a') as nat
  }

  predicate AllHex(t: string) { forall i :: 0 <= i < |t| ==> IsHexDigit(t[i]) }

  predicate IsHexGroup(t: string) { 1 <= |t| <= 4 && AllHex(t) }

  function Pow16(n: nat): (p: nat)
    ensures p > 0
  {
    if n == 0 then 1 else 16 * Pow16(n - 1)
  }

  /** `parseInt(t, 16)`. */
  function HexValue(t: string): nat
    requires AllHex(t)
  {
    if t == [] then 0 else HexDigit(t[0]) * Pow16(|t| - 1) + HexValue(t[1..])
  }

  lemma Scaled(d: nat, p: nat)
    requires d <= 15
    ensures d * p <= 15 * p
  {
    assert 15 * p == d * p + (15 - d) * p;
  }

  lemma {:induction false} HexBound(t: string)
    requires AllHex(t)
    ensures HexValue(t) < Pow16(|t|)
  {
    if t != [] {
      HexBound(t[1..]);
      Scaled(HexDigit(t[0]), Pow16(|t| - 1));
    }
  }

  function PadStart(t: string): string
    decreases 4 - |t|
  {
    if |t| >= 4 then t else PadStart("0" + t)
  }

  lemma {:induction false} PadKeeps(t: string)
    requires IsHexGroup(t)
    ensures |PadStart(t)| == 4 && AllHex(PadStart(t)) && HexValue(PadStart(t)) == HexValue(t)
    decreases 4 - |t|
  {
    if |t| < 4 {
      assert ("0" + t)[1..] == t;
      PadKeeps("0" + t);
    }
  }

  // ------------------------------------------------------------------ the colon forms

  function LowerChar(c: char): char { if 'A' <= c <= 'Z' then c - 'A' + 'a' else c }

  function ToLower(s: string): (r: string)
    ensures |r| == |s| && forall i :: 0 <= i < |s| ==> r[i] == LowerChar(s[i])
  {
    seq(|s|, i requires 0 <= i < |s| => LowerChar(s[i]))
  }

  /** `\s`. */
  predicate IsSpace(c: char) {
    || c == ' ' || '\t' <= c <= '\r' || c == '\U{00a0}' || c == '\U{1680}' || '\U{2000}' <= c <= '\U{200a}'
    || c == '\U{2028}' || c == '\U{2029}' || c == '\U{202f}' || c == '\U{205f}' || c == '\U{3000}' || c == '\U{feff}'
  }

  /** `s.split("::")`: leftmost pairs first. */
  function SplitDouble(s: string): (r: seq<string>)
    ensures |r| > 0
  {
    if |s| < 2 then [s]
    else if s[0] == ':' && s[1] == ':' then [""] + SplitDouble(s[2..])
    else
      var r := SplitDouble(s[1..]);
      [[s[0]] + r[0]] + r[1..]
  }

  /** A token with a dot is a dotted quad, standing for two groups, and only comes last. */
  function TokenGroups(token: string, last: bool): Option<seq<string>> {
    if '.' in token then
      if !last then None
      else
        var octets := Ipv4Octets(token);
        if octets.None? then None
        else Some([HexText(octets.value[0] * 256 + octets.value[1]), HexText(octets.value[2] * 256 + octets.value[3])])
    else if IsHexGroup(token) then Some([token]) else None
  }

  function HexDigitText(n: nat): char
    requires n < 16
  {
    if n < 10 then '0' + n as char else 'a' + (n - 10) as char
  }

  /** `n.toString(16)`. */
  function HexText(n: nat): string {
    if n < 16 then [HexDigitText(n)] else HexText(n / 16) + [HexDigitText(n % 16)]
  }

  function GroupsUpTo(tokens: seq<string>, n: nat): Option<seq<string>>
    requires n <= |tokens|
  {
    if n == 0 then Some([])
    else
      var before, now := GroupsUpTo(tokens, n - 1), TokenGroups(tokens[n - 1], n == |tokens|);
      if before.None? || now.None? then None else Some(before.value + now.value)
  }

  function PartGroups(part: string): Option<seq<string>> {
    if part == "" then Some([]) else GroupsUpTo(Split(part, ':'), |Split(part, ':')|)
  }

  /** The groups of one side of the `::`, token by token. */
  method ParseGroups(part: string) returns (r: Option<seq<string>>)
    ensures r == PartGroups(part)
  {
    if part == "" {
      return Some([]);
    }
    var tokens := Split(part, ':');
    var groups: seq<string> := [];
    var i := 0;
    while i < |tokens|
      invariant 0 <= i <= |tokens| && GroupsUpTo(tokens, i) == Some(groups)
    {
      var token := tokens[i];
      GroupsStop(tokens, i + 1);
      if '.' in token {
        if i != |tokens| - 1 {
          return None;
        }
        var octets := ParseIpv4(token);
        if octets.None? {
          return None;
        }
        ghost var before := groups;
        var high, low := HexText(octets.value[0] * 256 + octets.value[1]),
            HexText(octets.value[2] * 256 + octets.value[3]);
        groups := groups + [high];
        groups := groups + [low];
        assert groups == before + [high, low];
      } else if IsHexGroup(token) {
        groups := groups + [token];
      } else {
        return None;
      }
      i := i + 1;
    }
    r := Some(groups);
  }

  lemma {:induction false} GroupsStop(tokens: seq<string>, n: nat)
    requires n <= |tokens|
    ensures GroupsUpTo(tokens, n).None? ==> GroupsUpTo(tokens, |tokens|).None?
    decreases |tokens| - n
  {
    if n < |tokens| { GroupsStop(tokens, n + 1); }
  }

  function Zeros(n: nat): (r: seq<string>)
    ensures |r| == n && forall i :: 0 <= i < n ==> r[i] == "0"
  {
    seq(n, i requires 0 <= i < n => "0")
  }

  function Padded(groups: seq<string>): (r: seq<string>)
    ensures |r| == |groups| && forall i :: 0 <= i < |r| ==> r[i] == PadStart(groups[i])
  {
    seq(|groups|, i requires 0 <= i < |groups| => PadStart(groups[i]))
  }

  function Explicit(parts: seq<string>): Option<seq<string>> {
    if |parts| == 1 then
      var groups := PartGroups(parts[0]);
      if groups.None? || |groups.value| != 8 then None else groups
    else if |parts| == 2 then
      var left, right := PartGroups(parts[0]), PartGroups(parts[1]);
      if left.None? || right.None? || |left.value| + |right.value| > 7 then None
      else Some(left.value + Zeros(8 - |left.value| - |right.value|) + right.value)
    else None
  }

  predicate IsIpv4Mapped(g: seq<string>)
    requires |g| >= 6
  {
    g[0] == "0000" && g[1] == "0000" && g[2] == "0000" && g[3] == "0000" && g[4] == "0000" && g[5] == "ffff"
  }

  predicate IsIpv4Compatible(g: seq<string>)
    requires |g| >= 6
  {
    g[0] == "0000" && g[1] == "0000" && g[2] == "0000" && g[3] == "0000" && g[4] == "0000" && g[5] == "0000"
  }

  /** The eight zero-padded groups, or nothing. */
  function ExpandIpv6(value: string): (r: Option<seq<string>>)
  {
    var lower := ToLower(value);
    if '%' in lower || exists i :: 0 <= i < |lower| && IsSpace(lower[i]) then None
    else
      var groups := Explicit(SplitDouble(lower));
      if groups.None? || |groups.value| != 8 then None
      else if '.' in lower && !IsIpv4Mapped(Padded(groups.value)) && !IsIpv4Compatible(Padded(groups.value)) then None
      else Some(Padded(groups.value))
  }

  // ------------------------------------------------------------------ section 2.2 of RFC 4291

  predicate HexGroups(gs: seq<string>) { forall i :: 0 <= i < |gs| ==> IsHexGroup(gs[i]) }

  /** One side of the `::`, or a text without it: groups, and a dotted quad that may follow. */
  datatype Side = Side(hex: seq<string>, quad: Option<seq<nat>>)

  predicate SideOk(side: Side) { HexGroups(side.hex) && (side.quad.Some? ==> AreOctets(side.quad.value)) }

  function SideTokens(side: Side): seq<string> {
    side.hex + if side.quad.Some? then [DottedQuad(side.quad.value)] else []
  }

  function SideText(side: Side): string { Join(SideTokens(side), ':') }

  /** A dotted quad stands for two groups. */
  function SideGroups(side: Side): seq<string>
    requires SideOk(side)
  {
    side.hex + if side.quad.Some? then QuadGroups(side.quad.value) else []
  }

  function QuadGroups(octets: seq<nat>): seq<string>
    requires AreOctets(octets)
  {
    [HexText(octets[0] * 256 + octets[1]), HexText(octets[2] * 256 + octets[3])]
  }

  /** Form 1, or form 3 without a `::`: eight groups. */
  predicate IsForm1(s: string, side: Side) { SideOk(side) && |SideGroups(side)| == 8 && s == SideText(side) }

  /** Form 2, where a dotted quad may end either side; the `::` stands in the place of one or
      more zero groups. */
  predicate IsForm2(s: string, left: Side, right: Side) {
    && SideOk(left) && SideOk(right) && |SideGroups(left)| + |SideGroups(right)| <= 7
    && s == SideText(left) + "::" + SideText(right)
  }

  function Form2Groups(left: seq<string>, right: seq<string>): seq<string>
    requires |left| + |right| <= 7
  {
    left + Zeros(8 - |left| - |right|) + right
  }

  /** A dotted quad may only stand in a mapped or compatible address. */
  predicate EmbeddingOk(dotted: bool, groups: seq<string>) {
    |groups| == 8 && (dotted ==> IsIpv4Mapped(groups) || IsIpv4Compatible(groups))
  }

  /** The text is of one of the forms and these are its eight groups. */
  ghost predicate Denotes(s: string, groups: seq<string>) {
    || (exists side :: IsForm1(s, side) && groups == Padded(SideGroups(side)) && EmbeddingOk(side.quad.Some?, groups))
    || (exists left, right :: IsForm2(s, left, right)
          && groups == Padded(Form2Groups(SideGroups(left), SideGroups(right)))
          && EmbeddingOk(left.quad.Some? || right.quad.Some?, groups))
  }

  predicate NoPair(s: string) { forall i :: 0 <= i < |s| - 1 ==> !ColonsAt(s, i) }

  predicate ColonsAt(s: string, i: nat)
    requires i + 1 < |s|
  {
    s[i] == ':' && s[i + 1] == ':'
  }

  lemma {:induction false} SplitNothing(s: string)
    requires NoPair(s)
    ensures SplitDouble(s) == [s]
  {
    if |s| >= 2 {
      assert !ColonsAt(s, 0);
      forall i | 0 <= i < |s[1..]| - 1 ensures !ColonsAt(s[1..], i) { assert !ColonsAt(s, i + 1); }
      SplitNothing(s[1..]);
      assert s == [s[0]] + s[1..];
    }
  }

  lemma {:induction false} SplitAtPair(a: string, b: string)
    requires NoPair(a) && (a != "" ==> a[|a| - 1] != ':')
    ensures SplitDouble(a + "::" + b) == [a] + SplitDouble(b)
  {
    var s := a + "::" + b;
    if a == "" {
      assert s[2..] == b;
    } else {
      forall i | 0 <= i < |a[1..]| - 1 ensures !ColonsAt(a[1..], i) { assert !ColonsAt(a, i + 1); }
      SplitAtPair(a[1..], b);
      assert s[1..] == a[1..] + "::" + b;
      assert |a| > 1 ==> !ColonsAt(a, 0);
      assert s[0] == a[0] && (|a| > 1 ==> s[1] == a[1]);
      assert a == [a[0]] + a[1..];
      assert SplitDouble(s[1..])[1..] == SplitDouble(b);
    }
  }

  lemma {:induction false} SplitGivesBack(s: string)
    ensures |SplitDouble(s)| == 1 ==> s == SplitDouble(s)[0]
    ensures |SplitDouble(s)| == 2 ==> s == SplitDouble(s)[0] + "::" + SplitDouble(s)[1]
  {
    if |s| >= 2 {
      if s[0] == ':' && s[1] == ':' {
        SplitGivesBack(s[2..]);
        assert s == "::" + s[2..];
      } else {
        SplitGivesBack(s[1..]);
        var r := SplitDouble(s[1..]);
        Prepended(s, r);
      }
    }
  }

  lemma Prepended(s: string, r: seq<string>)
    requires s != "" && |r| > 0
    ensures |r| == 1 && s[1..] == r[0] ==> s == [s[0]] + r[0]
    ensures |r| == 2 && s[1..] == r[0] + "::" + r[1] ==> s == ([s[0]] + r[0]) + "::" + r[1]
  {
    assert s == [s[0]] + s[1..];
    if |r| == 2 {
      assert ([s[0]] + r[0]) + "::" + r[1] == [s[0]] + (r[0] + "::" + r[1]);
    }
  }

  // ------------------------------------------------------------------ the text of a side

  predicate IsTokenChar(c: char) { IsHexDigit(c) || c == '.' }

  predicate IsToken(t: string) { t != "" && forall i :: 0 <= i < |t| ==> IsTokenChar(t[i]) }

  predicate AreTokens(ts: seq<string>) { forall i :: 0 <= i < |ts| ==> IsToken(ts[i]) }

  predicate HasDot(ts: seq<string>) { exists i :: 0 <= i < |ts| && '.' in ts[i] }

  lemma {:induction false} JoinShape(ts: seq<string>)
    requires AreTokens(ts)
    ensures var s := Join(ts, ':');
            && NoPair(s) && (ts != [] ==> s != "" && s[0] != ':' && s[|s| - 1] != ':')
            && forall i :: 0 <= i < |s| ==> IsTokenChar(s[i]) || s[i] == ':'
  {
    if |ts| > 0 { assert IsToken(ts[0]); }
    if |ts| > 1 {
      var head, rest, s := ts[0], Join(ts[1..], ':'), Join(ts, ':');
      JoinShape(ts[1..]);
      assert s == head + [':'] + rest;
      forall i | 0 <= i < |s| - 1 ensures !ColonsAt(s, i) {
        if i > |head| {
          var k := i - |head| - 1;
          assert !ColonsAt(rest, k);
          assert s[i] == rest[k] && s[i + 1] == rest[k + 1];
        } else if i == |head| {
          assert s[i + 1] == rest[0];
        } else {
          assert s[i] == head[i];
        }
      }
      assert s[|s| - 1] == rest[|rest| - 1];
    }
  }

  lemma {:induction false} JoinHasDot(ts: seq<string>)
    ensures '.' in Join(ts, ':') <==> HasDot(ts)
  {
    if |ts| > 1 {
      JoinHasDot(ts[1..]);
      assert Join(ts, ':') == ts[0] + [':'] + Join(ts[1..], ':');
      if i :| 0 <= i < |ts| && '.' in ts[i] {
        if i > 0 { assert '.' in ts[1..][i - 1]; }
      }
      if j :| 0 <= j < |ts[1..]| && '.' in ts[1..][j] { assert '.' in ts[j + 1]; }
    } else if |ts| == 1 {
      assert Join(ts, ':') == ts[0];
    }
  }

  lemma QuadIsToken(octets: seq<nat>)
    requires AreOctets(octets)
    ensures IsToken(DottedQuad(octets)) && '.' in DottedQuad(octets)
  {
    var parts := DottedParts(octets);
    forall i | 0 <= i < 4 ensures IsOctetText(parts[i]) { OctetTextOf(octets[i]); }
    var t := parts[2] + ['.'] + Join(parts[3..], '.');
    assert Join(parts[2..], '.') == t by { assert parts[2..][1..] == parts[3..]; }
    assert Join(parts[1..], '.') == parts[1] + ['.'] + t by { assert parts[1..][1..] == parts[2..]; }
    assert DottedQuad(octets) == parts[0] + ['.'] + (parts[1] + ['.'] + t);
    assert DottedQuad(octets)[|parts[0]|] == '.';
    QuadCharacters(parts[0], parts[1], parts[2], parts[3]);
  }

  lemma QuadCharacters(a: string, b: string, c: string, d: string)
    requires AllDigits(a) && AllDigits(b) && AllDigits(c) && AllDigits(d)
    ensures forall x :: x in a + ['.'] + (b + ['.'] + (c + ['.'] + d)) ==> IsTokenChar(x)
  {
  }

  lemma SideShape(side: Side)
    requires SideOk(side)
    ensures AreTokens(SideTokens(side)) && Without(SideTokens(side), ':')
    ensures '.' in SideText(side) <==> side.quad.Some?
  {
    var ts := SideTokens(side);
    if side.quad.Some? { QuadIsToken(side.quad.value); }
    forall i | 0 <= i < |ts| ensures IsToken(ts[i]) && ':' !in ts[i] && ('.' in ts[i] <==> i >= |side.hex|) {
      if i < |side.hex| { assert IsHexGroup(side.hex[i]); }
    }
    JoinHasDot(ts);
    if side.quad.Some? { assert '.' in ts[|side.hex|]; }
  }

  // ------------------------------------------------------------------ reading one side

  /** Before its last token a side has hexadecimal groups only. */
  lemma {:induction false} GroupsBeforeLast(tokens: seq<string>, n: nat)
    requires n < |tokens|
    ensures GroupsUpTo(tokens, n) == if HexGroups(tokens[..n]) then Some(tokens[..n]) else None
  {
    if n > 0 {
      GroupsBeforeLast(tokens, n - 1);
      assert tokens[..n] == tokens[..n - 1] + [tokens[n - 1]];
      assert HexGroups(tokens[..n]) <==> HexGroups(tokens[..n - 1]) && IsHexGroup(tokens[n - 1]);
    }
  }

  lemma TokensRead(tokens: seq<string>) returns (side: Side)
    requires tokens != [] && GroupsUpTo(tokens, |tokens|).Some?
    ensures SideOk(side) && tokens == SideTokens(side) && GroupsUpTo(tokens, |tokens|).value == SideGroups(side)
  {
    var m := |tokens| - 1;
    var last := tokens[m];
    GroupsBeforeLast(tokens, m);
    assert tokens == tokens[..m] + [last];
    if '.' in last {
      var octets := Ipv4Octets(last).value;
      Ipv4Exactly(last, octets);
      side := Side(tokens[..m], Some(octets));
    } else {
      side := Side(tokens, None);
    }
  }

  lemma SideTokensRead(side: Side)
    requires SideOk(side) && SideTokens(side) != []
    ensures GroupsUpTo(SideTokens(side), |SideTokens(side)|) == Some(SideGroups(side))
  {
    var tokens := SideTokens(side);
    var m := |tokens| - 1;
    GroupsBeforeLast(tokens, m);
    if side.quad.Some? {
      assert tokens[..m] == side.hex;
      QuadIsToken(side.quad.value);
      Ipv4Exactly(tokens[m], side.quad.value);
    } else {
      assert tokens == side.hex && HexGroups(side.hex[..m]) && side.hex == side.hex[..m] + [side.hex[m]];
      assert IsHexGroup(side.hex[m]);
    }
  }

  /** A part is read exactly if it is the text of a side, to its groups. */
  lemma PartRead(part: string) returns (side: Side)
    requires PartGroups(part).Some?
    ensures SideOk(side) && part == SideText(side) && PartGroups(part).value == SideGroups(side)
  {
    if part == "" {
      side := Side([], None);
    } else {
      side := TokensRead(Split(part, ':'));
      JoinOfSplit(part, ':');
    }
  }

  lemma SideIsRead(side: Side)
    requires SideOk(side)
    ensures PartGroups(SideText(side)) == Some(SideGroups(side))
  {
    if SideTokens(side) != [] {
      SideShape(side);
      JoinShape(SideTokens(side));
      SplitOfJoin(SideTokens(side), ':');
      SideTokensRead(side);
    }
  }

  // ------------------------------------------------------------------ the exact grammar

  lemma FormCharacters(s: string, a: string, b: string)
    requires s == a || s == a + "::" + b
    requires forall i :: 0 <= i < |a| ==> IsTokenChar(a[i]) || a[i] == ':'
    requires forall i :: 0 <= i < |b| ==> IsTokenChar(b[i]) || b[i] == ':'
    ensures '%' !in s && forall i :: 0 <= i < |s| ==> !IsSpace(s[i])
  {
    forall i | 0 <= i < |s| ensures IsTokenChar(s[i]) || s[i] == ':' {
      if i < |a| { assert s[i] == a[i]; } else if i >= |a| + 2 { assert s[i] == b[i - |a| - 2]; }
    }
  }

  /** Text that is read is of one of the forms. */
  lemma ReadIsForm(s: string)
    requires Explicit(SplitDouble(s)).Some?
    ensures var groups := Explicit(SplitDouble(s)).value;
            || (exists side :: IsForm1(s, side) && groups == SideGroups(side) && ('.' in s <==> side.quad.Some?))
            || (exists left, right ::
                  IsForm2(s, left, right) && groups == Form2Groups(SideGroups(left), SideGroups(right))
                  && ('.' in s <==> left.quad.Some? || right.quad.Some?))
  {
    var parts := SplitDouble(s);
    SplitGivesBack(s);
    if |parts| == 1 {
      var side := PartRead(parts[0]);
      SideShape(side);
      assert IsForm1(s, side);
    } else {
      var left := PartRead(parts[0]);
      var right := PartRead(parts[1]);
      SideShape(left);
      SideShape(right);
      assert IsForm2(s, left, right);
    }
  }

  lemma Form1IsRead(s: string, side: Side)
    requires IsForm1(s, side)
    ensures Explicit(SplitDouble(s)) == Some(SideGroups(side)) && ('.' in s <==> side.quad.Some?)
    ensures '%' !in s && forall i :: 0 <= i < |s| ==> !IsSpace(s[i])
  {
    SideShape(side);
    JoinShape(SideTokens(side));
    SplitNothing(s);
    SideIsRead(side);
    FormCharacters(s, s, "");
  }

  lemma Form2IsRead(s: string, left: Side, right: Side)
    requires IsForm2(s, left, right)
    ensures Explicit(SplitDouble(s)) == Some(Form2Groups(SideGroups(left), SideGroups(right)))
    ensures '.' in s <==> left.quad.Some? || right.quad.Some?
    ensures '%' !in s && forall i :: 0 <= i < |s| ==> !IsSpace(s[i])
  {
    var a, b := SideText(left), SideText(right);
    SideShape(left);
    SideShape(right);
    JoinShape(SideTokens(left));
    JoinShape(SideTokens(right));
    SplitAtPair(a, b);
    SplitNothing(b);
    SideIsRead(left);
    SideIsRead(right);
    ExplicitOfTwo(a, b, SideGroups(left), SideGroups(right));
    FormCharacters(s, a, b);
  }

  lemma ExplicitOfTwo(a: string, b: string, left: seq<string>, right: seq<string>)
    requires PartGroups(a) == Some(left) && PartGroups(b) == Some(right) && |left| + |right| <= 7
    ensures Explicit([a] + [b]) == Some(Form2Groups(left, right))
  {
  }

  /** Expansion accepts exactly these forms, in either case of letters, and returns the eight
      groups; a dotted quad, which may also end the left side of a `::`, must stand in a mapped
      or compatible address. */
  lemma ExpandsExactly(s: string, groups: seq<string>)
    ensures ExpandIpv6(s) == Some(groups) <==> Denotes(ToLower(s), groups)
  {
    var lower := ToLower(s);
    if ExpandIpv6(s) == Some(groups) { ReadIsForm(lower); }
    if Denotes(lower, groups) {
      if side :| IsForm1(lower, side) && groups == Padded(SideGroups(side)) && EmbeddingOk(side.quad.Some?, groups) {
        Form1IsRead(lower, side);
      } else {
        var left, right :| IsForm2(lower, left, right)
          && groups == Padded(Form2Groups(SideGroups(left), SideGroups(right)))
          && EmbeddingOk(left.quad.Some? || right.quad.Some?, groups);
        Form2IsRead(lower, left, right);
      }
    }
  }

  /** Capital letters may be written small. */
  predicate SameButCase(s: string, t: string) {
    |s| == |t| && forall i :: 0 <= i < |s| ==>
      s[i] == t[i] || ('A' <= s[i] <= 'Z' && t[i] as int == s[i] as int + 32)
  }

  lemma CaseDoesNotMatter(s: string, t: string)
    requires SameButCase(s, t)
    ensures ExpandIpv6(s) == ExpandIpv6(t)
  {
    assert ToLower(s) == ToLower(t);
  }

  // ------------------------------------------------------------------ a quad that is not the final group

  /** `0:0:0:0:0:255.255.a.b::`. */
  function QuadLeftSide(a: nat, b: nat): Side { Side(Zeros(5), Some([255, 255, a, b])) }

  function QuadLeftText(a: nat, b: nat): string { SideText(QuadLeftSide(a, b)) + "::" }

  lemma HexOfAllOnes()
    ensures HexText(65535) == "ffff"
  {
    assert HexText(15) == "f";
    assert HexText(255) == HexText(15) + ['f'];
    assert HexText(4095) == HexText(255) + ['f'];
    assert HexText(65535) == HexText(4095) + ['f'];
  }

  lemma PadOfZero()
    ensures PadStart("0") == "0000"
  {
    assert "0" + "0" == "00" && "0" + "00" == "000" && "0" + "000" == "0000";
    assert PadStart("000") == PadStart("0000");
    assert PadStart("00") == PadStart("000");
  }

  /** Its eight groups are those of a mapped address whose last group is the `::`. */
  lemma QuadLeftGroups(a: nat, b: nat)
    requires a <= 255 && b <= 255
    ensures SideOk(QuadLeftSide(a, b)) && |SideGroups(QuadLeftSide(a, b))| == 7
    ensures var groups := Padded(Form2Groups(SideGroups(QuadLeftSide(a, b)), []));
            IsIpv4Mapped(groups) && groups[6] == PadStart(HexText(a * 256 + b)) && groups[7] == "0000"
  {
    HexOfAllOnes();
    PadOfZero();
    var octets: seq<nat> := [255, 255, a, b];
    assert octets[0] * 256 + octets[1] == 65535 && octets[2] * 256 + octets[3] == a * 256 + b;
    var groups := Form2Groups(SideGroups(QuadLeftSide(a, b)), []);
    assert groups == Zeros(5) + ["ffff", HexText(a * 256 + b)] + Zeros(1);
  }

  lemma LowerIsItself(s: string)
    requires forall i :: 0 <= i < |s| ==> IsTokenChar(s[i]) || s[i] == ':'
    ensures ToLower(s) == s
  {
  }

  lemma QuadLeftCharacters(a: nat, b: nat)
    requires a <= 255 && b <= 255
    ensures var s := QuadLeftText(a, b);
            && (forall i :: 0 <= i < |s| ==> IsTokenChar(s[i]) || s[i] == ':') && |s| > 2
            && s == SideText(QuadLeftSide(a, b)) + "::" + SideText(Side([], None))
  {
    QuadLeftGroups(a, b);
    SideShape(QuadLeftSide(a, b));
    JoinShape(SideTokens(QuadLeftSide(a, b)));
    assert SideText(Side([], None)) == "";
  }

  /** A dotted quad that is not the final group is accepted. */
  lemma QuadMayEndLeftSide(a: nat, b: nat)
    requires a <= 255 && b <= 255
    ensures ExpandIpv6(QuadLeftText(a, b)) == Some(Padded(Form2Groups(SideGroups(QuadLeftSide(a, b)), [])))
  {
    var s := QuadLeftText(a, b);
    var groups := Padded(Form2Groups(SideGroups(QuadLeftSide(a, b)), []));
    QuadLeftGroups(a, b);
    QuadLeftCharacters(a, b);
    LowerIsItself(s);
    assert IsForm2(s, QuadLeftSide(a, b), Side([], None));
    ExpandsExactly(s, groups);
  }
}
