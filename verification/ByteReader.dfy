/** The bounded byte reader of the closure scanner and its LEB128 integers, against the
    encodings of section 5.2.2 of the WebAssembly Core Specification. */
module ByteReader {
  import opened Basics

  type byte = b: int | 0 <= b < 256

  const WASM_BINARY_TRUNCATED := "WASM_BINARY_TRUNCATED"
  const WASM_BINARY_LEB_INVALID := "WASM_BINARY_LEB_INVALID"

  // ------------------------------------------------------------------ the grammar

  /** `uN`: a byte below 128 that fits the remaining bits, or a byte of at least 128 and
      then the encoding of a number of seven bits less. */
  predicate EncodesUnsigned(n: nat, s: seq<byte>, v: int)
    decreases s
  {
    && |s| > 0
    && if |s| == 1 then s[0] < 128 && s[0] < Pow2(n) && v == s[0]
       else s[0] >= 128 && n > 7 && (v - (s[0] - 128)) % 128 == 0
            && EncodesUnsigned(n - 7, s[1..], (v - (s[0] - 128)) / 128)
  }

  /** `sN`: as `uN`, but a last byte of at least 64 stands for a negative number. */
  predicate EncodesSigned(n: nat, s: seq<byte>, v: int)
    decreases s
  {
    && |s| > 0 && n > 0
    && if |s| == 1 then
         || (s[0] < 64 && s[0] < Pow2(n - 1) && v == s[0])
         || (64 <= s[0] < 128 && s[0] + Pow2(n - 1) >= 128 && v + 128 == s[0])
       else s[0] >= 128 && n > 7 && (v - (s[0] - 128)) % 128 == 0
            && EncodesSigned(n - 7, s[1..], (v - (s[0] - 128)) / 128)
  }

  // ------------------------------------------------------------------ what a read sees

  /** The prefix up to and including the first byte below 128, of at most `max` bytes. */
  predicate IsLeb(s: seq<byte>) {
    |s| > 0 && s[|s| - 1] < 128 && forall i :: 0 <= i < |s| - 1 ==> s[i] >= 128
  }

  /** The sum of the seven-bit groups. */
  function Groups(s: seq<byte>): nat {
    if s == [] then 0 else s[0] % 128 + 128 * Groups(s[1..])
  }

  /** Sign extension from bit six of the last byte. */
  function SignedGroups(s: seq<byte>): int
    requires |s| > 0
  {
    if |s| == 1 then (if s[0] % 128 >= 64 then s[0] % 128 - 128 else s[0] % 128)
    else s[0] % 128 + 128 * SignedGroups(s[1..])
  }

  lemma {:induction false} GroupsAppend(s: seq<byte>, b: byte)
    ensures Groups(s + [b]) == Groups(s) + (b % 128) * Pow2(7 * |s|)
  {
    if s == [] {
      assert [b][1..] == [];
      assert Groups([b]) == b % 128 + 128 * Groups([]);
    } else {
      assert (s + [b])[1..] == s[1..] + [b];
      GroupsAppend(s[1..], b);
      Pow2Seven(7 * |s| - 7);
      var p := Pow2(7 * |s| - 7);
      assert 7 * |s[1..]| == 7 * |s| - 7;
      assert 128 * ((b % 128) * p) == (b % 128) * (128 * p);
    }
  }

  lemma Pow2Seven(n: nat)
    ensures Pow2(n + 7) == 128 * Pow2(n)
  {
    assert Pow2(n + 7) == 2 * Pow2(n + 6);
    assert Pow2(n + 5) == 2 * Pow2(n + 4);
    assert Pow2(n + 3) == 2 * Pow2(n + 2);
    assert Pow2(n + 1) == 2 * Pow2(n);
  }

  /** Signed is unsigned less the weight of the sign. */
  lemma {:induction false} SignedIsGroups(s: seq<byte>)
    requires |s| > 0
    ensures SignedGroups(s) == if s[|s| - 1] % 128 >= 64 then Groups(s) - Pow2(7 * |s|) else Groups(s)
  {
    if |s| == 1 {
      assert s[1..] == [];
      assert Groups(s) == s[0] % 128 + 128 * Groups(s[1..]);
      Pow2Seven(0);
    } else {
      SignedIsGroups(s[1..]);
      assert 7 * |s[1..]| == 7 * |s| - 7;
      Pow2Seven(7 * |s| - 7);
    }
  }

  // ------------------------------------------------------------------ reads meet the grammar

  /** An accepted unsigned reading is exactly the grammar's: the groups, within range. */
  lemma {:induction false} UnsignedIff(n: nat, s: seq<byte>, v: int)
    requires 0 < n <= 32
    ensures EncodesUnsigned(n, s, v) <==> IsLeb(s) && v == Groups(s) && v < Pow2(n) && 7 * (|s| - 1) < n
    decreases s
  {
    if |s| == 1 {
      assert s[1..] == [];
      assert Groups(s) == s[0] % 128 + 128 * Groups(s[1..]);
    } else if |s| > 1 {
      LebTail(s);
      if s[0] >= 128 && n > 7 {
        var w := (v - (s[0] - 128)) / 128;
        UnsignedIff(n - 7, s[1..], w);
        Pow2Seven(n - 7);
        assert Groups(s) == s[0] - 128 + 128 * Groups(s[1..]);
      }
    }
  }

  lemma LebTail(s: seq<byte>)
    requires |s| > 1
    ensures IsLeb(s) <==> s[0] >= 128 && IsLeb(s[1..])
  {
    assert forall i :: 0 < i < |s| ==> s[1..][i - 1] == s[i];
    assert forall i :: 0 <= i < |s| - 1 ==> s[1..][i] == s[i + 1];
  }

  lemma {:induction false} SignedIff(n: nat, s: seq<byte>, v: int)
    requires 0 < n <= 33
    ensures EncodesSigned(n, s, v) <==>
            IsLeb(s) && v == SignedGroups(s) && 0 <= v + Pow2(n - 1) && v < Pow2(n - 1) && 7 * (|s| - 1) < n
    decreases s
  {
    if |s| == 1 {
      Pow2Small(n);
    } else if |s| > 1 {
      LebTail(s);
      if s[0] >= 128 && n > 7 {
        SignedIff(n - 7, s[1..], (v - (s[0] - 128)) / 128);
        SignedStep(n, s, v);
      }
    }
  }

  lemma SignedStep(n: nat, s: seq<byte>, v: int)
    requires 7 < n <= 33 && |s| > 1 && s[0] >= 128
    ensures var w := (v - (s[0] - 128)) / 128;
            v == SignedGroups(s) && 0 <= v + Pow2(n - 1) && v < Pow2(n - 1) <==>
              && (v - (s[0] - 128)) % 128 == 0
              && w == SignedGroups(s[1..]) && 0 <= w + Pow2(n - 8) && w < Pow2(n - 8)
  {
    Pow2Seven(n - 8);
    assert SignedGroups(s) == s[0] - 128 + 128 * SignedGroups(s[1..]);
  }

  lemma Pow2Small(n: nat)
    requires n > 0
    ensures n <= 7 ==> Pow2(n - 1) <= 64
    ensures n > 7 ==> Pow2(n - 1) >= 128
    decreases n
  {
    if n <= 8 {
      Pow2Seven(0);
      assert Pow2(6) == 2 * Pow2(5) && Pow2(4) == 2 * Pow2(3) && Pow2(2) == 2 * Pow2(1);
    } else {
      Pow2Small(n - 1);
    }
  }

  /** Each byte string encodes one number at most. */
  lemma EncodingIsUnambiguous(s: seq<byte>, v: int, w: int)
    ensures EncodesUnsigned(32, s, v) && EncodesUnsigned(32, s, w) ==> v == w
    ensures EncodesSigned(33, s, v) && EncodesSigned(33, s, w) ==> v == w
  {
    UnsignedIff(32, s, v);
    UnsignedIff(32, s, w);
    SignedIff(33, s, v);
    SignedIff(33, s, w);
  }

  // ------------------------------------------------------------------ the shortest encoder

  function EncodeUnsigned(v: nat): seq<byte> {
    if v < 128 then [v] else [v % 128 + 128] + EncodeUnsigned(v / 128)
  }

  function EncodeSigned(v: int): seq<byte>
    decreases if v < 0 then -v else v
  {
    if 0 <= v < 64 then [v]
    else if -64 <= v < 0 then [v + 128]
    else [v % 128 + 128] + EncodeSigned(v / 128)
  }

  lemma RestFits(n: nat, v: nat)
    requires 0 < n && 128 <= v < Pow2(n)
    ensures n > 7 && v / 128 < Pow2(n - 7)
  {
    Pow2Small(n + 1);
    Pow2Seven(n - 7);
  }

  /** The shortest encoder's output is an encoding of its number. */
  lemma {:induction false} UnsignedEncoderIsRight(n: nat, v: nat)
    requires 0 < n && v < Pow2(n)
    ensures EncodesUnsigned(n, EncodeUnsigned(v), v)
    decreases v
  {
    if v >= 128 {
      RestFits(n, v);
      UnsignedEncoderIsRight(n - 7, v / 128);
      var s := EncodeUnsigned(v);
      assert s[1..] == EncodeUnsigned(v / 128);
      assert (s[0] - 128) + 128 * (v / 128) == v;
    }
  }

  lemma {:induction false} SignedEncoderIsRight(n: nat, v: int)
    requires 0 < n && 0 <= v + Pow2(n - 1) && v < Pow2(n - 1)
    ensures EncodesSigned(n, EncodeSigned(v), v)
    decreases if v < 0 then -v else v
  {
    if !(-64 <= v < 64) {
      Pow2Small(n);
      assert n > 7;
      Pow2Seven(n - 8);
      SignedEncoderIsRight(n - 7, v / 128);
      var s := EncodeSigned(v);
      assert s[1..] == EncodeSigned(v / 128);
    }
  }

  // ------------------------------------------------------------------ the reader

  lemma LebIsUnique(bytes: seq<byte>, start: nat, a: nat, b: nat)
    requires start <= a <= |bytes| && start <= b <= |bytes|
    requires IsLeb(bytes[start..a]) && IsLeb(bytes[start..b])
    ensures a == b
  {
    LebLast(bytes, start, a);
    LebLast(bytes, start, b);
  }

  lemma LebLast(bytes: seq<byte>, start: nat, e: nat)
    requires start <= e <= |bytes| && IsLeb(bytes[start..e])
    ensures start < e && bytes[e - 1] < 128 && forall j :: start <= j < e - 1 ==> bytes[j] >= 128
  {
    var s := bytes[start..e];
    assert s[|s| - 1] == bytes[e - 1];
    forall j | start <= j < e - 1 ensures bytes[j] >= 128 { assert s[j - start] == bytes[j]; }
  }

  /** No encoding ends within a run of bytes of at least 128. */
  lemma LebIsAfterRun(bytes: seq<byte>, start: nat, run: nat, e: nat)
    requires start <= run <= |bytes| && start <= e <= |bytes| && forall j :: start <= j < run ==> bytes[j] >= 128
    requires IsLeb(bytes[start..e])
    ensures e > run
  {
    LebLast(bytes, start, e);
  }

  lemma RunThenLast(bytes: seq<byte>, start: nat, e: nat)
    requires start < e <= |bytes| && bytes[e - 1] < 128 && forall j :: start <= j < e - 1 ==> bytes[j] >= 128
    ensures IsLeb(bytes[start..e])
  {
  }

  lemma Constants()
    ensures Pow2(7) == 128 && Pow2(14) == 16384 && Pow2(21) == 2097152 && Pow2(28) == 268435456
    ensures Pow2(31) == 0x8000_0000 && Pow2(32) == 0x1_0000_0000 && Pow2(35) == 0x8_0000_0000
  {
    Pow2Seven(0);
    Pow2Seven(7);
    Pow2Seven(14);
    Pow2Seven(21);
    Pow2Seven(28);
    assert Pow2(29) == 2 * Pow2(28) && Pow2(31) == 2 * Pow2(30);
    assert Pow2(32) == 2 * Pow2(31);
  }

  class ByteReader {
    const bytes: seq<byte>
    const end: nat
    var pos: nat

    /** What was read from `start` to `after` is an encoding of the result, and any encoding
        that stands at `start` ends at `after` and is of that result. */
    ghost predicate UnsignedReading(start: nat, after: nat, r: Result<nat>) {
      && start <= after <= end <= |bytes|
      && (r.Ok? ==> EncodesUnsigned(32, bytes[start..after], r.value))
      && forall e: nat, v :: start <= e <= end && EncodesUnsigned(32, bytes[start..e], v) ==> r == Ok(v) && after == e
    }

    /** What was read from `start` to `after` is an encoding of the result, and any encoding
        that stands at `start` ends at `after` and is of that result. */
    ghost predicate SignedReading(start: nat, after: nat, r: Result<int>) {
      && start <= after <= end <= |bytes|
      && (r.Ok? ==> EncodesSigned(33, bytes[start..after], r.value))
      && forall e: nat, v :: start <= e <= end && EncodesSigned(33, bytes[start..e], v) ==> r == Ok(v) && after == e
    }

    predicate Valid()
      reads this
    {
      pos <= end <= |bytes|
    }

    constructor (bytes: seq<byte>, end: nat, start: nat)
      requires start <= end <= |bytes|
      ensures Valid() && this.bytes == bytes && this.end == end && pos == start
    {
      this.bytes, this.end, pos := bytes, end, start;
    }

    method Byte() returns (r: Result<byte>)
      requires Valid()
      modifies this
      ensures Valid()
      ensures r == if old(pos) < end then Ok(bytes[old(pos)]) else Err(WASM_BINARY_TRUNCATED)
      ensures pos == if r.Ok? then old(pos) + 1 else old(pos)
    {
      if pos >= end {
        return Err(WASM_BINARY_TRUNCATED);
      }
      r := Ok(bytes[pos]);
      pos := pos + 1;
    }

    method Take(count: int) returns (r: Result<seq<byte>>)
      requires Valid()
      modifies this
      ensures Valid()
      ensures r.Ok? <==> 0 <= count <= end - old(pos)
      ensures r.Ok? ==> r.value == bytes[old(pos)..old(pos) + count] && pos == old(pos) + count
      ensures r.Err? ==> r.code == WASM_BINARY_TRUNCATED && pos == old(pos)
    {
      if count < 0 || pos + count > end {
        return Err(WASM_BINARY_TRUNCATED);
      }
      r := Ok(bytes[pos..pos + count]);
      pos := pos + count;
    }

    /** One byte more: its seven bits at their weight, and whether it was the last. */
    method ReadGroup(ghost start: nat, result: int, shift: nat) returns (last: Result<bool>, total: int)
      requires Valid() && start <= pos && shift == 7 * (pos - start) && result == Groups(bytes[start..pos])
      modifies this
      ensures Valid()
      ensures last == if old(pos) == end then Err(WASM_BINARY_TRUNCATED) else Ok(bytes[old(pos)] < 128)
      ensures last.Err? ==> pos == old(pos)
      ensures last.Ok? ==> pos == old(pos) + 1 && total == Groups(bytes[start..pos])
    {
      total := result;
      ghost var run := bytes[start..pos];
      var b := Byte();
      if b.Err? {
        return Err(b.code), total;
      }
      assert bytes[start..pos] == run + [b.value];
      GroupsAppend(run, b.value);
      total := result + (b.value % 128) * Pow2(shift);
      last := Ok(b.value < 128);
    }

    /** The range check, once the last byte is read. */
    method FinishUnsigned(ghost start: nat, result: int) returns (r: Result<nat>)
      requires Valid() && start < pos <= start + 5 && IsLeb(bytes[start..pos]) && result == Groups(bytes[start..pos])
      ensures UnsignedReading(start, pos, r) && (r.Err? ==> r.code == WASM_BINARY_LEB_INVALID)
    {
      OnlyUnsignedHere(start, pos);
      Constants();
      if result > 0xffff_ffff {
        return Err(WASM_BINARY_LEB_INVALID);
      }
      r := Ok(result);
    }

    /** Reads exactly the 32-bit unsigned encodings: the bytes read are an encoding of the
        result, and whatever encoding stands here is read whole. */
    method U32() returns (r: Result<nat>)
      requires Valid()
      modifies this
      ensures Valid() && old(pos) <= pos
      ensures UnsignedReading(old(pos), pos, r)
      ensures r.Err? ==> r.code == if pos == end && pos < old(pos) + 5 && (pos > old(pos) ==> bytes[pos - 1] >= 128)
                                   then WASM_BINARY_TRUNCATED else WASM_BINARY_LEB_INVALID
    {
      ghost var start := pos;
      var result, shift := 0, 0;
      var i := 0;
      while i < 5
        invariant 0 <= i <= 5 && Valid() && pos == start + i && shift == 7 * i
        invariant forall j :: start <= j < start + i ==> bytes[j] >= 128
        invariant result == Groups(bytes[start..pos])
      {
        var last;
        last, result := ReadGroup(start, result, shift);
        if last.Err? {
          NoUnsignedHere(start, i);
          return Err(last.code);
        }
        shift := shift + 7;
        if last.value {
          RunThenLast(bytes, start, pos);
          r := FinishUnsigned(start, result);
          return;
        }
        i := i + 1;
      }
      NoUnsignedHere(start, 5);
      r := Err(WASM_BINARY_LEB_INVALID);
    }

    lemma NoUnsignedHere(start: nat, i: nat)
      requires start + i <= end <= |bytes| && forall j :: start <= j < start + i ==> bytes[j] >= 128
      requires i == 5 || start + i == end
      ensures forall code :: UnsignedReading(start, start + i, Err(code))
    {
      forall e: nat, v | start <= e <= end ensures !EncodesUnsigned(32, bytes[start..e], v) {
        UnsignedIff(32, bytes[start..e], v);
        if IsLeb(bytes[start..e]) { LebIsAfterRun(bytes, start, start + i, e); }
      }
    }

    lemma OnlyUnsignedHere(start: nat, i: nat)
      requires start < i <= end <= |bytes| && i <= start + 5 && IsLeb(bytes[start..i])
      ensures if Groups(bytes[start..i]) < Pow2(32)
              then UnsignedReading(start, i, Ok(Groups(bytes[start..i])))
              else forall code :: UnsignedReading(start, i, Err(code))
    {
      UnsignedIff(32, bytes[start..i], Groups(bytes[start..i]));
      forall e: nat, v | start <= e <= end && EncodesUnsigned(32, bytes[start..e], v)
        ensures e == i && v == Groups(bytes[start..i]) && Groups(bytes[start..i]) < Pow2(32)
      {
        UnsignedIff(32, bytes[start..e], v);
        LebIsUnique(bytes, start, i, e);
      }
    }

    /** Sign extension and the range check, once the last byte is read. */
    method FinishSigned(ghost start: nat, result: int, shift: nat) returns (r: Result<int>)
      requires Valid() && start < pos <= start + 5 && IsLeb(bytes[start..pos])
      requires result == Groups(bytes[start..pos]) && shift == 7 * (pos - start)
      ensures SignedReading(start, pos, r) && (r.Err? ==> r.code == WASM_BINARY_LEB_INVALID)
    {
      SignedIsGroups(bytes[start..pos]);
      OnlySignedHere(start, pos);
      Constants();
      assert bytes[start..pos][pos - start - 1] == bytes[pos - 1];
      var value := if bytes[pos - 1] % 128 >= 64 then result - Pow2(shift) else result;
      if value > 0x1_0000_0000 - 1 || value < -0x1_0000_0000 {
        return Err(WASM_BINARY_LEB_INVALID);
      }
      r := Ok(value);
    }

    /** Reads exactly the 33-bit signed encodings. */
    method S33() returns (r: Result<int>)
      requires Valid()
      modifies this
      ensures Valid() && old(pos) <= pos
      ensures SignedReading(old(pos), pos, r)
      ensures r.Err? ==> r.code == if pos == end && pos < old(pos) + 5 && (pos > old(pos) ==> bytes[pos - 1] >= 128)
                                   then WASM_BINARY_TRUNCATED else WASM_BINARY_LEB_INVALID
    {
      ghost var start := pos;
      var result, shift := 0, 0;
      var i := 0;
      while i < 5
        invariant 0 <= i <= 5 && Valid() && pos == start + i && shift == 7 * i
        invariant forall j :: start <= j < start + i ==> bytes[j] >= 128
        invariant result == Groups(bytes[start..pos])
      {
        var last;
        last, result := ReadGroup(start, result, shift);
        if last.Err? {
          NoSignedHere(start, i);
          return Err(last.code);
        }
        shift := shift + 7;
        if last.value {
          RunThenLast(bytes, start, pos);
          r := FinishSigned(start, result, shift);
          return;
        }
        i := i + 1;
      }
      NoSignedHere(start, 5);
      r := Err(WASM_BINARY_LEB_INVALID);
    }

    lemma NoSignedHere(start: nat, i: nat)
      requires start + i <= end <= |bytes| && forall j :: start <= j < start + i ==> bytes[j] >= 128
      requires i == 5 || start + i == end
      ensures forall code :: SignedReading(start, start + i, Err(code))
    {
      forall e: nat, v | start <= e <= end ensures !EncodesSigned(33, bytes[start..e], v) {
        SignedIff(33, bytes[start..e], v);
        if IsLeb(bytes[start..e]) { LebIsAfterRun(bytes, start, start + i, e); }
      }
    }

    lemma OnlySignedHere(start: nat, i: nat)
      requires start < i <= end <= |bytes| && i <= start + 5 && IsLeb(bytes[start..i])
      ensures if 0 <= SignedGroups(bytes[start..i]) + Pow2(32) && SignedGroups(bytes[start..i]) < Pow2(32)
              then SignedReading(start, i, Ok(SignedGroups(bytes[start..i])))
              else forall code :: SignedReading(start, i, Err(code))
    {
      SignedIff(33, bytes[start..i], SignedGroups(bytes[start..i]));
      forall e: nat, v | start <= e <= end && EncodesSigned(33, bytes[start..e], v)
        ensures e == i && v == SignedGroups(bytes[start..i]) && 0 <= SignedGroups(bytes[start..i]) + Pow2(32)
                && SignedGroups(bytes[start..i]) < Pow2(32)
      {
        SignedIff(33, bytes[start..e], v);
        LebIsUnique(bytes, start, i, e);
      }
    }

    /** Where the shortest encoding of a 32-bit number stands, reading returns that number and
        stops right behind it; likewise for 33-bit signed numbers. */
    lemma ReadingInvertsEncoding(start: nat, after: nat, r: Result<nat>, v: nat)
      requires UnsignedReading(start, after, r) && v < 0x1_0000_0000
      requires start + |EncodeUnsigned(v)| <= end && bytes[start..start + |EncodeUnsigned(v)|] == EncodeUnsigned(v)
      ensures r == Ok(v) && after == start + |EncodeUnsigned(v)|
    {
      Constants();
      UnsignedEncoderIsRight(32, v);
    }

    lemma SignedReadingInvertsEncoding(start: nat, after: nat, r: Result<int>, v: int)
      requires SignedReading(start, after, r) && -0x1_0000_0000 <= v < 0x1_0000_0000
      requires start + |EncodeSigned(v)| <= end && bytes[start..start + |EncodeSigned(v)|] == EncodeSigned(v)
      ensures r == Ok(v) && after == start + |EncodeSigned(v)|
    {
      Constants();
      SignedEncoderIsRight(33, v);
    }
  }
}
