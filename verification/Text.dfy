/** Splitting text at a separator and joining it again. */
module Text {

  /** `s.split(c)`: always at least one part. */
  function Split(s: string, c: char): (r: seq<string>)
    ensures |r| > 0
  {
    if s == [] then [""]
    else if s[0] == c then [""] + Split(s[1..], c)
    else
      var r := Split(s[1..], c);
      [[s[0]] + r[0]] + r[1..]
  }

  /** `parts.join(c)`. */
  function Join(parts: seq<string>, c: char): string {
    if |parts| == 0 then ""
    else if |parts| == 1 then parts[0]
    else parts[0] + [c] + Join(parts[1..], c)
  }

  predicate Without(parts: seq<string>, c: char) {
    forall i :: 0 <= i < |parts| ==> c !in parts[i]
  }

  lemma {:induction false} SplitIsWithout(s: string, c: char)
    ensures Without(Split(s, c), c)
  {
    if s != [] { SplitIsWithout(s[1..], c); }
  }

  lemma {:induction false} JoinOfSplit(s: string, c: char)
    ensures Join(Split(s, c), c) == s
  {
    if s != [] {
      JoinOfSplit(s[1..], c);
      var r := Split(s[1..], c);
      assert s == [s[0]] + s[1..];
      if s[0] == c {
        assert ([""] + r)[1..] == r;
      } else if |r| == 1 {
        assert Split(s, c) == [[s[0]] + r[0]];
      } else {
        assert Split(s, c)[1..] == r[1..];
        assert [s[0]] + r[0] + [c] + Join(r[1..], c) == [s[0]] + (r[0] + [c] + Join(r[1..], c));
      }
    }
  }

  lemma {:induction false} SplitOfPart(p: string, c: char)
    requires c !in p
    ensures Split(p, c) == [p]
  {
    if p != [] {
      assert c !in p[1..];
      SplitOfPart(p[1..], c);
      assert p == [p[0]] + p[1..];
    }
  }

  lemma {:induction false} SplitAfterPart(p: string, rest: string, c: char)
    requires c !in p
    ensures Split(p + [c] + rest, c) == [p] + Split(rest, c)
  {
    if p == [] {
      assert ([] + [c] + rest)[1..] == rest;
      assert [] + [c] + rest == [c] + rest;
    } else {
      assert c !in p[1..];
      SplitAfterPart(p[1..], rest, c);
      assert (p + [c] + rest)[1..] == p[1..] + [c] + rest;
      assert p == [p[0]] + p[1..];
      assert Split(p + [c] + rest, c)[1..] == Split(rest, c);
    }
  }

  lemma {:induction false} SplitOfJoin(parts: seq<string>, c: char)
    requires |parts| > 0 && Without(parts, c)
    ensures Split(Join(parts, c), c) == parts
  {
    if |parts| == 1 {
      SplitOfPart(parts[0], c);
    } else {
      SplitOfJoin(parts[1..], c);
      SplitAfterPart(parts[0], Join(parts[1..], c), c);
      assert parts == [parts[0]] + parts[1..];
    }
  }
}
