// The pattern `/bytes=\s*(\d*)-(\d*)/i` that the REST handler and the
// endpoints handler match the Range header against, and the bounds PHP
// then computes from its two groups with empty() and intval().

module RangePattern {
  import opened Wrappers
  import opened Text
  import opened Php

  /** The two captured digit runs. */
  datatype Groups = Groups(first: string, last: string)

  /** "bytes=" in any letter case at position p. */
  predicate BytesTokenAt(s: string, p: nat) { p + 6 <= |s| && Lower(s[p..p + 6]) == "bytes=" }

  /** The end of the run of white space starting at i. */
  function SpaceEnd(s: string, i: nat): (j: nat)
    requires i <= |s|
    ensures i <= j <= |s| && Blank(s[i..j]) && (j == |s| || !IsSpace(s[j]))
    decreases |s| - i
  {
    if i < |s| && IsSpace(s[i]) then SpaceEnd(s, i + 1) else i
  }

  /** The end of the run of digits starting at i. */
  function DigitEnd(s: string, i: nat): (j: nat)
    requires i <= |s|
    ensures i <= j <= |s| && AllDigits(s[i..j]) && (j == |s| || !IsDigit(s[j]))
    decreases |s| - i
  {
    if i < |s| && IsDigit(s[i]) then DigitEnd(s, i + 1) else i
  }

  /**
   * The match anchored at p. The classes `\s`, `\d` and `-` are disjoint, so
   * the greedy runs are the only way the pattern can match there.
   */
  function MatchAt(s: string, p: nat): (r: Option<Groups>)
    ensures r.Some? ==> BytesTokenAt(s, p) && AllDigits(r.value.first) && AllDigits(r.value.last)
    ensures r.Some? ==> exists i: nat, j: nat | p + 6 <= i <= j < |s| ::
      Blank(s[p + 6..i]) && s[i..j] == r.value.first && s[j] == '-' &&
      StartsWith(s[j + 1..], r.value.last)
  {
    if !BytesTokenAt(s, p) then None
    else
      var i := SpaceEnd(s, p + 6);
      var j := DigitEnd(s, i);
      if j < |s| && s[j] == '-' then
        var k := DigitEnd(s, j + 1);
        assert s[j + 1..][..k - (j + 1)] == s[j + 1..k];
        Some(Groups(s[i..j], s[j + 1..k]))
      else None
  }

  /** The leftmost position at or after p where the pattern matches. */
  function FirstMatchFrom(s: string, p: nat): (r: Option<nat>)
    ensures r.Some? ==> p <= r.value && MatchAt(s, r.value).Some?
    ensures r.Some? ==> forall q: nat :: p <= q < r.value ==> MatchAt(s, q).None?
    ensures r.None? ==> forall q: nat :: p <= q ==> MatchAt(s, q).None?
    decreases |s| - p
  {
    if p + 6 > |s| then None
    else if MatchAt(s, p).Some? then Some(p)
    else FirstMatchFrom(s, p + 1)
  }

  /** preg_match: the groups of the leftmost match, if any. */
  function Match(s: string): (r: Option<Groups>)
    ensures r.None? <==> forall q: nat :: MatchAt(s, q).None?
    ensures r.Some? ==> exists q: nat :: MatchAt(s, q) == r && forall q': nat :: q' < q ==> MatchAt(s, q').None?
  {
    match FirstMatchFrom(s, 0)
    case None => None
    case Some(q) => MatchAt(s, q)
  }

  /**
   * start and end as both regex handlers compute them: an empty() group (""
   * or "0") means 0 for the start and size-1 for the end.
   */
  function Bounds(g: Groups, size: nat): (r: (nat, int))
    requires AllDigits(g.first) && AllDigits(g.last)
    ensures r.0 == (if EmptyString(g.first) then 0 else IntVal(g.first))
    ensures r.1 == (if EmptyString(g.last) then size - 1 else IntVal(g.last))
  {
    IntValOfDigitString(g.first);
    IntValOfDigitString(g.last);
    (if EmptyString(g.first) then 0 else DecimalValue(g.first),
     if EmptyString(g.last) then size - 1 else DecimalValue(g.last))
  }

  /** A byte-range-spec of section 2.1 of RFC 7233 as a client writes it: `bytes=a-b`, `bytes=a-` or `bytes=-b`. */
  function Header(first: Option<nat>, last: Option<nat>): string {
    "bytes=" + (if first.Some? then NatToString(first.value) else "") + "-"
      + (if last.Some? then NatToString(last.value) else "")
  }

  function Spelled(n: Option<nat>): string { if n.Some? then NatToString(n.value) else "" }

  /** A spelled bound is empty() exactly when it is 0, and otherwise reads back as itself. */
  lemma SpelledValue(n: nat)
    ensures EmptyString(NatToString(n)) <==> n == 0
    ensures n > 0 ==> DecimalValue(NatToString(n)) == n
  {
    DecimalValueOfNatToString(n);
    if n == 0 { assert NatToString(0) == "0"; }
  }

  /** The bounds of a client's header: a missing or zero start is 0, a missing or zero end is the last byte. */
  lemma BoundsOfHeader(first: Option<nat>, last: Option<nat>, size: nat)
    ensures var b := Bounds(Groups(Spelled(first), Spelled(last)), size);
      b.0 == (if first.Some? then first.value else 0) &&
      b.1 == (if last.Some? && last.value != 0 then last.value else size - 1)
  {
    if first.Some? {
      SpelledValue(first.value);
      IntValOfNatToString(first.value);
    }
    if last.Some? {
      SpelledValue(last.value);
      IntValOfNatToString(last.value);
    }
  }

  /** Matching a client's header captures exactly the numbers it spelled. */
  lemma MatchHeader(first: Option<nat>, last: Option<nat>)
    ensures Match(Header(first, last)) == Some(Groups(Spelled(first), Spelled(last)))
  {
    var h := Header(first, last);
    assert h == "bytes=" + Spelled(first) + "-" + Spelled(last);
    MatchAtStart(Spelled(first), Spelled(last));
    assert FirstMatchFrom(h, 0) == Some(0);
  }

  lemma MatchAtStart(a: string, b: string)
    requires AllDigits(a) && AllDigits(b)
    ensures MatchAt("bytes=" + a + "-" + b, 0) == Some(Groups(a, b))
  {
    var h := "bytes=" + a + "-" + b;
    assert h[..6] == "bytes=";
    LowerBytesToken();
    assert BytesTokenAt(h, 0);
    assert h[6] == if a != [] then a[0] else '-';
    assert SpaceEnd(h, 6) == 6;
    assert h[6..6 + |a|] == a;
    DigitRun(h, 6, a);
    assert h[6 + |a|] == '-';
    assert h[7 + |a|..7 + |a| + |b|] == b;
    DigitRun(h, 7 + |a|, b);
  }

  lemma LowerBytesToken()
    ensures Lower("bytes=") == "bytes="
  {
    assert Lower("=") == "=";
    assert Lower("s=") == "s=";
    assert Lower("es=") == "es=";
    assert Lower("tes=") == "tes=";
    assert Lower("ytes=") == "ytes=";
  }

  lemma {:induction false} DigitRun(s: string, i: nat, run: string)
    requires i + |run| <= |s| && s[i..i + |run|] == run && AllDigits(run)
    requires i + |run| == |s| || !IsDigit(s[i + |run|])
    ensures DigitEnd(s, i) == i + |run|
    decreases |run|
  {
    if run != [] {
      assert s[i] == run[0];
      assert s[i + 1..i + 1 + |run[1..]|] == run[1..];
      DigitRun(s, i + 1, run[1..]);
    }
  }
}
