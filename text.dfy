// Character and string helpers shared by the PHP and JavaScript models:
// decimal digits, prefixes and suffixes, substring search, splitting on a
// delimiter, replacement and path segments.

module Wrappers {
  datatype Option<T> = None | Some(value: T)
}

module Text {
  import opened Wrappers

  predicate IsDigit(c: char) { '0' <= c <= '9' }

  predicate AllDigits(s: string) { forall i | 0 <= i < |s| :: IsDigit(s[i]) }

  predicate IsAsciiLetter(c: char) { 'a' <= c <= 'z' || 'A' <= c <= 'Z' }

  /** The characters PCRE's `\s` and PHP's intval() treat as white space. */
  predicate IsSpace(c: char) {
    c == ' ' || c == '\t' || c == '\n' || c == '\r' || c == '\U{B}' || c == '\U{C}'
  }

  function DigitChar(d: nat): (c: char)
    requires d < 10
    ensures IsDigit(c)
  {
    ('0' as int + d) as char
  }

  function DigitValue(c: char): (d: nat)
    requires IsDigit(c)
    ensures d < 10
  {
    c as int - '0' as int
  }

  /** Base-10 value of a string of digits, most significant digit first. */
  function DecimalValue(s: string): nat
    requires AllDigits(s)
    decreases |s|
  {
    if s == [] then 0 else DecimalValue(s[..|s| - 1]) * 10 + DigitValue(s[|s| - 1])
  }

  /** Shortest decimal spelling of n, as PHP's string conversion and JavaScript's String() print it. */
  function NatToString(n: nat): (r: string)
    ensures 1 <= |r| && AllDigits(r)
    ensures r[0] == '0' ==> n == 0
    decreases n
  {
    if n < 10 then [DigitChar(n)] else NatToString(n / 10) + [DigitChar(n % 10)]
  }

  lemma {:induction false} DecimalValueOfNatToString(n: nat)
    ensures DecimalValue(NatToString(n)) == n
    decreases n
  {
    if n >= 10 {
      var s := NatToString(n / 10);
      var r := s + [DigitChar(n % 10)];
      assert r[..|r| - 1] == s;
      DecimalValueOfNatToString(n / 10);
    }
  }

  /** The longest prefix of s made of digits. */
  function LeadingDigits(s: string): (r: string)
    ensures AllDigits(r) && r <= s
    ensures |r| < |s| ==> !IsDigit(s[|r|])
    decreases |s|
  {
    if s != [] && IsDigit(s[0]) then [s[0]] + LeadingDigits(s[1..]) else []
  }

  lemma {:induction false} LeadingDigitsOfDigits(s: string, rest: string)
    requires AllDigits(s)
    requires rest == [] || !IsDigit(rest[0])
    ensures LeadingDigits(s + rest) == s
    decreases |s|
  {
    if s != [] {
      assert (s + rest)[1..] == s[1..] + rest;
      LeadingDigitsOfDigits(s[1..], rest);
    } else {
      assert s + rest == rest;
    }
  }

  predicate StartsWith(s: string, p: string) { |p| <= |s| && s[..|p|] == p }

  predicate EndsWith(s: string, p: string) { |p| <= |s| && s[|s| - |p|..] == p }

  lemma StartsWithAppend(a: string, b: string, p: string)
    requires StartsWith(a, p)
    ensures StartsWith(a + b, p)
  {
    assert (a + b)[..|p|] == a[..|p|];
  }

  predicate OccursAt(s: string, sub: string, i: nat) { i + |sub| <= |s| && s[i..i + |sub|] == sub }

  /** JavaScript's `includes` and the body of SQL `LIKE '%sub%'`. */
  predicate Contains(s: string, sub: string) { exists i: nat | i <= |s| :: OccursAt(s, sub, i) }

  /** The first position at or after `from` where `sub` occurs (PHP strpos, JavaScript indexOf). */
  function FindFrom(s: string, sub: string, from: nat): (r: Option<nat>)
    ensures r.Some? ==> from <= r.value && OccursAt(s, sub, r.value)
    ensures r.Some? ==> forall j: nat :: from <= j < r.value ==> !OccursAt(s, sub, j)
    ensures r.None? ==> forall j: nat :: from <= j ==> !OccursAt(s, sub, j)
    decreases |s| - from
  {
    if from + |sub| > |s| then None
    else if s[from..from + |sub|] == sub then Some(from)
    else FindFrom(s, sub, from + 1)
  }

  function Find(s: string, sub: string): (r: Option<nat>)
    ensures r.Some? <==> Contains(s, sub)
    ensures r.Some? ==> OccursAt(s, sub, r.value) && forall j: nat :: j < r.value ==> !OccursAt(s, sub, j)
  {
    FindFrom(s, sub, 0)
  }

  /** sub is found right after a prefix that does not hold its first character. */
  lemma FindAfterFree(a: string, sub: string, b: string)
    requires sub != [] && forall i | 0 <= i < |a| :: a[i] != sub[0]
    ensures Find(a + sub + b, sub) == Some(|a|)
  {
    var s := a + sub + b;
    assert s[|a|..|a| + |sub|] == sub;
    assert OccursAt(s, sub, |a|);
    forall j: nat | j < |a| ensures !OccursAt(s, sub, j) {
      assert s[j..j + |sub|][0] == a[j];
    }
    var r := Find(s, sub);
    assert r.Some?;
    assert r.value <= |a| && r.value >= |a|;
  }

  /**
   * A regex `marker(\d+)` searched from position `from`: the value of the
   * digits after the leftmost marker that is followed by any.
   */
  function DigitsAfter(s: string, marker: string, from: nat): (r: Option<nat>)
    decreases |s| - from
  {
    if from + |marker| > |s| then None
    else if OccursAt(s, marker, from) && LeadingDigits(s[from + |marker|..]) != [] then
      Some(DecimalValue(LeadingDigits(s[from + |marker|..])))
    else DigitsAfter(s, marker, from + 1)
  }

  lemma {:induction false} DigitsAfterSkip(s: string, marker: string, from: nat, k: nat)
    requires from <= k && k + |marker| <= |s|
    requires forall j | from <= j < k :: !OccursAt(s, marker, j)
    ensures DigitsAfter(s, marker, from) == DigitsAfter(s, marker, k)
    decreases k - from
  {
    if from < k {
      DigitsAfterSkip(s, marker, from + 1, k);
    }
  }

  /** The digits right after the first occurrence of the marker are the ones found. */
  lemma DigitsAfterMarker(a: string, marker: string, n: nat, rest: string)
    requires forall j | 0 <= j < |a| :: !OccursAt(a + marker, marker, j)
    requires rest == [] || !IsDigit(rest[0])
    ensures DigitsAfter(a + marker + NatToString(n) + rest, marker, 0) == Some(n)
  {
    var d := NatToString(n);
    var s := a + marker + d + rest;
    assert s == (a + marker) + (d + rest);
    forall j | 0 <= j < |a| ensures !OccursAt(s, marker, j) {
      assert !OccursAt(a + marker, marker, j) && j + |marker| <= |a + marker|;
      assert s[j..j + |marker|] == (a + marker)[j..j + |marker|];
    }
    DigitsAfterSkip(s, marker, 0, |a|);
    assert s[|a|..|a| + |marker|] == marker;
    assert s[|a| + |marker|..] == d + rest;
    LeadingDigitsOfDigits(d, rest);
    DecimalValueOfNatToString(n);
  }

  /** The last index holding c. */
  function LastIndexOf(s: string, c: char): (r: Option<nat>)
    ensures r.Some? ==> r.value < |s| && s[r.value] == c && forall j | r.value < j < |s| :: s[j] != c
    ensures r.None? ==> forall j | 0 <= j < |s| :: s[j] != c
    decreases |s|
  {
    if s == [] then None
    else if s[|s| - 1] == c then Some(|s| - 1)
    else LastIndexOf(s[..|s| - 1], c)
  }

  function LowerChar(c: char): char { if 'A' <= c <= 'Z' then (c as int + 32) as char else c }

  /** PHP strtolower and JavaScript toLowerCase on ASCII text. */
  function Lower(s: string): (r: string)
    ensures |r| == |s| && forall i | 0 <= i < |s| :: r[i] == LowerChar(s[i])
    decreases |s|
  {
    if s == [] then [] else [LowerChar(s[0])] + Lower(s[1..])
  }

  /** Keep exactly the characters satisfying keep, in order. */
  function Filter(s: string, keep: char -> bool): (r: string)
    ensures forall i | 0 <= i < |r| :: keep(r[i])
    ensures |r| <= |s|
    decreases |s|
  {
    if s == [] then [] else (if keep(s[0]) then [s[0]] else []) + Filter(s[1..], keep)
  }

  lemma {:induction false} FilterKeepsAll(s: string, keep: char -> bool)
    requires forall i | 0 <= i < |s| :: keep(s[i])
    ensures Filter(s, keep) == s
    decreases |s|
  {
    if s != [] {
      FilterKeepsAll(s[1..], keep);
    }
  }

  lemma {:induction false} FilterIdempotent(s: string, keep: char -> bool)
    ensures Filter(Filter(s, keep), keep) == Filter(s, keep)
  {
    FilterKeepsAll(Filter(s, keep), keep);
  }

  lemma {:induction false} FilterTwice(s: string, first: char -> bool, second: char -> bool)
    requires forall c :: second(c) ==> first(c)
    ensures Filter(Filter(s, first), second) == Filter(s, second)
    decreases |s|
  {
    if s != [] {
      FilterTwice(s[1..], first, second);
      var tail := Filter(s[1..], first);
      if first(s[0]) {
        assert Filter(s, first) == [s[0]] + tail;
        assert ([s[0]] + tail)[1..] == tail;
      } else {
        assert Filter(s, first) == tail;
      }
    }
  }

  /** PHP explode and JavaScript split with a one-character delimiter. */
  function Split(s: string, d: char): (r: seq<string>)
    ensures |r| >= 1
    ensures forall k, i | 0 <= k < |r| && 0 <= i < |r[k]| :: r[k][i] != d
    decreases |s|
  {
    if s == [] then [""]
    else
      var rest := Split(s[1..], d);
      if s[0] == d then [""] + rest else [[s[0]] + rest[0]] + rest[1..]
  }

  /** PHP implode and JavaScript join with a one-character glue. */
  function Join(parts: seq<string>, d: char): string
    requires |parts| >= 1
    decreases |parts|
  {
    if |parts| == 1 then parts[0] else parts[0] + [d] + Join(parts[1..], d)
  }

  lemma {:induction false} JoinSplit(s: string, d: char)
    ensures Join(Split(s, d), d) == s
    decreases |s|
  {
    if s != [] {
      var rest := Split(s[1..], d);
      JoinSplit(s[1..], d);
      if s[0] == d {
        assert ([""] + rest)[1..] == rest;
      } else {
        var r := [[s[0]] + rest[0]] + rest[1..];
        if |rest| == 1 {
          assert r == [[s[0]] + rest[0]];
        } else {
          assert r[1..] == rest[1..];
          assert Join(rest, d) == rest[0] + [d] + Join(rest[1..], d);
        }
      }
    }
  }

  lemma {:induction false} SplitWithoutDelimiter(s: string, d: char)
    requires forall i | 0 <= i < |s| :: s[i] != d
    ensures Split(s, d) == [s]
    decreases |s|
  {
    if s != [] {
      SplitWithoutDelimiter(s[1..], d);
      assert [s[0]] + s[1..] == s;
    }
  }

  lemma {:induction false} SplitAfterPiece(a: string, d: char, b: string)
    requires forall i | 0 <= i < |a| :: a[i] != d
    ensures Split(a + [d] + b, d) == [a] + Split(b, d)
    decreases |a|
  {
    if a == [] {
      assert ([d] + b)[1..] == b;
      assert a + [d] + b == [d] + b;
    } else {
      assert (a + [d] + b)[1..] == a[1..] + [d] + b;
      SplitAfterPiece(a[1..], d, b);
      assert [a[0]] + a[1..] == a;
    }
  }

  lemma {:induction false} SplitAppend(s: string, d: char, b: string)
    requires forall i | 0 <= i < |b| :: b[i] != d
    ensures Split(s + [d] + b, d) == Split(s, d) + [b]
    decreases |s|
  {
    if s == [] {
      assert s + [d] + b == [] + [d] + b;
      SplitAfterPiece([], d, b);
      SplitWithoutDelimiter(b, d);
    } else {
      assert (s + [d] + b)[1..] == s[1..] + [d] + b;
      SplitAppend(s[1..], d, b);
      var rest := Split(s[1..], d);
      if s[0] != d {
        assert (rest + [b])[0] == rest[0];
        assert (rest + [b])[1..] == rest[1..] + [b];
      }
    }
  }

  function Last<T>(s: seq<T>): T requires |s| >= 1 { s[|s| - 1] }

  /** PHP str_replace(pat, rep, s): every occurrence of pat, scanning left to right without overlaps. */
  function Replace(s: string, pat: string, rep: string): string
    requires |pat| > 0
    decreases |s|
  {
    if |s| < |pat| then s
    else if s[..|pat|] == pat then rep + Replace(s[|pat|..], pat, rep)
    else [s[0]] + Replace(s[1..], pat, rep)
  }

  lemma {:induction false} ReplaceAbsent(s: string, pat: string, rep: string)
    requires |pat| > 0 && !Contains(s, pat)
    ensures Replace(s, pat, rep) == s
    decreases |s|
  {
    if |s| >= |pat| {
      assert !OccursAt(s, pat, 0);
      forall i: nat ensures !OccursAt(s[1..], pat, i) {
        if OccursAt(s[1..], pat, i) {
          assert s[1..][i..i + |pat|] == s[i + 1..i + 1 + |pat|];
          assert OccursAt(s, pat, i + 1);
        }
      }
      ReplaceAbsent(s[1..], pat, rep);
    }
  }

  /** Drops trailing copies of c (PHP basename's first step). */
  function TrimEnd(s: string, c: char): (r: string)
    ensures r <= s && (r == [] || r[|r| - 1] != c)
    decreases |s|
  {
    if s != [] && s[|s| - 1] == c then TrimEnd(s[..|s| - 1], c) else s
  }

  /** PHP basename on a '/'-separated path: the last non-empty segment. */
  function Basename(path: string): (r: string)
    ensures forall i | 0 <= i < |r| :: r[i] != '/'
  {
    Last(Split(TrimEnd(path, '/'), '/'))
  }

  lemma BasenameOfPlainName(name: string)
    requires forall i | 0 <= i < |name| :: name[i] != '/'
    ensures Basename(name) == name
  {
    assert TrimEnd(name, '/') == name;
    SplitWithoutDelimiter(name, '/');
  }

  lemma {:induction false} BasenameOfPath(dir: string, name: string)
    requires name != [] && forall i | 0 <= i < |name| :: name[i] != '/'
    ensures Basename(dir + "/" + name) == name
    decreases |dir|
  {
    var p := dir + "/" + name;
    assert TrimEnd(p, '/') == p;
    LastSegmentAppend(dir, name);
  }

  lemma {:induction false} LastSegmentAppend(dir: string, name: string)
    requires forall i | 0 <= i < |name| :: name[i] != '/'
    ensures Last(Split(dir + "/" + name, '/')) == name
    decreases |dir|
  {
    if dir == [] {
      assert dir + "/" + name == [('/')] + name;
      SplitAfterPiece([], '/', name);
      SplitWithoutDelimiter(name, '/');
    } else {
      var r := Split(dir + "/" + name, '/');
      var rest := Split((dir + "/" + name)[1..], '/');
      assert (dir + "/" + name)[1..] == dir[1..] + "/" + name;
      LastSegmentAppend(dir[1..], name);
      assert Last(rest) == name;
      SplitSuffixLength(dir[1..], name);
      assert |rest| >= 2;
      if dir[0] == '/' {
        assert r == [""] + rest;
      } else {
        assert r == [[dir[0]] + rest[0]] + rest[1..];
      }
    }
  }

  lemma {:induction false} SplitSuffixLength(dir: string, name: string)
    ensures |Split(dir + "/" + name, '/')| >= 2
    decreases |dir|
  {
    if dir == [] {
      assert dir + "/" + name == "/" + name;
      assert ("/" + name)[1..] == name;
    } else {
      assert (dir + "/" + name)[1..] == dir[1..] + "/" + name;
      SplitSuffixLength(dir[1..], name);
    }
  }

  /** pathinfo(path, PATHINFO_EXTENSION): what follows the last dot of the basename, or "". */
  function Extension(path: string): (r: string)
    ensures forall i | 0 <= i < |r| :: r[i] != '.' && r[i] != '/'
  {
    var base := Basename(path);
    var dot := LastIndexOf(base, '.');
    if dot.Some? then base[dot.value + 1..] else ""
  }

  lemma ExtensionOf(dir: string, stem: string, ext: string)
    requires forall i | 0 <= i < |stem| :: stem[i] != '/'
    requires forall i | 0 <= i < |ext| :: ext[i] != '/' && ext[i] != '.'
    ensures Extension(dir + "/" + stem + "." + ext) == ext
  {
    var name := stem + "." + ext;
    assert dir + "/" + stem + "." + ext == dir + "/" + name;
    BasenameOfPath(dir, name);
    assert name[|stem|] == '.';
    var dot := LastIndexOf(name, '.');
    assert dot.Some? && dot.value == |stem| by {
      forall j | |stem| < j < |name| ensures name[j] != '.' { assert name[j] == ext[j - |stem| - 1]; }
    }
    assert name[|stem| + 1..] == ext;
  }

  /** The prefix of s before its first character from stops. */
  function Cut(s: string, stops: set<char>): (r: string)
    ensures r <= s && forall i | 0 <= i < |r| :: r[i] !in stops
    ensures |r| < |s| ==> s[|r|] in stops
    decreases |s|
  {
    if s == [] || s[0] in stops then [] else [s[0]] + Cut(s[1..], stops)
  }

  lemma {:induction false} CutClean(a: string, b: string, stops: set<char>)
    requires forall i | 0 <= i < |a| :: a[i] !in stops
    requires b == [] || b[0] in stops
    ensures Cut(a + b, stops) == a
    decreases |a|
  {
    if a == [] {
      assert a + b == b;
    } else {
      assert (a + b)[1..] == a[1..] + b;
      CutClean(a[1..], b, stops);
      assert [a[0]] + a[1..] == a;
    }
  }

  /** PHP preg_replace('/\.[^.]+$/', '', name): drop a final dot and the non-empty dot-free run after it. */
  function StripExtension(name: string): (r: string)
    ensures |r| <= |name| && r == name[..|r|]
    ensures r != name ==> r + "." + name[|r| + 1..] == name && |name[|r| + 1..]| >= 1
  {
    var dot := LastIndexOf(name, '.');
    if dot.Some? && dot.value + 1 < |name| then name[..dot.value] else name
  }

  lemma StripExtensionOf(stem: string, ext: string)
    requires ext != [] && forall i | 0 <= i < |ext| :: ext[i] != '.'
    ensures StripExtension(stem + "." + ext) == stem
  {
    var name := stem + "." + ext;
    assert name[|stem|] == '.';
    var dot := LastIndexOf(name, '.');
    assert dot.Some? && dot.value == |stem| by {
      forall j | |stem| < j < |name| ensures name[j] != '.' { assert name[j] == ext[j - |stem| - 1]; }
    }
    assert name[..|stem|] == stem;
  }

  /** A name without a dot, or ending in one, is left unchanged. */
  lemma StripExtensionKeeps(name: string)
    requires (forall i | 0 <= i < |name| :: name[i] != '.') || (name != [] && name[|name| - 1] == '.')
    ensures StripExtension(name) == name
  {
  }
}
