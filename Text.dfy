/**
 * The operations of Python's `str` that the notebook converter relies on:
 * `strip`, `lstrip(chars)`, `startswith`, `endswith`, the `in` operator,
 * `"".join`, `split(sep)`, `split()` and the `{n:02d}` format.
 * Whitespace is space, tab, LF, CR, VT and FF.
 */
module Text {

  /** Space, tab, line feed, carriage return, vertical tab, form feed. */
  predicate IsSpace(c: char) {
    c == ' ' || c == '\t' || c == '\n' || c == '\r' || c == '\U{000B}' || c == '\U{000C}'
  }

  /** `len(s.strip()) == 0` */
  predicate IsBlank(s: string) {
    forall i :: 0 <= i < |s| ==> IsSpace(s[i])
  }

  /** `s.startswith(p)` */
  predicate StartsWith(s: string, p: string) {
    |p| <= |s| && s[..|p|] == p
  }

  /** `s.endswith(p)` */
  predicate EndsWith(s: string, p: string) {
    |p| <= |s| && s[|s| - |p|..] == p
  }

  predicate OccursAt(s: string, p: string, i: int) {
    0 <= i && i + |p| <= |s| && s[i..i + |p|] == p
  }

  /** `p in s` */
  predicate Contains(s: string, p: string) {
    exists i | 0 <= i <= |s| - |p| :: OccursAt(s, p, i)
  }

  lemma ContainsInSlice(s: string, p: string, lo: int, hi: int)
    requires 0 <= lo <= hi <= |s|
    requires Contains(s[lo..hi], p)
    ensures Contains(s, p)
  {
    var t := s[lo..hi];
    var i :| 0 <= i <= |t| - |p| && OccursAt(t, p, i);
    forall j | 0 <= j < |p|
      ensures s[lo + i + j] == p[j]
    {
      assert t[i..i + |p|][j] == t[i + j] == s[lo + i + j];
    }
    assert s[lo + i..lo + i + |p|] == p;
    assert OccursAt(s, p, lo + i);
  }

  /** A text that lacks one of the characters of `p` does not contain `p`. */
  lemma MissingCharExcludes(s: string, p: string, j: int)
    requires 0 <= j < |p| && p[j] !in s
    ensures !Contains(s, p)
  {
    forall i | 0 <= i <= |s| - |p|
      ensures !OccursAt(s, p, i)
    {
      assert s[i + j] in s;
      assert s[i..i + |p|][j] == s[i + j];
    }
  }

  // ---------------------------------------------------------------------
  // strip

  /** `s[lo:hi]` is all whitespace. */
  predicate SpacesBetween(s: string, lo: int, hi: int)
    requires 0 <= lo && hi <= |s|
  {
    forall k :: lo <= k < hi ==> IsSpace(s[k])
  }

  /** The first non-space at or after `i`, or `|s|` when there is none. */
  function SkipSpaces(s: string, i: nat): (j: nat)
    requires i <= |s|
    ensures i <= j <= |s| && SpacesBetween(s, i, j)
    ensures j == |s| || !IsSpace(s[j])
    decreases |s| - i
  {
    if i == |s| || !IsSpace(s[i]) then i else SkipSpaces(s, i + 1)
  }

  /** One past the last non-space before `j`, or `0` when there is none. */
  function BackSpaces(s: string, j: nat): (i: nat)
    requires j <= |s|
    ensures i <= j && SpacesBetween(s, i, j)
    ensures i == 0 || !IsSpace(s[i - 1])
  {
    if j == 0 || !IsSpace(s[j - 1]) then j else BackSpaces(s, j - 1)
  }

  /** The whitespace run that starts at `i` ends exactly where the first non-space is. */
  lemma SkipSpacesAt(s: string, i: nat, j: nat)
    requires i <= j <= |s| && SpacesBetween(s, i, j)
    requires j == |s| || !IsSpace(s[j])
    ensures SkipSpaces(s, i) == j
  {
  }

  /** The whitespace run that ends at `j` starts right after the last non-space. */
  lemma BackSpacesAt(s: string, i: nat, j: nat)
    requires i <= j <= |s| && SpacesBetween(s, i, j)
    requires i == 0 || !IsSpace(s[i - 1])
    ensures BackSpaces(s, j) == i
  {
  }

  /** `s.lstrip()` */
  function LStrip(s: string): string {
    s[SkipSpaces(s, 0)..]
  }

  /** `s.rstrip()` */
  function RStrip(s: string): string {
    s[..BackSpaces(s, |s|)]
  }

  /** `s.strip()`: a slice of `s` with blank text on both sides and no space at either end. */
  function Strip(s: string): (r: string)
    ensures var i := SkipSpaces(s, 0);
      i + |r| <= |s| && r == s[i..i + |r|] && SpacesBetween(s, 0, i) && SpacesBetween(s, i + |r|, |s|)
    ensures r == [] || (!IsSpace(r[0]) && !IsSpace(r[|r| - 1]))
    ensures r == [] <==> IsBlank(s)
  {
    var i := SkipSpaces(s, 0);
    if i == |s| then []
    else
      var j := BackSpaces(s, |s|);
      s[i..j]
  }

  lemma BlankJoin(a: string, b: string)
    requires IsBlank(a) && IsBlank(b)
    ensures IsBlank(a + b)
  {
    assert forall k :: 0 <= k < |a + b| ==> (a + b)[k] == if k < |a| then a[k] else b[k - |a|];
  }

  /**
   * `strip` is determined by its frame: text that is blank on both sides of a
   * core with no space at either end strips to that core.
   */
  lemma StripFrame(a: string, m: string, b: string)
    requires IsBlank(a) && IsBlank(b)
    requires m == [] || (!IsSpace(m[0]) && !IsSpace(m[|m| - 1]))
    ensures Strip(a + m + b) == m
  {
    var s := a + m + b;
    assert forall k :: 0 <= k < |a| ==> s[k] == a[k];
    assert forall k :: 0 <= k < |b| ==> s[|a| + |m| + k] == b[k];
    if m == [] {
      assert SpacesBetween(s, 0, |s|);
      SkipSpacesAt(s, 0, |s|);
    } else {
      assert s[|a|] == m[0] && s[|a| + |m| - 1] == m[|m| - 1];
      SkipSpacesAt(s, 0, |a|);
      BackSpacesAt(s, |a| + |m|, |s|);
      assert s[|a|..|a| + |m|] == m;
    }
  }

  /**
   * Text behind a head that starts with a non-space keeps its own leading
   * spaces under `strip`; only its trailing blank is removed.
   */
  lemma StripBehindHead(h: string, s: string)
    requires h != [] && !IsSpace(h[0])
    requires !IsBlank(s)
    ensures Strip(h + s) == h + RStrip(s)
  {
    var body := RStrip(s);
    RStripOfNonBlank(s);
    var tail := s[|body|..];
    var m := h + body;
    Regroup(h, body, tail);
    assert m[0] == h[0] && m[|m| - 1] == body[|body| - 1];
    StripFrame([], m, tail);
  }

  lemma Assoc(a: string, b: string, c: string)
    ensures a + b + c == a + (b + c)
  {
  }

  lemma Regroup(a: string, b: string, c: string)
    ensures a + (b + c) == [] + (a + b) + c
  {
  }

  /** Text that is not blank keeps a non-empty body under `rstrip`, followed by blank text. */
  lemma RStripOfNonBlank(s: string)
    requires !IsBlank(s)
    ensures var body := RStrip(s);
      body != [] && !IsSpace(body[|body| - 1]) && s == body + s[|body|..] && IsBlank(s[|body|..])
  {
    var j := BackSpaces(s, |s|);
    assert j > 0;
    var tail := s[j..];
    assert forall k :: 0 <= k < |tail| ==> tail[k] == s[j + k];
    assert s == s[..j] + tail;
  }

  /** Text that starts with a non-space only loses its trailing blank under `strip`. */
  lemma StripOfNonSpaceStart(s: string)
    requires s != [] && !IsSpace(s[0])
    ensures Strip(s) == RStrip(s)
  {
    SkipSpacesAt(s, 0, 0);
  }

  /** A core followed by blank text strips to the core. */
  lemma StripBeforeBlank(m: string, b: string)
    requires IsBlank(b)
    requires m == [] || (!IsSpace(m[0]) && !IsSpace(m[|m| - 1]))
    ensures Strip(m + b) == m
  {
    StripFrame([], m, b);
    assert [] + m + b == m + b;
  }

  /** `strip` is idempotent, also when a line break is appended to its result. */
  lemma StripOfStripped(s: string)
    ensures Strip(Strip(s)) == Strip(s)
    ensures Strip(Strip(s) + "\n") == Strip(s)
  {
    StripOfCore(Strip(s));
  }

  /** A core with no space at either end strips to itself, with or without a line break after it. */
  lemma StripOfCore(m: string)
    requires m == [] || (!IsSpace(m[0]) && !IsSpace(m[|m| - 1]))
    ensures Strip(m) == m && Strip(m + "\n") == m
  {
    StripBeforeBlank(m, []);
    assert m + [] == m;
    StripBeforeBlank(m, "\n");
  }

  /** `s.lstrip(c)`: every leading `c` is removed and nothing else. */
  function LStripChar(s: string, c: char): (r: string)
    ensures |r| <= |s| && r == s[|s| - |r|..]
    ensures forall k :: 0 <= k < |s| - |r| ==> s[k] == c
    ensures r == [] || r[0] != c
  {
    if |s| > 0 && s[0] == c then LStripChar(s[1..], c) else s
  }

  /** `lstrip(c)` removes a non-empty run of `c` from text that starts with `c`, and the line is that run followed by the result. */
  lemma LStripCharSplit(s: string, c: char)
    requires |s| > 0 && s[0] == c
    ensures var r := LStripChar(s, c);
      |r| < |s| && s == s[..|s| - |r|] + r
  {
    var r := LStripChar(s, c);
    assert s == s[..|s| - |r|] + s[|s| - |r|..];
  }

  // ---------------------------------------------------------------------
  // join

  /** `"".join(ss)` */
  function Concat(ss: seq<string>): string {
    if ss == [] then "" else Concat(ss[..|ss| - 1]) + ss[|ss| - 1]
  }

  lemma {:induction false} ConcatAppend(a: seq<string>, b: seq<string>)
    ensures Concat(a + b) == Concat(a) + Concat(b)
    decreases |b|
  {
    if b == [] {
      assert a + b == a;
    } else {
      var init := b[..|b| - 1];
      var last := b[|b| - 1];
      assert (a + b)[..|a + b| - 1] == a + init;
      ConcatAppend(a, init);
      assert Concat(a + b) == Concat(a) + Concat(init) + last;
      Assoc(Concat(a), Concat(init), last);
    }
  }

  lemma ConcatSnoc(ss: seq<string>, s: string)
    ensures Concat(ss + [s]) == Concat(ss) + s
  {
    assert (ss + [s])[..|ss|] == ss;
  }

  lemma ConcatSingle(s: string)
    ensures Concat([s]) == s
  {
    assert [s][..0] == [];
  }

  /** `sep.join(parts)` */
  function JoinWith(parts: seq<string>, sep: string): string
    requires |parts| >= 1
  {
    if |parts| == 1 then parts[0] else parts[0] + sep + JoinWith(parts[1..], sep)
  }

  // ---------------------------------------------------------------------
  // split

  /** `s.split(sep)` for a non-empty separator: cut at each occurrence, left to right. */
  function SplitOn(s: string, sep: string): (parts: seq<string>)
    requires sep != []
    ensures |parts| >= 1
    ensures |parts[0]| <= |s| && parts[0] == s[..|parts[0]|]
    ensures forall k :: 0 <= k < |parts| ==> !Contains(parts[k], sep)
    decreases |s|
  {
    if |s| < |sep| then
      assert !Contains(s, sep);
      [s]
    else if s[..|sep|] == sep then
      var rest := SplitOn(s[|sep|..], sep);
      assert !Contains("", sep);
      [""] + rest
    else
      var rest := SplitOn(s[1..], sep);
      var first := [s[0]] + rest[0];
      assert first == s[..|first|];
      FreeAfterHead(first, sep);
      [first] + rest[1..]
  }

  /**
   * A text whose tail does not contain `p` and which does not start with
   * `p` does not contain it.
   */
  lemma FreeAfterHead(t: string, p: string)
    requires t != [] && !Contains(t[1..], p) && !StartsWith(t, p)
    ensures !Contains(t, p)
  {
    forall i | 0 <= i <= |t| - |p|
      ensures !OccursAt(t, p, i)
    {
      if i > 0 {
        assert t[1..][i - 1..i - 1 + |p|] == t[i..i + |p|];
        assert !OccursAt(t[1..], p, i - 1);
      }
    }
  }

  /** A text that `split(sep)` leaves whole does not contain `sep`. */
  lemma UnsplitHasNoSeparator(s: string, sep: string)
    requires sep != [] && |SplitOn(s, sep)| == 1
    ensures !Contains(s, sep)
  {
    SplitJoin(s, sep);
  }

  lemma JoinWithExtendFirst(c: char, parts: seq<string>, sep: string)
    requires |parts| >= 1
    ensures JoinWith([[c] + parts[0]] + parts[1..], sep) == [c] + JoinWith(parts, sep)
  {
    var q := [[c] + parts[0]] + parts[1..];
    if |parts| > 1 {
      assert q[1..] == parts[1..];
    }
  }

  /** Splitting and joining with the same separator gives back the text. */
  lemma {:induction false} SplitJoin(s: string, sep: string)
    requires sep != []
    ensures JoinWith(SplitOn(s, sep), sep) == s
    decreases |s|
  {
    if |s| < |sep| {
    } else if s[..|sep|] == sep {
      var tail := s[|sep|..];
      SplitJoin(tail, sep);
      var rest := SplitOn(tail, sep);
      assert ([""] + rest)[1..] == rest;
      assert JoinWith(SplitOn(s, sep), sep) == "" + sep + JoinWith(rest, sep);
      assert s == sep + tail;
    } else {
      var tail := s[1..];
      SplitJoin(tail, sep);
      JoinWithExtendFirst(s[0], SplitOn(tail, sep), sep);
      assert s == [s[0]] + tail;
    }
  }

  /** The maximal run of non-space characters at the start of `s`. */
  function TakeWord(s: string): (w: string)
    ensures |w| <= |s| && w == s[..|w|]
    ensures forall k :: 0 <= k < |w| ==> !IsSpace(w[k])
    ensures |w| == |s| || IsSpace(s[|w|])
  {
    if s == [] || IsSpace(s[0]) then [] else [s[0]] + TakeWord(s[1..])
  }

  /** `s.split()`: the maximal runs of non-space characters, in order. */
  function Words(s: string): seq<string>
    decreases |s|
  {
    var t := LStrip(s);
    if t == [] then []
    else
      var w := TakeWord(t);
      [w] + Words(t[|w|..])
  }

  /** A word of `split()`: non-empty, without whitespace. */
  predicate IsWord(w: string) {
    w != [] && forall k :: 0 <= k < |w| ==> !IsSpace(w[k])
  }

  /** Every one of `ws` is a word that occurs in `s`. */
  predicate WordsIn(ws: seq<string>, s: string) {
    forall k :: 0 <= k < |ws| ==> IsWord(ws[k]) && Contains(s, ws[k])
  }

  lemma WordsInSuffix(ws: seq<string>, s: string, lo: int)
    requires 0 <= lo <= |s| && WordsIn(ws, s[lo..])
    ensures WordsIn(ws, s)
  {
    forall k | 0 <= k < |ws|
      ensures IsWord(ws[k]) && Contains(s, ws[k])
    {
      assert s[lo..] == s[lo..|s|];
      ContainsInSlice(s, ws[k], lo, |s|);
    }
  }

  lemma WordsInCons(w: string, ws: seq<string>, s: string)
    requires IsWord(w) && Contains(s, w) && WordsIn(ws, s)
    ensures WordsIn([w] + ws, s)
  {
    forall k | 0 <= k < |[w] + ws|
      ensures IsWord(([w] + ws)[k]) && Contains(s, ([w] + ws)[k])
    {
      if k > 0 {
        assert ([w] + ws)[k] == ws[k - 1];
      }
    }
  }

  /** Every word of `split()` is a word that occurs in the text. */
  lemma {:induction false} WordsOccur(s: string)
    ensures WordsIn(Words(s), s)
    decreases |s|
  {
    var i := SkipSpaces(s, 0);
    var t := LStrip(s);
    if t != [] {
      var w := TakeWord(t);
      var rest := t[|w|..];
      assert Words(s) == [w] + Words(rest);
      WordsOccur(rest);
      WordsOccurStep(s, i, w, Words(rest));
    }
  }

  lemma WordsOccurStep(s: string, i: nat, w: string, ws: seq<string>)
    requires i <= |s| && w == TakeWord(s[i..]) && w != []
    requires WordsIn(ws, s[i..][|w|..])
    ensures WordsIn([w] + ws, s)
  {
    var t := s[i..];
    assert t[|w|..] == s[i + |w|..];
    WordsInSuffix(ws, s, i + |w|);
    assert OccursAt(s, w, i) by { assert s[i..i + |w|] == t[..|w|]; }
    WordsInCons(w, ws, s);
  }

  /** A text with a word ending in `suffix` contains `suffix`. */
  lemma WordEndingOccurs(s: string, suffix: string)
    requires SomeWordEndsWith(s, suffix)
    ensures Contains(s, suffix)
  {
    var ws := Words(s);
    var k :| 0 <= k < |ws| && EndsWith(ws[k], suffix);
    WordsOccur(s);
    var w := ws[k];
    assert Contains(s, w);
    var i :| 0 <= i <= |s| - |w| && OccursAt(s, w, i);
    EndingOccurs(w, suffix);
    OccursWithin(s, w, suffix, i, |w| - |suffix|);
  }

  lemma EndingOccurs(w: string, p: string)
    requires EndsWith(w, p)
    ensures OccursAt(w, p, |w| - |p|)
  {
    assert w[|w| - |p|..|w|] == w[|w| - |p|..];
  }

  /** An occurrence inside an occurrence is an occurrence. */
  lemma OccursWithin(s: string, w: string, p: string, i: int, j: int)
    requires OccursAt(s, w, i) && OccursAt(w, p, j)
    ensures OccursAt(s, p, i + j)
    ensures Contains(s, p)
  {
    forall m | 0 <= m < |p|
      ensures s[i + j + m] == p[m]
    {
      assert p[m] == w[j..j + |p|][m] == w[j + m];
      assert w[j + m] == s[i..i + |w|][j + m];
    }
    assert s[i + j..i + j + |p|] == p;
    assert OccursAt(s, p, i + j);
  }

  /** `any(w.endswith(suffix) for w in s.split())` */
  predicate SomeWordEndsWith(s: string, suffix: string) {
    var ws := Words(s);
    exists k | 0 <= k < |ws| :: EndsWith(ws[k], suffix)
  }

  // ---------------------------------------------------------------------
  // decimal numbers

  predicate IsDigits(s: string) {
    forall k :: 0 <= k < |s| ==> '0' <= s[k] <= '9'
  }

  function DigitChar(d: nat): (c: char)
    requires d < 10
    ensures '0' <= c <= '9' && c as int - '0' as int == d
  {
    "0123456789"[d]
  }

  /** `str(n)` for a natural number. */
  function Decimal(n: nat): (s: string)
    ensures |s| >= 1 && IsDigits(s)
    ensures n < 10 <==> |s| == 1
    ensures n < 100 ==> |s| <= 2
  {
    if n < 10 then [DigitChar(n)] else Decimal(n / 10) + [DigitChar(n % 10)]
  }

  /** `f"{n:02d}"`: decimal digits, padded with a zero to at least two. */
  function Pad2(n: nat): (s: string)
    ensures IsDigits(s) && |s| >= 2
    ensures n < 100 ==> |s| == 2
  {
    if n < 10 then ['0', DigitChar(n)] else Decimal(n)
  }

  /** `int(s)` for a string of decimal digits. */
  function ParseDecimal(s: string): nat
    requires IsDigits(s)
  {
    if s == [] then 0 else ParseDecimal(s[..|s| - 1]) * 10 + (s[|s| - 1] as int - '0' as int)
  }

  lemma {:induction false} ParseDecimalOfDecimal(n: nat)
    ensures ParseDecimal(Decimal(n)) == n
  {
    if n >= 10 {
      ParseDecimalOfDecimal(n / 10);
      var s := Decimal(n);
      assert s[..|s| - 1] == Decimal(n / 10);
    }
  }

  /** The two-digit counter in an example file name reads back as the counter. */
  lemma Pad2RoundTrip(n: nat)
    ensures ParseDecimal(Pad2(n)) == n
  {
    if n < 10 {
      var s := Pad2(n);
      assert s[..1] == "0";
      assert ParseDecimal("0") == 0 by {
        assert "0"[..0] == [];
      }
    } else {
      ParseDecimalOfDecimal(n);
    }
  }
}
