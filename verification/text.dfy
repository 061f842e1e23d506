/** The few Python `str` operations the pipeline relies on, over `string` = `seq<char>`:
    `strip()`, `split()` with no argument, ASCII `lower()`, `startswith`, the
    substring test `needle in hay`, `sep.join(words)`, and the maximal-run
    scanner that both `split()` and `re.findall(r"[A-Za-z0-9]+", ...)` amount to. */
module Text {
  import opened Wrappers

  /** Python's `s or ""` for an optional string column or XML text. */
  function OrEmpty(s: Option<string>): string {
    s.GetOr("")
  }

  /** Characters for which Python's `str.isspace()` holds; `strip()` and `split()` use this set. */
  predicate IsSpace(c: char) {
    || c == ' ' || c == '\t' || c == '\n' || c == '\r' || c == '\U{000B}' || c == '\U{000C}'
    || ('\U{001C}' <= c <= '\U{001F}') || c == '\U{0085}' || c == '\U{00A0}' || c == '\U{1680}'
    || ('\U{2000}' <= c <= '\U{200A}') || c == '\U{2028}' || c == '\U{2029}' || c == '\U{202F}'
    || c == '\U{205F}' || c == '\U{3000}'
  }

  predicate IsAsciiAlnum(c: char) {
    ('a' <= c <= 'z') || ('A' <= c <= 'Z') || ('0' <= c <= '9')
  }

  /** Every character of `w` satisfies `p`. */
  ghost predicate All(w: string, p: char -> bool) {
    forall k :: 0 <= k < |w| ==> p(w[k])
  }

  predicate NotSpace(c: char) {
    !IsSpace(c)
  }

  // ---------------------------------------------------------------------------
  // strip()

  /** The number of whitespace characters `s` starts with. */
  function LeadingSpaces(s: string): (n: nat)
    ensures n <= |s|
    ensures forall k :: 0 <= k < n ==> IsSpace(s[k])
    ensures n == |s| || !IsSpace(s[n])
    decreases |s|
  {
    if |s| > 0 && IsSpace(s[0]) then 1 + LeadingSpaces(s[1..]) else 0
  }

  /** The position where the trailing whitespace of `s` begins. */
  function TrailingStart(s: string): (n: nat)
    ensures n <= |s|
    ensures forall k :: n <= k < |s| ==> IsSpace(s[k])
    ensures n == 0 || !IsSpace(s[n - 1])
    decreases |s|
  {
    if |s| > 0 && IsSpace(s[|s| - 1]) then TrailingStart(s[..|s| - 1]) else |s|
  }

  /** `r` sits at offset `i` of `s` with only whitespace around it. */
  ghost predicate PaddedAt(r: string, s: string, i: int) {
    && 0 <= i <= |s| - |r| && r == s[i..i + |r|]
    && (forall k :: 0 <= k < i ==> IsSpace(s[k]))
    && (forall k :: i + |r| <= k < |s| ==> IsSpace(s[k]))
  }

  /** `s` is `r` with only whitespace added on either side, and `r` has none at its ends. */
  ghost predicate IsStripOf(r: string, s: string) {
    && (r == [] || (!IsSpace(r[0]) && !IsSpace(r[|r| - 1])))
    && exists i :: PaddedAt(r, s, i)
  }

  /** Python's `s.strip()`. */
  function Strip(s: string): (r: string)
    ensures IsStripOf(r, s)
  {
    var i := LeadingSpaces(s);
    var j := TrailingStart(s);
    if j <= i then
      assert PaddedAt([], s, 0);
      []
    else
      assert PaddedAt(s[i..j], s, i);
      s[i..j]
  }

  /** A stripped string has no whitespace at either end. */
  lemma StripEnds(s: string)
    ensures var r := Strip(s); r == [] || (!IsSpace(r[0]) && !IsSpace(r[|r| - 1]))
  {
  }

  /** A string is its own strip exactly when it has no whitespace at either end. */
  lemma StripFixedPoint(s: string)
    ensures Strip(s) == s <==> (s == [] || (!IsSpace(s[0]) && !IsSpace(s[|s| - 1])))
  {
  }

  /** Whitespace padding around a string without whitespace at its ends strips back to it. */
  lemma StripOfPadded(r: string, s: string, i: int)
    requires r == [] || (!IsSpace(r[0]) && !IsSpace(r[|r| - 1]))
    requires PaddedAt(r, s, i)
    ensures Strip(s) == r
  {
    var a := LeadingSpaces(s);
    var b := TrailingStart(s);
    if r == [] {
      assert forall k :: 0 <= k < |s| ==> IsSpace(s[k]);
    } else {
      assert s[i] == r[0] && s[i + |r| - 1] == r[|r| - 1];
      assert a == i;
      assert b == i + |r|;
    }
  }

  /** A trailing whitespace character does not change the strip. */
  lemma StripTrailingSpace(s: string, c: char)
    requires IsSpace(c)
    ensures Strip(s + [c]) == Strip(s)
  {
    var r := Strip(s);
    var i :| PaddedAt(r, s, i);
    assert (s + [c])[i..i + |r|] == s[i..i + |r|];
    assert PaddedAt(r, s + [c], i);
    StripOfPadded(r, s + [c], i);
  }

  /** Two stripped strings joined by one space strip to the join when both are non-empty, and
      to the non-empty one (or nothing) otherwise. */
  lemma StripSpaceJoin(f: string, l: string)
    requires f == [] || (!IsSpace(f[0]) && !IsSpace(f[|f| - 1]))
    requires l == [] || (!IsSpace(l[0]) && !IsSpace(l[|l| - 1]))
    ensures Strip(f + " " + l) == if f == [] then l else if l == [] then f else f + " " + l
  {
    var joined := f + " " + l;
    if f == [] {
      assert PaddedAt(l, joined, 1);
      StripOfPadded(l, joined, 1);
    } else if l == [] {
      assert PaddedAt(f, joined, 0);
      StripOfPadded(f, joined, 0);
    } else {
      assert PaddedAt(joined, joined, 0);
      StripOfPadded(joined, joined, 0);
    }
  }

  /** Stripping twice is stripping once. */
  lemma StripIdempotent(s: string)
    ensures Strip(Strip(s)) == Strip(s)
  {
    StripFixedPoint(Strip(s));
  }

  /** Stripping only removes characters: one absent from `s` is absent from its strip. */
  lemma StripKeepsOut(s: string, c: char)
    requires c !in s
    ensures c !in Strip(s)
  {
    var r := Strip(s);
    var i :| PaddedAt(r, s, i);
    forall k | 0 <= k < |r| ensures r[k] != c {
      assert r[k] == s[i + k];
    }
  }

  // ---------------------------------------------------------------------------
  // Maximal runs: str.split() and re.findall over a character class

  /** Length of the leading run of characters satisfying `inRun`. */
  function RunLen(s: string, inRun: char -> bool): (n: nat)
    ensures n <= |s|
    ensures forall k :: 0 <= k < n ==> inRun(s[k])
    ensures n == |s| || !inRun(s[n])
    decreases |s|
  {
    if s == [] || !inRun(s[0]) then 0 else 1 + RunLen(s[1..], inRun)
  }

  /** The maximal non-empty runs of `inRun` characters, left to right. */
  function Runs(s: string, inRun: char -> bool): (r: seq<string>)
    ensures forall i :: 0 <= i < |r| ==> r[i] != [] && All(r[i], inRun)
    decreases |s|
  {
    if s == [] then []
    else if !inRun(s[0]) then Runs(s[1..], inRun)
    else
      var n := RunLen(s, inRun);
      [s[..n]] + Runs(s[n..], inRun)
  }

  /** Python's `s.split()`: the maximal runs of non-whitespace. */
  function Split(s: string): seq<string> {
    Runs(s, NotSpace)
  }

  /** Python's `sep.join(ws)`. */
  function Join(ws: seq<string>, sep: string): string
    decreases |ws|
  {
    if |ws| == 0 then ""
    else if |ws| == 1 then ws[0]
    else ws[0] + sep + Join(ws[1..], sep)
  }

  /** Characters outside the run class contribute nothing at the front. */
  lemma {:induction false} RunsSkipGap(gap: string, rest: string, inRun: char -> bool)
    requires forall k :: 0 <= k < |gap| ==> !inRun(gap[k])
    ensures Runs(gap + rest, inRun) == Runs(rest, inRun)
    decreases |gap|
  {
    if gap != [] {
      var x := gap + rest;
      assert x[0] == gap[0] && x[1..] == gap[1..] + rest;
      assert Runs(x, inRun) == Runs(x[1..], inRun);
      RunsSkipGap(gap[1..], rest, inRun);
    } else {
      assert gap + rest == rest;
    }
  }

  lemma {:induction false} RunLenOfWord(w: string, rest: string, inRun: char -> bool)
    requires All(w, inRun)
    requires rest == [] || !inRun(rest[0])
    ensures RunLen(w + rest, inRun) == |w|
    decreases |w|
  {
    if w != [] {
      assert (w + rest)[1..] == w[1..] + rest;
      RunLenOfWord(w[1..], rest, inRun);
    } else {
      assert w + rest == rest;
    }
  }

  /** A word made of run characters is a single run, up to a non-run character. */
  lemma RunsOfWord(w: string, rest: string, inRun: char -> bool)
    requires w != [] && All(w, inRun)
    requires rest == [] || !inRun(rest[0])
    ensures Runs(w + rest, inRun) == [w] + Runs(rest, inRun)
  {
    RunLenOfWord(w, rest, inRun);
    assert (w + rest)[..|w|] == w;
    assert (w + rest)[|w|..] == rest;
  }

  /** Scanning from index `i`: a non-run character is skipped. */
  lemma RunsAtGap(s: string, i: nat, inRun: char -> bool)
    requires i < |s| && !inRun(s[i])
    ensures Runs(s[i..], inRun) == Runs(s[i + 1..], inRun)
  {
    assert s[i..][1..] == s[i + 1..];
  }

  /** Scanning from index `i`: a maximal run `s[i..j]` is the next run found. */
  lemma RunsAtWord(s: string, i: nat, j: nat, inRun: char -> bool)
    requires i < j <= |s|
    requires forall k :: i <= k < j ==> inRun(s[k])
    requires j == |s| || !inRun(s[j])
    ensures Runs(s[i..], inRun) == [s[i..j]] + Runs(s[j..], inRun)
  {
    assert s[i..] == s[i..j] + s[j..];
    RunsOfWord(s[i..j], s[j..], inRun);
  }

  /** Joining words with a separator made only of non-run characters, then scanning for runs,
      gives the words back: the round trip behind "split(join(ws)) == ws". */
  lemma {:induction false} RunsOfJoin(ws: seq<string>, sep: string, inRun: char -> bool)
    requires forall i :: 0 <= i < |ws| ==> ws[i] != [] && All(ws[i], inRun)
    requires sep != [] && forall k :: 0 <= k < |sep| ==> !inRun(sep[k])
    ensures Runs(Join(ws, sep), inRun) == ws
    decreases |ws|
  {
    if |ws| == 0 {
    } else if |ws| == 1 {
      RunsOfWord(ws[0], [], inRun);
      assert ws[0] + [] == ws[0];
    } else {
      var tail := Join(ws[1..], sep);
      calc {
        Runs(Join(ws, sep), inRun);
        { assert Join(ws, sep) == ws[0] + (sep + tail); }
        Runs(ws[0] + (sep + tail), inRun);
        { RunsOfWord(ws[0], sep + tail, inRun); }
        [ws[0]] + Runs(sep + tail, inRun);
        { RunsSkipGap(sep, tail, inRun); }
        [ws[0]] + Runs(tail, inRun);
        { RunsOfJoin(ws[1..], sep, inRun); }
        [ws[0]] + ws[1..];
      }
    }
  }

  /** `" ".join(ws).split() == ws` for non-empty whitespace-free words. */
  lemma SplitJoinRoundTrip(ws: seq<string>)
    requires forall i :: 0 <= i < |ws| ==> ws[i] != [] && All(ws[i], NotSpace)
    ensures Split(Join(ws, " ")) == ws
  {
    RunsOfJoin(ws, " ", NotSpace);
  }

  // ---------------------------------------------------------------------------
  // Case, prefixes and substrings

  function LowerChar(c: char): char {
    if 'A' <= c <= 'Z' then (c as int - 'A' as int + 'a' as int) as char else c
  }

  function UpperChar(c: char): char {
    if 'a' <= c <= 'z' then (c as int - 'a' as int + 'A' as int) as char else c
  }

  /** Python's `s.lower()` restricted to ASCII letters. */
  function Lower(s: string): (r: string)
    ensures |r| == |s|
    ensures forall i :: 0 <= i < |s| ==> r[i] == LowerChar(s[i])
  {
    seq(|s|, i requires 0 <= i < |s| => LowerChar(s[i]))
  }

  function Upper(s: string): (r: string)
    ensures |r| == |s|
    ensures forall i :: 0 <= i < |s| ==> r[i] == UpperChar(s[i])
  {
    seq(|s|, i requires 0 <= i < |s| => UpperChar(s[i]))
  }

  /** Lower-casing forgets the original case: upper- and lower-case spellings agree. */
  lemma LowerForgetsCase(s: string)
    ensures Lower(Upper(s)) == Lower(s)
    ensures Lower(Lower(s)) == Lower(s)
  {
  }

  /** Lower-casing distributes over concatenation. */
  lemma LowerConcat(a: string, b: string)
    ensures Lower(a + b) == Lower(a) + Lower(b)
  {
  }

  /** Lower-casing a joined string lower-cases each part. */
  lemma {:induction false} LowerJoin(ws: seq<string>, sep: string)
    ensures Lower(Join(ws, sep)) == Join(LowerAll(ws), Lower(sep))
    decreases |ws|
  {
    if |ws| > 1 {
      LowerConcat(ws[0] + sep, Join(ws[1..], sep));
      LowerConcat(ws[0], sep);
      assert LowerAll(ws)[1..] == LowerAll(ws[1..]);
      LowerJoin(ws[1..], sep);
    }
  }

  function LowerAll(ws: seq<string>): (r: seq<string>)
    ensures |r| == |ws|
    ensures forall i :: 0 <= i < |ws| ==> r[i] == Lower(ws[i])
  {
    seq(|ws|, i requires 0 <= i < |ws| => Lower(ws[i]))
  }

  /** Lower-casing keeps ASCII letters and digits within the class. */
  lemma LowerKeepsAlnum(w: string)
    requires All(w, IsAsciiAlnum)
    ensures All(Lower(w), IsAsciiAlnum)
  {
    forall k | 0 <= k < |w| ensures IsAsciiAlnum(Lower(w)[k]) {
      assert IsAsciiAlnum(w[k]);
    }
  }

  /** Python's `s.startswith(prefix)`. */
  predicate StartsWith(s: string, prefix: string) {
    prefix <= s
  }

  /** Python's `needle in hay` for strings. */
  predicate Contains(hay: string, needle: string) {
    exists i | 0 <= i <= |hay| - |needle| :: needle <= hay[i..]
  }

  /** Every string occurs in itself and contains the empty string. */
  lemma ContainsBasics(s: string)
    ensures Contains(s, s) && Contains(s, "")
  {
    assert "" <= s[0..];
  }
}
