/** The link matcher: the global, case-insensitive regular expression
      /https?:\/\/(www\.)?(twitter\.com|x\.com)\/[^\s]+/gi
    applied to a message with String.prototype.match, written out as a
    scanner over the message text.

    At any start offset the pattern has at most one way to match: the
    optional `s` and the optional `www.` never lead to a second path once
    the next literal character is taken into account, and since every
    character of the fixed head is non-white-space, the greedy `[^\s]+`
    always runs to the end of the white-space-free run the head starts. */
module LinkMatcher {
  import opened Wrappers
  import opened Text

  /** ECMAScript `\s`: the WhiteSpace and LineTerminator productions of
      ECMA-262 (sections 12.2 and 12.3), with the Unicode 15 members of
      the Space_Separator (Zs) category. */
  predicate IsWs(c: char)
    ensures IsWs(c) ==> !PatternChar(LowerChar(c))
  {
    || c == '\t' || c == '\n' || c == '\U{000B}' || c == '\U{000C}' || c == '\r'
    || c == ' ' || c == '\U{00A0}' || c == '\U{1680}' || '\U{2000}' <= c <= '\U{200A}'
    || c == '\U{2028}' || c == '\U{2029}' || c == '\U{202F}' || c == '\U{205F}'
    || c == '\U{3000}' || c == '\U{FEFF}'
  }

  /** Text character `c` matches the pattern character `p` (a lower-case
      ASCII letter or punctuation) under the `i` flag. Without the `u` flag,
      ECMAScript's Canonicalize never maps a non-ASCII character to an ASCII
      one, so only the ASCII case pair of a letter is equated with it. */
  predicate CiEq(c: char, p: char)
  {
    LowerChar(c) == p
  }

  /** `t` holds, at offset `i`, text matching the literal `lit` case-insensitively. */
  predicate CiPrefixAt(t: string, i: nat, lit: string)
  {
    i + |lit| <= |t| && Lower(t[i..i + |lit|]) == lit
  }

  /** The same, character by character. */
  lemma CiPrefixAtChars(t: string, i: nat, lit: string)
    ensures CiPrefixAt(t, i, lit) <==>
      i + |lit| <= |t| && forall k :: 0 <= k < |lit| ==> CiEq(t[i + k], lit[k])
  {
    if i + |lit| <= |t| && forall k :: 0 <= k < |lit| ==> CiEq(t[i + k], lit[k]) {
      assert Lower(t[i..i + |lit|]) == lit;
    }
  }

  /** The characters the fixed part of the pattern is made of. */
  predicate PatternChar(p: char)
  {
    'a' <= p <= 'z' || p == ':' || p == '/' || p == '.'
  }

  const Schemes: seq<string> := ["http", "https"]
  const WwwPrefixes: seq<string> := ["", "www."]
  const HostNames: seq<string> := ["twitter.com", "x.com"]

  /** The eight fixed heads `https?://(www.)?(twitter.com|x.com)/` of the pattern. */
  function Head(a: nat, b: nat, c: nat): string
    requires a < 2 && b < 2 && c < 2
  {
    Schemes[a] + "://" + WwwPrefixes[b] + HostNames[c] + "/"
  }

  /** `t` begins with one of the heads, `n` characters long. */
  ghost predicate HeadAt(t: string, n: nat)
  {
    exists a: nat, b: nat, c: nat | a < 2 && b < 2 && c < 2 ::
      |Head(a, b, c)| == n && CiPrefixAt(t, 0, Head(a, b, c))
  }

  /** The regex's walk through its fixed head at the start of `t`: the length
      of the head when it matches there. */
  function HeadLen(t: string): (r: Option<nat>)
    ensures r.Some? ==> 0 < r.value <= |t|
  {
    if !CiPrefixAt(t, 0, "http") then None
    else
      var a := if CiPrefixAt(t, 4, "s") then 5 else 4;
      if !CiPrefixAt(t, a, "://") then None
      else
        var b := if CiPrefixAt(t, a + 3, "www.") then a + 7 else a + 3;
        var c :=
          if CiPrefixAt(t, b, "twitter.com") then Some(b + 11)
          else if CiPrefixAt(t, b, "x.com") then Some(b + 5)
          else None;
        if c.Some? && CiPrefixAt(t, c.value, "/") then Some(c.value + 1) else None
  }

  /** End of the white-space-free run of `t` that starts at `j`: the first
      white-space offset at or after `j`, or the end of the text. */
  function RunEnd(t: string, j: nat): (r: nat)
    requires j <= |t|
    ensures j <= r <= |t|
    ensures forall k :: j <= k < r ==> !IsWs(t[k])
    ensures r == |t| || IsWs(t[r])
    decreases |t| - j
  {
    if j == |t| || IsWs(t[j]) then j else RunEnd(t, j + 1)
  }

  /** One attempt of the regex at offset `i`: the end of the match, if any. */
  function MatchAt(t: string, i: nat): (r: Option<nat>)
    requires i <= |t|
    ensures r.Some? ==> i < r.value <= |t|
  {
    match HeadLen(t[i..])
    case None => None
    case Some(n) =>
      if i + n < |t| && !IsWs(t[i + n]) then Some(RunEnd(t, i + n + 1)) else None
  }

  /** The pattern matches `t[i..e]` and, `[^\s]+` being greedy, `e` is as far
      as that match reaches. */
  ghost predicate OccursAt(t: string, i: nat, e: nat)
  {
    && i <= e <= |t|
    && (exists n: nat :: HeadAt(t[i..], n) && i + n < e)
    && (forall k :: i <= k < e ==> !IsWs(t[k]))
    && (e == |t| || IsWs(t[e]))
  }

  datatype Span = Span(start: nat, end: nat)

  /** The `g` flag's loop: from `from`, try the regex at each offset in turn;
      after a match, continue where it ended. */
  function FindAll(t: string, from: nat): (r: seq<Span>)
    requires from <= |t|
    ensures forall k :: 0 <= k < |r| ==> from <= r[k].start < r[k].end <= |t|
    decreases |t| - from
  {
    if from == |t| then []
    else
      match MatchAt(t, from)
      case Some(e) => [Span(from, e)] + FindAll(t, e)
      case None => FindAll(t, from + 1)
  }

  /** The substrings of `t` the spans delimit. */
  function Texts(t: string, r: seq<Span>): (ms: seq<string>)
    requires forall k :: 0 <= k < |r| ==> r[k].start <= r[k].end <= |t|
    ensures |ms| == |r|
  {
    seq(|r|, k requires 0 <= k < |r| => t[r[k].start..r[k].end])
  }

  /** String.prototype.match with a global regex: the matched substrings in
      order, or null (here None) when there is none. */
  function Match(t: string): (r: Option<seq<string>>)
    ensures r.Some? ==> 0 < |r.value|
    ensures r.Some? ==> forall k :: 0 <= k < |r.value| ==> 0 < |r.value[k]| <= |t|
  {
    var spans := FindAll(t, 0);
    if |spans| == 0 then None else Some(Texts(t, spans))
  }

  // Facts about the fixed head

  lemma CiPrefixConcat(t: string, i: nat, x: string, y: string)
    ensures CiPrefixAt(t, i, x + y) <==> CiPrefixAt(t, i, x) && CiPrefixAt(t, i + |x|, y)
  {
    CiPrefixAtChars(t, i, x + y);
    CiPrefixAtChars(t, i, x);
    CiPrefixAtChars(t, i + |x|, y);
    if CiPrefixAt(t, i, x) && CiPrefixAt(t, i + |x|, y) {
      forall k | 0 <= k < |x + y| ensures CiEq(t[i + k], (x + y)[k]) {
        if k >= |x| {
          assert t[i + k] == t[(i + |x|) + (k - |x|)];
        }
      }
    }
    if CiPrefixAt(t, i, x + y) {
      forall k | 0 <= k < |x| ensures CiEq(t[i + k], x[k]) {
        assert (x + y)[k] == x[k];
      }
      forall k | 0 <= k < |y| ensures CiEq(t[i + |x| + k], y[k]) {
        assert (x + y)[|x| + k] == y[k];
      }
    }
  }

  /** Matching a head is matching its five parts one after another. */
  lemma HeadParts(t: string, a: nat, b: nat, c: nat)
    requires a < 2 && b < 2 && c < 2
    ensures var s, w, h := |Schemes[a]|, |WwwPrefixes[b]|, |HostNames[c]|;
      CiPrefixAt(t, 0, Head(a, b, c)) <==>
        && CiPrefixAt(t, 0, Schemes[a])
        && CiPrefixAt(t, s, "://")
        && CiPrefixAt(t, s + 3, WwwPrefixes[b])
        && CiPrefixAt(t, s + 3 + w, HostNames[c])
        && CiPrefixAt(t, s + 3 + w + h, "/")
  {
    var s, w, h := Schemes[a], WwwPrefixes[b], HostNames[c];
    CiPrefixConcat(t, 0, s + "://" + w + h, "/");
    CiPrefixConcat(t, 0, s + "://" + w, h);
    CiPrefixConcat(t, 0, s + "://", w);
    CiPrefixConcat(t, 0, s, "://");
  }

  /** The scanner's walk through the head agrees with the pattern: it
      reports length `n` exactly when one of the eight heads, `n` characters
      long, begins `t`. */
  lemma HeadLenCorrect(t: string, n: nat)
    ensures HeadLen(t) == Some(n) <==> HeadAt(t, n)
  {
    if HeadLen(t) == Some(n) {
      HeadLenSound(t);
    }
    if HeadAt(t, n) {
      var a: nat, b: nat, c: nat :| a < 2 && b < 2 && c < 2 &&
        |Head(a, b, c)| == n && CiPrefixAt(t, 0, Head(a, b, c));
      HeadLenComplete(t, a, b, c);
    }
  }

  lemma HeadLenSound(t: string)
    requires HeadLen(t).Some?
    ensures HeadAt(t, HeadLen(t).value)
  {
    assert "https" == "http" + "s";
    CiPrefixConcat(t, 0, "http", "s");
    var a: nat := if CiPrefixAt(t, 4, "s") then 1 else 0;
    var b: nat := if CiPrefixAt(t, |Schemes[a]| + 3, "www.") then 1 else 0;
    var c: nat := if CiPrefixAt(t, |Schemes[a]| + 3 + |WwwPrefixes[b]|, "twitter.com") then 0 else 1;
    HeadParts(t, a, b, c);
    assert |Head(a, b, c)| == HeadLen(t).value;
  }

  lemma HeadLenComplete(t: string, a: nat, b: nat, c: nat)
    requires a < 2 && b < 2 && c < 2
    requires CiPrefixAt(t, 0, Head(a, b, c))
    ensures HeadLen(t) == Some(|Head(a, b, c)|)
  {
    assert "https" == "http" + "s";
    CiPrefixConcat(t, 0, "http", "s");
    HeadParts(t, a, b, c);
    var s, w := |Schemes[a]|, |WwwPrefixes[b]|;
    assert CiPrefixAt(t, 0, "http");
    assert CiEq(t[s + 0], "://"[0]);
    if a == 0 {
      assert !CiEq(t[4 + 0], "s"[0]);
    }
    assert CiEq(t[s + 3 + w + 0], HostNames[c][0]);
    if b == 0 {
      assert !CiEq(t[s + 3 + 0], "www."[0]);
    }
    if c == 1 {
      assert !CiEq(t[s + 3 + w + 0], "twitter.com"[0]);
    }
  }

  /** No character of a matched head is white space. */
  lemma HeadNotWs(t: string, n: nat)
    requires HeadAt(t, n)
    ensures n <= |t|
    ensures forall k :: 0 <= k < n ==> !IsWs(t[k])
  {
    var a: nat, b: nat, c: nat :| a < 2 && b < 2 && c < 2 &&
      |Head(a, b, c)| == n && CiPrefixAt(t, 0, Head(a, b, c));
    var h := Head(a, b, c);
    HeadPatternChars(a, b, c);
    CiPrefixAtChars(t, 0, h);
    forall k | 0 <= k < n ensures !IsWs(t[k]) {
      assert CiEq(t[k], h[k]) && PatternChar(h[k]);
    }
  }

  lemma HeadPatternChars(a: nat, b: nat, c: nat)
    requires a < 2 && b < 2 && c < 2
    ensures forall k :: 0 <= k < |Head(a, b, c)| ==> PatternChar(Head(a, b, c)[k])
  {
    var parts := [Schemes[a], "://", WwwPrefixes[b], HostNames[c], "/"];
    assert Head(a, b, c) == parts[0] + parts[1] + parts[2] + parts[3] + parts[4];
  }

  // The scanner against the regex's semantics

  /** One attempt at offset `i` succeeds with end `e` exactly when the
      pattern occurs at `i` with its greedy tail reaching `e`. */
  lemma MatchAtCorrect(t: string, i: nat, e: nat)
    requires i <= |t|
    ensures MatchAt(t, i) == Some(e) <==> OccursAt(t, i, e)
  {
    var tail := t[i..];
    if MatchAt(t, i) == Some(e) {
      var n := HeadLen(tail).value;
      HeadLenCorrect(tail, n);
      HeadNotWs(tail, n);
      forall k | i <= k < e ensures !IsWs(t[k]) {
        if k < i + n {
          assert t[k] == tail[k - i];
        }
      }
    }
    if OccursAt(t, i, e) {
      var n :| HeadAt(tail, n) && i + n < e;
      HeadLenCorrect(tail, n);
    }
  }

  /** Every span is a successful attempt of the regex at its start. */
  predicate AllMatch(t: string, r: seq<Span>)
  {
    forall k :: 0 <= k < |r| ==> r[k].start <= |t| && MatchAt(t, r[k].start) == Some(r[k].end)
  }

  /** The spans come in left-to-right order and do not overlap. */
  predicate Ordered(r: seq<Span>)
  {
    forall j, k :: 0 <= j < k < |r| ==> r[j].end <= r[k].start
  }

  /** Offset `p` lies inside one of the spans. */
  ghost predicate Covered(r: seq<Span>, p: nat)
  {
    exists k :: 0 <= k < |r| && r[k].start <= p < r[k].end
  }

  /** Every reported match is a successful attempt of the regex at its
      start offset. */
  lemma {:induction false} FindAllSound(t: string, from: nat)
    requires from <= |t|
    ensures AllMatch(t, FindAll(t, from))
    decreases |t| - from
  {
    var r := FindAll(t, from);
    if from < |t| {
      var m := MatchAt(t, from);
      if m.Some? {
        var rest := FindAll(t, m.value);
        assert r == [Span(from, m.value)] + rest;
        FindAllSound(t, m.value);
        forall k | 0 < k < |r| ensures MatchAt(t, r[k].start) == Some(r[k].end) {
          assert r[k] == rest[k - 1];
        }
      } else {
        assert r == FindAll(t, from + 1);
        FindAllSound(t, from + 1);
      }
    }
  }

  /** The matches come in left-to-right order and do not overlap. */
  lemma {:induction false} FindAllOrdered(t: string, from: nat)
    requires from <= |t|
    ensures Ordered(FindAll(t, from))
    decreases |t| - from
  {
    var r := FindAll(t, from);
    if from < |t| {
      var m := MatchAt(t, from);
      if m.Some? {
        var rest := FindAll(t, m.value);
        assert r == [Span(from, m.value)] + rest;
        FindAllOrdered(t, m.value);
        forall j, k | 0 <= j < k < |r| ensures r[j].end <= r[k].start {
          assert r[k] == rest[k - 1];
          if j > 0 {
            assert r[j] == rest[j - 1];
          }
        }
      } else {
        assert r == FindAll(t, from + 1);
        FindAllOrdered(t, from + 1);
      }
    }
  }

  /** Every offset at or after `from` where the regex would match lies
      inside one of the reported matches: the `g` loop misses no occurrence. */
  lemma {:induction false} FindAllComplete(t: string, from: nat, p: nat)
    requires from <= p < |t|
    requires MatchAt(t, p).Some?
    ensures Covered(FindAll(t, from), p)
    decreases |t| - from
  {
    var r := FindAll(t, from);
    var m := MatchAt(t, from);
    if m.Some? {
      var rest := FindAll(t, m.value);
      assert r == [Span(from, m.value)] + rest;
      if p < m.value {
        assert r[0].start <= p < r[0].end;
      } else {
        FindAllComplete(t, m.value, p);
        var k :| 0 <= k < |rest| && rest[k].start <= p < rest[k].end;
        assert r[k + 1] == rest[k];
      }
    } else {
      assert p != from;
      assert r == FindAll(t, from + 1);
      FindAllComplete(t, from + 1, p);
    }
  }

  // What String.prototype.match returns, stated without the scanner

  /** `r` lists the regex's matches in `t` from offset `from` on: each span
      is an occurrence with its greedy end, the spans are in order without
      overlap, and every occurrence starting at or after `from` lies inside
      one of them. */
  ghost predicate IsMatchList(t: string, from: nat, r: seq<Span>)
  {
    SpansOccur(t, from, r) && Ordered(r) && CoversFrom(t, from, r)
  }

  ghost predicate SpansOccur(t: string, from: nat, r: seq<Span>)
  {
    forall k :: 0 <= k < |r| ==> from <= r[k].start && OccursAt(t, r[k].start, r[k].end)
  }

  ghost predicate CoversFrom(t: string, from: nat, r: seq<Span>)
  {
    forall i, e :: from <= i && OccursAt(t, i, e) ==> Covered(r, i)
  }

  /** The scanner's result meets that description. */
  lemma FindAllIsMatchList(t: string, from: nat)
    requires from <= |t|
    ensures IsMatchList(t, from, FindAll(t, from))
  {
    var r := FindAll(t, from);
    FindAllSound(t, from);
    FindAllOrdered(t, from);
    forall k | 0 <= k < |r| ensures OccursAt(t, r[k].start, r[k].end) {
      MatchAtCorrect(t, r[k].start, r[k].end);
    }
    forall i, e | from <= i && OccursAt(t, i, e) ensures Covered(r, i) {
      MatchAtCorrect(t, i, e);
      FindAllComplete(t, from, i);
    }
  }

  /** An occurrence at `from` must be the first span of such a list. */
  lemma MatchListHead(t: string, from: nat, r: seq<Span>, e: nat)
    requires from <= |t|
    requires IsMatchList(t, from, r)
    requires MatchAt(t, from) == Some(e)
    ensures |r| > 0 && r[0] == Span(from, e)
  {
    MatchAtCorrect(t, from, e);
    assert Covered(r, from);
    var k :| 0 <= k < |r| && r[k].start <= from < r[k].end;
    assert k == 0;
    MatchAtCorrect(t, from, r[0].end);
  }

  /** Past its first span, such a list describes the rest of the text. */
  lemma MatchListTail(t: string, from: nat, r: seq<Span>)
    requires IsMatchList(t, from, r)
    requires |r| > 0
    ensures IsMatchList(t, r[0].end, r[1..])
  {
    SpansOccurTail(t, from, r);
    OrderedTail(r);
    CoversTail(t, from, r);
  }

  lemma SpansOccurTail(t: string, from: nat, r: seq<Span>)
    requires SpansOccur(t, from, r) && Ordered(r)
    requires |r| > 0
    ensures SpansOccur(t, r[0].end, r[1..])
  {
    forall j | 0 <= j < |r| - 1
      ensures r[0].end <= r[1..][j].start && OccursAt(t, r[1..][j].start, r[1..][j].end)
    {
      assert r[1..][j] == r[j + 1];
    }
  }

  lemma OrderedTail(r: seq<Span>)
    requires Ordered(r)
    requires |r| > 0
    ensures Ordered(r[1..])
  {
    forall j, k | 0 <= j < k < |r| - 1 ensures r[1..][j].end <= r[1..][k].start {
      assert r[1..][j] == r[j + 1] && r[1..][k] == r[k + 1];
    }
  }

  lemma CoversTail(t: string, from: nat, r: seq<Span>)
    requires |r| > 0
    requires CoversFrom(t, from, r) && from <= r[0].end
    ensures CoversFrom(t, r[0].end, r[1..])
  {
    forall i, e | r[0].end <= i && OccursAt(t, i, e) ensures Covered(r[1..], i) {
      assert Covered(r, i);
      var j :| 0 <= j < |r| && r[j].start <= i < r[j].end;
      assert r[1..][j - 1] == r[j];
    }
  }

  /** With no occurrence at `from`, such a list starts after `from`. */
  lemma MatchListSkip(t: string, from: nat, r: seq<Span>)
    requires from < |t|
    requires IsMatchList(t, from, r)
    requires MatchAt(t, from).None?
    ensures IsMatchList(t, from + 1, r)
  {
    forall j | 0 <= j < |r| ensures from + 1 <= r[j].start {
      MatchAtCorrect(t, r[j].start, r[j].end);
    }
    forall i, e | from + 1 <= i && OccursAt(t, i, e) ensures Covered(r, i) {
    }
  }

  lemma MatchListEmpty(t: string, r: seq<Span>)
    requires SpansOccur(t, |t|, r)
    ensures r == []
  {
    assert |r| > 0 ==> OccursAt(t, r[0].start, r[0].end);
  }

  /** No other list meets it: the description determines the matches. */
  lemma {:induction false} MatchListUnique(t: string, from: nat, r: seq<Span>)
    requires from <= |t|
    requires IsMatchList(t, from, r)
    ensures r == FindAll(t, from)
    decreases |t| - from
  {
    if from == |t| {
      MatchListEmpty(t, r);
    } else {
      var m := MatchAt(t, from);
      if m.Some? {
        MatchListHead(t, from, r, m.value);
        MatchListTail(t, from, r);
        MatchListUnique(t, m.value, r[1..]);
        FindAllCons(t, from, r, m.value);
      } else {
        MatchListSkip(t, from, r);
        MatchListUnique(t, from + 1, r);
        assert FindAll(t, from) == FindAll(t, from + 1);
      }
    }
  }

  lemma FindAllCons(t: string, from: nat, r: seq<Span>, e: nat)
    requires from < |t| && MatchAt(t, from) == Some(e)
    requires |r| > 0 && r[0] == Span(from, e) && r[1..] == FindAll(t, e)
    ensures r == FindAll(t, from)
  {
    assert r == [Span(from, e)] + r[1..];
  }

  /** `Match` is String.prototype.match of the regex: null exactly when the
      pattern occurs nowhere, and otherwise the texts of the one list of
      matches the regex semantics admits. */
  lemma MatchCorrect(t: string, r: seq<Span>)
    requires IsMatchList(t, 0, r)
    ensures forall k :: 0 <= k < |r| ==> r[k].start <= r[k].end <= |t|
    ensures Match(t) == if |r| == 0 then None else Some(Texts(t, r))
  {
    MatchListUnique(t, 0, r);
  }

  /** Null exactly when no occurrence exists. */
  lemma MatchNullIffNoOccurrence(t: string)
    ensures Match(t).None? <==> forall i, e :: !OccursAt(t, i, e)
  {
    var r := FindAll(t, 0);
    FindAllIsMatchList(t, 0);
    if |r| > 0 {
      assert OccursAt(t, r[0].start, r[0].end);
    }
  }

  // Each match on its own

  /** What the regex matches, as a whole string: one of the heads, at least
      one more character, and no white space anywhere. */
  ghost predicate IsLink(m: string)
  {
    && (exists n: nat :: HeadAt(m, n) && n < |m|)
    && (forall j :: 0 <= j < |m| ==> !IsWs(m[j]))
  }

  lemma HeadAtPrefix(t: string, u: string, n: nat)
    requires HeadAt(t, n)
    requires n <= |u| <= |t| && u == t[..|u|]
    ensures HeadAt(u, n)
  {
    var a: nat, b: nat, c: nat :| a < 2 && b < 2 && c < 2 &&
      |Head(a, b, c)| == n && CiPrefixAt(t, 0, Head(a, b, c));
    assert u[0..n] == t[0..n];
  }

  lemma HeadAtExtend(u: string, t: string, n: nat)
    requires HeadAt(u, n)
    requires |u| <= |t| && u == t[..|u|]
    ensures HeadAt(t, n)
  {
    var a: nat, b: nat, c: nat :| a < 2 && b < 2 && c < 2 &&
      |Head(a, b, c)| == n && CiPrefixAt(u, 0, Head(a, b, c));
    assert u[0..n] == t[0..n];
  }

  /** A link standing in the text, followed by white space or the end, is
      matched exactly. */
  lemma LinkMatchesAt(t: string, i: nat, m: string)
    requires IsLink(m)
    requires i + |m| <= |t| && t[i..i + |m|] == m
    requires i + |m| == |t| || IsWs(t[i + |m|])
    ensures MatchAt(t, i) == Some(i + |m|)
  {
    var n: nat :| HeadAt(m, n) && n < |m|;
    assert m == t[i..][..|m|];
    HeadAtExtend(m, t[i..], n);
    forall k | i <= k < i + |m| ensures !IsWs(t[k]) {
      assert t[k] == m[k - i];
    }
    MatchAtCorrect(t, i, i + |m|);
  }

  /** The text of an occurrence is a link. */
  lemma OccurrenceIsLink(t: string, i: nat, e: nat)
    requires OccursAt(t, i, e)
    ensures IsLink(t[i..e])
  {
    var n :| HeadAt(t[i..], n) && i + n < e;
    HeadAtPrefix(t[i..], t[i..e], n);
  }

  /** Every string `Match` returns is a link. */
  lemma MatchedTextsAreLinks(t: string)
    ensures Match(t).Some? ==>
      forall k :: 0 <= k < |Match(t).value| ==> IsLink(Match(t).value[k])
  {
    var r := FindAll(t, 0);
    FindAllIsMatchList(t, 0);
    if |r| > 0 {
      var ms := Match(t).value;
      forall k | 0 <= k < |ms| ensures IsLink(ms[k]) {
        OccurrenceIsLink(t, r[k].start, r[k].end);
      }
    }
  }

  // The quirks of the pattern, on examples

  /** A lower-case `https://x.com/` at `i`, followed by white-space-free
      text up to `e` and then white space or the end, is matched from `i`
      to `e`. */
  lemma LinkAt(t: string, i: nat, e: nat)
    requires i + 14 < e <= |t| && t[i..i + 14] == "https://x.com/"
    requires forall k :: i + 14 <= k < e ==> !IsWs(t[k])
    requires e == |t| || IsWs(t[e])
    ensures MatchAt(t, i) == Some(e)
  {
    assert Head(1, 0, 1) == "https://x.com/";
    assert t[i..][0..|Head(1, 0, 1)|] == Head(1, 0, 1);
    LowerUnchanged(Head(1, 0, 1));
    HeadLenComplete(t[i..], 1, 0, 1);
  }

  /** The pattern is not anchored: a link glued to the end of a word is
      still found, without the word. */
  lemma MatchMidWord(t: string)
    requires t == "xhttps://x.com/a"
    ensures Match(t) == Some(["https://x.com/a"])
  {
    var spans := [Span(1, 16)];
    assert FindAll(t, 0) == spans by {
      assert MatchAt(t, 0) == None by {
        assert Lower(t[0..][0..4])[0] == 'x';
      }
      LinkAt(t, 1, |t|);
      assert FindAll(t, 16) == [];
    }
    assert Texts(t, spans) == ["https://x.com/a"] by {
      assert Texts(t, spans)[0] == t[1..16] == "https://x.com/a";
    }
  }

  /** `[^\s]+` is greedy: punctuation after a link up to the next white
      space is part of the match. */
  lemma MatchGreedyTail(t: string)
    requires t == "(https://x.com/a)"
    ensures Match(t) == Some(["https://x.com/a)"])
  {
    var spans := [Span(1, 17)];
    assert FindAll(t, 0) == spans by {
      assert MatchAt(t, 0) == None by {
        assert Lower(t[0..][0..4])[0] == '(';
      }
      LinkAt(t, 1, |t|);
      assert FindAll(t, 17) == [];
    }
    assert Texts(t, spans) == ["https://x.com/a)"] by {
      assert Texts(t, spans)[0] == t[1..17] == "https://x.com/a)";
    }
  }

  /** Two links with no white space between them are one match. */
  lemma MatchAdjacentLinks(a: string, b: string)
    requires IsLink(a) && IsLink(b)
    ensures Match(a + b) == Some([a + b])
  {
    var t := a + b;
    GluedIsLink(a, b);
    assert t[0..0 + |t|] == t;
    LinkMatchesAt(t, 0, t);
    MatchOfOne(t);
  }

  /** A link followed directly by white-space-free text is one link. */
  lemma GluedIsLink(a: string, b: string)
    requires IsLink(a) && IsLink(b)
    ensures IsLink(a + b)
  {
    var t := a + b;
    var n: nat :| HeadAt(a, n) && n < |a|;
    assert a == t[..|a|];
    HeadAtExtend(a, t, n);
    forall j | 0 <= j < |t| ensures !IsWs(t[j]) {
      if j < |a| {
        assert t[j] == a[j];
      } else {
        assert t[j] == b[j - |a|];
      }
    }
  }

  /** A match that spans the whole text is the only one. */
  lemma MatchOfOne(t: string)
    requires MatchAt(t, 0) == Some(|t|)
    ensures Match(t) == Some([t])
  {
    var spans := [Span(0, |t|)];
    assert FindAll(t, 0) == spans by {
      assert FindAll(t, |t|) == [];
    }
    assert Texts(t, spans) == [t] by {
      assert Texts(t, spans)[0] == t[0..|t|] == t;
    }
  }

  /** The `g` loop steps over white space. */
  lemma FindAllSkipsWs(t: string, i: nat)
    requires i < |t| && IsWs(t[i])
    ensures FindAll(t, i) == FindAll(t, i + 1)
  {
    assert !CiPrefixAt(t[i..], 0, "http") by {
      CiPrefixAtChars(t[i..], 0, "http");
      assert !CiEq(t[i..][0 + 0], "http"[0]);
    }
  }

  /** Two links separated by a space are matched as two links, in order. */
  lemma MatchTwoLinks(a: string, b: string)
    requires IsLink(a) && IsLink(b)
    ensures Match(a + " " + b) == Some([a, b])
  {
    var t := a + " " + b;
    LinkBeforeSpace(a, b);
    LinkAfterSpace(a, b);
    FindAllTwo(t, a, b);
    MatchOfTwo(t, a, b);
  }

  lemma LinkBeforeSpace(a: string, b: string)
    requires IsLink(a)
    ensures MatchAt(a + " " + b, 0) == Some(|a|)
  {
    var t := a + " " + b;
    SpaceJoined(t, a, b);
    LinkMatchesAt(t, 0, a);
  }

  lemma LinkAfterSpace(a: string, b: string)
    requires IsLink(b)
    ensures |a| + 1 <= |a + " " + b|
    ensures MatchAt(a + " " + b, |a| + 1) == Some(|a| + 1 + |b|)
  {
    var t := a + " " + b;
    SpaceJoined(t, a, b);
    LinkMatchesAt(t, |a| + 1, b);
  }

  lemma SpaceJoined(t: string, a: string, b: string)
    requires t == a + " " + b
    ensures 0 + |a| < |t| && t[0..0 + |a|] == a && IsWs(t[0 + |a|])
    ensures |a| < |t| && IsWs(t[|a|])
    ensures |a| + 1 + |b| == |t| && t[|a| + 1..|a| + 1 + |b|] == b
  {
  }

  /** The `g` loop over two matches separated by one white-space character. */
  lemma FindAllTwo(t: string, a: string, b: string)
    requires t == a + " " + b
    requires MatchAt(t, 0) == Some(|a|)
    requires MatchAt(t, |a| + 1) == Some(|a| + 1 + |b|)
    ensures FindAll(t, 0) == [Span(0, |a|), Span(|a| + 1, |a| + 1 + |b|)]
  {
    SpaceJoined(t, a, b);
    var rest := FindAll(t, |a| + 1);
    assert rest == [Span(|a| + 1, |t|)] by {
      assert rest == [Span(|a| + 1, |t|)] + FindAll(t, |t|);
    }
    assert FindAll(t, |a|) == rest by {
      FindAllSkipsWs(t, |a|);
    }
  }

  lemma MatchOfTwo(t: string, a: string, b: string)
    requires t == a + " " + b
    requires FindAll(t, 0) == [Span(0, |a|), Span(|a| + 1, |a| + 1 + |b|)]
    ensures Match(t) == Some([a, b])
  {
    var spans := FindAll(t, 0);
    assert Texts(t, spans) == [a, b] by {
      assert Texts(t, spans)[0] == t[0..|a|] == a;
      assert Texts(t, spans)[1] == t[|a| + 1..|a| + 1 + |b|] == b;
    }
  }
}
