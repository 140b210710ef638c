/** String helpers shared by the matcher, the URL model and the handler:
    searching for a character, cutting a string at a delimiter, ASCII
    lower-casing, and Array.prototype.join with its inverse. */
module Text {
  import opened Wrappers

  /** Position of the first `c` in `s`, or `|s|` when there is none. */
  function IndexOf(s: string, c: char): (r: nat)
    ensures r <= |s|
    ensures forall k :: 0 <= k < r ==> s[k] != c
    ensures r < |s| ==> s[r] == c
  {
    if |s| == 0 then 0
    else if s[0] == c then 0
    else 1 + IndexOf(s[1..], c)
  }

  /** `b`, followed by `c` and `a`'s value when `a` is present. */
  function Attach(b: string, c: char, a: Option<string>): string
  {
    match a
    case None => b
    case Some(x) => b + [c] + x
  }

  /** Splits `s` at the first `c`: the text before it and, when `c` occurs,
      the text after it. */
  function Cut(s: string, c: char): (r: (string, Option<string>))
    ensures c !in r.0
    ensures Attach(r.0, c, r.1) == s
  {
    var i := IndexOf(s, c);
    if i == |s| then (s, None)
    else
      assert s == s[..i] + [c] + s[i + 1..];
      (s[..i], Some(s[i + 1..]))
  }

  /** Cutting at the first `c` undoes attaching at `c` when `c` does not
      occur in the front part. */
  lemma CutAttach(b: string, c: char, a: Option<string>)
    requires c !in b
    ensures Cut(Attach(b, c, a), c) == (b, a)
  {
    var s := Attach(b, c, a);
    match a
    case None =>
      assert IndexOf(s, c) == |s|;
    case Some(x) =>
      assert s[|b|] == c;
      assert IndexOf(s, c) == |b|;
      assert s[..|b|] == b;
      assert s[|b| + 1..] == x;
  }

  /** ASCII lower-casing, the only case mapping URL schemes and ASCII hosts
      undergo. */
  function LowerChar(c: char): char
  {
    if 'A' <= c <= 'Z' then (c as int + 32) as char else c
  }

  function Lower(s: string): (r: string)
    ensures |r| == |s|
  {
    seq(|s|, k requires 0 <= k < |s| => LowerChar(s[k]))
  }

  lemma LowerUnchanged(s: string)
    requires forall k :: 0 <= k < |s| ==> !('A' <= s[k] <= 'Z')
    ensures Lower(s) == s
  {
  }

  /** `xs` separated by `sep`, as Array.prototype.join does it. */
  function Join(xs: seq<string>, sep: char): string
  {
    if |xs| == 0 then ""
    else if |xs| == 1 then xs[0]
    else xs[0] + [sep] + Join(xs[1..], sep)
  }

  /** When no element holds `sep`, the joined text holds one `sep` fewer
      than there are elements. */
  lemma {:induction false} JoinSeparators(xs: seq<string>, sep: char)
    requires forall k :: 0 <= k < |xs| ==> sep !in xs[k]
    ensures multiset(Join(xs, sep))[sep] == if |xs| == 0 then 0 else |xs| - 1
  {
    if |xs| > 1 {
      JoinSeparators(xs[1..], sep);
      assert multiset(Join(xs, sep)) == multiset(xs[0]) + multiset([sep]) + multiset(Join(xs[1..], sep));
    }
  }

  /** The pieces of `s` between occurrences of `sep`, as
      String.prototype.split does it with a one-character separator. */
  function Split(s: string, sep: char): (r: seq<string>)
    ensures |r| > 0
    ensures forall k :: 0 <= k < |r| ==> sep !in r[k]
    decreases |s|
  {
    var (before, after) := Cut(s, sep);
    match after
    case None => [before]
    case Some(rest) => [before] + Split(rest, sep)
  }

  /** Splitting a joined list gives the list back when no element contains
      the separator and the list is not empty. */
  lemma {:induction false} SplitJoin(xs: seq<string>, sep: char)
    requires |xs| > 0
    requires forall k :: 0 <= k < |xs| ==> sep !in xs[k]
    ensures Split(Join(xs, sep), sep) == xs
  {
    if |xs| == 1 {
      CutAttach(xs[0], sep, None);
    } else {
      var rest := Join(xs[1..], sep);
      CutAttach(xs[0], sep, Some(rest));
      SplitJoin(xs[1..], sep);
    }
  }
}
