/** The decision part of the `messageCreate` handler: which messages get a
    reply, and what the reply says. The Discord calls around it (suppressing
    the embeds, posting the reply, logging) are effects and are not part of
    this model; the reply text is the value this module computes. */
module MessageHandler {
  import opened Wrappers
  import opened Text
  import opened LinkMatcher
  import opened UrlRewriter

  /** `urls.map(convertToVxTwitter)` inside the handler's single `try`: the
      first link that fails to convert throws, and the whole batch is lost. */
  function ConvertAll(ms: seq<string>): (r: Option<seq<string>>)
    ensures r.Some? ==> |r.value| == |ms|
    ensures r.Some? ==> forall k :: 0 <= k < |ms| ==> ConvertToVxTwitter(ms[k]) == Some(r.value[k])
    ensures r.None? ==> exists k :: 0 <= k < |ms| && ConvertToVxTwitter(ms[k]).None?
  {
    if |ms| == 0 then Some([])
    else
      match ConvertToVxTwitter(ms[0])
      case None => None
      case Some(v) =>
        match ConvertAll(ms[1..])
        case None => None
        case Some(vs) => Some([v] + vs)
  }

  /** The reply the handler posts for a message, or None when it posts
      nothing: messages from bots are ignored, messages without a link are
      ignored, and otherwise every link is converted and the results are
      joined one per line. */
  function Reply(authorIsBot: bool, content: string): (r: Option<string>)
    ensures authorIsBot ==> r.None?
  {
    if authorIsBot then None
    else
      match Match(content)
      case None => None
      case Some(urls) =>
        if |urls| == 0 then None
        else
          match ConvertAll(urls)
          case None => None
          case Some(vxUrls) => Some(Join(vxUrls, '\n'))
  }

  // Matched links always convert

  /** Every string the matcher returns parses, with one of the four hosts
      the pattern allows, in lower case. */
  lemma LinkParses(m: string)
    requires IsLink(m)
    ensures Parse(m).Some?
    ensures Parse(m).value.host in {"twitter.com", "x.com", "www.twitter.com", "www.x.com"}
  {
    var n: nat :| HeadAt(m, n) && n < |m|;
    var a: nat, b: nat, c: nat :| a < 2 && b < 2 && c < 2 &&
      |Head(a, b, c)| == n && CiPrefixAt(m, 0, Head(a, b, c));
    HeadParts(m, a, b, c);
    HeadPieces(m, Schemes[a], WwwPrefixes[b], HostNames[c]);
  }

  /** The five pieces of a head, matched one after another, are what the
      URL parser takes apart: the scheme, `://`, the host, and the `/` that
      starts the path. */
  lemma HeadPieces(m: string, s: string, w: string, h: string)
    requires s == "http" || s == "https"
    requires w == "" || w == "www."
    requires h == "twitter.com" || h == "x.com"
    requires CiPrefixAt(m, 0, s) && CiPrefixAt(m, |s|, "://")
    requires CiPrefixAt(m, |s| + 3, w) && CiPrefixAt(m, |s| + 3 + |w|, h)
    requires CiPrefixAt(m, |s| + 3 + |w| + |h|, "/")
    ensures Parse(m).Some? && Parse(m).value.host == w + h
    ensures w + h in {"twitter.com", "x.com", "www.twitter.com", "www.x.com"}
  {
    var hp := w + h;
    var rest := m[|s| + 3..];
    HostPiece(m, s, w, h);
    HostAt(rest, hp);
    SchemeAt(m, s);
    assert ParseAuthority(s, rest) == Some(ParsePath(s, hp, rest[|hp|..]));
  }

  /** The host part of a head, seen from the end of `scheme://`. */
  lemma HostPiece(m: string, s: string, w: string, h: string)
    requires w == "" || w == "www."
    requires h == "twitter.com" || h == "x.com"
    requires CiPrefixAt(m, |s|, "://")
    requires CiPrefixAt(m, |s| + 3, w) && CiPrefixAt(m, |s| + 3 + |w|, h)
    requires CiPrefixAt(m, |s| + 3 + |w| + |h|, "/")
    ensures CiPrefixAt(m[|s| + 3..], 0, w + h) && CiPrefixAt(m[|s| + 3..], |w + h|, "/")
    ensures w + h in {"twitter.com", "x.com", "www.twitter.com", "www.x.com"}
  {
    var hp := w + h;
    assert CiPrefixAt(m[|s| + 3..], 0, hp) by {
      CiPrefixConcat(m, |s| + 3, w, h);
      CiPrefixShift(m, |s| + 3, 0, hp);
    }
    assert CiPrefixAt(m[|s| + 3..], |hp|, "/") by {
      assert |s| + 3 + |hp| == |s| + 3 + |w| + |h|;
      CiPrefixShift(m, |s| + 3, |hp|, "/");
    }
    if w == "" {
      assert hp == h;
    } else if h == "x.com" {
      assert hp == "www.x.com";
    } else {
      assert hp == "www.twitter.com";
    }
  }

  /** The matcher's scheme part, case-insensitively `http` or `https` and
      followed by `://`, is what the URL parser takes as the scheme. */
  lemma SchemeAt(m: string, s: string)
    requires s == "http" || s == "https"
    requires CiPrefixAt(m, 0, s) && CiPrefixAt(m, |s|, "://")
    ensures Parse(m) == ParseAuthority(s, m[|s| + 3..])
  {
    assert IndexOf(m, ':') == |s| by {
      CiPrefixAtChars(m, 0, s);
      CiPrefixAtChars(m, |s|, "://");
      forall k | 0 <= k < |s| ensures m[k] != ':' {
        assert CiEq(m[0 + k], s[k]);
      }
      assert CiEq(m[|s| + 0], "://"[0]);
    }
    assert m[|s| + 1] == '/' && m[|s| + 2] == '/' by {
      CiPrefixAtChars(m, |s|, "://");
      assert CiEq(m[|s| + 1], "://"[1]);
      assert CiEq(m[|s| + 2], "://"[2]);
    }
    assert Lower(m[..|s|]) == s by {
      assert m[..|s|] == m[0..0 + |s|];
    }
  }

  /** The matcher's host part, case-insensitively one of the four hosts and
      followed by `/`, is what the URL parser takes as the host. */
  lemma HostAt(rest: string, hp: string)
    requires hp in {"twitter.com", "x.com", "www.twitter.com", "www.x.com"}
    requires CiPrefixAt(rest, 0, hp) && CiPrefixAt(rest, |hp|, "/")
    ensures IndexOf(rest, '/') == |hp|
    ensures ValidHost(rest[..|hp|]) && Lower(rest[..|hp|]) == hp
  {
    CiPrefixAtChars(rest, 0, hp);
    CiPrefixAtChars(rest, |hp|, "/");
    assert forall k :: 0 <= k < |hp| ==> 'a' <= hp[k] <= 'z' || hp[k] == '.';
    forall k | 0 <= k < |hp| ensures rest[k] != '/' && HostChar(rest[k]) {
      assert CiEq(rest[0 + k], hp[k]);
    }
    assert CiEq(rest[|hp| + 0], "/"[0]);
    assert rest[..|hp|] == rest[0..0 + |hp|];
    CaseOfKnownHostValid(rest[..|hp|], hp);
  }

  lemma CaseOfKnownHostValid(x: string, hp: string)
    requires hp in {"twitter.com", "x.com", "www.twitter.com", "www.x.com"}
    requires |x| > 0 && (forall k :: 0 <= k < |x| ==> HostChar(x[k])) && Lower(x) == hp
    ensures ValidHost(x)
  {
    KnownHostsValid(hp);
    HostLower(x);
  }

  lemma KnownHostsValid(hp: string)
    requires hp in {"twitter.com", "x.com", "www.twitter.com", "www.x.com"}
    ensures ValidHost(hp)
  {
    if hp == "twitter.com" {
      KnownHostValid(hp, 8);
    } else if hp == "x.com" {
      KnownHostValid(hp, 2);
    } else if hp == "www.twitter.com" {
      KnownHostValid(hp, 12);
    } else {
      KnownHostValid(hp, 6);
    }
  }

  lemma CiPrefixShift(t: string, i: nat, j: nat, lit: string)
    requires i <= |t| && CiPrefixAt(t, i + j, lit)
    ensures CiPrefixAt(t[i..], j, lit)
  {
    assert t[i..][j..j + |lit|] == t[i + j..i + j + |lit|];
  }

  /** Every link the matcher returns converts, so the handler's `try` never
      fails on the conversion; the result has the target host and no query,
      and keeps the link's scheme (lower-cased), path and fragment. */
  lemma LinkConverts(m: string)
    requires IsLink(m)
    ensures ConvertToVxTwitter(m).Some?
    ensures Parse(ConvertToVxTwitter(m).value) == Some(Rewritten(Parse(m).value))
    ensures '\n' !in ConvertToVxTwitter(m).value
  {
    LinkParses(m);
    ConvertRewrites(m, Parse(m).value);
    assert '\n' !in m by {
      assert forall j :: 0 <= j < |m| ==> m[j] != '\n';
    }
    ConvertKeepsOneLine(m);
  }

  // The reply

  /** A message from a human gets no reply exactly when it holds no
      occurrence of the pattern. */
  lemma ReplyNoneIffNoLink(content: string)
    ensures Reply(false, content).None? <==> forall i, e :: !OccursAt(content, i, e)
  {
    MatchNullIffNoOccurrence(content);
    if Match(content).Some? {
      var urls := Match(content).value;
      MatchedTextsAreLinks(content);
      AllLinksConvert(urls);
    }
  }

  lemma AllLinksConvert(urls: seq<string>)
    requires forall k :: 0 <= k < |urls| ==> IsLink(urls[k])
    ensures ConvertAll(urls).Some?
  {
    forall k | 0 <= k < |urls| ensures ConvertToVxTwitter(urls[k]).Some? {
      LinkConverts(urls[k]);
    }
  }

  /** The reply has one line per match, in match order, and line `k` is the
      `k`-th match rewritten: it parses to that link's URL with the target
      host and without the query. */
  lemma ReplyLines(content: string)
    requires Reply(false, content).Some?
    ensures Match(content).Some?
    ensures var lines := Split(Reply(false, content).value, '\n');
      var urls := Match(content).value;
      && |lines| == |urls|
      && forall k :: 0 <= k < |urls| ==>
        && ConvertToVxTwitter(urls[k]) == Some(lines[k])
        && Parse(lines[k]) == Some(Rewritten(Parse(urls[k]).value))
  {
    var urls := Match(content).value;
    var vxUrls := ConvertAll(urls).value;
    MatchedTextsAreLinks(content);
    forall k | 0 <= k < |urls|
      ensures '\n' !in vxUrls[k]
      ensures Parse(vxUrls[k]) == Some(Rewritten(Parse(urls[k]).value))
    {
      LinkConverts(urls[k]);
    }
    SplitJoin(vxUrls, '\n');
  }

  // The whole decision, on examples

  /** The reply when the matches are known and all of them convert. */
  lemma ReplyOf(t: string, urls: seq<string>, vxUrls: seq<string>)
    requires Match(t) == Some(urls) && |urls| > 0
    requires ConvertAll(urls) == Some(vxUrls)
    ensures Reply(false, t) == Some(Join(vxUrls, '\n'))
  {
  }

  lemma ConvertAllCons(a: string, rest: seq<string>, va: string, vs: seq<string>)
    requires ConvertToVxTwitter(a) == Some(va) && ConvertAll(rest) == Some(vs)
    ensures ConvertAll([a] + rest) == Some([va] + vs)
  {
    assert ([a] + rest)[0] == a && ([a] + rest)[1..] == rest;
  }

  lemma ConvertAllOne(a: string, va: string)
    requires ConvertToVxTwitter(a) == Some(va)
    ensures ConvertAll([a]) == Some([va])
  {
    assert ConvertAll([]) == Some([]);
    ConvertAllCons(a, [], va, []);
    assert [a] + [] == [a] && [va] + [] == [va];
  }

  lemma ConvertAllTwo(a: string, b: string, va: string, vb: string)
    requires ConvertToVxTwitter(a) == Some(va) && ConvertToVxTwitter(b) == Some(vb)
    ensures ConvertAll([a, b]) == Some([va, vb])
  {
    ConvertAllOne(b, vb);
    ConvertAllCons(a, [b], va, [vb]);
    assert [a] + [b] == [a, b] && [va] + [vb] == [va, vb];
  }

  /** A message with one link gets that link back, rewritten. */
  lemma ReplyOneLink(t: string)
    requires t == "https://x.com/a?s=20"
    ensures Reply(false, t) == Some("https://vxtwitter.com/a")
  {
    assert Match(t) == Some([t]) by {
      var spans := [Span(0, |t|)];
      assert FindAll(t, 0) == spans by {
        LinkAt(t, 0, |t|);
        assert FindAll(t, |t|) == [];
      }
      assert Texts(t, spans) == [t] by {
        assert Texts(t, spans)[0] == t[0..|t|] == t;
      }
    }
    ConvertDropsQuery(t);
    ConvertAllOne(t, "https://vxtwitter.com/a");
    ReplyOf(t, [t], ["https://vxtwitter.com/a"]);
  }

  /** Two links separated by a space give a reply of two lines: the first
      link rewritten, then the second. */
  lemma ReplyTwoLinks(a: string, b: string)
    requires IsLink(a) && IsLink(b)
    ensures ConvertToVxTwitter(a).Some? && ConvertToVxTwitter(b).Some?
    ensures Reply(false, a + " " + b) == Some(ConvertToVxTwitter(a).value + "\n" + ConvertToVxTwitter(b).value)
  {
    var t := a + " " + b;
    MatchTwoLinks(a, b);
    LinkConverts(a);
    LinkConverts(b);
    var vx := [ConvertToVxTwitter(a).value, ConvertToVxTwitter(b).value];
    ConvertAllTwo(a, b, vx[0], vx[1]);
    ReplyOf(t, [a, b], vx);
    assert Join(vx, '\n') == vx[0] + "\n" + vx[1] by {
      assert vx[1..] == [vx[1]];
    }
  }
}
