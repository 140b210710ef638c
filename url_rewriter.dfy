/** The URL rewriter `convertToVxTwitter`: parse the link with the WHATWG URL
    parser, assign `hostname` and `search` on the parsed object, and
    serialise it again.

    The URL is a record and the two setters are record updates. Parsing is
    modelled for the hierarchical `http`/`https` shape `scheme://host/…` with
    a plain ASCII domain as host and no userinfo or port, which is every
    string the link matcher returns; the path, query and fragment are kept
    as written (see README.md for the normalisation this leaves out). */
module UrlRewriter {
  import opened Wrappers
  import opened Text

  datatype Url = Url(
    scheme: string,
    host: string,
    path: string,
    query: Option<string>,
    fragment: Option<string>)

  /** The host every link is rewritten to. */
  const TargetHost: string := "vxtwitter.com"

  predicate HostChar(c: char)
  {
    'a' <= c <= 'z' || 'A' <= c <= 'Z' || '0' <= c <= '9' || c == '-' || c == '.'
  }

  predicate Letter(c: char)
  {
    'a' <= c <= 'z' || 'A' <= c <= 'Z'
  }

  /** Where the last `.`-separated label of `h` begins. */
  function LastLabelStart(h: string): (r: nat)
    ensures r <= |h|
  {
    if |h| == 0 || h[|h| - 1] == '.' then |h|
    else LastLabelStart(h[..|h| - 1])
  }

  /** The last label runs from `LastLabelStart(h)` to the end without a
      dot, and a dot comes just before it unless it starts the host. */
  lemma {:induction false} LastLabelStartSpec(h: string)
    ensures forall k :: LastLabelStart(h) <= k < |h| ==> h[k] != '.'
    ensures 0 < LastLabelStart(h) ==> h[LastLabelStart(h) - 1] == '.'
  {
    if |h| == 0 || h[|h| - 1] == '.' {
    } else {
      var p := h[..|h| - 1];
      LastLabelStartSpec(p);
      assert forall k :: 0 <= k < |p| ==> p[k] == h[k];
    }
  }

  /** A host the URL Standard keeps as an ASCII domain: letters, digits,
      `-` and `.`, with a last label that starts with a letter. A host whose
      last label is empty or starts with a digit is left out: the standard's
      "ends in a number" test hands some of those (`127.1`, `a.1`, `a.0x`) to
      its IPv4 parser, which rewrites or rejects them. */
  predicate ValidHost(h: string)
  {
    && |h| > 0
    && (forall k :: 0 <= k < |h| ==> HostChar(h[k]))
    && LastLabelStart(h) < |h| && Letter(h[LastLabelStart(h)])
  }

  /** The URLs the parser produces: a lower-case special scheme and host, a
      path starting with `/` that the query and fragment delimiters end,
      and a query that the fragment delimiter ends. */
  predicate WellFormed(u: Url)
  {
    && (u.scheme == "http" || u.scheme == "https")
    && ValidHost(u.host) && Lower(u.host) == u.host
    && |u.path| > 0 && u.path[0] == '/' && '?' !in u.path && '#' !in u.path
    && (u.query.Some? ==> '#' !in u.query.value)
  }

  /** WHATWG basic URL parsing, on the shape described above: the scheme is
      everything before the first `:` and is lower-cased; after `//` the
      host runs up to the first `/` and is lower-cased; the path runs up to
      the first `?` or `#`; the query runs from that `?` up to the first
      `#`; the fragment is everything after the first `#`, `?` included. */
  function Parse(s: string): (r: Option<Url>)
    ensures r.Some? ==> WellFormed(r.value)
  {
    var colon := IndexOf(s, ':');
    var scheme := Lower(s[..colon]);
    if colon == |s| || (scheme != "http" && scheme != "https") then None
    else if !(colon + 3 <= |s| && s[colon + 1] == '/' && s[colon + 2] == '/') then None
    else ParseAuthority(scheme, s[colon + 3..])
  }

  /** The part after `scheme://`: the host, then the path and what follows. */
  function ParseAuthority(scheme: string, rest: string): (r: Option<Url>)
    requires scheme == "http" || scheme == "https"
    ensures r.Some? ==> WellFormed(r.value)
  {
    var slash := IndexOf(rest, '/');
    var host := rest[..slash];
    if slash == |rest| || !ValidHost(host) then None
    else
      LowerHost(host);
      Some(ParsePath(scheme, Lower(host), rest[slash..]))
  }

  /** The part from the first `/` on: path, query and fragment. */
  function ParsePath(scheme: string, host: string, tail: string): (u: Url)
    requires |tail| > 0 && tail[0] == '/'
    ensures u.scheme == scheme && u.host == host
    ensures |u.path| > 0 && u.path[0] == '/' && '?' !in u.path && '#' !in u.path
    ensures u.query.Some? ==> '#' !in u.query.value
  {
    var (beforeFragment, fragment) := Cut(tail, '#');
    var (path, query) := Cut(beforeFragment, '?');
    CutKeepsFirst(tail, '#');
    CutKeepsFirst(beforeFragment, '?');
    Url(scheme, host, path, query, fragment)
  }

  /** WHATWG URL serialisation of a URL without userinfo or port: the
      scheme, `://` and the host, then the path, the query after `?` and
      the fragment after `#`. `ParseSerialize` and `SerializeParse` show it
      inverse to `Parse`. */
  function Serialize(u: Url): string
  {
    u.scheme + "://" + u.host + Attach(Attach(u.path, '?', u.query), '#', u.fragment)
  }

  /** convertToVxTwitter: `hostname` set to the target host, `search` set to
      the empty string (which removes the query), then serialised. None is
      the model of `new URL` throwing; the model's parser stands for it.
      `ConvertRewrites` states what the result is. */
  function ConvertToVxTwitter(url: string): (r: Option<string>)
    ensures r.None? <==> Parse(url).None?
  {
    match Parse(url)
    case None => None
    case Some(u) =>
      var withHost := u.(host := TargetHost);
      var withoutQuery := withHost.(query := None);
      Some(Serialize(withoutQuery))
  }

  // Helpers about cutting and lower-casing

  /** When `s` starts with a character other than `c`, so does the part
      before the first `c`; and that part and the rest hold no character
      `s` does not hold. */
  lemma CutKeepsFirst(s: string, c: char)
    ensures var r := Cut(s, c);
      && (|s| > 0 && s[0] != c ==> |r.0| > 0 && r.0[0] == s[0])
      && (forall x :: x !in s ==> x !in r.0)
      && (r.1.Some? ==> forall x :: x !in s ==> x !in r.1.value)
  {
    var r := Cut(s, c);
    assert Attach(r.0, c, r.1) == s;
    match r.1
    case None =>
    case Some(a) =>
      assert s == r.0 + [c] + a;
      forall x | x in r.0 ensures x in s {
        var k :| 0 <= k < |r.0| && r.0[k] == x;
        assert s[k] == x;
      }
      forall x | x in a ensures x in s {
        var k :| 0 <= k < |a| && a[k] == x;
        assert s[|r.0| + 1 + k] == x;
      }
  }

  /** The ensures of `LastLabelStart` determine it. */
  lemma LastLabelStartIs(h: string, r: nat)
    requires r <= |h|
    requires forall k :: r <= k < |h| ==> h[k] != '.'
    requires 0 < r ==> h[r - 1] == '.'
    ensures LastLabelStart(h) == r
  {
    var q := LastLabelStart(h);
    LastLabelStartSpec(h);
    if 0 < r {
      assert h[r - 1] == '.';
    }
    if 0 < q {
      assert h[q - 1] == '.';
    }
  }

  /** Lower-casing neither moves the last label nor changes whether a host
      is valid. */
  lemma HostLower(h: string)
    requires |h| > 0 && forall k :: 0 <= k < |h| ==> HostChar(h[k])
    ensures LastLabelStart(Lower(h)) == LastLabelStart(h)
    ensures ValidHost(Lower(h)) <==> ValidHost(h)
    ensures Lower(Lower(h)) == Lower(h)
  {
    var l := Lower(h);
    var r := LastLabelStart(h);
    LastLabelStartSpec(h);
    forall k | 0 <= k < |h|
      ensures (l[k] == '.') == (h[k] == '.') && (Letter(l[k]) == Letter(h[k]))
      ensures HostChar(l[k]) && LowerChar(l[k]) == l[k]
    {
      assert l[k] == LowerChar(h[k]);
    }
    LastLabelStartIs(l, r);
    assert Lower(l) == l;
  }

  lemma LowerHost(h: string)
    requires ValidHost(h)
    ensures ValidHost(Lower(h)) && Lower(Lower(h)) == Lower(h)
  {
    HostLower(h);
  }

  /** Shows a host valid from the position of its last label. */
  lemma ValidHostBy(h: string, r: nat)
    requires |h| > 0 && forall k :: 0 <= k < |h| ==> HostChar(h[k])
    requires r < |h| && (0 < r ==> h[r - 1] == '.')
    requires forall k :: r <= k < |h| ==> h[k] != '.'
    requires Letter(h[r])
    ensures ValidHost(h)
  {
    LastLabelStartIs(h, r);
  }

  // Parsing and serialising are inverse

  /** Serialising a well-formed URL and parsing the result gives the URL back. */
  lemma ParseSerialize(u: Url)
    requires WellFormed(u)
    ensures Parse(Serialize(u)) == Some(u)
  {
    var tail := Attach(Attach(u.path, '?', u.query), '#', u.fragment);
    ParsePathAttach(u.scheme, u.host, u.path, u.query, u.fragment);
    ParseAuthorityJoin(u.scheme, u.host, tail);
    ParseSchemeJoin(u.scheme, u.host + tail);
    assert Serialize(u) == u.scheme + "://" + (u.host + tail);
  }

  lemma ParsePathAttach(scheme: string, host: string, path: string, query: Option<string>, fragment: Option<string>)
    requires |path| > 0 && path[0] == '/' && '?' !in path && '#' !in path
    requires query.Some? ==> '#' !in query.value
    ensures var tail := Attach(Attach(path, '?', query), '#', fragment);
      |tail| > 0 && tail[0] == '/' && ParsePath(scheme, host, tail) == Url(scheme, host, path, query, fragment)
  {
    var inner := Attach(path, '?', query);
    assert inner[0] == '/';
    assert '#' !in inner by {
      if query.Some? {
        assert inner == path + ['?'] + query.value;
      }
    }
    CutAttach(inner, '#', fragment);
    CutAttach(path, '?', query);
  }

  lemma ParseAuthorityJoin(scheme: string, host: string, tail: string)
    requires scheme == "http" || scheme == "https"
    requires ValidHost(host) && Lower(host) == host
    requires |tail| > 0 && tail[0] == '/'
    ensures ParseAuthority(scheme, host + tail) == Some(ParsePath(scheme, host, tail))
  {
    var rest := host + tail;
    assert rest[|host|] == '/';
    assert IndexOf(rest, '/') == |host|;
    assert rest[..|host|] == host;
    assert rest[|host|..] == tail;
  }

  lemma ParseSchemeJoin(scheme: string, rest: string)
    requires scheme == "http" || scheme == "https"
    ensures Parse(scheme + "://" + rest) == ParseAuthority(scheme, rest)
  {
    var s := scheme + "://" + rest;
    assert Lower("http") == "http" && Lower("https") == "https";
    assert s[|scheme|] == ':';
    assert IndexOf(s, ':') == |scheme|;
    assert s[..|scheme|] == scheme;
    assert s[|scheme| + 3..] == rest;
  }

  /** Parsing loses nothing but the case of the scheme and the host:
      serialising the parsed URL gives the input with its scheme and host
      lower-cased. */
  lemma SerializeParse(s: string, u: Url)
    requires Parse(s) == Some(u)
    ensures |u.scheme| + 3 + |u.host| <= |s|
    ensures Serialize(u) == Lower(s[..|u.scheme| + 3 + |u.host|]) + s[|u.scheme| + 3 + |u.host|..]
  {
    var colon := ParseScheme(s, u);
    SerializeParseAuthority(u.scheme, s[colon + 3..], u);
    Reassemble(s, u);
  }

  /** The first stage of a successful parse: the scheme is the lower-cased
      text before the first `:`, and `//` follows it. */
  lemma ParseScheme(s: string, u: Url) returns (colon: nat)
    requires Parse(s) == Some(u)
    ensures colon == IndexOf(s, ':') == |u.scheme| && colon + 3 <= |s|
    ensures s[colon..colon + 3] == "://"
    ensures Lower(s[..colon]) == u.scheme
    ensures ParseAuthority(u.scheme, s[colon + 3..]) == Some(u)
  {
    colon := IndexOf(s, ':');
  }

  /** Lower-casing the text up to the end of the host, around a `://` that
      ends the scheme, is lower-casing the scheme and the host separately. */
  lemma Reassemble(s: string, u: Url)
    requires |u.scheme| + 3 <= |s| && s[|u.scheme|..|u.scheme| + 3] == "://"
    requires Lower(s[..|u.scheme|]) == u.scheme
    requires |u.host| <= |s[|u.scheme| + 3..]|
    requires Serialize(u) == u.scheme + "://" + Lower(s[|u.scheme| + 3..][..|u.host|]) + s[|u.scheme| + 3..][|u.host|..]
    ensures Serialize(u) == Lower(s[..|u.scheme| + 3 + |u.host|]) + s[|u.scheme| + 3 + |u.host|..]
  {
    var colon, h := |u.scheme|, |u.host|;
    var k := colon + 3 + h;
    var rest := s[colon + 3..];
    assert s[..k] == s[..colon] + "://" + rest[..h];
    LowerJoin(s[..colon], rest[..h]);
    assert s[k..] == rest[h..];
  }

  lemma LowerJoin(a: string, b: string)
    ensures Lower(a + "://" + b) == Lower(a) + "://" + Lower(b)
  {
    LowerConcat(a, "://");
    LowerConcat(a + "://", b);
    assert Lower("://") == "://";
  }

  lemma SerializeParseAuthority(scheme: string, rest: string, u: Url)
    requires scheme == "http" || scheme == "https"
    requires ParseAuthority(scheme, rest) == Some(u)
    ensures |u.host| <= |rest|
    ensures Serialize(u) == scheme + "://" + Lower(rest[..|u.host|]) + rest[|u.host|..]
  {
    var slash := IndexOf(rest, '/');
    ParsePathCut(scheme, Lower(rest[..slash]), rest[slash..]);
  }

  lemma ParsePathCut(scheme: string, host: string, tail: string)
    requires |tail| > 0 && tail[0] == '/'
    ensures var u := ParsePath(scheme, host, tail);
      Attach(Attach(u.path, '?', u.query), '#', u.fragment) == tail
  {
  }

  lemma LowerConcat(a: string, b: string)
    ensures Lower(a + b) == Lower(a) + Lower(b)
  {
  }

  // What convertToVxTwitter does to a link

  /** The URL convertToVxTwitter produces from a parsed link: the same
      scheme, path and fragment, the target host, and no query. */
  function Rewritten(u: Url): Url
  {
    Url(u.scheme, TargetHost, u.path, None, u.fragment)
  }

  lemma TargetHostValid()
    ensures ValidHost(TargetHost) && Lower(TargetHost) == TargetHost
  {
    KnownHostValid(TargetHost, 10);
  }

  /** The hosts the link matcher admits, and the target host, are valid
      lower-case hosts. */
  lemma KnownHostValid(h: string, r: nat)
    requires || (h == "twitter.com" && r == 8) || (h == "x.com" && r == 2)
             || (h == "www.twitter.com" && r == 12) || (h == "www.x.com" && r == 6)
             || (h == "vxtwitter.com" && r == 10)
    ensures ValidHost(h) && Lower(h) == h
  {
    assert forall k :: 0 <= k < |h| ==> HostChar(h[k]) && LowerChar(h[k]) == h[k];
    ValidHostBy(h, r);
  }

  /** A link that parses converts, and the result reads
      `scheme://vxtwitter.com`, then the path, then the fragment; parsing it
      gives the link's URL with the host replaced and the query removed. */
  lemma ConvertRewrites(s: string, u: Url)
    requires Parse(s) == Some(u)
    ensures ConvertToVxTwitter(s) == Some(u.scheme + "://" + TargetHost + Attach(u.path, '#', u.fragment))
    ensures Parse(ConvertToVxTwitter(s).value) == Some(Rewritten(u))
  {
    TargetHostValid();
    ParseSerialize(Rewritten(u));
  }

  /** Converting an already converted link changes nothing. */
  lemma ConvertIdempotent(s: string)
    requires ConvertToVxTwitter(s).Some?
    ensures ConvertToVxTwitter(ConvertToVxTwitter(s).value) == ConvertToVxTwitter(s)
  {
    var u := Parse(s).value;
    ConvertRewrites(s, u);
    var out := ConvertToVxTwitter(s).value;
    ConvertRewrites(out, Rewritten(u));
    assert Rewritten(Rewritten(u)) == Rewritten(u);
  }

  /** The path and the fragment of a parsed link are pieces of the link, so
      a character the link does not hold is not in them. */
  lemma ParsedPartsFromInput(s: string, u: Url, c: char)
    requires Parse(s) == Some(u) && c !in s
    ensures c !in u.path && (u.fragment.Some? ==> c !in u.fragment.value)
  {
    SerializeParse(s, u);
    var k := |u.scheme| + 3 + |u.host|;
    var tail := Attach(Attach(u.path, '?', u.query), '#', u.fragment);
    assert Serialize(u) == (u.scheme + "://" + u.host) + tail;
    assert tail == s[k..] by {
      assert |Lower(s[..k])| == k;
      assert Serialize(u)[k..] == tail;
    }
    NotInPieces(s, k, tail, u.path, u.query, u.fragment, c);
  }

  lemma NotInPieces(s: string, k: nat, tail: string, path: string, query: Option<string>, fragment: Option<string>, c: char)
    requires k <= |s| && c !in s && tail == s[k..]
    requires tail == Attach(Attach(path, '?', query), '#', fragment)
    ensures c !in path && (fragment.Some? ==> c !in fragment.value)
  {
    var inner := Attach(path, '?', query);
    assert c !in tail;
    if fragment.Some? {
      assert inner == tail[..|inner|];
      assert fragment.value == tail[|inner| + 1..];
    }
    assert c !in inner;
    if query.Some? {
      assert path == inner[..|path|];
    }
  }

  /** A link without a line break converts to a line without one. */
  lemma ConvertKeepsOneLine(s: string)
    requires ConvertToVxTwitter(s).Some? && '\n' !in s
    ensures '\n' !in ConvertToVxTwitter(s).value
  {
    var u := Parse(s).value;
    ConvertRewrites(s, u);
    ParsedPartsFromInput(s, u, '\n');
    RewrittenOneLine(u.scheme, u.path, u.fragment);
  }

  lemma RewrittenOneLine(scheme: string, path: string, fragment: Option<string>)
    requires scheme == "http" || scheme == "https"
    requires '\n' !in path && (fragment.Some? ==> '\n' !in fragment.value)
    ensures '\n' !in scheme + "://" + TargetHost + Attach(path, '#', fragment)
  {
  }

  /** A link with a tracking query loses the query and keeps its path. */
  lemma ConvertDropsQuery(s: string)
    requires s == "https://x.com/a?s=20"
    ensures ConvertToVxTwitter(s) == Some("https://vxtwitter.com/a")
  {
    var u := Url("https", "x.com", "/a", Some("s=20"), None);
    ExampleHost();
    QueryExampleText(u);
    ParseSerialize(u);
    ConvertRewrites(s, u);
  }

  /** A `?` after the first `#` belongs to the fragment and is kept. */
  lemma ConvertKeepsFragment(s: string)
    requires s == "https://x.com/a#b?c"
    ensures ConvertToVxTwitter(s) == Some("https://vxtwitter.com/a#b?c")
  {
    var u := Url("https", "x.com", "/a", None, Some("b?c"));
    ExampleHost();
    FragmentExampleText(u);
    ParseSerialize(u);
    ConvertRewrites(s, u);
  }

  /** A host whose last label is a number is not taken as a domain:
      `https://127.1/b` and `https://a.1/b` do not parse. */
  lemma NumericHostRejected(s: string, h: string, r: nat)
    requires (h == "127.1" && r == 4) || (h == "a.1" && r == 2)
    requires s == "https://" + h + "/b"
    ensures Parse(s) == None
  {
    var rest := h + "/b";
    assert s == "https" + "://" + rest;
    ParseSchemeJoin("https", rest);
    NumericAuthorityRejected(rest, h, r);
  }

  lemma NumericAuthorityRejected(rest: string, h: string, r: nat)
    requires (h == "127.1" && r == 4) || (h == "a.1" && r == 2)
    requires rest == h + "/b"
    ensures ParseAuthority("https", rest) == None
  {
    LastLabelStartIs(h, r);
    assert rest[|h|] == '/' && forall k :: 0 <= k < |h| ==> rest[k] != '/';
    assert IndexOf(rest, '/') == |h|;
    assert rest[..|h|] == h;
  }

  lemma QueryExampleText(u: Url)
    requires u == Url("https", "x.com", "/a", Some("s=20"), None)
    ensures Serialize(u) == "https://x.com/a?s=20"
    ensures u.scheme + "://" + TargetHost + Attach(u.path, '#', u.fragment) == "https://vxtwitter.com/a"
  {
  }

  lemma FragmentExampleText(u: Url)
    requires u == Url("https", "x.com", "/a", None, Some("b?c"))
    ensures Serialize(u) == "https://x.com/a#b?c"
    ensures u.scheme + "://" + TargetHost + Attach(u.path, '#', u.fragment) == "https://vxtwitter.com/a#b?c"
  {
  }

  lemma ExampleHost()
    ensures ValidHost("x.com") && Lower("x.com") == "x.com"
  {
    KnownHostValid("x.com", 2);
  }
}
