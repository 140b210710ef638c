# vxTwitter link rewriter: a Dafny model

This project models the text pipeline of a small Discord bot, found in `index.js`. The bot watches chat messages for Twitter/X status links and replies with the same links pointed at `vxtwitter.com`, whose previews embed properly. The model has three parts, one Dafny module each, plus two small support modules.

- **LinkMatcher** (`link_matcher.dfy`): the global, case-insensitive regular expression `/https?:\/\/(www\.)?(twitter\.com|x\.com)\/[^\s]+/gi` applied with `String.prototype.match`.
  - It is written as a scanner. `HeadLen` walks the fixed head, `RunEnd` follows the greedy `[^\s]+`, `MatchAt` is one attempt at one offset, and `FindAll` is the `g` flag's loop.
  - The scanner is proved against the pattern's meaning. `OccursAt` is an occurrence of the pattern with its greedy end, and `IsMatchList` describes what `match` must return.
- **UrlRewriter** (`url_rewriter.dfy`): `convertToVxTwitter`.
  - The URL object is the record `Url`. The setters for `hostname` and `search` are record updates. Parsing and serialisation follow the WHATWG URL Standard on the shape every matched link has: `scheme://host/path?query#fragment`, with a plain ASCII domain as host.
- **MessageHandler** (`message_handler.dfy`): the decision inside the `messageCreate` handler.
  - A pure function maps (author is a bot, message text) to the reply text, or to None when the bot does not reply.
- **Text** (`text.dfy`) and **Wrappers** (`wrappers.dfy`): character search, cutting at a delimiter, ASCII lower-casing, `Array.prototype.join` with its inverse `split`, and `Option`.

Main results:
- The scanner returns exactly the non-overlapping, left-to-right matches of the regex. It finds every occurrence. It returns null exactly when the pattern occurs nowhere.
- Every matched link parses, with one of the four hosts `twitter.com`, `x.com`, `www.twitter.com` or `www.x.com`. So the handler's `try` never fails on a conversion.
- The rewritten link has host `vxtwitter.com` and no query. It keeps the scheme (lower-cased), the path and the fragment, including a `?` inside the fragment. Rewriting is idempotent.
- A bot's message gets no reply. Any other message gets no reply exactly when it contains no link. Otherwise the reply has one line per match, in match order, and each line is that match rewritten.

## Model

| member | source | states |
|---|---|---|
| LinkMatcher.IsWs | index.js:14 | `\s` is ECMAScript's white space and line terminators; no character of the pattern's head, in either case, is white space |
| LinkMatcher.HeadLen | index.js:14 | the walk through the fixed head reports a length within the text; its meaning is stated by `HeadLenCorrect` |
| LinkMatcher.HeadLenCorrect | index.js:14 | the scanner's walk through `https?://(www\.)?(twitter\.com\|x\.com)/` reports length n exactly when one of the eight heads, n characters long, begins the text, letters compared case-insensitively |
| LinkMatcher.RunEnd | index.js:14 | the greedy `[^\s]+` stops at the first white-space character at or after its start, or at the end of the text, and passes only non-white-space |
| LinkMatcher.MatchAt | index.js:14 | one attempt of the regex at offset i ends after i and within the text; `MatchAtCorrect` states which end it finds |
| LinkMatcher.MatchAtCorrect | index.js:14 | one attempt at offset i ends at e exactly when the pattern occurs at i: a head, at least one more character, no white space up to e, and e at the end of the text or before white space |
| LinkMatcher.FindAll | index.js:43 | every span the `g` loop reports is non-empty and lies inside the text, at or after where the search started |
| LinkMatcher.FindAllSound | index.js:43 | every span the `g` loop reports is a successful attempt of the regex at its start |
| LinkMatcher.FindAllOrdered | index.js:43 | the reported spans are in left-to-right order and do not overlap |
| LinkMatcher.FindAllComplete | index.js:43 | every offset at which the regex can match lies inside a reported span, so no occurrence is missed |
| LinkMatcher.FindAllIsMatchList | index.js:43 | the `g` loop's result meets the description of `match`'s result: occurrences, in order, covering every occurrence |
| LinkMatcher.MatchListUnique | index.js:43 | only one list of spans meets that description, and it is the `g` loop's result |
| LinkMatcher.Match | index.js:43 | `match` returns null or a non-empty list of non-empty substrings; `MatchCorrect`, `MatchNullIffNoOccurrence` and `MatchedTextsAreLinks` state which ones |
| LinkMatcher.MatchCorrect | index.js:43 | `match` returns null for the empty list of matches and otherwise the texts of the unique list of matches |
| LinkMatcher.MatchNullIffNoOccurrence | index.js:43-45 | `match` returns null exactly when the pattern occurs nowhere in the message |
| LinkMatcher.OccurrenceIsLink | index.js:14 | the text of an occurrence starts with a head, has at least one more character and holds no white space |
| LinkMatcher.MatchedTextsAreLinks | index.js:43 | every string `match` returns starts with a head, has at least one more character and holds no white space |
| LinkMatcher.LinkMatchesAt | index.js:14 | a link standing in the text, followed by white space or the end, is matched exactly from its first to its last character |
| LinkMatcher.MatchMidWord | index.js:14 | the pattern is not anchored: in `xhttps://x.com/a` the link is found without the `x` |
| LinkMatcher.MatchGreedyTail | index.js:14 | `[^\s]+` is greedy: in `(https://x.com/a)` the closing parenthesis is part of the match |
| LinkMatcher.MatchAdjacentLinks | index.js:14 | for any two links a and b, the text a + b, with no white space between them, is one match |
| LinkMatcher.MatchTwoLinks | index.js:43 | two links separated by a space are returned as two matches, in order |
| Text.Join | index.js:58 | `Array.prototype.join`: the elements with the separator between neighbours; its meaning is stated by `JoinSeparators` and `SplitJoin` |
| Text.JoinSeparators | index.js:58 | `join('\n')` of lines without a line break holds one line break fewer than there are lines |
| Text.SplitJoin | index.js:58 | splitting the `\n`-joined reply at `\n` gives back the list of lines when no line contains `\n` |
| Text.CutAttach | index.js:23 | cutting a string at the first delimiter undoes attaching a part after that delimiter |
| UrlRewriter.Parse | index.js:23 | a successful parse gives a URL with scheme `http` or `https`, a lower-case ASCII domain whose last label starts with a letter, a path starting with `/` that holds no `?` or `#`, and a query that holds no `#` |
| UrlRewriter.NumericHostRejected | index.js:23 | a host whose last label is a number is not parsed as a domain: `https://127.1/b` and `https://a.1/b` give None |
| UrlRewriter.Serialize | index.js:31 | WHATWG serialisation: `scheme://host`, then the path, `?` and the query, `#` and the fragment; `ParseSerialize` and `SerializeParse` show it inverse to `Parse` |
| UrlRewriter.ParseSerialize | index.js:23 | serialising a URL of that shape and parsing the result gives the URL back |
| UrlRewriter.SerializeParse | index.js:31 | serialising a parsed URL gives back the input text with only its scheme and host lower-cased |
| UrlRewriter.ParsedPartsFromInput | index.js:23 | the path and the fragment of a parsed link are pieces of the link, so they hold no character the link does not hold |
| UrlRewriter.ConvertToVxTwitter | index.js:21-32 | the conversion throws (None) exactly when the model's parser rejects the link; `ConvertRewrites` and `ConvertIdempotent` state what it returns otherwise |
| UrlRewriter.ConvertRewrites | index.js:21-32 | the rewrite succeeds whenever the parse does and reads `scheme://vxtwitter.com` + path + fragment; parsing it gives the link's URL with host `vxtwitter.com`, no query, and the same scheme, path and fragment |
| UrlRewriter.ConvertIdempotent | index.js:21-32 | rewriting a rewritten link gives the same string |
| UrlRewriter.ConvertKeepsOneLine | index.js:31 | a link without a line break is rewritten to a string without one |
| UrlRewriter.ConvertDropsQuery | index.js:29 | `https://x.com/a?s=20` is rewritten to `https://vxtwitter.com/a` |
| UrlRewriter.ConvertKeepsFragment | index.js:29 | in `https://x.com/a#b?c` the `?` is inside the fragment and is kept: the result is `https://vxtwitter.com/a#b?c` |
| MessageHandler.ConvertAll | index.js:49 | the conversion of the whole batch succeeds with one converted link per match, in order, or fails because some link failed |
| MessageHandler.Reply | index.js:40 | a message whose author is a bot gets no reply |
| MessageHandler.LinkParses | index.js:23 | every link the matcher returns parses, and its host is `twitter.com`, `x.com`, `www.twitter.com` or `www.x.com` |
| MessageHandler.LinkConverts | index.js:26 | every matched link converts; parsing the result gives the link's URL with host `vxtwitter.com` and no query; the result has no line break |
| MessageHandler.AllLinksConvert | index.js:49 | the batch of matched links always converts, so the handler's `try` never takes its error path on a conversion |
| MessageHandler.ReplyNoneIffNoLink | index.js:45 | a message from a human gets no reply exactly when the pattern occurs nowhere in it |
| MessageHandler.ReplyLines | index.js:58 | the reply has one line per match, in match order, and line k is match k rewritten: host `vxtwitter.com`, no query, same scheme, path and fragment |
| MessageHandler.ReplyOneLink | index.js:38-62 | the message `https://x.com/a?s=20` gets the reply `https://vxtwitter.com/a` |
| MessageHandler.ReplyTwoLinks | index.js:58 | two links separated by a space get a two-line reply: the first link rewritten, a line break, then the second link rewritten |

## Left out

- Discord client construction, intents, partials, the `ready` event, `client.login` and the `.env` loading (index.js:1-11, index.js:34-36, index.js:71). These are process wiring over a library that is not modelled. The handler's inputs are the author's bot flag and the message text.
- `message.suppressEmbeds`, `message.reply` with its `allowedMentions`, and the `console` logging (index.js:53-66). These are network and logging effects. The model computes the reply text that would be posted.
  - A single `try` covers the whole batch (index.js:47-67). So a failure of `suppressEmbeds` or `reply` also ends the handler without a reply, and the model does not represent those failures.
  - A failing conversion is modelled: it loses the whole batch, not just one link. No link is skipped individually. Every matched link is proved to convert, so this path is never taken.
- ConvertToVxTwitter: the WHATWG normalisation of the path and the fragment is not modelled. Path and fragment are kept verbatim. The standard would percent-encode spaces, quotes, `<`, `>`, backticks, controls inside the text and non-ASCII characters, turn `\` into `/` in the path, and resolve `.` and `..` segments. The rewrite is exact for links whose path and fragment are already in normalised form.
- ConvertToVxTwitter: the standard strips C0 controls and spaces from both ends of the input before parsing. A matched link can end in a C0 control that is not `\s` (U+0000 to U+0008, U+000E to U+001F); the standard drops it, while the model keeps it at the end of the path or fragment.
- Parse: only the hierarchical form `http(s)://<ASCII domain>/...` is modelled, and a domain must end in a label that starts with a letter. The model returns None for userinfo, ports, IP-address hosts, hosts whose last label is empty or starts with a digit, internationalised hosts, and inputs without `//` or without a `/` after the host. The standard accepts many of these: it rewrites `127.1` to `127.0.0.1` and accepts `x.com.` and `a.1b`. The matcher never produces such input, which `MessageHandler.LinkParses` proves.
- Parse: labels starting with `xn--` are kept as written; the Punycode check of the standard's domain-to-ASCII step is not modelled.
- Text is a sequence of Unicode scalar values, not UTF-16 code units. So lone surrogates and the regex's code-unit view of astral characters are not represented. None of them is white space or part of the pattern's head.
- IsWs: `\s` is given as ECMAScript's WhiteSpace and LineTerminator characters, using the Space_Separator members of Unicode 15. A different Unicode version may add members.
- `Reply` follows the code: it has no per-user preference gate, and every message from a human is processed. A settings store, its commands and a health endpoint do not appear in `index.js` and are not part of this model.
