# w3af `BaseParser` in Dafny

This project models the core of w3af's abstract document parser,
`w3af/core/data/parsers/baseparser.py`. The core covers three things:

- **Construction.** A parser is built from an HTTP response. It refuses an
  unknown charset. It takes the redirect target as its base URL when there
  was a redirect, and the response URL otherwise. It stores the domain, the
  root domain and the charset, and starts with an empty set `_re_urls`.
- **The regular-expression fallback, `_regex_url_parse`.** It scans raw
  text for `http://` and `https://` URLs (`URL_RE`). Each match goes
  through `_decode_url` and is then passed to the `URL` class. Any match
  whose decoding or construction raises `ValueError` is skipped. Each URL
  that is built is added to the set. At the end every member is
  normalized.
- **The decoder, `_decode_url`.** It encodes the matched text with the
  page charset, percent-decodes it as `urllib.unquote` does, and replaces
  every NUL byte by `%00` (`SAFE_CHARS`). It then decodes the bytes as
  UTF-8. When they are not valid UTF-8 it decodes them with the page
  charset, ignoring errors.

The model also covers the base class's capability getters, which raise
`NotImplementedError`, and `_return_empty_list`, which concrete parsers
bind in their place.

Modules, leaves first:

- `Wrappers`: `Option` and `Result`.
- `Bytes`: the Python 2 byte string as a sequence of octets.
- `Utf8`: the `utf-8` codec (RFC 3629), with both round trips proved.
- `Percent`: `urllib.unquote` on byte strings (the `%XX` escapes of
  section 2.1 of RFC 3986).
- `UrlDecoder`: `SAFE_CHARS` and `_decode_url`.
- `DecoderExamples`: the doc-comment example of `_decode_url`, and one
  example that takes the charset fallback.
- `UrlScanner`: `URL_RE.findall` as a hand-written scanner.
- `Parsers`: the `BaseParser` class, plus the specification of the loop
  in `_regex_url_parse` and the lemmas about it.

Code that is not part of this model is passed in as a parameter. This
covers the `URL` class (`UrlLib`: construction that may fail,
`normalize_url`, `get_domain`, `get_root_domain`) and the codec library
(`Codecs`: `is_known_encoding`, `unicode.encode(enc)`, which may fail, and
`str.decode(enc, 'ignore')`). Nothing is assumed about these parameters,
except where a lemma states an assumption in its `requires`.

The base class implements none of the capability getters: each of
`get_forms` … `get_meta_tags` raises `NotImplementedError`
(`baseparser.py:146-203`). A concrete parser gets `[]` from a getter only by
binding it to `_return_empty_list`, as that method's docstring says
(`baseparser.py:205-213`).

## Model

| member | source | states |
|---|---|---|
| `Parsers.BaseParser.Create` | w3af/core/data/parsers/baseparser.py:43-61 | construction fails with `ValueError('Unknown encoding')` exactly when the response charset is not a known encoding; on success `_re_urls` is empty, `_encoding` is the response charset, and the base URL, domain and root domain come from the redirect URL when there is one and from the response URL otherwise |
| `Parsers.BaseParser.constructor` | w3af/core/data/parsers/baseparser.py:49-61 | given a known charset, sets the base URL (redirect first), the domain and root domain of that URL, the charset and an empty `_re_urls`, establishing the invariant `Valid` |
| `Parsers.BaseUrlOf` | w3af/core/data/parsers/baseparser.py:50-53 | the effective base URL is the redirect URL when present, the response URL otherwise |
| `Parsers.BaseParser.RegexUrlParse` | w3af/core/data/parsers/baseparser.py:63-85 | on a parser whose charset is known (`Valid`, kept by the pass), the new `_re_urls` is the old members plus every URL built from a `URL_RE` candidate (in candidate order, failures skipped), then each member normalized in place; only `_re_urls` changes |
| `Parsers.BaseParser.NormalizeMembers` | w3af/core/data/parsers/baseparser.py:85 | the final `map`: each member of `_re_urls` is replaced, in place, by its normalized value, and nothing else changes |
| `Parsers.Collect` | w3af/core/data/parsers/baseparser.py:71-82 | the loop, for a given `try` body (`Builder(ctx)`, i.e. `BuildUrl`, in the parser): the set only grows: the old members are kept, in place, at the front of the new ones |
| `Parsers.CollectMembers` | w3af/core/data/parsers/baseparser.py:73-82 | a URL is a member after the loop if and only if it was one before or some candidate decodes and builds to it |
| `Parsers.CollectDistinct` | w3af/core/data/parsers/baseparser.py:82 | equal URLs collapse to one entry: the loop never adds a member twice |
| `Parsers.CollectSkipsFailure` | w3af/core/data/parsers/baseparser.py:76-80 | a candidate whose decoding or construction raises `ValueError` is skipped and the loop goes on: removing it from anywhere in the list changes nothing |
| `Parsers.RepeatedCandidate` | w3af/core/data/parsers/baseparser.py:73-82 | a candidate that occurs again, at any later position, adds nothing: removing the repetition leaves the result unchanged, so the same URL twice in a document gives one entry |
| `Parsers.FreshPassMembers` | w3af/core/data/parsers/baseparser.py:61-85 | after one pass on a fresh parser, `u` is in `_re_urls` if and only if some candidate builds a URL whose normalization is `u` |
| `Parsers.NoSchemeNoUrls` | w3af/core/data/parsers/baseparser.py:73-85 | a text with no `http://` and no `https://` adds nothing, and leaves a fresh parser's set empty |
| `Parsers.BaseParser.Get` | w3af/core/data/parsers/baseparser.py:146-203 | every base-class getter (`get_forms` … `get_meta_tags`) raises `NotImplementedError` naming itself, and never returns a value |
| `Parsers.BaseParser.ReturnEmptyList` | w3af/core/data/parsers/baseparser.py:205-214 | `_return_empty_list` returns `[]` for any arguments |
| `Parsers.BaseParser.Call` | w3af/core/data/parsers/baseparser.py:205-214 | a getter succeeds if and only if the concrete parser bound it to `_return_empty_list`, and then returns `[]`; an inherited getter raises `NotImplementedError` |
| `UrlScanner.RunEnd` | w3af/core/data/parsers/baseparser.py:41 | the greedy tail `[^ \n\r\t"'<>]*` accepts every character up to the end it returns, and stops at a stop character or at the end of the text |
| `UrlScanner.MatchesFrom` | w3af/core/data/parsers/baseparser.py:41 | every match starts where `http://` or `https://` occurs and ends where the greedy tail stops; matches come in text order and do not overlap |
| `UrlScanner.CandidateShape` | w3af/core/data/parsers/baseparser.py:41 | every candidate starts with `http://` or `https://` and contains none of space, `\n`, `\r`, `\t`, `"`, `'`, `<`, `>` |
| `UrlScanner.MatchesCover` | w3af/core/data/parsers/baseparser.py:41 | the scan skips no URL: every position where `http://` or `https://` occurs lies inside a match |
| `UrlScanner.NoCandidatesIffNoScheme` | w3af/core/data/parsers/baseparser.py:73 | `findall` yields no candidate if and only if the text contains no `http://` and no `https://` |
| `UrlDecoder.DecodeUrl` | w3af/core/data/parsers/baseparser.py:106-122 | `_decode_url` fails (with `ValueError`) if and only if the input is unicode text that the page charset cannot encode; no later step fails |
| `UrlDecoder.SafeCharsReplaceNul` | w3af/core/data/parsers/baseparser.py:112-113 | the `SAFE_CHARS` loop replaces each NUL byte by `%00` and substitutes nothing else |
| `UrlDecoder.ReplaceAppend` | w3af/core/data/parsers/baseparser.py:112-113 | the replacement works byte by byte: it distributes over concatenation |
| `UrlDecoder.ReplaceRemoves` | w3af/core/data/parsers/baseparser.py:112-113 | after the replacement no NUL byte is left (the replacement text has none) |
| `UrlDecoder.ReplaceAbsent` | w3af/core/data/parsers/baseparser.py:112-113 | bytes without a NUL pass through the replacement unchanged |
| `UrlDecoder.UnquoteReplaceNul` | w3af/core/data/parsers/baseparser.py:111-113 | the `%00` escape loses nothing: unquoting the replaced bytes gives back the original bytes, provided they contain no `%` |
| `UrlDecoder.SafeBytesNoNul` | w3af/core/data/parsers/baseparser.py:111-113 | the bytes given to the final decoding step never contain a NUL |
| `UrlDecoder.DecodeUrlUtf8` | w3af/core/data/parsers/baseparser.py:119-120 | when the unquoted, NUL-escaped bytes are valid UTF-8, the result is their UTF-8 decoding, which re-encodes to exactly those bytes and contains no U+0000 |
| `UrlDecoder.DecodeUrlFallback` | w3af/core/data/parsers/baseparser.py:119-122 | when those bytes are not valid UTF-8, the result is their decoding under the page charset with errors ignored, and this step cannot fail |
| `UrlDecoder.DecodeUrlNoNul` | w3af/core/data/parsers/baseparser.py:106-122 | the decoded URL contains no U+0000 whenever the page charset decodes NUL-free bytes to NUL-free text |
| `UrlDecoder.DecodeUrlPlainOctets` | w3af/core/data/parsers/baseparser.py:106-122 | valid UTF-8 bytes with no `%` and no NUL come out as their UTF-8 decoding |
| `UrlDecoder.DecodeUrlPlainText` | w3af/core/data/parsers/baseparser.py:106-122 | text with no `%` and no U+0000, under a charset that encodes it as UTF-8, comes out of the decoder unchanged |
| `UrlDecoder.DecodeUrlUnquotesToText` | w3af/core/data/parsers/baseparser.py:111-120 | when the unquoted bytes are the UTF-8 encoding of a NUL-free text, that text is the result |
| `Parsers.BuildUrl` | w3af/core/data/parsers/baseparser.py:76-80 | the body of the `try`: a candidate yields a URL exactly when `_decode_url` succeeds and `URL(...)` does not raise `ValueError`, and that URL is `URL(decoded, encoding=_encoding)` |
| `Parsers.Add` | w3af/core/data/parsers/baseparser.py:82 | `set.add`: the old members stay in place, the new URL is a member afterwards, nothing else enters, and a set without duplicates stays without them |
| `Parsers.NormalizeAll` | w3af/core/data/parsers/baseparser.py:85 | `map(lambda u: u.normalize_url(), re_urls)`: each member, and only it, is replaced by its normalized value, in place |
| `UrlScanner.FindAll` | w3af/core/data/parsers/baseparser.py:73 | `URL_RE.findall(doc)` reduced to the whole match `url[0]`: one candidate per match, in text order |
| `UrlDecoder.WireBytes` | w3af/core/data/parsers/baseparser.py:108-109 | unicode input is encoded with the page charset, which may fail; a byte string is used as it is |
| `UrlDecoder.Replace` | w3af/core/data/parsers/baseparser.py:113 | `str.replace` of one octet: the result is no shorter when the replacement is non-empty, and holds only octets of the input or of the replacement |
| `UrlDecoder.ReplaceEach` | w3af/core/data/parsers/baseparser.py:112-113 | the `SAFE_CHARS` loop applies each pair in order; with non-empty replacements it never shortens the octets |
| `UrlDecoder.SafeBytes` | w3af/core/data/parsers/baseparser.py:111-113 | unquote then escape NUL: octets with no `%` and no NUL reach the decoding step unchanged |
| `UrlDecoder.DecodeText` | w3af/core/data/parsers/baseparser.py:119-122 | valid UTF-8 is decoded as UTF-8: the text re-encodes to exactly those octets and has no more characters than octets; anything else goes to the page charset with errors ignored |
| `Percent.Unquote` | w3af/core/data/parsers/baseparser.py:111 | `urllib.unquote` on a byte string: each valid `%XX` becomes one octet, every other octet (a stray `%` included) is kept, so the result is never longer |
| `Utf8.Encode` | w3af/core/data/parsers/baseparser.py:101-102 | the `utf-8` encoder: between one and four octets per character |
| `Utf8.Decode` | w3af/core/data/parsers/baseparser.py:119-120 | the strict `utf-8` decoder: None on ill-formed input, otherwise a text of at most as many characters as octets |
| `Percent.UnquoteNoPercent` | w3af/core/data/parsers/baseparser.py:111 | bytes that contain no `%` pass through `urllib.unquote` unchanged |
| `Percent.EscapeBecomesOctet` | w3af/core/data/parsers/baseparser.py:111 | each valid `%XX` escape becomes the single byte `XX`, whatever surrounds it |
| `Percent.UnquoteAppend` | w3af/core/data/parsers/baseparser.py:111 | unquoting can be done piece by piece across any boundary where the right part starts with `%`, because no escape can span the boundary |
| `Percent.UnquoteEscapeAll` | w3af/core/data/parsers/baseparser.py:111 | round trip: unquoting undoes `%XX`-escaping of every byte |
| `Utf8.DecodeEncode` | w3af/core/data/parsers/baseparser.py:119-120 | UTF-8 decoding undoes UTF-8 encoding for every string |
| `Utf8.EncodeDecode` | w3af/core/data/parsers/baseparser.py:101-102 | valid UTF-8 re-encodes to exactly the bytes it was decoded from |
| `Utf8.DecodeIffEncode` | w3af/core/data/parsers/baseparser.py:119-120 | decoding `b` gives `s` if and only if `s` encodes to `b` |
| `Utf8.DecodeNul` | w3af/core/data/parsers/baseparser.py:119-120 | a decoded string contains U+0000 if and only if the bytes contain a NUL |
| `Utf8.EncodeHoldsAscii` | w3af/core/data/parsers/baseparser.py:119-120 | an ASCII byte occurs in the UTF-8 encoding of a text if and only if its character occurs in the text |
| `DecoderExamples.DocCommentUnquote` | w3af/core/data/parsers/baseparser.py:101-102 | `urllib.unquote('ind%c3%a9x.html')` is `'ind\xc3\xa9x.html'` |
| `DecoderExamples.DocCommentUtf8` | w3af/core/data/parsers/baseparser.py:101-102 | `'ind\xc3\xa9x.html'` decodes as UTF-8 to `indéx.html` and re-encodes to itself |
| `DecoderExamples.Latin1Fallback` | w3af/core/data/parsers/baseparser.py:119-122 | the path `/p%e9` unquotes to bytes that are not UTF-8, so its decoding is the page charset's decoding of `/p\xe9` |

## Left out

- The `URL` class (parsing, `normalize_url`, `get_domain`, `get_root_domain`, equality and hashing) is not part of this model. It enters as the parameter `UrlLib`. No property of normalization is assumed, neither idempotence nor its effect on equality. So the model proves nothing about the scheme of a normalized URL.
- `is_known_encoding` and the codecs behind `encode(enc)` and `decode(enc, 'ignore')` are not part of this model. They enter as the parameter `Codecs`, and only UTF-8 is modelled concretely. A charset's `encode` may fail. Its `decode` with `'ignore'` is total.
- UrlDecoder.DecodeUrlNoNul: the no-NUL guarantee on the fallback path is stated under the assumption `NulFreeCharset`, because the charset decoder is not modelled.
- `Utf8.Decode` follows RFC 3629 strictly. Python 2's `utf-8` codec also accepts encoded surrogates (U+D800 to U+DFFF). Dafny's `char` cannot represent those, so the model sends such bytes down the fallback path.
- The `re` engine and Unicode `\w` are not modelled. `URL_RE` is replaced by the scanner it is equivalent to. The lazy host group accepts only characters that the greedy tail also accepts, so it never changes a match.
- Documents are modelled as unicode text only. `_decode_url` itself also takes a byte string (`UrlString.ByteString`), but a Python 2 `str` document scanned by `findall` is not modelled.
- `_re_urls` is kept as the sequence of its members, with `set.add` deduplicating by equality. Normalization then rewrites each member in place, as the Python code mutates the objects inside the set. Python's set hashes are computed before normalization; after it they can be stale, and that effect on later membership tests is not modelled.
- Only `ValueError` from `URL(...)` is modelled (as `None` from `UrlLib.build`). Any other exception would escape `_regex_url_parse`, and the model does not represent that.
- The HTTP response is reduced to its URL, optional redirect URL and charset. Fetching is not modelled.
- The commented-out split decoding (lines 139-142) is dead code and is not modelled.
- The first example in the `_decode_url` doc comment (lines 95-98) is not a property of the model. Unquoting `%05%44` gives the bytes `0x05 0x44`, not `é`.
