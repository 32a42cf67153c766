# go2postman request normalisation, in Dafny

go2postman converts captured HTTP traffic into a Postman collection (format v2.1.0).
It reads two kinds of input:

- a text file of cURL command lines;
- a Burp Suite XML export, whose items carry raw HTTP requests, optionally base64-encoded.

This project models the core that turns one input record into one collection item, and
proves properties of that model:

- **URL decomposition.**
  - `ParseURL`: scheme, host labels, non-empty path segments and query pairs.
  - The variant of the same logic inlined in `ParseCurlCommand`, which cuts at the first
    and second `://`.
- **cURL parsing.** The regular expressions, each modelled as a hand-written leftmost
  scanner with the exact RE2 semantics of its pattern (`\s` is `[\t\n\f\r ]`):
  - the method (`-X`);
  - the double-quoted URL, or the bare URL after white space;
  - every header (`-H`);
  - the cookie (`-b`);
  - the first matching data flag among `-d`, `--data` and `--data-raw`, in that order.
- **HTTP request parsing.**
  - The request line.
  - The header block up to the first blank line.
  - The Host header.
  - The body after the blank line.
  - Resolving the target into protocol, host and path.
  - The rebuilt raw URL and the item name.
- **Authorization extraction.** A `Bearer ` or `Basic ` header value becomes the request's
  auth. The last recognised header wins, and the key is compared case-insensitively.
- **Body classification.** The first Content-Type header decides the body language:
  json, then xml, then javascript, then html, else text.
- **The per-entry loops of `ProcessCurlFile` and `ProcessBurpXML`.**
  - Command lines are numbered from 1, and skipped lines do not advance the index.
  - Burp items are decoded when their `base64` attribute is exactly `"true"`.
  - Failures are skipped with a warning that carries the item's 1-based position.
- **The data types** of the collection and of the Burp export.

## Files

| file | module | contents |
|---|---|---|
| wrappers.dfy | Wrappers | `Option`, `Result` |
| gostrings.dfy | GoStrings | Go's `strings.Split`, `SplitN(…, 2)` (as `Cut`), `Contains`, `HasPrefix`, `TrimPrefix`, `TrimSpace` with `unicode.IsSpace`, `ToLower(x) == "lit"`, `%d` |
| postman.dfy | Postman | collection item, request, header, URL, body, auth; Burp item |
| urls.dfy | Urls | `ParseURL`, the query and path helpers it shares with the other parsers, the cURL URL copy |
| headers.dfy | Headers | one `Key: value` line, and the header loop's collection of such lines |
| auth.dfy | AuthExtractor | the Authorization check and the "last one wins" loop |
| body.dfy | BodyClassifier | Content-Type lookup and language classification |
| curlscan.dfy | CurlScan | the regular expressions of `ParseCurlCommand` as scanners |
| curl.dfy | CurlParser | `ParseCurlCommand` |
| httprequest.dfy | HttpParser | `ParseHttpRequest` |
| files.dfy | FileProcessing | the loops of `ProcessCurlFile` and `ProcessBurpXML` |

Strings are sequences of Unicode code points. Go's `(value, error)` pairs become `Result`
values. Warnings that the Go code prints become `Warning` values, returned next to the items.

## Behaviour of the code as written

The following are proved about the model. Where the code and what its comments suggest
differ, the model follows the code.

- The item name that the Burp loop passes to `ParseHttpRequest` is always overwritten
  (go2postman.go:678-684).
  - The comment at go2postman.go:678 says a better name is set "if we can", which suggests
    that the supplied name stays when there is nothing better. But both branches of the
    `if` at go2postman.go:679-684 assign the name, so the code never keeps it.
  - So the method, path and url attributes of a Burp item have no influence on the result
    (`FileProcessing.BurpNameIsDiscarded`, `HttpParser.NameIsAlwaysComputed`).
- The Burp resource name comes from the last piece of `strings.Split(path, "/")`
  (go2postman.go:723-726). It is not taken from the last non-empty segment.
- The cURL data patterns capture `[^'"]+`. A body written as `-d "{\"a\":1}"` therefore
  yields `{\` rather than the JSON text. The model keeps this capture.
- A URL in single quotes is not recognised: `curl 'https://h/p'` gives an empty URL and the
  name `Request N` (`CurlParser.SingleQuotedUrlIgnored`).
- `-XPOST`, with no space, does not match `-X\s+`.
- A target like `/x?next=https://h` contains `https://` but does not start with it. Such a
  target selects https and loses the Host header's host (`HttpParser.EmbeddedSchemeLosesHost`).
- A query piece `key=` with an empty value is written back as `key` in the raw URL
  (`Urls.DanglingEqualsIsLost`).
- The cURL URL copy keeps only the text between the first and the second `://`
  (`Urls.CurlUrlStopsAtSecondScheme`). `ParseURL` keeps everything after the first `://`.

## Model

| member | source | states |
|---|---|---|
| GoStrings.Split | go2postman.go:453 | strings.Split: there is at least one piece, joining the pieces with the separator gives the input back, and no piece contains the separator |
| GoStrings.SplitJoin | go2postman.go:453 | splitting a join of pieces that do not contain the separator's first rune gives exactly those pieces |
| GoStrings.SplitShape | go2postman.go:723-724 | the input contains the separator iff there are two or more pieces; the input ends with the last piece, preceded by the separator when there are several |
| GoStrings.SplitAtRune | go2postman.go:723 | splitting around one occurrence of a one-rune separator gives the pieces of the text before it, then those of the text after it |
| GoStrings.SplitOfRuneFree | go2postman.go:723 | a text without the separator rune is a single piece |
| GoStrings.NonEmptyAppend | go2postman.go:827-832 | dropping the empty pieces of two runs of pieces is dropping them from each run |
| GoStrings.NonEmptySingle | go2postman.go:827-832 | a single piece is kept iff it is not empty |
| GoStrings.Cut | go2postman.go:784 | SplitN(s, sep, 2): no second piece iff sep does not occur; otherwise s is the first piece, sep, then the rest, and the first piece is the text before the first occurrence |
| GoStrings.Contains | go2postman.go:583 | strings.Contains holds iff the pattern occurs at some index |
| GoStrings.TrimPrefix | go2postman.go:585 | strings.TrimPrefix removes the prefix when the string has it and otherwise returns the string unchanged |
| GoStrings.TrimSpace | go2postman.go:459 | the result neither starts nor ends with Unicode white space; it is the input with only white space removed on both sides; it is empty iff the input is all white space |
| GoStrings.TrimSpaceIdempotent | go2postman.go:474 | trimming twice is trimming once |
| GoStrings.JoinAppend | go2postman.go:528 | joining two non-empty runs of lines is joining each run, with the separator between them |
| GoStrings.DecimalRoundTrip | go2postman.go:255 | the decimal text that %d writes for a natural number reads back as that number |
| GoStrings.IntToDecimal | go2postman.go:255 | %d writes a non-negative index as its decimal digits and a negative one as '-' followed by the digits of its magnitude; DecimalRoundTrip reads the digits back |
| GoStrings.FoldAscii | go2postman.go:372 | the rune strings.ToLower gives, as far as a comparison with an ASCII literal can see: 'A'-'Z' move up by 32, lower-case letters stay, U+0130 becomes 'i' and U+212A (Kelvin) becomes 'k', no ASCII upper-case letter survives, and no other rune folds to an ASCII lower-case letter |
| GoStrings.LowerEquals | go2postman.go:492-497 | defined as `strings.ToLower(s) == lower`: equal length, and every rune of s folds to the literal's rune at the same place; KeyIgnoresCase shows that two keys equal up to case compare alike |
| Urls.ParseParam | go2postman.go:810-818 | a query piece with '=' is key, '=', value, and the key has no '='; a piece without '=' is a key with an empty value |
| Urls.ParseQuery | go2postman.go:805-819 | one pair per '&'-piece, in order; each pair splits its piece at the first '='; no key or value holds '&' |
| Urls.ParseRenderQuery | go2postman.go:805-819 | pairs written as key=value joined with '&' parse back to the same pairs, when no key holds '=' or '&' and no value holds '&' |
| Urls.RenderParam | go2postman.go:660-664 | a pair is written as key=value, or as the bare key exactly when the value is empty; for a key without '=', ParseParam reads the written text back as the same pair |
| Urls.RenderQuery | go2postman.go:658-667 | the pairs written back and joined with '&': no pairs give "" and one pair gives its own text; RenderQuerySnoc gives the rest |
| Urls.RenderQuerySnoc | go2postman.go:658-667 | one more pair is written after the others, behind a '&', so "a&b=1" and not "a=&b=1" is the text of [a, b=1] |
| Urls.RenderParseQuery | go2postman.go:658-667 | writing back a parsed query reproduces the query text, unless some piece ends in its only '=' |
| Urls.DanglingEqualsIsLost | go2postman.go:658-667 | for every key without '=' or '&', the query key + "=" is written back as the bare key: an empty value loses its '=' |
| Urls.PathSegments | go2postman.go:821-833 | every segment is non-empty and holds no '/'; the exact list is pinned down by PathSegmentsArePieces, PathSegmentsAppend and PathSegmentsOfPiece |
| Urls.PathSegmentsArePieces | go2postman.go:824-832 | the segments are exactly the non-empty '/'-pieces of the path, in order |
| Urls.PathSegmentsAppend | go2postman.go:824-832 | the segments of a + "/" + b are those of a, then those of b |
| Urls.PathSegmentsOfPiece | go2postman.go:824-832 | a '/'-free path is one segment, or none when it is empty |
| Urls.PathSegmentsOfJoin | go2postman.go:821-833 | non-empty segments without '/' joined with '/' are read back unchanged |
| Urls.HostAndPath | go2postman.go:793-799 | the host is the text before the first '/', and the rest is what follows that '/'; with no '/' the whole text is the host and the path is empty |
| Urls.PathAndQuery | go2postman.go:802-803 | a query exists iff the path holds '?'; the path part is the text before the first '?', and the query part is the text after it |
| Urls.Decompose | go2postman.go:792-841 | the URL keeps the raw text and protocol; the host labels join to the text before the first '/'; path segments are non-empty without '/'; no '/' means no path or query, and no '?' means no query |
| Urls.ParseURL | go2postman.go:780-844 | fails iff "://" is absent, reporting the input; on success the raw text is the input, the protocol is the text before the first "://", the host is everything up to the next '/' or the end, path segments are non-empty without '/', and there is no query without '?' |
| Urls.ParseUrlOfParts | go2postman.go:780-844 | a URL composed from protocol, host, optional path and optional query parses back into exactly those parts (host split on '.', path segments, query pairs) |
| Urls.DecomposeHostOnly | go2postman.go:793-799 | a host without '/' yields no path and no query |
| Urls.DecomposeWithPath | go2postman.go:792-841 | host "/" path "?" query decomposes into the host labels, the path's segments and the query's pairs |
| Urls.PathWithoutQuery | go2postman.go:802-803 | a path without '?' is kept whole and has no query |
| Urls.PathThenQuery | go2postman.go:802-803 | path "?" query is cut at that '?' when the path has no '?' |
| Urls.CurlUrl | go2postman.go:288-344 | the cURL URL keeps the raw text; its protocol is the text before the first "://"; its path segments are non-empty and have no '/' |
| Urls.CurlUrlAgreesWithParseUrl | go2postman.go:290-292 | when "://" occurs exactly once, the cURL copy of the URL logic agrees with ParseURL |
| Urls.CurlUrlStopsAtSecondScheme | go2postman.go:290-292 | with a second "://" (and a protocol and a host part that hold none, so host:port is allowed), the cURL copy decomposes only the text between the two separators, while ParseURL keeps all that follows the first |
| Headers.ParseHeaderLine | go2postman.go:480-489 | a line yields a header iff it holds ':'; key and value are trimmed, the key holds no ':', and the type is "text" |
| Headers.ParseHeaderLineOfParts | go2postman.go:480-489 | "before:after" with no ':' in before yields the trimmed before as key and the trimmed after as value |
| Headers.HeaderRoundTrip | go2postman.go:480-489 | a header written as "key: value", with trimmed key and value and no ':' in the key, parses back to itself |
| Headers.HeaderEntries | go2postman.go:480-490 | never more headers than lines, each of kind "text" and with a ':'-free key; HeaderEntriesCount, HeaderEntriesAppend and HeaderEntriesRoundTrip fix which lines and in what order |
| Headers.HeaderEntriesCount | go2postman.go:480-490 | the loop collects one header per line that holds ':', and skips the rest |
| Headers.HeaderEntriesAppend | go2postman.go:473-490 | the headers of two runs of lines are those of the first run, then those of the second |
| Headers.HeaderEntriesRoundTrip | go2postman.go:480-490 | a list of headers written one per line is collected back unchanged, in order |
| Headers.HeaderEntriesCons | go2postman.go:480-489 | a header line in front of other lines puts its header in front of theirs |
| Headers.TrimSpaceDropsLeadingSpace | go2postman.go:483 | the space after the colon is trimmed away again |
| AuthExtractor.AuthOf | go2postman.go:372-397 | a header sets auth iff its key lower-cases to "authorization" and its value starts with "Bearer " or "Basic "; the credential is the value without that prefix, under "token" for Bearer and "password" for Basic |
| AuthExtractor.LastAuthIndex | go2postman.go:497-521 | points at a header that sets auth, with none after it; absent iff no header sets auth |
| AuthExtractor.AuthStep | go2postman.go:497-521 | one turn of the loop: a header that sets an auth replaces it, any other header keeps the current one |
| AuthExtractor.AuthAfter | go2postman.go:497-521 | after the loop the auth is the starting one when no header sets an auth, and otherwise it is the starting one or the auth of one of the headers; AuthIsLastRecognised says which |
| AuthExtractor.AuthAfterSnoc | go2postman.go:497-521 | one more turn of the loop replaces the auth when the header sets one, and keeps it otherwise |
| AuthExtractor.AuthIsLastRecognised | go2postman.go:497-521 | the auth after the loop is that of the last header that sets one, or the starting auth when there is none |
| AuthExtractor.UnrecognisedKeepsAuth | go2postman.go:372-397 | a header that sets no auth leaves the auth unchanged |
| AuthExtractor.RecognisedWins | go2postman.go:497-521 | a final header that sets auth decides the auth, whatever came before |
| AuthExtractor.BearerRoundTrip | go2postman.go:498-508 | an Authorization value "Bearer " + token gives bearer auth with exactly that token |
| AuthExtractor.BasicRoundTrip | go2postman.go:509-519 | an Authorization value "Basic " + credential gives basic auth with exactly that credential |
| AuthExtractor.KeyIgnoresCase | go2postman.go:497 | two keys that agree rune by rune after ASCII case folding ("AUTHORIZATION" and "authorization") give the same auth for every value |
| AuthExtractor.SchemeIsCaseSensitive | go2postman.go:498-509 | no value starting with a lower-case 'b' ("bearer t", "basic x") is recognised, whatever the key |
| BodyClassifier.Classify | go2postman.go:544-575 | the language is the first of json, xml, javascript, html whose name the content type contains, else text |
| BodyClassifier.ClassifyTextIff | go2postman.go:569-575 | a content type classifies as text iff it contains none of the four names |
| BodyClassifier.ClassifyJson | go2postman.go:545-550 | every content type that mentions json anywhere is json, also when xml, javascript or html occur before it |
| BodyClassifier.ClassifyUnmarked | go2postman.go:569-575 | a content type without 'j', 'm' or 'h' is text |
| BodyClassifier.ClassifyPlain | go2postman.go:531 | the default "text/plain" classifies as text |
| BodyClassifier.FirstContentType | go2postman.go:532-537 | points at the first header whose key lower-cases to "content-type"; absent iff there is none |
| BodyClassifier.ContentTypeOf | go2postman.go:531-537 | the content type is the first Content-Type header's value, or "text/plain" when there is none |
| BodyClassifier.ContentTypeFirstWins | go2postman.go:532-537 | headers after the first Content-Type header do not change the content type |
| BodyClassifier.NoContentTypeIsText | go2postman.go:531 | with no Content-Type header the body is text |
| BodyClassifier.RequestBody | go2postman.go:525-577 | the raw text is the body; an empty body leaves mode and language unset; a non-empty body has mode "raw" and the language its content type classifies to |
| CurlScan.FlagAt | go2postman.go:355 | a match of `flag\s+['"]([^'"]+)['"]` at a position has the regex's shape: flag, white space, a quote, a capture with no quote, then a quote |
| CurlScan.FlagAtComplete | go2postman.go:355 | wherever the regex's shape is present, the scanner matches it, with those capture bounds |
| CurlScan.FlagShapeUnique | go2postman.go:355 | at a given position the capture of a flag pattern is unique |
| CurlScan.MethodAt | go2postman.go:265 | a match of `-X\s+['"]?([A-Z]+)['"]?` is "-X", white space, an optional quote, then the longest run of upper-case letters |
| CurlScan.MethodAtComplete | go2postman.go:265 | wherever that shape is present the scanner finds it |
| CurlScan.QuotedUrlAt | go2postman.go:274 | a match of `"(https?://[^"]+)"` is a double quote, the scheme, one or more non-quote runes, then a double quote |
| CurlScan.QuotedUrlAtComplete | go2postman.go:274 | wherever that shape is present the scanner finds it |
| CurlScan.BareUrlAt | go2postman.go:281 | a match of `\s(https?://\S+)` is a white-space rune, the scheme, then the longest run of non-space runes |
| CurlScan.BareUrlAtComplete | go2postman.go:281 | wherever that shape is present the scanner finds it |
| CurlScan.FirstMatch | go2postman.go:266 | FindStringSubmatch: the match found is the leftmost one; absent iff no position matches |
| CurlScan.FirstMatchIs | go2postman.go:266 | a match with none before it is the one found |
| CurlScan.FlagValue | go2postman.go:403-405 | the value is the capture of the leftmost match of the flag pattern, absent iff there is none; it is non-empty and has no quote |
| CurlScan.FlagValues | go2postman.go:355-356 | FindAllStringSubmatch: every capture is non-empty without quotes; there are none iff there is no first match; the first is the leftmost match and the others are the matches of the text after its closing quote |
| CurlScan.NextFlag | go2postman.go:355-356 | the leftmost match of the flag pattern gives its capture and the text after the closing quote; absent iff nothing matches |
| CurlScan.MethodValue | go2postman.go:265-268 | the value is the capture of the leftmost -X match, absent iff there is none; it is a non-empty run of upper-case letters |
| CurlScan.QuotedUrlValue | go2postman.go:274-278 | the value is the capture of the leftmost double-quoted URL match, absent iff there is none; it starts with http:// or https:// and holds no double quote |
| CurlScan.BareUrlValue | go2postman.go:281-285 | the value is the capture of the leftmost bare URL match, absent iff there is none; it starts with http:// or https:// and holds no white space |
| CurlScan.FlagMatchRendered | go2postman.go:355-356 | a flag written as flag 'value', with the flag not occurring before it, matches with that value and resumes right after the closing quote |
| CurlScan.FlagValueRendered | go2postman.go:424 | a flag written as flag 'value' is found with that value |
| CurlScan.FlagValuesRendered | go2postman.go:355-358 | several flags written in a row are all found, in order, with their values |
| CurlScan.RenderedFlagsRead | go2postman.go:355-358 | a run of flags written one after another, with nothing before them, is read back as exactly those values, in order |
| CurlScan.FlagValuesRenderedStep | go2postman.go:355-358 | a written flag is found first, and the search goes on after it |
| CurlScan.NoFlagNoValues | go2postman.go:356 | a command without the flag has no matches for it |
| CurlScan.NoFlagNoValue | go2postman.go:404 | a command without the flag has no first match for it |
| CurlScan.MethodValueRendered | go2postman.go:265-268 | "-X " + method, followed by a non-letter, is read back as the method |
| CurlScan.NoMethodFlag | go2postman.go:269-271 | a command without "-X" has no method capture |
| CurlScan.NoSchemeNoUrl | go2postman.go:273-286 | a command without http:// or https:// has no URL |
| CurlScan.QuotedUrlRendered | go2postman.go:274-278 | a URL in double quotes, with no double quote before it, is read back exactly |
| CurlParser.UrlText | go2postman.go:273-286 | the URL is the double-quoted one when there is one, else the bare one; it starts with http:// or https:// |
| CurlParser.FirstDataFlag | go2postman.go:416-438 | the chosen data flag is the first in the order -d, --data, --data-raw that matches; absent iff none matches |
| CurlParser.CurlBody | go2postman.go:415-438 | the mode is always "raw"; the body is json-annotated iff some data flag matches, and then holds the capture of the first flag in order that matches; otherwise the text is empty and the language unset |
| CurlParser.DataFlagOrder | go2postman.go:416-438 | when the k-th data flag is the first that matches, the body is its capture |
| CurlParser.CookieHeaders | go2postman.go:402-413 | one Cookie header iff the -b pattern matches, whose value is exactly the -b capture; none otherwise |
| CurlParser.FlagHeaders | go2postman.go:354-370 | one header per -H capture that holds ':' |
| CurlParser.CurlMethod | go2postman.go:264-271 | the method is the -X capture, or "GET" when there is none; it is always a non-empty upper-case word |
| CurlParser.NameAndUrl | go2postman.go:254-351 | with no URL the item keeps the empty URL and the name "Request N"; with one, the URL is decomposed and the name is the method and the last path segment, or "root" |
| CurlParser.ParseCurlCommand | go2postman.go:253-441 | the item's method, URL and name are as above; its headers are the -H headers then the cookie; its auth is that of the last -H header that sets one; its body is that of the first matching data flag |
| CurlParser.CurlRoundTrip | go2postman.go:253-441 | a command written with a method, a double-quoted URL, a -d body and -H headers parses to exactly those parts, with auth from the headers and the name from the URL |
| CurlParser.RenderedMethod | go2postman.go:264-271 | the written method is read back |
| CurlParser.RenderedUrl | go2postman.go:273-286 | the written URL is read back |
| CurlParser.RenderedBody | go2postman.go:415-438 | the written -d body is read back, annotated json |
| CurlParser.RenderedHeaders | go2postman.go:354-370 | the written headers are read back in order |
| CurlParser.NoUrlNamedByIndex | go2postman.go:254-256 | a command without a URL is named "Request " followed by the decimal digits of its index |
| CurlParser.CurlResourceName | go2postman.go:346-350 | the last path segment of the URL, or "root" when the URL has no segment |
| CurlParser.SingleQuotedUrlIgnored | go2postman.go:273-286 | a URL given in single quotes is not found |
| CurlParser.CurlAuthIsLastRecognised | go2postman.go:371-397 | the auth is that of the last -H header that sets one; the cookie header never does |
| HttpParser.RequestLine | go2postman.go:458-466 | fails iff the trimmed first line holds no space, reporting that line; otherwise the method is non-empty, and the method, a space and the target start the line, with the target ending at the next space or at the end of the line |
| HttpParser.RequestLineRoundTrip | go2postman.go:458-466 | "method target version" is read back as the method and the target |
| HttpParser.BlankLine | go2postman.go:473-478 | the header block ends at the first line that is blank after trimming; absent iff there is none |
| HttpParser.RequestHeaders | go2postman.go:469-490 | one header per line of the block that holds ':', each of type "text" with no ':' in its key |
| HttpParser.LastHostIndex | go2postman.go:492-494 | points at the last header whose key lower-cases to "host"; absent iff there is none |
| HttpParser.HeaderEnd | go2postman.go:473-478 | the header lines end at the first blank line after the request line, or at the end; every line between is non-blank |
| HttpParser.HostOf | go2postman.go:492-494 | the host is "" when no header key is "host" up to case; a non-empty host is the value of some Host header, and a Host header in last place decides it; HostOfSnoc gives the loop step |
| HttpParser.HostOfSnoc | go2postman.go:492-494 | a Host header overwrites the host seen so far, and any other header keeps it |
| HttpParser.BodyText | go2postman.go:525-528 | no body without a blank line, and none when the blank line is the last line; a non-empty body needs a line after the blank one, and a single such line is the body; BodyTextIsSuffix fixes it when more lines follow |
| HttpParser.BodyTextIsSuffix | go2postman.go:525-528 | whenever a line follows the first blank line, the body is exactly the request text after the newline that ends that blank line |
| HttpParser.AbsoluteTarget | go2postman.go:585-595 | the host is the text before the first '/', and the path is everything from that '/' on, or "/" when there is none |
| HttpParser.ResolveTarget | go2postman.go:579-612 | the protocol is http iff the target contains http:// but not https://, else https; a target with neither keeps the Host header's host and the target as path |
| HttpParser.HttpsTargetRoundTrip | go2postman.go:583-595 | "https://" host path resolves to that host and path |
| HttpParser.HttpTargetRoundTrip | go2postman.go:596-608 | "http://" host path resolves to that host and path |
| HttpParser.HostThenPath | go2postman.go:587-595 | host followed by a path starting with '/' is split back into the two |
| HttpParser.EmbeddedSchemeLosesHost | go2postman.go:583-595 | an origin-form target that merely contains https:// gets an empty host |
| HttpParser.HttpSegments | go2postman.go:634-649 | the segments are the non-empty '/'-pieces of the path, the same as ParseURL's path segments; none holds '/', nor '?' when the path has none |
| HttpParser.LeadingSlashIsDropped | go2postman.go:634-649 | dropping one leading '/' before splitting loses only an empty piece, so the segments are the same as ParseURL's |
| HttpParser.RequestUrl | go2postman.go:614-676 | the host is split on '.'; the segments are those of the path before its first '?'; the query pairs are those of the text after it, and there is a query iff the path holds '?'; the raw URL is protocol://host, then the segments, then the written-back query |
| HttpParser.ParsedKeysHaveNoEquals | go2postman.go:623-626 | parsed query keys hold no '=' |
| HttpParser.QueryReparses | go2postman.go:657-667 | the query written into the raw URL parses back to the same pairs |
| HttpParser.RenderRaw | go2postman.go:651-667 | the raw URL starts with protocol://host, is exactly that without segments or query, and adds ?query when there is a query but no segment; RequestUrlReparses shows ParseURL reads it back |
| HttpParser.RequestUrlReparses | go2postman.go:651-676 | the raw URL that is built reparses under ParseURL to the same URL |
| HttpParser.ParseHttpRequest | go2postman.go:444-687 | fails iff the trimmed first line has no space; otherwise the method starts that line, headers come from the block before the first blank line, auth is that of the last Authorization header that sets one, the body is the text after the blank line, and the name is the method with the last path segment or else the host |
| HttpParser.RequestUrlOfTarget | go2postman.go:579-676 | the URL is built from the target resolved against the last Host header |
| HttpParser.NameIsAlwaysComputed | go2postman.go:678-684 | neither the supplied name nor the index changes the result |
| HttpParser.RequestAlwaysHasALine | go2postman.go:453-456 | splitting on newlines always gives a first line, so the empty-request error cannot occur |
| HttpParser.RequestRoundTrip | go2postman.go:444-687 | a request written as request line, header lines, a blank line and a body parses back with that method, those headers, the auth they give and that body |
| HttpParser.RequestLinesSplit | go2postman.go:453 | splitting a written request on newlines gives back its lines |
| HttpParser.ParsedFromLines | go2postman.go:458-577 | once the request line parses, the method, headers, auth and body are those of the lines |
| HttpParser.WrittenRequestLine | go2postman.go:458-466 | the written request line is read back |
| HttpParser.WrittenBlankLine | go2postman.go:473-478 | the header block of a written request ends at its blank line |
| HttpParser.WrittenHeaders | go2postman.go:469-523 | the headers of a written request are read back in order |
| HttpParser.HeaderBlock | go2postman.go:469-490 | header lines closed by a blank line are collected back as the headers they were written from |
| HttpParser.WrittenHeaderLine | go2postman.go:474-478 | a written header line is unchanged by trimming and is not blank |
| HttpParser.WrittenLinesAreTrimmed | go2postman.go:474 | trimming written header lines changes none of them |
| HttpParser.WrittenBody | go2postman.go:525-528 | the body of a written request is read back |
| FileProcessing.CurlLines | go2postman.go:759-761 | the command lines are the lines starting with "curl ", and no others |
| FileProcessing.CurlLinesAppend | go2postman.go:759-761 | the command lines of two runs of lines are those of the first, then those of the second |
| FileProcessing.CurlItems | go2postman.go:757-769 | there is one item per command line |
| FileProcessing.CurlItemsSnoc | go2postman.go:759-769 | a further command line adds its item, numbered one past the items before it; any other line adds nothing |
| FileProcessing.CurlItemsAre | go2postman.go:757-769 | item k of a file is its k-th command line parsed with the 1-based index k + 1 |
| FileProcessing.CommandsSnoc | go2postman.go:759-769 | for any conversion, one more line adds its converted form numbered one past the command lines before it when it is a command, and nothing otherwise |
| FileProcessing.Indexed | go2postman.go:704-742 | one result per element, element k converted with its 1-based position k + 1 |
| FileProcessing.NonCurlLineIsSkipped | go2postman.go:761-769 | inserting a non-command line changes no item and no index |
| FileProcessing.ProcessCurlFile | go2postman.go:748-777 | the loop returns the items of the command lines, in order, each parsed with its 1-based number among the command lines |
| FileProcessing.ConvertCommands | go2postman.go:759-769 | the loop converts exactly the command lines, in order, numbering them from 1 and skipping the other lines |
| FileProcessing.ResourceName | go2postman.go:720-732 | the resource name is non-empty with no '/'; for a path not ending in '/' it is the path's last '/'-piece, and a path ending in '/' gives "request"; with no path it is the url's name, and with neither it is "request" |
| FileProcessing.LastPiece | go2postman.go:723-726 | the last '/'-piece is a '/'-free suffix of the path, preceded by '/' or the whole path; it is empty iff the path is empty or ends in '/' |
| FileProcessing.UrlName | go2postman.go:727-731 | the last segment ParseURL finds in the url, or "request" when it fails or finds no segment; never empty and never holding '/' |
| FileProcessing.ResourceNameOfPath | go2postman.go:722-726 | for every path dir + "/" + name with a non-empty, '/'-free name, the resource name is that name |
| FileProcessing.RequestData | go2postman.go:706-717 | content is decoded only when the base64 attribute is exactly "true"; any other attribute value passes the content through and never fails |
| FileProcessing.DisplayName | go2postman.go:734 | the name is the method, a space, then the resource name, which is non-empty and '/'-free |
| FileProcessing.ConvertBurpItem | go2postman.go:704-741 | an item fails with an undecodable warning iff its base64 content does not decode; otherwise it is the item ParseHttpRequest gives for the request text, or the unparseable warning carrying ParseHttpRequest's error; every warning carries the item's 1-based position |
| FileProcessing.Outcomes | go2postman.go:704-742 | one outcome per Burp item, the k-th being the conversion of the k-th item at position k + 1 |
| FileProcessing.Successes | go2postman.go:741 | the items kept are at most the outcomes |
| FileProcessing.Failures | go2postman.go:712-738 | the warnings are at most the outcomes |
| FileProcessing.OutcomesPartition | go2postman.go:704-742 | each Burp item yields either a collection item or a warning |
| FileProcessing.SuccessesAppend | go2postman.go:736-741 | a skipped Burp item does not affect the items after it |
| FileProcessing.OutcomeSnoc | go2postman.go:704-742 | one more Burp item adds exactly its item or its warning |
| FileProcessing.ProcessBurpXml | go2postman.go:690-745 | the loop returns the items of the successful conversions and the warnings of the failed ones, both in input order, and their counts add up to the number of Burp items |
| FileProcessing.ConvertAll | go2postman.go:704-742 | the loop keeps the items of the successful conversions and the warnings of the failed ones, both in input order |
| FileProcessing.BurpNameIsDiscarded | go2postman.go:734-735 | the method, path and url attributes of a Burp item do not change its conversion |

## Left out

- Command-line handling, flags, usage text and the choice of input kind
  (go2postman.go:37-244) are not modelled. They are I/O around the core.
- Opening and reading files is not modelled.
  - `ProcessCurlFile` takes the lines that `bufio.Scanner` would deliver.
  - The scanner's own read errors, its line-length limit and its dropping of `\r` before
    `\n` are not modelled.
- XML decoding of the Burp export is not modelled. `ProcessBurpXml` takes the decoded items.
- Base64 decoding is a parameter. `RequestData` calls it only when the attribute is
  exactly `"true"`, and a `None` result stands for a decoding error.
- JSON encoding is not modelled:
  - the `omitempty` tags;
  - the distinction between nil and empty slices;
  - the body `options` map (a `Language` value stands for it).
- The collection envelope is not modelled: name, description, schema, UUID and timestamp.
- Printed warnings are returned as `Warning` values. The message text is not modelled.
- The warning branch in the cURL loop (go2postman.go:763-766) cannot be taken:
  `ParseCurlCommand` never returns an error. It is modelled as returning an item directly.
- The `len(lines) == 0` check (go2postman.go:454-456) cannot fire: `strings.Split` always
  returns a piece. `HttpParser.RequestAlwaysHasALine` shows this, and no error case
  exists for it.
- Go strings are byte sequences. Invalid UTF-8 and its replacement-rune behaviour are not
  modelled: text is a sequence of code points.
- `strings.ToLower(x) == "literal"` is modelled only for the literals the code compares
  against, which are ASCII lower case.
- Only the regular expressions of `ParseCurlCommand` are modelled, each by a scanner
  with that pattern's semantics. There is no general regular-expression engine.
- CurlParser.FlagHeaders: its contract gives only the number of headers (one per capture
  holding ':'). Their contents follow from `Headers.ParseHeaderLine` and are pinned down by
  `CurlParser.RenderedHeaders`.
- HttpParser.RequestHeaders: its contract gives only the count and the shape of the
  headers. Their contents are pinned down by `HttpParser.HeaderBlock` and
  `HttpParser.RequestRoundTrip`.
- FileProcessing.Successes and FileProcessing.Failures: their contracts give only bounds.
  What they select is stated by `FileProcessing.OutcomeSnoc`, `OutcomesPartition` and
  `SuccessesAppend`.
