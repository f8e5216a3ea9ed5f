# SDP codec preference, modelled in Dafny

This project models the SDP rewriter of the peer-connection audio demo. The
demo took the rewriter from AppRTC's sdputils. `maybePreferCodec(sdp, type,
dir, codec)` works on a session description: a text of CRLF-separated
`type=value` lines (section 5 of RFC 4566). It does five things:

1. It splits the text on CRLF.
2. It finds the first `m=` line that mentions the media type.
3. It finds the first `a=rtpmap` line that mentions the codec and reads the
   payload type from that line.
4. It moves that payload type to the front of the `m=` line's format list.
   The list gives the preference order (section 5.1 of RFC 3264).
5. It joins the lines again.

When a lookup misses, the input comes back unchanged. `forceChosenAudioCodec`
calls the rewriter for audio, using the codec picked in the page's selector.

Modules:

- `Wrappers`: `Option`. It stands where the source returns `null`.
- `JsString`: the JavaScript string operations the rewriter uses, on
  `seq<char>`:
  - `indexOf(prefix) === 0` becomes `StartsWith`.
  - `indexOf(w) !== -1` becomes `Contains`.
  - `toLowerCase` becomes `Lower`, which folds ASCII only.
  - `split` with a non-empty separator becomes `Split`. It takes the
    leftmost occurrence each time and occurrences do not overlap.
  - `join` becomes `Join`.

  The lemmas prove both round trips of `Split` and `Join`.
- `SdpUtils`: the rewriter itself. The source's loops are methods with
  loop invariants. Each method is proved equal to a specification function:
  - `FindLineInRange` is proved against `FirstMatch`.
  - `SetDefaultCodec` is proved against `DefaultCodecLine`.
  - `MaybePreferCodec` is proved against `PreferCodec`.

  The lemmas then state what the source promises about those functions.
  `getCodecPayloadType` runs the unanchored regular expression
  `a=rtpmap:(\d+) \w+\/\d+`. It is modelled as a search that tries each
  start position in turn (`MatchAt`, `MatchAttempts`, `FirstSome`). The
  declarative predicate `RtpmapAt` says what a match of the pattern is, and
  `RtpmapAt` is proved equivalent to `MatchAt`.
- `SdpExamples`: a worked offer. Its `m=audio` line lists payload type 111 first.
  Preferring `ISAC/16000` moves 103 to the front.

Quirks of the source that the model keeps:

- `if (codecIndex)` treats an `a=rtpmap` hit on line 0 as a miss.
- The case-insensitive search matches anywhere in the line.
- An empty search string matches every line that has the prefix.
- An `m=` line with fewer than three tokens gets the payload type appended.
- `setDefaultCodec` drops every copy of the payload type from the format
  list. It inserts the payload type even when the line did not list it.

## Model

| member | source | states |
|---|---|---|
| SdpUtils.FindLineInRange | js/main.js:256-267 | returns the least index in `[startLine, realEndLine)` whose line starts with `prefix` and, for a non-empty `substr`, contains it ignoring case; returns `None` when no line matches; `endLine` of -1 means the end of the array |
| SdpUtils.FindLine | js/main.js:250-252 | the same search over the whole array |
| SdpUtils.FirstMatchIsFirst | js/main.js:256-267 | the recursive search yields the least matching index, or `None` exactly when no line in the range matches |
| SdpUtils.FirstMatchUnique | js/main.js:256-267 | any least-match answer is the one the search computes |
| SdpUtils.CodecPayloadTypeSpec | js/main.js:270-274 | the payload type is `None` exactly when the pattern matches nowhere in the line; otherwise it is the digit group of the leftmost match, a non-empty digit string |
| SdpUtils.CodecPayloadType | js/main.js:270-274 | `getCodecPayloadType` yields either `null` or a non-empty digit string; `CodecPayloadTypeSpec` says which one |
| SdpUtils.MatchAtIsRtpmapAt | js/main.js:271-273 | the match attempt at a position yields group `d` if and only if the pattern `a=rtpmap:(\d+) \w+\/\d+` matches there with group `d` |
| SdpUtils.MatchAtSound | js/main.js:271-273 | what the attempt finds is a match of the pattern |
| SdpUtils.MatchAtComplete | js/main.js:271-273 | every match of the pattern is what the attempt finds |
| SdpUtils.DigitRun | js/main.js:271 | `\d+` consumes the longest run of digits |
| SdpUtils.WordRun | js/main.js:271 | `\w+` consumes the longest run of word characters |
| SdpUtils.SetDefaultCodec | js/main.js:277-291 | the loop builds the line `DefaultCodecLine` describes: the first three tokens, then the payload type, then every later token that differs from it |
| SdpUtils.DefaultCodecTokens | js/main.js:277-291 | for a payload type without a space, read back as tokens, the new line keeps tokens 0-2 verbatim; token 3 is the payload type; the tokens after it are the old tokens from index 3 with every copy of the payload type removed; from index 3 on, the payload type occurs once and every other token keeps its count; a line with fewer than three tokens gets the payload type appended |
| SdpUtils.PreferTokensShape | js/main.js:280-289 | the same shape, stated on the token list |
| SdpUtils.PreferTokensCount | js/main.js:283-289 | from index 3 on, the payload type occurs once; every other token keeps its multiplicity |
| SdpUtils.RemoveAllMultiset | js/main.js:285-289 | the filter drops every copy of the payload type and keeps every other token's multiplicity |
| SdpUtils.RemoveAllSubsequence | js/main.js:285-289 | the kept tokens stay in their original relative order |
| SdpUtils.RemoveAllAbsent | js/main.js:285-289 | the filter changes nothing when the payload type is absent |
| SdpUtils.DefaultCodecLineSplits | js/main.js:278-290 | splitting the new line on spaces gives back exactly the token list that was built, given a payload type without a space |
| SdpUtils.PreferTokensIdempotent | js/main.js:281-289 | rebuilding an already rebuilt list of three or more tokens changes nothing |
| SdpUtils.DefaultCodecIdempotent | js/main.js:277-291 | `setDefaultCodec` applied twice with the same payload type equals applying it once, for a line of three or more tokens and a payload type without a space |
| SdpUtils.MaybePreferCodec | js/main.js:217-246 | the imperative rewrite, with the in-place line overwrite, returns the text `PreferCodec` describes |
| SdpUtils.ForceChosenAudioCodec | js/main.js:209-211 | the text `maybePreferCodec` returns for media type `audio` |
| SdpUtils.PreferCodecUnchanged | js/main.js:219-245 | the output is the input exactly in each of these cases: the codec string is empty; no line is an `m=` line of the media type; no line is an `a=rtpmap` line naming the codec; the first such line is line 0; or the pattern does not match the first such line |
| SdpUtils.ResolvedPayloadDigits | js/main.js:237-241 | a payload type that passes both truthiness tests is a non-empty digit string, so it holds no space and no CRLF |
| SdpUtils.PreferCodecRewrite | js/main.js:226-244 | on a rewrite the output has as many lines as the input; the `m=` line is replaced by its `setDefaultCodec` rewrite; every other line is identical |
| SdpUtils.DefaultCodecLineOneLine | js/main.js:277-291 | the rewritten `m=` line holds no CRLF, so it stays one line |
| SdpUtils.FirstMatchAgree | js/main.js:256-267 | two arrays whose lines agree on the test have the same first match |
| SdpUtils.DefaultCodecLineStillMatches | js/main.js:229-240 | when the first token names the media type, the rewritten `m=` line still matches the `m=` search |
| SdpUtils.RewrittenMediaLineFound | js/main.js:229-240 | after the rewrite, the same `m=` line is again the first match |
| SdpUtils.RewrittenPayloadResolved | js/main.js:235-241 | after the rewrite, the same `a=rtpmap` line and payload type are found again |
| SdpUtils.PreferCodecIdempotent | js/main.js:217-246 | rewriting the rewritten text changes nothing, when the target `m=` line has at least three tokens and its first token holds the media type |
| JsString.Split | js/main.js:226 | `split` always yields at least one piece; `JoinSplit`, `SplitJoin` and `SplitPieces` state what the pieces are |
| JsString.Join | js/main.js:244 | `join` starts with the first piece, and its length is the pieces' total length plus one separator between each pair of neighbours |
| JsString.JoinSplit | js/main.js:226-244 | joining the CRLF-split lines with CRLF gives back the text, for any non-empty separator |
| JsString.SplitJoin | js/main.js:226-244 | splitting a join gives the pieces back, when no piece contains the separator and the separator cannot overlap itself |
| JsString.SplitPieces | js/main.js:278 | the first piece of a split is a prefix of the string; no piece contains the separator; every piece occurs in the string |
| JsString.SplitSkip | js/main.js:226 | where no separator starts inside `a`, the split of `a + rest` glues `a` onto the first piece of `rest` |
| JsString.LowerChar | js/main.js:261 | an ASCII upper-case letter maps to the lower-case letter at the same place in the alphabet; every other character is kept |
| JsString.Lower | js/main.js:261 | `toLowerCase` keeps the length and leaves no ASCII upper-case letter |
| JsString.LowerCharEqual | js/main.js:261 | two characters fold to the same one if and only if they differ at most in ASCII case |
| JsString.LowerEqual | js/main.js:261 | two lines fold to the same text if and only if they have the same length and differ at most in the ASCII case of each character |
| SdpExamples.IsacPreferred | js/main.js:217-246 | on the two-line offer `m=audio 9 UDP/TLS/RTP/SAVPF 111 103 104` / `a=rtpmap:103 ISAC/16000`, preferring `ISAC/16000` yields `m=audio 9 UDP/TLS/RTP/SAVPF 103 111 104` with the rtpmap line unchanged |
| SdpExamples.IsacPayload | js/main.js:270-274 | the payload type read from `a=rtpmap:103 ISAC/16000` is `103` |

## Left out

- Everything in `js/main.js` outside lines 209-291 is left out. This covers
  DOM access, the peer-connection offer/answer and ICE chain, `getUserMedia`,
  the callstats telemetry and the once-a-second statistics poller. These are
  browser and library calls, timers and floating-point bitrate arithmetic.
  The codec selector's value becomes the `codec` parameter of
  `ForceChosenAudioCodec`.
- `trace` and `console.log` are left out. They have no effect on the
  result, and neither has the `dir` argument, which only feeds a trace
  message.
- JsString.Lower: it folds ASCII letters only. JavaScript's `toLowerCase`
  also folds non-ASCII letters, and some of them change length.
- SdpUtils.MatchAt: the regular-expression engine is replaced by a
  character-class scan. `\d` is `0-9` and `\w` is `[A-Za-z0-9_]`. These are
  the classes without the Unicode flag, and the scan gives the same leftmost
  match because neither run can backtrack to an earlier end.
- The check `result.length === 2` is not modelled separately. The pattern
  has exactly one group, so the check always holds when there is a match.
- SdpUtils.FindLineInRange: when the range is not empty, it requires the
  whole range `[startLine, realEndLine)` to lie inside the array. The source
  needs less: a range that runs past the end still returns normally when a
  line before the end matches, because the loop returns before it reads
  past the end (`["m=audio"]` searched over `[0, 5)` returns 0). The model
  refuses such calls. Only when the loop reaches an index outside the array
  does the source read `undefined` and throw a `TypeError`, and that error
  path is not modelled either. The one caller, `findLine`, passes the whole
  array, so the rewriter never makes such a call.
- `sdpLines` and `newLine` are JavaScript arrays updated in place. In the
  model they are `seq` values that the methods reassign. Nothing else holds
  a reference to them, so the aliasing cannot be observed.
- SdpUtils.PreferCodecIdempotent: idempotence of the whole rewrite is proved
  only when the target `m=` line has at least three tokens and its first
  token holds the media type. It does not hold without these conditions:
  - The search can find the media type inside the format list, and the
    rewrite reorders that list.
  - A line with fewer than three tokens gets another copy of the payload
    type on the second pass, so the second result differs from the first.
    The line stops changing once it has four tokens.
- SdpUtils.DefaultCodecTokens: the multiset statement is that the payload
  type occurs exactly once from index 3 on. The rewrite inserts it whether
  or not it was listed. The formats are therefore a permutation of the old
  ones only when the old list held exactly one copy of the payload type.
