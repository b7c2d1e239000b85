# WechatMP-to-Dify: the message core, in Dafny

WechatMP-to-Dify connects a WeChat Official Account to a Dify chat application. It consists of
three near-identical webhook servers: main.py (FastAPI), handle-Flask.py (Flask) and handle.py
(Flask, verification only). Under the framework glue, four small pieces of string logic do the work:

- **`verify`** answers WeChat's server-verification handshake. It sorts the secret token,
  `timestamp` and `nonce`, joins them with no separator and hashes the result with SHA-1. The
  hex digest must equal `signature`, and then `echostr` is sent back unchanged. The Flask
  versions first abort with 400 when a parameter is absent or empty.
- **`process_message`** posts the user's query to Dify. The reply is either one JSON document or
  an event stream of `data: {...}` lines. Each line is stripped and has every `data: ` removed.
  The line is recorded in `response_data`, decoded as JSON, and its `answer` fields are
  concatenated. A status flag `code` drops to -1 on:
  - a non-200 status;
  - an unknown content type;
  - a rejected line;
  - an exception.

  A leading `0:`/`1:` role marker is then stripped. handle-Flask.py also sets `code` to -1 when
  the final answer is empty.
- **`parse_message`** flattens the pushed XML message into a dictionary from child tag to text.
- **`generate_reply`** fills the XML text-reply template, addressed back to the sender.

The model has five modules:

| file | module | models |
|---|---|---|
| wrappers.dfy | `Wrappers` | `Option`, which stands for Python's `None` and the missing dictionary key |
| text.dfy | `Text` | the parts of `str` the servers use: `isspace`/`strip`, a one-pass `replace`, the code-point order `<=`, `sorted` and `''.join` |
| signature.dfy | `Signature` | the three `verify` functions |
| codec.dfy | `Codec` | `parse_message` (a loop that fills a map), `generate_reply`, and `str(int)` for `CreateTime` |
| aggregation.dfy | `Aggregation` | `process_message` |

`process_message` is modelled in two forms:
- a class `Aggregator` whose fields are the loop's accumulators `answer`, `response_data` and
  `code`, with a method for each step the code takes;
- a method `ProcessMessage` that runs the line loop and is proved equal to the pure
  specification `Outcome`.

Facts about the whole call are then proved about `Outcome`. Everything about the loop's
accumulators is proved about the left fold `Fold` (recursion on the last line, lines applied first to last), which mirrors the loop. Each fact is
related to an independent per-line view: the contributions (`Answers`), the transcript
(`Transcript`) and the rejected lines (`AnyRejected`).

Three library calls become function-valued parameters. The model assumes nothing about them
beyond their being functions:
- SHA-1 (`hashlib.sha1(...).hexdigest()`) is `sha1: string -> string`.
- `json.loads` and `response.json()` are `parse: string -> Parsed`. `Parsed` is either
  `Invalid` or a document whose `answer` key may be absent.
- `ET.fromstring` is `fromString`. It yields the root's direct `(tag, text)` children, or
  `None` on a parse error.

The HTTP exchange is an input value `Upstream`, which is one of:
- no response at all;
- a response, given by its status, content type and decoded body lines, plus a flag `cut`. `cut`
  says that reading the body raised after those lines.

## Model

| member | source | states |
|---|---|---|
| Text.Strip | main.py:63 | `str.strip()`; its contract is stated by `StripSpec`, `StripKeepsTrimmed` and `StripIdempotent` |
| Text.StripSpec | main.py:63 | `strip()` leaves a slice of the input with only whitespace around it, and the result neither starts nor ends with whitespace |
| Text.TrimStartSpec | main.py:63 | the leading-whitespace half of `strip()`: a suffix of the input, all of the removed text is whitespace, and the result does not start with whitespace |
| Text.TrimEndSpec | main.py:63 | the trailing-whitespace half of `strip()`: a prefix of the input, all of the removed text is whitespace, and the result does not end with whitespace |
| Text.StripKeepsTrimmed | main.py:87 | a string with no surrounding whitespace is its own strip |
| Text.StripIdempotent | main.py:87 | stripping twice is stripping once |
| Text.Replace | main.py:63 | `str.replace(pat, rep)` as one left-to-right pass over non-overlapping occurrences; its contract is stated by `ReplaceWithoutOccurrence`, `ReplaceSkipsPrefix` and `ReplaceShrinks` |
| Text.ReplaceWithoutOccurrence | main.py:63 | `replace` leaves a string in which the pattern does not occur unchanged |
| Text.ReplaceSkipsPrefix | main.py:63 | `replace` copies any prefix in which no occurrence of the pattern starts, and continues the scan on the rest |
| Text.ReplaceShrinks | main.py:63 | replacing `data: ` by the empty string never lengthens a line |
| Text.Concat | main.py:135 | `''.join(list)`: the strings concatenated in order; used by `Digest` and by the JSON branch of `Outcome` |
| Text.LexLe | main.py:134 | Python's `<=` on `str`, which `sorted` uses; its contract is stated by `LexLeTotal`, `LexLeAntisymmetric` and `LexLeTransitive`, and `Sort` is proved sorted by it |
| Text.LexLeTotal | main.py:134 | Python's `str` order is total |
| Text.LexLeAntisymmetric | main.py:134 | Python's `str` order is antisymmetric |
| Text.LexLeTransitive | main.py:134 | Python's `str` order is transitive |
| Text.Insert | handle-Flask.py:141 | one insertion step of the sort: the result is sorted and is the input with `x` added, as a multiset |
| Text.Sort | main.py:134 | `sorted(...)`: the result is sorted and is a permutation of the input |
| Text.SortedUnique | main.py:134 | two sorted sequences with the same elements are equal, so the sorted order is unique |
| Text.SortPermutationInvariant | handle.py:46-47 | sorting forgets the order of the input: permutations sort to the same sequence |
| Signature.Digest | main.py:134-137 | `sha1(''.join(sorted([TOKEN, timestamp, nonce])))`; its contract is stated by `DigestOfSortedArrangement` and `DigestSymmetric` |
| Signature.DigestOfSortedArrangement | main.py:134-137 | the digest is the SHA-1 of the join of ANY ascending arrangement of token, `timestamp` and `nonce` |
| Signature.DigestSymmetric | handle.py:46-50 | exchanging `timestamp` and `nonce` leaves the digest unchanged |
| Signature.VerifyMain | main.py:134-142 | the reply is either `echostr` unchanged or a 403 abort, and it is `echostr` exactly when the digest equals `signature` |
| Signature.VerifyMainAcceptsSortedJoin | main.py:134-142 | main.py `verify` echoes exactly when the hash of the sorted join equals `signature`, and aborts with 403 otherwise |
| Signature.Arg | handle-Flask.py:132-135 | `request.args.get(name, '')`: the argument, or `''` when absent; `VerifyFlask` and `VerifyHandle` state their replies through it |
| Signature.Missing | handle-Flask.py:136-137 | `not all([signature, timestamp, nonce, echostr])`: some argument is absent or empty; `VerifyFlask` and `VerifyHandle` state that it holds exactly when they abort with 400 |
| Signature.VerifyFlask | handle-Flask.py:131-148 | the reply is a 400 abort exactly when a parameter is absent or empty, whatever the hash function; any other abort is 403; an echo is the non-empty `echostr` argument |
| Signature.VerifyFlaskAcceptsSortedJoin | handle-Flask.py:140-148 | with every parameter present, the Flask `verify` echoes exactly when the hash of the sorted join equals `signature`, and aborts with 403 otherwise |
| Signature.VerifyHandle | handle.py:31-54 | handle.py `verify` aborts with 400 exactly when a parameter is missing; otherwise it echoes exactly when the digest computed with the fixed secret `sk_wechat` equals `signature`, and a mismatch aborts with 403; any abort is 400 or 403, and an echo is exactly the `echostr` argument |
| Signature.VerifyHandleSwapInvariant | handle.py:46-49 | exchanging the `timestamp` and `nonce` values does not change the verdict |
| Codec.FlattenStep | main.py:103-104 | storing child `n` over the dictionary of the first `n` children gives the dictionary of the first `n + 1` |
| Codec.Flatten | main.py:102-105 | the loop yields exactly one entry per distinct child tag, holding the text of the last child with that tag |
| Codec.ParseMessage | main.py:99-105 | `None` exactly when the XML parser fails; otherwise the keys are the child tags and each value is the text of the last child with that tag |
| Codec.DigitChar | main.py:114 | one decimal digit character of the value it stands for |
| Codec.NatToString | main.py:114 | `str(n)` is a non-empty string of digits with no leading zero |
| Codec.IntToString | main.py:114 | `str(tim)` in the f-string: a minus sign before the digits of a negative number; its contract is stated by `IntToStringRoundTrip` |
| Codec.NatToStringRoundTrip | main.py:114 | the decimal value of `str(n)` is `n` |
| Codec.IntToStringRoundTrip | main.py:114 | `int(str(i)) == i`, so the `CreateTime` text determines the timestamp |
| Codec.GenerateReply | main.py:108-119 | the template filled with the four values; its contract is stated by `ReplyLength`, `ReplyAddressedBack`, `ReplyTextContent` and `ReplyNotEscaped` |
| Codec.FillValues | main.py:110-118 | in the filled template the two addressed values sit at their offsets and the text ends with the part from MsgType on |
| Codec.ReplyLength | main.py:108-119 | the reply's length is the template's plus that of the four values, so nothing is escaped or dropped |
| Codec.FillFront | main.py:110-113 | the filled template begins with the lead, the first value, its separator, the second value and its separator |
| Codec.ReplyAddressedBack | main.py:110-113 | the reply begins with `<xml>`, `<ToUserName><![CDATA[`, `from_user`, `]]></ToUserName>`, `<FromUserName><![CDATA[`, `to_user` and `]]></FromUserName>`, so `ToUserName` holds `from_user` and `FromUserName` holds `to_user`, verbatim |
| Codec.ReplyTextContent | main.py:115-117 | the reply ends with MsgType `text`, then the content verbatim inside CDATA, then the closing text |
| Codec.FillShift | main.py:112-113 | a value that carries the separator after it can be moved into its neighbour without changing the filled text |
| Codec.ReplyNotEscaped | main.py:112-113 | a sender name containing `]]>` and the following template text gives the same reply as a different sender and recipient, so values are not escaped |
| Aggregation.CleanLine | main.py:63 | `line.strip().replace('data: ', '')`; its contract is stated by `StripDataLine`, `CleanDataLine`, `InnerDataRemoved` and `BlankDataLineReachesDecoder` |
| Aggregation.AnswerOf | main.py:70 | `data.get('answer', '')`: the answer, or `''` when absent; `StepCharacterised`, `JsonResponse` and `DataLineContributes` state its use |
| Aggregation.Step | main.py:63-76 | one pass of the line loop; its contract is stated by `StepCharacterised` |
| Aggregation.Fold | main.py:62-76 | the line loop over a whole body; its contract is stated by `FoldAnswer`, `FoldTranscript`, `FoldCode` and `FoldAppend` |
| Aggregation.Received | main.py:48-86 | the accumulators when the `try` block is left, normally or through the `except` clause; its contract is stated by `NoResponseFails`, `NonOkStatusFails`, `UnknownContentTypeFails`, `JsonResponse`, `StreamResponse` and `StreamInterrupted` |
| Aggregation.Outcome | main.py:48-96 | the answer `process_message` returns and its final `code`, in either server; its contract is stated by the lemmas above and by `FlaskForcesCodeOnEmpty`, and `ProcessMessage` is proved equal to it |
| Aggregation.AnswersAppend | main.py:72 | the contributions of two consecutive pieces of a stream are concatenated in order |
| Aggregation.TranscriptAppend | main.py:64 | the transcripts of two consecutive pieces of a stream are concatenated in order |
| Aggregation.StepCharacterised | main.py:63-76 | one loop pass adds the line's contribution to `answer` and its cleaned text plus a newline to `response_data`; it sets `code` to -1 exactly when the decoder rejects the line |
| Aggregation.FoldAnswer | main.py:65-72 | after the loop, `answer` is the in-order concatenation of the non-empty answers of the lines that decode; `[DONE]` and blank lines add nothing |
| Aggregation.FoldTranscript | main.py:63-64 | `response_data` receives every cleaned line and a newline, `[DONE]` and blank lines included |
| Aggregation.FoldCode | main.py:73-76 | after the loop, `code` is -1 exactly when some line was rejected by the decoder, and unchanged otherwise |
| Aggregation.FoldAppend | main.py:62 | running the loop over two pieces of a stream one after the other is running it over the whole stream |
| Aggregation.SilentLineDropped | main.py:65-72 | a line that contributes nothing can be removed without changing `answer` |
| Aggregation.BadLineTolerated | main.py:73-76 | a line the decoder rejects sets `code` to -1 and does not stop the loop: the answer is what the lines around it give |
| Aggregation.AcceptedLineDropped | main.py:73-74 | removing a line the decoder does not reject does not change whether some line was rejected |
| Aggregation.SkippedLineIgnored | handle-Flask.py:62-66 | dropping a `[DONE]` or blank line changes neither `answer` nor `code` |
| Aggregation.TranscriptAround | handle-Flask.py:63 | the transcript of a stream around one line is the transcripts before and after it, with that line's cleaned text and a newline in between |
| Aggregation.EveryLineRecorded | handle-Flask.py:62-64 | every line, wherever it is in the stream, is written to `response_data` in its cleaned form followed by a newline |
| Aggregation.HasMarker | main.py:87 | `answer[:2] in ("0:", "1:")`; `StripMarker` and `StripMarkerOfMarked` state what it selects |
| Aggregation.StripMarker | main.py:87 | the strip never lengthens the answer; when the answer starts with `0:` or `1:` the result is `strip()` of the rest of the answer, at most `len - 2` characters, with only whitespace removed around it; otherwise the answer is unchanged |
| Aggregation.StripMarkerOfMarked | handle-Flask.py:88 | a marked answer becomes its remainder stripped, so `"0:hello"` becomes `"hello"` |
| Aggregation.Aggregator.constructor | main.py:48-55 | the accumulators start empty (lines 48-49), with the `code` 0 a 200 response sets (line 55) |
| Aggregation.Aggregator.FeedLine | main.py:63-76 | one loop pass changes the accumulators exactly as the specification step `Step` does |
| Aggregation.Aggregator.Fail | main.py:83-86 | the `except` clause sets `code` to -1 and keeps everything accumulated |
| Aggregation.Aggregator.StripRoleMarker | main.py:87 | `answer` is replaced by its marker-stripped form, and nothing else changes |
| Aggregation.Aggregator.FlagEmptyAnswer | handle-Flask.py:93-95 | an empty answer turns a `code` that is not yet -1 into -1, and nothing else changes |
| Aggregation.ProcessMessage | main.py:39-96 | the returned answer and the final `code` are those the specification `Outcome` gives for the same exchange and decoder, in either server |
| Aggregation.NoResponseFails | main.py:50-86 | a request that raises before any response, such as `asyncio.TimeoutError`, gives the empty answer and `code == -1` in both servers |
| Aggregation.NonOkStatusFails | handle-Flask.py:81-83 | a status other than 200 gives the empty answer and `code` -1 |
| Aggregation.UnknownContentTypeFails | handle-Flask.py:78-80 | a 200 response that is neither JSON nor an event stream gives the empty answer and `code` -1 |
| Aggregation.JsonResponse | handle-Flask.py:56-58 | a JSON reply yields its `answer` field, or `''` when that key is absent, marker-stripped; a body that does not decode or cannot be read goes to the `except` clause (empty answer, `code` -1) |
| Aggregation.StreamResponse | main.py:60-76 | a stream read to its end yields the in-order contributions, marker-stripped; `code` is -1 exactly when some line was rejected (or, in the Flask server, when the answer is empty) |
| Aggregation.StreamInterrupted | main.py:83-87 | a stream cut off by an exception keeps the answer accumulated so far, marker-stripped, with `code` -1 |
| Aggregation.FlaskForcesCodeOnEmpty | handle-Flask.py:93-95 | both servers return the same answer; the Flask one differs only in setting `code` to -1 when that answer is empty |
| Aggregation.StripDataLine | main.py:63 | `strip()` removes only the trailing newline from a `data: ` line whose text does not end in whitespace |
| Aggregation.CleanDataLine | main.py:63 | a line `data: <payload>` is cleaned to its payload when the payload has no `data: ` of its own and does not end in whitespace |
| Aggregation.NoDataWithoutD | main.py:63 | a text without the letter `d` has no `data: ` in it |
| Aggregation.InnerDataRemoved | main.py:63 | `replace` removes every `data: ` in the line, not only the prefix: for any text `a` in which no `data: ` starts, the line `data: a data: b` is cleaned to `a b`, so a payload that mentions `data: ` reaches the decoder altered |
| Aggregation.BlankDataLineReachesDecoder | main.py:63-69 | a blank field `data: ` is stripped to `data:` before the replace, so it is not skipped and a decoder that rejects it sets `code` to -1 |
| Aggregation.DataLineContributes | main.py:69-72 | a `data: ` line whose payload (with no `data: ` of its own) decodes to an answer contributes that answer and is not rejected |
| Aggregation.AnswersOfThree | main.py:62-72 | the answer of a three-line stream is the three contributions in order |
| Aggregation.StreamExample | main.py:60-76 | the stream `data: {"answer":"a"}`, `data: {"answer":"b"}`, `data: [DONE]` aggregates to `"ab"` with `code` 0 |
| Aggregation.JsonMarkerExample | main.py:57-59 | a JSON reply whose answer is `"0:hello"` yields `"hello"` with `code` 0 |

## Left out

- Framework plumbing is not modelled: FastAPI/Flask routing, `uvicorn.run`/`app.run`, the
  loguru setup and `config.json` loading. FastAPI's own 422 for a missing query parameter in
  main.py is part of this.
- `asyncio.Semaphore` and the aiohttp session are not modelled. The exchange is the input
  `Upstream`. A connection error or timeout before any response is `NoResponse`. A failure while
  the body is read is `cut`. A failure of `line.decode(response.charset)`, including a
  charset of `None`, is folded into `cut`.
- SHA-1, JSON decoding and XML parsing are parameters, because they are foreign library calls.
  The model proves nothing about the hash itself.
- The `messages` text and every `api_logger` call are left out: they are diagnostic only.
  `code` is a local that `process_message` never returns; the model exposes it as an output
  so that its final value can be stated.
- The request-building mutations `param["query"] = query` and `headers["Authorization"] = ...`
  are left out. They only serialise the request.
- Aggregation.ProcessMessage: in the JSON branch `response_data` holds the decoded dictionary.
  The model keeps it `""` there, because only the log messages read it.
- Aggregation.Parsed: a decoded document is modelled as its `answer` value, a string or
  nothing. In the stream branch a JSON `null` answer is falsy and skipped at main.py:70-72,
  which is the model's `Valid(None)`. Four cases are not modelled:
  - In the JSON branch a `null`, number, boolean or object `answer` makes `answer[:2]` at
    main.py:87 raise, outside the `try`.
  - In the JSON branch an array `answer` passes main.py:87 unchanged, because its slice is a
    list and is never `"0:"` or `"1:"`, and `process_message` returns that list.
  - In the stream branch a truthy non-string `answer` makes `answer += content` raise, which
    ends the stream through the outer `except`.
  - A document that is not a dictionary makes `data.get` raise `AttributeError`, which ends the
    stream through the outer `except`.
- handle-Flask.py binds `TOKEN = config["auth"]`, a mapping, so its `sorted` would raise. The
  model takes the token as a string parameter. The Flask handler also calls `process_message`
  without `await`, and a missing `Content` key raises `KeyError`. These plumbing defects are not
  modelled.
- Text.Replace requires a non-empty pattern. The only pattern the servers use is `data: `.
- Codec.GenerateReply has no contract of its own. Its properties are the lemmas
  `ReplyLength`, `ReplyAddressedBack`, `ReplyTextContent` and `ReplyNotEscaped`. The
  `CreateTime` slot is stated through `str(int)` and its round trip, not as an offset.
- Codec.ReplyTextContent states the content as part of the reply's suffix
  (`MsgType` text + content + closing text), not as a separate slice.
- Escaping and XML round trips of the reply are not claimed, because the code does not escape;
  `ReplyNotEscaped` shows the consequence.
- `Text.IsSpace` is Python's `str.isspace()` set of code points. `strip()` on the decoded
  line uses that set. The byte decoding itself is not modelled.
