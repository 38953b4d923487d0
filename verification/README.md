# Verified kernels of Pocket OpenCode

A Dafny model of the parts of Pocket OpenCode that carry a hard, unbounded property: the scoring of
speech recognition, the wire formats its scripts and adapters write and read, the state that its
plugin, its agent list, its sessions and its mutation harness keep over whole runs, and the mapping
of three message shapes to one view. `dafny verify dfyconfig.toml` checks everything.

One module models one kernel, and each file holds the module of its name. Loops over rows, buffers,
runs and tables are methods with loop invariants; objects that change in place (`WSClient`,
`Plugin`, `PiAdapter`, `Batch`, the HTTP client) are classes; every such method is proved against a
specification function, and the laws are lemmas about that function.

| Part | Modules |
|---|---|
| Shared | `Wrappers`, `Sequences` |
| Text scoring | `Alignments`, `EditDistance`, `Subsequences`, `CommonSubsequence`, `Numerals`, `StandardNumerals`, `NumeralRewriting`, `LineDeletion` |
| Wire formats | `Search`, `Whitespace`, `Bytes`, `WebSocketFrames`, `WebSocketClient`, `EventStream`, `EventStreamFormat`, `EventStreamStandard`, `Utf8Truncation`, `Utf8Text`, `Multipart`, `MultipartRoundTrip`, `MultipartText` |
| State over runs | `SessionEvents`, `SessionMirror`, `RuntimeAgents`, `AgentDispatch`, `PiLines`, `PiSessions`, `TextReplacement`, `MutationHarness`, `PermissionGate` |
| Translation | `Json`, `MobileMessages` |

What comes from outside is a parameter: the chunks a socket delivers are chosen arbitrarily, polls
and read faces are given as sequences of answers and failures, a judge of the mutation harness is a
function of the files, JSON values arrive decoded, and files are a map from path to contents.

## Where the code does not do what it is meant to do

Each of these is proved as an exact condition, or, where a condition on one branch says it all, by
the contract that is named.

- Numerals: the standard numeral of a number is read back exactly below 10^12
  (`StandardNumerals.ReadsBackIff`); above, a section is multiplied by ten thousand only, although
  the unit for 10^8 stands behind it. Digit-by-digit reading loses leading zeros
  (`Numerals.DigitsComeOutIff`).
- Multipart: `rstrip(b"\r\n-")` also takes trailing CR, LF and dashes away from the audio itself, and
  audio that holds the delimiter is cut (`MultipartRoundTrip.AudioSurvivesIff`). A language with
  white space at an end or a dash at its end is changed as well (`MultipartText.ArrivesIff`).
- Event streams: the reader trims both ends of every value, drops leading empty `data:` lines, does
  not know a `data` field without a colon, and does not end a line at a bare CR. For a block it
  agrees with section 9.2.6 of the HTML Living Standard exactly if every value has no white space at
  its ends, the first one is not empty, every data field has its colon, behind a bare CR there is no
  data field and behind the one that ends a value only white space, and no CR makes a blank line
  between two data fields (`EventStreamStandard.AgreesWithStandardIff`;
  `EventStreamStandard.BareCarriageReturn` is an input); and it does so for a whole stream exactly if
  it does for every block, and no CR makes a blank line behind data in its unfinished end
  (`EventStreamStandard.StreamAgreesIff`).
- Session events: a message that meets a closed socket is dropped, though the warning says it is
  queued, and the baseline moves on. What is delivered about a session is well formed exactly if
  nothing about it is delivered between a missed coming or going and the next missed opposite one
  (`SessionMirror.DeliveredIsWellFormedIff`; `SessionMirror.ClosedSocketBreaksTrace` is an input).
  A title or status that becomes empty is reported as empty, where a new session would report a
  default; the receiver is in step after every poll exactly if that never happens while the socket
  is open and nothing to see changes while it is closed (`SessionMirror.AlwaysInStepIff`). A new
  time stamp alone is reported exactly if both of its forms changed
  (`SessionMirror.UpdatesTellWhatChanged`).
- `truncateStr` panics exactly when the text is too long and `maxLen` is below 3
  (`Utf8Truncation.Truncate`).
- A tool call's duration is negative exactly when the difference of its times does not fit into 64
  bits (`MobileMessages.DurationIsDifferenceIff`; `MobileMessages.NegativeDuration` is an input).
- Agents: the list compares the refused state exactly, the dispatcher ignores case and white space.
  A refusal is listed exactly if the push spells it exactly or else the status that counts does
  (`AgentDispatch.RefusalIsListedIff`; `AgentDispatch.RefusalSpelledDifferently` is an input). What
  is listed does not bind the dispatcher: the id of a pushed agent is dispatched to for some request
  exactly if it is not empty and some record with this id is not refused, and with unique ids
  exactly if it is not empty and the push itself is not refused (`AgentDispatch.PushedIsPickedIff`).
  So an agent that is listed as refused is dispatched to in two ways: through another record that
  shares its id (`AgentDispatch.SharedIdIsPicked` is an input), or itself, when only its read face
  or the status of its push says so (`AgentDispatch.ListedAsRefusedIsPickedIff`;
  `AgentDispatch.RefusedByReadFaceIsPicked` is an input).
- pi sessions: a run that reports a session id already in the table replaces the state kept for that
  id exactly if its own key is unknown or leads to another state, by the equivalence at the end of
  the contract of `PiSessions.PiAdapter.SendPrompt` (`PiSessions.UnknownKeyReplaces` and
  `PiSessions.KnownKeyReplaces` are inputs).
- Mutations: the self-check after a replacement fails exactly when the text replaces itself; its
  second half can never fail (`TextReplacement.ChangesIff`, `TextReplacement.NewIsPresent`).
- Mutations: a broken build environment is not meant to count as a red judge, but it does when the
  fresh run is broken as well, or when the first run was green and the fresh one is broken
  (`MutationHarness.CodesAfterRetry`; `MutationHarness.BrokenBuildPasses` is an input).
- Permission gate: an error body that quotes an error of the same client decides what status is
  reported (`PermissionGate.StatusIsReadIff`; `PermissionGate.QuotedStatusDecides` is an input).
- `recv_frame` of the bridge reads the mask bit but never unmasks, and a timeout loses the bytes of
  the frame it was reading (`WebSocketFrames.TwinsAgreeIff`, `WebSocketFrames.MaskIsNotSeen`,
  `WebSocketClient.RecvFrame`).

Two more differences need no condition. The comment above `SendPrompt` ranks the session's directory
above the one given with the request; the code does the opposite, and the model follows the code.
Without a boundary `_parse_multipart` returns a pair where its caller takes three values apart; the
model returns `None` there.

## Model

| member | source | states |
|---|---|---|
| `EditDistance.EveryScriptCosts` | scripts/eval-asr-accuracy.py:219-232 | Lower bound: no script of keeping, substituting, deleting and inserting that turns one text into the other costs less than the distance. |
| `EditDistance.SomeScriptAttains` | scripts/eval-asr-accuracy.py:219-232 | Some script costs exactly the distance; the lemma returns one. |
| `EditDistance.DistanceIsLeastCost` | scripts/eval-asr-accuracy.py:219-232 | The distance is the least cost of a script, for all texts over any alphabet. |
| `EditDistance.Lipschitz` | scripts/eval-asr-accuracy.py:219-232 | Taking away the last character of either text moves the distance by at most one; hence equal last characters may always be kept. |
| `EditDistance.ZeroIffEqual` | scripts/eval-asr-accuracy.py:219-243 | The distance is zero exactly for equal texts. |
| `EditDistance.Symmetric` | scripts/eval-asr-accuracy.py:219-232 | The distance is symmetric. |
| `EditDistance.Triangle` | scripts/eval-asr-accuracy.py:219-232 | The triangle inequality, by composing two scripts. |
| `EditDistance.Bounds` | scripts/eval-asr-accuracy.py:219-232 | The distance lies between the difference of the lengths and the longer length. |
| `EditDistance.NextRow` | scripts/eval-asr-accuracy.py:225-231 | From a row of distances for one prefix the inner loop makes the row for the next prefix. |
| `EditDistance.Levenshtein` | scripts/eval-asr-accuracy.py:219-232 | The two-row loop returns the least cost over all edit scripts. |
| `EditDistance.ErrorRate` | scripts/eval-asr-accuracy.py:235-243 | `exact` holds exactly for equal normalised texts and exactly when the rate is zero; the rate times the length of the reference is the number of edits, an empty reference has rate 1 unless the hypothesis is empty too, and the rate is at most one if the hypothesis is no longer than the reference. |
| `CommonSubsequence.EveryCommonSubsequence` | scripts/sherpa-latency/LatencyProbe.java:264-272 | No common subsequence is longer than the computed length. |
| `CommonSubsequence.LcsIsLongestCommon` | scripts/sherpa-latency/LatencyProbe.java:264-272 | The computed length is that of a longest common subsequence. |
| `CommonSubsequence.CommonLength` | scripts/sherpa-latency/LatencyProbe.java:264-272 | The loop over two swapped rows that are never cleared returns that length. |
| `CommonSubsequence.DistanceAgainstLcs` | scripts/sherpa-latency/LatencyProbe.java:260-274 | The two measures bound each other: the longer length minus the common length is at most the edit distance, which is at most what is not common in both texts together. |
| `CommonSubsequence.FullIffEqual` | scripts/sherpa-latency/LatencyProbe.java:273 | The common length reaches the longer length exactly for equal texts. |
| `CommonSubsequence.WithoutInParts` | scripts/sherpa-latency/LatencyProbe.java:261-262 | Leaving out the ignored characters keeps the order and the repetitions of the others. |
| `CommonSubsequence.Similarity` | scripts/sherpa-latency/LatencyProbe.java:260-274 | The ratio lies between 0 and 1, and is 1 exactly for texts that are equal and not empty once ignored characters are gone. |
| `LineDeletion.GreedyStep` | scripts/mutations/check_anchors.py:315-326 | Taking the first matching line never loses an embedding of the remaining lines. |
| `LineDeletion.IsLineDeletion` | scripts/mutations/check_anchors.py:307-327 | True exactly if the new lines are a subsequence of the old lines and the texts differ: sound and complete against any embedding. |
| `LineDeletion.Indent` | scripts/mutations/check_anchors.py:303-305 | The longest prefix of white space that stays on the first line. |
| `LineDeletion.ShapeMismatch` | scripts/mutations/check_anchors.py:329-335 | Nothing is reported for deleted lines; otherwise the one dimension is reported exactly if the indentations differ. |
| `Search.JoinSplit` | scripts/mutations/check_anchors.py:313-314 | Joining what a text was split into gives the text back. |
| `Search.SplitJoin` | scripts/local-asr-server.py:268 | Splitting joined parts gives the parts back when no part hides a separator, not even across its end. |
| `Search.SplitConcat` | scripts/local-asr-server.py:268 | Splitting a text works piecewise on both sides of a separator that the left piece does not leave half open. |
| `Numerals.ReadDigits` | scripts/eval-asr-accuracy.py:141-145 | Without units, the digits are read as one decimal number, in order, whatever else stands between them. |
| `Numerals.ReadUnits` | scripts/eval-asr-accuracy.py:147-164 | The loop over `total`, `section` and `digit` computes the positional sum of the specification. |
| `Numerals.ReadNumber` | scripts/eval-asr-accuracy.py:111-165 | All three ways of reading, and exactly when there is no number. |
| `Numerals.RatioIsPassedOver` | scripts/eval-asr-accuracy.py:130-134 | A number behind a word for per cent or per mille is read as if it stood alone; the word alone is no number. |
| `Numerals.MeasureIsNoPart` | scripts/eval-asr-accuracy.py:162-163 | Measure words change nothing: they do not count, and a digit in front of one is not lost. |
| `Numerals.NoNumberIff` | scripts/eval-asr-accuracy.py:127-165 | Exactly which text is no number: none, one with a foreign character, measure words alone, and units that come to nothing. |
| `Numerals.UnreadableIff` | scripts/eval-asr-accuracy.py:147-165 | A run of numeral characters is unreadable exactly if it has a unit, no small unit, and no digit that counts: each is zero or overwritten by the digit behind it. |
| `Numerals.DecimalMeans` | scripts/eval-asr-accuracy.py:191 | Decimal notation has the value it was made from and no superfluous leading zero. |
| `Numerals.DigitsComeOutIff` | scripts/eval-asr-accuracy.py:139-145 | A year or identifier read digit by digit is written with exactly its digits unless it has several and starts with zero. |
| `StandardNumerals.SomeNumerals` | scripts/eval-asr-accuracy.py:111-125 | How some numbers are spelled: teens without a leading one, and fillers exactly where a unit is skipped. |
| `StandardNumerals.SmallAdds` | scripts/eval-asr-accuracy.py:147-164 | Reading a four-digit section in the standard spelling adds its number to the open section, from every state of the reader. |
| `StandardNumerals.FourSectionsRead` | scripts/eval-asr-accuracy.py:147-164 | What the reader makes of up to four sections, for every number below 10^16. |
| `StandardNumerals.LeadingTen` | scripts/eval-asr-accuracy.py:158-161 | A leading ten may be written without its one. |
| `StandardNumerals.ReadsBackIff` | scripts/eval-asr-accuracy.py:111-165 | The standard numeral of a number is read as that number exactly below 10^12. |
| `NumeralRewriting.RunEnd` | scripts/eval-asr-accuracy.py:185-187 | The inner loop stops where the run of numeral characters ends. |
| `NumeralRewriting.NormalizeNumerals` | scripts/eval-asr-accuracy.py:168-196 | The loop with its retries computes the rewriting of the specification. |
| `NumeralRewriting.UnreadableRun` | scripts/eval-asr-accuracy.py:184-195 | The part of an unreadable run that ends at a big unit is copied, and reading goes on behind it. |
| `NumeralRewriting.Idempotent` | scripts/eval-asr-accuracy.py:168-196 | Normalising twice is normalising once, for every text. |
| `NumeralRewriting.IdempotentOnUnreadable` | scripts/eval-asr-accuracy.py:184-195 | The same where a run failed and was tried again character by character: its kept part fails again, and what was read behind it does not join it. |
| `NumeralRewriting.Piecewise` | scripts/eval-asr-accuracy.py:174-196 | Rewriting works on both sides of a border apart if neither a run nor a ratio word crosses it. |
| `NumeralRewriting.RatioInContext` | scripts/eval-asr-accuracy.py:175-180 | Between other text, a word for per cent or for per mille is kept and the numeral behind it becomes decimal digits. |
| `NumeralRewriting.UnitAloneInContext` | scripts/eval-asr-accuracy.py:175-193 | The first characters of those words are numbers in front of anything else. |
| `NumeralRewriting.NumeralInContext` | scripts/eval-asr-accuracy.py:168-196 | The standard numeral of a number below 10^12, alone or between other text, becomes its decimal digits, and the text around it is rewritten as it would be alone. |
| `NumeralRewriting.BothWritingsAgree` | scripts/eval-asr-accuracy.py:99-102 | A text with the numeral and the same text with decimal digits compare with zero edits. |
| `NumeralRewriting.DifferentNumbersDiffer` | scripts/eval-asr-accuracy.py:101-102 | Two texts that differ in one number compare with zero edits only if the numbers are equal. |
| `Bytes.XorAt` | scripts/webview-eval.py:112 | Masking sets every bit exactly if it is set in one of the two bytes. |
| `Bytes.XorTwice` | scripts/webview-eval.py:112 | Masking a byte twice gives it back. |
| `Bytes.BigEndianAt` | scripts/webview-eval.py:122-124 | Byte `i` of a length, counted from the most significant one. |
| `Bytes.BigEndianRoundTrip` | scripts/webview-eval.py:96-100 | A length survives its big-endian notation. |
| `WebSocketFrames.EncodeIsFrame` | scripts/webview-eval.py:115-127 | The layout of a frame byte by byte: final flag and opcode, mask bit and length bits, extended length, mask, payload. |
| `WebSocketFrames.HeaderRoundTrip` | scripts/webview-eval.py:88-100 | Opcode, mask bit and length are read from a header as they were written, across both length thresholds. |
| `WebSocketFrames.RoundTrip` | scripts/webview-eval.py:85-127 | Decoding gives back opcode and payload and leaves the bytes behind the frame, for every length below 2^64, with any four-byte mask or none. |
| `WebSocketFrames.FlagsArePassedOver` | scripts/webview-eval.py:88-89 | The flags in front of the opcode make no difference to the reader. |
| `WebSocketFrames.DecodeIsStable` | scripts/webview-eval.py:107-110 | A complete frame is the same frame whatever arrives behind it. |
| `WebSocketFrames.ArrivalInParts` | scripts/webview-eval.py:85-113 | Cutting a stream anywhere changes neither the frames nor what is left. |
| `WebSocketFrames.SentIsReceived` | scripts/webview-eval.py:115-127 | Any list of payloads that was sent is received as text frames in order, with nothing left over. |
| `WebSocketFrames.TwinsAgreeIff` | scripts/webview-bridge.py:56-74 | The two decoders agree on a complete frame exactly if it is not masked. |
| `WebSocketFrames.MaskIsNotSeen` | scripts/webview-bridge.py:56-74 | A masked frame is misread by the twin: its mask is taken for the beginning of the payload. |
| `WebSocketFrames.TwinsAgree` | scripts/webview-bridge.py:50-74 | On a stream without masked frames the two decoders return the same frames and leave the same bytes. |
| `WebSocketClient.Socket.Recv` | scripts/webview-eval.py:87 | The model of a socket: any non-empty part of what is there, or a timeout. |
| `WebSocketClient.WSClient.Fill` | scripts/webview-eval.py:94-95 | The filling loop moves bytes from the socket to the buffer and changes nothing else; it succeeds exactly if enough bytes come at all. |
| `WebSocketClient.WSClient.ReadFrame` | scripts/webview-eval.py:85-113 | For every way the bytes are chunked, the first frame is returned and buffer plus unread bytes are what follows it; a timeout leaves the stream as it was. |
| `WebSocketClient.WSClient.ReadFrames` | scripts/webview-eval.py:85-113 | Reading on and on returns all complete frames in order and keeps the incomplete one. |
| `WebSocketClient.WSClient.SendText` | scripts/webview-eval.py:115-127 | What is sent is, byte by byte, a masked final text frame with the zero mask: leaving out the masking is no difference. |
| `WebSocketClient.ZeroMask` | scripts/webview-eval.py:125-127 | The zero mask changes no byte. |
| `WebSocketClient.ReadExactly` | scripts/webview-bridge.py:52-55 | Exactly the wanted bytes are taken, however they arrive; a timeout loses what was read. |
| `WebSocketClient.RecvFrame` | scripts/webview-bridge.py:50-74 | The exact reader returns the first frame undecoded by its mask, or loses the incomplete one. |
| `WebSocketClient.RecvFrames` | scripts/webview-bridge.py:50-74 | Without masked frames it returns the same messages as the buffered client. |
| `EventStream.HandleLine` | backend/internal/adapter/opencode_http.go:1159-1192 | After every line the buffer holds the joined values of the open block; a blank line hands it over if it is not empty. |
| `EventStream.ReadEvents` | backend/internal/adapter/opencode_http.go:1138-1194 | The events delivered are the decodable payloads of the stream's blocks, in order. |
| `EventStream.ArrivalInParts` | backend/internal/adapter/opencode_http.go:1150-1157 | A stream cut anywhere gives the payloads of its first part and then those of the rest, read behind the unfinished line and the open block. |
| `EventStream.SplitsAtBoundary` | backend/internal/adapter/opencode_http.go:1161-1181 | Reading splits at event boundaries. |
| `EventStream.UnterminatedTailYieldsNothing` | backend/internal/adapter/opencode_http.go:1150-1157 | Data behind the last blank line is never delivered. |
| `EventStreamFormat.WireIsRead` | backend/internal/adapter/opencode_http.go:1150-1159 | Lines are read back whichever of LF and CRLF ends each of them. |
| `EventStreamFormat.PrintedIsRead` | backend/internal/adapter/opencode_http.go:1138-1193 | Any list of events, with any padding, line ends, ignored fields, extra blank lines and an unterminated tail, is read back as exactly its payloads in order. |
| `EventStreamFormat.PayloadKeepsLines` | backend/internal/adapter/opencode_http.go:1185-1191 | The data lines of an event can be told apart again in its payload. |
| `EventStreamStandard.TextsAreRead` | backend/internal/adapter/opencode_http.go:1150-1159 | The lines the reader works on are the raw lines between line feeds, each without the CRs at its end. |
| `EventStreamStandard.OneEventIff` | backend/internal/adapter/opencode_http.go:1161-1181 | The standard dispatches the values of a block as one event exactly if no blank line stands between two data fields; else it dispatches several. |
| `EventStreamStandard.AgreesWithStandardIff` | backend/internal/adapter/opencode_http.go:1159-1193 | For every block of raw lines, bare CRs included, the reader delivers what the standard dispatches exactly if behind a CR there is no data field, no data field lacks its colon, every value has no white space at its ends and only white space behind a CR that ends it, the first value is not empty, and no CR makes a blank line between two data fields. |
| `EventStreamStandard.DataValueIff` | backend/internal/adapter/opencode_http.go:1185-1186 | The reader takes from a data line the standard's value exactly if that value has no white space at its ends and nothing but white space stands behind the CR that ends it. |
| `EventStreamStandard.FieldsInOneLine` | backend/internal/adapter/opencode_http.go:1150-1159 | Whatever two data fields stand with a bare CR between them, reader and standard differ. |
| `EventStreamStandard.StreamAgreesIff` | backend/internal/adapter/opencode_http.go:1138-1194 | For every stream, what is delivered is what the standard dispatches exactly if every block meets that condition and no CR makes a blank line behind data in the unfinished end: what one block loses no other makes up for. |
| `EventStreamStandard.ReaderGivesNoMore` | backend/internal/adapter/opencode_http.go:1161-1181 | The reader never delivers more events for a block than the standard dispatches. |
| `EventStreamStandard.BareCarriageReturn` | backend/internal/adapter/opencode_http.go:1150-1159 | An input: `data:a`, a bare CR and `data:b` in one line. |
| `Utf8Text.ValidIsEncoded` | backend/internal/agent/errors.go:179 | Valid UTF-8 is what texts are encoded as: encoding what was decoded gives the bytes back. |
| `Utf8Text.EncodedIsValid` | backend/internal/agent/errors.go:179 | What a text is encoded as is valid. |
| `Utf8Text.BadByteIsLeftOut` | scripts/local-asr-server.py:280 | A byte that begins no character is left out, wherever it stands. |
| `Utf8Text.DecodeEncode` | scripts/local-asr-server.py:280 | Decoding, with what is no character left out, gives back every encoded text. |
| `Multipart.ParseMultipart` | scripts/local-asr-server.py:257-283 | The loop over the parts keeps the last body of each name, language and prompt decoded and stripped, and there is no result without a boundary. |
| `MultipartRoundTrip.OtherBoundariesAreFound` | scripts/local-asr-server.py:261 | A boundary in quotes or with parameters behind it is found as well. |
| `MultipartRoundTrip.FoundBoundaryIsPlain` | scripts/local-asr-server.py:261-264 | Whatever the content type is, a boundary that is found is not empty and holds no quote and no semicolon. |
| `MultipartRoundTrip.BoundaryIsFound` | scripts/local-asr-server.py:261-264 | The boundary is found in the content type that the client sends. |
| `MultipartRoundTrip.FileHeadIsHead` | scripts/eval-asr-accuracy.py:253-256 | The header of the file part ends at its first blank line, names the part and does not hold the delimiter. |
| `MultipartRoundTrip.PartIsTaken` | scripts/local-asr-server.py:277-282 | What a part under each name does: the last one of a name counts, `audio` is the file too, and other names do nothing. |
| `MultipartRoundTrip.BodyIs` | scripts/eval-asr-accuracy.py:251-266 | The body that is sent, written out, and the content type that announces it. |
| `MultipartRoundTrip.ParsedBody` | scripts/local-asr-server.py:268-283 | What the parser sees of a body: the pieces of the file part and then the language. |
| `MultipartRoundTrip.RoundTrip` | scripts/local-asr-server.py:257-283 | For data without the delimiter the parser returns audio and language as sent, up to trailing CR, LF and dashes. |
| `MultipartRoundTrip.CutDataIsLost` | scripts/local-asr-server.py:268-278 | If the data holds the delimiter, whatever audio comes out is shorter. |
| `MultipartRoundTrip.AudioSurvivesIff` | scripts/local-asr-server.py:268-278 | The audio arrives unchanged exactly if it does not hold the delimiter and does not end in CR, LF or a dash. |
| `MultipartText.StrippedBytes` | scripts/local-asr-server.py:272 | Stripping CR, LF and dashes from the bytes of a text is stripping them from the text. |
| `MultipartText.LanguageSurvivesIff` | scripts/local-asr-server.py:279-280 | The language arrives unchanged exactly if it has white space at neither end and no dash at its end, whatever the audio is. |
| `MultipartText.ArrivesIff` | scripts/local-asr-server.py:257-283 | Exactly the audio and the language that were sent are received if and only if the audio holds no delimiter and does not end in CR, LF or a dash and the language has no end to strip. |
| `Whitespace.SpacesAre` | backend/internal/adapter/opencode_http.go:1186 | The characters that are trimmed as white space. |
| `Utf8Truncation.PrefixIsValidIff` | backend/internal/agent/errors.go:178-181 | A prefix of valid UTF-8 is valid exactly if it ends on a character boundary. |
| `Utf8Truncation.BoundaryIsNear` | backend/internal/agent/errors.go:179-181 | A boundary is at most three bytes back. |
| `Utf8Truncation.ConcatIsValid` | backend/internal/agent/errors.go:182 | Valid texts joined are valid. |
| `Utf8Truncation.Truncate` | backend/internal/agent/errors.go:174-183 | The text itself if it fits, else the longest valid prefix of the bytes that leave room for the dots, with at most three bytes lost to it if the text is valid; and exactly when the slice panics. |
| `SessionEvents.IndexIsUnique` | opencode-plugin/src/index.ts:204-207 | The snapshot map holds each id once, whatever the response repeats. |
| `SessionEvents.Plugin.SendMessage` | opencode-plugin/src/index.ts:598-605 | Without an open socket the message is lost. |
| `SessionEvents.Plugin.PollSessions` | opencode-plugin/src/index.ts:190-230 | A successful poll emits the difference of the snapshots and replaces the baseline, delivered or not; a failed one changes nothing. |
| `SessionMirror.OfIdDifference` | opencode-plugin/src/index.ts:209-226 | One poll says at most one thing about each session. |
| `SessionMirror.ComingsAndGoingsTell` | opencode-plugin/src/index.ts:270-311 | What a poll says about a session that is new or gone: its title and status, with the defaults for what is missing or empty. |
| `SessionMirror.EventsAreOrdered` | opencode-plugin/src/index.ts:209-226 | First what is there, in the order of the new snapshot, then what is gone, in the order of the old one. |
| `SessionMirror.UpdatesTellWhatChanged` | opencode-plugin/src/index.ts:213-247 | About a session in both snapshots a poll is silent exactly if status, title and one of the two time stamps are the same; else its one update names exactly what changed, from what to what. |
| `SessionMirror.PollKeepsGrammar` | opencode-plugin/src/index.ts:209-226 | A poll's events take a session from the phase of the old snapshot to that of the new one. |
| `SessionMirror.ReplayIsLocal` | opencode-plugin/src/index.ts:270-311 | Events of other sessions do not touch a session's copy. |
| `SessionMirror.PollKeepsMirrorIff` | opencode-plugin/src/index.ts:209-247 | Replaying a poll takes a mirror of the old snapshot to one of the new, exactly if no known title or status became empty. |
| `SessionMirror.RunsAreWellFormed` | opencode-plugin/src/index.ts:190-230 | Over every sequence of polls, failed ones included, each session's emitted events follow (created updated* completed)* with an optional open tail, open exactly if the last snapshot has the session. |
| `SessionMirror.RunsAreMirrored` | opencode-plugin/src/index.ts:190-247 | Over every sequence of polls in which nothing known becomes empty, replaying the emitted events yields the last snapshot. |
| `SessionMirror.RunPolls` | opencode-plugin/src/index.ts:190-230 | The polled object keeps the baseline of the run and hands over exactly the run's events. |
| `SessionMirror.DeliveredIsWellFormedIff` | opencode-plugin/src/index.ts:598-605 | Over every run, open and closed sockets mixed, what is delivered about a session is well formed exactly if nothing is delivered between a missed coming or going and the next missed opposite one. |
| `SessionMirror.PollKeepsStepIff` | opencode-plugin/src/index.ts:598-605 | One poll keeps a receiver in step exactly if nothing becomes empty through an open socket, or there is nothing to see through a closed one. |
| `SessionMirror.AlwaysInStepIff` | opencode-plugin/src/index.ts:598-620 | Over every run the receiver's copy shows the snapshot after every poll exactly if every poll keeps it in step. |
| `SessionMirror.EmittedIsMirroredIff` | opencode-plugin/src/index.ts:190-247 | Replaying the emitted events shows the snapshot after every poll exactly if no known title or status ever becomes empty. |
| `SessionMirror.DeliveredRunsAreMirrored` | opencode-plugin/src/index.ts:598-620 | The case the plugin is made for: with titles and statuses never empty and the socket open whenever there is something to say, the receiver's copy equals the last snapshot after any number of polls. |
| `SessionMirror.ClosedSocketBreaksTrace` | opencode-plugin/src/index.ts:598-602 | A first poll that meets a closed socket makes the delivered events of a session begin with an update: an input for `SessionMirror.DeliveredIsWellFormedIff`. |
| `RuntimeAgents.NotSeen` | backend/internal/accruntime/ecosystem.go:177-187 | A key is listed exactly if some record has it, and an unlisted one has no face. |
| `RuntimeAgents.Put` | backend/internal/accruntime/ecosystem.go:179-198 | Filling a slot keeps table and order in step with the records seen. |
| `AgentDispatch.PushComesFirst` | backend/internal/accruntime/ecosystem.go:188-216 | The records of a runtime: what it pushed, in its order, and then what its read face says. |
| `AgentDispatch.SightingsInParts` | backend/internal/accruntime/ecosystem.go:188-216 | Records are taken runtime by runtime. |
| `AgentDispatch.LastRecordCounts` | backend/internal/accruntime/ecosystem.go:196-214 | On each face the last record of a key counts. |
| `RuntimeAgents.ListRuntimeAgents` | backend/internal/accruntime/ecosystem.go:169-222 | For every pattern of failing read faces the list is the merge, key by key in first-seen order, of the last record of each face. |
| `AgentDispatch.EachKeyOnce` | backend/internal/accruntime/ecosystem.go:217-221 | Every key seen is listed exactly once and nothing else is; merging two faces keeps their key. |
| `AgentDispatch.NoEmptyKeyListed` | backend/internal/accruntime/ecosystem.go:192-210 | A record without any id is not listed: no listed agent has an empty key. |
| `AgentDispatch.FirstSeenIsOrdered` | backend/internal/accruntime/ecosystem.go:179-187 | Keys come in the order of their first records. |
| `AgentDispatch.FailuresRemoveNoPushedAgent` | backend/internal/accruntime/ecosystem.go:200-206 | Whatever read faces fail, every pushed agent with a key is listed. |
| `AgentDispatch.FailureIsLocal` | backend/internal/accruntime/ecosystem.go:200-206 | A failing read face changes nothing for the agents it would not have reported. |
| `AgentDispatch.StatusOf` | backend/internal/accruntime/ecosystem.go:252-271 | A refusal in the last push wins over everything, then the read face, then the push. |
| `AgentDispatch.FacesComplement` | backend/internal/accruntime/ecosystem.go:252-314 | Outside the status, what the push says stays, the read face fills the rest, and a field is empty only if both faces leave it empty. |
| `AgentDispatch.FormsNormaliseAlike` | backend/internal/accruntime/ecosystem.go:77-94 | The runtime's form and the registry's form of a record show the same once normalised; normalising twice is normalising once, and the key stays. |
| `AgentDispatch.NormalisingKeepsOwn` | backend/internal/accruntime/ecosystem.go:77-94 | A record that fills both forms keeps what the registry form says; its key is the agent id before the id. |
| `AgentDispatch.EligibleIff` | backend/internal/accruntime/ecosystem.go:486-503 | Which records a request may be sent to, and under which id. |
| `AgentDispatch.RefusedInAnyCase` | backend/internal/accruntime/ecosystem.go:501 | A refusal counts in capitals as well, and nothing of another length does. |
| `AgentDispatch.RefusedMeans` | backend/internal/accruntime/ecosystem.go:501 | Exactly the states that spell the refusal in any case, with white space around it or not, are refused by the dispatcher. |
| `AgentDispatch.ResolveDispatchTarget` | backend/internal/accruntime/ecosystem.go:475-511 | The first eligible pair in the order of runtimes and inventories, and an error exactly if there is none. |
| `AgentDispatch.FirstTarget` | backend/internal/accruntime/ecosystem.go:485-506 | The same for its outer loop, with trimmed wishes. |
| `AgentDispatch.PickIn` | backend/internal/accruntime/ecosystem.go:489-505 | The inner loop finds the first eligible agent of one runtime. |
| `AgentDispatch.PickedForSomeRequestIff` | backend/internal/accruntime/ecosystem.go:483-506 | Some request is dispatched to an id exactly if the id is not empty and some record with it is not refused; the request for that id alone is then one. |
| `AgentDispatch.PushedIsPickedIff` | backend/internal/accruntime/ecosystem.go:475-511 | For every key with a push and every pattern of read faces: some request is dispatched to the id of its last push exactly if the id is not empty and some record with it is not refused; with unique ids, exactly if the push itself is not refused. |
| `AgentDispatch.ListedAsRefusedIsPickedIff` | backend/internal/accruntime/ecosystem.go:252-271 | With unique ids, an agent listed as refused by whichever face is dispatched to for some request exactly if it has an id and its last push is not refused; then the read face, or else the status of the push, says that it is. |
| `AgentDispatch.RefusedByReadFaceIsPicked` | backend/internal/accruntime/ecosystem.go:257-265 | An input: one record that runs, listed as refused because its read face says so, and dispatched to. |
| `AgentDispatch.ListedAsDeniedIsPickedIff` | backend/internal/accruntime/ecosystem.go:266-269 | A key whose last push is a refusal is listed as refused, for every pattern of read faces; its id is still dispatched to for some request exactly if another record with that id is not refused. |
| `AgentDispatch.ListedAsDeniedIsNeverPicked` | backend/internal/accruntime/ecosystem.go:266-269 | So with ids that are unique where there are any, an agent listed as refused by its push is never dispatched to, for every pattern of read faces and every request. |
| `AgentDispatch.RefusalIsListedIff` | backend/internal/accruntime/ecosystem.go:252-271 | What the dispatcher refuses, the list shows as refused exactly if the push spells it exactly or else the status that counts, the read face's before the push's, is the refusal. |
| `AgentDispatch.RefusalSpelledDifferently` | backend/internal/accruntime/ecosystem.go:501 | An input where the two differ: a refusal with a space in front and any other status on the read face. |
| `AgentDispatch.SharedIdIsPicked` | backend/internal/accruntime/ecosystem.go:489-505 | An input where a refused agent's id is dispatched to: two records that share it. |
| `PiLines.LastDecisiveWins` | backend/internal/agent/adapter_pi.go:266-290 | Over any lines, the verdict is that of the last end of an assistant message or top-level error, the stop reason that of the last assistant message, the session id the last one reported. |
| `PiLines.OneLine` | backend/internal/agent/adapter_pi.go:456-471 | What one line changes: a message that ends well clears an earlier error. |
| `PiLines.ErrorTextIs` | backend/internal/agent/adapter_pi.go:664-677 | Where the text of a top-level error is looked for, in order, and the default. |
| `PiLines.FailedMessageText` | backend/internal/agent/adapter_pi.go:581-585 | The text of a failed assistant message, and its default. |
| `PiLines.EventOf` | backend/internal/agent/adapter_pi.go:512-624 | Which event each type of line causes. |
| `PiLines.MessageEventOf` | backend/internal/agent/adapter_pi.go:522-608 | Which event an update or the end of a message causes. |
| `PiLines.ErrorsAreAnnounced` | backend/internal/agent/adapter_pi.go:500-625 | A line that decides for failure is also the one announced as an error. |
| `PiSessions.FailsIffLastDecisiveFails` | backend/internal/agent/adapter_pi.go:316-355 | With a clean exit, no cancellation and a known session, a prompt fails exactly if the last decisive line is an error, and with that error. |
| `PiSessions.SucceedsIff` | backend/internal/agent/adapter_pi.go:316-355 | Exactly when a prompt succeeds and when it ends in each kind of failure: cancelled, timed out, exit code, unreachable, provider error, no session. |
| `PiSessions.StopReasonsAre` | backend/internal/agent/adapter_pi.go:680-693 | The stop reasons that are renamed, and that all others are kept. |
| `PiSessions.PiAdapter.CreateSession` | backend/internal/agent/adapter_pi.go:154-176 | A new state under its pending key; everything else in the table stays. |
| `PiSessions.PiAdapter.SendPrompt` | backend/internal/agent/adapter_pi.go:208-356 | Outcome, resumption, working directory and the whole effect on the table: the key and the reported id lead to one state afterwards, no other key changes, and exactly when an existing entry is replaced. |
| `PiSessions.PiAdapter.ReadLines` | backend/internal/agent/adapter_pi.go:266-290 | The scanner loop folds the lines in order. |
| `PiSessions.PiAdapter.Register` | backend/internal/agent/adapter_pi.go:294-314 | The state of a key gets the id and directory it lacks and becomes the state of the reported id. |
| `PiSessions.UnknownKeyReplaces` | backend/internal/agent/adapter_pi.go:297-303 | An input: a run under an unknown key that reports a known id takes the known state out of the table. |
| `PiSessions.KnownKeyReplaces` | backend/internal/agent/adapter_pi.go:310-312 | An input: a run under a known key that reports an id with another state makes that id lead to the key's state. |
| `PiSessions.RunAll` | backend/internal/agent/adapter_pi.go:154-356 | Over any sequence of sessions and prompts no key vanishes, and ids and directories are written once. |
| `TextReplacement.ChangesIff` | scripts/mutations/_harness.py:146-152 | A replacement whose anchor occurs changes the text exactly if it is another text. |
| `TextReplacement.NewIsPresent` | scripts/mutations/_harness.py:149-154 | The new text is there after a replacement. |
| `TextReplacement.ReplacesEvery` | scripts/mutations/_harness.py:146-149 | Every occurrence is counted and every one is replaced. |
| `MutationHarness.OneStep` | scripts/mutations/_harness.py:142-155 | What a single step of a mutation does and when it fails: a replacement that goes through has changed the file and the new text is in it. |
| `MutationHarness.MutatedInParts` | scripts/mutations/_harness.py:200-201 | A mutation stops at the first step that fails. |
| `MutationHarness.Batch.Mutate` | scripts/mutations/_harness.py:142-155 | Succeeds exactly if target, count and text are right; a replacement that changes nothing has been written when it fails. |
| `MutationHarness.Batch.Judge` | scripts/mutations/_harness.py:202-220 | The two reasons for another run with a fresh cache, and which result counts. |
| `MutationHarness.CodesAfterRetry` | scripts/mutations/_harness.py:202-220 | Where red is expected, a green result means that a fresh cache gave green as well, and exactly when the code of a broken build environment is the result. |
| `MutationHarness.BrokenBuildPasses` | scripts/mutations/_harness.py:203-230 | An input: a build environment that is broken every time lets a case pass that expects red. |
| `MutationHarness.RunThatCounts` | scripts/mutations/_harness.py:202-220 | Which of the runs of a judge counts. |
| `MutationHarness.PassedIff` | scripts/mutations/_harness.py:227-242 | Exactly when a case is recorded as passed: red with every wanted text in the output, or green with no unwanted one. |
| `MutationHarness.WrongRedFails` | scripts/mutations/_harness.py:230-234 | An input: red without the wanted text is recorded as failed. |
| `MutationHarness.Batch.Restore` | scripts/mutations/_harness.py:221-226 | Every target gets its bytes back and nothing else changes. |
| `MutationHarness.Batch.RunCase` | scripts/mutations/_harness.py:158-243 | Whatever the mutation and the judge do, the targets are as before; the verdict recorded is the one on clean files, and unclean targets raise before anything is touched. |
| `MutationHarness.Batch.Finish` | scripts/mutations/_harness.py:250-262 | The final results are all good exactly if every judge is green, the targets have their bytes and nothing else differs. |
| `MutationHarness.Batch.RunCases` | scripts/mutations/_harness.py:158-243 | For any sequence of cases that write targets only, every file is as before at each case boundary. |
| `MutationHarness.Batch.Run` | scripts/mutations/_harness.py:386-392 | The exit code is zero exactly if the targets were clean, every case passed and the judges are green on the unchanged files; and exactly when an exception ends it. |
| `MutationHarness.MutatedElsewhere` | scripts/mutations/_harness.py:142-155 | A mutation that writes targets only leaves every other file alone. |
| `PermissionGate.Client.constructor` | backend/internal/acchttp/client.go:90-128 | The number of retries is clamped to between none and five. |
| `PermissionGate.Client.Do` | backend/internal/acchttp/client.go:133-202 | The first decisive attempt within the limit decides; without one the last error is reported; an unsafe request goes out at most once. |
| `PermissionGate.SafeVerbs` | backend/internal/acchttp/client.go:326-333 | Which verbs may be sent again, in any case. |
| `PermissionGate.ReplyMeans` | backend/internal/acchttp/client.go:168-199 | What each reply means: a response, an error at once, or a reason to try again. |
| `PermissionGate.NoRequestMeans` | backend/internal/acchttp/client.go:152-165 | An attempt that sends nothing ends the loop with its own error. |
| `PermissionGate.StatusIsReadIff` | backend/internal/accruntime/client.go:479-497 | The status read from an error, wrapped or not, is the server's own exactly if the body quotes no other error of this client last. |
| `PermissionGate.QuotedStatusDecides` | backend/internal/accruntime/client.go:479-497 | An input: an answer 500 whose body quotes a 404 is read as 404. |
| `PermissionGate.UnavailableIff` | backend/internal/accruntime/client.go:112-116 | Which status decides whether the gate counts as missing. |
| `PermissionGate.Client.Post` | backend/internal/acchttp/client.go:209-211 | One request, and its answer or error. |
| `PermissionGate.Client.AnswerPermission` | backend/internal/accruntime/client.go:98-119 | Success exactly on a readable answer below 400 with all four ids present; no request goes out if one is missing. |
| `MobileMessages.MobileParts` | backend/internal/adapter/opencode_message_mobile.go:144-187 | The text collected on the way is the joined text of the content list. |
| `MobileMessages.ToMobile` | backend/internal/adapter/opencode_message_mobile.go:52-139 | The branches compute the view of the specification. |
| `MobileMessages.Rebuild` | backend/internal/adapter/opencode_message_mobile.go:128-135 | The text rebuilt for a tagged message is the joined text of its content. |
| `MobileMessages.ShapesAgree` | backend/internal/adapter/opencode_message_mobile.go:52-139 | For every id, role of user or assistant, times and parts, envelope and flat form have one view, and the tagged form has it exactly if its own text is missing or the same. |
| `MobileMessages.DroppedIff` | backend/internal/adapter/opencode_message_mobile.go:52-119 | Exactly which messages have no view. |
| `MobileMessages.TimesAreKept` | backend/internal/adapter/opencode_message_mobile.go:63-66 | In all three forms both times are the numbers under their own keys, and zero where there is none. |
| `MobileMessages.IdentityIsKept` | backend/internal/adapter/opencode_message_mobile.go:58-119 | Whose id and role a view shows, in each form. |
| `MobileMessages.OwnTextIsShown` | backend/internal/adapter/opencode_message_mobile.go:89-137 | When a message shows its own text. |
| `MobileMessages.PartIsShown` | backend/internal/adapter/opencode_message_mobile.go:154-184 | What each kind of part adds to the content. |
| `MobileMessages.JoinedIsJoin` | backend/internal/adapter/opencode_message_mobile.go:160-183 | The text is the text parts joined by one blank line. |
| `MobileMessages.ToolIsShown` | backend/internal/adapter/opencode_message_mobile.go:192-205 | Id and name of a tool call, and what it shows without a state. |
| `MobileMessages.ToolStateIsShown` | backend/internal/adapter/opencode_message_mobile.go:206-222 | A tool call keeps its status and input, its result only when completed, its error only when failed, and the first duration there is. |
| `MobileMessages.ToolShapesAgree` | backend/internal/adapter/opencode_message_mobile.go:192-223 | The released and the development writing of a tool call have the same view. |
| `MobileMessages.NegativeDuration` | backend/internal/adapter/opencode_message_mobile.go:236-240 | An input: two times whose difference wraps to a negative duration. |
| `MobileMessages.DurationIsDifferenceIff` | backend/internal/adapter/opencode_message_mobile.go:226-241 | A duration is the difference of its times, and not negative, exactly if the difference fits into 64 bits. |

## Left out

- Network, process, browser and database code, the WebSocket handshake, and peers that close a connection in the middle of a frame.
- Decoding and printing JSON; the model starts from decoded values.
- `normalize` of the scoring script except its numerals: Unicode categories, full-width folding and lower case; scoring starts from normalised texts. The limit of the Python interpreter on the digits of very long integers.
- CommonSubsequence.Similarity: the class of ignored characters (white space, punctuation, symbols) is a parameter, because it is a table of Unicode categories.
- `send_frame` of the bridge: its bytes are no frame of section 5.2 of RFC 6455.
- Event streams: cancellation, closing the channel and byte order marks.
- Session events: fields other than id, title, status and the two time stamps, and the fallback `true` of `sessionChanged` for a missing predecessor, which its only caller excludes.
- `RuntimeAgents.ListRuntimeAgents`: starts from the records that `listRuntimes` returns; decoding and filtering them is not modelled. `normalize` and `fillEmpty` assign through pointers; they are modelled on values, because no two records share storage.
- `PiSessions.PiAdapter.SendPrompt`: the process and its command line except resumption, the cancellation table, timestamps, the fan-out of events, text and usage of the answer, the limit on the length of a line, and runs that overlap.
- `Json.ToInt64`: a number out of range becomes the most negative integer, as on amd64; the Go language leaves it open.
- Mutation harness: concurrent changes, failures of writing a file, line-end translation, the git index as opposed to the commit, and how a judge decides. A judge is a function of the files; with a fresh cache also of the number of the attempt within its case.
- `PermissionGate.Client.Do`: headers, signing, request ids and redirects; a request that cannot be built is an input. Bodies are given as read, within the limit.
- `acchttp` and `accruntime` otherwise, `MockAgentAdapter`, `opencode_config.go` and the wiring of `pocketd`: only easy members.
