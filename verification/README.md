# Verified models of the web shell and of the build provenance tools

Dafny models of six parts of the repository and proofs about them:

- **Time zones** (`Calendar`, `Zone`, `WallClock`): a zone is a step function from instants to offsets. A wall clock
  is resolved by two guesses, and that is shown to be enough whenever an answer exists. Printing and parsing are
  modelled as text, over the proleptic Gregorian calendar of ECMA-262.
- **Tasks** (`Tasks`, `Sorting`): the three groups of the initial screen and their orders.
- **Colour** (`ColourSpace`, `Luminosity`, `SrgbTransfer`, `Hex`, `Derive`): the RGB/HSL conversions, the WCAG 2.1
  contrast ratio and the search for a readable variant, in exact real arithmetic.
- **Build provenance** (`Bytes`, `Framing`, `SourceTree`, `JsonText`, `Json`, `Signing`): the byte stream that is
  hashed, the canonical JSON that is signed, and the signature, each shown to identify what it is made from.
- **Terminal attachment** (`Attachment`, `Terminal`): the client of the bridge as a step system against any network,
  and as an object whose handlers take those steps.
- **Answers and transcript** (`Blocks`, `Placeholders`, `Transcript`, `Forms`, `Addresses`): the markdown block loop,
  the transcript with its working notes, the closure form and the ranking of addresses.

`Arithmetic`, `Text`, `HexDigits`, `Options` and `Lexicographic` hold what several of these share. Run
`dafny verify dfyconfig.toml`.

Where the source updates state the model does too: loops are methods with invariants, and `Terminal`, `View`, `Form`
and `Hasher` are classes. Each such method is tied by its contract to a function, and the lemmas are about that
function. The zone, the hash functions, the case folding and the collation of the platform, and the order in which a
directory is walked are parameters. So is the transfer of a colour channel to linear light; `SrgbTransfer` shows that
the literal formula, over any function that is the power 2.4, is one of those the theorems are about.

## Where the code and its comments part

- apps/webui-static/schedule.js:60-65 says that a wall clock in a gap resolves to the instant the clock has jumped to,
  and one in an overlap to the second occurrence. That holds east of UTC. West of UTC both are the other way round
  (`Zone.GapEastAndWest`, `Zone.ResultInOverlap`, `Zone.MeasuredCases`, `WallClock.MeasuredInNewYork`).
- apps/webui-static/colour.js:113-114 says that `met: false` means the target is out of reach in either direction. At
  4.5 it always means the search went towards white while black would have read (`Derive.OtherDirectionReads`).
- apps/webui-static/colour.js:37 uses a threshold at which the transfer formula steps down, by less than a millionth
  and exactly between the values that `SrgbTransfer.LiteralFallsExactly` names. Whole channel values, which are all that
  `parseHex` yields, stand too far apart for that (`SrgbTransfer.ParsedLuminanceGrows`), and so do the steps of the
  search for a readable variant (`Derive.LuminanceAlongPath`).
- apps/webui-static/schedule.js:39-43 reads the printed year back through `Date.UTC`, so the reported offset is wrong
  for every local year before 100 (`WallClock.ReportedOffsetExactly`).
- A disposed client keeps the status it had, LIVE included, even after its last socket has closed
  (`Attachment.DisposedStatusStands`, `Attachment.LiveAfterDisposal`).
- A signature outside ASCII makes the verifier raise a `TypeError` instead of reporting a mismatch
  (`Signing.ReplacedSignature`, `Signing.SignatureOutsideAscii`).
- apps/webui-static/markdown-lite.js:60 also replaces text of the page that looks like a mark, or that a mark after it
  completes (`Placeholders.RestoreFillsExactly`).
- `FAILED` is a state the terminal leaves again: the close event that follows a protocol mismatch schedules a
  reconnect (`Attachment.FailedReconnects`).
- A closure form whose middle answer is made of semicolons and spaces neither names anything left undone nor states
  that nothing was (`Forms.NamesOrStates`).

## Model

| member | source | states |
|---|---|---|
| Zone.AtMostOneChange | apps/webui-static/schedule.js:51-55 | within the largest offset around a wall clock a zone with spaced transitions changes its offset at most once, at the change that `ChangeNear` names |
| Zone.ReadersOf | apps/webui-static/schedule.js:57-65 | only two instants can read as a wall clock, one under each offset of the nearby change, and when each of them does |
| Zone.TwoPassesSuffice | apps/webui-static/schedule.js:69-82 | for every spaced zone and wall clock the two-pass result reads as the wall clock if and only if any instant does |
| Zone.GapExactly | apps/webui-static/schedule.js:60-62 | no instant reads as a wall clock exactly when the nearby change jumps over it |
| Zone.ResultInGap | apps/webui-static/schedule.js:60-62 | which instant a gap resolves to, and that it reads later than asked by the jump when the wall clock is not below the transition, earlier by the jump otherwise |
| Zone.GapEastAndWest | apps/webui-static/schedule.js:60-62 | the documented reading of a gap always holds for offsets from zero up and never for offsets from zero down |
| Zone.ResultInOverlap | apps/webui-static/schedule.js:63-65 | of two instants that read the same the later is returned if and only if the wall clock is not below the transition |
| Zone.PassesAlternateInGap | apps/webui-static/schedule.js:51-55 | in a gap every further pass changes the answer again, between two instants, for ever |
| Zone.PassesSettle | apps/webui-static/schedule.js:51-55 | outside a gap every pass after the second gives the same instant |
| Zone.ResolveReads | apps/webui-static/schedule.js:84-85 | resolving what an instant reads gives the instant back, unless the wall clock is in an overlap and the rule picks its twin |
| Zone.MeasuredCases | apps/webui-static/schedule.js:60-65 | the two measured instants of Europe/Rome in 2026, and the gap and the overlap of America/New_York, which both resolve the other way |
| Zone.OnePassFails | apps/webui-static/schedule.js:51-55 | a readable wall clock that one pass gets wrong |
| Zone.CloseTransitionsFail | apps/webui-static/schedule.js:69-82 | for every largest offset `m` a zone whose transitions are one millisecond less than `2 * m` apart, and a readable wall clock in it that two passes miss |
| Zone.OffsetFromTransition | apps/webui-static/schedule.js:31-44 | from each transition up to the next its offset is in force, and before the first the initial one |
| Zone.SpacingIsTight | apps/webui-static/schedule.js:69-82 | two passes find every readable wall clock of every zone with a given spacing if and only if that spacing is at least twice the largest offset |
| Calendar.DayFromYearClosedForm | apps/webui-static/schedule.js:39-42 | counting days year by year agrees with the closed form of ECMA-262 section 21.4.1.3 |
| Calendar.DaysBeforeMonthClosedForm | apps/webui-static/schedule.js:39-42 | where each month starts, by a formula that does not look at the lengths of the months before it |
| Calendar.MakeDayCarries | apps/webui-static/schedule.js:75-78 | twelve months too many are a year more, and days are simply added |
| Calendar.DayNumberOfDate | apps/webui-static/schedule.js:39-42 | a day number split into a date and joined again is itself |
| Calendar.DateOfDayNumber | apps/webui-static/schedule.js:39-42 | a valid date turned into its day number and split again is itself |
| WallClock.JoinOfSplit | apps/webui-static/schedule.js:39-43 | splitting a time into fields and joining them loses exactly the part below a second |
| WallClock.SplitOfJoin | apps/webui-static/schedule.js:75-78 | fields in range survive joining and splitting |
| WallClock.DateUTCExactly | apps/webui-static/schedule.js:39-42 | the time that fields denote, from a formula on year, month and day alone, with the years 0 to 99 in the twentieth century |
| WallClock.AcceptedTexts | apps/webui-static/schedule.js:46-74 | a text is accepted if and only if, trimmed, it can be put together from digits and separators of that shape |
| WallClock.FieldsOfText | apps/webui-static/schedule.js:75-78 | each field is the number that its piece of the text denotes |
| WallClock.MeasuredInRome | apps/webui-static/schedule.js:60-82 | three texts typed in Europe/Rome and the instants they resolve to: in the gap, in the overlap, and on an ordinary day |
| WallClock.MeasuredInNewYork | apps/webui-static/schedule.js:60-82 | the gap and the overlap of America/New_York as typed |
| WallClock.ErasMirror | apps/webui-static/schedule.js:33-40 | the year without its era: years of the common era as they are, earlier ones mirrored |
| WallClock.CollectFields | apps/webui-static/schedule.js:37-38 | the loop over formatted parts leaves every non-literal part under its own name |
| WallClock.ZoneOffsetMs | apps/webui-static/schedule.js:31-44 | returns the printed fields read as UTC less the instant |
| WallClock.ReportedOffsetExactly | apps/webui-static/schedule.js:31-44 | where the zone's offset is in whole seconds that is the offset less the sub-second part of the instant if and only if the local year is at least 100 |
| WallClock.ZonedWallClockToUtcIso | apps/webui-static/schedule.js:69-82 | rejects text that is no wall clock before it rejects an unknown zone, and otherwise returns the result of the two passes over reported offsets |
| WallClock.ReportedResolveIsResolve | apps/webui-static/schedule.js:75-81 | after year 100 reported offsets give the same instant as true ones, wherever the offsets near the wall clock are in whole minutes |
| WallClock.WallClockInZone | apps/webui-static/schedule.js:85-95 | prints the local fields to the minute, and nothing for an invalid date |
| WallClock.ShownFieldsParse | apps/webui-static/schedule.js:46-95 | what is printed parses to the same fields when its year has four digits, and does not parse otherwise |
| WallClock.TextRoundTrip | apps/webui-static/schedule.js:84-95 | for every accepted text, parsing, resolving and printing gives it back if and only if it is a real wall clock to the minute without space around it, from year 1000 on and outside a gap |
| WallClock.InstantRoundTrip | apps/webui-static/schedule.js:84-95 | printing, parsing and resolving a minute-aligned instant gives it back if and only if the overlap rule does not pick its twin |
| Tasks.SplitTasks | apps/webui-static/schedule.js:133-150 | each list is the stable sort of the tasks of its group; finished tasks keep their order |
| Tasks.SplitConserves | apps/webui-static/schedule.js:113-115 | the three lists together hold every task exactly as often as the input, and the active list is ordered by latest update |
| Tasks.ScheduledInOrder | apps/webui-static/schedule.js:143-147 | scheduled tasks are soonest first and undated last, and equal starts keep the input order |
| Tasks.ActiveInOrder | apps/webui-static/schedule.js:148 | active tasks are latest update first, and equal updates keep the input order |
| Tasks.ScheduledOnlyShrinks | apps/webui-static/schedule.js:121-130 | as time passes tasks only move from scheduled to active, and the rest keep their order |
| Sorting.SortIsStable | apps/webui-static/schedule.js:147-148 | the sort is an ordered permutation that keeps the input order inside every class |
| Sorting.StableSortIsUnique | apps/webui-static/coden-view-model.js:520-521 | those three properties leave only one possible result |
| ColourSpace.RoundTrip | apps/webui-static/colour.js:49-77 | every real colour in gamut survives conversion to HSL and back, whatever the order of its channels |
| ColourSpace.HslRoundTrip | apps/webui-static/colour.js:49-77 | every hue below the whole circle, positive saturation and lightness inside the scale survives conversion to RGB and back |
| ColourSpace.GreyRoundTrip | apps/webui-static/colour.js:49-77 | without saturation the lightness survives |
| ColourSpace.ChannelsGrow | apps/webui-static/colour.js:63-77 | for a fixed hue and saturation every channel grows with lightness and stays in gamut |
| ColourSpace.ExtremesShareTheGain | apps/webui-static/colour.js:63-77 | between two lightnesses of one hue and saturation some two channels gain, in all, twice what the lightness gains |
| ColourSpace.LightnessEnds | apps/webui-static/colour.js:63-77 | lightness 0 is black and lightness 1 is white for every hue and saturation |
| Hex.ShownColourParses | apps/webui-static/colour.js:15-31 | what `toHex` prints parses to the colour rounded to whole channels |
| Hex.RoundIsNearest | apps/webui-static/colour.js:29 | a channel is printed as the nearest whole number, the larger of two, within the byte |
| Hex.ChannelsByPlace | apps/webui-static/colour.js:15-31 | red comes first and blue last, the higher digit first, in parsing and in printing |
| HexDigits.DigitsExactly | apps/webui-static/colour.js:14-30 | digits are printed in lower case and read in either |
| Hex.ParsedColourShows | apps/webui-static/colour.js:15-31 | a parsed colour, in any of the accepted forms, prints to text that parses to the same colour |
| Hex.ShortAndAlphaForms | apps/webui-static/colour.js:14-26 | three digits read as each digit doubled, eight as their first six, and no other number of digits is accepted |
| Luminosity.LuminanceRises | apps/webui-static/colour.js:33-40 | when no channel falls luminance gains in proportion to what the channels gain, each by its weight, but for the most the transfer may fall |
| Luminosity.RatioLaws | apps/webui-static/colour.js:42-47 | the ratio is order-independent, at least 1, and 1 only between equal luminances |
| Luminosity.RatioLargestAtAnEnd | apps/webui-static/colour.js:42-47 | between two luminances no ratio exceeds the larger one at the two ends |
| Luminosity.WhiteOrBlackReads | apps/webui-static/colour.js:113-115 | against every background white or black reaches the square root of 21, which is above 4.5 |
| SrgbTransfer.LiteralIsTransfer | apps/webui-static/colour.js:35-38 | the literal formula is one of the transfers that all results here are about: from 0 to 1, with a gain of 0.03 for the whole scale and a loss of at most a millionth |
| SrgbTransfer.LiteralFallsExactly | apps/webui-static/colour.js:35-38 | for any two channel values the formula falls from the smaller to the larger if and only if they stand on either side of the threshold and a comparison of whole powers holds; it never falls by a millionth |
| SrgbTransfer.LiteralFalls | apps/webui-static/colour.js:37 | it does fall just above its threshold |
| SrgbTransfer.ParsedLuminanceGrows | apps/webui-static/colour.js:14-40 | between colours with whole channels the literal luminance grows strictly with every channel |
| Derive.DeriveReadable | apps/webui-static/colour.js:92-117 | fails only on unparsable colours; otherwise returns the first step that meets the target, or with `met: false` the first best of all hundred steps |
| Derive.OutcomeIsUnique | apps/webui-static/colour.js:92-117 | that promise fixes every field of the answer |
| Derive.CandidateExactly | apps/webui-static/colour.js:82-107 | every step tries the hue and the saturation of the original at a lightness as many hundredths away as there were steps, and white or black from where the scale ends |
| Derive.LuminanceAlongPath | apps/webui-static/colour.js:100-107 | along the search, the original included, luminance only moves in the search's direction |
| Derive.LastStepIsTheEnd | apps/webui-static/colour.js:105-112 | the hundredth step is always white or black |
| Derive.BestIsAtAnEnd | apps/webui-static/colour.js:105-112 | no step does better than both the original and the last one |
| Derive.NotMetExactly | apps/webui-static/colour.js:113-116 | `met: false` comes back exactly when the original and the white or black end of its direction both miss; its ratio is then the better of the two |
| Derive.NotMetAtTarget | apps/webui-static/colour.js:92-116 | at 4.5 that happens exactly when the original misses and the background luminance lies strictly between 11/60 and 1/2 |
| Derive.OtherDirectionReads | apps/webui-static/colour.js:113-115 | whenever the search fails at 4.5 it went towards white and black would have passed |
| Derive.FailureHappens | apps/webui-static/colour.js:113-116 | with the literal transfer, white on `#808080` is such a failure, at a ratio between 3.94 and 3.96 |
| Derive.WhiteOnGrey | apps/webui-static/colour.js:113-116 | so it is with every transfer that puts that grey strictly between 11/60 and 1/2, at the ratio that white then has |
| Bytes.BigEndianReads | tools/create-rust-build-provenance.py:102-105 | a length that fits its field is read back from its bytes |
| Bytes.MostSignificantFirst | tools/create-rust-build-provenance.py:102-105 | the first byte is the most significant one |
| Bytes.Utf8Injective | tools/create-rust-build-provenance.py:101 | no two texts have the same UTF-8 bytes |
| Bytes.Utf8Form | tools/create-rust-build-provenance.py:101 | each character takes as many bytes as it needs and no more, a leading byte that tells how many and continuation bytes |
| Bytes.ScalarOfChar | tools/create-rust-build-provenance.py:101 | those bytes give the character back, whatever follows |
| Framing.DecodeOfStream | tools/create-rust-build-provenance.py:100-106 | a decoder reads any framed list of paths and contents back from its bytes |
| Framing.StreamOfDecode | tools/create-rust-build-provenance.py:100-106 | everything that decodes is the stream of what it decodes to |
| Framing.StreamInjective | tools/create-rust-build-provenance.py:100-106 | equal streams come from equal lists |
| Framing.FrameLayout | tools/create-rust-build-provenance.py:102-106 | one file is four bytes of length, its path, eight bytes of length, its content |
| Framing.FitsExactly | tools/create-rust-build-provenance.py:102-105 | the lengths that those fields hold |
| SourceTree.IsBuildOutput | tools/create-rust-build-provenance.py:66-86 | the scan returns whether some component is `target` with no `vendor` before it |
| SourceTree.FirstTargetDecides | tools/create-rust-build-provenance.py:69-74 | a path is build output if and only if its first `target` comes before its first `vendor` |
| SourceTree.SelectionIsByDirectory | tools/create-rust-build-provenance.py:69-78 | everything below build output is build output, and nothing below a vendored crate is |
| SourceTree.SelectedExactly | tools/create-rust-build-provenance.py:90-98 | which paths are selected: by name or by an extension after something, unless `target` comes before any `vendor` |
| SourceTree.SelectCandidates | tools/create-rust-build-provenance.py:90-98 | keeps exactly the selected paths, in order |
| SourceTree.CandidatesAscend | tools/create-rust-build-provenance.py:100 | the selected files are hashed once each in strictly ascending order: component by component, each by code points |
| SourceTree.PosixJoins | tools/create-rust-build-provenance.py:101 | components are joined by `/`, in order |
| SourceTree.SourceTreeDigest | tools/create-rust-build-provenance.py:89-107 | hashes the framed stream of the selected files in path order, or fails when a length does not fit its field |
| SourceTree.StreamOfSources | tools/create-rust-build-provenance.py:90-100 | the stream depends neither on the order of the walk nor on files that are not selected |
| SourceTree.StreamIdentifiesSources | tools/create-rust-build-provenance.py:89-107 | two workspaces give the same stream if and only if their selected files agree in path and content |
| Lexicographic.TextAndPathOrder | tools/create-rust-build-provenance.py:100 | the orders of text and of paths are total and tell all paths apart |
| Lexicographic.TextLeExactly | tools/create-rust-build-provenance.py:41 | one text comes before another if and only if it is a proper prefix or has the smaller code point where they first differ |
| Lexicographic.PathLeExactly | tools/create-rust-build-provenance.py:100 | one path comes before another if and only if it is a proper prefix or has the earlier component where they first differ |
| JsonText.EscapeReads | tools/create-rust-build-provenance.py:41 | every escape, surrogate pairs included, reads back as its character whatever follows it |
| JsonText.EscapesRead | tools/create-rust-build-provenance.py:41 | a quoted string reads back up to its closing mark |
| JsonText.EscapeIsCanonical | tools/create-rust-build-provenance.py:41 | of all printable texts without capital digits that read as a character, its own is the shortest and no other is as short |
| JsonText.EscapeForm | tools/create-rust-build-provenance.py:41 | that text is itself printable and without capital digits |
| JsonText.EscapedByCharacter | tools/create-rust-build-provenance.py:41 | a string is escaped character by character |
| Json.KeysInOrder | tools/create-rust-build-provenance.py:41 | keys are listed once each, strictly ascending by code points at their first difference |
| Json.MembersByKey | tools/create-rust-build-provenance.py:41 | the members of an object stand in its text in that order, and give the object back |
| Json.IntegersPlain | tools/create-rust-build-provenance.py:41 | an integer is its decimal digits without a leading zero, after a minus sign exactly when it is negative |
| Json.ParsePrint | tools/create-rust-build-provenance.py:41 | a parser reads every nested value without floating-point numbers back from its canonical text |
| Json.PrintInjective | tools/create-rust-build-provenance.py:41 | different values have different canonical texts |
| Json.PrintHead | tools/create-rust-build-provenance.py:41 | the first character of a printed value tells its kind, and the sign of a number |
| Signing.SignDocument | tools/create-rust-build-provenance.py:23-47 | refuses keys under 32 bytes; otherwise keeps the covered fields and writes exactly four envelope fields, over any that were there |
| Signing.PayloadIdentifiesFacts | tools/verify-rust-build-provenance.py:45-46 | two documents have the same signed bytes if and only if they agree on every field outside the envelope |
| Signing.CoveredExactly | tools/verify-rust-build-provenance.py:20-22 | setting a field changes the signed bytes unless it is one of the five of the envelope or has that value already |
| Signing.HexTextReads | tools/create-rust-build-provenance.py:40-47 | hexadecimal text is two digits for each byte, the higher first |
| Signing.SignedVerifies | tools/verify-rust-build-provenance.py:33-49 | whatever was signed, signed before or not, verifies under the same key |
| Signing.ReplacedSignature | tools/verify-rust-build-provenance.py:34-49 | with any text in place of the signature a signed document passes only with the same text, is not signed only with the empty text, and cannot be compared exactly with text outside ASCII; as it was signed it always can |
| Signing.SignatureOutsideAscii | tools/verify-rust-build-provenance.py:47-48 | a document whose signature cannot be compared |
| Signing.AsciiExactly | tools/verify-rust-build-provenance.py:47-48 | text is outside ASCII exactly when it has a code point above 127 |
| Signing.VerdictIgnoresEnvelope | tools/verify-rust-build-provenance.py:10-12 | the verdict does not change with any envelope field but the signature and its algorithm |
| Signing.SigningIgnoresEnvelope | tools/create-rust-build-provenance.py:34-36 | two documents sign to the same result if and only if they agree outside the envelope |
| Signing.SigningIsIdempotent | tools/create-rust-build-provenance.py:40-47 | signing a signed document again gives the same document |
| Signing.CarriedSignature | tools/verify-rust-build-provenance.py:34-49 | a signature moved to another document passes exactly when the keyed hashes agree, hence only on the signed facts if the hash tells the two payloads apart |
| Attachment.StepKeeps | apps/webui-static/coden-terminal.js:172-291 | every event keeps the whole invariant: one connection, honest status, every request accounted for |
| Attachment.RunKeeps | apps/webui-static/coden-terminal.js:172-291 | so does every run |
| Attachment.OneSocketOrOneTimer | apps/webui-static/coden-terminal.js:232-291 | in every reachable state at most one close event is outstanding, at most one timer is armed, never both, and until the client is stopped always one of them |
| Attachment.ReplySettles | apps/webui-static/coden-terminal.js:194-199 | a frame with the id of a pending request settles that request by that reply at once and changes nothing else |
| Attachment.WelcomeOpens | apps/webui-static/coden-terminal.js:200-216 | a welcome makes the client live, resets its backoff, announces the size and asks for the addresses |
| Attachment.OtherFrames | apps/webui-static/coden-terminal.js:186-225 | a frame of another protocol fails the client and closes the socket, a failing handler fails it, and any other frame changes nothing |
| Attachment.CloseEffects | apps/webui-static/coden-terminal.js:249-262 | a close event fails what waited, in order; only that of the current socket refuses the client, on 1008, or arms a timer |
| Attachment.TimerEffects | apps/webui-static/coden-terminal.js:232-241 | a timer that fires makes one more socket or, when that fails, one more timer |
| Attachment.DetachEffects | apps/webui-static/coden-terminal.js:271-278 | `/logout` fails what waited, disarms the timer, lets go of the socket and closes it |
| Attachment.DisposeEffects | apps/webui-static/coden-terminal.js:521-527 | disposal does that to requests, timer and connection, but status and socket stand |
| Attachment.CallEffects | apps/webui-static/coden-terminal.js:172-230 | over an open socket a call sends one request that waits and a resize one that does not; without one nothing happens |
| Attachment.SettledAtMostOnce | apps/webui-static/coden-terminal.js:172-199 | every request sent is pending or settled, never both and never twice, no id is reused, and a reply settles only its own request over the connection it was sent on |
| Attachment.RepliesAreUnambiguous | apps/webui-static/coden-terminal.js:174-230 | no two messages share an id, size announcements included, so a frame with a pending request's id can only answer that request |
| Attachment.NoneOutlivesItsConnection | apps/webui-static/coden-terminal.js:172-184 | once a socket's close event has fired every request sent on it is settled |
| Attachment.StatusTellsTheTruth | apps/webui-static/coden-terminal.js:59-69 | until the client is disposed of LIVE means that the current socket's close event has not fired; an armed timer always means RECONNECTING |
| Attachment.DisposedStatusStands | apps/webui-static/coden-terminal.js:520-527 | disposal leaves the status as it stands and no run after it changes it, unless it detaches |
| Attachment.LiveAfterDisposal | apps/webui-static/coden-terminal.js:520-527 | the terminal can reach a state where it is disposed of, every close event has fired and its status is LIVE |
| Attachment.StopIsFinal | apps/webui-static/coden-terminal.js:258-278 | in every reachable state `/logout`, disposal or a 1008 close of the current socket, and any run after it, open no socket and arm no timer |
| Attachment.HistoryGrows | apps/webui-static/coden-terminal.js:181-199 | what was settled stays settled the same way |
| Attachment.FailedReconnects | apps/webui-static/coden-terminal.js:187-193 | a protocol mismatch is followed by a reconnect once the close event fires |
| Attachment.BackoffCountsTimers | apps/webui-static/coden-terminal.js:280-290 | without a welcome in between the attempt count grows by one with each timer, and each timer waits for the delay that the attempts before it call for |
| Attachment.DelayExactly | apps/webui-static/coden-terminal.js:47-50 | half a second, doubled each time, and fifteen seconds from the sixth attempt on |
| Terminal.Terminal.constructor | apps/webui-static/coden-terminal.js:110-118 | mounting connects at once |
| Terminal.Terminal.Ask | apps/webui-static/coden-terminal.js:174-179 | sends and records a request under an id above that of every message sent before, or rejects at once without an open socket |
| Terminal.Terminal.RejectPending | apps/webui-static/coden-terminal.js:181-184 | the loop settles all pending requests as failures, in order, and empties the list |
| Terminal.Terminal.Receive | apps/webui-static/coden-terminal.js:186-225 | takes the step of a frame: mismatch, reply, welcome, or nothing |
| Terminal.Terminal.Reattach | apps/webui-static/coden-terminal.js:232-241 | takes the step of `connect`, constructor failures included |
| Terminal.Terminal.Closed | apps/webui-static/coden-terminal.js:249-262 | takes the step of the close listener |
| Terminal.Terminal.Detach | apps/webui-static/coden-terminal.js:271-278 | takes the step of `disposeSocket` |
| Terminal.Terminal.Reschedule | apps/webui-static/coden-terminal.js:280-291 | arms one timer with the delay of the current attempt, unless disposed |
| Terminal.Terminal.Unmount | apps/webui-static/coden-terminal.js:520-527 | takes the step of `dispose` |
| Terminal.Terminal.Handle | apps/webui-static/coden-terminal.js:110-291 | every handler takes its step, so every object keeps the invariant |
| Blocks.Render | apps/webui-static/markdown-lite.js:35-60 | the loop emits the maximal grouping of the lines: runs of text, lists with blank lines among their items, and single blocks |
| Blocks.FinishIsWhole | apps/webui-static/markdown-lite.js:42-59 | from any state the rest of the output is read off the rest of the lines |
| Blocks.EmittedNests | apps/webui-static/markdown-lite.js:38-40 | lists open and close in turn, items stand only in lists, and nothing else does |
| Blocks.OutputReadsBack | apps/webui-static/markdown-lite.js:42-59 | the non-blank lines, in order and each once as what it was, can be read back from the output |
| Blocks.GroupsAreTight | apps/webui-static/markdown-lite.js:38-40 | no list or paragraph is empty and no two lists of one kind stand next to each other |
| Blocks.BlankMattersExactly | apps/webui-static/markdown-lite.js:54-55 | a blank line changes the output if and only if it stands between two text lines, so never in or beside a list |
| Placeholders.RestoreFills | apps/webui-static/markdown-lite.js:26-60 | when no text of the page can be taken for a mark every mark is replaced by its block and nothing else changes |
| Placeholders.FilledByPiece | apps/webui-static/markdown-lite.js:60 | a filled page is filled piece by piece, a hole with the block of its number |
| Placeholders.MarkedByPiece | apps/webui-static/markdown-lite.js:26-29 | a marked page likewise, a hole as its number between two U+0000 |
| Placeholders.RestoreFillsExactly | apps/webui-static/markdown-lite.js:26-60 | for any page and any list of blocks of which none is empty or starts with U+0000, the page comes out as it should if and only if no text before a mark or the end holds U+0000, digits, U+0000, the U+0000 that opens the mark included |
| Placeholders.CodeBlocksAreProper | apps/webui-static/markdown-lite.js:27-28 | the blocks that the code keeps are of that kind |
| Placeholders.PlainTextKeptExactly | apps/webui-static/markdown-lite.js:60 | text from which no block was taken is left as it is if and only if it holds no U+0000, digits, U+0000 |
| Placeholders.CleanIsUnmistakable | apps/webui-static/markdown-lite.js:26-60 | a page whose texts have no U+0000 satisfies that |
| Transcript.View.Record | apps/webui-static/coden-view-model.js:415-419 | appends an entry with its detail, or refuses an unknown kind and changes nothing |
| Transcript.View.Wipe | apps/webui-static/coden-terminal.js:400 | leaves the cleared note alone |
| Transcript.View.StartWorking | apps/webui-static/coden-view-model.js:333-336 | appends a note told apart from every other |
| Transcript.View.Finished | apps/webui-static/coden-view-model.js:336-339 | the search from the end removes that note if it is still there |
| Transcript.RunLeaves | apps/webui-static/coden-view-model.js:333-340 | after any interleaving what was said is the log since the last clear, and the working notes are those started since and not done |
| Transcript.NothingWorkingAtTheEnd | apps/webui-static/coden-view-model.js:329-340 | once all notes are done the transcript is that log |
| Forms.StartForm | apps/webui-static/coden-view-model.js:145-153 | a form begins exactly when there is a subject |
| Forms.Form.Fill | apps/webui-static/coden-view-model.js:154-184 | one line cancels, is recorded and leads to the next question, or completes the call |
| Forms.Walk | apps/webui-static/coden-view-model.js:154-184 | over any list of lines: cancelled by the first cancelling line among the first three, else completed by the third |
| Forms.CompletedExactly | apps/webui-static/coden-view-model.js:170-183 | three lines that do not cancel complete the call, each answer in its own parameter |
| Forms.ItemsAreProper | apps/webui-static/coden-view-model.js:177-179 | items are trimmed and non-empty, and typing the list back in gives the same items |
| Forms.ItemsByParts | apps/webui-static/coden-view-model.js:177-179 | the list is split at semicolons, each part trimmed and dropped when blank |
| Text.TrimExactly | apps/webui-static/coden-view-model.js:157 | trimming takes space off both ends and nothing else |
| Text.SpacesByCodePoint | apps/webui-static/coden-view-model.js:157 | what counts as space, by code point |
| Forms.NamesOrStates | apps/webui-static/coden-view-model.js:116-121 | a completed form never both names and denies something left undone, and does neither exactly when the answer is only semicolons and space |
| Addresses.MatchIsRanksInTurn | apps/webui-static/coden-view-model.js:523-537 | the result is the prefix matches, then the other address matches, then the label matches, each in input order |
| Addresses.MatchExactly | apps/webui-static/coden-view-model.js:523-537 | the same in terms of the texts alone: addresses that start with what was typed, then those that contain it elsewhere, then those whose label does |
| Addresses.WantedExactly | apps/webui-static/coden-view-model.js:524 | what is looked for is what was typed without slashes in front, trimmed and folded |

## Left out

- Derive.DeriveReadable: floating-point rounding is not modelled, and nothing is claimed of the ratio of the rounded hexadecimal colour, since the code does not compute it.
- Zone.TwoPassesSuffice: the spacing of transitions is a hypothesis about zone data, not something the code checks.
- WallClock.TextRoundTrip: so are whole-minute offsets near the wall clock, here, in `WallClock.InstantRoundTrip` and in `WallClock.ReportedResolveIsResolve`; a local mean time in seconds elsewhere in the zone does not matter (`WallClock.RegularOnceInMinutes`).
- WallClock.ZoneOffsetMs: instants outside the range of a date object and zones with offsets below a second are not modelled; the ISO text of the result is represented by the instant.
- Attachment.StepKeeps: exceptions thrown by drawing or by `send`, and what the request methods mean, are not modelled; jitter and the passing of time are left to the timer event.
- Json.ParsePrint: floating-point numbers and lone surrogates are not modelled.
- Signing.SignDocument: HMAC-SHA256 and SHA-256 are arbitrary functions; collision resistance appears only as a stated hypothesis. Reading the key file is left out.
- SourceTree.SourceTreeDigest: reading files, symbolic links and names that are not valid UTF-8 are left out.
- The remaining checks of `verify` in the provenance verifier, `create_provenance` and the command-line programs: sequences of independent comparisons.
- The regular expressions that classify lines, escaping and inline markup, and taking fenced code out of the text.
- `planTurn`, `callResult`, `runSummary`, the menus, drawing, input decoding and themes: wide branching without state carried between calls.
