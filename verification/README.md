# rasterm in Dafny

A model of the core of the Go package `github.com/kenshaw/rasterm`, which
writes images to a terminal using one of three graphics protocols: Kitty,
iTerm (inline files) and Sixel. The model covers:

- the terminal graphics type `TermType` and its text forms (`String`,
  `EnvValue`, `MarshalText`, `UnmarshalText`), the encoder registry, the
  package-level `Available`/`Encode`, and the error values (rasterm.go);
- when each encoder is available: the `TERM_GRAPHICS` override, the
  terminal identification variables, and the Sixel probe (encode.go);
- what each encoder writes, the Kitty chunk framer `chunkEncode` and the
  iTerm inline-file wrapper (encode.go);
- the default encoder, which picks the first available encoder once and
  keeps that choice (encode.go);
- the Primary Device Attributes exchange with the terminal
  (`termRequestResponse`), the parsing of its reply into numbers
  (`termAttributes`) and the Sixel decision (`hasSixelSupport`)
  (term_unix.go).

Everything is a pure function. The outside world comes in as values:

- `Encoders.Env` holds the environment variables;
- `TermQuery.TtyWorld` holds what the terminal and the operating system
  answer during one exchange;
- `Encoders.Image` holds what the external PNG, JPEG, base64 and Sixel
  codecs make of an image.

The default encoder's once-guard is the `ran` flag of
`Resolver.DefaultEncoder`; every call returns the updated state.

Each framer has a decoder beside it (`Framing.KittyDecode`,
`Framing.ITermUnwrap`), and the round-trip lemmas show that the framing
loses nothing. The digit-run scanner `DeviceAttributes.Scan` is tied to an
independent description of a reply cut into maximal digit runs
(`DeviceAttributes.MaximalRuns`), which that decomposition determines
uniquely.

Two edge cases worth knowing:

- For an empty payload `chunkEncode` writes only its preamble and no `m=0`
  frame, because its loop does not run. `Framing.ChunkFrames` gives no
  frame for an empty payload.
- A digit run too large for `int` becomes the largest `int`. That is the
  value `strconv.Atoi` returns together with its range error, which
  `termAttributes` ignores. It does not become 0.

## Model

| member | source | states |
|---|---|---|
| Text.Lower | debian/vendor/github.com/kenshaw/rasterm/rasterm.go:75 | Lower-casing keeps the length and lower-cases each character on its own, so a string equals an ASCII token after lower-casing exactly when it spells that token in some case |
| TermTypes.String | debian/vendor/github.com/kenshaw/rasterm/rasterm.go:47-60 | A type prints as "none" exactly when it is None or one of the 251 unnamed numbers |
| TermTypes.EnvValue | debian/vendor/github.com/kenshaw/rasterm/rasterm.go:39-45 | The override value is empty exactly for Default; every other type uses its printed name |
| TermTypes.MarshalText | debian/vendor/github.com/kenshaw/rasterm/rasterm.go:62-71 | Marshalling succeeds exactly for the five named types; every unnamed number fails with UnknownTermType; a success for a type other than Default is its printed name |
| TermTypes.UnmarshalText | debian/vendor/github.com/kenshaw/rasterm/rasterm.go:73-88 | Parsing always gives a named type: Default exactly for empty text; Kitty, ITerm and Sixel exactly when the lower-cased text is their token; None for any other non-empty text |
| TermTypes.MarshalRoundTrip | debian/vendor/github.com/kenshaw/rasterm/rasterm.go:62-88 | Each of the five named types marshals and parses back to itself |
| TermTypes.DefaultNameParsesToNone | debian/vendor/github.com/kenshaw/rasterm/rasterm.go:56-57 | The printed name of Default, "default", parses to None and not to Default |
| TermTypes.ShortOrLongParsesToNone | debian/vendor/github.com/kenshaw/rasterm/rasterm.go:75-77 | Non-empty text of any length other than five parses to None, because all three protocol tokens have five letters |
| TermTypes.UnmarshalIgnoresCase | debian/vendor/github.com/kenshaw/rasterm/rasterm.go:75 | Parsing a text and parsing its lower-cased form give the same type |
| Common.MessagesDistinct | debian/vendor/github.com/kenshaw/rasterm/rasterm.go:123-132 | The four library errors have four different texts, so comparing errors by their text tells them apart |
| DeviceAttributes.Scan | debian/vendor/github.com/kenshaw/rasterm/term_unix.go:74-82 | The scanner cuts a reply into maximal runs of decimal digits and the digit-free text around them; the pieces rebuild the reply, and two runs are always separated |
| DeviceAttributes.MaximalRunsUnique | debian/vendor/github.com/kenshaw/rasterm/term_unix.go:74-82 | Any cut of a reply into non-empty digit runs and digit-free gaps, with neighbouring runs kept apart, has exactly the runs the scanner finds |
| DeviceAttributes.DigitRuns | debian/vendor/github.com/kenshaw/rasterm/term_unix.go:74 | The matches are non-empty digit strings, and they are the runs of a cut of the reply into maximal digit runs and digit-free gaps |
| DeviceAttributes.RunsSkipGap | debian/vendor/github.com/kenshaw/rasterm/term_unix.go:82 | Bytes that are not digits never start or join a match |
| DeviceAttributes.RunsTakeRun | debian/vendor/github.com/kenshaw/rasterm/term_unix.go:82 | A run of digits followed by a non-digit or the end is found whole, as one match |
| DeviceAttributes.ReplyRuns | debian/vendor/github.com/kenshaw/rasterm/term_unix.go:33-44 | A reply of the form introducer, ';'-separated decimal parameters, final part has exactly its parameters as digit runs, in order |
| DeviceAttributes.AtoiValue | debian/vendor/github.com/kenshaw/rasterm/term_unix.go:77 | A digit run's number is its decimal value when that fits a 64-bit int, and the largest int when it does not |
| DeviceAttributes.Attributes | debian/vendor/github.com/kenshaw/rasterm/term_unix.go:74-79 | The attribute list has one number per digit run, in order; each is the `Atoi` value of its run and fits a 64-bit int |
| DeviceAttributes.ScanForSixel | debian/vendor/github.com/kenshaw/rasterm/term_unix.go:22-28 | The scan finds Sixel exactly when a 4 appears at some position after the first; a hit needs at least two attributes |
| DeviceAttributes.IdentifierFourIgnored | debian/vendor/github.com/kenshaw/rasterm/term_unix.go:23-24 | A 4 in the terminal identifier position alone does not report Sixel |
| TermQuery.ReadBytes | debian/vendor/github.com/kenshaw/rasterm/term_unix.go:117-138 | A read keeps a prefix of what the terminal sent, at most 1024 bytes, and is empty only when nothing was sent |
| TermQuery.AfterRestore | debian/vendor/github.com/kenshaw/rasterm/term_unix.go:107-112 | The deferred restore reports its own error only when no earlier error was recorded |
| TermQuery.RequestResponse | debian/vendor/github.com/kenshaw/rasterm/term_unix.go:94-150 | Non-terminal input fails with NonTTY before anything is written; raw mode, once entered, is always restored; the cursor-position nudge is written exactly when the timer fired; a response is returned exactly when raw mode and the write succeeded, bytes were read and the timer fired; a raw-mode failure is returned with nothing written; a write or read error is returned as is; a timer that fired with nothing read gives TermResponseTimedOut; a prompt reply leaves only the restore error |
| TermQuery.TermAttributes | debian/vendor/github.com/kenshaw/rasterm/term_unix.go:69-80 | The attribute query fails exactly when the exchange fails, with the exchange's error; otherwise it is the attribute list of the response |
| TermQuery.HasSixelSupport | debian/vendor/github.com/kenshaw/rasterm/term_unix.go:16-29 | The probe answers true exactly when the attribute query succeeds and reports Sixel; that needs a terminal, a reply and a timer that fired |
| TermQuery.PromptReplyDiscarded | debian/vendor/github.com/kenshaw/rasterm/term_unix.go:138-149 | A reply that arrives before the timer fires is dropped: no data, no error of the exchange's own, and no Sixel |
| TermQuery.SilentTerminalTimesOut | debian/vendor/github.com/kenshaw/rasterm/term_unix.go:120-149 | A terminal that never answers gets the request and the nudge, the exchange fails with TermResponseTimedOut, and the mode is restored |
| TermQuery.LateReplyAttributes | debian/vendor/github.com/kenshaw/rasterm/term_unix.go:69-80 | A reply that fits the buffer and arrives after the timer fired, with no error anywhere, is parsed whole |
| TermQuery.LateReplySixel | debian/vendor/github.com/kenshaw/rasterm/term_unix.go:16-29 | For a terminal that answers late with a reply of at most 1024 bytes, the probe says Sixel exactly when the reply's attributes report it |
| TermQuery.Vt220ReplyAttributes | debian/vendor/github.com/kenshaw/rasterm/term_unix.go:42-53 | The VT220-class reply `CSI ?62;1;2;4;6;9;15;22 c` parses to [62,1,2,4,6,9,15,22], and a terminal sending it late supports Sixel |
| TermQuery.Vt100ReplyAttributes | debian/vendor/github.com/kenshaw/rasterm/term_unix.go:36 | The VT100 reply `CSI ?1;2 c` parses to [1,2], and a terminal sending it has no Sixel |
| Framing.FrameText | debian/vendor/github.com/kenshaw/rasterm/encode.go:203 | A Kitty frame adds nine bytes of framing to its chunk |
| Framing.Render | debian/vendor/github.com/kenshaw/rasterm/encode.go:199-206 | Writing the frames adds nine bytes of framing per frame to the chunks, and a non-empty frame list ends in a closing backslash |
| Framing.ChunkFrames | debian/vendor/github.com/kenshaw/rasterm/encode.go:198-206 | The frames carry the payload, in order and with nothing lost; there are none exactly for an empty payload; every chunk but the last has the chunk size and the last has 1 to size bytes; only the last frame has m=0 |
| Framing.ChunkCount | debian/vendor/github.com/kenshaw/rasterm/encode.go:198-206 | An n-byte payload is sent in ceil(n/size) frames |
| Framing.KittyStream | debian/vendor/github.com/kenshaw/rasterm/encode.go:194-208 | A Kitty transmission starts with the transmit-and-display preamble and ends with a frame's closing backslash |
| Framing.ChunkEncode | debian/vendor/github.com/kenshaw/rasterm/encode.go:193-208 | The windowed loop writes exactly the preamble followed by the chunk frames |
| Framing.KittyRoundTrip | debian/vendor/github.com/kenshaw/rasterm/encode.go:193-208 | Decoding a Kitty transmission of a payload without ESC gives back the payload |
| Framing.ITermWrap | debian/vendor/github.com/kenshaw/rasterm/encode.go:102 | The iTerm sequence starts with the inline-file opening, ends with BEL, and adds exactly that framing around the payload |
| Framing.ITermRoundTrip | debian/vendor/github.com/kenshaw/rasterm/encode.go:102 | Unwrapping the iTerm sequence of a payload without BEL gives back the payload |
| Encoders.HasTermGraphics | debian/vendor/github.com/kenshaw/rasterm/encode.go:212-217 | The override names a type exactly when TERM_GRAPHICS spells it in any case, character by character |
| Encoders.KittyAvailable | debian/vendor/github.com/kenshaw/rasterm/encode.go:39-45 | Kitty is never available under the override "none", always under "kitty", and otherwise exactly when TERM is xterm-kitty or TERM_PROGRAM is ghostty, ignoring case |
| Encoders.ITermAvailable | debian/vendor/github.com/kenshaw/rasterm/encode.go:79-86 | iTerm is never available under "none", always under "iterm", and otherwise exactly when TERM is mintty, LC_TERMINAL is iterm2 or TERM_PROGRAM is wezterm, ignoring case |
| Encoders.SixelAvailable | debian/vendor/github.com/kenshaw/rasterm/encode.go:124-127 | Sixel is never available under "none", always under "sixel", and otherwise exactly when the terminal probe says so |
| Encoders.Available | debian/vendor/github.com/kenshaw/rasterm/encode.go:21-25 | The override "none" disables every encoder; a Sixel encoder whose override leaves the question open answers with the probe |
| Encoders.AvailableWithoutProbe | debian/vendor/github.com/kenshaw/rasterm/encode.go:124-127 | Only the Sixel encoder, and only when the override leaves the question open, depends on the terminal's answers |
| Encoders.OverrideDecides | debian/vendor/github.com/kenshaw/rasterm/encode.go:210-217 | An override of "none", or of a protocol's own name, decides that protocol's availability whatever the other variables and the terminal say |
| Encoders.Encode | debian/vendor/github.com/kenshaw/rasterm/encode.go:47-139 | An encoder fails exactly when its codec fails, with the codec's error, and then writes nothing; a success writes the Kitty transmission of the PNG text, the iTerm sequence of its payload, or the Sixel output, followed by a newline exactly when NoNewline is not set |
| Encoders.ITermPayload | debian/vendor/github.com/kenshaw/rasterm/encode.go:90-93 | The iTerm encoder sends PNG for a paletted image and JPEG for every other image |
| Encoders.EncodeRoundTrip | debian/vendor/github.com/kenshaw/rasterm/encode.go:47-110 | With the optional newline removed, the Kitty and iTerm output decodes back to the encoded image text |
| Resolver.NewDefaultEncoder | debian/vendor/github.com/kenshaw/rasterm/encode.go:149-154 | A new default encoder holds its list and has resolved nothing |
| Resolver.FirstAvailable | debian/vendor/github.com/kenshaw/rasterm/encode.go:158-163 | The loop stops at the first available encoder of the list; with none, none of them is available |
| Resolver.Init | debian/vendor/github.com/kenshaw/rasterm/encode.go:156-167 | Initialisation leaves the list alone and chooses only an available encoder from it |
| Resolver.Resolve | debian/vendor/github.com/kenshaw/rasterm/encode.go:169-173 | The first call resolves and every later call changes nothing; from a fresh state the choice is the first available encoder, and the not-available error is recorded exactly when there is none |
| Resolver.AvailableCall | debian/vendor/github.com/kenshaw/rasterm/encode.go:169-173 | The default encoder is available exactly when an encoder was chosen, and unavailable exactly when the not-available error was recorded |
| Resolver.EncodeCall | debian/vendor/github.com/kenshaw/rasterm/encode.go:175-184 | Without a chosen encoder the default encoder returns TermGraphicsNotAvailable and writes nothing; otherwise it is the chosen encoder's output |
| Resolver.AvailableCalls | debian/vendor/github.com/kenshaw/rasterm/encode.go:169-173 | Successive calls keep the default encoder in a valid state and answer once per call |
| Resolver.ResolvedOnce | debian/vendor/github.com/kenshaw/rasterm/encode.go:141-173 | However many calls follow, in whatever environments, the state and every answer stay those of the first call |
| Resolver.EncodeAfterResolve | debian/vendor/github.com/kenshaw/rasterm/encode.go:175-184 | Once resolved, the default encoder encodes the same way in every environment |
| Registry.Lookup | debian/vendor/github.com/kenshaw/rasterm/rasterm.go:93-103 | Exactly Kitty, ITerm, Sixel and Default are registered; the three protocols map to their encoders and Default to the default encoder |
| Registry.InitialRegistry | debian/vendor/github.com/kenshaw/rasterm/rasterm.go:93-103 | The package starts with an unresolved default encoder over Kitty, iTerm and Sixel, in that order |
| Registry.TypeAvailable | debian/vendor/github.com/kenshaw/rasterm/rasterm.go:23-29 | An unregistered type is unavailable and changes nothing; a protocol type answers directly; Default resolves the default encoder and answers with its choice |
| Registry.TypeEncode | debian/vendor/github.com/kenshaw/rasterm/rasterm.go:31-37 | An unregistered type fails with TermGraphicsNotAvailable and writes nothing; a protocol type uses its encoder; Default resolves the default encoder and returns what its Encode returns |
| Registry.FirstCallPicksByPriority | debian/vendor/github.com/kenshaw/rasterm/rasterm.go:110-113 | On first use the package prefers Kitty to iTerm and iTerm to Sixel, and is available exactly when one of them is |
| Registry.NothingAvailableEncodesNothing | debian/vendor/github.com/kenshaw/rasterm/rasterm.go:105-108 | When the package is unavailable, its Encode returns TermGraphicsNotAvailable and writes nothing |

## Left out

- The image codecs (PNG, JPEG at quality 93, base64, the go-sixel encoder). They are external packages; `Encoders.Image` carries their outcome on an image.
- Errors from the output writer, including a partial Sixel write. `Encoders.Encode` gives the output as it would be if every write succeeded.
- Reading environment variables. They are passed in as `Encoders.Env`.
- Encoders.HasTermGraphics: `hasTermGraphics` reads TERM_GRAPHICS once per process, under `tgOnce`. The model reads it from the environment of each call, so the two agree only while TERM_GRAPHICS does not change.
- The terminal calls (IsTerminal, MakeRaw, Restore, Read, Write). `TermQuery.TtyWorld` records their answers.
- TermQuery.RequestResponse: the goroutine, the channel and the 1/16 second timer are summed up by one flag, whether the timer was stopped before it fired. Which side wins that race is an input, not something the model decides.
- The nudge write's own error, which `termRequestResponse` discards, is not modelled.
- DeviceAttributes.AtoiValue: assumes Go's `int` is 64 bits wide. On a 32-bit platform the largest value would be 2^31-1.
- Text.Lower: lower-cases only 'A'..'Z', U+0130 and U+212A, the characters whose lower case is ASCII. Other characters are left as they are. This cannot change a comparison against the ASCII tokens the package uses, but it is not Go's full Unicode lower-casing.
- TermTypes.UnmarshalText: takes text, not bytes. The UTF-8 decoding of invalid byte sequences is not modelled.
- term_other.go, the fallback for non-Unix platforms, is not part of this model.
- Concurrent use of the default encoder from several goroutines. The once-guard is modelled as a sequential flag.
