# Blitzortung lightning client: decoding and rendering core

`strike.py` is a websocket client for the Blitzortung lightning feed. This
project models the logic inside its I/O scaffolding.

- **The frame decoder** (`BlitzortungClient.decode_blitzortung_data`). It is an
  LZW-style expansion with a dictionary that is built during the pass itself.
  Code points below 256 are literal characters. Code points of 256 or more
  refer to dictionary entries. Each input unit after the first registers one
  entry, under the next free code: the previous entry followed by the first
  character of the current one. A code that is not yet defined expands to the
  previous entry followed by that entry's first character. The result goes to
  `json.loads`, and any failure, including empty input, gives `None`.
  Module `Decoder` holds this as a method with the source's loop variables.
  The method is proved equal to a step-by-step specification (`Init`, `Step`,
  `Run`), and lemmas about that specification state the dictionary's shape.
- **A reference encoder** (module `Encoder`). `Encodes` says when a frame
  encodes a parse of a text into words. `DecodeInverts` proves that the
  decoder recovers the words of every such frame. `Encode` is a greedy LZW
  encoder. `RoundTrip` proves that, for a non-empty text of characters below 256
  whose codes stay below the surrogate range, decoding its frame gives back
  the text. A character of 256 or more after the first unit cannot be sent
  as a literal, because the decoder reads it as a code
  (`WideCharacterMisread`).
- **The strike-time bands** (module `Timestamp`). Above 10^15 is read as
  nanoseconds, above 10^12 as microseconds, above 10^9 as seconds, and
  anything else (zero and negatives included) gives `??:??:??`. A failed
  wall-clock conversion shows `~<delay>s ago` instead. One consequence is
  proved as `PresentMicrosReadAsNanos`: a microsecond value of any moment after
  September 2001 exceeds 10^15, so the bands read it as nanoseconds.
- **Rendering and dispatch** (module `Render`). This covers the polarity
  symbol, the cuts at 100 and 80 characters, and the summary of a parsed value
  (`print_compact_strike`). It also covers the fallback order of
  `handle_message`: the JSON parse first, then the decoder (used only when its
  result is truthy), then the raw text.

The foreign pieces are parameters. `json.loads`, `str`, the wall-clock
conversion and the `.0f` delay rendering are the fields of `Render.Env`.
JSON values are the datatype `Payload.Json`, with Python's truthiness.

Two details of the code are easy to miss, and the model follows them:
- `handle_message` uses the decoder's result only when it is truthy
  (strike.py:84);
- a truthy `time` that is not a number makes the comparison at strike.py:110
  raise, and the handler then shows the delay (strike.py:121-123).

## Model

| member | source | states |
|---|---|---|
| `Decoder.DecodeBlitzortungData` | strike.py:20-46 | Empty input yields `None`. Otherwise the result is `loads` applied to the text that the loop over `e`, `f`, `c`, `o`, `g` builds, which equals the specification `Run` after every iteration. |
| `Decoder.Init` | strike.py:26-32 | The state before the loop (`e` empty, `c`, `f` and `g` from `d[0]`, `o = h = 256`) already satisfies the loop invariant `WellFormed`, with the first unit as the only entry. |
| `Decoder.EntryFor` | strike.py:35-36 | A code point below 256 is itself. In a well-formed state, a code from 256 up to the next free code is the link of two consecutive earlier entries, and any other code is the previous entry followed by its own first character (the `f + c` default of `e.get`). Every entry is non-empty. |
| `Decoder.First` | strike.py:38 | `a[0] if a else ""` is the prefix of `a` of length one, or empty for an empty `a`. |
| `Decoder.Step` | strike.py:35-41 | One iteration appends exactly the entry of the code point to the output and keeps the loop invariant. |
| `Decoder.Run` | strike.py:26-41 | After any non-empty input there is one entry per input unit, starting with the first unit, and the next free code `o` is 256 plus the number of units after the first. |
| `Decoder.RunWellFormed` | strike.py:26-41 | After any non-empty input the state satisfies the loop invariant: every entry is non-empty, `c` is the first character of `f`, the codes are dense from 256, and each entry is the link of two consecutive output entries. |
| `Decoder.Concat` | strike.py:43 | `''.join` of no parts is empty and of one part is that part. |
| `Decoder.Decode` | strike.py:20-46 | Empty input yields `None`. An input made only of code points below 256 is handed to `json.loads` unchanged. |
| `Decoder.LiteralsPassThrough` | strike.py:31-36 | Input made only of code points below 256 decodes to exactly itself. |
| `Decoder.DictionaryShape` | strike.py:31-40 | After n input units, the dictionary keys are exactly 256 .. 256+n-2. Code 256+j holds output entry j followed by the first character of entry j+1. Every entry has at least two characters. |
| `Decoder.NeverOverwritten` | strike.py:34-41 | The state after a prefix has a prefix of the output, and its dictionary entries are kept unchanged by all later input. |
| `Decoder.UndefinedCodeRepeatsPrevious` | strike.py:36-41 | At the loop head `c == f[0]`. A code of 256 or more is undefined exactly when it is at least the next free code, and then it expands to `f + f[0]`. |
| `Decoder.DecodedCoversInput` | strike.py:30-43 | The decoded text is at least as long as the input and starts with the input's first character. |
| `Encoder.DecodeInverts` | strike.py:34-43 | Reference encoder (not in the source), checked against these decoder lines. For every frame that encodes a parse of a text into words, the decoder's entries are those words, so the decoded text is their concatenation. |
| `Encoder.RoundTrip` | strike.py:20-44 | Reference encoder (not in the source), checked against these decoder lines. For a non-empty text of characters below 256 (short enough that codes stay below the surrogate range), decoding the greedy encoder's frame gives the text back. The decoder's JSON result is therefore that of the text, and the frame is no longer than the text. |
| `Encoder.EncodeFrom` | strike.py:31-40 | Reference encoder (not in the source), checked against these decoder lines. The encoder never uses a code it has not assigned, and never one at or above the surrogate range. |
| `Encoder.EncodeFromSound` | strike.py:38-40 | Reference encoder (not in the source), checked against these decoder lines. Running the encoder keeps each code a valid reference for the decoder's dictionary, and each table entry the link of two consecutive words. |
| `Encoder.EncodeFromSpells` | strike.py:43 | Reference encoder (not in the source), checked against these decoder lines. Running the encoder appends exactly the consumed characters to the text its words spell. |
| `Encoder.NextSound` | strike.py:38-40 | Reference encoder (not in the source), checked against these decoder lines. One encoder step keeps its state sound. |
| `Encoder.NextSpells` | strike.py:43 | Reference encoder (not in the source), checked against these decoder lines. One encoder step extends the text its words spell by exactly the character read. |
| `Encoder.ExtendSound` | strike.py:38-39 | Reference encoder (not in the source), checked against these decoder lines. Extending the pending word keeps every dictionary entry a link between consecutive words. |
| `Encoder.FinishEncodes` | strike.py:34-40 | Reference encoder (not in the source), checked against these decoder lines. Sending the last pending word of a sound state completes a frame in the `Encodes` relation with the words. |
| `Encoder.SendSound` | strike.py:36-40 | Reference encoder (not in the source), checked against these decoder lines. Sending the pending word gives a code that the decoder resolves to that word, and registers the same entry the decoder will register. |
| `Encoder.WideCharacterMisread` | strike.py:35-36 | Reference encoder (not in the source), checked against these decoder lines. The text `a€` is sent as itself, and the decoder reads `€` as a code and gives back `aaa`: characters of 256 or more after the first unit do not survive the round trip. |
| `Timestamp.Classify` | strike.py:110-117 | Each unit owns one interval: nanoseconds above 10^15, microseconds in (10^12, 10^15], seconds in (10^9, 10^12], and no unit at or below 10^9. |
| `Timestamp.Divisor` | strike.py:111-115 | Each unit's divisor (10^9, 10^6, 1) is positive. |
| `Timestamp.ClassifyMonotonic` | strike.py:110-117 | A larger magnitude never gets a smaller unit. |
| `Timestamp.UnitRecovered` | strike.py:110-115 | A moment of s seconds written in a unit is read back in that unit and divided back to s exactly in that unit's range of s. |
| `Timestamp.PresentMicrosReadAsNanos` | strike.py:110-113 | A microsecond value of a moment after 10^9 s is classified as nanoseconds. |
| `Timestamp.StrikeTime` | strike.py:105-123 | A falsy time or an integer at or below 10^9 shows `??:??:??`. A truthy non-number shows the delay. Otherwise the clock's answer for the band's divisor is shown, or the delay when the conversion fails. |
| `Timestamp.Ago` | strike.py:123 | The delay text is `~`, the delay rounded to whole seconds, and `s ago`. |
| `Timestamp.PlaceholderExactly` | strike.py:105-120 | For a clock that never prints `??:??:??`, the placeholder appears exactly when the time is falsy or an integer at or below 10^9. |
| `Payload.Truthy` | strike.py:84 | Python truthiness (also `if time_us:` at strike.py:106): `None`, `False`, `0`, `""`, `[]` and `{}` are exactly the false values. |
| `Payload.NumericValue` | strike.py:110-114 | The integer a value compares as: an int is itself, `True` is 1 and `False` is 0 (`bool` is a subclass of `int`). Every other value has none, because a comparison with a number raises. The same values decide `pol == 1` and `pol == 0` at strike.py:126. |
| `Payload.Length` | strike.py:101 | `len` is the length of a string, list or dict. It raises (`None`) exactly for `None`, booleans and integers. |
| `Payload.Get` | strike.py:96-102 | `dict.get(key, default)` is the key's value when the key is present and the default otherwise. |
| `Render.Truncate` | strike.py:88 | A text within the limit is unchanged. A longer one becomes its first `limit` characters followed by `...`. |
| `Render.Polarity` | strike.py:126 | `+` exactly for a value equal to 1, `-` exactly for a value equal to 0 (booleans included), and `?` for everything else. |
| `Render.Summarize` | strike.py:93-130 | A value is shown as its string cut at 80 characters exactly when it is not a dict. A dict yields an error line exactly when `len(sig)` raises, and a strike line exactly when it does not. The strike line holds the strike time, polarity, region and station count of its fields, with `dict.get`'s defaults. |
| `Render.Outcome` | strike.py:72-91 | A successful JSON parse is summarised, whatever its value. Otherwise a truthy decoded value is summarised. |
| `Render.Choose` | strike.py:78-88 | A successful JSON parse is used whatever its value. Otherwise a decoded value is used only when it is truthy. Otherwise the raw branch is taken. |
| `Render.HandleMessage` | strike.py:72-91 | The decoder runs only after the JSON parse fails. The result equals `Outcome`, and a raw line shows the message cut at 100 characters. |
| `Render.RawExactlyWhenUndecodable` | strike.py:78-88 | The raw line is printed exactly when the JSON parse fails and the decoder yields nothing truthy. |
| `Render.EmptyMessageIsRaw` | strike.py:27-28 | An empty message that is not JSON is printed raw (as the empty string). |
| `Render.LiteralMessageNotRescued` | strike.py:78-88 | A non-JSON message of characters below 256 is printed raw, because the decoder returns the same text. |
| `Render.CompressedRecordSummarised` | strike.py:81-85 | The compressed frame of a JSON text with a truthy value is summarised as that value. |
| `Render.EmptyRecordDefaults` | strike.py:96-126 | A dict with no fields prints `??:??:??`, polarity `-`, region 0 and zero stations. |

## Left out

- The websocket connection, the subscription message, the receive loop and the asyncio lifecycle (strike.py:48-70, 137-165) are network I/O and concurrency. `Outcome` is total, so every frame in a stream yields a report.
- The SIGINT handler and `sys.exit` (strike.py:132-135) are process control.
- `json.loads` and `str` are foreign code. They appear as the oracles `loads` and `show`; a parse failure is `None`. `json.dumps` builds only the subscription message, which is left out with the connection.
- `datetime.now`, `datetime.fromtimestamp`, `strftime` and the local time zone are environment-dependent. The receipt-time prefix of each line is not modelled. The conversion is the oracle `clock(t, n)` for `t / n` seconds, and `None` stands for any exception it raises.
- Floating point: JSON numbers with a fraction are not represented in `Payload.Json`. The `8.4f`, `9.4f`, `.1f` and `.0f` renderings of `lat`, `lon` and `delay` are left out, and the `.0f` delay text is the oracle `wholeSeconds`.
- The str → bytes → str UTF-8 round trip (strike.py:23-27) is left out. Frames are Dafny strings of Unicode scalar values, so a lone surrogate, which makes `encode()` raise, cannot be expressed. Binary (bytes) messages are not modelled.
- `print` is not modelled. Each printed line is the `Render.Report` value it is built from.
- Render.Summarize: does not model the error line that a non-numeric `lat`, `lon` or `delay` causes when it is formatted; its `Failed` case covers only `len(sig)` raising.
- Render.HandleMessage: does not model exceptions other than a JSON decode error escaping the first `json.loads` (a `RecursionError`, say), which would print an error line.
