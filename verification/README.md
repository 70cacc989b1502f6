# stega-lab3 watermark codec, modelled in Dafny

stega-lab3 hides a text message in a WAV file by additive spread-spectrum
modulation. This project models its codec core as pure Dafny functions and
proves properties of them:

- **ParkMiller** (`park_miller.dfy`): the Park–Miller "minimal standard"
  generator (multiplier 16807, modulus 2^31 − 1).
  - It produces the spreading key, one +1/−1 value per step.
  - The seed is a clock reading reduced modulo 100, passed in as a parameter.
  - The floating-point output test `state / 2147483647.0 + 0.000000000233 > 0.5`
    is written literally over the reals. Its exact integer form
    `state >= 1073741823` is proved, and the derivation is documented at
    `ParkMiller.Threshold`.
- **Embed** (`embed.dfy`): the encoder `st`.
  - The container's first `n·m·N` amplitudes form `n·m` windows of `N`
    samples. Window `i` carries the `i`-th bit of the message, most
    significant bit first.
  - Each sample `a` of a window becomes `a + c·0.0005·(a + 2)`, where `c` is
    `key[k]` for the sample's offset `k` in the window, negated the `i16` way
    (`NegI16`) for a 0 bit.
  - Once the bit stream is exhausted, windows are modulated as for a 1 bit.
  - Later samples are copied unchanged.
  - The command-line capacity rule `N = samples div (n·m)`, with `N ≥ 1`
    required, is `Embed.SamplesPerBit`.
- **Extract** (`extract.dfy`): the decoder `dest`.
  - One bit per window, decided from the sign of the normalised residual
    `(stego − orig)/(orig + 2)` of the window's first sample against `key[0]`.
  - The bits are packed most significant bit first.
- **RoundTrip** (`round_trip.dfy`): over the reals, decoding the encoder's
  output against the original container recovers the message.
- **BitPacking** (`bit_packing.dfy`): the MSB-first byte/bit conversions the
  codec takes from the `bitvec` crate.
- **Utf8Width** (`utf8_width.dfy`): `count_bits_per_char`.
  - Well-formedness is the UTF-8 syntax of section 4 of RFC 3629.
  - Encoded lengths follow the table of section 3 of RFC 3629.
- **KeyCodec** (`key_codec.dfy`): the text form of the key that
  `write_key_to_file` writes and `read_key_from_file` reads back.
- **Numeric** (`numeric.dfy`): `u8`/`i16` ranges, wrapping `i16` negation and
  window index arithmetic.
- **Wrappers** (`wrappers.dfy`): `Option` and `Result`.

Amplitudes are Dafny `real`s standing in for `f64`. The depth 0.0005 is
exactly 1/2000, so the residual the decoder computes is exact.

Notes on how the model treats the code where its behaviour is easy to
misread (further departures from the code are under "Left out"):

- `dest` returns ⌈n·m/8⌉ bytes. `bitvec`'s `into_vec` keeps a final partial
  byte, padded with zero bits.
- A key longer than `N` is accepted: only its first `N` entries are used.
- A malformed key token makes the source panic in `unwrap`. The model
  departs from the code here and returns `Failure(KeyParseError)`.
- `-x` on an `i16` key entry of −32768 wraps in a release build (`NegI16`).
  For that reason, and because a zero entry carries no sign, the round trip
  requires `key[0] ∉ {0, −32768}`.
- At `orig == −2.0` the source divides by +0.0. The result is an infinity
  with the numerator's sign, or NaN when the numerator is zero. The model
  uses the numerator's sign, or no sign.

## Model

| member | source | states |
|---|---|---|
| ParkMiller.New | src/park_miller_prng.rs:8-15 | a generator seeded from any non-negative clock reading starts in a state in [0, 99], which is a valid generator state |
| ParkMiller.Step | src/park_miller_prng.rs:18 | the update keeps every state in [0, 2^31 − 2], and the product `state · 16807` never exceeds the i64 maximum |
| ParkMiller.Emit | src/park_miller_prng.rs:19-25 | the floating-point threshold test yields only +1 or −1, and +1 exactly when the state is at least 1073741823 |
| ParkMiller.Next | src/park_miller_prng.rs:17-26 | one step keeps the state valid and emits ±1, with +1 exactly when the new state reaches the threshold |
| ParkMiller.Iterate | src/park_miller_prng.rs:18 | any number of updates keeps a valid state valid |
| ParkMiller.Generate | src/park_miller_prng.rs:28-34 | `num` values in generation order: value `i` is the output for the state reached after `i + 1` updates, and the generator continues from the state after `num` updates |
| ParkMiller.GeneratePrs | src/park_miller_prng.rs:28-34 | the push loop returns exactly the `num` values of `Generate`, each of them ±1 |
| ParkMiller.GenerateSplit | src/park_miller_prng.rs:28-34 | drawing `a` values and then `b` more from the continuing generator is drawing `a + b` at once, split at `a` |
| ParkMiller.ZeroSeedEmitsMinusOne | src/park_miller_prng.rs:17-25 | state 0 is a fixed point, so a generator at 0 emits only −1 |
| ParkMiller.KeyRepeatsEveryHundredTicks | src/park_miller_prng.rs:14 | clock readings 100 microseconds apart give the same key of any length |
| Numeric.NegI16 | src/st.rs:13 | `i16` negation as a release build computes it: the result plus the argument is 0 modulo 2^16, and it is the exact negation whenever that is an `i16` |
| Embed.Chip | src/st.rs:12-16 | the key entry applied under a stream bit keeps its magnitude, is unchanged unless the bit is 0, and for entries other than 0 and −32768 is negated exactly when the bit is 0 |
| Embed.Stego | src/st.rs:5-29 | the reference definition of the encoder's output has the container's length and copies every sample past `n·m·N` |
| Embed.St | src/st.rs:5-29 | the result has the container's length, matches the reference definition `Stego`, and is unchanged past `n·m·N`; sample `j` in range is `a + c·0.0005·(a + 2)`, where `c` is `key[j mod N]` negated the `i16` way (`Chip`, `NegI16`) when stream bit `j div N` is 0; `n·m = 0` returns the container itself |
| Embed.ModulateWindow | src/st.rs:18-25 | inside the window, sample `start + k` is moved by `spread[k]` times its distance above −2; every other sample is unchanged |
| Embed.SamplesPerBit | src/main.rs:30-38 | a container is refused exactly when it has fewer samples than message bits; otherwise `N ≥ 1` is the largest width with `n·m·N` within the container |
| Embed.EverySampleChanges | src/st.rs:77-81 | with a ±1 key and no amplitude at −2, every sample of every window changes |
| Embed.ExhaustedStreamActsAsOne | src/st.rs:12-16 | past the end of the bit stream, the key entry is applied unnegated, as for a 1 bit |
| Extract.ResidualSign | src/dest.rs:15-18 | the residual's sign is −1, 0 or 1, is 0 exactly when the samples are equal, and for `orig ≥ −2` is 1 exactly when the stego sample is larger (the division by +0.0 at `orig = −2` included) |
| Extract.DecideBit | src/dest.rs:20-24 | equal samples or a zero key entry decide 0; for `orig ≥ −2` the bit is 1 exactly when the sample moved in the direction of the key entry's sign |
| Extract.DecodeBits | src/dest.rs:8-25 | exactly `count` bits; bit `i` depends only on `stego[i·N]`, `orig[i·N]` and `key[0]` |
| Extract.Dest | src/dest.rs:5-29 | ⌈n·m/8⌉ bytes whose first `n·m` bits, MSB first, are the window decisions; the padding bits are 0; `n·m = 0` gives no bytes |
| Extract.DestOfUnchanged | src/dest.rs:15-24 | decoding a container against itself yields all-zero bytes |
| Extract.DestReadsOnlyFirstKeyEntry | src/dest.rs:20 | keys that agree on their first entry decode identically |
| Extract.DestExample | src/dest.rs:38-64 | the example data, decoded with one sample per bit and eight one-bit windows, gives the byte 0b10101010 |
| Extract.DestExampleArgumentsSwapped | src/dest.rs:66-81 | the example data, with arguments in the order the test passes them, gives 0b10000000 |
| RoundTrip.ResidualOfPerturb | src/dest.rs:15-18 | the residual of a perturbed sample has the sign of the applied key entry |
| RoundTrip.DecideRecoversBit | src/dest.rs:20-24 | for a key entry other than 0 and −32768, the decision on a perturbed sample is the embedded bit, with an exhausted stream read as 1 |
| RoundTrip.DecodeRecoversStream | src/dest.rs:8-26 | window `i` of the encoder's output decodes to message bit `i`, or to 1 past the end of the bit stream |
| RoundTrip.DestInvertsSt | src/dest.rs:5-29 | with 8 bits per byte, `dest(st(container, message, key), container)` is the message |
| RoundTrip.WideWindowsDecodeTrailingOnes | src/st.rs:11-16 | with 16 bits per character, the decoder returns the message followed by one 0xFF byte per message byte |
| RoundTrip.ExampleRoundTrip | src/st.rs:38-59 | the encoder's example container, message 0b10101010 and a ±1 key survive the round trip |
| BitPacking.Unpack | src/st.rs:8-9 | `BitVec::from_slice` with `Msb0`: eight bits per byte, inverted by `Pack` (`PackUnpack`) |
| BitPacking.Pack | src/dest.rs:25-28 | `into_vec` of the pushed bits: ⌈bits/8⌉ bytes, inverted by `Unpack` up to zero padding (`UnpackPack`) |
| BitPacking.UnpackIndex | src/st.rs:8-9 | bit `i` of a byte sequence's stream is bit `i mod 8`, MSB first, of byte `i div 8` |
| BitPacking.ToBitsMsbFirst | src/st.rs:8 | bit `k` of a byte's eight bits is its binary digit of weight 2^(7−k) |
| BitPacking.FromBitsToBits | src/dest.rs:28 | a value below 2^w reads back from its `w` bits |
| BitPacking.ToBitsFromBits | src/dest.rs:28 | `w` bits read back from their value |
| BitPacking.UnpackPack | src/dest.rs:28 | the bytes of a packed bit stream unpack to the stream followed by zero padding up to a whole byte |
| BitPacking.PackUnpack | src/dest.rs:28 | packing a byte sequence's bit stream gives back the bytes |
| BitPacking.PackZeros | src/dest.rs:28 | an all-zero bit stream packs into zero bytes |
| Utf8Width.Chars | src/utils.rs:148-150 | the character decomposition exists exactly when the bytes are well-formed UTF-8, each part is one RFC 3629 character, and the parts concatenate to the input |
| Utf8Width.LeadDeterminesLength | src/utils.rs:148 | a character's first byte fixes its encoded length, so the decomposition is unique |
| Utf8Width.EncodedLengthOfCodePoint | src/utils.rs:151 | a well-formed character's byte count is the length its code point is given by `len_utf8` |
| Utf8Width.AsciiCharsAreSingleBytes | src/utils.rs:150-151 | ASCII bytes are well-formed, one byte per character |
| Utf8Width.CountBitsPerChar | src/utils.rs:146-164 | error exactly on ill-formed input; 0 exactly for empty input; otherwise 8 times the longest character's length, one of 8, 16, 24 or 32, and 8 for non-empty ASCII |
| Utf8Width.LongestCharBits | src/utils.rs:150-157 | the loop's maximum bounds `8·len` of every character and is attained by one of them; it is 0 exactly when there are no characters |
| KeyCodec.NatToDecimal | src/utils.rs:286 | a non-empty digit string whose decimal value is the number, with no leading zero unless it is "0" |
| KeyCodec.IntToDecimal | src/utils.rs:286 | a minus sign exactly for negative values, followed by the canonical decimal digits of the magnitude (no leading zeros) |
| KeyCodec.ParseI16 | src/utils.rs:305 | empty tokens fail; an accepted token is an optional sign followed by digits, and its value's sign matches the token's sign |
| KeyCodec.ParseDecimal | src/utils.rs:286-305 | every i16 parses back from its decimal text |
| KeyCodec.SerializeKey | src/utils.rs:285-290 | empty text exactly for the empty key; otherwise one comma fewer than entries, the last character a digit, and nothing but digits, minus signs and commas |
| KeyCodec.Split | src/utils.rs:304 | one more piece than separators, no piece holds a separator, and the pieces joined with the separator are the input |
| KeyCodec.FirstLine | src/utils.rs:298-299 | a prefix of the text with no line feed before its last character, ending with the first line feed unless it is the whole text |
| KeyCodec.TrimStart | src/utils.rs:303 | a suffix of the text; everything dropped is whitespace, and it does not start with whitespace |
| KeyCodec.TrimEnd | src/utils.rs:303 | a prefix of the text; everything dropped is whitespace, and it does not end with whitespace |
| KeyCodec.Trim | src/utils.rs:303 | `str::trim`: a contiguous slice of the text with only whitespace before and after it, neither starting nor ending with whitespace, and the identity on whitespace-free text |
| KeyCodec.KeyTokens | src/utils.rs:298-304 | the tokens of the trimmed first line: one more than its commas, none containing a comma, and joined with commas they give back the trimmed line |
| KeyCodec.ParseAll | src/utils.rs:302-306 | success exactly when every token parses, giving one entry per token in order |
| KeyCodec.ParseKey | src/utils.rs:298-306 | success exactly when every comma-separated token of the trimmed first line parses, giving commas + 1 entries in order |
| KeyCodec.SerializedTokens | src/utils.rs:285-304 | splitting a serialised non-empty key at commas gives the decimal forms of its entries |
| KeyCodec.SerializedTextIsPlain | src/utils.rs:285-290 | serialised key text contains no whitespace, line feeds included |
| KeyCodec.PlainLineUnchanged | src/utils.rs:298-303 | text without whitespace passes the first-line read and the trim unchanged |
| KeyCodec.ParseDecimals | src/utils.rs:302-306 | the decimal forms of a key's entries parse back to the key |
| KeyCodec.KeyRoundTrip | src/utils.rs:285-306 | every non-empty key reads back from the text it is written as |
| KeyCodec.EmptyKeyDoesNotRoundTrip | src/utils.rs:285-306 | the empty key is written as empty text, and reading that fails on the single token "" |
| KeyCodec.SerializeExample | src/utils.rs:344-361 | the key 1, −1, 2, −2, 3 is written as "1,-1,2,-2,3" |

## Left out

- Command-line parsing and dispatch (`init_cli`, `process_files`, `read_file`) and the rest of `main`: argument handling and file I/O. Only the capacity rule is kept, as `Embed.SamplesPerBit`.
- `main`'s capacity computation for an empty message (src/main.rs:30): it divides by 0.0. For a non-empty container the quotient is +inf, which `as usize` saturates to `usize::MAX`, so the refusal at src/main.rs:33 is skipped and `generate_prs(usize::MAX)` runs out of memory. Only an empty container gives NaN, which casts to 0 and is refused. `Embed.SamplesPerBit` takes `n·m > 0` and does not model this path.
- Extract.Dest: requires a non-empty key whenever `n·m > 0`. The source reads `key[0]` only when the first residual is non-zero (the `&&` at src/dest.rs:20), so with an empty key and zero (or NaN) residuals it returns zero bytes rather than panicking. Every caller passes a key of `N ≥ 1` entries, and `read_key_from_file` never returns an empty key.
- WAV reading and writing: the /32767 normalisation and the clamping and quantising to `i16` are I/O through `hound`.
- Plotting, amplitude comparison and sine synthesis (`plot_wav_amplitudes`, `compare_amplitudes`, `generate_wav`): UI output and `f32` trigonometry.
- The wall-clock read in `ParkMiller::new`: the reading is the `clock` parameter of `ParkMiller.New`.
- File handles in the key codec: only the text written and read is modelled, including `read_line`'s first-line cut. I/O errors are not modelled, including `read_line`'s error on invalid UTF-8.
- IEEE-754 rounding of amplitudes: reals stand in for `f64`, so the round trip holds over reals only.
- `usize` overflow of `n·m·N` and of window indices: integers are unbounded.
- A debug build panics on `-(-32768)`: the model follows the release build's wrap-around.
- `bitvec` internals: bits are `seq<bool>` with explicit MSB-first packing, and the padding bits of a final partial byte are taken to be zero.
- KeyCodec.ParseI16: its contract does not state the parsed value. The value is pinned down for every i16 by `KeyCodec.ParseDecimal`, and for leading zeros, `+` signs and out-of-range tokens only by the definition.

## Findings

| source | as written | input that shows it | evidently intended | confidence | as-written member | corrected member |
|---|---|---|---|---|---|---|
| src/dest.rs:74 | the decoder's test calls `dest(&data, n, m, samples_per_msg_bit)`, but the parameters are `(samples_per_msg_bit, n, m)` | the test's own data with n = 8, m = 1, one sample per bit: one 8-sample window is decoded and 0b10000000 is returned, not the asserted 0b10101010 | `dest(&data, 1, 8, 1)`, which returns 0b10101010 | high; not executed | Extract.DestExampleArgumentsSwapped | Extract.DestExample |
