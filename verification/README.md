# TESA compressor: a Dafny model

This project models `TESACompressor`, the word-level text compressor. It also models `pack_markers`, the C helper that the compressor calls through ctypes.

The compressor does four things:

- **Symbol table.** Whitespace tokens are replaced by markers: stable markers `S<id>` while there is capacity, overflow markers `T<id>` after that. A phrase that scores above 90 against an already known stable phrase reuses that phrase's marker (an alias).
- **Codec.** Markers are encoded as integers with a two-bit kind tag. The encoded stream is then delta-transformed.
- **Frame.** The stream can be framed as `version | count | big-endian 16-bit values | CRC-16/XMODEM`.
- **Packing.** Two marker ids can be packed into one 32-bit word.

## How the model is laid out

The mutable instance is an immutable `Compressor` record. Each operation is a pure function that takes the record and returns the updated record together with its result.

The modules follow the program's structure:

| module | file | contents |
|---|---|---|
| `Text` | `text.dfy` | `str.split()`, `' '.join`, `str(int)` |
| `Markers` | `markers.dfy` | the marker datatype, its integer encoding, the delta transform |
| `SymbolTable` | `symbol_table.dfy` | the instance state, `add_to_dictionary` (`Resolve`), its invariant |
| `Codec` | `codec.dfy` | `compress`, `decompress`, and the round trip between them |
| `Bytes` | `bytes.dfy` | octets |
| `Crc16` | `crc.dfy` | `binascii.crc_hqx` |
| `Frame` | `frame.dfy` | `to_binary` |
| `Packer` | `packer.dfy` | `pack_markers` in C and its Python wrapper |
| `Wrappers` | `wrappers.dfy` | `Option` and `Result` |

The fuzzy-match score (`fuzz.ratio` of the lower-cased phrases) is a function parameter, `Score`. Nothing is assumed about it. The round trip is stated for the words on which no alias fires (`Codec.NoAliasFires`): each word, when its turn comes, is either already bound or scores at most 90 against every stable phrase known at that point. `SymbolTable.AliasSpellsKnownPhrase` shows that this condition cannot be dropped.

The CRC is CRC-16/XMODEM, the parameterisation that `crc_hqx` computes:

- polynomial 0x1021, the CRC-CCITT generator of ITU-T V.41;
- initial register 0;
- no reflection;
- no final XOR.

### Behaviour of the code worth knowing

- **Stable capacity.** A new stable marker is allocated only while `next_id < max_markers`, and ids start at 1, so at most `max_markers - 1` stable markers exist. With `max_markers = 2` the first three new phrases get `S1`, `T1`, `T2` (`SymbolTable.CapacityExample`). With the default 16384, every stable id is below 2^14, so it fits the field that `pack_markers` keeps (`Packer.DefaultCapacityPacksInjectively`).
- **Alias scan.** The scan covers only `reverse_dict`, which holds stable phrases. Overflow phrases are never alias candidates.
- **Overflow table.** An overflow phrase is recorded only in `temp_dict`. Each repetition of it therefore gets a fresh, larger `T` id (`SymbolTable.OverflowNeverReused`).
- **Range errors.** `to_binary` raises when it is given more than 255 values (from `bytearray`) or a value outside 0..65535 (from `to_bytes`). The count is checked first. The model returns these as `CountOverflow` and `ValueOverflow`.

## Model

| member | source | states |
|---|---|---|
| Text.Split | tesa_motif.py:39 | `text.split()` yields whitespace-free, non-empty tokens, and yields none exactly when the text is empty or all whitespace |
| Text.Join | tesa_motif.py:80 | the joined text starts with the first word, followed by a space when more words follow |
| Text.SplitJoin | tesa_motif.py:39 | splitting the single-space join of whitespace-free tokens gives the same tokens back |
| Text.JoinSplitOfJoined | tesa_motif.py:80 | single-space separated text is reproduced by splitting and re-joining it |
| Text.NatToString | tesa_motif.py:27 | the decimal rendering of a natural id is a digit string without leading zero |
| Text.NatToStringInverse | tesa_motif.py:27 | the digits of `str(n)` read back as the value n |
| Text.IntToString | tesa_motif.py:32 | `str(i)` is a non-empty whitespace-free token |
| Text.IntToStringInjective | tesa_motif.py:77-79 | distinct ids render as distinct strings, so literal marker names are unambiguous |
| Markers.Encode | tesa_motif.py:52-56 | an encoded marker carries its kind in the low two bits (0 for S, 1 for T) and its id above them |
| Markers.Decode | tesa_motif.py:74-79 | decoding keeps every bit of the value except that tags 2 and 3 are read as a stable marker |
| Markers.DecodeEncode | tesa_motif.py:74-76 | decoding an encoded marker gives the same marker back |
| Markers.EncodeDecode | tesa_motif.py:74-79 | a value is the encoding of its decoding exactly when its tag bits are 00 or 01 |
| Markers.EncodeInjective | tesa_motif.py:52-56 | distinct markers never share an integer |
| Markers.EncodeAll | tesa_motif.py:52-56 | every encoded element decodes to the marker at the same position |
| Markers.Name | tesa_motif.py:77-79 | the fallback text for an unbound marker is a token starting with `S` or `T` according to its kind |
| Markers.NameInjective | tesa_motif.py:77-79 | distinct markers have distinct fallback names |
| Markers.ToDelta | tesa_motif.py:59-62 | the first value is kept, and each later value is recovered by adding its delta to its predecessor |
| Markers.FromDelta | tesa_motif.py:66-68 | the reconstruction starts at the first delta and adds each later delta to its predecessor |
| Markers.FromDeltaIsRunningSum | tesa_motif.py:66-68 | each reconstructed value is the sum of the deltas up to it |
| Markers.FromDeltaToDelta | tesa_motif.py:59-68 | prefix summation inverts the delta transform for any integer sequence |
| Markers.ToDeltaFromDelta | tesa_motif.py:59-68 | the delta transform inverts prefix summation |
| Markers.ToDeltaInjective | tesa_motif.py:59-62 | different streams give different delta streams |
| SymbolTable.FirstMatch | tesa_motif.py:23-25 | the scan returns the first entry in insertion order that matches, or none when no entry matches |
| SymbolTable.Position | tesa_motif.py:22 | finds where a phrase is bound in `reverse_dict`, or reports that it is absent |
| SymbolTable.AliasPosition | tesa_motif.py:23-25 | the alias is the first stable phrase scoring above 90, and every earlier phrase scores at most 90 |
| SymbolTable.Init | tesa_motif.py:8-15 | a fresh instance has the given capacity, is consistent, has all counters at zero, and has both id cursors at 1 |
| SymbolTable.Resolve | tesa_motif.py:20-36 | the phrase's counter goes up by one and no other counter changes. A bound phrase returns its own marker, and an alias returns the first matching phrase's marker; neither changes any table. Otherwise `S<next_id>` is bound in both stable tables while `next_id < max_markers`, and `T<next_temp_id>` goes into `temp_dict` only after that |
| SymbolTable.Spell | tesa_motif.py:77-79 | a marker with no table entry is shown as its literal name |
| SymbolTable.SpellStable | tesa_motif.py:20-36 | once bound, a marker keeps its text in every later state |
| SymbolTable.AllocateStablePreservesValid | tesa_motif.py:26-30 | stable allocation keeps ids 1, 2, … gap-free, keeps the two stable tables inverse to each other, and respects the capacity |
| SymbolTable.AllocateOverflowPreservesValid | tesa_motif.py:31-35 | overflow allocation keeps the overflow ids 1, 2, … in `temp_dict` and changes nothing stable |
| SymbolTable.ResolvePreservesValid | tesa_motif.py:20-36 | `add_to_dictionary` keeps the instance consistent (at most `max_markers - 1` stable markers) and only ever extends it |
| SymbolTable.ResolveRecoverable | tesa_motif.py:20-36 | unless an alias fires, the returned marker is bound to the phrase itself |
| SymbolTable.AliasSpellsKnownPhrase | tesa_motif.py:23-25 | when an alias fires, the returned marker shows the known phrase it matched, never the new phrase |
| SymbolTable.StableIdsBelowCapacity | tesa_motif.py:26-30 | every stable marker of a consistent instance has an id from 1 to `max_markers - 1` |
| SymbolTable.DiscriminatingNoAlias | tesa_motif.py:23-25 | a score above 90 only for identical phrases never produces an alias for a new phrase |
| SymbolTable.StableBindingPermanent | tesa_motif.py:20-36 | a phrase bound to a stable marker gets that marker on every later call, and the tables do not change |
| SymbolTable.OverflowNeverReused | tesa_motif.py:31-35 | a repeated overflow phrase gets `T<next_temp_id>` and then `T<next_temp_id + 1>` |
| SymbolTable.CapacityExample | tesa_motif.py:26-35 | with `max_markers = 2` the first three new phrases get `S1`, `T1`, `T2` |
| Codec.Pair | tesa_motif.py:44 | a pair candidate always contains a space |
| Codec.Segment | tesa_motif.py:40-50 | the scan emits one marker for every one or two tokens and leaves the capacity unchanged |
| Codec.ResolveEach | tesa_motif.py:49 | token-by-token resolution emits one marker per token |
| Codec.Compress | tesa_motif.py:38-63 | the output length lies between half the token count and the token count |
| Codec.Decompress | tesa_motif.py:65-80 | `decompress` fails exactly on an empty list |
| Codec.InitNoHotPairs | tesa_motif.py:15 | a fresh instance has no pair counter above 2 |
| Codec.ResolveKeepsNoHotPairs | tesa_motif.py:21 | resolving a single token leaves every pair counter as it was |
| Codec.SegmentIsWordByWord | tesa_motif.py:42-50 | the pair branch never fires, so the scan resolves tokens one at a time, and no pair counter is ever raised |
| Codec.CompressOnePerToken | tesa_motif.py:38-63 | `compress` emits exactly one value per whitespace token. Whitespace-only text gives an empty list, which `decompress` rejects |
| Codec.DiscriminatingNoAliasFires | tesa_motif.py:23-25 | a score above 90 only for identical phrases lets no alias fire on any words |
| Codec.ResolveEachPreservesValid | tesa_motif.py:49 | token-by-token resolution keeps the instance consistent and only extends it, for any score |
| Codec.SegmentPreservesValid | tesa_motif.py:42-50 | the scan, pair branch included, keeps the instance consistent and only extends it, for any score |
| Codec.CompressPreservesValid | tesa_motif.py:38-50 | across a `compress` call, with any score, the instance stays consistent (stable ids 1, 2, … within capacity), and every marker bound before the call keeps its text |
| Codec.ResolveOneRecoverable | tesa_motif.py:20-36 | when no alias fires, the resolved phrase is bound to a marker that spells it, and the instance stays consistent |
| Codec.ResolveEachRecoverable | tesa_motif.py:46-50 | when no alias fires on the words, every word's marker spells that word in the final state |
| Codec.DecompressEncoded | tesa_motif.py:65-80 | `decompress` of an encoded, delta-transformed marker stream yields each marker's text joined by spaces |
| Codec.WordByWordRoundTrip | tesa_motif.py:38-80 | when no alias fires on the tokens, decompressing the encoded result of token-by-token resolution on the resulting instance gives the tokens joined by spaces |
| Codec.RoundTrip | tesa_motif.py:38-80 | when no alias fires on the tokens of `t`, `decompress(compress(t))` on the same instance equals `' '.join(t.split())` for text with a token |
| Codec.RoundTripExact | tesa_motif.py:38-80 | single-space separated text on whose words no alias fires comes back unchanged |
| Bytes.ByteOf | tesa_motif.py:96-97 | a value in 0..255 becomes the octet of that value |
| Bytes.Word | tesa_motif.py:99 | a word's high and low octets are the two it was built from |
| Bytes.WordOfOctets | tesa_motif.py:99 | a word is rebuilt from its two octets |
| Bytes.WordInjective | tesa_motif.py:99 | two octet pairs forming the same word are equal |
| Bytes.BigEndian | tesa_motif.py:99 | `to_bytes(2, 'big')` gives two octets that form the word again |
| Crc16.CrcShift | tesa_motif.py:98 | a register step is a shift left, XOR-ed with 0x1021 exactly when the top bit was set |
| Crc16.CheckValue | tesa_motif.py:98 | the CRC of "123456789" is 0x31C3, the CRC-16/XMODEM check value |
| Crc16.CrcShiftInjective | tesa_motif.py:98 | a register step maps distinct registers to distinct registers |
| Crc16.CrcShiftsInjective | tesa_motif.py:98 | any number of steps maps distinct registers to distinct registers |
| Crc16.CrcByteInjective | tesa_motif.py:98 | feeding the same byte into distinct registers gives distinct registers |
| Crc16.CrcByteInjectiveInByte | tesa_motif.py:98 | feeding distinct bytes into the same register gives distinct registers |
| Crc16.CrcHqxConcat | tesa_motif.py:98 | the CRC of a concatenation continues from the CRC of its first part |
| Crc16.CrcHqxStreaming | tesa_motif.py:98 | the CRC of a message is the CRC of its prefix fed the last byte |
| Crc16.CrcHqxInjective | tesa_motif.py:98 | distinct start registers stay distinct through any data |
| Crc16.CrcDetectsByteError | tesa_motif.py:98 | two messages that differ in exactly one byte have different CRCs |
| Frame.Payload | tesa_motif.py:94-97 | each value contributes two bytes, its high byte then its low byte |
| Frame.ToBinary | tesa_motif.py:90-100 | more than 255 values fails with the count error, and otherwise any value outside 0..65535 fails with the value error. On success the frame is 2n+4 bytes: version 1, then n, then each value big-endian, then the big-endian CRC-16/XMODEM of every preceding byte |
| Frame.FrameRoundTrip | tesa_motif.py:90-100 | the values are recoverable from every frame `to_binary` builds |
| Frame.CrcMatchesDetectsByteError | tesa_motif.py:98-99 | changing any single byte of a frame, CRC bytes included, breaks the CRC match |
| Frame.FrameDetectsByteError | tesa_motif.py:90-100 | every single-byte corruption of a built frame is rejected |
| Packer.PackMarkers | tesa_packer.c:3-5 | the result is below 2^30; its top field is `s1` and its low 14 bits are `s2 & 0x3FFF` |
| Packer.BitwiseIsArithmetic | tesa_packer.c:4 | on 32-bit words the shift, mask and OR equal `s1 * 2^14 + s2 mod 2^14` |
| Packer.PackDropsTopBits | tesa_packer.c:4 | the top two bits of `s2` do not affect the result |
| Packer.PackInjective | tesa_packer.c:4 | two packings agree exactly when the first arguments agree and the second agree in their low 14 bits |
| Packer.ToUInt16 | tesa_motif.py:17 | a `c_uint16` argument is the Python integer modulo 2^16 |
| Packer.WireId | tesa_motif.py:83-84 | the wrapper passes a stable marker's id and 0 for an overflow marker |
| Packer.PackMarkerPair | tesa_motif.py:82-85 | the wrapper packs a stable id (0 for any other marker), wrapped to 16 bits, in the top field and the second id's low 14 bits below it |
| Packer.OverflowPacksAsZero | tesa_motif.py:83-84 | an overflow marker packs like stable id 0, in either position |
| Packer.StablePairInjective | tesa_motif.py:82-85 | stable ids below 2^14 pack to distinct words |
| Packer.SecondIdCollides | tesa_motif.py:84-85 | second ids 2^14 apart pack alike |
| Packer.FirstIdWraps | tesa_motif.py:83-85 | first ids 2^16 apart pack alike |
| Packer.DefaultCapacityPacksInjectively | tesa_motif.py:82-85 | with the default `max_markers` of 16384, any two stable markers of a consistent instance pack to a word that determines both |

## Left out

- The ctypes library loading and argument-type setup (tesa_motif.py:16-18) are left out because they are foreign-library plumbing. The C function is modelled directly, and the `c_uint16` conversion is modelled as `ToUInt16`.
- `fuzz.ratio` is a third-party library and is not modelled. The score, including the lower-casing of both phrases, is the parameter `Score`.
- `to_json` (tesa_motif.py:87-88) is left out because it is only a `json.dumps` call.
- `execute`, `interpret_motif` and the example note dictionaries (tesa_motif.py:103-138) are left out because they are printing and sample data.
- There is no frame decoder in the component. `Frame.ParseFrame` exists only as a proof aid, to state what a frame determines.
- Marker strings (`f'S{id}'`, `int(c[1:])`, `startswith`) are replaced by the `Marker` datatype. As a result, the branches for a list element that is neither an `S` nor a `T` marker (tesa_motif.py:57-58 and 71-72) cannot arise and are not modelled. The same holds for the `isinstance(c, int)` test of `to_binary`, which every element passes.
- Reading an absent counter of the `defaultdict` inserts a zero entry. The model reads it as zero without inserting anything, because no operation can observe the difference.
- `crc_hqx` is table-driven in the library. The model computes the same register bit by bit.
- Crc16.CrcDetectsByteError: only single-byte errors are proved detected. Detection of longer bursts, which CRC-16 also guarantees, is not stated.
- Codec.RoundTrip: stated only for words on which no alias fires, and for instances whose pair counters are at most 2, which holds for every instance used only through `compress`. When an alias fires, `decompress` shows the known phrase instead of the input (`SymbolTable.AliasSpellsKnownPhrase`), so no round trip holds.
- Packer.BitwiseIsArithmetic: proves that the C expression equals `s1 * 2^14 + s2 mod 2^14` on 32-bit words. The final step, reading that 32-bit word as the integer `PackMarkers` returns, is argued in the module comment and not proved, because the solver cannot afford bit-vector-to-integer conversion of masks and remainders.
- The mutation of the instance in place is modelled by returning the new state. Concurrent use of one instance is out of scope.
