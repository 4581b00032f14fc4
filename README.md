# AVP engine of NexusClaw, modelled in Dafny

This project models the protocol engine of the NexusClaw AVP firmware (`avp/avp.c`, with the types and constants of `avp/avp.h`) and the console-line classifier `avp_cmd_is_avp` (`avp/avp_cmd.c`). The engine is a single-context request/response machine:

- **Secret metadata table.** 32 entries plus an 8-bit `secret_count`. Lookup and allocation pick the lowest index. Entry `i` sits in secure-element data slot `96 + i`. STORE, ROTATE and DELETE update the table in place; LIST enumerates it.
- **Session and PIN lockout.**
  - `pin_attempts` locks AUTHENTICATE at 5.
  - A session expires lazily when `now >= created_at + ttl`, computed in 32 bits.
  - Every gated verb answers NOT_AUTHENTICATED without a valid session.
- **Envelope codec.**
  - A substring-scanning extractor of JSON fields (`json_find_string`, `json_find_int`) and `avp_parse_cmd`.
  - Lower-case base16 helpers.
  - `avp_error_str`.
  - `avp_format_resp`, which picks one reply shape and reports INTERNAL_ERROR when the text does not fit; the LIST loop as written does not keep to this (see "## Findings"), and the model renders the corrected loop.
- **Dispatcher.** `avp_process` parses, dispatches and formats.

Layout:

| file | module | contents |
|---|---|---|
| `avp_types.dfy` | `AvpTypes` | constants, `avp_ret_t`, `avp_op_t`, the records of `avp/avp.h` |
| `decimal.dfy` | `Decimal` | `%u` rendering and digit values |
| `hex.dfy` | `Hex` | `hex_encode` / `hex_decode` as functions and as loops |
| `json.dfy` | `Json` | `json_find_string`, `json_find_int` and lemmas locating fields |
| `parse.dfy` | `Parse` | `avp_parse_cmd` |
| `format.dfy` | `Format` | `avp_error_str`, the reply as a JSON value, `avp_format_resp` |
| `vault.dfy` | `Vault` | the engine as a function of its state: lookups, session check, the ten handlers, dispatch, `avp_process` |
| `vault_props.dfy` | `VaultProps` | the table invariant and the promises of each verb |
| `engine.dfy` | `Engine` | `avp_ctx_t` as a class over an array of 32 entries; each handler is proved equal to its `Vault` function |
| `cmd.dfy` | `Cmd` | `avp_cmd_is_avp` |

The clock and the random generator are injected callbacks in the source, so here they are inputs:

- `clock` lists the readings `get_time` returns, in the order the code asks for them. The session check reads first, then a new entry's `created_at`, then `updated_at`.
- `entropy` supplies the bytes `random_bytes` hands out: 16 for a session id and 64 for the placeholder signature.

C strings are modelled as the characters before their terminator. Fixed-size buffers become length bounds: `Command.Valid` and `Response.Fits`.

## Model

| member | source | states |
|---|---|---|
| AvpTypes.ErrorResponse | avp/avp.c:370-373 | a failing handler leaves `ok` false, sets the code and no message |
| Decimal.DigitsValueOfDecimalString | avp/avp.c:147-164 | reading back the digits `%u` writes gives the number |
| Decimal.DecimalStringDigits | avp/avp.c:264 | `%u` writes at least one character, all decimal digits |
| Decimal.AllDigitsAt | avp/avp.c:147-164 | every character of a digit run is a digit |
| Decimal.AllDigitsTail | avp/avp.c:147-164 | the tail of a digit run is a digit run |
| Decimal.DigitOf | avp/avp.c:147-164 | a digit's value is below 10 and maps back to the digit |
| Decimal.DigitChar | avp/avp.c:147-164 | a value below 10 renders as a decimal digit |
| Hex.HexChar | avp/avp.c:34-42 | a nibble renders as one of the 16 lower-case digits |
| Hex.DigitValue | avp/avp.c:44-59 | a hex digit's value is below 16 |
| Hex.DigitValueOfHexChar | avp/avp.c:34-59 | decoding a rendered nibble gives the nibble back |
| Hex.EncodeByte | avp/avp.c:37-38 | each byte becomes exactly two characters |
| Hex.Encode | avp/avp.c:34-42 | `hex_encode` writes exactly 2·len characters |
| Hex.EncodeAt | avp/avp.c:37-38 | character 2i is the high nibble of byte i, 2i+1 the low nibble |
| Hex.EncodeLowerCase | avp/avp.c:36-38 | every character written is one of `0123456789abcdef` |
| Hex.DecodeEncodeByte | avp/avp.c:34-59 | one encoded byte decodes back to the byte |
| Hex.DecodePairsAppend | avp/avp.c:51-56 | decoding one more pair appends one byte |
| Hex.DecodePairsEncode | avp/avp.c:34-59 | the pairs of an encoding decode to the original bytes |
| Hex.DecodeEncode | avp/avp.c:34-59 | `hex_decode(hex_encode(b)) == b` whenever `|b| <= max_len` |
| Hex.DecodePairsLength | avp/avp.c:51-58 | a successful decode yields len/2 bytes |
| Hex.Decode | avp/avp.c:44-59 | -1 on odd length or when len/2 exceeds `max_len`; otherwise len/2 bytes, at most `max_len` |
| Hex.PrefixFailurePropagates | avp/avp.c:51-54 | a bad pair anywhere makes the whole decode fail |
| Hex.HexEncode | avp/avp.c:34-42 | the loop writes exactly the encoding of the input |
| Hex.HexDecode | avp/avp.c:44-59 | the loop returns -1 exactly when decoding fails, else len/2 and the decoded bytes |
| Json.Quoted | avp/avp.c:119-120 | the search pattern is the key between two quotes |
| Json.IndexOf | avp/avp.c:122 | `strstr`: the first occurrence at or after the start, or none at all |
| Json.FindChar | avp/avp.c:126 | `strchr`: the first occurrence of the character, or none at all |
| Json.SkipBlanks | avp/avp.c:131 | the skip stops within the text at a character that is not blank |
| Json.SkippedAreBlanks | avp/avp.c:131 | every skipped character is blank |
| Json.TakeString | avp/avp.c:139-141 | the copy is a slice of the input, has no `"`, and stops at a quote, the end, or `max_len - 1` characters |
| Json.KeyColon | avp/avp.c:122-127 | the position found holds the first `:` after the quoted key |
| Json.FindString | avp/avp.c:117-145 | a found value has fewer than `max_len` characters and no `"` |
| Json.DigitEnd | avp/avp.c:161 | the digit run ends inside the text, at a non-digit |
| Json.StrToU32 | avp/avp.c:161 | an in-range magnitude is kept; an out-of-range one saturates at 2^32-1 |
| Json.FirstOccurrenceAfter | avp/avp.c:122 | after a prefix without `"`, the key written there is the first occurrence |
| Json.ColonAfterKey | avp/avp.c:122-127 | the colon right after such a key is the one found |
| Json.ColonFollowsKey | avp/avp.c:126 | the colon sits right after the quoted key |
| Json.KeyHasNoColon | avp/avp.c:126 | a key without `:` has no colon inside its quotes |
| Json.FirstCharAt | avp/avp.c:126 | with no earlier occurrence, `strchr` finds the given position |
| Json.QuotedHasNoColon | avp/avp.c:119-120 | quoting adds no colon |
| Json.FindStringField | avp/avp.c:117-145 | a field `"key":"value"` after text without quotes is found, cut to `max_len - 1` characters |
| Json.StringField | avp/avp.c:129-144 | a quoted value right after the colon is returned, cut to `max_len - 1` characters |
| Json.StringFieldLayout | avp/avp.c:129-137 | the positions of colon, quotes and value in a written field |
| Json.StringAfterColon | avp/avp.c:129-144 | after the colon, the value is the copy that starts behind the opening quote |
| Json.ValueTaken | avp/avp.c:139-141 | the copy loop stops at the closing quote or at the limit |
| Json.FindIntAfterColon | avp/avp.c:147-164 | a number written by `%u` after the key's colon is read back exactly |
| Json.IntAfterColon | avp/avp.c:155-161 | `json_find_int` scans from just after the colon |
| Json.ScanDigits | avp/avp.c:161 | `%u` over an in-range digit run yields its value |
| Json.DigitEndOf | avp/avp.c:161 | the digit scan stops right after the run |
| Json.DigitsValueAtOf | avp/avp.c:161 | the digits read in place have the run's value |
| Format.ErrorStr | avp/avp.c:93-111 | every code has a non-empty kind name |
| Format.KindOf | avp/avp.c:93-111 | a kind name maps back to a code with that name |
| Format.ErrorStrRoundTrip | avp/avp.c:93-111 | the kind name of a code gives the code back |
| Format.ErrorStrInjective | avp/avp.c:93-111 | two codes share a kind name exactly when they are equal |
| Format.ReplyOf | avp/avp.c:230-296 | the reply object always opens with the `ok` flag of the record |
| Format.Fit | avp/avp.c:231 | `snprintf` keeps a prefix of fewer than `len` characters, and all of the text when it fits |
| Format.FormatResp | avp/avp.c:226-302 | OK exactly when the whole text fits with its terminator, then the buffer holds it; otherwise INTERNAL_ERROR and a cut prefix |
| Format.ShapeOf | avp/avp.c:230-296 | an error reply exactly when `ok` is false; the bare `{"ok":true}` exactly when every optional field is empty; the list shape only with names |
| Format.MembersPrefix | avp/avp.c:230-296 | the first members of a reply render to a prefix of its text |
| Format.OkFlagRendered | avp/avp.c:230-296 | every reply starts with `{"ok":true` or `{"ok":false`, as the record's flag says |
| Format.ErrorRendering | avp/avp.c:230-235 | a failure renders `{"ok":false,"error":K,"message":M}`; M is the record's message or K |
| Format.ErrorRegroup | avp/avp.c:231-232 | the error members spell out the error format string |
| Format.BareRendering | avp/avp.c:293-295 | a record with no payload renders as `{"ok":true}` |
| Format.ListRendering | avp/avp.c:273-279 | a list renders its names, in order, between `{"ok":true,"secrets":[` and `]}` |
| Format.ListRegroup | avp/avp.c:274-279 | the list members spell out the list format |
| Format.AttestationNotRendered | avp/avp.c:230-296 | the attestation never changes the reply text |
| Format.ReplyKeysDistinct | avp/avp.c:230-296 | no reply repeats a key |
| Format.ItemsLength | avp/avp.c:275-278 | the names take their lengths plus two quotes each plus the commas |
| Format.ListLoopAsWritten | avp/avp.c:275-278 | the loop as written goes on past names however long the next one is |
| Format.ListAsWritten | avp/avp.c:273-279 | the list branch as written: names shown, offset of `]}`, code returned |
| Format.ListAsWrittenDropsName | avp/avp.c:275 | with 30 bytes and one 10-character name the name is dropped and OK is returned |
| Format.ListAsWrittenOverruns | avp/avp.c:277-279 | with 33 bytes and one 20-character name `]}` is written at offset 44 |
| Format.ListRendersAllNames | avp/avp.c:273-301 | corrected: every name is rendered, and OK exactly when all of them fit |
| Format.FormatRespBuffer | avp/avp.c:226-302 | the append loop and the final check produce exactly `FormatResp` |
| Parse.OpFromName | avp/avp.c:177-199 | a recognised verb name is the name of that verb |
| Parse.OpNameRoundTrip | avp/avp.c:177-199 | each verb is recognised by its own name, which fits `op_str[32]` |
| Parse.OptString | avp/avp.c:202-208 | an optional field is empty when not found, else the value found; it fits its buffer and has no `"` |
| Parse.DataOf | avp/avp.c:212-217 | at most 255 data bytes |
| Parse.ParseCmd | avp/avp.c:166-220 | a parsed command has a known verb and fields that fit their buffers; a failure is PARSE_ERROR or INVALID_OPERATION |
| Parse.ParseErrors | avp/avp.c:173-199 | PARSE_ERROR exactly when no string `op` is found; INVALID_OPERATION exactly for an unknown verb |
| Parse.ParseVerb | avp/avp.c:173-199 | a command opening with `"op":"<verb>"` parses as that verb |
| Parse.TtlChoice | avp/avp.c:209-210 | the ttl defaults to 300 and `requested_ttl` overrides `ttl` |
| Parse.DataOnlyWhenDecoded | avp/avp.c:214-216 | `data_len` is set only when decoding yields at least one byte |
| Parse.DataRoundTrip | avp/avp.c:213-217 | up to 255 bytes sent hex-encoded come back as the command's data |
| Parse.DataFieldFound | avp/avp.c:213-214 | a `data` field shorter than 512 characters is found whole |
| Parse.EncodedDataFits | avp/avp.c:213 | the encoding of up to 255 bytes fits the 512-byte buffer |
| Parse.FullLengthDataDropped | avp/avp.c:213-216 | a 512-character `data` is cut to 511, fails as odd-length and leaves no data |
| Vault.FindFrom | avp/avp.c:68-77 | the lowest index from `i` holding the name, or -1 when none does |
| Vault.Find | avp/avp.c:68-77 | `find_secret_by_name`: the lowest in-use index with the name; -1 exactly when there is none |
| Vault.FreeFrom | avp/avp.c:79-87 | the lowest free index from `i`, or -1 when all are in use |
| Vault.FreeSlot | avp/avp.c:79-87 | `find_free_slot`: the lowest free index; -1 exactly when the table is full |
| Vault.SessionValid | avp/avp.c:573-588 | valid exactly when active and `now < (created_at + ttl) mod 2^32`; only `active` changes, cleared when not valid |
| Vault.SessionInvalidate | avp/avp.c:590-594 | inactive, id cleared, every other field kept |
| Vault.Discover | avp/avp.c:308-327 | DISCOVER succeeds, fills the capabilities and leaves the context unchanged |
| Vault.Authenticate | avp/avp.c:329-365 | succeeds exactly when fewer than five attempts have failed and the PIN has at least four characters; then the session is active with a zero counter and a 32-digit id; the table is never touched |
| Vault.Store | avp/avp.c:367-404 | on success the session was valid and the name is then found in the table; on failure the table and count are unchanged |
| Vault.Retrieve | avp/avp.c:406-432 | succeeds exactly when the session is valid and the name is stored; the table is never touched |
| Vault.Delete | avp/avp.c:434-460 | succeeds exactly when the session is valid and the name is stored, and then the found entry is zeroed; on failure the table is unchanged |
| Vault.List | avp/avp.c:462-485 | succeeds exactly when the session is valid; the table is never touched |
| Vault.HwChallenge | avp/avp.c:493-509 | succeeds, reports verified, and leaves the context unchanged |
| Vault.HwSign | avp/avp.c:511-531 | succeeds exactly when the session is valid, with a 128-digit signature; the table is never touched |
| Vault.HwAttest | avp/avp.c:533-551 | succeeds exactly when the session is valid; the table is never touched |
| Vault.Dispatch | avp/avp.c:613-648 | only AUTHENTICATE changes the PIN counter; only STORE, ROTATE and DELETE change the table; no failure carries a custom message |
| Vault.Reply | avp/avp.c:596-654 | a success needs a parsed command; no failure carries a custom message |
| VaultProps.RetrieveWithSession | avp/avp.c:406-432 | with a valid session, SECRET_NOT_FOUND exactly when the name is not stored, else the placeholder value; the context is unchanged |
| VaultProps.LockoutPersists | avp/avp.c:596-655 | after five failed attempts no request of any kind changes the PIN counter |
| Json.FindInt | avp/avp.c:147-164 | a number is found only behind the quoted key and a colon |
| Json.ScanUnsigned | avp/avp.c:161 | `%u` converts only when a digit follows |
| Cmd.StartsObject | avp/avp_cmd.c:45-54 | a line classified as a command contains `{` |
| Vault.Process | avp/avp.c:596-655 | the result is the formatter's: OK exactly when the reply text fits `out_len` (with the corrected LIST rendering) |
| VaultProps.CountBound | avp/avp.h:109-110 | the counter is at most 32, and exactly 32 when every entry is in use |
| VaultProps.CountUpdate | avp/avp.c:388-392 | replacing an entry changes the count by exactly the in-use difference |
| VaultProps.FreeSlotIffRoom | avp/avp.c:378-385 | a free entry exists exactly when fewer than 32 are in use |
| VaultProps.ListNamesByIndex | avp/avp.c:474-481 | LIST yields one name per in-use entry, the k-th name from the k-th in-use index |
| VaultProps.InUseIndicesExact | avp/avp.c:474-481 | the enumerated indices ascend strictly and are exactly the in-use ones |
| VaultProps.ListMembership | avp/avp.c:474-481 | a name is listed exactly when `find_secret_by_name` finds it |
| VaultProps.SlotsDistinctInRange | avp/avp.c:389 | in-use slots lie in [96, 127] (`SLOT_SECRETS_START` to `SLOT_SECRETS_END`) and no two are equal |
| VaultProps.InitInv | avp/avp.c:557-571 | the zeroed context satisfies the invariant |
| VaultProps.CountZero | avp/avp.c:565 | a table with nothing in use counts zero |
| VaultProps.AuthenticatePreservesInv | avp/avp.c:329-365 | AUTHENTICATE keeps the invariant |
| VaultProps.StorePreservesInv | avp/avp.c:367-404 | STORE keeps the invariant |
| VaultProps.NewEntryKeepsTable | avp/avp.c:387-392 | claiming a free entry for a new name keeps names unique and the count exact |
| VaultProps.DeletePreservesInv | avp/avp.c:434-460 | DELETE keeps the invariant |
| VaultProps.DispatchPreservesInv | avp/avp.c:613-648 | every verb keeps the invariant |
| VaultProps.ProcessPreservesInv | avp/avp.c:596-655 | every request keeps the invariant, whatever its text |
| VaultProps.StoreNewName | avp/avp.c:376-396 | a new name takes the lowest free index i and slot 96+i, stamped with the two readings; the count rises by one and nothing else changes |
| VaultProps.StoreExistingName | avp/avp.c:376-396 | an existing name keeps entry, slot and creation time; only `updated_at` changes and the count stays |
| VaultProps.StoreFull | avp/avp.c:380-385 | a new name on a full table gives CAPACITY_EXCEEDED and the table is unchanged |
| VaultProps.StoreSucceedsIff | avp/avp.c:376-403 | with a valid session STORE succeeds exactly when the name exists or there is room, and then the name is found |
| VaultProps.DeleteMissing | avp/avp.c:443-448 | a missing name gives SECRET_NOT_FOUND and the table is unchanged |
| VaultProps.DeletePresent | avp/avp.c:443-457 | exactly that entry is zeroed, the count drops by one, and the name is no longer found |
| VaultProps.ListExact | avp/avp.c:462-485 | LIST returns the in-use names, as many as the counter says, each stored name listed and no other |
| VaultProps.ListInSlotOrder | avp/avp.c:474-481 | the names come by ascending index, so by ascending slot |
| VaultProps.LockoutAbsorbing | avp/avp.c:332-336 | with 5 failed attempts AUTHENTICATE answers PIN_LOCKED and changes nothing |
| VaultProps.ShortPinCounted | avp/avp.c:340-345 | a PIN shorter than 4 adds one failed attempt and changes nothing else |
| VaultProps.AuthenticateSuccess | avp/avp.c:347-364 | success: attempts reset, active, a 32-character id that decodes to the random bytes, the ttl or 300, the workspace or "default"; the table is untouched |
| VaultProps.FreshSessionValid | avp/avp.c:579-582 | a new session is valid at its creation time when `created_at + ttl` does not wrap |
| VaultProps.WrappedTtlExpiresAtOnce | avp/avp.c:578-581 | when `created_at + ttl` wraps, the session is expired at its creation time |
| VaultProps.ExpiryIsFinal | avp/avp.c:574-585 | an expired session stays invalid at every later check |
| VaultProps.GatedOpsDenied | avp/avp.c:370-374 | gated verbs without a valid session answer NOT_AUTHENTICATED and leave the table alone |
| VaultProps.UngatedOpsLeaveState | avp/avp.c:493-509 | DISCOVER and HW_CHALLENGE neither check nor change the context |
| VaultProps.OnlyFiveFieldsMatter | avp/avp.c:613-648 | only the verb, name, workspace, PIN and ttl influence a handler; the command's `session_id` is never checked |
| VaultProps.ProcessParseFailure | avp/avp.c:606-611 | a parse failure leaves the context alone and renders the parser's code as kind and message |
| VaultProps.HandlerFailureRendered | avp/avp.c:613-654 | a handler failure renders its own code as kind and message |
| VaultProps.BareReplies | avp/avp.c:293-295 | HW_CHALLENGE, HW_ATTEST, STORE, ROTATE, DELETE and an empty LIST render as `{"ok":true}` |
| VaultProps.HwSignOverrunsSignature | avp/avp.c:524-527 | as written: 64 bytes encode to 128 digits plus a terminator, one byte over `signature[128]` |
| VaultProps.RepliesFit | avp/avp.h:131-186 | corrected: with a 129-byte signature buffer every handler's reply fits the buffers of `avp_resp_t` |
| VaultProps.EmptyFits | avp/avp.c:603 | the zeroed response fits its buffers |
| VaultProps.AuthReplyFits | avp/avp.c:359-362 | the AUTHENTICATE reply fits its buffers |
| VaultProps.ListReplyFits | avp/avp.c:475-479 | at most 32 names are listed, each shorter than 64 characters |
| Engine.Context.constructor | avp/avp.c:557-571 | `avp_init` zeroes the whole context, which then satisfies the invariant |
| Engine.Context.FindSecretByName | avp/avp.c:68-77 | the loop returns exactly `Vault.Find` |
| Engine.Context.FindFreeSlot | avp/avp.c:79-87 | the loop returns exactly `Vault.FreeSlot` |
| Engine.Context.SessionValid | avp/avp.c:573-588 | the result and the new session are those of `Vault.SessionValid` |
| Engine.Context.SessionInvalidate | avp/avp.c:590-594 | the session becomes `Vault.SessionInvalidate` of the old one |
| Engine.Context.Discover | avp/avp.c:308-327 | the reply is `Vault.Discover`'s |
| Engine.Context.Authenticate | avp/avp.c:329-365 | new state and reply are `Vault.Authenticate`'s; the invariant is kept |
| Engine.Context.Store | avp/avp.c:367-404 | new table, counter, session and reply are `Vault.Store`'s; the invariant is kept |
| Engine.Context.Retrieve | avp/avp.c:406-432 | new state and reply are `Vault.Retrieve`'s |
| Engine.Context.Delete | avp/avp.c:434-460 | the entry is zeroed in place; new state and reply are `Vault.Delete`'s |
| Engine.Context.ListSecrets | avp/avp.c:474-481 | the loop collects exactly `Vault.ListNames` of the table |
| Engine.Context.List | avp/avp.c:462-485 | new state and reply are `Vault.List`'s |
| Engine.Context.HwChallenge | avp/avp.c:493-509 | the reply is `Vault.HwChallenge`'s |
| Engine.Context.HwSign | avp/avp.c:511-531 | new state and reply are `Vault.HwSign`'s |
| Engine.Context.HwAttest | avp/avp.c:533-551 | new state and reply are `Vault.HwAttest`'s |
| Engine.Context.Process | avp/avp.c:596-655 | new state, code and output are `Vault.Process`'s; the invariant is kept |
| Cmd.IsAvp | avp/avp_cmd.c:45-54 | the scan over leading whitespace returns exactly `StartsObject` |
| Cmd.StartsObjectIff | avp/avp_cmd.c:45-54 | true exactly when some `{` is preceded only by spaces, tabs, CR and LF |
| Cmd.PrependWhitespace | avp/avp_cmd.c:48-50 | leading whitespace does not change the classification |
| Cmd.BlankIsNotAvp | avp/avp_cmd.c:48-53 | an empty or all-whitespace line is not a command |
| Cmd.BraceIsEnough | avp/avp_cmd.c:53 | any text behind the first `{` is classified as a command, valid JSON or not |

## Left out

- Vault.Process, Engine.Context.Process: the LIST branch follows the corrected rendering (`Format.FormatRespBuffer`): every name, and INTERNAL_ERROR when they do not fit. The code as written (`Format.ListAsWritten`) can return AVP_OK with names dropped or write `]}` past the buffer; this is reachable with the 1024-byte console buffer, since 32 names of 63 characters need 2135 bytes.
- Secure-element effects are left out: the commented-out TROPIC01 calls, `avp/avp_tropic.c` and `avp/avp_hw.c` are not part of this model. Stored values, signatures and attestations are placeholders, so no value round trip is stated.
- The clock and the random generator are inputs, not callbacks.
- `avp_init`'s NULL checks are left out: the constructor has no pointers to check.
- `avp_cmd_init` and `avp_cmd_process` in `avp/avp_cmd.c` are left out: they are console I/O around a static context.
- Hex.Decode: reads strict pairs of hex digits. `sscanf("%2x")` is more lenient: it accepts a leading sign, a `0x` prefix or one digit before a non-digit, or leading white space (`" a1b"` gives the bytes 0x0a, 0x1b in the code and None here), none of which are modelled.
- Json.StrToU32: `strtoul` is taken with a 32-bit `unsigned long`, as on the target. It saturates at 2^32-1 and negates a `-` modulo 2^32.
- Text after a NUL byte inside the request is not modelled. Strings are the characters before the terminator.
- The search pattern buffer `search[64]` could truncate a key of 62 characters or more. Every key used is short, so this is not modelled.
- `avp_error_str`'s `UNKNOWN_ERROR` default is not modelled: every `avp_ret_t` value has a case.
- `hex_decode` may write some bytes before it fails on a bad pair. Those bytes are never read because `data_len` stays 0, so they are not modelled.
- Engine.Context.Store: truncation of the name by `strncpy(..., 63)` is not modelled, because `Command.Valid` already bounds the name below 64 characters. The same holds for the workspace in AUTHENTICATE and the names in LIST.
- `json_find_int` lemmas locate a number only at a known colon position (`Json.FindIntAfterColon`). A lemma over a whole written request with a number field is not stated.
- A request whose `op` value is at least 32 characters is cut to 31 before the verb comparison. This follows from `Json.FindString`.
- Behaviour of the code a caller may not expect:
  - oversize string fields are silently truncated, not rejected;
  - a 512-character `data` field is lost (`Parse.FullLengthDataDropped`);
  - the command's `session_id` is never checked (`VaultProps.OnlyFiveFieldsMatter`).
- Vault.SessionValid: `created_at + ttl` wraps modulo 2^32 as in the code, so a ttl near 2^32 expires the session at once (`VaultProps.WrappedTtlExpiresAtOnce`). This is stated, not corrected.

## Findings

| source | as written | input that shows it | evidently intended | confidence | as-written member | corrected member |
|---|---|---|---|---|---|---|
| avp/avp.c:275-279 | the LIST loop continues while `n < len - 10`, whatever the length of the next name, and then writes `]}` at offset `n` even when `n > len` (`len - n` wraps to a huge `size_t`) | one name of 10 characters into a 30-byte buffer: `{"ok":true,"secrets":[]}` with AVP_OK, the name silently dropped. One name of 20 characters into 33 bytes: `]}` is written at offset 44, past the buffer | render every name and report INTERNAL_ERROR when the text does not fit | high, not executed | Format.ListAsWritten, Format.ListAsWrittenDropsName, Format.ListAsWrittenOverruns | Format.FormatRespBuffer, Format.ListRendersAllNames |
| avp/avp.c:525-527, avp/avp.h:179 | HW_SIGN hex-encodes 64 random bytes into `hw_sign.signature[128]`; `hex_encode` writes 128 digits and then a terminator at index 128 | any HW_SIGN with a valid session | a signature buffer of 129 bytes, holding 128 digits and the terminator | high, not executed | VaultProps.HwSignOverrunsSignature | VaultProps.RepliesFit |
