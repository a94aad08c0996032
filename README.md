# gopass: message framing, `generate` helpers and GPG user ids

This project models three pieces of gopass in Dafny and proves properties of them.

- **Message framing of the browser JSON API** (`framing.dfy`). This is the framing used between gopass and the browser bridge. The model follows the test helpers and the expectations named in the test table. The test run itself checks less: for a failing request it asserts only that an error occurs and that nothing is written (api_test.go:341-344). It never compares the error text.
  - A frame is the payload length as a little-endian `uint32`, followed by the payload.
  - The encoder is `writeMessageWithLength`. It writes into a `bytes.Buffer`, modelled as the class `Buffer`.
  - The checker is `readAndVerifyMessageLength`. It reads through a `bytes.Reader`, modelled as the class `Reader` with a cursor.
  - The reading side of the API object is `Reader.ReadMessage`. `Api.ReadAndRespond` performs one request/response round.
  - The rule that a failed request writes nothing is part of the contract of `ReadAndRespond`.
  - The test-table loop of `runRespondMessages` is `FrameRequests`.
  - The two framing error texts named as expected values in the test table (api_test.go:31 and 34) are the values of `FrameErrorMessage`.
- **Helpers of the `generate` command** (`generate.dfy`, `domain.dfy`, `completion.dfy`):
  - `keyAndLength`, which decides which positional argument is the key and which the length;
  - the `name:key` label under which a generated password is reported;
  - the length check in front of the password generators;
  - the completion pipeline: `extractEmails`, `extractDomains` with the `reDomain` expression, `uniq` and `filterPrefix`.
- **GPG user ids** (`identity.dfy`): `Identity.ID()` and `Identity.String()`, together with a reader `ParseID`. It inverts `ID()` for identities whose name holds no `(` and whose address holds no `<`. Without that condition two identities can share an id: `Identity("a (b)", "", "e")` and `Identity("a", "b", "e")` both give `a (b) <e>`.

The helpers these rely on are in `strings.dfy`: `strings.HasPrefix`, `path.Base`, byte-wise string order and the sortedness notions used by `sort.Strings`. `wrappers.dfy` holds `Option` and `Result`.

Two modelling choices concern the Go semantics:
- Go strings are compared byte by byte on their UTF-8 encoding. UTF-8 preserves code-point order, so the model compares code points.
- Go's case-insensitive `[a-z]` also matches U+017F (long s) and U+212A (Kelvin sign), because of Unicode case folding. `DomainName.IsLetter` includes both.

`readAndVerifyMessageLength` reads the payload through a `bytes.Reader`. That reader reports EOF for any read at the end of its data, even a read into an empty slice. So the helper's checks pass only for frames whose payload is non-empty. `Framing.ReadAndVerifyMessageLength` states this exactly, and `ResponseFrameVerifies` requires a non-empty message for that reason.

## Model

| member | source | states |
|---|---|---|
| Framing.EncodeUint32LE | cmd/gopass-jsonapi/internal/jsonapi/api_test.go:289 | the little-endian encoding of a `uint32` is exactly four bytes |
| Framing.DecodeUint32LE | cmd/gopass-jsonapi/internal/jsonapi/api_test.go:369 | four bytes always stand for a value below 2^32 |
| Framing.DecodeEncodeUint32 | cmd/gopass-jsonapi/internal/jsonapi/api_test.go:289 | decoding the four bytes written for a `uint32` gives that value back |
| Framing.EncodeDecodeUint32 | cmd/gopass-jsonapi/internal/jsonapi/api_test.go:369 | re-encoding the value read from four bytes gives the same bytes, so the length encoding is a bijection |
| Framing.Frame | cmd/gopass-jsonapi/internal/jsonapi/api_test.go:287-292 | a frame is four bytes longer than the message; its tail is the message unchanged; its prefix decodes to the message length reduced modulo 2^32 (Go's `uint32` conversion) |
| Framing.DecodeFrame | cmd/gopass-jsonapi/internal/jsonapi/api_test.go:29-41 | decoding fails with "not enough bytes" exactly when fewer than four bytes are present, and with "incomplete message" exactly when the announced length exceeds what follows; otherwise the payload is exactly the announced number of bytes right after the prefix |
| Framing.FrameErrorMessage | cmd/gopass-jsonapi/internal/jsonapi/api_test.go:31-34 | a short prefix is reported as "not enough bytes read to determine message size" and an incomplete payload as "incomplete message read", each text for exactly one failure |
| Framing.FrameRoundTrip | cmd/gopass-jsonapi/internal/jsonapi/api_test.go:362-377 | the frame of any message shorter than 2^32 bytes decodes to that message, whatever follows it |
| Framing.DecodedIsFramed | cmd/gopass-jsonapi/internal/jsonapi/api_test.go:362-377 | conversely, any input that decodes to a payload begins with the frame of that payload |
| Framing.TruncatedFrameFails | cmd/gopass-jsonapi/internal/jsonapi/api_test.go:31-34 | a frame cut short inside the prefix fails with "not enough bytes"; cut inside the payload, it fails with "incomplete message"; it never yields a partial payload |
| Framing.GarbageInputIsIncomplete | cmd/gopass-jsonapi/internal/jsonapi/api_test.go:31 | the prefix of "1234Xabcd" announces 0x34333231 bytes, and the input fails as incomplete |
| Framing.EmptyMessageDecodes | cmd/gopass-jsonapi/internal/jsonapi/api_test.go:37 | the frame of the empty message is four zero bytes and decodes to the empty payload, so the JSON-stage failure the test table names for it is the only failure left |
| Framing.Buffer.constructor | cmd/gopass-jsonapi/internal/jsonapi/api_test.go:288 | a new buffer is empty |
| Framing.Buffer.Write | cmd/gopass-jsonapi/internal/jsonapi/api_test.go:290 | writing appends the bytes at the end and changes nothing before them |
| Framing.Buffer.WriteUint32LE | cmd/gopass-jsonapi/internal/jsonapi/api_test.go:289 | writing a `uint32` appends its four little-endian bytes |
| Framing.WriteMessageWithLength | cmd/gopass-jsonapi/internal/jsonapi/api_test.go:287-292 | the buffer ends up holding exactly the frame of the message |
| Framing.Reader.constructor | cmd/gopass-jsonapi/internal/jsonapi/api_test.go:363 | a new reader is at the start of its data |
| Framing.Reader.Read | cmd/gopass-jsonapi/internal/jsonapi/api_test.go:366 | a read at the end reports EOF and copies nothing, even into an empty slice; otherwise as many bytes as fit are copied and the cursor moves past them; the rest of the slice is untouched |
| Framing.Reader.ReadMessage | cmd/gopass-jsonapi/internal/jsonapi/api_test.go:29-41 | reading a frame from the stream gives exactly the decoding of the unread bytes; on success the cursor is just past the frame |
| Framing.ReadAndVerifyMessageLength | cmd/gopass-jsonapi/internal/jsonapi/api_test.go:362-377 | all assertions of the helper pass exactly when there are more than four bytes and the prefix announces the length minus four; the returned message is then everything after the prefix |
| Framing.ResponseFrameVerifies | cmd/gopass-jsonapi/internal/jsonapi/api_test.go:369-371 | the length in the prefix of a frame with a non-empty payload is the frame length minus four, so the helper accepts it and returns the payload |
| Framing.Respond | cmd/gopass-jsonapi/internal/jsonapi/api_test.go:337-347 | a round produces output exactly when the request decodes and the dispatcher succeeds; a request that does not decode fails with its framing error, and a dispatcher failure is passed on as it is; on success the output is exactly one frame, the frame of the dispatcher's response |
| Framing.RespondRoundTrip | cmd/gopass-jsonapi/internal/jsonapi/api_test.go:346-349 | the written output decodes to exactly the dispatcher's response |
| Framing.RespondVerifies | cmd/gopass-jsonapi/internal/jsonapi/api_test.go:346-347 | the output of a successful round with a non-empty response passes `readAndVerifyMessageLength`: it is longer than four bytes, its prefix announces its length minus four, and the rest is the response |
| Framing.Api.constructor | cmd/gopass-jsonapi/internal/jsonapi/api_test.go:330-335 | the API object is wired to the given input and output |
| Framing.Api.ReadAndRespond | cmd/gopass-jsonapi/internal/jsonapi/api_test.go:340-345 | on any failure the error is reported and the output is left exactly as it was; on success one complete frame is appended; the input cursor ends just past the request frame, or at the end of the stream when the request does not decode |
| Framing.FrameRequests | cmd/gopass-jsonapi/internal/jsonapi/api_test.go:309-312 | each request's input is replaced in place by its frame; nothing else in the table changes |
| Generate.Arg | internal/action/generate.go:88-89 | an existing argument is returned as it is; a non-empty result is always an existing argument |
| Generate.IsDigit | internal/action/generate.go:31 | `\d` matches exactly the ten ASCII digits `0` to `9` |
| Generate.IsNumber | internal/action/generate.go:31 | a match is non-empty and holds no sign, so a negative number never counts as a length |
| Generate.KeyAndLength | internal/action/generate.go:87-101 | no argument text is lost or invented; when no length remains the key is not a number; the key is either the second argument or empty |
| Generate.KeyAndLengthCases | internal/action/generate.go:95-98 | the second argument becomes the length exactly when the third is absent and the second is a non-empty string of digits; in every other case both are returned unchanged |
| Generate.KeyAndLengthIdempotent | internal/action/generate.go:87-101 | deciding again on the decided key and length changes nothing |
| Generate.EntryLabel | internal/action/generate.go:106-109 | the label starts with the entry name; it equals the name exactly when there is no key; otherwise a `:` and then the key follow the name |
| Generate.EntryLabelRoundTrip | internal/action/generate.go:106-109 | for names without `:`, splitting the label at its first `:` gives back the name and the key |
| Generate.LengthErrorMessage | internal/action/generate.go:147-159 | an unparsable length is reported as "password length must be a number" and a length below 1 as "password length must not be zero", each text for exactly one refusal |
| Generate.CheckLength | internal/action/generate.go:151-160 | an unparsable length is refused as "not a number" and only then; a number below 1 is refused as "not zero" and only then; any other number is accepted unchanged |
| Generate.PasswordLength | internal/action/generate.go:141-160 | an accepted length is at least 1. An explicit length is refused as "not a number" exactly when it does not parse. A parsed value below 1 is refused as "not zero", and any other parsed value is accepted as it is. Without an explicit length, the same three cases apply to the user's answer to a prompt offering 24, or 4 words for XKCD passwords |
| DomainName.IsLetter | internal/action/generate.go:308 | a letter of `(?i)[a-z]` is never a digit, a hyphen or a dot |
| DomainName.IsAlnum | internal/action/generate.go:308 | a character of `(?i)[a-z0-9]` is never a hyphen or a dot |
| DomainName.IsAlnumRun | internal/action/generate.go:308 | a run of `[a-z0-9]+` is non-empty and holds no hyphen and no dot |
| DomainName.IsLabel | internal/action/generate.go:308 | a label of `[a-z0-9]+(-[a-z0-9]+)*` is non-empty, begins and ends with a letter or digit, and holds no dot |
| DomainName.IsTopLevel | internal/action/generate.go:308 | a final label of `[a-z]{2,}` also has the form of a label |
| DomainName.IsDomain | internal/action/generate.go:308 | every match of `reDomain` is at least four characters long and begins with a letter or digit |
| DomainName.RunIsLabel | internal/action/generate.go:308 | a non-empty run of letters and digits is a label |
| DomainName.LabelJoin | internal/action/generate.go:308 | a label, a hyphen and a run of letters and digits form a label |
| DomainName.LabelSplit | internal/action/generate.go:308 | conversely, a label holding a hyphen is a label, a hyphen and a run |
| DomainName.DomainCons | internal/action/generate.go:308 | a label and a dot followed by a name match exactly when the name is a final label of two or more letters, or matches again |
| DomainName.DomainSplit | internal/action/generate.go:308 | conversely, every match is a label, a dot and then a final label or another match |
| DomainName.DomainShape | internal/action/generate.go:308 | every match holds a dot, ends with a letter and contains no `/`, `@` or `_` |
| DomainName.TwoLabels | internal/action/generate.go:308 | a run of letters and digits, a dot and a final label of two or more letters match |
| DomainName.GithubIsDomain | internal/action/generate.go:308 | "github.com" matches |
| DomainName.NestedHostIsDomain | internal/action/generate.go:308 | "some.other.host" matches |
| DomainName.SingleLabelIsNotDomain | internal/action/generate.go:308 | a name without a dot does not match |
| DomainName.TrailingHyphenIsNotDomain | internal/action/generate.go:308 | a first label ending in a hyphen makes the name fail, whatever follows its dot |
| DomainName.OneLetterTopLevelIsNotDomain | internal/action/generate.go:308 | "a.b" does not match: the final label needs two letters or more |
| DomainName.NumericTopLevelIsNotDomain | internal/action/generate.go:308 | "example.c0m" does not match: the final label holds letters only |
| Completion.IsEmailLike | internal/action/generate.go:301 | a name holding `@` or `_` never matches `reDomain`, so the e-mail and domain candidates never overlap |
| Completion.Filter | internal/action/generate.go:334-342 | the kept elements all occur in the input and pass the test; there are no more of them than input elements |
| Completion.FilterMembers | internal/action/generate.go:334-342 | an element is kept exactly when it occurs in the input and passes the test |
| Completion.FilterIsSubsequence | internal/action/generate.go:334-342 | the kept elements keep their input order |
| Completion.FilterKeepsStrictlySorted | internal/action/generate.go:287-289 | filtering the sorted, duplicate-free output of `uniq` leaves it sorted and duplicate-free |
| Completion.Bases | internal/action/generate.go:300 | one base name per entry, position by position |
| Completion.FilterPrefix | internal/action/generate.go:334-342 | the loop keeps exactly the elements that start with the prefix, in order |
| Completion.ExtractBases | internal/action/generate.go:297-319 | the loop keeps exactly the base names that pass the test, in entry order |
| Completion.ExtractEmails | internal/action/generate.go:297-306 | exactly the base names holding `@` or `_`, in entry order |
| Completion.ExtractDomains | internal/action/generate.go:310-319 | exactly the base names matching `reDomain`, in entry order |
| Completion.SwapWithPrevious | internal/action/generate.go:330 | exchanging two neighbours keeps the elements as a multiset and changes no other position |
| Completion.SortStrings | internal/action/generate.go:330 | after sorting, each element is at most the next, and the elements are the same multiset as before |
| Completion.Uniq | internal/action/generate.go:321-332 | the result is strictly ascending, so it holds no duplicates, and it holds exactly the elements of the input |
| Completion.Candidates | internal/action/generate.go:286-290 | for a typed word with a `/`: exactly the e-mail-like base names starting with the word's own base name; otherwise exactly the domain-like base names starting with the word; sorted and duplicate-free either way |
| Strings.HasPrefix | internal/action/generate.go:337 | `s` starts with `prefix` exactly when it is `prefix` followed by the rest of `s` |
| Strings.IndexOf | internal/action/generate.go:308 | the position of the first occurrence, or the length when there is none |
| Strings.LastIndexOf | internal/action/generate.go:300 | the position of the last occurrence, or -1 when there is none |
| Strings.TrimTrailingSlashes | internal/action/generate.go:300 | what remains is a prefix that does not end in `/`, and only slashes were removed |
| Strings.Base | internal/action/generate.go:300 | the empty path gives "." and a path of slashes only gives "/". Any other result is a suffix of the path without its trailing slashes, preceded there by a `/` or by nothing. The result is never empty and holds a `/` only when it is "/" itself; that it is not "/" for such paths is `Strings.BaseIsLastElement` |
| Strings.BaseIsLastElement | internal/action/generate.go:300 | when something other than slashes remains after the trailing slashes are dropped, the base is never "/", holds no `/`, and is the whole of what remains or the part after its last `/`, so it is exactly the last path element |
| Strings.BaseOfElement | internal/action/generate.go:300 | the base name of a plain element, or of an element under any directory, is the element |
| Strings.Less | internal/action/generate.go:330 | Go's `<` on strings, the order `sort.Strings` uses: no string is less than itself, and a proper prefix is less than the longer string |
| Strings.LessAtFirstDifference | internal/action/generate.go:330 | two strings that agree up to a position and differ there are ordered by their characters at that position |
| Strings.LessAsymmetric | internal/action/generate.go:330 | the string order is asymmetric and irreflexive |
| Strings.LessTransitive | internal/action/generate.go:330 | the string order is transitive |
| Strings.LessTotal | internal/action/generate.go:330 | any two strings are equal or ordered one way or the other |
| Strings.ChainLess | internal/action/generate.go:330 | a chain of strictly increasing neighbours is strictly increasing throughout |
| Strings.DistinctAt | internal/action/generate.go:321-329 | in a sequence where nothing occurs twice, different positions hold different elements |
| Strings.SortedDistinctIsStrict | internal/action/generate.go:321-332 | a sorted sequence without duplicates is strictly ascending |
| Strings.StrictlySortedUnique | internal/action/generate.go:321-332 | two strictly ascending sequences with the same elements are equal, so the output of `uniq` does not depend on map iteration order |
| Gpg.Identity.ID | gpg/identity.go:11-18 | the id starts with the name and ends with " <", the address and ">"; with a comment, " (", the comment and ")" come right after the name; its length is that of exactly these parts |
| Gpg.Identity.String | gpg/identity.go:22-24 | the listed form is the 31-character `uid` prefix followed by the id, and its length is the sum of the two |
| Gpg.ParseID | gpg/identity.go:11-18 | whatever is read back has a name without `(` and an address without `<` |
| Gpg.ParseAddress | gpg/identity.go:16 | when the address holds no `<`, it is read back from behind the `<` written in front of it, and what precedes the separator is read as the name and the comment |
| Gpg.HeadRoundTrip | gpg/identity.go:12-15 | for a name without `(`, the name and the comment are read back from what the id holds before the address |
| Gpg.IdRoundTrip | gpg/identity.go:11-18 | every identity whose name holds no `(` and whose address holds no `<` is read back from its id |
| Gpg.IdInjective | gpg/identity.go:22-24 | two such identities with the same listed form are the same identity |

## Left out

- The JSON API dispatcher is not part of this model: decoding JSON, the message types, `queryHost` and `query` matching, login resolution, `getData`/TOTP, `create`, `copyToClipboard` and the version reply. Their code is not visible. `Api.ReadAndRespond` and `Respond` take the dispatcher as the function parameter `handle`.
- The engine's own `readMessage`/`getMessageLength` is not part of this model. `Reader.ReadMessage` and `DecodeFrame` follow the error texts and expectations that the test table names: the two error texts, no payload for an incomplete frame, and a zero-length frame that decodes. The test run checks only that an error occurs and that nothing is written, so those texts are the expected values, not asserted ones.
- Populating the mock store, contexts and the semver value in the test setup are left out. They are library calls.
- Matching the output against the expected regular expression in `runRespondRawMessages` is left out. It is a regex-engine call.
- Framing.Frame: frames for messages of 2^32 bytes or more carry the wrapped length. The model states this. The round-trip lemmas are stated only for shorter messages, since the wrapped frame does not decode to the original.
- `Generate`, `generateSetPassword` and `generateReplaceExisting` are left out. They are store reads and writes, templates, YAML updates and interactive prompts.
- The `pwgen` and `xkcdgen` generators and the `strict`, `memorable`, `symbols` and `xkcdsep` flags are left out. They involve randomness and foreign code. Only the length check in front of them is modelled.
- Generate.PasswordLength: `strconv.Atoi` and `termio.AskForInt` are the abstract parameters `atoi` and `ask`. Their sign and whitespace handling is not visible.
- Generate.PasswordLength: the XKCD variant appends the parse error's own text to "password length must be a number" when an explicit length does not parse. `LengthErrorMessage` gives only the fixed part, because the parse error text comes from `strconv`.
- The clipboard copy and the `out.Print` messages of `generateCopyOrPrint` are left out. They are I/O. Only the entry label is modelled.
- `CompleteGenerate`'s store calls and its `bashEscape`/stdout printing are left out. They are I/O. `Completion.Candidates` takes the entry list as input and returns what would be printed.
- `argList` is not part of this model. `Generate.Arg` stands for its `Get`, which returns "" for a missing argument.
- Completion.Uniq: the order in which Go's map yields its keys is not modelled. The model takes the keys out of a set in an arbitrary order (`:|`). The result does not depend on it, by `Strings.StrictlySortedUnique`.
- Completion.SortStrings: `sort.Strings` is modelled by an insertion sort with the same contract. Go's actual algorithm is not visible and does not affect the result.
- `tests/gptest/unit.go` is not part of this model. It is test scaffolding over directories, environment variables and configuration files.
