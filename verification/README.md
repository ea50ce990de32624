# Claim model of the profile dapp, in Dafny

The project models the claim helpers of the Tezos profile dapp, together with the one utility that builds the payload a wallet signs.

The claim helpers cover:

- the two claim types, "basic" (a self-attested profile) and "twitter" (a Twitter account verification);
- classifying a verifiable credential by its `type` array;
- the display assets, empty drafts and fresh claim records of each type;
- filling a claim map with defaults;
- rebuilding a draft from stored credential content;
- loading a claim from its stored triple;
- the unsaved-draft test and the structural `deepEqual` it rests on.

The payload builder, `getMichelineStringBytes`, writes a string in the Micheline packed form as lowercase hex: the tag `0501`, a hex length field counting UTF-16 code units (8 digits below 16^8, wider from there on), then `char2Bytes(str)`.

Modules:

- `Wrappers`: `Option`.
- `JsValues`: parsed JavaScript values (`Json`), `Object.keys` (array indices print as decimal numerals) and the property read.
- `Equality`: `deepEqual` and its order-free meaning, reflexivity and symmetry.
- `Strings`: `indexOf` and first-occurrence `replace`.
- `Claims`: the claim model.
- `Micheline`: the payload builder, hex numerals and padding, and a decoder used to state the round trip.

In three places the code does something other than what its names, comments or the packed format suggest. The model follows the code:

- The length field is `str.length`, a count of UTF-16 code units. The packed format counts the bytes that follow. The two agree on ASCII, which is where the byte-level lemmas are stated.
- The Twitter handle is `sameAs` with the FIRST occurrence of `https://twitter.com/` removed, wherever it sits. It is not only a leading prefix that is stripped (`Strings.ReplaceInMiddle`).
- `isUnsavedDraft` returns `deepEqual` itself, not its negation. See Findings.

## Model

| member | source | states |
|---|---|---|
| `Claims.TypeList` | dapp/src/helpers/claims.ts:16-18 | `null`, primitives and arrays never yield a list (no array index prints as `type`); a list is found exactly when `vc` is a plain object whose `type` property holds an array, and it is that array's items |
| `Claims.Recognize` | dapp/src/helpers/claims.ts:23-29 | an entry means twitter exactly when it is the string "TwitterVerification", and basic exactly when it is "BasicProfile" |
| `Claims.ClaimTypeFromVC` | dapp/src/helpers/claims.ts:15-33 | no verdict unless `vc.type` is an array; otherwise a verdict exactly when some entry is "TwitterVerification" or "BasicProfile", and then the type of the first such entry |
| `Claims.ScanTypes` | dapp/src/helpers/claims.ts:20-32 | the scan from index i finds nothing iff no later entry is recognized, and otherwise returns the first recognized entry's type |
| `Claims.ClaimTypeFromVCExamples` | dapp/src/helpers/claims.ts:15-33 | a "BasicProfile" credential is basic; an unknown type or a missing `type` gives no verdict; with both known types the earlier entry wins |
| `Claims.TypeNameInjective` | dapp/src/helpers/claims.ts:12 | distinct claim types have distinct names, so they never share a slot in a claim map |
| `Claims.ClaimTypesComplete` | dapp/src/helpers/claims.ts:35-36 | the list `addDefaults` walks holds every claim type |
| `Claims.NewDisplay` | dapp/src/helpers/claims.ts:74-101 | the route is "/basic-profile" exactly for basic and "/twitter" exactly for twitter; the person icon belongs exactly to basic |
| `Claims.NewDisplayInjective` | dapp/src/helpers/claims.ts:74-101 | two types share display assets only if they are the same type |
| `Claims.NewDraft` | dapp/src/helpers/claims.ts:103-121 | the new draft has the shape of its type (four keys for basic, two for twitter) and every field empty |
| `Claims.NewClaim` | dapp/src/helpers/claims.ts:168-180 | a fresh claim has record invariants, its type, no content, prepared content or locator, is not on chain, has the verifiable-credential contract type and an empty draft |
| `Claims.InsertMissing` | dapp/src/helpers/claims.ts:158-163 | every key already in the map stays, with its entry unchanged |
| `Claims.InsertMissingEffect` | dapp/src/helpers/claims.ts:158-163 | the loop adds exactly the names of the visited types; existing entries are untouched; each type that was missing gets the created entry |
| `Claims.ClaimTypeNames` | dapp/src/helpers/claims.ts:36 | the names of all claim types are exactly "basic" and "twitter" |
| `Claims.AddDefaults` | dapp/src/helpers/claims.ts:157-166 | afterwards the keys are the old keys plus "basic" and "twitter"; old entries are unchanged; missing ones are new claims |
| `Claims.AddDefaultsIdempotent` | dapp/src/helpers/claims.ts:157-166 | filling in defaults twice equals filling in once |
| `Claims.AddDefaultsConsistent` | dapp/src/helpers/claims.ts:157-166 | if every claim of the map keeps the record invariants, every claim afterwards does too |
| `Claims.DraftFields` | dapp/src/helpers/claims.ts:39-49 | the draft object has its keys in declaration order, and reading each key gives that field |
| `Claims.ContentToDraft` | dapp/src/helpers/claims.ts:183-211 | the draft has the shape of the type; a basic draft copies the subject's four strings; a twitter handle is `sameAs` with the first occurrence of the Twitter URL removed, and the tweet URL is rebuilt from handle and tweet id |
| `Claims.BasicRoundTrip` | dapp/src/helpers/claims.ts:185-195 | a credential whose subject is a basic draft yields that draft back |
| `Claims.TwitterRoundTrip` | dapp/src/helpers/claims.ts:196-207 | a credential whose `sameAs` is the profile URL of a handle yields that handle and the canonical tweet URL |
| `Claims.ClaimFromTriple` | dapp/src/helpers/claims.ts:213-226 | a loaded claim keeps the record invariants, is on chain, holds the content, locator and contract type of the triple, has no prepared content, and its draft is the content's draft |
| `Claims.DraftDeepEqualIff` | dapp/src/helpers/claims.ts:234 | `deepEqual` on two drafts holds exactly when the drafts are equal |
| `Claims.IsUnsavedDraft` | dapp/src/helpers/claims.ts:228-235 | as written: true without content or with prepared content; otherwise true exactly when the draft EQUALS the content's draft |
| `Claims.HasUnsavedChanges` | dapp/src/helpers/claims.ts:133-134 | corrected: unsaved exactly when there is no content, content is being prepared, or the draft differs from the content's draft |
| `Claims.NewClaimUnsaved` | dapp/src/helpers/claims.ts:229-232 | a new claim is unsaved under both readings |
| `Claims.LoadedClaimMisreported` | dapp/src/helpers/claims.ts:229-235 | a claim just loaded from its triple is reported unsaved as written, and saved by the corrected test |
| `Claims.EditedClaimMisreported` | dapp/src/helpers/claims.ts:229-235 | a loaded claim whose draft was edited is reported saved as written, and unsaved by the corrected test |
| `Equality.DeepEqual` | dapp/src/helpers/claims.ts:242-266 | objects with different key counts are unequal; equal objects have every key of the first in the second |
| `Equality.KeysMatch` | dapp/src/helpers/claims.ts:250-263 | if the loop succeeds from key i, every later key of the first object is a key of the second |
| `Equality.ValuesMatch` | dapp/src/helpers/claims.ts:255-262 | an object never matches a non-object; two non-objects match exactly when they are equal; two matching objects have the same number of keys |
| `Equality.DeepEqualMeaning` | dapp/src/helpers/claims.ts:242-266 | `deepEqual` holds exactly when the key counts agree and every key of the first object is in the second with a matching value |
| `Equality.KeysMatchMeaning` | dapp/src/helpers/claims.ts:250-263 | the short-circuiting loop from key i succeeds exactly when every later key agrees |
| `Equality.DeepEqualReflexive` | dapp/src/helpers/claims.ts:242-266 | every object is `deepEqual` to itself |
| `Equality.DeepEqualSymmetric` | dapp/src/helpers/claims.ts:242-266 | on values with distinct keys, swapping the arguments does not change the answer |
| `Equality.DistinctSubsetCovers` | dapp/src/helpers/claims.ts:246-253 | equal key counts plus containment, on duplicate-free key lists, give the same key set in both directions |
| `JsValues.IsObject` | dapp/src/helpers/claims.ts:268-270 | a value is an object exactly when it is not null and its `typeof` is "object" |
| `JsValues.Keys` | dapp/src/helpers/claims.ts:243-244 | `Object.keys` gives one key per field of a plain object or item of an array |
| `JsValues.Get` | dapp/src/helpers/claims.ts:255-256 | the value read under a present key is strictly smaller than the object, so `deepEqual`'s recursion ends |
| `JsValues.GetFirst` | dapp/src/helpers/claims.ts:255-256 | reading a key gives the value at the key's first position, for arrays and plain objects alike |
| `JsValues.DecimalInjective` | dapp/src/helpers/claims.ts:243-244 | distinct array indices give distinct keys |
| `JsValues.NoTypeIndex` | dapp/src/helpers/claims.ts:16 | no array index prints as `type`, so `vc?.type` on an array is undefined |
| `JsValues.WellFormedKeysDistinct` | dapp/src/helpers/claims.ts:243-244 | the keys of every well-formed object or array are pairwise distinct |
| `JsValues.ObjectLookup` | dapp/src/helpers/claims.ts:255-256 | reading the key of a field no earlier field shares gives that field's value |
| `Strings.IndexOfFrom` | dapp/src/helpers/claims.ts:200 | the index found is an occurrence with none before it; none found means no occurrence at all |
| `Strings.ReplaceFirst` | dapp/src/helpers/claims.ts:200 | when the pattern occurs nowhere the string is unchanged; when it occurs at i and nowhere before i, the result is the part before i, the replacement, then the part after the occurrence |
| `Strings.ReplaceLeading` | dapp/src/helpers/claims.ts:200 | removing a leading pattern leaves the rest |
| `Strings.ReplaceAbsent` | dapp/src/helpers/claims.ts:200 | a string without the pattern is returned as is |
| `Strings.ReplaceInMiddle` | dapp/src/helpers/claims.ts:200 | the first occurrence is removed even when it is not at the start |
| `Micheline.GetMichelineStringBytes` | dapp/src/utils.ts:20-24 | the payload is the tag "0501", a hex field denoting the UTF-16 length, then exactly `char2Bytes(str)`; below 16^8 the field is the 8-digit big-endian length, above it the field is wider |
| `Micheline.LengthField` | dapp/src/utils.ts:21 | the padded hex numeral denotes n, is exactly the 8-digit field below 16^8, and is longer otherwise |
| `Micheline.PadStart` | dapp/src/utils.ts:21 | padding reaches the width, keeps the string as a suffix, fills only with the fill character, and never truncates |
| `Micheline.ToHex` | dapp/src/utils.ts:21 | `n.toString(16)` is lowercase hex with no leading zero, "0" for zero, and a single digit exactly below 16 |
| `Micheline.ToHexValue` | dapp/src/utils.ts:21 | `n.toString(16)` denotes n |
| `Micheline.ToHexFits` | dapp/src/utils.ts:21 | a number below 16^w has at most w hex digits, so padding does not widen the field |
| `Micheline.ParseHexLeadingZeros` | dapp/src/utils.ts:21 | leading zeros do not change the number a hex field denotes |
| `Micheline.HexUnique` | dapp/src/utils.ts:21 | two hex fields of one width denoting the same number are equal |
| `Micheline.Utf16Length` | dapp/src/utils.ts:21 | `str.length` is between the number of characters and twice that |
| `Micheline.AsciiUtf16Length` | dapp/src/utils.ts:21 | on ASCII, `str.length` is the number of characters |
| `Micheline.AsciiHex` | dapp/src/utils.ts:22 | the stand-in for `char2Bytes` on ASCII gives two hex digits per character |
| `Micheline.DecodeAsciiHex` | dapp/src/utils.ts:22 | reading the hex pairs back recovers the ASCII string |
| `Micheline.PayloadParts` | dapp/src/utils.ts:22 | the payload is the tag, then the padded length field, then `char2Bytes(str)`, with nothing between |
| `Micheline.AsciiPayloadLength` | dapp/src/utils.ts:20-24 | an ASCII string of n characters gives a payload of 12 + 2n hex digits |
| `Micheline.RoundTrip` | dapp/src/utils.ts:20-24 | reading an ASCII payload back recovers the string |
| `Micheline.PayloadInjective` | dapp/src/utils.ts:20-24 | distinct ASCII strings give distinct payloads |
| `Micheline.PayloadOfHi` | dapp/src/utils.ts:20-24 | the payload of "hi" is "0501000000026869" |

## Left out

- `signClaim`: it sends the payload to a wallet and awaits the signature. That is asynchronous foreign I/O; only the payload it signs is modelled.
- `char2Bytes` is foreign code. `GetMichelineStringBytes` takes it as a parameter. `AsciiHex` stands in for it on ASCII strings, where it emits one byte per character. UTF-8 encoding of other characters is not modelled.
- `JSON.parse` in `claimFromTriple` is not modelled. `ClaimFromTriple` receives the content already parsed.
- Numbers in parsed values are integers. Floating point is not modelled.
- The icon components are the tags of the `Icon` datatype.
- The long `description` texts of the display assets are the tags of the `Blurb` datatype, naming their subject. The other display strings are exact.
- JavaScript truthiness: `false` in `content`, `irl` and `preparedContent` is `None`, and a present value is truthy. A parsed primitive such as `0` or `""` stored as content is not modelled.
- `addDefaults` mutates the map it is given and returns it. The model returns the filled map as a new value.
- The `$` substitution patterns of `String.prototype.replace` are not modelled. The replacement used is the empty string, which has none.
- `Object.keys` lists integer-like object keys first. The model keeps declaration order. `deepEqual`'s answer does not depend on the order (`Equality.DeepEqualMeaning`).
- `Json` admits a plain object with a repeated key, which no JavaScript object has. `JsValues.Get` reads the first entry with the key, where `JSON.parse` keeps the last. Such values have no JavaScript counterpart, and `JsValues.WellFormed` excludes them where a lemma needs distinct keys.
- Strings are sequences of Unicode scalar values, so a lone surrogate cannot be represented.
- `exhaustiveCheck` is not modelled. The `match` over `ClaimType` is checked for exhaustiveness.
- `Claims.ContentToDraft`: requires `credentialSubject`, and for a twitter claim `evidence`, to be plain objects whose fields read here are strings. JavaScript throws when `credentialSubject` is missing or `null`, when a twitter credential has no `evidence` (lines 197-199; the basic path at lines 186-187 never reads it), and when `sameAs` is not a string, because line 200 calls `replace` on it. A missing `alias`, `description`, `logo` or `website` is copied as `undefined`, and a non-string one is copied as is. A missing or non-string `tweetId` is printed into the URL by the template literal at line 201 (`undefined`, `123`). The model represents none of these cases.
- `Claims.ClaimFromTriple`: requires the parsed content to fit its type, as `Claims.ContentToDraft` does.
- `Claims.IsUnsavedDraft`: requires stored content to fit the claim's type whenever the draft comparison is reached, as `Claims.ContentToDraft` does.
- `Equality.DeepEqual`: requires both arguments to be objects. Every call in the dapp's code passes objects.
- `Equality.DeepEqualSymmetric`: requires distinct keys at every depth. That holds for what `JSON.parse` and object literals produce.
- `Micheline.RoundTrip`: stated for ASCII strings shorter than 16^8, where `AsciiHex` stands in for `char2Bytes` and the 8-digit field is exact.
- `Micheline.PayloadInjective`: stated under the same ASCII restriction as `Micheline.RoundTrip`.
- `Micheline.AsciiPayloadLength`: stated under the same ASCII restriction as `Micheline.RoundTrip`.

## Findings

| source | as written | input that shows it | evidently intended | confidence | as-written member | corrected member |
|---|---|---|---|---|---|---|
| dapp/src/helpers/claims.ts:234 | returns `deepEqual(c.draft, contentToDraft(c.type, c.content))`, which is true when the draft MATCHES the stored content | a claim just built by `claimFromTriple` with no edits is reported unsaved; after its draft is edited it is reported saved | unsaved when the draft differs from the stored content (the field comment at lines 133-134), i.e. the negation | medium, not executed | `Claims.IsUnsavedDraft` (`Claims.LoadedClaimMisreported`, `Claims.EditedClaimMisreported`) | `Claims.HasUnsavedChanges` |
