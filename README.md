# Tour Tracker artist-list proxy, modelled in Dafny

The worker keeps one JSON file of artist names, `artists.json`, in a GitHub repository. `POST /artists`
adds a name and `DELETE /artists` removes one. Each request is a single read-modify-write cycle
against the GitHub contents API. The handler reads the file's base64 content and its `sha` (its
version), decides, and writes back at most once. That write quotes the `sha` it read, so a file that
changed in between is not overwritten.

The model covers three parts of `worker.js`:

- **The list rules** (`ArtistList`, `ArtistSort`, `JsText`). The name is validated with
  `(body.name || '').trim()`. An add is refused when a case-insensitive match already exists;
  otherwise the name is pushed and the array is re-sorted in place by lower-cased name. Removal
  filters out exact, case-sensitive matches.
- **The handlers over the file** (`GitHubContents`, `ArtistService`, `HandlerLemmas`).
  `RepositoryFile` is a class holding the file's base64 content, its version and a log of the
  requests sent to it. `AddArtist` and `RemoveArtist` are the imperative handlers. The functions
  `Add` and `Remove` give each handler's whole effect: reply list, outcome, requests sent, and the
  new content and version. The lemmas state the promises about those effects.
- **The persisted form** (`Base64`, `Utf8`, `Codec`, `JsonArtists`). This covers `base64ToUtf8`
  and `utf8ToBase64` with their copy loops, `atob`/`btoa` and `TextEncoder`/`TextDecoder`. It
  also covers `JSON.stringify(artists, null, 2)` and `JSON.parse`, restricted to arrays of strings.

Modelling choices:

- `trim` removes exactly the ECMAScript WhiteSpace and LineTerminator code points.
- `toLowerCase` is modelled on ASCII letters only.
- The `localeCompare` comparator is replaced by code-point lexicographic order on the lower-cased
  names. The sort is stable, as JavaScript's `Array.prototype.sort` is (`ArtistSort.SortByKeyStable`).
- The contents API serves a file's base64 content broken into lines of 60 characters, each ended by
  a line feed (`GitHubContents.Wrap`); a `PUT` sends it unbroken. The decoding lemmas hold for every
  line width.
- `btoa` follows RFC 4648 section 4: standard alphabet, `=` padding.
- `atob` follows the HTML standard's forgiving-base64 decode. It ignores ASCII whitespace, accepts
  missing padding, and fails on a length of 1 modulo 4 or on a character outside the alphabet.
- UTF-8 encoding follows RFC 3629 section 3. Decoding follows the Encoding Standard's decoder in
  replacement mode: maximal malformed subparts become U+FFFD, and a leading U+FEFF is dropped.
- JSON follows RFC 8259: arrays as in section 5, strings and escapes as in section 7, and the
  `JSON.stringify` escaping of control characters.
- A Dafny `string` is a sequence of Unicode scalar values. Lone UTF-16 surrogates cannot occur in
  the model.

## Model

| member | source | states |
|---|---|---|
| `ArtistList.NameOf` | worker.js:43-44 | A missing name, or one made only of trimmable whitespace, is refused (both directions). An accepted name is non-empty and has no whitespace at either end. |
| `ArtistList.NameOfSlice` | worker.js:43 | An accepted name is a slice of what was sent, with only whitespace cut from either side. |
| `JsText.Trim` | worker.js:43 | `trim` itself; its result neither starts nor ends with whitespace. Its other properties are stated by `TrimShape`, `TrimEmptyIff` and `TrimIdempotent`. |
| `JsText.TrimShape` | worker.js:43 | `trim` returns a middle slice of its input; only whitespace is cut from each side. |
| `JsText.TrimEmptyIff` | worker.js:44 | A name trims to empty exactly when every character is trimmable whitespace. |
| `JsText.TrimIdempotent` | worker.js:43 | Trimming a trimmed name changes nothing. |
| `JsText.ToLower` | worker.js:50 | Lower-casing keeps the length and lower-cases each position independently. |
| `JsText.KeyLeTieIff` | worker.js:50-56 | Two names compare equal in the sort's order exactly when they are the same artist case-insensitively. |
| `JsText.KeyLeTotal` | worker.js:56 | Any two names can be compared by the sort's comparator. |
| `JsText.KeyLeTransitive` | worker.js:56 | The sort's comparator is transitive. |
| `ArtistList.HasMatch` | worker.js:50 | The duplicate check is true exactly when some entry equals the name after lower-casing. |
| `ArtistList.Without` | worker.js:73 | The filter keeps exactly the entries that differ from the name, and never grows the list. |
| `ArtistList.WithoutMultiset` | worker.js:73 | Removal deletes every exact occurrence of the name and keeps every other entry as often as before. |
| `ArtistList.WithoutLength` | worker.js:73-74 | The length test finds no change exactly when the name does not occur (case-sensitive). |
| `ArtistList.WithoutAppend` | worker.js:73 | The filter works element by element, so survivors keep their relative order. |
| `ArtistList.WithoutSorted` | worker.js:73 | Removing from a sorted list leaves it sorted. |
| `ArtistList.WithoutCaseUnique` | worker.js:73 | Removing keeps the list free of case-insensitive duplicates. |
| `ArtistList.AddNewName` | worker.js:55-56 | Push then sort gives a sorted permutation of the old list plus the name; the name is then matched. |
| `ArtistList.AddKeepsCaseUnique` | worker.js:50-56 | Adding a name with no case-insensitive match keeps the list free of case-insensitive duplicates. |
| `ArtistList.CaseUniqueMatchCount` | worker.js:50 | In a list without case-insensitive duplicates, at most one entry matches any name. |
| `ArtistList.AddedOnce` | worker.js:50-56 | After adding a new name, exactly one entry matches it. |
| `ArtistSort.SortByKey` | worker.js:56 | The order the re-sort produces, keeping the length. Its properties are stated by `SortByKeySorted`, `SortByKeyStable` and `SortByKeyOfSorted`; `SortInPlace` is proved equal to it. |
| `ArtistSort.SortByKeySorted` | worker.js:56 | The reference sort returns a list sorted by lower-cased name that is a permutation of its input. |
| `ArtistSort.InsertBackSorted` | worker.js:56 | Inserting one name into a sorted run keeps it sorted. |
| `ArtistSort.SortByKeyOfSorted` | worker.js:56 | Sorting an already sorted list leaves it unchanged. |
| `ArtistSort.InsertBackStable` | worker.js:56 | One insertion step keeps the relative order of the names that are the same artist. |
| `ArtistSort.SortByKeyStable` | worker.js:56 | The sort is stable: the names that are the same artist case-insensitively keep the order they had before sorting. |
| `ArtistSort.InsertIntoPrefix` | worker.js:56 | One insertion step shifts larger entries right in place and leaves the rest of the array alone. |
| `ArtistSort.SortInPlace` | worker.js:56 | The in-place insertion sort leaves the array equal to the reference sort of its old contents. |
| `GitHubContents.RepositoryFile.Get` | worker.js:114-121 | A read returns the current content, broken into lines as the API serves it, and the current version; only the request log changes. |
| `GitHubContents.RepositoryFile.Put` | worker.js:124-131 | A write succeeds exactly when it quotes the current version. It then stores the content and advances the version; otherwise the file is unchanged. The request is logged either way. |
| `ArtistService.GetArtists` | worker.js:114-122 | `getArtists` sends one read and returns the list decoded from the line-broken content, with the version read; it fails exactly when decoding or parsing fails. |
| `ArtistService.SaveArtists` | worker.js:124-132 | `saveArtists` sends one write of the list's persisted form, quoting the given version. It succeeds exactly when that version is current. |
| `ArtistService.Stored` | worker.js:120-121 | The list a file content holds: `base64ToUtf8` then `JSON.parse`, failing where either does. Its round trip with `Persisted` is `StoredPersisted`; `GetArtists` is proved to return it. |
| `ArtistService.Persisted` | worker.js:125 | The content `saveArtists` writes for a list: `utf8ToBase64(JSON.stringify(list, null, 2))`. Its round trip is `StoredPersisted` and `ServedPersisted`; `SaveArtists` is proved to write it. |
| `ArtistService.StoredPersisted` | worker.js:121-125 | What is written is what the next read parses back. |
| `ArtistService.ServedPersisted` | worker.js:99-125 | What is written is also what the next read parses back from the line-broken form the API serves, for every line width. |
| `ArtistService.DecideAdd` | worker.js:50-58 | The add decision after the read. Its properties are stated by `HandlerLemmas.AddDuplicate`, `AddNew`, `DecideAddKeepsCaseUnique` and `AddAgain`. |
| `ArtistService.DecideRemove` | worker.js:73-80 | The remove decision after the read. Its properties are stated by `HandlerLemmas.RemoveNotFound`, `RemoveFound` and `RemoveAgain`. |
| `ArtistService.CommitAdd` | worker.js:55-60 | The add path's push, in-place sort and single write, with the message `Add <name>`. It replies with the sorted list, or fails with the file unchanged when the version is stale. |
| `ArtistService.CommitRemove` | worker.js:79-82 | The remove path's single write of the filtered list, with the message `Remove <name>`. It fails with the file unchanged when the version is stale. |
| `ArtistService.AddArtist` | worker.js:41-61 | The `POST /artists` handler's reply and effect on the file are those of `Add`. |
| `ArtistService.RemoveArtist` | worker.js:64-83 | The `DELETE /artists` handler's reply and effect on the file are those of `Remove`. |
| `ArtistService.RacingAdds` | worker.js:49-57 | Two adds interleaved read, read, write, write: the first is added, the second's write is refused, and the file holds the first addition. |
| `HandlerLemmas.AddRefusesMissingName` | worker.js:43-48 | Add reports "Missing name" exactly when validation fails; then no request is sent and the file is unchanged. |
| `HandlerLemmas.RemoveRefusesMissingName` | worker.js:66-71 | Remove reports "Missing name" exactly when validation fails; then no request is sent and the file is unchanged. |
| `HandlerLemmas.AddRequests` | worker.js:43-58 | Add sends requests only after validation, reads first, and writes at most once, exactly when it adds. The write quotes the version read and stores the replied list; otherwise the file is unchanged. |
| `HandlerLemmas.RemoveRequests` | worker.js:66-80 | Remove sends requests only after validation, reads first, and writes at most once, exactly when it removes. The write quotes the version read and stores the replied list; otherwise the file is unchanged. |
| `HandlerLemmas.AddDuplicate` | worker.js:50-54 | With a case-insensitive match, the list read is replied unchanged with "Already exists" and no write. |
| `HandlerLemmas.AddNew` | worker.js:55-58 | A new name gives a sorted permutation of the old list plus the name, one write with `Add <name>`, and the message `Added <name>`. |
| `HandlerLemmas.DecideAddKeepsCaseUnique` | worker.js:50-56 | Every add keeps the list free of case-insensitive duplicates. |
| `HandlerLemmas.AddAgain` | worker.js:50-55 | After an add, the same name is found and nothing changes; a duplicate-free list then matches it exactly once. |
| `HandlerLemmas.AddTwice` | worker.js:41-61 | Two adds of one name against the file: Added, then Already exists with a read and no write. |
| `HandlerLemmas.RemoveNotFound` | worker.js:73-78 | A name that does not occur exactly leaves the list unchanged, with "Not found" and no write. |
| `HandlerLemmas.RemoveFound` | worker.js:73-80 | A name that occurs is removed everywhere and the rest kept; sortedness and case-uniqueness are preserved; the message is `Removed <name>`. |
| `HandlerLemmas.RemoveAgain` | worker.js:73-78 | Removing the same name a second time finds nothing. |
| `HandlerLemmas.RemoveTwice` | worker.js:64-83 | Two removes of one name against the file: Removed, then Not found with a read and no write. |
| `HandlerLemmas.RemoveIsCaseSensitive` | worker.js:73 | Removing "muse" from a list holding "Muse" finds nothing. |
| `HandlerLemmas.AddArcadeFire` | worker.js:55-58 | Adding "Arcade Fire" to ["Muse", "Radiohead"] writes ["Arcade Fire", "Muse", "Radiohead"]. |
| `HandlerLemmas.RemoveMuseTwice` | worker.js:73-80 | Removing "Muse" then leaves ["Arcade Fire", "Radiohead"]; removing it again gives "Not found". |
| `Codec.Base64ToUtf8` | worker.js:98-103 | Strips line feeds, decodes with `atob`, copies the binary string byte by byte, and decodes UTF-8; the result is `DecodeText`. |
| `Codec.Utf8ToBase64` | worker.js:106-112 | Encodes UTF-8, builds the binary string byte by byte, and applies `btoa`, which cannot fail here; the result is `EncodeText`. |
| `Codec.RemoveNewlines` | worker.js:99 | No line feed survives `replace(/\n/g, '')`. |
| `Codec.DecodeEncodeText` | worker.js:98-112 | `base64ToUtf8(utf8ToBase64(s)) == s` for every string not starting with U+FEFF. |
| `Codec.DecodeEncodeTextDropsByteOrderMark` | worker.js:102 | A leading U+FEFF does not survive the round trip. |
| `Codec.DecodeTextIgnoresNewline` | worker.js:99 | A line feed inserted anywhere in the base64 text does not change the decoded result. |
| `Codec.RemoveNewlinesWrap` | worker.js:99 | Stripping line feeds from the line-broken form the API serves gives what stripping them from the text written gives. |
| `Codec.DecodeTextWrap` | worker.js:98-103 | `base64ToUtf8` decodes the API's line-broken form exactly as it decodes the unbroken text. |
| `Codec.EncodeTextShape` | worker.js:111 | The encoded text has length `4 * ceil(n / 3)` for `n` UTF-8 bytes and holds only alphabet characters and `=`. |
| `Base64.Encode` | worker.js:111 | Base64 output has length `4 * ceil(n / 3)` and uses only the alphabet and `=`. |
| `Base64.ForgivingDecode` | worker.js:99 | `atob`'s decoding step. Its properties are stated by `DecodeEncode`, `ForgivingDecodeIgnoresWhitespace` and `DecodeSextetsOf`. |
| `Base64.DecodeEncode` | worker.js:99-111 | Forgiving-base64 decode returns exactly the bytes that were encoded. |
| `Base64.AtobBtoa` | worker.js:99-111 | `btoa` accepts every binary string and `atob` gives it back. |
| `Base64.Btoa` | worker.js:111 | `btoa` succeeds exactly on strings whose code points are all below 256. |
| `Base64.Atob` | worker.js:99 | Whatever `atob` returns is a binary string. |
| `Base64.ForgivingDecodeIgnoresWhitespace` | worker.js:99 | ASCII whitespace inserted anywhere does not change what `atob` decodes. |
| `Base64.DecodeSextetsOf` | worker.js:99-111 | Decoding the six-bit groups of a byte sequence returns those bytes. |
| `Utf8.Encode` | worker.js:107-108 | Each scalar value takes one to four bytes. |
| `Utf8.DecodeNext` | worker.js:102 | One step of the UTF-8 decoder; it always consumes at least one byte and never more than remain. `DecodeNextEncodeScalar` states its inverse property. |
| `Utf8.Decode` | worker.js:102 | `TextDecoder.decode`, dropping a leading U+FEFF. Its round trip is stated by `DecodeEncode` and `DecodeEncodeDropsByteOrderMark`. |
| `Utf8.DecodeNextEncodeScalar` | worker.js:102-108 | The decoder reads back exactly the scalar value at the front of its encoding. |
| `Utf8.DecodeAllEncode` | worker.js:102-108 | Decoding, before byte-order-mark handling, inverts encoding. |
| `Utf8.DecodeEncode` | worker.js:102-108 | `TextDecoder` inverts `TextEncoder` on strings not starting with U+FEFF. |
| `JsonArtists.Stringify` | worker.js:125 | The 2-space pretty-printed array text starts with `[`. |
| `JsonArtists.Parse` | worker.js:121 | `JSON.parse` on a text that must be one array of strings. Its round trip is stated by `ParseStringify`. |
| `JsonArtists.ParseCharsEscapeString` | worker.js:121-125 | An escaped string body is read back as the string, leaving the text after the closing quote. |
| `JsonArtists.ParseEscapedChar` | worker.js:121-125 | The escape of each code point is read back as that code point. |
| `JsonArtists.ParseElementsStringify` | worker.js:121-125 | The pretty-printed elements are read back in order through the closing bracket. |
| `JsonArtists.ParseStringify` | worker.js:121-125 | `JSON.parse(JSON.stringify(list, null, 2))` returns the same names in the same order. |

## Left out

- The HTTP layer is left out: routing on method and path, CORS headers, the `OPTIONS` preflight,
  `Response` bodies and status codes, and the `404`. The outcome datatype `ArtistService.Outcome`
  and `ArtistService.Message` stand in for the replies.
- The `GITHUB_TOKEN` check (worker.js:21-26) is configuration and is not modelled.
- Reading the request body (`request.json()`) is left out; the name arrives as an optional string.
  A body whose `name` is not a string, where `trim` would throw, is not modelled.
- The GitHub requests themselves are not modelled: URLs, headers, the `ref`/`branch` parameters and
  `r.ok`. They are replaced by `RepositoryFile.Get` and `RepositoryFile.Put`.
- A non-2xx answer other than a stale version is not modelled. Reads always succeed at the transport
  level; a write fails only on a stale version.
- The version `sha` is a counter advanced by every accepted write, not a content hash.
- `GET /artists` is modelled only through `ArtistService.GetArtists`; the reply body is not.
- `async`/`await` and real concurrency are not modelled. A race is shown only as one sequential
  interleaving of two read/write cycles (`ArtistService.RacingAdds`).
- JsText.KeyLeTotal: the comparator is code-point order on ASCII-lower-cased names, not
  `localeCompare`'s locale-dependent collation. Full Unicode `toLowerCase` is not modelled either.
- JsonArtists.ParseStringify: `JSON.parse` is modelled only for texts that are a single array of
  strings. Other JSON values read as failures.
- JsonArtists.Stringify: lone UTF-16 surrogates, which `JSON.stringify` escapes as `\uXXXX`,
  cannot occur in a Dafny string. A `\u` escape of a lone surrogate is therefore a parse failure in
  the model, where JavaScript would produce a lone surrogate.
- Codec.DecodeEncodeText: the round trip is stated for strings not starting with U+FEFF, since
  `TextDecoder` drops a leading byte order mark. The worker always writes text starting with `[`,
  so the persisted round trip (`ArtistService.StoredPersisted`) holds unconditionally.
- The in-place mutation of `artists` by `push` is modelled by copying the pushed list into a fresh
  array that is then sorted in place. No other reference to the array exists in the worker.
