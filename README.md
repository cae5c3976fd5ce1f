# Token, identity and channel-list helpers of a desktop chat client

This project models the two self-contained pieces of the backend of a
desktop chat application that talks to a hosted chat service:

- **Token and identity helpers** (`src-tauri/src/auth.rs`). The client
  checks its API key and secret. It builds the claim set of a user token:
  `user_id`, `iat`, and `exp` set 14 days after `iat`, all as decimal
  strings. It builds the claim set of a server token: `server = "true"`
  and `iat`, with no expiry. It derives a user id from a username as a
  name-based UUID (version 5, section 4.3 of RFC 4122) in the DNS
  namespace (Appendix C of RFC 4122). It checks webhook signatures. A
  signature is accepted when its bytes, read as UTF-8, equal the
  lowercase hex of the body's HMAC-SHA-256 tag (RFC 2104) under the
  secret. Bytes that are not UTF-8 are read as the empty string.
- **Channel-list reshaping and login** (`src-tauri/src/stream.rs`).
  `parse_channel_data` walks the service's JSON answer. It keeps the
  channels whose `cid`, `type` and `name` are strings, and for each keeps
  the string `user_id`s of its members. The login command trims the
  username and refuses one that is empty. It issues a user token and a
  server token. It creates a default channel only when the parsed list is
  empty.

HMAC-SHA-256, signing of the compact token, and UUIDv5 hashing are
foreign library calls. They are fields of the `Auth.Primitives` datatype,
which is passed in. Every proof holds for any functions put there. The
wall clock is passed in as well (`Auth.Clock`). Everything around these
calls is modelled concretely. That covers the UTF-8 codec behind
`as_bytes` and `from_utf8`, lowercase hex, decimal `to_string`, the
hyphenated UUID text, the 64-bit expiry sum, JSON lookups and
`str::trim`. The answers of the chat service are inputs to the login
method, and the method returns the list of calls it made.

Modules, one per file: `Wrappers` (Option, Result), `Utf8`, `Hex`,
`Decimal`, `Uuid`, `Auth` (auth.rs), `Json`, `FilterMaps`, `Channels`
(`parse_channel_data`), `Whitespace` (`str::trim`), `Login`
(`login_and_initialize`).

Where the code and its design description disagree, the model follows
the code:
- The code has no token verification and no expiry check. Only issuance
  is modelled.
- The design says an empty secret is a signing failure. In the code,
  `initialize` already refuses an empty secret, and HMAC accepts a key
  of any length.
- The design asks for a constant-time signature comparison. The code
  compares with plain `==`, and the model decides the same way.
- The design describes `derive` on non-empty names only. `generate_user_id`
  accepts any string, so the model puts no requirement on the username.

## Model

| member | source | states |
|---|---|---|
| Auth.Initialize | src-tauri/src/auth.rs:35-54 | fails exactly when the key or the secret is empty; otherwise keeps both unchanged, uses the default base URL and starts with an empty auth token |
| Auth.CreateUserToken | src-tauri/src/auth.rs:57-86 | an empty user id fails before any claim is built or signed; a clock before the epoch fails; otherwise the result is the signature of exactly the user claim map under the secret's bytes, or a signing error |
| Auth.UserClaims | src-tauri/src/auth.rs:62-75 | the user claim map has exactly the keys `user_id`, `iat` and `exp`; `user_id` is the given id; `iat` and `exp` are non-empty decimal digit strings |
| Auth.UserClaimsContents | src-tauri/src/auth.rs:62-75 | the user claims have exactly the keys `user_id`, `iat`, `exp`; `user_id` is the input; `iat` reads back as the issue time; `exp` reads back as issue time + 1209600 when the sum does not wrap |
| Auth.UserTokenLifetime | src-tauri/src/auth.rs:66-75 | both times read back as numbers, and `exp` lies after `iat` exactly when the 64-bit expiry sum does not wrap; a wrapped `exp` lies before `iat` |
| Auth.CreateServerToken | src-tauri/src/auth.rs:88-109 | a clock before the epoch fails; otherwise the result is the signature of exactly the server claim map under the secret's bytes, or a signing error |
| Auth.ServerClaims | src-tauri/src/auth.rs:89-98 | the server claim map has exactly the keys `server` and `iat`; `server` is "true" and `iat` is a non-empty decimal digit string |
| Auth.ServerClaimsContents | src-tauri/src/auth.rs:89-98 | the server claims are exactly `server` = "true" and `iat`, with no `user_id` and no `exp`; `iat` reads back as the issue time |
| Auth.GenerateUserId | src-tauri/src/auth.rs:111-117 | the user id is 36 characters: hyphens at positions 8, 13, 18 and 23, lowercase hex digits elsewhere |
| Auth.UserIdDeterminedByName | src-tauri/src/auth.rs:111-116 | two usernames get the same id exactly when the name-based UUIDs of their bytes in the DNS namespace are equal, so the id depends only on the namespace and the username's bytes |
| Auth.DistinctUsernamesDistinctNames | src-tauri/src/auth.rs:115 | distinct usernames give distinct byte strings to the name-based UUID |
| Auth.Mac.NewFromSlice | src-tauri/src/auth.rs:121 | a new MAC holds the given key and has been fed nothing |
| Auth.Mac.Update | src-tauri/src/auth.rs:122 | feeding data appends it to what the MAC has been fed |
| Auth.Mac.Finalize | src-tauri/src/auth.rs:124 | the tag is HMAC-SHA-256 under the key the MAC was made with, over everything fed to it so far |
| Auth.ExpectedSignature | src-tauri/src/auth.rs:121-124 | the expected signature text is 64 characters long |
| Auth.VerifyWebhook | src-tauri/src/auth.rs:120-128 | accepts exactly when the signature bytes equal the UTF-8 bytes of the lowercase hex HMAC-SHA-256 tag of the body under the secret; so valid UTF-8 equal to that hex is required, and the correct tag is accepted |
| Auth.InvalidUtf8Rejected | src-tauri/src/auth.rs:125-127 | a signature that is not valid UTF-8 is never accepted |
| Auth.OtherSecretRejected | src-tauri/src/auth.rs:121-127 | the signature expected under one secret is rejected under another whenever the two secrets give the body different tags |
| Auth.SignatureLength | src-tauri/src/auth.rs:124-127 | an accepted signature is exactly 64 bytes |
| Uuid.ParseHyphenated | src-tauri/src/auth.rs:114 | only a 36-character text with hyphens at positions 8, 13, 18 and 23 parses; `ParseToString` shows it reads back every UUID's text, and `DnsNamespaceParses` that it accepts the source's literal |
| Uuid.DnsNamespaceParses | src-tauri/src/auth.rs:114 | the namespace literal parses, so its `unwrap` cannot fail, and it denotes the DNS namespace of RFC 4122 Appendix C |
| Uuid.ToString | src-tauri/src/auth.rs:116 | the hyphenated text of a UUID is 36 characters long |
| Uuid.ToStringShape | src-tauri/src/auth.rs:116 | the hyphenated text of a UUID is 36 characters, hyphens at the group boundaries, lowercase hex elsewhere |
| Uuid.ParseToString | src-tauri/src/auth.rs:114-116 | the hyphenated text of a UUID parses back to the same UUID |
| Uuid.ToStringInjective | src-tauri/src/auth.rs:116 | two UUIDs have the same text exactly when they are equal |
| Utf8.Encode | src-tauri/src/auth.rs:115 | the UTF-8 bytes of a string number at least one and at most four per character |
| Utf8.Decode | src-tauri/src/auth.rs:125 | a decoded string has no more characters than the input has bytes |
| Utf8.DecodeEncode | src-tauri/src/auth.rs:125 | decoding the UTF-8 encoding of a string gives the string back |
| Utf8.EncodeDecode | src-tauri/src/auth.rs:125 | whatever `from_utf8` accepts is exactly the encoding of the string it returns |
| Utf8.DecodeIff | src-tauri/src/auth.rs:125-127 | bytes decode to a string exactly when they are that string's encoding |
| Hex.Encode | src-tauri/src/auth.rs:124 | two characters per byte, all from `0123456789abcdef` |
| Hex.DecodeEncode | src-tauri/src/auth.rs:124 | the hex text reads back as the same bytes |
| Hex.EncodeInjective | src-tauri/src/auth.rs:124 | distinct tags have distinct hex texts |
| Decimal.ToString | src-tauri/src/auth.rs:71 | a non-empty run of decimal digits with no leading zero |
| Decimal.ParseToString | src-tauri/src/auth.rs:71-75 | the decimal text of a number reads back as that number |
| Decimal.ToStringInjective | src-tauri/src/auth.rs:71-75 | distinct numbers have distinct decimal texts |
| Decimal.WrappingAdd | src-tauri/src/auth.rs:74 | the 64-bit sum equals the true sum when that fits, and the sum minus 2^64 otherwise |
| Channels.ParseChannelData | src-tauri/src/stream.rs:58-93 | the result is the filter-map of the `channels` array by the per-channel record, and empty when there is no `channels` array |
| Channels.ChannelOf | src-tauri/src/stream.rs:63-87 | an entry yields a record exactly when its `cid`, `type` and `name` are strings; the record's id is the `cid`, its type, name and members are copied |
| Channels.ParsedChannelsCorrespond | src-tauri/src/stream.rs:61-89 | no more records than entries; the k-th record comes from the k-th qualifying entry, in input order, and copies its fields; every qualifying entry yields a record |
| Channels.ParsedChannelsContain | src-tauri/src/stream.rs:62-88 | a record is in the result exactly when some entry of the array yields it |
| Channels.ParsedChannelsCount | src-tauri/src/stream.rs:62-82 | as many records as entries exactly when all entries qualify; no records exactly when none does |
| Channels.MemberIds | src-tauri/src/stream.rs:68-80 | no `members` array gives no ids; otherwise there are at most as many ids as members |
| Channels.MemberIdsCorrespond | src-tauri/src/stream.rs:68-80 | no `members` array gives no ids; otherwise the ids are the string `user_id`s of the members in order, and members without one are dropped |
| FilterMaps.FilterMap | src-tauri/src/stream.rs:72-78 | the output is never longer than the input |
| FilterMaps.KeptPositions | src-tauri/src/stream.rs:62-67 | the kept positions are in range, strictly increasing, and include every position the function keeps |
| FilterMaps.FilterMapAtPositions | src-tauri/src/stream.rs:72-78 | the k-th output is the image of the input at the k-th kept position |
| Json.Get | src-tauri/src/stream.rs:61-74 | a member is found exactly when the value is an object holding that key, and it is the value stored under the key |
| Json.GetStr | src-tauri/src/stream.rs:64-66 | a string member is found exactly when the value is an object with that key holding a string |
| Json.GetArray | src-tauri/src/stream.rs:61 | an array member is found exactly when the value is an object with that key holding an array |
| Whitespace.Trim | src-tauri/src/stream.rs:103 | the trimmed username is no longer than the input and, unless empty, neither starts nor ends with white space |
| Whitespace.TrimStart | src-tauri/src/stream.rs:103 | a suffix of the input; everything cut off is white space and what is kept does not start with white space |
| Whitespace.TrimEnd | src-tauri/src/stream.rs:103 | a prefix of the input; everything cut off is white space and what is kept does not end with white space |
| Whitespace.TrimIsSlice | src-tauri/src/stream.rs:103 | the trimmed username is a slice of the input with only white space cut off either side, and it neither starts nor ends with white space |
| Whitespace.TrimEmpty | src-tauri/src/stream.rs:103-106 | the trimmed username is empty exactly when the input is all white space |
| Whitespace.TrimIdempotent | src-tauri/src/stream.rs:103 | trimming twice is trimming once |
| Login.CreatedChannelInfo | src-tauri/src/stream.rs:146-154 | the record of a created channel copies its id, name and type, and lists its members' user ids in order |
| Login.ListChannels | src-tauri/src/stream.rs:133-159 | the user's channels are listed first; a failed listing fails the step; a default channel "general" with the user as both arguments is requested exactly when the parsed list is empty, and the list is then that channel alone on success or empty on failure, the step succeeding either way |
| Login.LoginAndInitialize | src-tauri/src/stream.rs:99-177 | refuses a username empty after trimming, and an empty key or secret, before any request; uses the user id of the trimmed username; a failed user token or server token ends the login with that token's error (empty id, clock before the epoch, signing failure) before any request; the user token is the signature of that user's claims; asks for channels only after both tokens are issued; a failed listing fails the login at once, with the listing the only request sent; once the username, the credentials and both tokens pass, the channels are always listed, so the login then succeeds unless the listing fails; a default channel is requested exactly when the parsed list is empty, and the list is then that channel alone or empty; login succeeds whatever the creation does |

## Left out

- HTTP: building the HTTP client (src-tauri/src/auth.rs:41-45) is not modelled, and neither is its build error. The channel listing and the default-channel creation are not modelled as requests either. Their answers are inputs to `Login.LoginAndInitialize`, and the calls are returned as a trace.
- Cryptography: SHA-256, HMAC, the compact token encoding and the SHA-1 step of UUIDv5 are not modelled. They are arbitrary functions in `Auth.Primitives`, because they are foreign libraries.
- Auth.CreateUserToken, Auth.CreateServerToken: the token is modelled as a function of the claim set. `sign_with_key` (src-tauri/src/auth.rs:81-83, 104-106) serialises a `HashMap`, whose iteration order is randomly seeded for each map, so in the source two tokens with equal claims and equal keys can differ in text. The model does not capture that key order.
- The "Invalid key" branches (src-tauri/src/auth.rs:79, 102) are not modelled. The `unwrap` at line 121 is treated the same way. HMAC accepts keys of any length (section 2 of RFC 2104), so building the key cannot fail.
- The wall clock is an input. Each token issuance takes its own reading, and sub-second precision is dropped before the model sees it.
- Decimal.WrappingAdd: the 14-day expiry sum wraps modulo 2^64, as an optimised build computes it. The overflow panic of a debug build is not modelled.
- Uuid.ParseHyphenated: it reads only the lowercase hyphenated form. The source parses one fixed literal, and the other forms `Uuid::parse_str` accepts are not modelled.
- Auth.OtherSecretRejected: it needs the two secrets' tags to differ. The stronger claim, that every other secret is rejected, rests on HMAC collision resistance, which the model cannot state.
- Auth.UserIdDeterminedByName: distinct usernames get distinct ids only if the name-based UUIDs do not collide, for the same reason.
- Error texts: errors are told apart by kind (`AuthError`, `LoginError`), and the message strings are not modelled.
- The username table: the lookup `get_or_create_user_id`, its `Mutex` and the table are not modelled. The lookup is the function input `userIdFor`, and its definition is not part of this model.
- The assignment of the server token to the client's private `auth_token` field (src-tauri/src/stream.rs:132) is not modelled. The client is a value that nothing updates.
- JSON: numbers are kept as their text, and the order of object keys is not modelled. Only key lookups are made.
- Logging (`println!`), the commented-out request helpers (src-tauri/src/auth.rs:131-245, src-tauri/src/stream.rs:179-210), `stream_chat.rs`, `config.rs`, `lib.rs` and the user interface are not part of this model.
