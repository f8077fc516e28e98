# Credential resolution and error responses of a multi-user file store

This project models two small parts of an Express/MongoDB/Redis file-store API in Dafny:

- `utils/auth.js` has two resolvers. `getUserFromAuthorization` reads an HTTP Basic header (section 2 of RFC 7617). It checks the `Basic <payload>` shape, decodes the payload as Base64 (section 4 of RFC 4648), splits the result at its first colon into email and password, and accepts only when a user with that email exists whose stored digest equals `sha1(password)`. `getUserFromXToken` looks up `auth_<token>` in the cache and then the user with the cached id.
- `middlewares/error.js` holds the `APIError` class and the `errorResponse` handler. The handler picks a status code and a `{ error: <message> }` body for whatever was thrown.

Modules, one per file:

- `wrappers.dfy` (`Wrappers`): `Option`. Here `None` stands for JavaScript's `null`/`undefined`.
- `js_string.dfy` (`JsString`): `indexOf`, `split`, `substring` and `join` with ECMAScript semantics. `indexOf` yields -1 when the character is absent. `split` keeps empty pieces. `substring` clamps its bounds to the string and swaps them when the start comes after the end.
- `base64.dfy` (`Base64`): the RFC 4648 alphabet, an encoder, and a decoder for well-formed input. It also converts between ASCII bytes and ASCII strings, one character per byte, which is what UTF-8 does on ASCII.
- `user_store.dfy` (`UserStore`): the users collection as a sequence of documents in natural order. `FindOne` models `findOne`, which yields the first document that matches.
- `auth.dfy` (`Auth`): the two resolvers, written as functions of the header and of snapshots of the stores. A function cannot write, so neither resolver can change the users collection or the cache.
- `error.dfy` (`ErrorMiddleware`): `APIError` as a value with its constructor function, the pure reply choice `SelectReply`, a `Response` class whose `Status` and `Json` methods update it in place, and the `ErrorResponse` method that writes the reply.

Where the code is stricter than the HTTP standards, the model follows the code. `getUserFromAuthorization` matches the scheme name `Basic` case-sensitively and accepts exactly one space. Section 2.1 of RFC 7235 treats scheme names as case-insensitive and allows more whitespace. The code also treats a cached user id that is the empty string as absent, because the empty string is falsy in JavaScript; the model does the same.

## Model

| member | source | states |
|---|---|---|
| JsString.IndexOf | utils/auth.js:26 | the result is -1 exactly when the character is absent; otherwise it is a position holding the character with none before it |
| JsString.IndexOfFirst | utils/auth.js:26 | any position holding the character with none before it is the one `indexOf` returns |
| JsString.Clamp | utils/auth.js:27-28 | a bound below 0 becomes 0, a bound beyond the length becomes the length, and any other bound is kept |
| JsString.Substring | utils/auth.js:27 | in-range bounds give the slice between them, reversed bounds give the slice with the bounds swapped, two non-positive bounds give the empty string, and the result is never longer than the input |
| JsString.SubstringFrom | utils/auth.js:28 | a start at or below 0 gives the whole string, an in-range start gives the suffix from it, and a start past the end gives the empty string |
| JsString.Split | utils/auth.js:20 | there is at least one piece, no piece contains the separator, and joining the pieces with the separator gives back the input |
| JsString.SplitUnique | utils/auth.js:20-22 | any list of separator-free pieces that joins to the string is exactly what `split` returns |
| Base64.CharOf | utils/auth.js:25 | every 6-bit value maps to an alphabet character that decodes back to that value |
| Base64.CharOfValueOf | utils/auth.js:25 | every alphabet character is the encoding of the value it decodes to, so the alphabet is a bijection |
| Base64.Encode | tests/controllers/AuthController.test.js:92-106 | the output length is 4 times the number of 3-byte groups, rounded up, and every character is from the alphabet or is the pad `=` |
| Base64.Decode | utils/auth.js:25 | an input is accepted exactly when it is well formed: its length is a multiple of 4, every character is from the alphabet except that the last two may be pads `=`, and a pad in the second-to-last place is followed by another; an accepted input decodes to 3 bytes per 4 characters, less one byte per pad |
| Base64.DecodeEncode | utils/auth.js:25 | decoding the encoding of any byte sequence gives back exactly that sequence |
| Base64.StringToBytes | tests/controllers/AuthController.test.js:95 | an ASCII string becomes ASCII bytes of the same length that read back as the same string |
| Base64.BytesToString | utils/auth.js:25 | every ASCII byte becomes one ASCII character with the byte's value |
| UserStore.FindOne | utils/auth.js:29 | a result is the document at the first position that matches the filter, with no match before it; there is no result exactly when no document matches |
| UserStore.FindOneFirst | utils/auth.js:29 | whenever a position is the first match, `findOne` returns the document there |
| UserStore.FindOneUnique | utils/auth.js:29-34 | when at most one document matches, `findOne` returns `u` exactly when `u` is stored and matches |
| Auth.BasicPayload | utils/auth.js:15-24 | a missing or empty header is refused; an accepted header is exactly `Basic ` followed by a payload without spaces, and that payload is returned |
| Auth.BasicPayloadComplete | utils/auth.js:20-24 | every header `Basic ` plus a payload without spaces is accepted, with that payload |
| Auth.BasicPayloadRejectsLowerCase | utils/auth.js:22-24 | `basic x` is refused, because the scheme is compared case-sensitively |
| Auth.BasicPayloadRejectsDoubleSpace | utils/auth.js:22-24 | `Basic  x` (two spaces) is refused |
| Auth.BasicPayloadRejectsThirdPiece | utils/auth.js:22-24 | `Basic x y` is refused |
| Auth.DecodePayload | utils/auth.js:25 | a well-formed payload that decodes to ASCII bytes gives one character per byte, carrying that byte's value; other decoded bytes give their UTF-8 reading (`utf8`); a malformed payload gives Node's lenient reading (`lenient`) |
| Auth.DecodePayloadEncode | utils/auth.js:25 | the Base64 encoding of any ASCII bytes decodes back to exactly those bytes as a string |
| Auth.SplitCredentials | utils/auth.js:26-28 | with a colon, the email is the colon-free text before the first colon, and email, colon and password rebuild the string; without a colon, the email is empty and the password is the whole string |
| Auth.SplitCredentialsRoundTrip | utils/auth.js:26-28 | an email without a colon and any password, joined by a colon, split back into the same pair |
| Auth.HeaderCredentials | utils/auth.js:15-28 | a missing or empty header yields no credentials; credentials only come from a header `Basic ` plus a payload without spaces |
| Auth.HeaderCredentialsComplete | utils/auth.js:20-28 | every header `Basic ` plus a payload without spaces yields credentials: the decoded payload split at its first colon |
| Auth.CheckCredentials | utils/auth.js:29-34 | a result is a stored user with the given email whose stored digest is `sha1` of the password; if no user has that email there is no result; otherwise the first user with that email is returned when its digest is `sha1` of the password, and nothing is returned when it is not |
| Auth.GetUserFromAuthorization | utils/auth.js:14-35 | a missing or empty header gives `null`; a user returned is stored, and has the email and the password digest that the header carries |
| Auth.GetUserFromAuthorizationParsedIff | utils/auth.js:29-34 | with unique emails, any header that parses to credentials yields `u` exactly when `u` is stored with the parsed email and `sha1` of the parsed password as its digest |
| Auth.BasicAuthorization | tests/controllers/AuthController.test.js:95 | the header a client sends starts with `Basic ` and continues with at least one Base64 character, all from the alphabet or the pad |
| Auth.HeaderCredentialsRoundTrip | utils/auth.js:20-28 | the header a client builds from an email without a colon and any password parses back to exactly that email and password |
| Auth.GetUserFromAuthorizationIff | utils/auth.js:29-34 | with unique emails, the header built from (email, password) yields `u` exactly when `u` is stored with that email and `sha1(password)` as its digest; an unknown email and a wrong password both give `null` |
| Auth.TokenKey | utils/auth.js:48 | the cache key is the five characters `auth_` followed by exactly the token |
| Auth.TokenKeyInjective | utils/auth.js:48 | distinct tokens have distinct `auth_` cache keys |
| Auth.GetUserFromXToken | utils/auth.js:42-55 | a missing or empty token, or one whose key the cache lacks, gives `null`; a user returned is stored, and its id is the non-empty value cached under `auth_<token>` |
| Auth.GetUserFromXTokenLocal | utils/auth.js:48 | two caches that agree on the token's own key resolve the token to the same user |
| Auth.GetUserFromXTokenOtherEntry | utils/auth.js:48-51 | storing an entry for a different token does not change what a token resolves to |
| Auth.GetUserFromXTokenIff | utils/auth.js:48-54 | with unique ids, a non-empty token resolves to `u` exactly when its cache entry holds `u`'s non-empty id and `u` is stored |
| ErrorMiddleware.NewAPIError | middlewares/error.js:8-12 | the message is stored exactly as supplied; the code is never 0; a truthy code is kept; a missing code or 0 becomes 500 |
| ErrorMiddleware.Or | middlewares/error.js:26 | JavaScript's logical or on a string property that may be missing: a non-empty value wins, otherwise the fallback |
| ErrorMiddleware.DefaultMessage | middlewares/error.js:23 | the fallback message is longer than the URL it names, so it is never empty |
| ErrorMiddleware.SelectReply | middlewares/error.js:22-32 | the body has exactly one key, `error`. For an `APIError`, the status is its code and the message is its own or the fallback. For anything else, the status is 500. A falsy value gets the fallback; a truthy one gets its message, or else its string form |
| ErrorMiddleware.ConstructedStatus | middlewares/error.js:8-26 | the reply to any constructed `APIError` never has status 0: the status is either the supplied code or 500 |
| ErrorMiddleware.ReplyMessageNonEmpty | middlewares/error.js:23-31 | the error message is empty only for a truthy non-`APIError` value that has no message and whose string form is empty |
| ErrorMiddleware.ReplyIgnoresUrl | middlewares/error.js:26-30 | an error that carries a non-empty message gets the same reply whatever the request URL |
| ErrorMiddleware.UnauthorizedReply | middlewares/error.js:25-27 | `new APIError(401, 'Unauthorized')` is answered with status 401 and `{ error: 'Unauthorized' }` |
| ErrorMiddleware.Response.Status | middlewares/error.js:26 | `res.status(code)` sets the status code and leaves the body and the send count alone |
| ErrorMiddleware.Response.Json | middlewares/error.js:26 | `res.json(obj)` sends `obj` as the body and adds one to the send count |
| ErrorMiddleware.ErrorResponse | middlewares/error.js:22-32 | the response ends up holding exactly the status and body that `SelectReply` chooses, and it is sent exactly once, because the `APIError` branch returns early |

## Left out

- Asynchrony: the `async`/`await` suspension points of both resolvers are not modelled. Each resolver reads one snapshot of the users collection and, for tokens, of the cache.
- MongoDB and Redis clients: connection handling is not modelled. The users collection is a sequence of documents and the cache is a finite map from key to string.
- `new mongoDBCore.BSON.ObjectId(userId)` (utils/auth.js:53): the cached string is used directly as the `_id` to match. The driver's parsing, and the exception it throws on a malformed id, are not modelled.
- Redis TTL expiry is not modelled. The cache snapshot is whatever is live when it is read.
- `sha1` is a function parameter. Only equality of its output with the stored digest matters.
- Node's Base64 decoding of malformed payloads is a function parameter (`lenient`). Node skips or tolerates bad characters and missing padding rather than failing. `Base64.Decode` models RFC 4648 decoding of well-formed input only.
- UTF-8: `Buffer#toString()` and `Buffer.from(string)` are modelled one character per byte on ASCII only, where UTF-8 is exactly that. Decoded bytes that are not all ASCII go to a function parameter (`utf8`). Node encodes characters from 128 up as two or more bytes and reads ill-formed bytes as U+FFFD; that encoding is not modelled.
- Auth.HeaderCredentialsRoundTrip: it requires `email:password` to be ASCII, because UTF-8 encoding of other characters is not modelled.
- Auth.BasicAuthorization: it is defined for ASCII `email:password` only, because UTF-8 encoding of other characters is not modelled; so `Auth.GetUserFromAuthorizationIff` covers ASCII credentials only.
- Auth.GetUserFromAuthorizationIff: it assumes at most one user has the email. Sign-up keeps emails unique; without that, `findOne` returns the first match in natural order, which `UserStore.FindOne` models.
- Auth.GetUserFromAuthorizationParsedIff: it makes the same uniqueness assumption; without it, `Auth.CheckCredentials` states that the first user with the email decides.
- ErrorMiddleware.NewAPIError: the code is modelled as an optional integer. Other falsy JavaScript values that could be passed as a code (`''`, `false`, `NaN`) behave like `None`. Non-integer truthy codes, and Express rejecting status codes outside 100-999, are not modelled.
- The unused `next` parameter of `errorResponse`, and the response headers Express sets when sending JSON, are not modelled.
- `libs/middlewares.js` only configures the JSON body parser, and is not part of this model.
- The controllers that call these resolvers (sign-up, connect/disconnect, file creation, listing, publishing and data fetch) are not part of this model.
