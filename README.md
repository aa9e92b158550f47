# Key generators of the link-shortener backend

This project models the two key generators of a small passwordless-login
and URL-shortening backend, `src/lib/utils.ts`:

- `genRandomCode` builds the 6-digit email verification code. That code is
  stored in the `users.code` column, declared `varchar(6)`.
- `genApiKey` builds the 32-character API key. Each character comes from the
  62-character alphabet `A-Z a-z 0-9`.

Both run a counted loop. Each iteration asks `Math.random()` for one draw and
appends one piece to a local string. The model treats the random source as an
oracle: `draws: seq<nat>` holds the numbers `Math.floor(Math.random() * n)`
returns, in call order.

Each generator is a Dafny method with the same loop (`Utils.GenRandomCode`,
`Utils.GenApiKey`). Each is proved equal to a recursive function that appends
the same pieces: `Utils.CodeOf`, built on `toString()`, and `Utils.ApiKeyOf`,
built on `charAt`. The lemmas then connect those functions to three things:

- reference definitions that map each draw to one character (`DigitsFrom`,
  `KeyFrom`);
- inverses that recover the draws from the output (`DigitsOf`, `IndicesOf`);
- the alphabet's layout.

The functions model `String.prototype.charAt` for every natural number, and
`Number.prototype.toString` for every natural number below 10^21 (plain
decimal digits), not only for in-range draws; no draw comes near that bound.
A draw of 10 or more
gives several digits, and an index of 62 or more gives `""`. Because of that,
the length lemmas are if-and-only-if statements: the output has exactly one
character per draw precisely when every draw is in range.

Neither method reads any state besides `draws`. Neither has a `modifies`
clause, and each result equals a function of the draws it consumes. So the
same draws always give the same string.

Files: `schema.dfy` (module `Schema`, the `users.code` column width) and
`utils.dfy` (module `Utils`).

## Model

| member | source | states |
|---|---|---|
| `Utils.GenRandomCode` | src/lib/utils.ts:4-10 | the loop runs six times and reads only the first six draws; the result is the in-order concatenation of their `toString()` and holds only decimal digits; when those draws are in [0, 10) it has exactly 6 characters, and character k is the digit of draw k |
| `Utils.DecimalString` | src/lib/utils.ts:7 | `toString()` of a non-negative number below 10^21 is non-empty and all decimal digits; it is one character exactly when the number is below 10 |
| `Utils.DecimalStringRoundTrip` | src/lib/utils.ts:7 | reading the decimal rendering back gives the number, so `toString()` loses no information |
| `Utils.CodeLengthExact` | src/lib/utils.ts:5-9 | each iteration appends at least one character; the code has exactly one character per draw if and only if every draw is in [0, 10) |
| `Utils.CodeIsDigits` | src/lib/utils.ts:7 | every character of the code is a decimal digit '0'..'9', whatever the draws |
| `Utils.CodeOfDigits` | src/lib/utils.ts:6-8 | with draws in [0, 10), the code equals the reference mapping: character k is the digit of draw k, in draw order |
| `Utils.CodeRoundTrip` | src/lib/utils.ts:6-8 | with draws in [0, 10), reading the code's digits back gives the draws, so distinct draws give distinct codes |
| `Utils.CodePrefixStable` | src/lib/utils.ts:6-8 | the code after i iterations is a prefix of the final code; later iterations never change earlier characters |
| `Utils.CodeFitsColumn` | src/db/schema.ts:13-15 | a code from six draws in [0, 10) fits the `varchar(6)` column `users.code` |
| `Utils.AlphabetLayout` | src/lib/utils.ts:13-16 | `characters` has length 62 (`charactersLength`); its index function finds each character at its own position; a character is in it exactly when it is an ASCII letter or digit |
| `Utils.AlphabetDistinct` | src/lib/utils.ts:13-14 | the 62 characters of the alphabet are pairwise distinct |
| `Utils.CharAt` | src/lib/utils.ts:20 | `charAt(i)` gives at most one character; it gives "" exactly when i is past the end, and otherwise the character at position i |
| `Utils.GenApiKey` | src/lib/utils.ts:12-24 | the loop runs 32 times and reads only the first 32 draws; the result is the in-order concatenation of `characters.charAt(draw)`, and each of its characters is in the alphabet; when the draws are in [0, 62) it has exactly 32 characters, and character k is `characters[draw k]` |
| `Utils.ApiKeyLengthExact` | src/lib/utils.ts:18-21 | each iteration appends at most one character; the key has one character per draw if and only if every draw is in [0, 62), which is when `charAt` never returns "" |
| `Utils.ApiKeyInAlphabet` | src/lib/utils.ts:19-20 | every character of the key belongs to the 62-character alphabet, whatever the draws |
| `Utils.ApiKeyOfIndices` | src/lib/utils.ts:18-21 | with draws in [0, 62), the key equals the reference mapping: character k is the alphabet's character at draw k, in draw order |
| `Utils.ApiKeyRoundTrip` | src/lib/utils.ts:13-21 | with draws in [0, 62), looking each key character up in the alphabet gives the draws back, so distinct draws give distinct keys |
| `Utils.ApiKeyPrefixStable` | src/lib/utils.ts:18-21 | the key after i iterations is a prefix of the final key; later iterations never change earlier characters |

## Left out

- `sendVerificationEmail` (src/lib/utils.ts:26-43): this is I/O. It makes an asynchronous call to the Resend e-mail client and renders a React template. Its only logic is turning any provider error into a generic error.
- `Math.random` and the floating-point step `Math.floor(Math.random() * n)`: these are replaced by the oracle `draws`. That step gives a value in [0, n) because `Math.random()` lies in [0, 1). In the model this range is a hypothesis of the lemmas, not a promise of the methods.
- `Utils.DecimalString`: always gives plain decimal digits, whereas JavaScript renders numbers from 10^21 up in exponential notation (`"1e+21"`) and does not hold integers above 2^53 exactly; the two agree below 10^21, which covers every draw `Math.floor(Math.random() * 10)` can make.
- `Utils.GenRandomCode`, `Utils.GenApiKey`: both require the oracle to supply at least as many draws as the loop makes calls (6 or 32). The source makes exactly that many calls to `Math.random()`.
- src/index.ts: HTTP server setup, CORS, the error-to-JSON handler and a database select. This is framework and database plumbing with no logic of its own.
- src/lib/validators.ts: zod schema declarations. Their `email()` and `url()` checks are library behaviour whose code is not part of this model.
- src/db/schema.ts: the table declarations have no behaviour. Only the width of `users.code` is used.
- Sign-up, login, verification, token and link handling: src/lib/validators.ts declares only their request shapes (`authSchema`, `verifySchema`, `tokenSchema`, `newLinkSchema`), and no file here implements them, so they are not modelled.
- Short-link keys: no generator for them appears in src/lib/utils.ts, so none is modelled.
- Collisions with stored codes or keys: neither generator checks for them, and neither does the model.
