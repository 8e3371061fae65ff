# HMAC request signing: a verified model

This project models the core of a Laravel package that authenticates requests
with a shared-secret HMAC token and rotates the secret from the console.

- **`HmacService`** signs and checks tokens. A token is
  `digest(key + T) + ":" + T`, where `T` is the current Unix second as decimal
  text. Checking a token runs a chain of guards. Each guard rejects with `false`:
  - pick the token (the request field if it is truthy, else the header if it is truthy);
  - split it on `:` and keep the first two chunks, both of which must be truthy;
  - parse the date as Unix seconds;
  - require `|now - ts| < ttl`;
  - compare the signature with the digest of the key followed by the date text as received.

  The only hard failure is an unset private key (`KeyUnset`). `generatePrivateKey`
  replaces the key with `algo + ":" + digest(microtime text)`.
- **`HmacGenerateCommand`** (`hmac:generate`) runs these steps in order:
  - ask for confirmation;
  - read the current key, failing when none is set;
  - generate a new key;
  - rewrite every `.env` line that starts with `HMAC_PRIVATE_KEY=<old key>`;
  - print the new key.

The outside world is represented by parameters:
- the digest primitive (`hash($algo, $message)`) is a function value handed to
  the service's constructor; all that is assumed of it is PHP's output shape,
  lowercase hex of at least 8 characters;
- the clocks are an integer `now` and a microtime text;
- the request is two optional strings, the field value and the header value;
- confirmation is a boolean;
- the `.env` file and the console are fields of the command object.

Modules, one per component:
- `Wrappers` (`wrappers.dfy`): `Option`.
- `Php` (`php.dfy`): PHP string truthiness, `explode`/`implode`, `abs`.
- `Timestamp` (`timestamp.dfy`): `format('U')` and `createFromFormat('!U')`.
- `Pcre` (`pcre.dfy`): `preg_quote`, and what an anchored literal pattern `/^…/m` matches.
- `HmacServices` (`hmac_service.dfy`): the token, the `HmacService` class, and the lemmas about checking.
- `HmacCommands` (`hmac_generate_command.dfy`): the key pattern, the `.env` rewrite, and the command class.

Behaviour of the code as written, which the model keeps:
- The window is symmetric, and both of its ends are exclusive. A token from up to
  `ttl - 1` seconds in the future is accepted. No token is accepted when `ttl <= 0`.
- The expected digest is computed over the raw date text. `"0123"` parses to
  second 123 but is hashed as `"0123"`.
- A token made at Unix second 0 carries the date `"0"`, which is PHP-falsy, so
  it is always rejected (`EpochTokenRejected`). For this reason the round trip is stated for `now != 0`.
- A malformed, unparsable or out-of-window token yields `false` even when no key
  is set. `KeyUnset` can arise only at the final comparison.
- The `.env` pattern has no end anchor. A line whose value merely begins with the
  old key is rewritten too, and the remainder of that line is kept.
- `config/hmac.php` reads the key from the variable `HMAC_KEY`. The command
  rewrites lines named `HMAC_PRIVATE_KEY` (`src/Services/HmacService.php:28`).
  A `.env` file that holds only `HMAC_KEY=…` is therefore written back unchanged
  (`UntouchedWithoutMatchingLine`), and the rotated key is not the one the
  configuration will load.

## Model

| member | source | states |
|---|---|---|
| `Php.Explode` | src/Services/HmacService.php:131 | `explode` yields at least one chunk, no chunk holds the delimiter, and imploding the chunks gives back the text |
| `Php.ExplodeImplode` | src/Services/HmacService.php:131 | exploding an implode of delimiter-free chunks returns exactly those chunks |
| `Timestamp.NatText` | src/Services/HmacService.php:111 | the decimal rendering of a second is a non-empty run of digits, and it is `"0"` only for 0 |
| `Timestamp.ParseDecimalText` | src/Services/HmacService.php:109-140 | parsing the `'U'` rendering of any second (negative ones included) gives that second back |
| `Timestamp.DecimalTextShape` | src/Services/HmacService.php:111-136 | a rendered timestamp is non-empty, never holds `:`, and is PHP-falsy (`"0"`) exactly at second 0 |
| `HmacServices.DigestIsTokenSafe` | src/Services/HmacService.php:67-70 | a hex digest is PHP-truthy and holds no `:` |
| `HmacServices.SelectToken` | src/Services/HmacService.php:79-89 | a truthy field wins; otherwise a truthy header; otherwise nothing (`""` and `"0"` fall through); a selected token is always truthy |
| `HmacServices.DecodeTokenIff` | src/Services/HmacService.php:131-136 | a text decodes to `(sig, date)` iff both are truthy and delimiter-free and the text is `sig:date`, optionally followed by `:` and anything |
| `HmacServices.DecodeIgnoresExtraChunks` | src/Services/HmacService.php:131-133 | chunks after the second one do not change the decoded token |
| `HmacServices.DecodeRejectsMalformed` | src/Services/HmacService.php:131-136 | no delimiter, an empty or `"0"` signature part, or an empty or `"0"` date part decodes to nothing |
| `HmacServices.HmacService.constructor` | src/Services/HmacService.php:52-58 | the four configuration values (and the digest primitive) are stored as given |
| `HmacServices.HmacService.GetPrivateKey` | src/Services/HmacService.php:156-163 | the stored key is returned iff one is set; otherwise `KeyUnset` |
| `HmacServices.HmacService.SignMessage` | src/Services/HmacService.php:98-101 | fails exactly when no key is set; otherwise the digest of key followed by message |
| `HmacServices.HmacService.MakeSignature` | src/Services/HmacService.php:109-115 | fails exactly when no key is set; otherwise `digest(key + T) + ":" + T` with `T` the decimal text of `now` |
| `HmacServices.HmacService.AdmittedToken` | src/Services/HmacService.php:126-144 | a token that passes the first five guards was selected, decodes, has a parsable date, and lies strictly within `liveTime` of `now` |
| `HmacServices.HmacService.CheckSignature` | src/Services/HmacService.php:124-148 | `KeyUnset` arises iff no key is set and the token passed every earlier guard; acceptance implies the signature equals the digest of key and raw date text |
| `HmacServices.HmacService.GeneratePrivateKey` | src/Services/HmacService.php:170-175 | the key becomes `algo + ":" + digest(microtime)`, `getPrivateKey` then succeeds, nothing else changes, and the service itself is returned |
| `HmacServices.FreshTokenWindow` | src/Services/HmacService.php:109-148 | a token made at `signedAt != 0` is accepted at `now` iff `abs(now - signedAt) < liveTime` |
| `HmacServices.RoundTrip` | src/Services/HmacService.php:109-148 | with `liveTime > 0` and a key set, the token made at `now` is accepted at `now`, whether sent as field or as header |
| `HmacServices.EpochTokenRejected` | src/Services/HmacService.php:111-136 | the token made at second 0 is never accepted (its date `"0"` is falsy) |
| `HmacServices.WindowDecides` | src/Services/HmacService.php:138-147 | for a decoded token dated `ts`: rejected iff `abs(now - ts) >= liveTime`; inside the window the verdict is the signature compared with the digest over the raw date text, or `KeyUnset` |
| `HmacServices.NonPositiveLiveTimeRejectsAll` | src/Services/HmacService.php:142-144 | with `liveTime <= 0` every request is rejected and no `KeyUnset` is raised |
| `HmacServices.TamperRejected` | src/Services/HmacService.php:131-147 | replacing the signature part of an accepted token by any other delimiter-free text makes it rejected |
| `HmacServices.ExtraChunksIgnored` | src/Services/HmacService.php:131-136 | appending `:` and anything to a token does not change the verdict |
| `HmacServices.MalformedRejected` | src/Services/HmacService.php:126-136 | a selected token without delimiter, or with an empty or `"0"` part, is rejected whether or not a key is set |
| `HmacServices.UnparsableDateRejected` | src/Services/HmacService.php:138-140 | a date that is not a timestamp is rejected whether or not a key is set |
| `HmacServices.FieldPrecedence` | src/Services/HmacService.php:79-89 | with a truthy field the header is ignored; with a falsy or absent field only the header counts |
| `Pcre.UnquotePregQuote` | src/Console/Commands/HmacGenerateCommand.php:84 | the `preg_quote` of any text, read as a pattern, stands for that text literally |
| `Pcre.UnquotePlainPrefix` | src/Console/Commands/HmacGenerateCommand.php:86 | an unquoted parameter name without metacharacters stands for itself in the pattern |
| `HmacCommands.KeyReplacementPattern` | src/Console/Commands/HmacGenerateCommand.php:82-87 | for a name without metacharacters, the pattern matches at a line start exactly `name=key` taken literally |
| `HmacCommands.PrivateKeyEnvIsPlain` | src/Services/HmacService.php:28 | `HMAC_PRIVATE_KEY` holds no regex metacharacter |
| `HmacCommands.RewriteLines` | src/Console/Commands/HmacGenerateCommand.php:68-72 | a line starting with the prefix has exactly that prefix replaced and keeps its tail; other lines are unchanged; the count is kept |
| `HmacCommands.EnvironmentRewrite` | src/Console/Commands/HmacGenerateCommand.php:66-73 | the written file has the same lines; every line starting with `HMAC_PRIVATE_KEY=<old>` becomes `HMAC_PRIVATE_KEY=<new>` plus its old tail; all others are untouched |
| `HmacCommands.UntouchedWithoutMatchingLine` | src/Console/Commands/HmacGenerateCommand.php:66-73 | a file with no line starting with `HMAC_PRIVATE_KEY=<old>` is written back unchanged |
| `HmacCommands.HmacGenerateCommand.WriteNewEnvironmentFileWith` | src/Console/Commands/HmacGenerateCommand.php:66-73 | the file's text becomes the rewrite of its old text; the console is untouched |
| `HmacCommands.HmacGenerateCommand.GenerateRandomKey` | src/Console/Commands/HmacGenerateCommand.php:94-97 | the service's key is rotated and the new key `algo + ":" + digest(microtime)` is returned |
| `HmacCommands.HmacGenerateCommand.Handle` | src/Console/Commands/HmacGenerateCommand.php:40-57 | declined: nothing changes; no key: `KeyUnset` with nothing generated or written; otherwise the file is rewritten from the pre-rotation key to the new one, the key is installed, and the key and the success line are printed |

## Left out

- Digest algorithms: `hash()` is a parameter. Only its output shape is assumed (lowercase hex, at least 8 characters). No collision resistance is assumed, so the claim that keys generated more than a millisecond apart differ is not stated.
- An unsupported algorithm name, for which PHP's `hash()` fails, is not modelled.
- Clocks: `new DateTime()`, `time()` and `microtime()` are parameters (`now`, the microtime text).
- ParseTimestamp: the `'U'` grammar is reduced to an optional `-` and one or more digits. The 24-digit cap and 64-bit overflow of PHP's date parser are not modelled.
- Integer width: `time() - ts` and `abs` are unbounded here, so PHP's overflow into floats at `PHP_INT_MAX` is not modelled.
- The Laravel `Request`: it is reduced to the values of the named field and header. How Laravel finds them by `field` (case-insensitive headers, non-string inputs such as arrays) is outside the model.
- Configuration loading (`config()`, `env()`), `src/HmacServiceProvider.php` and the container: the values are constructor parameters, and the service is passed to `Handle`.
- `src/Middleware/AuthenticateWithHmac.php`: framework glue. It forwards the request iff `checkSignature` returns `true`, and answers 403 otherwise.
- `src/Exceptions/HmacException.php`: it becomes the single error `KeyUnset`; its message text is not kept.
- PregReplaceAnchored: `preg_replace` is modelled line by line on text split at `\n`. An old key containing a line break, where the regex match would span lines, is not modelled.
- Replacement text: references such as `$0` or `\0` in it are not expanded. A generated key, `algo:hex`, contains neither.
- A regex compile failure of `preg_replace` is not modelled.
- File access (`file_get_contents`, `file_put_contents`, `environmentFilePath`): the `.env` text is a field of the command.
- `ConfirmableTrait`: confirmation is a boolean input.
- Console formatting: `alert` is recorded as the key itself, and `info` as its message.
- Timing-safety of `strcmp` (the model compares strings for equality) and the sharing of the singleton service between threads.
