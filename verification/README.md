# Hook event-name translator of adonis-mongoose-model

A Dafny model of the part of `src/utils.js` that turns a Lucid-style
lifecycle event name into a Mongoose middleware pair. An event name such as
`beforeSave`, `preFindOne` or `preDelete` is split before every ASCII capital
(`splitOnCaps`). The first piece is the raw instruction. The remaining pieces,
joined and with their first character lower-cased (`firstLowerCase`), are the
raw command. The Lucid synonyms `before → pre`, `after → post` and
`delete → remove` are applied once, on an exact key match only
(`deconstructEvent`). `formatToMongooseMiddleware` then checks the pair
against the Mongoose vocabularies. It reports a bad instruction first and a
bad command second, and each error names the token and the original event.

Modules:

- `Case` (case.dfy): ASCII capitals, `firstLowerCase`, and its inverse `Capitalize`.
- `Split` (split.dfy): `splitOnCaps` and `Array.prototype.join('')`.
  - `SplitOnCaps` is a functional definition.
  - `SplitOnCapsScan` is the scan loop that `String.prototype.split` runs with
    a zero-width lookahead pattern. It never cuts at the start of the current
    piece, so there is never a cut at index 0, and `""` gives `[""]`.
- `Middleware` (middleware.dfy): the four constant tables, the two validity
  checks, `deconstructEvent`, `formatToMongooseMiddleware` with a
  `Result`/`TranslationError` datatype in place of the thrown `Error`, and the
  theorems about which event names are accepted.
- `HookExamples` (hook_examples.dfy): the cases of test/hooks_transform.spec.js
  and a few edge cases.

The central theorem is `Middleware.FormatAcceptsExactly`. An event translates
to `(i, c)` if and only if three things hold: `i` is `pre` or `post`; `c` is
one of the 11 commands; and the event is `w + Capitalize(x)`, where `w` is a
spelling of `i` (`pre`/`before`, `post`/`after`) and `x` is a spelling of `c`
(`c` itself, or `delete` for `remove`).

Only the first character of the joined remainder is lower-cased
(src/utils.js:54), so `preFindOneAndUpdate` gives `findOneAndUpdate`.

## Model

| member | source | states |
|---|---|---|
| `Case.FirstLowerCase` | src/utils.js:13-15 | keeps the length; lower-cases the first character so that it is no longer a capital; leaves every later character unchanged; the empty string stays empty |
| `Case.CharCaseRoundTrip` | src/utils.js:13-15 | ASCII lower-casing turns a capital into a small letter, and upper-casing undoes it; a lower-cased character is never a capital |
| `Case.CapitalizeFirstLowerCase` | src/utils.js:13-15 | a word that starts with a capital is recovered from its `firstLowerCase` form, so lower-casing the command loses nothing |
| `Case.FirstLowerCaseCapitalize` | src/utils.js:13-15 | a word that starts with a small letter is recovered by `firstLowerCase` after capitalising it, and the capitalised form starts with a capital |
| `Split.FirstCapFrom` | src/utils.js:9-11 | returns the least index at or after `i` that holds an `A`-`Z` capital, or the length when there is none |
| `Split.FirstCap` | src/utils.js:9-11 | the first split position is the least index from 1 on that holds a capital, or the length; it is at least 1 for a non-empty string, so index 0 is never a boundary |
| `Split.FirstCapUnique` | src/utils.js:9-11 | any index with those least-capital properties equals the first split position |
| `Split.SplitOnCaps` | src/utils.js:9-11 | always returns at least one piece, and the first piece is the input up to the first split position |
| `Split.PiecesJoin` | src/utils.js:9-11 | joining the pieces of a string gives the string back |
| `Split.PiecesShape` | src/utils.js:9-11 | every piece is non-empty and has no capital after its first character; every piece after the first starts with a capital |
| `Split.SplitOnCapsJoin` | src/utils.js:9-11 | `splitOnCaps` loses nothing: joining its pieces with `''` gives back the input |
| `Split.SplitOnCapsShape` | src/utils.js:9-11 | the first piece has no capital after index 0 and is empty only when it is the only piece; every later piece is one capital followed by no other capital |
| `Split.SplitOnCapsHead` | src/utils.js:53-54 | the first piece is the text before the first split position, and the remaining pieces joined are the text from that position on |
| `Split.PiecesUnique` | src/utils.js:9-11 | non-empty pieces without inner capitals, each after the first starting with a capital, that join to `t` are exactly the pieces of `t` |
| `Split.SplitOnCapsUnique` | src/utils.js:9-11 | any list of pieces that has the split shape and joins to `s` is the result of `splitOnCaps(s)`, so the split is fully determined |
| `Split.PiecesCut` | src/utils.js:9-11 | when the next capital after `p` is at `q`, the pieces from `p` are the text between `p` and `q` followed by the pieces from `q` |
| `Split.SplitOnCapsScan` | src/utils.js:9-11 | the lookahead-split scan loop returns a well-shaped list of pieces that joins back to the input and equals the functional split |
| `Middleware.IsValidInstruction` | src/utils.js:29-31 | a word is a valid instruction exactly when it is `pre` or `post`; a valid instruction is left unchanged by the instruction synonyms |
| `Middleware.IsValidCommand` | src/utils.js:33-35 | every valid command is non-empty and starts with a small letter, and is left unchanged by the command synonyms; `delete` and the empty word are not valid commands |
| `Middleware.Message` | src/utils.js:78-82 | the message of either error, for a bad instruction or a bad command, starts with the offending token, has the fixed middle text right after it, names the original event next, and ends with the pointer to the middleware documentation; its length is the sum of the four parts |
| `Middleware.Translate` | src/utils.js:56-62 | a word that is not a key of the table passes through unchanged; a key is replaced by its value |
| `Middleware.SynonymsSettleInOneStep` | src/utils.js:37-43 | no value of either synonym table is a key of it, so applying a table once gives a word that the table no longer changes |
| `Middleware.TranslatePreimage` | src/utils.js:56-62 | a synonym table sends a word to a target exactly when the word is the target and not a key of the table, or is a key that maps to the target |
| `Middleware.DeconstructEvent` | src/utils.js:52-65 | the instruction is the text before the first capital after index 0, translated once through `{before→pre, after→post}`; the command is the rest with its first character lower-cased, translated once through `{delete→remove}` |
| `Middleware.FormatToMongooseMiddleware` | src/utils.js:74-86 | succeeds exactly when the instruction is in `[pre, post]` and the command is among the 11 names; a bad instruction is reported before the command is checked; each error carries the offending token and the original event |
| `Middleware.DeconstructSpelled` | src/utils.js:52-65 | an instruction word with no capital after its first character, followed by a capitalised command word that starts with a small letter, deconstructs to the two words, translated; inner capitals of the command are kept |
| `Middleware.InstructionSpellingsAreLower` | src/utils.js:22-40 | the only words that translate to a valid instruction are `pre`, `post`, `before` and `after` |
| `Middleware.CommandSpellingsStartLower` | src/utils.js:23-43 | every word that translates to a valid command is non-empty and starts with a small letter |
| `Middleware.EmptyIsNoCommand` | src/utils.js:33-35 | the empty word is not a key of the command synonyms and is not a valid command |
| `Middleware.RespellAtCap` | src/utils.js:53-54 | at a capital, an event equals its instruction text followed by its raw command capitalised again, so deconstruction loses nothing |
| `Middleware.FormatSound` | src/utils.js:74-86 | every successful translation has a valid pair, and the event is an instruction spelling followed by a capitalised command spelling of that pair |
| `Middleware.FormatComplete` | src/utils.js:74-86 | every instruction spelling of a valid pair followed by a capitalised command spelling of it translates to that pair |
| `Middleware.FormatAcceptsExactly` | src/utils.js:74-86 | an event translates to a pair if and only if the pair is a valid Mongoose pair and the event is a native or Lucid spelling of it: instruction word + capitalised command word |
| `Middleware.NativeNamesPassThrough` | src/utils.js:22-35 | for every valid instruction and command, the plain Mongoose name `instruction + Capitalize(command)` translates to exactly that pair |
| `Middleware.LucidInstructionSynonyms` | src/utils.js:37-40 | for every valid command, `before…` translates to `pre` and `after…` to `post` with that command |
| `Middleware.LucidDeleteSynonym` | src/utils.js:41-43 | after any instruction word with no inner capital, `…Delete` and `…Remove` deconstruct to the same pair; when the instruction is valid, both translate successfully with the command `remove` |
| `Middleware.NoCapitalEventFails` | src/utils.js:53-54 | an event with no capital after index 0 has an empty command and always fails; when its instruction is valid, the failure is a command error naming the empty token |
| `HookExamples.SeparatesNativeNames` | test/hooks_transform.spec.js:7-17 | `preSave`, `postSave` and `preFind` give `(pre, save)`, `(post, save)` and `(pre, find)` |
| `HookExamples.TransformsLucidNames` | test/hooks_transform.spec.js:27-37 | `beforeSave` gives the same result as `preSave`, namely `(pre, save)`, and `afterSave` gives `(post, save)` |
| `HookExamples.TransformsLucidDelete` | test/hooks_transform.spec.js:27-37 | `preDelete` gives `(pre, remove)` |
| `HookExamples.KeepsInnerCapitals` | src/utils.js:23-27 | `preFindOneAndUpdate` gives `(pre, findOneAndUpdate)` and `preInsertMany` gives `(pre, insertMany)` |
| `HookExamples.RejectsBadCommand` | test/hooks_transform.spec.js:19-21 | `preSaved` fails with a command error naming `saved` and the event, whose message is `saved`, the middle text, `preSaved` and the documentation pointer |
| `HookExamples.RejectsBadInstructionFirst` | test/hooks_transform.spec.js:23-24 | `presSaved` fails with an instruction error naming `pres`, whose message is `pres`, the middle text, `presSaved` and the documentation pointer, although its command `saved` is also invalid |
| `HookExamples.RejectsEventWithoutCommand` | src/utils.js:81-83 | `pre` fails with a command error naming the empty token; the empty event fails on its empty instruction |
| `HookExamples.LeadingCapitalIsNoBoundary` | src/utils.js:9-11 | `PreSave` splits into `["Pre", "Save"]` and fails on the instruction `Pre` |

## Left out

- `isString` (src/utils.js:5-7): a JavaScript runtime type test. Every event in the model is a string.
- `nowAddDays` (src/utils.js:17-20): it changes a `Date` in place, so it is clock and calendar arithmetic.
- `Case.FirstLowerCase`: only ASCII `A`-`Z` is lower-cased. JavaScript's `toLowerCase` follows full Unicode case mapping. In `deconstructEvent` the character being lowered is always `A`-`Z` or absent, so there the model is exact.
- HookExamples.RejectsBadCommand: the expected message is stated as `"saved" + MessageMiddle + preSaved + MessageTail`, not compared against the test's message as one literal string. `MessageMiddle` and `MessageTail` hold the source's fixed text character for character.
- HookExamples.RejectsBadInstructionFirst: the same holds for `presSaved`. Its expected message is stated as `"pres" + MessageMiddle + presSaved + MessageTail`.
- The thrown `Error` is modelled as the `Err` case of a `Result`, not as an exception.
- src/Serializers/MongooseSerializer.js is not part of this model. Each of its operations is a thin wrapper over Mongoose queries, password hashing or the IoC container, and none of those is visible here.
- src/Model/TokenMongoose.js is not part of this model. `fetchSession` and `dispose` build Mongoose queries with dates and the store's `$in`/`$nin` operators.
- src/Model/Base.js is not part of this model. It defines a static `primaryKey` getter that returns `'_id'` (src/Model/Base.js:4-6). It also defines an instance getter `primaryKeyValue` (src/Model/Base.js:8-10), which calls `this.primaryKey()` as a method and reads that property. The schema-build, index-buffer and hook-registration pipeline that test/model.spec.js exercises is not part of this model either.
- providers/MongooseProvider.js (IoC registration and the database connection), commands/MakeModel.js (CLI prompts and file generation) and the test helpers are not part of this model.
- Strings: a Dafny `string` is a sequence of Unicode scalar values, while a JavaScript string is a sequence of UTF-16 code units. The model has no lone surrogates, and a character outside the Basic Multilingual Plane counts as one character rather than two. Capitals and the table words are all ASCII, so neither the split positions nor the translation change.
