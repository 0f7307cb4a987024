# rc-create-module, modelled in Dafny

`create_module.py` generates an Lmod module file for a research-computing
software installation. It asks for four answers: module name, version,
description and URL. It strips surrounding whitespace from each answer. It
looks up the current login in the password database and takes the
administrator's display name from the account's GECOS field: the second word
of the text before the first comma. It then fills a template by replacing
seven `{{key}}` placeholders in a fixed order. The result is written to
`/packages/modulefiles/apps/<name>/<version>.lua`.

This project models that core as pure functions and proves properties of it:

- `wrappers.dfy` (`Wrappers`): the `Option` and `Result` types.
- `text.dfy` (`Text`): Python's `str.replace`, `str.count` and `str.split(sep)`,
  plus `Join`. These are the non-overlapping, left-to-right scans that Python
  performs.
- `template.dfy` (`Template`): the `ModuleInfo` record, the ordered
  replacement table and `Render`, which is `replace_templates`.
- `fields.dfy` (`Fields`): `str.strip()` and `str.split()` with no argument,
  both over Python's `str.isspace` character set. Also the GECOS display-name
  extraction.
- `paths.dfy` (`Paths`): two-argument `os.path.join` and the module file path.
- `createmodule.dfy` (`CreateModule`): one run, from raw answers, login,
  account table, date and template to the output path and contents, or the
  error that stops the run.

The terminal, `os.getlogin`, `pwd.getpwnam` and the clock become parameters.
The prompted answers are an `Answers` value. The login is a string, and the
password database is a map from login to GECOS field. The date is an
already-formatted string.

### Behaviour as written in the code

- **Inserted text is scanned again.** Each `str.replace` in the loop at
  `create_module.py` lines 32-33 runs on the previous result. So a later
  key's token inside an earlier field value is replaced too, while an earlier
  key's token inserted by a later value stays. See
  `Template.RenderRescansLaterTokens` and `Template.RenderKeepsEarlierTokens`.
- **No display-name fallback.** `full_name.split()[1]` raises `IndexError`
  when the full name has fewer than two words. The model returns
  `Failure(NoSecondName(..))`.
- **`asurite` is the bare login** returned by `os.getlogin()`, with no
  e-mail domain appended.
- **Answers are not validated.** Empty answers are accepted and used as
  they are.

## Model

| member | source | states |
|---|---|---|
| Text.Replace | create_module.py:33 | `str.replace` output length is the input length plus, per non-overlapping occurrence of the pattern, the difference between value and pattern lengths |
| Text.ReplaceAbsent | create_module.py:33 | replacing a pattern that does not occur returns the text unchanged |
| Text.ReplaceSelf | create_module.py:33 | replacing a pattern with itself returns the text unchanged |
| Text.CountZeroIffAbsent | create_module.py:33 | the occurrence count is zero exactly when the pattern does not occur anywhere |
| Text.ReplaceCharCount | create_module.py:33 | each character's multiplicity after replacement is its multiplicity before, minus the pattern's copies and plus the value's copies, once per occurrence |
| Text.ReplaceRemoves | create_module.py:33 | after replacing with a non-empty value that shares no character with the pattern, the pattern no longer occurs |
| Text.ReplaceKeepsCount | create_module.py:33 | replacing one pattern by a non-empty value keeps the occurrence count of a second pattern, provided the two patterns can never overlap and the value shares no character with the second pattern |
| Text.ReplaceIsJoinOfSplit | create_module.py:33 | `s.replace(p, v)` equals `v.join(s.split(p))` |
| Text.Split | create_module.py:16 | `s.split(p)` always yields at least one piece, so taking piece `[0]` of the GECOS field cannot fail |
| Text.JoinSplit | create_module.py:16 | joining the pieces of `s.split(p)` with `p` gives back `s` |
| Text.SplitCount | create_module.py:16 | `s.split(p)` has one piece more than `p` has occurrences in `s` |
| Text.SplitHeadIsPrefix | create_module.py:16 | the first piece of `s.split(p)` is a prefix of `s` |
| Text.SplitPiecesFree | create_module.py:16 | no piece of `s.split(p)` contains `p` |
| Template.Substitutions | create_module.py:22-30 | the table's i-th entry pairs the i-th key's `{{key}}` token with the i-th field, in the order name, version, description, url, admin, asurite, date |
| Template.PlaceholderTokensSeparate | create_module.py:23-29 | no two of the seven tokens can overlap or contain one another |
| Template.ReplaceEach | create_module.py:32-33 | every character of the loop's result comes from the input text or from a value of the table |
| Template.Render | create_module.py:21-35 | every character of the rendered text comes from the template or from one of the seven field values |
| Template.RenderIsSequentialReplace | create_module.py:21-35 | rendering is the seven `str.replace` calls nested in table order, each on the previous result |
| Template.RenderWithoutTokens | create_module.py:21-35 | a template containing none of the seven tokens renders to itself |
| Template.RenderOtherPlaceholder | create_module.py:21-35 | any `{{key}}` whose key is non-empty, holds no curly brace and is not one of the seven passes through unchanged |
| Template.RenderUnknownToken | create_module.py:21-35 | `{{unknown}}` renders verbatim |
| Template.RenderSingleToken | create_module.py:21-35 | a template that is exactly one token renders to that field's value when no field value contains a token |
| Template.RenderClears | create_module.py:21-35 | when every field value is inert, none of the seven tokens remains in the output |
| Template.RenderLength | create_module.py:21-35 | with inert field values, output length is the template length plus, for each token occurrence, the value-minus-token length difference |
| Template.RenderSentinel | create_module.py:21-35 | with inert field values, a character found only in one field's value (not in the template, not in any other value) appears in the output as often as that field's token occurs in the template, times its copies in the value |
| Template.RenderFillsPlaceholders | create_module.py:21-35 | for a template whose curly braces all belong to placeholders, and brace-free field values, the output is the template with each of the seven placeholders replaced by its field value and any other placeholder kept |
| Template.RenderFillsKnownPlaceholders | create_module.py:21-35 | under the same conditions, when every placeholder names one of the seven keys, none of the seven tokens remains |
| Template.RenderWhatisLine | create_module.py:21-35 | with brace-free values, `whatis("{{name}} {{version}}")` renders to `whatis("<name> <version>")` |
| Template.RenderRescansLaterTokens | create_module.py:22-33 | an earlier field whose value is a later key's token ends up as that later field's value, provided the later value holds none of the seven tokens |
| Template.RenderKeepsEarlierTokens | create_module.py:22-33 | a later field whose value is an earlier key's token leaves that token in the output |
| Template.TokenFreeFieldsCanLeaveTokens | create_module.py:22-33 | a `name` of `name` contains no token, yet `{{{{name}}}}` renders to the token `{{name}}` |
| Template.NestedPlaceholderCollapses | create_module.py:33 | replacing `{{key}}` by `key` inside `{{{{key}}}}` produces `{{key}}` |
| Fields.Strip | create_module.py:10-13 | the stripped answer is a contiguous piece of the raw answer, with only whitespace around it, neither starting nor ending with whitespace |
| Fields.StripUnique | create_module.py:10-13 | the stripped answer is the only text with that description |
| Fields.StripIdempotent | create_module.py:10-13 | stripping twice is stripping once |
| Fields.StripIgnoresPadding | create_module.py:10-13 | whitespace added on either side of an answer does not change its stripped form |
| Fields.Words | create_module.py:17 | every word of `str.split()` is non-empty and holds no whitespace |
| Fields.WordsSplitUniquely | create_module.py:17 | `str.split()` returns the only sequence of non-empty, whitespace-free words, in order, that the text splits into |
| Fields.FullName | create_module.py:16 | the full name is a prefix of the GECOS field and holds no comma |
| Fields.FullNameIsCommaFreePrefix | create_module.py:16 | the full name is the GECOS text before the first comma: a comma-free prefix followed by a comma or the end |
| Fields.FullNameBeforeComma | create_module.py:16 | for comma-free `a` followed by nothing or a comma, the full name is `a` |
| Fields.DisplayName | create_module.py:16-17 | a display name, when there is one, is a non-empty word without whitespace |
| Fields.DisplayNameIsSecondWord | create_module.py:16-17 | the display name is the second word of the full name, and is missing exactly when the full name has fewer than two words |
| Fields.DisplayNameOfTwoWords | create_module.py:16-17 | `First Last` followed by nothing or by a comma and more, with both words non-empty and free of whitespace and commas, yields `Last` |
| Fields.DisplayNameOfOneWord | create_module.py:16-17 | a single non-empty word free of whitespace and commas, followed by nothing or by a comma and more, yields no display name |
| Paths.JoinPath | create_module.py:51 | `os.path.join(a, b)` ends with `b`; an absolute `b` is the whole result; otherwise the result starts with `a`, and exactly one `/` is added between them when `a` is non-empty and does not end in `/`, none otherwise |
| Paths.ModuleFilePath | create_module.py:51-55 | the file path ends with `<version>.lua`, and starts with the root when neither the name nor the file name is absolute |
| Paths.ModuleFilePathLayout | create_module.py:51-55 | for a non-empty root without a trailing `/`, a non-empty, `/`-free name and a `/`-free version, the file is `root/name/version.lua` and its final component is `version.lua` |
| Paths.JoinPathPinned | create_module.py:51 | the clauses of `JoinPath`'s contract admit only one result, so the contract fixes `os.path.join(a, b)` completely |
| Paths.ModuleFilePathTrailingSlash | create_module.py:51-55 | a relative module name ending in `/`, such as `gcc/`, gets no second `/` before `<version>.lua` |
| Paths.ModuleFilePathAbsoluteName | create_module.py:51-55 | an absolute module name that does not end in `/` replaces the root, for a version that does not start with `/` |
| Paths.ModuleFilePathEmptyName | create_module.py:51-55 | for a non-empty root without a trailing `/` and a version that does not start with `/`, an empty module name puts `version.lua` directly under the root |
| CreateModule.GatherInfo | create_module.py:9-18 | an unknown login and a full name with fewer than two words (none or one) are the two failures, and nothing else fails; on success the four answers are stripped, admin is the display name, asurite is the login and date is the given date |
| CreateModule.CreateModuleFile | create_module.py:37-58 | a file is produced exactly when the module description can be gathered; otherwise the run stops with the error that gathering raised |
| CreateModule.CreatedFilePath | create_module.py:48-57 | for a non-empty, `/`-free stripped name and a `/`-free version, the file is `/packages/modulefiles/apps/<name>/<version>.lua` and its file name is `<version>.lua` |
| CreateModule.CreatedFileHasNoTokens | create_module.py:45-46 | with inert field values, the written contents hold none of the seven placeholder tokens |
| CreateModule.CreatedFileFillsTemplate | create_module.py:45-46 | for a template whose braces all belong to placeholders and brace-free field values, the written contents are the template with each placeholder replaced by its field value, and with only known placeholders no token is left |
| CreateModule.PaddedAnswersSameFile | create_module.py:10-13 | padding every answer with whitespace produces the same file |

A field value is *inert* when it is non-empty and shares no character with
any of the seven tokens. The tokens use the characters
`a c d e i l m n o p r s t u v { }`, so ordinary module names, versions
with these letters, logins and display names are not inert.
`Template.RenderFillsPlaceholders` covers ordinary runs instead. It needs
field values without curly braces, and a template whose every curly brace
belongs to a placeholder, given as a sequence of `Piece`s.

## Left out

- Reading the template, `os.makedirs`, writing the file and the final `print` (create_module.py:42-43, 52, 57-60) are file-system and terminal I/O. `CreateModule.CreateModuleFile` returns the path and contents instead.
- `input()`, `os.getlogin()` and `pwd.getpwnam` (create_module.py:10-15) become parameters. `os.getlogin` failing with `OSError` is not modelled.
- `datetime.today().strftime('%Y-%m-%d')` (create_module.py:18) reads the clock. The date is an opaque string parameter.
- Template.RenderClears: the natural statement would be "no token is left when no field value contains a token". That statement is false, as `Template.TokenFreeFieldsCanLeaveTokens` shows. The lemma requires every value to be inert: no value may hold any of the characters `a c d e i l m n o p r s t u v { }`. That excludes ordinary module names such as `gcc`, logins such as `jdoe` and display names such as `Doe`. `Template.RenderFillsKnownPlaceholders` states the token-free output for ordinary brace-free values, but only for templates whose braces all belong to placeholders. A template with other braces can form new tokens, as `{{na{{name}}e}}` with `name` = `m` shows.
- Template.RenderLength: proved only for inert field values, with the character restriction described for `Template.RenderClears`. For ordinary values, the length follows from `Template.RenderFillsPlaceholders`.
- Text.Replace: an empty pattern (which Python handles by inserting the value between every character) is excluded by `requires p != []`. All seven placeholder patterns and the `,` separator are non-empty.
- Text.Split: only a non-empty separator is modelled, because the code splits only on `,`.
- `os.path.join` is modelled only for two components, which is all the code uses.
- Template.RenderSentinel: proved only for inert field values, with the character restriction described for `Template.RenderClears`. A sentinel inside a value that also forms a token with the surrounding template text is not covered.
- CreateModule.CreatedFileHasNoTokens: proved only for inert field values, which ordinary runs do not have. `CreateModule.CreatedFileFillsTemplate` is the statement for ordinary brace-free values.
- Templates that contain curly braces outside placeholders, such as a Lua table constructor, are covered only by the general lemmas (`Template.RenderIsSequentialReplace` and the inert-value lemmas). `Template.RenderFillsPlaceholders` does not apply to them.
