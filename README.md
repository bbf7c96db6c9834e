# nlgc branch-name helper, modelled in Dafny

nlgc is a small interactive command-line script that names and creates a git
branch. It asks the developer for a branch prefix (a category such as
`feature` or `release`, or a typed one) and a username. It then reads the
abbreviated hash of the current branch's last commit and keeps its first
eight characters. After that it asks for a detail (an environment picked
from a list for `release`, a typed description for every other prefix), a
separator (`/` or `_`) and whether to add today's date, and creates the
branch
`prefix<sep>username<sep>commit<sep>detail`, followed by `_YYYYMMDD` when the
date was wanted.

This project models the deterministic logic between the prompts and the git
calls, as pure functions with lemmas about them:

- `js_text.dfy` (module `JsText`): the JavaScript built-ins the script uses
  (`Array.prototype.join`, `String.prototype.slice`, `String.prototype.padStart`,
  the decimal text of a non-negative integer), each stated with its meaning
  and paired with a partner: `Split` undoes `Join` on parts free of the
  separator, and `DecimalValue` reads back the digits `NumberToString` writes.
- `prompt.dfy` (module `Prompt`): a list question's choices and its answer
  object, and JavaScript's property read, which yields `undefined` for a
  property the object lacks.
- `nlgc.dfy` (module `Nlgc`): the current revision, `dist/main.js`: how each
  answer is resolved, the short commit, the date stamp, the branch name, and
  the whole sequence of `main` up to the checkout.
- `nlgc_legacy.dfy` (module `NlgcLegacy`): the earlier revision, `main.js`,
  which asks for the prefix and the username and reads the short commit.

Every prompt answer is a parameter: a list question is answered by the
position of the picked choice, a free-text question by the typed string. The
git output is a string parameter (already trimmed), and the clock's reading
is three natural numbers: the full year, the month index as `getMonth()`
reports it (January is 0) and the day of the month.

The model reproduces the username slip of both revisions: the test for the
"手动输入" (manual input) entry reads the property `question2`, which the
answer object (keyed `username`) never has. The comparison is therefore
always false, so picking that entry returns the label "手动输入" itself as
the username and the typed follow-up is never used (`Nlgc.GetUserName`,
`Nlgc.ManualUserNameIsLiteral`).

Where the source's own comments and its code differ, the model follows the
code:

- The comment at dist/main.js:14 (and main.js:10) promises the first 8
  characters of the latest commit ("前 8位"). The code takes the first
  min(8, length of `s`) characters of the hash git prints, so a shorter
  hash stays shorter.
- The comment at main.js:6 lists bare categories (`feature`, `release`,
  `hotfix`). In `main.js` a listed prefix is the whole label, description
  included (for example `feature  (功能开发)`), not the bare category.

## Model

| member | source | states |
|---|---|---|
| `JsText.Join` | dist/main.js:177-180 | the joined text's length is the parts' total length plus one separator between each pair of neighbours; one part joins to itself |
| `JsText.JoinFour` | dist/main.js:177-180 | joining the four parts gives `a + sep + b + sep + c + sep + d` |
| `JsText.Split` | dist/main.js:180 | splitting on a character gives at least one piece, and no piece contains that character |
| `JsText.JoinSplit` | dist/main.js:180 | joining the pieces of a split back with the same character gives the original text |
| `JsText.SplitJoin` | dist/main.js:177-180 | when no part contains the separator character, splitting the joined text gives back exactly the parts |
| `JsText.SplitWithout` | dist/main.js:180 | a text free of the separator character splits into itself alone |
| `JsText.SplitAfter` | dist/main.js:180 | a first piece free of the separator, then the separator, splits off as the first piece |
| `JsText.Slice` | dist/main.js:97 | `slice(start, end)` has the length of the clamped range and is the text's characters from `start` on |
| `JsText.PadStart` | dist/main.js:134 | `padStart` gives max(width, length of `s`) characters, ends with `s` unchanged, and has only the filler in front of it |
| `JsText.NumberToString` | dist/main.js:134 | `toString` of a natural number is one or more decimal digits with no leading zero unless the number is 0 |
| `JsText.DecimalValueOfNumberToString` | dist/main.js:134 | the decimal text of `n` denotes `n` |
| `JsText.DecimalValueLeadingZeros` | dist/main.js:134 | zeros put in front of a digit string keep it all digits and do not change its value |
| `JsText.NumberToStringLength` | dist/main.js:131-134 | numbers below 10 have one digit, from 10 to 99 two, from 1000 to 9999 four |
| `JsText.DigitChar` | dist/main.js:134 | a digit value below 10 is written as a decimal digit character |
| `JsText.DigitValue` | dist/main.js:134 | a digit character has a value below 10 that writes back as the same character |
| `Prompt.OtherPropertiesUndefined` | dist/main.js:83 | every other property of a list answer reads as `undefined` |
| `Nlgc.GetPrefix` | dist/main.js:56-71 | the custom entry (position 5) yields the typed text; the other five positions yield `dev`, `feature`, `release`, `hotfix`, `refactor` |
| `Nlgc.GetPrefixUsesTypedOnlyForCustom` | dist/main.js:63-70 | the typed prefix is used if and only if the picked value is `custom`; any other pick returns its value, whatever was typed |
| `Nlgc.GetUserName` | dist/main.js:74-91 | the username is always the picked list value, because the manual test reads the never-set `question2` |
| `Nlgc.ManualUserNameIsLiteral` | dist/main.js:79-89 | picking "手动输入" returns the literal label "手动输入" as the username |
| `Nlgc.UserNameIgnoresTyped` | dist/main.js:83-89 | the username does not depend on the typed text, and differs from it unless the text equals the picked value |
| `Nlgc.ShortCommit` | dist/main.js:94-98 | the short commit has length min(8, length of `s`) and is a prefix of the git output `s` |
| `Nlgc.GetBranchDetail` | dist/main.js:101-126 | for prefix `release` the detail is the picked environment, or the typed text for the manual entry; for every other prefix it is the typed description |
| `Nlgc.DetailFromListOnlyForRelease` | dist/main.js:103-125 | a detail other than the typed text arises only for prefix `release`, and is then one of the six listed environments |
| `Nlgc.GetSeparator` | dist/main.js:139-154 | the separator is always `/` or `_`, and `/` exactly for the first choice |
| `Nlgc.GetNeedTime` | dist/main.js:157-172 | the date is added exactly when the first choice is picked |
| `Nlgc.Pad2` | dist/main.js:134 | `padStart(2, "0")` of the decimal text is all digits and has max(2, number of digits) characters; `Nlgc.Pad2Properties` adds that it keeps its value |
| `Nlgc.Pad2Properties` | dist/main.js:134 | a padded number is all digits and keeps its value; below 100 it is exactly two characters; above that it is not cut |
| `Nlgc.DateStamp` | dist/main.js:131-134 | the stamp is all digits and as long as the year's digits plus the two padded fields; `Nlgc.DateStampFields` states its layout for calendar dates |
| `Nlgc.DateStampFields` | dist/main.js:129-135 | for a four-digit year, month 1..12 and day 1..31, the stamp is 8 digits whose year, month and day fields read back as the inputs |
| `Nlgc.GetCurrentTime` | dist/main.js:129-135 | for a four-digit year, month index 0..11 and day 1..31, the result is 8 digits reading back as the year, the month index plus one (`getMonth()+1`) and the day |
| `Nlgc.ConcatFields` | dist/main.js:134 | a 4-, a 2- and a 2-digit string concatenated keep their values at positions 0, 4 and 6 |
| `Nlgc.DateStampInjective` | dist/main.js:131-134 | distinct calendar dates with four-digit years give distinct stamps |
| `Nlgc.BranchName` | dist/main.js:175-185 | without the date the name is `prefix + sep + username + sep + commit + sep + detail`; with it, that name plus `_` and the stamp, whatever the separator |
| `Nlgc.BranchNameIgnoresTime` | dist/main.js:183-185 | when the date is not wanted, the stamp argument has no effect on the name |
| `Nlgc.BranchNameWithTime` | dist/main.js:183-185 | the dated name is the dateless name followed by `_` and the stamp |
| `Nlgc.BranchNameLength` | dist/main.js:177-185 | the name's length is the parts' lengths plus three separators, plus one and the stamp's length when dated |
| `Nlgc.BranchNameSplits` | dist/main.js:177-185 | when no part holds the separator character, splitting the name on it gives back the four parts (the stamp stays attached to the detail) |
| `Nlgc.BranchNameAmbiguous` | dist/main.js:177-185 | unsanitised parts make names ambiguous: a `/` typed in the prefix reads like a join, and an `_`-joined dated name equals a dateless one |
| `Nlgc.BranchNameExamples` | dist/main.js:175-185 | two worked examples: `release/my/abcd1234/master` without the date and `release/my/abcd1234/master_20240101` with it |
| `Nlgc.PlannedBranch` | dist/main.js:191-210 | the name `main` passes to the checkout is the resolved prefix, username, short commit and detail joined by the separator, with `_` and the stamp exactly when the date is wanted |
| `Nlgc.PlannedBranchExample` | dist/main.js:191-210 | picking release, my, master, slash, with commit output `abcd1234ef` on 1 January 2024, plans the two worked example names |
| `NlgcLegacy.GetPrefix` | main.js:34-60 | picking "自己输入" yields the typed text; any other pick yields its full label verbatim |
| `NlgcLegacy.PrefixKeepsLabel` | main.js:40-58 | the first pick yields `feature  (功能开发)`; no listed label equals the bare category or `release` |
| `NlgcLegacy.GetUserName` | main.js:63-85 | the username is always the picked list value, because the manual test reads the never-set `question2` |
| `NlgcLegacy.ManualUserNameIsLiteral` | main.js:69-84 | picking "手动输入" returns the literal label as the username |
| `NlgcLegacy.GetCurrentBranchLastCommit` | main.js:88-95 | the commit is the first min(8, length of `s`) characters of the trimmed git output, the same as the later revision |

Some members are definitions whose meaning is stated elsewhere and have no
row: `Prompt.Get` and `Prompt.ListAnswer` (stated by
`Prompt.OtherPropertiesUndefined` and `Nlgc.GetUserName`), `JsText.Repeat`
(stated by `JsText.PadStart`) and `NlgcLegacy.PrefixChoices` (stated by
`NlgcLegacy.GetPrefix`).

## Left out

- The prompts themselves and `handleManualInput` (dist/main.js:46-53, main.js:22-31): interactive I/O. Each answer is a parameter.
- The git subprocess calls (dist/main.js:95-96, 186; main.js:89-93): reading the current branch name, reading its last commit, and `git checkout -b`. Their output is a parameter and the checkout is not modelled, nor is the shell's reading of the unquoted branch name.
- The failure of a git call, which ends the process before any checkout: not modelled, because the calls are outside the model.
- `new Date()` (dist/main.js:130): the clock. The year, month index and day are parameters.
- `console.log` output, the `async`/`await` sequencing and `.toString().trim()` (dist/main.js:191-210, main.js:98-109): logging and plumbing. The git output is taken as already trimmed.
- The display names of the choices in dist/main.js are kept in the choice lists but never affect a result, as in the source.
- `JsText.Slice`: covers only non-negative integer bounds, the only ones the script passes.
- `JsText.PadStart`: covers only a one-character filler, the only one the script passes.
- `JsText.NumberToString`: covers only non-negative integers below 10^21, because JavaScript writes larger numbers in exponent form (`1e+21`); this covers every year `getFullYear` can give in the years the tool is used, and a negative or non-integral year cannot come from it.
- `Nlgc.DateStampFields`: states the eight-digit layout only for years 1000 to 9999; outside that range the year has another number of digits, as in the source.
- Splitting a name back into its parts (`JsText.Split`) is not in the source: it is the partner that shows what `join` keeps and loses.
