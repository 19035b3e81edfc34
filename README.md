# PackageManagerCommand, modelled in Dafny

`PackageManagerCommand` is a documentation-site widget. A page passes it a list
of command fragments (such as `add axios`) and an optional `execute` flag. It
shows three tabs, npm, yarn and pnpm. Each tab holds a code block with that
manager's version of every fragment, one per line. This project models how
those strings are built and proves what they look like:

- the runner that starts each line: `npx` for npm and yarn and `pnpx` for pnpm
  in execute mode, and the manager's own name otherwise;
- npm's rewrite of the first `add` of each line to `install`, with
  JavaScript's `String.prototype.replace` semantics for a string pattern;
- the join of the lines with `\n`, and the fixed tab order, labels and titles.

Two modules, verified together:

- `JsString` (`js_string.dfy`) holds the JavaScript string operations the
  widget relies on. `ReplaceFirst` is `replace` with a string pattern, defined
  character by character. `FirstIndexOf` is `indexOf`, specified by its
  contract. `JoinLines` is `join("\n")` and `SplitLines` is `split("\n")`.
  Lemmas tie `ReplaceFirst` to `FirstIndexOf` and `SplitLines` to `JoinLines`.
- `PackageManagerCommand` (`package_manager_command.dfy`) holds the widget
  itself: `Manager`, `Runner`, `Line`, `Text`, `Render` and the lemmas about them.

The `add` → `install` rewrite is not limited to the non-execute mode. The code
at src/components/PackageManagerCommand.tsx:33 checks only that the manager is
npm, so npm lines are rewritten in execute mode too. The model follows the
code. `ExecuteNpmIsRewritten` shows `["add-x"]` in execute mode giving
`npx install-x`, and `NpmLine` holds for both values of the flag.

## Model

| member | source | states |
|---|---|---|
| `JsString.FirstIndexOf` | src/components/PackageManagerCommand.tsx:33 | `replace` looks for the pattern like `indexOf`: a found index is an occurrence with none before it, and `None` means the pattern occurs nowhere |
| `JsString.ReplaceFirstNoMatch` | src/components/PackageManagerCommand.tsx:33 | a line without the pattern is left unchanged by the rewrite |
| `JsString.ReplaceFirstAtMatch` | src/components/PackageManagerCommand.tsx:33 | only the first occurrence, at index i, is replaced: the result is `s[..i] + rep + s[i+|pat|..]` |
| `JsString.LaterOccurrencesKept` | src/components/PackageManagerCommand.tsx:33 | every later occurrence of the pattern is still in the result, shifted by the difference in length between `rep` and `pat` |
| `JsString.ReplaceFirstChars` | src/components/PackageManagerCommand.tsx:33 | the rewrite introduces no character found neither in the line nor in the replacement |
| `JsString.ReplaceFirstMissingChar` | src/components/PackageManagerCommand.tsx:33 | a pattern with a character the line lacks never matches, so the line is unchanged |
| `JsString.NoMatchWithoutChar` | src/components/PackageManagerCommand.tsx:33 | a pattern with a character the line lacks is not found in it |
| `JsString.ReplaceFirstAfterPrefix` | src/components/PackageManagerCommand.tsx:33 | a prefix without the pattern's first character is passed over: the rewrite happens in what follows it |
| `JsString.SplitLines` | src/components/PackageManagerCommand.tsx:34 | splitting the text at line breaks gives at least one piece, and no piece contains a line break |
| `JsString.SplitJoinLines` | src/components/PackageManagerCommand.tsx:34 | splitting undoes the `\n` join for a non-empty list of lines without line breaks |
| `PackageManagerCommand.ManagersListed` | src/components/PackageManagerCommand.tsx:14 | every manager has a tab, and the names npm, yarn and pnpm tell the managers apart |
| `PackageManagerCommand.ExecuteLines` | src/components/PackageManagerCommand.tsx:28-29 | in execute mode a pnpm line is `pnpx <fragment>`, a yarn line is `npx <fragment>`, and an npm line starts with `npx ` |
| `PackageManagerCommand.ManagerNamePrefix` | src/components/PackageManagerCommand.tsx:30 | outside execute mode every line starts with its manager's name and a space, for npm too after the rewrite |
| `PackageManagerCommand.NoRewriteOutsideNpm` | src/components/PackageManagerCommand.tsx:27-33 | yarn and pnpm lines are the runner, a space and the fragment, with no rewriting in either mode |
| `PackageManagerCommand.NpmLine` | src/components/PackageManagerCommand.tsx:29-33 | in both modes the npm line is the runner, a space and the fragment with its first `add` replaced: the runners contain no `a`, so the match never starts in the prefix |
| `PackageManagerCommand.NpmLineRewritesFirstAdd` | src/components/PackageManagerCommand.tsx:29-33 | the npm line replaces the fragment's first `add`, at index i, by `install` and keeps the rest; a fragment without `add` is only prefixed |
| `PackageManagerCommand.LineHasNoBreak` | src/components/PackageManagerCommand.tsx:27-33 | a fragment without a line break gives a line without one |
| `PackageManagerCommand.TextLines` | src/components/PackageManagerCommand.tsx:24-34 | no fragments give the empty text; otherwise, if no fragment holds a line break, the text has exactly one line per fragment, in input order, each the fragment's transformed line |
| `PackageManagerCommand.SingleFragment` | src/components/PackageManagerCommand.tsx:24-34 | one fragment gives a text that is just its line |
| `PackageManagerCommand.TextPrepend` | src/components/PackageManagerCommand.tsx:24-34 | a fragment in front of a non-empty list gives its line, `\n`, then the text of the rest |
| `PackageManagerCommand.RenderTabs` | src/components/PackageManagerCommand.tsx:14-24 | three tabs labelled npm, yarn and pnpm in that order; key and value equal the label, the title is `<manager> command`, the code is that manager's text |
| `PackageManagerCommand.NpmInstalls` | src/components/PackageManagerCommand.tsx:29-33 | for any package name, npm turns `add <pkg>` into `<runner> install <pkg>` |
| `PackageManagerCommand.AddPackage` | src/components/PackageManagerCommand.tsx:27-34 | `["add <pkg>"]` outside execute mode (`add axios`, say) gives `npm install <pkg>`, `yarn add <pkg>` and `pnpm add <pkg>` |
| `PackageManagerCommand.AddTwoPackages` | src/components/PackageManagerCommand.tsx:27-34 | `["add <a>", "add <b>"]` for npm (`add foo`, `add bar`, say) gives `npm install <a>\nnpm install <b>` |
| `PackageManagerCommand.ExecuteWithoutAdd` | src/components/PackageManagerCommand.tsx:28-34 | in execute mode a fragment without `add` gives `npx <fragment>` for npm and yarn and `pnpx <fragment>` for pnpm |
| `PackageManagerCommand.CreateReactAppHasNoAdd` | src/components/PackageManagerCommand.tsx:28-34 | `create-react-app my-app` contains no `add`; with `ExecuteWithoutAdd`, in execute mode it gives `npx create-react-app my-app` for npm and yarn and `pnpx create-react-app my-app` for pnpm |
| `PackageManagerCommand.ExecuteNpmIsRewritten` | src/components/PackageManagerCommand.tsx:29-33 | the npm rewrite ignores the execute flag: `["add-x"]` in execute mode gives `npx install-x` |

## Left out

- Rendering: the React tree and the `Tabs`, `TabItem` and `CodeBlock` components (src/components/PackageManagerCommand.tsx:1-4, 12-13, 35-39) come from the documentation framework. `Render` models only the strings handed to them.
- The `language='bash'` setting of the code block and React's use of `key` for reconciliation are presentation only. The `key` string itself is modelled.
- The tab field holding the label is called `tabLabel`, because `label` is a Dafny keyword.
- Special `$` patterns in `replace`'s replacement string are not modelled. The replacement `install` contains none, so plain substitution is exact.
- JavaScript strings are UTF-16. They are modelled as `seq<char>`, with no encoding or normalisation.
- The component neither quotes nor escapes for the shell, and it does not check its props. There is nothing of either to model.
- `TextLines`: the line count holds only when no fragment contains `\n`. The component does not check this, so a fragment with an embedded line break shows up as several lines.
