# PyTemplate in Dafny: rainbow brackets, bracket colours and the rename script

This project models three small parts of the PyTemplate repository and proves
what they promise.

**Rainbow-bracket lexer** (`docs/source/_ext/lexers.py`, files `Lexers.dfy` and
`LexerRules.dfy`).
- `MixinLexer` keeps a stack of bracket depths and a modulus `n_brackets`
  (4 by default).
- `_enter` pushes `len(stack) % n_brackets` and returns that depth's
  `Punctuation.Level<n>` token.
- `_exit` pops a depth and returns its level token. On an empty stack it
  returns `Punctuation.Error`.
- `get_tokens_unprocessed` rewrites the tokenizer's `(pos, token, value)`
  stream:
  - an upper-case `Name` becomes `Name.Constant`;
  - opening and closing brackets that are exactly `Punctuation` get level
    tokens;
  - everything else passes through.
- The stack is a field of the lexer object and is not reset between calls.
- The class is `Lexers.MixinLexer`. The stream semantics is the function
  `Lexers.Process`, and the loop method is proved equal to it.
- The module also edits pygments' rule lists in place:
  - it inserts the function-call rule before the first `Name` rule;
  - it appends a rule;
  - it replaces the Cython pseudo-builtin rule.
- These edits are `LexerRules.RuleList` (a class over a sequence of rules), the
  search loop `_find` (`LexerRules.Find`) and the closure `_get_index`
  (`LexerRules.GetIndex`).

**Bracket colour table** (`docs/source/_ext/utils.py`, file `Brackets.dfy`,
module `Utils`).
- `get_bracket_level`, `nbrackets`, `dynamic_brackets` and `get_brackets` are
  pure functions.
- Python's `dict(pairs)` is `Utils.DictOf`.
- Token types are identified by their dotted names (file `Tokens.dfy`). The
  proofs show that distinct depths give distinct names. `Other(name)` covers
  every remaining pygments token. A token type is canonical when no `Other`
  spells a name that a dedicated constructor stands for. On canonical token
  types the dotted name is injective, so equality of model values is
  pygments' identity of token objects.
- Together with the lexer, the model proves a coverage property: with
  `n_brackets` equal to the number of colours, every bracket token the lexer
  emits is `Punctuation.Error` or a key of the colour table. In particular,
  the default lexer and the four colours of the documentation style cover each
  other.

**Rename script** (`rename.py`, files `Rename.dfy` and `PyStr.dfy`).
- The file system is a tree value (`Dir`, `File`, `Link`). Each directory
  lists its entries in scan order.
- Git's ignore check is an arbitrary predicate on paths.
- Python's `in`, `str.replace` (empty `old` included), `str.split`/`str.join`
  and `str.isupper` are defined in `PyStr`.
- `replace_in_file` is a function. `update_project_name` and
  `rename_directories_and_files` are methods: each has a loop over the
  directory's entries and a method for one loop iteration, and they recurse
  into sub-directories.
- Each method is proved equal to a specification function:
  `UpdateEntries`/`UpdateEntry` for step I and `RenameEntries`/`RenameEntry`
  for step II.
- Step II also returns the log of `os.rename` calls in the order they are made.
- `main` is the function `Script` and the method `RunScript`.
- The lemmas prove:
  - what step I writes and counts;
  - that dry runs change nothing but count the same;
  - that step II renames exactly the entries whose names contain the old name
    and are not ignored, each exactly once and in post-order;
  - that, when no rename targets a name a sibling holds at that moment,
    performing the logged renames one `os.rename` at a time on the edited tree
    yields exactly the tree step II describes.

All files are verified together. Module `Wrappers` holds the `Option` type.

## Model

| member | source | states |
|---|---|---|
| Tokens.IntToDecimalInjective | docs/source/_ext/utils.py:37-41 | two integers with the same decimal rendering (as in `f"{n}"`) are equal |
| Tokens.DottedNameInjective | docs/source/_ext/lexers.py:108-111 | on canonical token types two dotted names are equal exactly when the token types are, so the `is` tests on `Name` and `Punctuation` are equality of model values |
| Tokens.LevelNamesDistinct | docs/source/_ext/utils.py:37-41 | `Punctuation.Level{a}` and `Punctuation.Level{b}` are the same name exactly when `a == b`, so distinct depths are distinct token types |
| Utils.GetBracketLevel | docs/source/_ext/utils.py:37-41 | the token returned is a level token whose dotted name is `Punctuation.Level` followed by the decimal digits of `n` |
| Utils.NBrackets | docs/source/_ext/utils.py:44-47 | exactly `n` tokens (none for `n <= 0`), the `j`-th being `Level(j)`, in increasing order |
| Utils.DynamicBrackets | docs/source/_ext/utils.py:50-52 | one pair per colour, the `i`-th pair being `(Level(i), colors[i])` |
| Utils.DictOf | docs/source/_ext/utils.py:57 | `dict(pairs)` has exactly the keys of the pairs, and a key not repeated later maps to its pair's value |
| Utils.DynamicKeys | docs/source/_ext/utils.py:55-57 | the dictionary built from `dynamic_brackets(colors)` has exactly the keys `Level(0)` … `Level(len(colors)-1)` |
| Utils.DynamicValues | docs/source/_ext/utils.py:55-57 | in that dictionary `Level(i)` maps to `colors[i]` for every colour |
| Utils.GetBrackets | docs/source/_ext/utils.py:55-57 | `get_brackets(colors)` has exactly `len(colors)` keys, all level tokens, and maps `Level(i)` to `colors[i]` |
| PyStr.ReplaceIsJoinOfSplit | rename.py:110 | for a non-empty `old`, `s.replace(old, new) == new.join(s.split(old))` (independent description of the replacement) |
| PyStr.JoinOfSplit | rename.py:110 | splitting on `sep` and joining with `sep` gives back the string |
| PyStr.PiecesAvoidSeparator | rename.py:110 | no piece of `s.split(old)` contains `old` |
| PyStr.SplitCuts | rename.py:110 | `s.split(old)` is one piece (the whole text) exactly when `old` does not occur; otherwise the first piece ends at the leftmost occurrence and the rest is the split of the text after it, so the cuts are the left-to-right, non-overlapping occurrences that `str.replace` rewrites |
| PyStr.IsUpperScan | docs/source/_ext/lexers.py:108 | `value.isupper()` (at least one upper-case letter, no lower-case letter) agrees on every string with the one-pass scan that stops at a lower-case letter and remembers an upper-case one |
| PyStr.ReplaceAbsent | rename.py:103-110 | replacing an `old` that does not occur leaves the text as it is |
| PyStr.ReplaceByItself | rename.py:234-236 | replacing a name by itself changes nothing, which is why `main` may stop when the two names coincide |
| Lexers.PyMod | docs/source/_ext/lexers.py:86 | Python's `%`: the result lies in `[0, n)` for `n > 0` and in `(n, 0]` for `n < 0`, and satisfies `a == n * (a // n) + a % n` |
| Lexers.MixinLexer.constructor | docs/source/_ext/lexers.py:79-82 | `n_brackets` is the option or 4 when absent, and the stack starts empty |
| Lexers.MixinLexer.Enter | docs/source/_ext/lexers.py:84-89 | pushes exactly `len(stack) % n_brackets` (a value in range), leaves earlier entries unchanged and returns that depth's level token; a zero modulus raises and leaves the stack as it was |
| Lexers.MixinLexer.Exit | docs/source/_ext/lexers.py:91-98 | on a non-empty stack removes only the top and returns its level token; on an empty stack returns `Punctuation.Error` and the stack stays empty |
| Lexers.MixinLexer.GetTokensUnprocessed | docs/source/_ext/lexers.py:100-120 | the loop yields exactly `Process(old stack, n_brackets, input)` and leaves the stack that run ends with (no reset); the stack stays within range |
| Lexers.ProcessAppend | docs/source/_ext/lexers.py:82 | processing a stream in two calls equals one call on the concatenation: the second call continues from the stack the first one left |
| Lexers.ProcessShape | docs/source/_ext/lexers.py:106-120 | output triple `j` keeps position and text of input triple `j`; an upper-case `Name` becomes `Name.Constant`, brackets become levels (closers possibly `Punctuation.Error`), every other token is unchanged; nothing is dropped unless the modulus is 0, and then the stream stops exactly at the first opening bracket |
| Lexers.OutAt | docs/source/_ext/lexers.py:106-120 | with a non-zero modulus, output triple `k` is the rewrite of input triple `k` against the stack the earlier triples left |
| Lexers.StackKeepsBase | docs/source/_ext/lexers.py:84-98 | a stretch that never closes below the bottom `b` entries keeps those entries and changes the depth by (openers − closers) |
| Lexers.StackAfterBalanced | docs/source/_ext/lexers.py:84-98 | a balanced stretch after a triple leaves the stack as it was right after that triple |
| Lexers.BracketPairing | docs/source/_ext/lexers.py:111-116 | LIFO pairing: a closer that closes an earlier opener (balanced in between) gets the very level token the opener got |
| Lexers.CloserErrorIffEmpty | docs/source/_ext/lexers.py:91-98 | a closing bracket becomes `Punctuation.Error` exactly when the stack is empty at that point |
| Lexers.SurplusCloser | docs/source/_ext/lexers.py:221-223 | on a fresh lexer, where no earlier prefix closes more than it opened, a closer is an error exactly when all earlier brackets are closed: only surplus closers are errors |
| Lexers.ProcessKeepsRange | docs/source/_ext/lexers.py:84-89 | every stack depth and every level token produced lies in the range of `len(stack) % n_brackets` |
| Lexers.BracketTokensHaveColours | docs/source/_ext/utils.py:55-57 | with `n_brackets == len(colors)` (an empty colour list included), every bracket token produced is `Punctuation.Error` or a key of `get_brackets(colors)` |
| Lexers.DefaultLexerIsFullyColoured | docs/source/_ext/styles.py:133-140 | the default lexer (modulus 4) on a fresh stack handles every triple, and each bracket token is `Punctuation.Error` or a key of the style's four-colour table |
| LexerRules.Find | docs/source/_ext/lexers.py:53-57 | returns the smallest index whose element satisfies `key`; `None` (the `IndexError`) exactly when no element does |
| LexerRules.GetIndex | docs/source/_ext/lexers.py:60-64 | the key holds for a rule with an item `n` exactly when that item equals the object, and never for a shorter rule |
| LexerRules.InsertPoint | docs/source/_ext/lexers.py:198-201 | where `list.insert(i, x)` puts `x`: `i` itself when in range, counted from the end when negative, clamped otherwise |
| LexerRules.RuleList.Insert | docs/source/_ext/lexers.py:198-201 | `list.insert`: the new list is the old one with `x` spliced in at the insertion point |
| LexerRules.RuleList.Append | docs/source/_ext/lexers.py:299-301 | `list.append`: the old list followed by `x` |
| LexerRules.RuleList.SetItem | docs/source/_ext/lexers.py:302-304 | `list[i] = x`: only slot `i` (counted from the end when negative) changes; an out-of-range index raises and changes nothing |
| LexerRules.InsertBeforeFirstName | docs/source/_ext/lexers.py:198-201 | the rule lands immediately before the first rule whose action is `Name`: the list grows by one, earlier rules are unchanged, later ones shift up by one; with no `Name` rule nothing changes (the `IndexError`); the same edit is made at lines 277-280 |
| LexerRules.ReplaceFirstPseudoBuiltin | docs/source/_ext/lexers.py:302-304 | the first `Name.Builtin.Pseudo` rule is replaced; the length and every other slot are kept; with no such rule nothing changes |
| Rename.ReplaceInFile | rename.py:89-115 | counts at most 1, and 1 exactly when the file is readable and contains `old`; an unreadable file, a file without `old` or a dry run leaves the content unchanged |
| Rename.ReplaceInFileWrites | rename.py:109-115 | a real run writes the text cut at the left-to-right, non-overlapping occurrences of `old` (no piece contains it, at least two pieces) and glued back with `new`; gluing with `old` gives back the original |
| Rename.UpdateProjectName | rename.py:118-142 | the loop over a directory's entries returns exactly the entries and count of step I's specification `UpdateEntries` |
| Rename.UpdateDirectoryEntry | rename.py:128-140 | one iteration: skips an ignored entry, recurses into a directory, edits a regular file, leaves a link alone, as `UpdateEntry` states |
| Rename.UpdateEntriesAt | rename.py:128-140 | step I maps the listing entry by entry, keeping length and order |
| Rename.UpdateKeepsNames | rename.py:118-142 | step I renames nothing: every entry keeps its name |
| Rename.UpdateAtPath | rename.py:131-140 | after step I a path exists exactly when it did before; anything under an ignored path is unchanged; links are unchanged; a file not under an ignored path holds what `replace_in_file` left in it |
| Rename.UpdateDryRun | rename.py:106-107 | a dry run of step I leaves the tree unchanged and returns the count a real run returns |
| Rename.UpdateEntryDryRun | rename.py:106-107 | the same for a single entry |
| Rename.UpdateCountIsEdited | rename.py:118-142 | step I's count is the number of paths it edits (regular, readable, non-ignored files containing `old`, reached through non-ignored directories, not through links) |
| Rename.UpdateEntryCountIsEdited | rename.py:128-140 | the same for a single entry |
| Rename.EditedPathsExact | rename.py:128-140 | with distinct sibling names, a path is edited exactly when it names a readable regular file containing `old` with no ignored path on the way to it |
| Rename.EditedPathsNoDuplicates | rename.py:118-142 | with distinct sibling names, no file is counted twice |
| Rename.UpdateCountExact | rename.py:118-142 | step I's total is the number of distinct editable files |
| Rename.UpdateSameShape | rename.py:118-142 | step I keeps every name and every directory, all the way down |
| Rename.FileType | rename.py:145-152 | `" filepath"` exactly for regular files, `" directory"` exactly for directories, `""` exactly for the rest (links are not followed) |
| Rename.RenameDirectoriesAndFiles | rename.py:155-188 | the loop returns exactly step II's renames (the log of the specification `RenameEntries`) and a count equal to their number; a real run leaves the renamed tree, a dry run the tree as it was |
| Rename.RenameDirectoryEntry | rename.py:166-186 | one iteration: skips an ignored entry; handles a directory's contents first; renames the entry when its name contains `old`, adding 1 per rename, as `RenameEntry` states |
| Rename.RenameEntriesAt | rename.py:165-186 | step II maps the listing entry by entry; its renames are exactly those made under each entry |
| Rename.RenameEntryShape | rename.py:167-186 | an entry ends with its final name (every occurrence of `old` replaced when renamed); an ignored entry and everything under it are untouched; every rename lies at or below the entry, and its own rename is the last one |
| Rename.RenamePostOrder | rename.py:170-174 | post-order: with distinct sibling names no rename of an entry comes before a rename of something inside it |
| Rename.RenameEntryPostOrder | rename.py:170-186 | the same for a single entry |
| Rename.RenameLogSound | rename.py:176-179 | every logged rename is of a renamable entry (it exists, nothing on its path is ignored, its name contains `old`), keeps the parent and replaces `old` in the name |
| Rename.RenameLogComplete | rename.py:176-179 | every renamable entry is renamed that way |
| Rename.RenameLogAt | rename.py:176-186 | with distinct sibling names, step II renames exactly the renamable entries, each as described |
| Rename.RenameOnce | rename.py:165-186 | with distinct sibling names, no path is renamed twice |
| Rename.RenameEntryOnce | rename.py:170-186 | the same for a single entry |
| Rename.RenameAfterUpdate | rename.py:249-265 | step II makes the same renames in the same order on the tree step I left as on the original tree |
| Rename.RenameByOsRename | rename.py:184 | when no rename clashes with a sibling's current name, performing the logged renames one `os.rename` at a time succeeds and yields exactly step II's tree: every path is still valid when its turn comes |
| Rename.RenameEntryApply | rename.py:170-186 | the same for the renames made under one entry of a listing: the rest of the listing is left alone |
| Rename.Basename | rename.py:231 | `os.path.basename`: a suffix of the path with no `/`, preceded by `/` when shorter than the path |
| Rename.RunScript | rename.py:223-270 | `main`'s decisions and steps, as the function `Script` states |
| Rename.RunSteps | rename.py:247-265 | step I, then step II on the tree step I left, with the two counts summed |
| Rename.ScriptDecision | rename.py:230-236 | nothing happens outside a repository or when the names coincide; otherwise the new name is the one given, or the git root's last path component (a suffix of the root with no `/`, preceded in the root by `/` unless it is the whole root), and differs from the old name |
| Rename.ScriptDryRun | rename.py:243-268 | a dry run leaves the tree unchanged and reports the same total as a real run |
| Rename.ScriptRealRun | rename.py:247-270 | the total is the number of edited files plus the number of renames; no file is counted twice, no path is renamed twice, renames are in post-order, and without clashes the final tree is what the successive `os.rename` calls leave |

## Left out

- The regular-expression rule tables (`docstrings`, `comments`, `python_root`, `numbers`, `cython_root`, `cdef`, …) and pygments' `RegexLexer` engine: the tokenizer's output is an arbitrary input sequence.
- Token types outside the canonical ones: an `Other` whose name is `Name`, `Punctuation`, a level name or another name a dedicated constructor spells would be the same pygments object as that constructor, but is a different value here. Pygments creates each token object once, so its streams only hold canonical token types; the lemmas about streams do not require it.
- `LexerRules.GetIndex`: a rule tuple too short to have the item is treated as not matching, where Python would raise `IndexError`; every rule in pygments' tables has at least two items.
- `PythonLexer.tokens.copy()` is a shallow copy, so the in-place edits of the `name` list are shared with pygments' own table; this aliasing is not modelled.
- `docs/source/_ext/styles.py` beyond the four bracket colours, `docs/source/conf.py` and `tests/unit/test_version.py`: configuration and constants only.
- `int(options.pop("n_brackets", 4))`: the option is taken as an integer; parsing a string is not modelled.
- `str.isupper` is modelled for the ASCII letters only; other cased Unicode characters are not.
- Git subprocesses: `bypass` is the predicate `ignored`, and `find_git_root` is an optional root string. Their timeouts are not modelled, including the recursive calls that drop the `timeout` argument.
- `ignored` is fixed for a whole run. Step I may edit a `.gitignore` file and change what git ignores in step II; that effect is not modelled.
- `safe_scandir` swallowing `PermissionError`: an unlistable directory shows as a directory without entries. Directory scan order is the fixed order of the children sequence.
- `os.rename` while a `scandir` iterator is open: the model assumes the scan yields the entries it would have yielded without the renames.
- `Rename.RenameByOsRename`: `os.rename` onto an existing sibling name fails or overwrites. That case is excluded by the `NoClash` precondition, and `RenameAt` returns `None` for it.
- Text-mode newline translation: `open(filepath, "r")` turns `\r\n` and `\r` into `\n`, and the write puts back `\n`. `Text(t)` is the text after that translation, and a real run writes `t` with the replacement applied; that line endings may change is not modelled.
- Errors other than the ones caught: a `PermissionError` or other `OSError` from `open` or `write` in `replace_in_file`, or from `os.rename`, propagates and aborts `main` part-way through a step. The model has no aborted outcome: `Content` is readable text or `Unreadable` (a decoding error or a missing file, which are caught), and `RenameAt` fails only on a missing path or a name clash.
- Reading and writing files, `print` output and `argparse`: file contents are values, and the command-line arguments are parameters of `Script`.
