# The patch-apply engine of context-manager

context-manager is a desktop helper. It copies project files and a system prompt to the
clipboard for a language model. It then applies the model's reply, pasted back from the
clipboard, to the project on disk. This project models that second half, `paste_and_apply` in `main.py`,
and proves properties of the model.

The reply holds three kinds of instruction:

- `New: <path>` followed by a `Content:` code block;
- `Delete: <path>`;
- `Updated path: <path>` followed by a `Replace:` block and a `With:` block.

`paste_and_apply` scans the reply once per pattern, using Python's `finditer`. It applies every creation first,
then every deletion, then every modification, and records one line per match in a change log.
The result dialog shows that log, or says that no pattern was found. Every path goes through
`resolve_abs_path`, which searches the project roots. The text of a modification is found by
three successively looser searches.

The model has five modules:

- `Text` (`text.dfy`): the Python `str` operations the engine uses. These are `in`, `replace`,
  `strip`, `startswith`, `"\n".join`, and reading a file in text mode. `Find` and `Split` are
  reference definitions used to state `in` and `replace`.
- `Scan` (`scan.dfy`): the three regular expressions and `finditer`.
  - Each regular expression is a backtracking matcher. It tries alternatives in the order Python's
    engine does: a greedy quantifier tries the longest run first, a lazy one the shortest.
  - In an opening fence line, and after the search block of a modification, every quantifier can
    end in one place only, whatever follows it. The model computes that place directly
    (`OpeningEnd`, `WithSpan`). The same pieces are also written as backtracking matchers, with each
    continuation a named function. `OpeningIsPattern`, `WithSpanIsPattern` and `SearchCloseIsBody`
    prove that backtracking reaches the same place.
  - Each matcher finds a match exactly when its pattern is present at that position, a condition
    stated on the text alone (`PatternAt`).
  - `finditer` is the leftmost-match loop over these matchers.
- `Paths` (`paths.dfy`): `resolve_abs_path`, together with `os.path.join`, `os.path.isabs` and
  `os.path.exists`. Here the file system is seen only as a set of existing paths.
- `Files` (`files.dfy`): `create_file`, `delete_file` and `modify_file` as transitions of a file
  system value.
  - The file system is a map from file paths to their text, plus a set of directories.
  - A well-formedness invariant says four things. No path is both a file and a directory. The
    empty path names nothing. No file path ends in `/`. Every parent directory of an existing
    path exists.
- `Apply` (`apply.dfy`):
  - the change log and the result dialog;
  - the value-level specification of a whole paste, `PasteOutcome`;
  - the class `Workspace`. It holds the project roots and the disk as fields, and its methods
    update the disk in place in the order of the source's loops. Each method is proved to agree
    with the value-level specification.

## Model

| member | source | states |
|---|---|---|
| Apply.Workspace.PasteAndApply | main.py:162-216 | An empty clipboard gives the "Clipboard is empty." error and changes nothing. Otherwise the new disk and the dialog are those of applying every creation, then every deletion, then every modification, and reporting the log. Modifications use the corrected search of the finding below. The disk stays well formed. |
| Apply.Workspace.ApplyEach | main.py:186-211 | One loop of `paste_and_apply`. Applying the matches `ms` one by one, after the matches `done`, leaves the disk and log that applying `done + ms` from the start gives. |
| Apply.Workspace.ApplyNext | main.py:187-211 | One turn of each loop. It adds exactly one line to the log and takes the disk one match further. |
| Apply.Workspace.ApplyOne | main.py:187-210 | Dispatches a match to the file operation it asks for. The entry names that operation, its success, and the stripped path. |
| Apply.Workspace.ResolveAbsPath | main.py:218-250 | The loop over the roots returns what the resolver specification `Resolve` gives for the current disk. |
| Apply.Workspace.CreateFile | main.py:252-263 | The success flag and the new disk are those of `CreateStep` on the old disk. |
| Apply.Workspace.DeleteFile | main.py:265-273 | The success flag and the new disk are those of `DeleteStep` on the old disk. |
| Apply.Workspace.ModifyFile | main.py:275-311 | The success flag and the new disk are those of `ModifyStep` on the old disk, which uses the corrected search. |
| Apply.ApplyMatch | main.py:186-211 | The log entry of a match names the match's operation, the outcome, and the captured path stripped. A failed deletion or modification leaves the file system as it was. |
| Apply.ApplyAll | main.py:186-211 | Applying a sequence of matches yields exactly one log entry per match. |
| Apply.ApplyAllLog | main.py:186-211 | Entry k of the log names the operation and the stripped path of match k. |
| Apply.ApplyAllPreservesWf | main.py:186-211 | Applying any sequence of matches keeps the file system well formed. |
| Apply.PasteLog | main.py:185-211 | The log of a paste has one line per match. The lines for the creations come first, then the deletions, then the modifications, each in the order `finditer` found them, each naming its stripped path. |
| Apply.PasteReport | main.py:213-216 | For a non-empty clipboard, the dialog says "No valid patterns found in clipboard content." exactly when none of the three patterns is present at any position of the text. |
| Apply.Report | main.py:213-216 | The report is the no-pattern message exactly when the log is empty. Otherwise it starts with the first log line. When no path holds a newline, splitting the report at its newlines gives back the log lines, one per entry and in order. |
| Apply.Message | main.py:190-211 | A log line ends with the path. It starts with "Failed to " exactly when the operation failed. It never starts like the no-pattern message. It holds a newline only if the path does. Different entries never give the same line (`MessageNamesEntry`). |
| Apply.Verb | main.py:190-211 | The words opening a log line start with "Failed to " exactly for a failure, never start with an `N`, and hold no newline. |
| Apply.MessageNamesEntry | main.py:190-211 | Two log lines are equal exactly when their entries are: a line determines its operation, whether it succeeded, and its path. |
| Apply.PasteOutcome | main.py:162-216 | An empty clipboard, and only an empty clipboard, gives the error dialog "Clipboard is empty.", and it leaves the disk alone. For a non-empty clipboard the dialog shows the no-pattern message exactly when no scan matched. A well-formed disk stays well formed. |
| Apply.PasteDialogLines | main.py:185-216 | When something matched, each line of the result dialog is one log line, in the order the matches were applied. |
| Apply.AllMatchesSingleLine | main.py:170-183 | No path that a scan captures holds a newline. |
| Apply.Workspace.Exists | main.py:223 | `os.path.exists` holds exactly for the files and directories on the disk. |
| Paths.Normalize | main.py:220 | The normalised path is as long as the stripped input. It holds no backslash and has no whitespace at either end. |
| Paths.Join | main.py:232 | An absolute second part replaces the first. Otherwise it is appended after the first, and a separator is added exactly when the first part is non-empty and does not already end in `/`: joining to the root `/` gives `/x`, not `//x`. Joining to an absolute root gives an absolute path. |
| Paths.ScanRoots | main.py:228-239 | The loop over the roots answers at the first root where the joined path exists or which prefixes the path. It answers nothing exactly when no root does either. |
| Paths.Locate | main.py:222-250 | An existing absolute path is returned as is. Nothing is returned exactly when there are no roots and the path is not an existing absolute one. |
| Paths.Resolve | main.py:218-250 | An existing absolute path, once normalised, is returned as is. Nothing is returned exactly when there are no roots and the normalised path is not an existing absolute one. With absolute roots every answer is absolute. |
| Paths.LocateCases | main.py:222-250 | Lists every way the resolver can answer, in the order it tries them: an existing absolute path; the answer of the first root that settles the search; the absolute path, or the path under the first root, when no root does; nothing without roots. |
| Paths.LocateShape | main.py:222-250 | With absolute roots, the answer is the path itself, or a relative path joined to one of the roots. |
| Paths.LocateAbsolute | main.py:218-250 | With absolute roots, every resolved path is absolute. |
| Paths.LocateRelative | main.py:228-248 | With absolute roots, a relative path resolves under the first root where it exists. Only if it exists under no root does it resolve under the first root. |
| Paths.LocateAbsolutePath | main.py:223-245 | An absolute path is kept as it is whenever it exists, or whenever there is a root to fall back on. |
| Paths.LocateNormal | main.py:218-250 | With absolute roots free of backslashes, a resolved normal-form path is again in normal form. |
| Paths.ResolveFixpoint | main.py:218-250 | Resolving a path the resolver has produced gives that path back. |
| Paths.ResolveFirstRootWins | main.py:228-234 | A relative path that exists under the first root is taken from there, whatever later roots hold. |
| Paths.NormalizeBackslash | main.py:220 | Backslashes are read as separators: `src\m.py` becomes `src/m.py`. |
| Paths.ResolveBackslashFallback | main.py:242-248 | A backslashed relative path that exists under no root lands under the first root. |
| Paths.ResolveNoRoots | main.py:242-250 | With no roots, a relative path resolves to nothing, even when it exists relative to the working directory. |
| Files.ParentDirs | main.py:257 | Every directory `os.makedirs` creates for a path is a proper prefix of that path. |
| Files.CreateStep | main.py:252-263 | On success the path resolved and the file map is the old one with that path set to the content. On failure no file changes and no directory disappears. |
| Files.DeleteStep | main.py:265-273 | On success exactly the resolved file is removed and the directories are unchanged. On failure nothing changes. |
| Files.ModifyStep | main.py:275-311 | On success the resolved path is a file, some search tier applied to its text as read (with the corrected search), and only that file changed, to the rewritten text. On failure nothing changes. |
| Files.Rewrite | main.py:285-305 | The search succeeds exactly when one of the three tiers applies: the block as given, the block with CRLF turned into LF, or that stripped. Each tier needs a non-empty needle that occurs in the text. |
| Files.RewriteAsWritten | main.py:285-305 | The search as written: an empty block "matches" and rewrites the text by `Interleave`. |
| Files.RewriteTiers | main.py:282-305 | On text read in text mode, each tier replaces every occurrence of its needle, stated as split-and-join. The CRLF normalisation of the text changes nothing. |
| Files.RewriteBySelf | main.py:285-289 | Replacing a block that occurs by itself leaves the text as it was. |
| Files.RewriteAgrees | main.py:285-305 | When the stripped block is non-empty, the guarded search and the search as written give the same result. |
| Files.EmptySearchInterleaves | main.py:301-305 | On "ab" with replacement "X", the search as written turns the text into "XaXbX" for an empty block or for a single space. The guarded search fails for both. |
| Files.CreateRoundTrip | main.py:252-260 | After a successful creation, the file holds exactly the content written. Every other file is as it was. The existing paths grow by the file and its parents only. |
| Files.CreateOverwrites | main.py:257-259 | On a well-formed disk, creating an existing absolute file always succeeds. It overwrites the file and adds no directory. |
| Files.CreateFailure | main.py:252-263 | A failed creation changes no file. At most it leaves behind the parent directories of the target. |
| Files.DeleteSucceedsIff | main.py:265-273 | On a well-formed disk, a deletion succeeds exactly when the path resolves to a regular file. Then exactly that path stops existing. |
| Files.ModifySucceedsIff | main.py:275-311 | On a well-formed disk, a modification succeeds exactly when the path resolves to a regular file whose text some tier of the corrected search applies to. |
| Files.CreatePreservesWf | main.py:252-263 | A creation keeps the file system well formed. |
| Files.DeletePreservesWf | main.py:265-273 | A deletion keeps the file system well formed. |
| Files.ModifyPreservesWf | main.py:275-311 | A modification keeps the file system well formed. |
| Scan.NewFileAt | main.py:177-180 | A `New:` match at a position starts there and ends within the text. Its header is `New:`, whitespace, the path line, whitespace and a newline, and its path is exactly that line. Its content runs from where the `Content:` opening line ends (`OpeningEnd`) to the first fence after that, and the match ends right after that fence. Conversely there is a match exactly when such a header, a `Content:` opening line and a later fence are in the text (`NewFileHolds`). |
| Scan.NewFileRest | main.py:179 | After a `New:` header, the content block starts where the `Content:` opening line ends and runs to the first fence; the match ends after that fence and holds no fence in its content. There is a match exactly when the opening line is there and a fence follows it. |
| Scan.NewFileFoundExample | main.py:177-180 | The `New:` pattern is found in the reply "New: a", "Content:", a fence line and "xy" followed by a fence. |
| Scan.DeleteFoundExample | main.py:183 | On "Delete:", two spaces, a newline and "x", the greedy whitespace also takes the newline, so the match is found and its path is "x". |
| Scan.HeaderPathStrip | main.py:177-187 | For a header that ends at a given place, every span the header allows for the path gives the same stripped path: the stripped text between the keyword and the header's newline. |
| Scan.NewFileGroupsExample | main.py:177-180 | On the reply "New: a", "Content:", a fence line and "xy" followed by a fence, every match the contract allows has content "xy" and ends at the end of the text. |
| Scan.DeleteAt | main.py:183 | A `Delete:` match at a position starts there and ends within the text. Its path starts where the greedy whitespace after `Delete:` leaves a non-newline character, no later end of that whitespace would, and the path runs to the end of its line. Conversely there is a match exactly when `Delete:` is followed by whitespace and a character other than a newline (`DeleteHolds`). |
| Scan.DeletePath | main.py:183 | The greedy `[^\n]+` captures the rest of the line. It matches exactly when the line is not empty. |
| Scan.ModifyAt | main.py:170-173 | An `Updated path:` match at a position starts there and ends within the text. Its header is `Updated path:`, whitespace, the path line, whitespace and a newline, and its path is exactly that line. Its search block starts where the `Replace:` opening line ends and closes at the first fence after which the rest of the pattern matches. Its replacement block runs to the first fence after it starts, and the match ends right after that fence. Conversely there is a match exactly when such a header is followed by a `Replace:` opening line and a search block that closes (`ModifyHolds`). |
| Scan.ModifyRest | main.py:172-173 | After an `Updated path:` header, the search block starts where the `Replace:` opening line ends, and the replacement block holds no fence. There is a match exactly when the opening line is there and the search block closes. |
| Scan.ModifySearch | main.py:172-173 | From the start of the search block, the match carries the search text up to its closing fence and the replacement block after it. |
| Scan.Header | main.py:171 | A header match is the keyword, whitespace, a non-empty line for the path, whitespace and a newline. When it fails, the rest of the pattern fails after every such header. |
| Scan.HeaderPath | main.py:171-177 | The path group is a non-empty line, followed by whitespace and a newline. When the match fails, the rest of the pattern fails after every such path line. |
| Scan.HeaderEnd | main.py:171-177 | The `\s*\n` closing a header ends at a newline reached through whitespace. When it fails, the rest of the pattern fails after every such newline. |
| Scan.Lit | main.py:171-183 | A literal piece of a pattern matches only where its text occurs, and hands its continuation the position right after it. |
| Scan.TagNewline | main.py:172-179 | The fence tag `(?:\w+)?\n` found directly ends right after the newline that closes the whole run of word characters. |
| Scan.NewFileBody | main.py:179 | The `Content:` block is captured up to the first fence after its start, holds no fence, and the match ends after that fence. It fails only when no fence follows. |
| Scan.Star | main.py:171-183 | A greedy `c*` hands its continuation a position after a run of `c` characters. |
| Scan.StarFails | main.py:171-183 | A greedy `c*` fails exactly when its continuation fails after every run of `c` characters. |
| Scan.Plus | main.py:171-183 | A greedy `c+` hands its continuation a position after a non-empty run of `c` characters. |
| Scan.PlusFails | main.py:171-183 | A greedy `c+` fails exactly when its continuation fails after every non-empty run of `c` characters. |
| Scan.Body | main.py:172-179 | A lazily captured block ends at the first closing fence after which the continuation succeeds, and the continuation gets control right after that fence. When the continuation succeeds after no fence, there is no match. |
| Scan.BodyFirstFence | main.py:173 | A lazy block that nothing can make fail closes at the first fence. |
| Scan.Opening | main.py:172-173 | The backtracking form of an introducer and its opening fence line matches only where the introducer occurs. |
| Scan.Fenceline | main.py:172-173 | An opening fence line starts with a newline and a backquote. |
| Scan.OpeningEnd | main.py:172-179 | An introducer line and fence line found directly start with the introducer, and the block after them starts right after a newline. |
| Scan.FenceTag | main.py:172-179 | A fence and its tag found directly end right after a newline. |
| Scan.SpacesFence | main.py:172-179 | The whitespace, newline and fence line found directly end right after a newline, past where they start. |
| Scan.TagAt | main.py:172-179 | The backtracking `(?:\w+)?\n` ends where the direct computation says: the tag is the whole run of word characters. |
| Scan.SearchEndStep | main.py:172-173 | A search block that cannot close at a position closes where the one starting one character later does. |
| Scan.FencelineAt | main.py:172-179 | After a newline, the backtracking fence line ends where the direct computation says: the tag is the whole run of word characters. |
| Scan.SpacesFenceline | main.py:172-179 | The whitespace before a fence line ends at one place only, where the direct computation says. |
| Scan.OpeningSpaces | main.py:172-179 | Where the introducer occurs, the backtracking opening line ends where the whitespace and fence line after the introducer end, computed directly. |
| Scan.OpeningIsPattern | main.py:172-179 | The backtracking form of an opening line reaches exactly the place `OpeningEnd` computes, whatever follows it. |
| Scan.StarSpacesNewline | main.py:171-179 | When everything after `\s*` starts with a newline followed by a non-space, greedy backtracking can end `\s*` at one place only. That place is just before the last character of the whitespace run, and that character must be the newline. |
| Scan.StarWordNewline | main.py:172-179 | When everything after `(?:\w+)?` starts with a newline, the tag is the whole run of word characters. |
| Scan.SpacesNewline | main.py:172-179 | `\s*` followed by a newline, before a non-space, ends at the end of the whitespace run, and the run's last character is that newline. |
| Scan.WithSpan | main.py:172-173 | The part of the pattern after the search block places the replacement block after it, and that block ends at the first fence after it starts. |
| Scan.WithOpenAt | main.py:173 | After the `With:` introducer, the backtracking form gives the replacement block from where the opening line ends to the first fence. |
| Scan.WithLineAt | main.py:172-173 | What follows the whitespace after the search block, when it matches, starts with a newline and `W`. |
| Scan.WithLineStarts | main.py:172-173 | What follows that whitespace, when it matches, starts with a newline and a non-space. |
| Scan.WithSpanIsPattern | main.py:172-173 | The backtracking form of the part after the search block finds exactly the spans `WithSpan` computes. |
| Scan.SearchClose | main.py:172-173 | The search block closes at the first fence after which the rest of the pattern matches. |
| Scan.SearchCloseIsBody | main.py:172-173 | The direct search for the closing fence equals the lazy block followed by the backtracking form of the rest. |
| Scan.SearchCloseNone | main.py:172-173 | When the search block closes nowhere, the rest of the pattern matches after no fence. |
| Scan.MatchAt | main.py:170-183 | Whatever pattern matches at a position starts there, ends after it, and has that pattern's shape. |
| Scan.MatchAtIff | main.py:170-183 | There is a match at a position exactly when the pattern is present there, a condition on the text alone (`PatternAt`). |
| Scan.FindAll | main.py:186 | The `finditer` loop reports only genuine matches. They appear in increasing order, without overlap. |
| Scan.FindAllHead | main.py:186 | No match starts before the first one reported, and none starts at all when none is reported. |
| Scan.FindAllGaps | main.py:186 | No match starts between two consecutive reported matches. |
| Scan.FindAllTail | main.py:186 | No match starts after the last reported match. |
| Scan.Matches | main.py:186-203 | Every match of a scan lies within the text and has its pattern's shape. The matches are ordered and do not overlap. |
| Scan.MatchesAreFinditer | main.py:186-203 | Each reported match is the one the pattern finds at its start. No match starts before the first, between two consecutive ones, or after the last; by `MatchAtIff` the pattern is present at none of those positions. |
| Scan.MatchesHead | main.py:186-203 | The pattern is present at no position before the first reported match, nor anywhere when none is reported. |
| Scan.MatchesEmptyIff | main.py:186-203 | A scan reports nothing exactly when its pattern is present at no position of the text. |
| Text.ContainsIff | main.py:285 | `pat in s` holds exactly when `pat` occurs in `s` at some index. |
| Text.ReplaceIsSplitJoin | main.py:286 | `s.replace(pat, rep)` equals `rep.join(s.split(pat))`: every occurrence is replaced and nothing else changes. |
| Text.SplitJoinRoundTrip | main.py:286 | Splitting on a separator and joining with it gives back the original text. |
| Text.ReplaceMiss | main.py:286 | Replacing a needle that does not occur leaves the text as it is. |
| Text.ReplaceBySelf | main.py:286 | Replacing a needle by itself leaves the text as it is. |
| Text.Replace | main.py:286 | With a non-empty needle, a replacement no longer than the needle never lengthens the text, and a longer one never shortens it. An empty needle adds the replacement one more time than the text has characters. |
| Text.Interleave | main.py:286 | `s.replace("", rep)` has the length of `s` plus one more copy of `rep` than `s` has characters. What fills the gaps and where the characters sit are `InterleaveGaps` and `InterleaveOrder`. |
| Text.InterleaveGaps | main.py:286 | In `s.replace("", rep)` the gap before each character of `s`, and the gap after the last one, hold exactly `rep`. |
| Text.InterleaveOrder | main.py:286 | In `s.replace("", rep)`, character `k` of `s` sits right after its `k + 1`-th copy of `rep`, so the characters keep their order. |
| Text.NormalizeCrlf | main.py:291-292 | Turning CRLF into LF never lengthens the text, and it leaves text without CRLF as it is. |
| Text.JoinSplitRoundTrip | main.py:216 | Joining lines that hold no newline and splitting the result at its newlines gives the lines back. |
| Text.StripKeepsOut | main.py:187 | Stripping adds no character. |
| Text.SecondPassCanMatch | main.py:286 | A replacement that does not contain the needle can still create a new occurrence of it. |
| Text.Strip | main.py:187 | The stripped text occurs in the original with only whitespace around it. It neither starts nor ends with whitespace. |
| Text.StripTrimmed | main.py:220 | Text with no whitespace at either end is left alone by `strip`. |
| Text.StripUnique | main.py:187 | A piece of the text with only whitespace around it, and none at its own ends, is what `strip` leaves. |
| Text.StripSurrounded | main.py:187 | Whitespace around a text does not change what `strip` leaves of it. |
| Text.StripIdempotent | main.py:187 | Stripping twice is stripping once. |
| Text.StripPadded | main.py:187 | Padding around a captured name is removed: " x.txt\n" becomes "x.txt". |
| Text.ReplaceChar | main.py:220 | Replacing one character by another rewrites the text position by position and keeps its length. |
| Text.TextRead | main.py:282-283 | Text read in text mode holds no carriage return and is no longer than what is stored. It is the stored text exactly when that holds no carriage return. Which newline each carriage return becomes is `TextReadIsTranslation`. |
| Text.TextReadIsTranslation | main.py:282-283 | Reading in text mode turns every `\r\n` into `\n`, then every remaining lone `\r` into `\n`, and keeps every other character. |
| Text.NormalizeAfterRead | main.py:291-292 | Text read in text mode has no CRLF left for the normalisation to remove. |

Members without a row are helpers. The continuations and smaller pieces of the three regular expressions are covered by the rows of the whole pattern they belong to. Predicates with no contract of their own are stated through the rows whose contracts use them: `Paths.IsAbs` is `os.path.isabs` (main.py:223, 244), used by `Paths.Join`, `Paths.Locate` and `Paths.LocateAbsolute`.

## Left out

- The Qt user interface is not modelled. This covers the tree of roots, the buttons and the status bar.
  The roots are a `seq<string>` field fixed at construction.
- The clipboard is not modelled. Its text is the parameter `response`.
- `QMessageBox` and `show_error` are not modelled. They become the returned `Dialog` value.
- `print` calls are not modelled. They have no effect on the state.
- Permission errors, encoding errors, disk-full errors and other I/O failures are left out, because they depend on
  the operating system. The only failures modelled are the ones the file system value determines:
  - `os.makedirs` below a regular file;
  - `os.makedirs` for a path without a directory part;
  - `open` for writing on a directory or on a path ending in `/`;
  - `os.remove` or `open` for reading on a directory.
- Path canonicalisation is left out: symbolic links, `.` and `..`, repeated or trailing separators. The file
  system compares paths literally. The resolver assumes the roots are absolute, as a folder picker yields them.
- The word class `\w` covers ASCII letters, digits and `_` only. Python's `\w` on `str` also covers other
  Unicode letters and digits. The class is used only in the optional language tag of a code fence.
  A fence whose tag holds such a character, such as "```ü", opens a block for Python but not for the model.
  So a `New:` or `Updated path:` match through such a fence is found by Python and missed by the model.
  Python also skips past that match, and a search block may close at such a fence in Python but not in
  the model. Either way the later matches of that scan, or the search and replacement groups, can differ too.
- A search block may itself contain a fence. The lazy `.*?` stops at the first fence after which the rest of the pattern
  matches, exactly as Python's engine does, so `FenceFree` is proved for new-file content and
  replacement blocks but not for search blocks.
- The three scans are independent `finditer` runs over the whole reply. A `Delete:` line is matched anywhere, even
  inside a code block. Each `Updated path:` match carries exactly one search block and one replacement block.
  Text read in text mode has every `\r\n` and lone `\r` turned into `\n`.
- ApplyAll: its own contract states only the length of the log; what each entry says is proved in
  `Apply.ApplyAllLog`, and that the disk stays well formed in `Apply.ApplyAllPreservesWf`. It also
  inherits the corrected search from `Files.ModifyStep`.
- Apply.ApplyMatch: inherits the corrected search from `Files.ModifyStep` for a modification.
- Apply.PasteOutcome: inherits the corrected search from `Files.ModifyStep`, as every member built on it does.
- Apply.Workspace.ApplyOne: inherits the corrected search from `Files.ModifyStep`.
- Apply.Workspace.ApplyNext: inherits the corrected search from `Files.ModifyStep`.
- Apply.Workspace.ApplyEach: inherits the corrected search from `Files.ModifyStep`.
- Normalize: its own contract states the length and the absence of backslashes; the position-by-position effect of
  the backslash replacement is proved in `Text.ReplaceChar`, and a concrete case in `Paths.NormalizeBackslash`.
- Files.ModifyStep: uses the corrected search of the finding below (`Files.Rewrite`). A search block that is
  empty, or only whitespace that tiers 1 and 2 miss, makes the modification fail and leaves the file as it is.
  main.py:285-305 instead rewrites the file with the replacement between every two characters
  (`Files.RewriteAsWritten`).
- Apply.Workspace.ModifyFile: inherits the corrected search from `Files.ModifyStep`. It differs from main.py:275-311
  only for the empty or whitespace-only search blocks of the finding below.
- Apply.Workspace.PasteAndApply: inherits the corrected search from `Files.ModifyStep`. Its result differs from
  main.py:162-216 only when a modification's search block is empty or whitespace that tiers 1 and 2 miss.
- Files.ModifySucceedsIff: states when the corrected search succeeds. For the empty or whitespace-only search
  blocks of the finding below, main.py:285-305 succeeds where this lemma says the modification fails.
- Files.Rewrite: its contract states when the search succeeds, not the rewritten text; the rewritten text
  is given as split-and-join in `Files.RewriteTiers`.

## Findings

| source | as written | input that shows it | evidently intended | confidence | as-written member | corrected member |
|---|---|---|---|---|---|---|
| main.py:285-305 | No search tier checks that its needle is non-empty, and `"" in content` always holds. An empty search block, or one of only whitespace that tiers 1 and 2 miss, reaches a `replace` with an empty needle. That inserts the replacement between every two characters of the file. | File text "ab", search block "" or " ", replacement "X": the file becomes "XaXbX" (lemma `Files.EmptySearchInterleaves`). | The modification fails and the file is left alone. | not executed | Files.RewriteAsWritten | Files.Rewrite |
