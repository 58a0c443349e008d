# rustfilelooper, modelled in Dafny

`rustfilelooper` is a small command-line tool that works on the names in the
current directory. With no options it lists them. With `--nameloop` it
strips each name's extension and looks for the longest substring common to
all stems. With `--remove=X`, or with `--remove` and `--nameloop` together,
it removes a substring from every name that contains it, by renaming the
files.

This project models the tool's logic, all of it in `src/main.rs`:

- `extension.dfy` (module `Extension`): `remove_extension`, the last-dot rule
  of `Path::file_stem` for a name without path separators.
- `strings.dfy` (module `Strings`): `str::contains` as the predicate
  `Contains`.
- `lcs.dfy` (module `Lcs`): `longest_common_substring`. It is a method with
  the source's two nested loops: lengths from longest to shortest, then
  start offsets from left to right, with an early return. It is proved
  against `LcsSpec`, a declarative statement of the answer: common to all
  names, nothing longer common, leftmost among equals, `None` when no
  non-empty string is common. This statement admits at most one answer
  (`LcsSpecUnique`), and the search always produces one.
- `replace.dfy` (module `Replace`): `str::replace(target, "")`. `Split` cuts a
  name into the pieces between the leftmost non-overlapping occurrences of
  the target, and `RemoveAll` concatenates the pieces. Putting the target
  back between the pieces gives back the name (`JoinSplit`). No occurrence
  starts inside a piece (`SplitLeftmost`).
- `renamer.dfy` (module `Renamer`): the loop of `remove_string_from_filenames`.
  It produces one report per rename attempt, in listing order. Whether an
  attempt succeeds is an input.
- `cli.dfy` (module `Cli`): the branches of `main`. `Dispatch` is the table
  from the flag, the `--remove` argument and the search's answer to the
  actions taken. `Run` follows `main` statement by statement and is proved
  to take exactly those actions. It calls the renamer only with a non-empty
  target. Two behaviours of `main` the model keeps as written:
  - An explicit `--remove=X` together with `--nameloop` is ignored, whether
    or not a common substring is found (src/main.rs:27, 37).
  - `--remove=` without `--nameloop` does nothing, because the renamer is
    not called at all (src/main.rs:37).
- `optional.dfy`: the `Option` type.

## Model

| member | source | states |
|---|---|---|
| `Extension.LastIndexOf` | src/main.rs:74-80 | the index found holds the character and no later index does; `None` exactly when the character is absent |
| `Extension.SplitExtension` | src/main.rs:74-80 | stem + "." + extension rebuilds the name, with a non-empty stem and no dot in the extension; there is no extension exactly when no dot appears after position 0 |
| `Extension.RemoveExtension` | src/main.rs:74-80 | the stem is a prefix of the name. If shorter, it is cut at a dot that is not the first character and that has no dot after it. The name is unchanged exactly when it has no dot past position 0 |
| `Strings.Contains` | src/main.rs:92 | a contained string is no longer than the name, and the empty string is contained in every name |
| `Lcs.SlicesBoundCommon` | src/main.rs:89-96 | if no slice of the first name longer than n is common to all names, then no string longer than n is |
| `Lcs.LongestCommonSubstring` | src/main.rs:83-98 | the answer meets `LcsSpec`: `None` for an empty listing; otherwise either no non-empty string is common, or the answer is the leftmost longest slice of the first name that every name contains |
| `Lcs.LeftmostLongestUnique` | src/main.rs:89-92 | two slices that are both leftmost-longest common slices have the same start and length |
| `Lcs.LcsStart` | src/main.rs:87-93 | a `Some` answer t is the slice of the first name at some start with start + len(t) within the name. It is common to all names and is the leftmost-longest such slice |
| `Lcs.LcsSpecUnique` | src/main.rs:89-97 | at most one answer meets the specification, so the tie-break to the leftmost candidate fixes the result |
| `Lcs.LcsNoneIff` | src/main.rs:84-97 | the answer is `None` exactly when the listing is empty or no non-empty string is common to all names |
| `Lcs.LcsSomeIsLongestCommon` | src/main.rs:89-93 | a `Some` answer is non-empty, contained in every name, and at least as long as every common string |
| `Lcs.LcsEmptyName` | src/main.rs:89-97 | a listing that contains an empty name has answer `None` |
| `Lcs.LcsSingleName` | src/main.rs:87-93 | a single non-empty name is its own answer |
| `Replace.Split` | src/main.rs:104 | the scan always yields at least one piece; `JoinSplit` and `SplitLeftmost` pin the pieces down as the text between the leftmost non-overlapping occurrences |
| `Replace.RemoveAll` | src/main.rs:104 | the new name is shorter by the target's length times the number of occurrences removed; its content is fixed by `Split`, as `JoinSplit` and `SplitLeftmost` state |
| `Replace.JoinSplit` | src/main.rs:104 | putting the target back between the pieces the scan leaves gives back the original name |
| `Replace.SplitLeftmost` | src/main.rs:104 | no occurrence of the target starts inside a piece: the scan removes the leftmost non-overlapping occurrences |
| `Replace.ContainsIffOccurrences` | src/main.rs:103-104 | a name contains the target exactly when at least one occurrence is removed |
| `Replace.RemoveAllNoMatch` | src/main.rs:103-104 | a name without the target is unchanged by the removal |
| `Renamer.RenamePlan` | src/main.rs:102-104 | the (old, new) pairs the loop issues: no more entries than names (one per renamed position, by `RenamePlanSelects`); each old name is in the listing and contains the target, and its new name is the old one with the target removed. `RenamePlanSelects` adds completeness and listing order |
| `Renamer.RenamePlanSelects` | src/main.rs:102-104 | the names renamed are exactly those containing the target, in listing order; each new name is the old one with the target removed |
| `Renamer.RenamePlanShortens` | src/main.rs:103-104 | every rename removes k >= 1 occurrences and shortens the name by k times the target's length |
| `Renamer.RenamePlanAll` | src/main.rs:102-104 | when every name contains the target, every name is renamed, in listing order |
| `Renamer.RemoveStringFromFilenames` | src/main.rs:101-112 | one report per planned rename, in plan order; attempt k succeeds exactly when its outcome says so, and a failure does not stop the later attempts |
| `Cli.Dispatch` | src/main.rs:20-46 | rename with the common substring iff the flag is set, `--remove` is empty and a substring was found. Rename with the explicit target iff there is no flag and the target is non-empty; a target given with the flag renames nothing. No action twice, and at most one rename. List iff neither option is given. Print the answer iff the flag is set, and before the rename that uses it. A rename never gets an empty target when the answer is non-empty |
| `Cli.Stems` | src/main.rs:21-22 | one stem per name, in listing order, each a prefix of its name |
| `Cli.CommonRenamesEveryFile` | src/main.rs:21-29 | the common substring of the stems is contained in every full name, so the rename it triggers covers every name in listing order |
| `Cli.Run` | src/main.rs:20-46 | `main` takes exactly the actions `Dispatch` gives for the search's answer on the stems. Every rename target is non-empty, and the reports are those of the renamer for that target, or none without a rename |

## Left out

- Reading the directory (`fs::read_dir`, src/main.rs:7-15) is I/O. The listing is an input to `Cli.Run`. A failed read of the directory (`unwrap`, src/main.rs:8), fatal in the source, is not modelled.
- Entries whose own read fails are dropped silently by `entry.ok()` (src/main.rs:11), and names that are not valid UTF-8 are dropped at src/main.rs:12 (OS-string conversion). Neither is fatal. The listing holds only the names that survived.
- Argument parsing with clap (`get_cli_args`, src/main.rs:50-71) is a library wrapper. Its result is taken as the flag plus `Cli.RemoveArg`: absent, or given with a possibly empty value.
- Printing (`println!`, `eprintln!`) is terminal I/O. It becomes the `Cli.Action` entries and the `succeeded` field of a `Renamer.Report`.
- `fs::rename` is a file-system call whose effect depends on the platform, for example when the new name already exists. A rename is an entry of the plan. Whether attempt k succeeds is the input `renameSucceeds(k)`; this covers failures that depend on earlier renames.
- Strings are sequences of characters, one character per byte: names are assumed ASCII. The source slices at byte offsets (src/main.rs:91), which panics inside a multi-byte character. For ASCII names character offsets and byte offsets agree and no panic occurs.
- `Path::file_stem` beyond the last-dot rule (path separators, the entries `.` and `..`, platform conventions) is left out. A directory entry's name has no separator, and `read_dir` does not return `.` or `..`.
- `Replace.RemoveAll` requires a non-empty target. The source never calls the renamer with an empty one (`Cli.Dispatch`, `Cli.Run`), so `str::replace` with an empty pattern is not modelled.
