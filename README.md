# mare: command construction and diagnostic formatting, modelled in Dafny

This project models the deterministic core of `mare`, a small Go library
for shelling out:

- **`cmd` package** (`cmd.dfy`, module `Cmd`): how `getCmd` turns an
  `Input` (command text, working directory, shell flag, sudo flag) into the
  argument vector and working directory of an `exec.Cmd`, and how
  `RunFormatError` turns the outcome of a run into a diagnostic error text.
  The process run itself is not modelled: `RunFormatError` receives `Run`'s
  output and error as values.
- **`mare` package** (`mare.dfy`, module `Mare`): `ExpandUser` with the home
  directory passed in, and the generic helpers `Filter`, `Map`,
  `MapToString`, `FlatMap` and `Contains`, written as loops (appending to,
  or writing by index into, an output slice) and proved against functions
  that say what they compute.
- **Go's `strings` functions** that these rely on (`strings.dfy`, module
  `Strings`): `Split` on a one-character separator, `TrimSpace`, and
  `Replace` with a count of one, each with the properties the callers rely on.

`cmd/cmd.go` splits the command on single spaces, prepends a bare `sudo`,
always uses `sh` and has no environment handling; the model does the same.

## Model

| member | source | states |
|---|---|---|
| `Cmd.CommandArgv` | cmd/cmd.go:31-36 | never empty; in shell mode exactly `["sh", "-c", command]` with the command untouched; otherwise joining the pieces with `" "` gives back the command, no piece contains a space, and there is one more piece than there are spaces |
| `Cmd.Argv` | cmd/cmd.go:37-39 | never empty, so `cmdSlice[0]` is always defined; with sudo it is one longer, starts with `"sudo"` and its tail is the vector built without sudo |
| `Cmd.ExecCommand` | cmd/cmd.go:41 | the program is the first element and the arguments are exactly the rest; no working directory is set |
| `Cmd.GetCmd` | cmd/cmd.go:30-47 | the command's arguments are `Argv(input)`, its program is their first element, and a working directory is set exactly when `Pwd` is non-empty, and then to `Pwd` |
| `Cmd.DirectModeReachesSpaceFreeVectors` | cmd/cmd.go:35 | every non-empty vector of space-free arguments is the direct-mode vector of its own space-joined text (the split is onto) |
| `Cmd.SudoWrapsBuiltVector` | cmd/cmd.go:32-39 | sudo wraps the built vector in both modes; shell plus sudo is `["sudo", "sh", "-c", command]` |
| `Cmd.DirectModeExample` | cmd/cmd.go:35 | `"echo hello"` gives `["echo", "hello"]` |
| `Cmd.DoubleSpaceExample` | cmd/cmd.go:35 | `"a  b"` gives `["a", "", "b"]` |
| `Cmd.EmptyCommandExample` | cmd/cmd.go:35-41 | the empty command gives `[""]` |
| `Cmd.ErrorMessage` | cmd/cmd.go:76-86 | the message starts with `"error running command " + command` and ends with `", error: " + err` |
| `Cmd.ErrorMessageSegments` | cmd/cmd.go:76-86 | for streams that are text padded with white space, the message is the command, then `", stdout: "` and the unpadded stdout, then `", stderr: "` and the unpadded stderr, each only when non-empty, then the error, in that order |
| `Cmd.ErrorMessageBlankStreams` | cmd/cmd.go:76-86 | all-white-space stdout and stderr are omitted entirely |
| `Cmd.ErrorMessageExample` | cmd/cmd.go:76-86 | stdout `"partial\n"`, empty stderr and error `exit status 2` give `error running command make, stdout: partial, error: exit status 2` |
| `Cmd.FormatMessage` | cmd/cmd.go:76-86 | growing the text segment by segment yields `ErrorMessage` |
| `Cmd.RunFormatError` | cmd/cmd.go:70-89 | the output of the run is returned unchanged on both paths; no error in, no error out; an error is replaced by `ErrorMessage` of the command, the captured streams and the error |
| `Strings.Split` | cmd/cmd.go:35 | `strings.Split` on a one-character separator yields at least one piece |
| `Strings.JoinSplit` | cmd/cmd.go:35 | joining the pieces with the separator restores the string |
| `Strings.SplitJoin` | cmd/cmd.go:35 | splitting the join of separator-free pieces restores the pieces |
| `Strings.SplitPiecesLackSeparator` | cmd/cmd.go:35 | no piece contains the separator |
| `Strings.SplitCount` | cmd/cmd.go:35 | the number of pieces is the number of separators plus one |
| `Strings.SplitWithoutSeparator` | cmd/cmd.go:35 | a string without the separator is a single piece |
| `Strings.SplitAtSeparator` | cmd/cmd.go:35 | a separator ends the first piece and the rest is split independently |
| `Strings.AdjacentSeparatorsGiveEmptyPiece` | cmd/cmd.go:35 | two adjacent separators give an empty piece between them |
| `Strings.TrimLeft` | cmd/cmd.go:76-77 | a suffix of the input that is empty or starts with a non-space |
| `Strings.TrimRight` | cmd/cmd.go:76-77 | a prefix of the input that is empty or ends with a non-space |
| `Strings.TrimLeftDropsSpace` | cmd/cmd.go:76-77 | everything `TrimLeft` drops is white space |
| `Strings.TrimRightDropsSpace` | cmd/cmd.go:76-77 | everything `TrimRight` drops is white space |
| `Strings.TrimSpace` | cmd/cmd.go:76-77 | no longer than the input; empty or with a non-space at each end |
| `Strings.TrimLeftSkips` | cmd/cmd.go:76-77 | leading white space before a non-space is removed and nothing else |
| `Strings.TrimRightSkips` | cmd/cmd.go:76-77 | trailing white space after a non-space is removed and nothing else |
| `Strings.TrimSpaceUnique` | cmd/cmd.go:76-77 | white space, then text with non-space ends, then white space trims to exactly that text |
| `Strings.TrimSpaceDecomposes` | cmd/cmd.go:76-77 | every string is white space, then its trimmed form, then white space |
| `Strings.TrimSpaceEmptyIffAllSpace` | cmd/cmd.go:76-80 | the trimmed text is empty exactly when the input is all white space |
| `Strings.TrimSpaceIdempotent` | cmd/cmd.go:76-77 | trimming twice equals trimming once |
| `Strings.IndexOf` | mare.go:17 | None exactly when the character is absent; otherwise a position holding it with no earlier occurrence |
| `Strings.ReplaceFirst` | mare.go:17 | unchanged when the character is absent; otherwise its first occurrence is replaced and everything before and after is kept |
| `Mare.ExpandUser` | mare.go:15-18 | a path without `~` is unchanged; otherwise only the first `~` is replaced by the home directory and the rest of the path is kept |
| `Mare.ExpandUserExample` | mare.go:15-18 | `"~/a~"` with home `"/h"` becomes `"/h/a~"` |
| `Mare.Filtered` | mare.go:21-29 | never longer than the input |
| `Mare.FilteredSelects` | mare.go:21-29 | the result is the subsequence of the input at increasing positions, and a position is selected exactly when its item satisfies the predicate |
| `Mare.FilteredMembers` | mare.go:21-29 | a value is in the result exactly when it is in the input and satisfies the predicate |
| `Mare.Filter` | mare.go:21-29 | the loop that appends matching items returns `Filtered(items, f)` |
| `Mare.Map` | mare.go:32-38 | same length as the input, and item `i` of the result is `f(items[i])` |
| `Mare.MapToString` | mare.go:42-48 | same length as the input, and string `i` of the result is `f(items[i])` |
| `Mare.ConcatSnoc` | mare.go:55-56 | appending one more list to the concatenation is concatenating one more list |
| `Mare.ConcatLength` | mare.go:52-59 | the flattened length is the sum of the lengths of the lists |
| `Mare.ConcatMembers` | mare.go:52-59 | a value is in the flattened result exactly when it is in some `f(items[i])` |
| `Mare.FlatMap` | mare.go:52-59 | the loop returns `f(items[0]) + ... + f(items[n-1])` in order |
| `Mare.Contains` | mare.go:62-69 | true exactly when some position holds the item; so false on an empty slice |

## Left out

- `Run`, `RunStream` and `RunNoOutput` (cmd/cmd.go:50-67, 92-95): they spawn a process, capture its output in buffers or streams and read its exit code. These are operating-system calls. `RunFormatError` takes `Run`'s output and error as parameters instead.
- `Output.ErrStream` and `Output.OutStream`: these are live writers of a streaming run and have no value to model.
- `Cmd.ExecCommand`: `exec.Command` also looks the program up on PATH and records a lookup error. That lookup reads the file system, so the model keeps the name as given.
- `Cmd.RunFormatError`: the error is modelled as carrying the literal message. The source passes the message to `fmt.Errorf` as a format string. A `%` in the command, the output or the underlying error would therefore be rewritten by Go's formatting. The model covers only texts without `%`.
- `Strings.TrimSpace`: Go trims UTF-8 bytes. Here strings are sequences of Unicode scalar values, so byte strings that are not valid UTF-8 are not covered. The white-space set is the one Go's `unicode.IsSpace` uses.
- `Strings.ReplaceFirst`: covers only `strings.Replace` with a one-character pattern and a count of one, which is the only way the source calls it.
- `Mare.ExpandUser`: the home directory is a parameter. The source reads it from the HOME environment variable.
- `Mare.Filter`, `Mare.Map`, `Mare.MapToString`, `Mare.FlatMap`: the function argument is a pure total Dafny function. A Go callback could have side effects or panic.
- `Mare.Map`: the element type must have a default value (`T(0)`), because the preallocated buffer is a Dafny array. Go's `make` works for every element type, so element types without a default, such as non-null class types, are not covered.
- `EnsureDir` (dir.go:6-22): it stats and creates directories, which is file-system I/O.
- Environment overrides and `PATH` merging: cmd/cmd_test.go tests a `getEnv` function and an `Input.Env` field, but cmd/cmd.go defines neither. The model has nothing to follow there. Quote-aware splitting and `sudo -E` are also absent from cmd/cmd.go, so they are not modelled either.
