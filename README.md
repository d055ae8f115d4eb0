# GoAliases dispatcher, modelled in Dafny

GoAliases is a small command dispatcher. A copy of the program is installed
under some name. When that copy runs, it looks the name up in an alias file
and runs the command mapped to it, passing on the remaining arguments. The
environment variable `GoAliasesFile` names the alias file. The file holds
one `name=command` line per alias.

This project models the two parts of `main.go` that hold logic:

- `aliases.dfy` (module `Aliases`) models the alias loader `readAliases`.
  - A line is accepted exactly when it holds one `=`.
  - Its name and its command are the text on either side, with white space trimmed.
  - A later line overrides an earlier one with the same name.
  - When opening reports that the file does not exist, the file is created and read as empty. Any other open error is returned, whether or not the file exists.
  - The loader is the imperative method `ReadAliases`. Its loop updates a map variable one line at a time.
  - `ReadAliases` is proved equal to the pure fold `Parse`, and the properties are proved about `Parse`.
- `dispatch.dfy` (module `Dispatch`) models `main` as the pure function `Invoke`.
  - Its inputs are the variable's value, the argument vector and the state of the alias file.
  - It returns an `Outcome`: `NoAliasFile`, `ReadFailed`, `AliasNotFound` or `Run(command, args)`.
  - `ExitStatus` gives the process's exit status for an outcome. It makes the exit-status policy explicit.
  - A failed or non-zero command still ends with status 0. Only an unreadable alias file or an unknown name gives status 1.
- `text.dfy` (module `Text`) models the three Go `strings` functions the code relies on.
  - `Split` is modelled with a one-character separator, proved to round-trip with `Join`.
  - `TrimSpace` is proved idempotent.
  - `TrimPrefix` is also modelled.

The file system is a parameter of type `FileState`, which has three cases:
- `Contents(lines, scanError)`: the lines the scanner delivers, and the error it stopped on, if any.
- `Missing(createError)`: opening reports that the file does not exist (Go's `os.IsNotExist`); the error from creating it, if any.
- `Unreadable(openError)`: opening fails with any other error, whether or not the file exists (for example a permission error, or a path through a non-directory).

Where the code and a plain reading of its documentation differ, the model follows the code:
- An environment variable that is set but empty is treated like an unset one. The code tests for the empty string.
- The command is one program name, not a command line. `exec.Command` receives the whole trimmed value as the program to run, so `foo=ls -la` names a program called `ls -la`.
- The invoking name is not reduced to its base name. Only one leading `./` is removed, so `/usr/local/bin/foo` and `../foo` are looked up unchanged.
- The requirement of "exactly one `=`" is the code's test that splitting on `=` gives two pieces. Both `noequals` and `a=b=c` are rejected.

## Model

| member | source | states |
|---|---|---|
| Text.SplitPieces | main.go:75 | splitting on `=` gives one more piece than there are `=` characters, and no piece holds a `=` |
| Text.JoinSplit | main.go:75 | joining the pieces with `=` gives back the line |
| Text.SplitJoin | main.go:75 | splitting the join of `=`-free pieces gives back those pieces |
| Text.SplitOnce | main.go:75-76 | a line with exactly one `=` splits into the text before it and the text after it |
| Text.TrimLeftSpec | main.go:77 | leading trimming keeps a suffix of the input, cuts only white space, and the result does not start with white space |
| Text.TrimRightSpec | main.go:77 | trailing trimming keeps a prefix of the input, cuts only white space, and the result does not end with white space |
| Text.TrimSpaceSpec | main.go:77 | the result neither starts nor ends with white space, and it is a slice of the input with only white space cut from either end |
| Text.TrimSpaceSubset | main.go:77 | trimming introduces no character that was not in the input, so no `=` |
| Text.TrimSpaceFixed | main.go:77 | text that is already trimmed is unchanged by trimming |
| Text.TrimSpaceIdempotent | main.go:77 | trimming twice equals trimming once |
| Text.TrimPrefix | main.go:16 | when the prefix is present the input is prefix + result; otherwise the result is the input |
| Aliases.ParseLineAccepts | main.go:74-77 | a line defines an entry exactly when it holds one `=`; the name is the trimmed text before the `=` and the command the trimmed text after it |
| Aliases.ParseLineWellFormed | main.go:75-77 | the name and the command of an accepted line hold no `=` and have no surrounding white space |
| Aliases.ReadAliases | main.go:55-86 | the loop builds exactly the fold `Parse` of the lines; a missing file gives the empty map and becomes an empty file; open, create and scan errors are returned as errors |
| Aliases.LastDefinition | main.go:73-79 | the result is the last line that defines the name, or -1 when no line defines it |
| Aliases.ParseAppend | main.go:72-79 | reading lines `a` then `b` gives the map of `a` overridden by the map of `b` |
| Aliases.StepUnion | main.go:73-79 | reading one line after two maps' entries is the same as reading it after the second map's entries, then letting those override the first map |
| Aliases.ParseSkipsRejected | main.go:75-76 | appending a line without exactly one `=` leaves the map unchanged |
| Aliases.ParseAllRejected | main.go:56-79 | lines that are all rejected, or no lines at all, give the empty map, which is the same result as a missing file |
| Aliases.ParseNames | main.go:72-79 | a name is in the map if and only if some accepted line defines it |
| Aliases.ParseLastWins | main.go:73-79 | a name's command is the command of the last line that defines it |
| Aliases.ParseWellFormed | main.go:75-77 | every name and every command in the map holds no `=` and has no surrounding white space |
| Aliases.LoadAgain | main.go:58-66 | after a successful load, loading the file system again gives the same map; the file creation happens once |
| Aliases.LoadReadable | main.go:55-86 | loading succeeds exactly for readable files, and then gives the map their lines build |
| Dispatch.InvokingName | main.go:15-16 | when `argv[0]` starts with `./` it is `./` + the name; otherwise the name is `argv[0]` |
| Dispatch.InvokingNameStripsOnce | main.go:16 | only a single leading `./` is removed: `./x` gives `x`, and `././x` gives `./x` |
| Dispatch.Message | main.go:21-36 | a line is printed exactly for the three outcomes that do not run a command |
| Dispatch.InvokeFails | main.go:27-38 | the read fails exactly when the variable is set and the file is not readable; a missing alias reports the invoking name |
| Dispatch.UnsetVariableIgnoresFile | main.go:19-23 | with the variable empty the outcome is `NoAliasFile`, whatever the file holds, and the exit status is 0 |
| Dispatch.InvokeRuns | main.go:27-41 | a command runs if and only if the variable is set, the file is readable and some line defines the invoking name; then the command is the last such line's command, it is well formed, and the arguments are exactly `argv[1..]` |
| Dispatch.ExitStatusPolicy | main.go:27-52 | the exit status is 1 exactly when the variable is set and either the file is unreadable or no line defines the name; it is 0 otherwise, including when the command fails |

## Left out

- Opening, creating and closing the file, and `bufio.Scanner`'s splitting into lines and its token-size limit, are not modelled. The file system is the `FileState` parameter, and a scanner error appears as `scanError`.
- `normalizePath` (main.go:88-99) is not modelled. It depends on the current user, path cleaning and the working directory. `FileState` is the state of the file at the already-normalised path. Only paths that start with the two characters `~\` get the home-directory expansion.
- Text.IsSpace: only Go's ASCII white space (tab, newline, vertical tab, form feed, carriage return, space) is modelled. The other Unicode white space that `strings.TrimSpace` also removes is left out.
- Strings are sequences of characters, not UTF-8 bytes. This changes nothing for splitting on the ASCII `=`.
- Dispatch.Invoke requires a non-empty argument vector. The code indexes `os.Args[0]`, which would panic on an empty one, and that panic is not modelled.
- Starting the command, wiring its standard streams, waiting for it, printing and `os.Exit` are not modelled. They appear only as the `Outcome`, the `RunResult` of the command, `Message` and `ExitStatus`.
