# basename, modelled in Dafny

This project models the `basename` utility of uutils coreutils
(`src/uu/basename/src/basename.rs`). The utility prints each NAME with its
leading directory components removed and, optionally, with a trailing SUFFIX
removed. The model covers three parts:

- `strip_suffix`: removal of a suffix. A name equal to the suffix is kept whole.
- `basename`: trailing separators are trimmed. Then the last path component
  is taken, as Rust's `Path::components()` reads it on Unix, and its suffix is
  stripped.
- `uumain`, after option parsing: the operand checks (missing operand, extra
  operand), the choice of suffix and of the names to print, the line ending
  (`-z`), and the exit status.

Files:

- `wrappers.dfy`: `Option` and `Result`.
- `unix_path.dfy` (module `UnixPath`): separator-split segments. It has two
  readings of a Unix path:
  - `Components`, front to back, the way `Path::components()` is documented;
  - `LastComponent`, back to front, which `basename` uses.
  
  `LastComponentIsLast` proves the two agree.
- `basename.dfy` (module `BasenameUtil`): `StripSuffix`,
  `TrimTrailingSeparators`, `Basename`, and the command model `Run`.

Modelling decisions:

- Strings are sequences of characters. The source works on UTF-8 `&str`. Its
  `ends_with` test and the slice `name[..len - suffix.len()]` always cut at a
  character boundary, because the suffix is itself valid UTF-8. So comparing
  and cutting by characters gives the same strings.
- The separator is `/`, as `is_separator` is on Unix.
- `Path::components()` on Unix works like this:
  - a leading `/` is a root component;
  - repeated separators count as one;
  - `.` is kept only as the first component of a relative path;
  - `..` is a parent component;
  - every other segment is a normal component.
- `Run` returns, for each name, the record `print!` writes: the basename
  followed by the line ending. A usage error is returned as an `Err` value.
  `ExitStatus` maps that to status 1 and success to status 0.

Behaviour kept exactly as the code has it:

- The argument `/` (or `//`, and so on) prints an empty line, because trimming
  removes every character before the components are read.
- `/.` prints `/`, because the root is then the last component left.
- So `Basename` is not idempotent on the name `/`. `RootNotIdempotent` states
  both cases. `BasenameIdempotent` proves idempotence for every other result.

## Model

| member | source | states |
|---|---|---|
| `BasenameUtil.StripSuffix` | src/uu/basename/src/basename.rs:115-125 | The result is a prefix of the name. If the name equals the suffix, the name comes back whole. If the name properly ends with the suffix, the result followed by the suffix is the name. Otherwise the name is unchanged. The empty suffix changes nothing, and a non-empty name never becomes empty. |
| `BasenameUtil.TrimTrailingSeparators` | src/uu/basename/src/basename.rs:96-104 | The result is a prefix of the input that does not end in `/`, and every character removed was a `/`. |
| `BasenameUtil.Basename` | src/uu/basename/src/basename.rs:95-112 | The printed name contains a `/` only when it is exactly `/`. Every character of it comes from the argument. |
| `BasenameUtil.EmptyExactlyForSeparators` | src/uu/basename/src/basename.rs:96-111 | The result is empty if and only if the argument is empty or made only of `/`. |
| `BasenameUtil.TrailingSeparatorsIgnored` | src/uu/basename/src/basename.rs:96-104 | Appending any number of `/` to an argument does not change its basename. |
| `BasenameUtil.TrimIgnoresAppendedSeparators` | src/uu/basename/src/basename.rs:96-104 | Trimming `p` followed by any number of `/` gives the same path as trimming `p`. |
| `BasenameUtil.WholeNameWithoutSeparator` | src/uu/basename/src/basename.rs:107-109 | A non-empty argument without `/` is its own last component, so only the suffix is removed. |
| `BasenameUtil.LeadingDirectoriesRemoved` | src/uu/basename/src/basename.rs:107-109 | For `dir/name`, where `name` is neither empty nor `.`, the result is `name` with the suffix stripped, whatever `dir` is. |
| `BasenameUtil.LastComponentOfTrimmed` | src/uu/basename/src/basename.rs:96-108 | When trimming leaves something, the last component of the trimmed path is the last component of the untrimmed one. |
| `BasenameUtil.InteriorDotIgnored` | src/uu/basename/src/basename.rs:107-109 | For a directory that is not all `/`, appending `/.` does not change the basename. |
| `BasenameUtil.RootBeforeDot` | src/uu/basename/src/basename.rs:107-109 | One or more `/` followed by `.` gives `/`, the root component, whatever the suffix. |
| `BasenameUtil.SuffixAppliesToLastComponent` | src/uu/basename/src/basename.rs:108-109 | The suffix is stripped from the last component only: the result is the unsuffixed basename with the suffix stripped. |
| `BasenameUtil.BasenameIdempotent` | src/uu/basename/src/basename.rs:95-112 | Without a suffix, taking the basename of a basename changes nothing, except when the result is `/`. |
| `BasenameUtil.RootNotIdempotent` | src/uu/basename/src/basename.rs:95-112 | `/.` gives `/`, but `/` gives the empty name. |
| `BasenameUtil.Emit` | src/uu/basename/src/basename.rs:87-90 | There is one record per name, in order. Each record is the name's basename followed by the line ending. |
| `BasenameUtil.Run` | src/uu/basename/src/basename.rs:46-90 | No operands is a missing-operand error, and only that. More than two operands without -a or -s is an extra-operand error naming the third operand, and only that. On success there is one record per operand under -a or -s, otherwise exactly one. |
| `BasenameUtil.ExitStatus` | src/uu/basename/src/basename.rs:48-92 | The status is 0 exactly when the run succeeds, and 1 for each usage error. |
| `BasenameUtil.SingleName` | src/uu/basename/src/basename.rs:69-90 | Without -a or -s, one or two operands print the first operand's basename, with the second operand as the suffix. |
| `BasenameUtil.EveryOperandIsAName` | src/uu/basename/src/basename.rs:69-90 | With -a or -s, every operand is printed in order. The suffix is the -s value or nothing, and never an operand. |
| `BasenameUtil.CountAppend` | src/uu/basename/src/basename.rs:88-90 | The number of occurrences of a character in two concatenated outputs is the sum of the two counts. |
| `BasenameUtil.TerminatorsCountRecords` | src/uu/basename/src/basename.rs:88-90 | Records that each end in the terminator, and have it nowhere else, contain exactly one terminator per record. |
| `BasenameUtil.OneTerminatorPerName` | src/uu/basename/src/basename.rs:87-90 | When no operand contains the line ending (`\n`, or NUL under -z), the output holds exactly one line ending per record. Splitting the output at the line endings with `Lines` gives one line per record, and each record is its line followed by the line ending. |
| `BasenameUtil.LinesOfRecords` | src/uu/basename/src/basename.rs:88-90 | Records that each end in the terminator, and have it nowhere else, read back through `Lines` as exactly their names, in order. |
| `BasenameUtil.FirstLine` | src/uu/basename/src/basename.rs:88-90 | A terminated name at the front of the output reads back as the first line, followed by the lines of the rest. |
| `BasenameUtil.FirstIndex` | src/uu/basename/src/basename.rs:88-90 | The position of the first terminator in an output, or its length when there is none. No terminator comes before it. |
| `BasenameUtil.MultiplePaths` | src/uu/basename/src/basename.rs:55-58 | Every operand is a name under -a, and under -s, which implies -a (line 36). Without either option, only the first operand is a name. |
| `BasenameUtil.SelectedSuffix` | src/uu/basename/src/basename.rs:69-75 | The suffix is the -s value when it is given. Under -a without -s it is empty, so it never comes from an operand. Otherwise it is the second operand if there is one, and empty if there is not. `SingleName` and `EveryOperandIsAName` state the output this choice gives. |
| `BasenameUtil.SelectedPaths` | src/uu/basename/src/basename.rs:81-85 | Under -a or -s every operand is printed, in order. Otherwise only the first operand is. `SingleName` and `EveryOperandIsAName` state the output this choice gives. |
| `BasenameUtil.LineEnding` | src/uu/basename/src/basename.rs:87 | The line ending is NUL exactly under -z, and a newline exactly without it. |
| `BasenameUtil.BasenameIsLastOfComponents` | src/uu/basename/src/basename.rs:95-111 | For an argument that is not all `/`, the path has components. The printed name is the text of the last of those components, read front to back, with the suffix stripped. |
| `UnixPath.SegmentStart` | src/uu/basename/src/basename.rs:107-108 | The index where the final `/`-separated segment starts. Nothing after it is `/`, and the character before it, if any, is `/`. |
| `UnixPath.JoinSplit` | src/uu/basename/src/basename.rs:107-108 | Joining the `/`-separated segments of a path with `/` gives back the path. |
| `UnixPath.SplitJoin` | src/uu/basename/src/basename.rs:107-108 | Splitting a `/`-join of separator-free segments gives back the segments. |
| `UnixPath.SplitAppend` | src/uu/basename/src/basename.rs:107-108 | Appending `/name` adds exactly one segment, `name`. |
| `UnixPath.Components` | src/uu/basename/src/basename.rs:107-108 | A path has no components if and only if it is empty. |
| `UnixPath.ComponentsAppend` | src/uu/basename/src/basename.rs:107-108 | Appending `/name` to a non-empty path adds the component of `name`. That is nothing for an empty name or `.`, a parent for `..`, and a normal component otherwise. |
| `UnixPath.ComponentsIgnoreTrailingSeparator` | src/uu/basename/src/basename.rs:107-108 | A trailing `/` does not change the components of a non-empty path. |
| `UnixPath.ComponentsDropInteriorDot` | src/uu/basename/src/basename.rs:107-108 | A `.` after a non-empty path is not a component. |
| `UnixPath.ComponentsRooted` | src/uu/basename/src/basename.rs:107-108 | `/name` reads as the root component followed by the component of `name`. |
| `UnixPath.SingleComponent` | src/uu/basename/src/basename.rs:107-108 | A non-empty path without `/` is a single component: current directory for `.`, parent for `..`, otherwise a normal one. |
| `UnixPath.LastComponent` | src/uu/basename/src/basename.rs:107-111 | There is a last component exactly when the path is non-empty. Its text is non-empty and drawn from the path's characters. It contains no `/` unless it is the root, and a root component implies the path starts with `/`. |
| `UnixPath.LastComponentIsLast` | src/uu/basename/src/basename.rs:107-108 | The back-to-front reading used by `Basename` is the last element of the front-to-back `Components`. |
| `UnixPath.AgreeAtLastSeparator` | src/uu/basename/src/basename.rs:107-108 | If the two readings agree on what precedes a path's last separator, they agree on the whole path. |
| `UnixPath.Text` | src/uu/basename/src/basename.rs:109 | The root's text is `/`. Any other component, except a normal one named `.` or `..`, reads back as itself from its own text. |
| `UnixPath.LastComponentStep` | src/uu/basename/src/basename.rs:107-108 | For `dir/name`, the last component is that of `name`, unless `name` is empty or `.`. In that case it is the last component of `dir`. |
| `UnixPath.AgreeStep` | src/uu/basename/src/basename.rs:107-108 | If the two readings agree on `dir`, they agree on `dir/name`. |
| `UnixPath.LastComponentIgnoresTrailingSeparator` | src/uu/basename/src/basename.rs:107-108 | A trailing `/` does not change the last component of a non-empty path. |
| `UnixPath.LastComponentSkipsInteriorDot` | src/uu/basename/src/basename.rs:107-108 | A trailing `/.` does not change the last component of a non-empty path. |
| `UnixPath.LastComponentOfName` | src/uu/basename/src/basename.rs:107-108 | After a `/`, a name other than the empty name and `.` is the last component: a parent for `..`, normal otherwise. |
| `UnixPath.LastComponentOfSlashes` | src/uu/basename/src/basename.rs:107-108 | A path made only of `/` has the root as its last component. |

## Left out

- Option parsing (lines 22-44): turning the raw arguments into flags, the `-s`
  value and the free operands is done by uucore's `app!` and getopts. `Run`
  takes the parsed result as an `Options` value and the operand list. Help,
  version, unknown options, `--` and a repeated `-s` are therefore not
  modelled.
- `collect_str` on arguments that are not valid UTF-8 is not modelled: every
  operand is a string of characters.
- `crash!` writes a message to standard error and exits with status 1. The
  model keeps the error kind, the offending operand and the status. It leaves
  out the message text and the process exit.
- Writing to standard output is modelled as the list of records `print!`
  would write. Write failures are not modelled.
- Windows separators and path prefixes are not modelled. Only the Unix reading
  of `is_separator` and `Path::components()` is.
- `Path::components()` on its own is modelled only as far as `basename` uses
  it: the split into root, current, parent and normal components.
- tests/by-util/test_chown.rs is not part of this model. It tests another
  utility, whose implementation is not among the modelled files.
