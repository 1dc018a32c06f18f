# Lastz command builder and Singularity helpers, in Dafny

This project models two small parts of Galaxy that turn job settings into command lines.

- **The lastz wrapper** (`tools/sr_mapping/lastz_wrapper.py`, the body of `__main__`). The parsed
  options become one `lastz` shell command per reference partition. A reference taken from the
  history gives one command. A cached 2bit reference gives one command per chromosome key. The
  parts of each command are:
  - the optional `ref_name::` label;
  - the preset or explicit alignment options;
  - the `[fullnames]` modifier for the `diffs` format;
  - the rewrite of `tabular` into `general:` followed by the 27 field names;
  - the `>> output` redirection.
- **The Singularity helpers** (`lib/galaxy/tools/deps/singularity_util.py`):
  - `DockerVolume`: its constructor, the `from[:to][:how]` parser, the comma-separated list
    parser, and the printed form;
  - the argv builders: `_singularity_prefix`, `command_list` and `build_pull_command`;
  - the `singularity exec` command string built by `build_singularity_exec_command`.

Files:

| file | module | contents |
|---|---|---|
| `wrappers.dfy` | `Wrappers` | `Option` and `Result` |
| `strings.dfy` | `Strings` | Python's `sep.join`, `str.split(sep, maxsplit)` and `str.strip`, with their round-trip lemmas |
| `lastz_wrapper.dfy` | `LastzWrapper` | the lastz options, command template and command list |
| `singularity_util.dfy` | `SingularityUtil` | the volumes, argv builders and exec command |

How Python values are modelled:

- An optparse value is an `Option<string>`.
- Python renders `'%s' % None` as `None`. `PyStr` models this, so an absent value prints as
  `None`, exactly as in the wrapper.
- `shlex_quote` is a function parameter `quote`. The model assumes nothing about it.
- Python's `ValueError` and `TypeError` are the error side of a `Result`.

Two points about the lastz command:

- **No quoting.** The wrapper pastes option values into the template unquoted.
  `SpacedOutputIsResplit` shows the effect: for an output path `a b`, where `a` and `b` hold no
  space, splitting the command at spaces gives `a` and `b` as its last two words.
- **Tabular field list.** `TabularFields` is written as `":"` followed by the 27 field names
  joined with commas. This is the same text as the literal string on line 127.
  `TabularFieldOrder` proves that splitting it at commas gives back the names in order.

## Model

| member | source | states |
|---|---|---|
| LastzWrapper.RefLabel | tools/sr_mapping/lastz_wrapper.py:106-109 | the label is empty exactly when `ref_name` is the string `None`; otherwise it is the printed name followed by `::` (an absent name prints as `None::`) |
| LastzWrapper.SetOptions | tools/sr_mapping/lastz_wrapper.py:111-118 | the preset source gives `--` plus the preset name; any other source gives a string that starts with the `--gfextend` word and ends with the `--entropy` word |
| LastzWrapper.SetOptionsSplitsIntoWords | tools/sr_mapping/lastz_wrapper.py:115-118 | when the alignment-option values contain no spaces, the explicit option string splits back into its 13 words in template order, with `--gapped` third |
| LastzWrapper.QueryToken | tools/sr_mapping/lastz_wrapper.py:120-123 | the query gets the `[fullnames]` suffix exactly when the format is `diffs` |
| LastzWrapper.FormatToken | tools/sr_mapping/lastz_wrapper.py:124-130 | `tabular` becomes `general` with the field list; any other format is kept and gets no field list |
| LastzWrapper.TabularFieldOrder | tools/sr_mapping/lastz_wrapper.py:127 | the field list is a colon followed by 27 comma-separated names, and splitting it at commas gives back the names in order |
| LastzWrapper.ReferenceToken | tools/sr_mapping/lastz_wrapper.py:144-155 | the reference word is the label plus `input1` for a history reference, and additionally `/chrom` for a cached chromosome |
| LastzWrapper.Command | tools/sr_mapping/lastz_wrapper.py:144-155 | every command starts with `lastz ` and ends with the filter words, then `>>` and the output path |
| LastzWrapper.CommandIsJoinedWords | tools/sr_mapping/lastz_wrapper.py:144-155 | the command is its argument words joined by single spaces |
| LastzWrapper.CommandSplitsIntoWords | tools/sr_mapping/lastz_wrapper.py:144-155 | when no value contains a space, splitting the command on spaces gives back exactly its argument words |
| LastzWrapper.SpacedOutputIsResplit | tools/sr_mapping/lastz_wrapper.py:144-155 | the output path goes in unquoted: when it is `a b` (with `a` and `b` space-free) and the other values hold no space, the last two words of the split command are `a` and `b` |
| LastzWrapper.BuildCommands | tools/sr_mapping/lastz_wrapper.py:131-156 | a history reference gives exactly one whole-reference command, whatever the keys; any other source gives one command per chromosome key, in key order; every command starts with `lastz ` |
| SingularityUtil.ValidHow | lib/galaxy/tools/deps/singularity_util.py:58-60 | a mode is valid exactly when it is `ro` or `rw`; a valid mode is two characters with no colon, comma or surrounding whitespace |
| SingularityUtil.NewVolume | lib/galaxy/tools/deps/singularity_util.py:28-33 | construction succeeds exactly when the mode is `ro` or `rw`, and otherwise fails naming the mode; an empty or absent container path falls back to the host path |
| SingularityUtil.VolumeFromStr | lib/galaxy/tools/deps/singularity_util.py:43-56 | empty text is unparsable, and nothing else is; a non-empty text without a colon mounts itself read-write; any other failure is a bad mode; a parsed volume is well formed and its paths are colon-free |
| SingularityUtil.VolumeFromOnePart | lib/galaxy/tools/deps/singularity_util.py:44-47 | a colon-free path mounts at the same path with mode `rw` |
| SingularityUtil.VolumeFromTwoParts | lib/galaxy/tools/deps/singularity_util.py:48-52 | with two parts, a valid mode in second place is taken as the mode; anything else is taken as the container path, and an empty one falls back to the host path |
| SingularityUtil.VolumeFromThreeParts | lib/galaxy/tools/deps/singularity_util.py:53-56 | with three parts, the second is the container path and the third is the mode, which must be valid or parsing fails naming it |
| SingularityUtil.Show | lib/galaxy/tools/deps/singularity_util.py:62-63 | the printed form is the host path, the container path and the mode, separated by colons |
| SingularityUtil.ShowThenParse | lib/galaxy/tools/deps/singularity_util.py:43-63 | parsing the printed form of a well-formed volume with colon-free paths gives back the same volume |
| SingularityUtil.ParsedVolumeRoundTrips | lib/galaxy/tools/deps/singularity_util.py:43-63 | any volume that parses prints to a string that parses to the same volume |
| SingularityUtil.ColonInPathBreaksRoundTrip | lib/galaxy/tools/deps/singularity_util.py:46-63 | a host path with a colon does not survive printing and parsing: the rest of the text is read as a bad mode |
| SingularityUtil.ParseVolumes | lib/galaxy/tools/deps/singularity_util.py:40 | the list parses exactly when every item parses, item by item in order; otherwise the error is that of the first item that fails |
| SingularityUtil.VolumeItems | lib/galaxy/tools/deps/singularity_util.py:39 | there is one item more than the text has commas; no item holds a comma or has whitespace at either end; each item is the stripped comma-separated piece at its position |
| SingularityUtil.VolumesFromStr | lib/galaxy/tools/deps/singularity_util.py:36-40 | no text gives no volumes; otherwise there is one volume per item, success exactly when every item parses, and an item that is empty after stripping is an error |
| SingularityUtil.ShowListable | lib/galaxy/tools/deps/singularity_util.py:59-63 | the printed form of a listable volume is non-empty, comma-free and has nothing to strip, and it parses back to the volume |
| SingularityUtil.VolumesRoundTrip | lib/galaxy/tools/deps/singularity_util.py:36-63 | printing listable volumes as a comma-separated list and parsing the list gives back the same volumes in order |
| SingularityUtil.SingularityPrefix | lib/galaxy/tools/deps/singularity_util.py:142-149 | the prefix is one word: the `singularity_cmd` keyword if given, else `singularity` |
| SingularityUtil.CommandList | lib/galaxy/tools/deps/singularity_util.py:130-135 | the call fails with a multiple-values `TypeError` exactly when a keyword is named `command` or `command_args`, naming one of those keywords; otherwise the argv is the prefix word, then the command, then exactly the given arguments |
| SingularityUtil.CommandListIgnoresOtherKeywords | lib/galaxy/tools/deps/singularity_util.py:130-145 | keywords other than `singularity_cmd`, `command` and `command_args` do not change the outcome |
| SingularityUtil.BuildPullCommand | lib/galaxy/tools/deps/singularity_util.py:65-69 | the call fails with a multiple-values `TypeError` exactly when a keyword is named `tag`, `command` or `command_args`; otherwise a pull is the prefix word, then `pull`, then the tag |
| SingularityUtil.ExecArgv | lib/galaxy/tools/deps/singularity_util.py:101-125 | the appended words equal the reference word list: the prefix, `exec`, the words of each enabled flag in table order, the quoted image, and the container command |
| SingularityUtil.ExecFlagWords | lib/galaxy/tools/deps/singularity_util.py:107-122 | the flag words are, in order, `-c`, `-C`, `-H` with the quoted home directory, `-i`, `-p`, `-S` with the quoted scratch directory, `-W` with the quoted working directory, and `-w`; each is present exactly when its argument is truthy |
| SingularityUtil.AppendFlags | lib/galaxy/tools/deps/singularity_util.py:107-122 | the flag steps append the words of exactly the enabled flags, in order |
| SingularityUtil.ExecFlagPresence | lib/galaxy/tools/deps/singularity_util.py:107-122 | for each of the eight flags, its flag word appears in the argv exactly when its setting is truthy, provided the command, the image and every directory that is used do not look like a flag |
| SingularityUtil.ExecDefaults | lib/galaxy/tools/deps/singularity_util.py:72-127 | with every default the argv is `singularity exec <quoted image> <command>` |
| SingularityUtil.ExecIgnoresOtherArguments | lib/galaxy/tools/deps/singularity_util.py:72-98 | binds, memory, environment, name, network, sudo, user and the other unused arguments do not affect the command |
| SingularityUtil.BuildSingularityExecCommand | lib/galaxy/tools/deps/singularity_util.py:101-127 | the command is the argv joined by spaces; it starts with the singularity command followed by `exec`, and ends with the quoted image followed by the container command |
| Strings.JoinSplitN | lib/galaxy/tools/deps/singularity_util.py:46 | joining the pieces of a bounded split with the separator gives back the text |
| Strings.SplitNJoin | lib/galaxy/tools/deps/singularity_util.py:46 | splitting a join of separator-free pieces, with enough splits allowed, gives back the pieces |
| Strings.SplitJoin | lib/galaxy/tools/deps/singularity_util.py:39 | an unbounded split of a join of separator-free pieces gives back the pieces |
| Strings.SplitPieces | lib/galaxy/tools/deps/singularity_util.py:39 | an unbounded split gives one more piece than the text has separators |
| Strings.Strip | lib/galaxy/tools/deps/singularity_util.py:39 | the result is a slice of the input with no whitespace at either end; everything cut off before and after the slice is whitespace; text already without such whitespace is unchanged |

## Left out

- Option parsing (`optparse`), `stop_err`, the `print` of each history command, and `LastzJobRunner` with its worker threads and `num_threads` are left out. These are I/O and concurrency; the model ends with the list of commands.
- Opening the 2bit file and reading its keys (`TwoBitFile`) is left out. The chromosome keys are an input sequence, taken in the order given.
- The commented-out reference-count check and the `range(ref_sequences)` loop are not modelled, because they are dead code. The history branch always builds one command.
- `command_shell` and `argv_to_str` are left out. `argv_to_str` comes from another module (`commands`), which is not part of this model.
- `shlex_quote` is a parameter. Its quoting rules belong to the standard library and are not modelled.
- Strings.Strip: treats only the six ASCII whitespace characters as whitespace, as Python 2 `str.strip` does. Python 3's wider set of Unicode whitespace is not modelled.
- SingularityUtil.VolumeFromStr and SingularityUtil.NewVolume: record which check failed and the text involved. The exact wording of the `ValueError` messages is not modelled.
- SingularityUtil.CommandList: takes keyword arguments as a map from names to strings. Keyword values of other Python types are not modelled. When both `command` and `command_args` are given, which of the two names Python reports depends on keyword order; the model promises only that one of them is named.
- SingularityUtil.ExecArgv: models `home_directory`, `scratch_directory` and `working_directory` as strings in which the empty string stands for both `None` and `""`. Both are falsy, so both produce the same command.
- SingularityUtil.ExecFlagPresence: requires that the singularity command, the container command, the quoted image and each quoted directory that is used (non-empty) do not equal a flag word. Without this, the flag word could appear in the command because some other word equals it.
- SingularityUtil.ExecIgnoresOtherArguments: `binds`, `env_directives`, `memory`, `name`, `net`, `run_extra_arguments`, `sudo`, `sudo_cmd`, `auto_rm`, `set_user`, `host`, `tag`, `interactive` and `terminal` are accepted and never used. They are kept as fields so that this lemma can state that they have no effect. The `-B` bind loop is commented out in the code and is not modelled.
- Strings.SplitJoin and Strings.SplitNJoin: proved only for pieces that do not contain the separator. Pieces that do contain it are split again, which `ColonInPathBreaksRoundTrip` illustrates for volumes.
- SingularityUtil.VolumesRoundTrip: proved only for volumes whose printed form survives the list format. This means no colon or comma in either path and no leading whitespace in the host path. An empty list prints as the empty string, which parses to no volumes.
