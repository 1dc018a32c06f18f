/** Helpers that build Singularity command lines: the `path[:to_path][:how]`
    volume notation with its parser and printer, and the argv builders for
    `pull` and `exec`. Shell quoting (`shlex_quote`) is a parameter of the
    builders: only where its results go is modelled, not what it returns. */
module SingularityUtil {
  import opened Wrappers
  import opened Strings

  const DefaultSingularityCommand: string := "singularity"
  const DefaultVolumeMountType: string := "rw"

  /** A bind mount: host path, container path and access mode. */
  datatype DockerVolume = DockerVolume(fromPath: string, toPath: string, how: string)

  /** The two `ValueError`s volume construction raises. */
  datatype VolumeError =
    | Unparsable(input: string)  // an empty volume description
    | InvalidHow(how: string)    // an access mode other than `ro` / `rw`

  /** `__valid_how`: the access modes a volume accepts, read-only and
      read-write. A valid mode is two letters, so it never holds the colon,
      comma or whitespace the volume notation uses. */
  function ValidHow(how: string): (ok: bool)
    ensures ok <==> how in ["ro", DefaultVolumeMountType]
    ensures ok ==> |how| == 2 && ':' !in how && ',' !in how && Trimmed(how)
  {
    how == "ro" || how == "rw"
  }

  /** What every constructed volume satisfies: a valid mode, and a container
      path that is empty only when the host path is. */
  predicate WellFormed(v: DockerVolume)
  {
    ValidHow(v.how) && (v.toPath == "" ==> v.fromPath == "")
  }

  /** `DockerVolume(path, to_path, how)`: an absent or empty `to_path` falls
      back to `path`, and a mode other than `ro` / `rw` raises. */
  function NewVolume(path: string, toPath: Option<string>, how: string): (r: Result<DockerVolume, VolumeError>)
    ensures r.Ok? <==> ValidHow(how)
    ensures r.Err? ==> r.error == InvalidHow(how)
    ensures r.Ok? ==> r.value.fromPath == path && r.value.how == how && WellFormed(r.value)
    ensures r.Ok? && toPath.Some? && toPath.value != "" ==> r.value.toPath == toPath.value
    ensures r.Ok? && (toPath.None? || toPath == Some("")) ==> r.value.toPath == path
  {
    var to := if toPath.Some? && toPath.value != "" then toPath.value else path;
    if ValidHow(how) then Ok(DockerVolume(path, to, how)) else Err(InvalidHow(how))
  }

  /** `DockerVolume.volume_from_str`: split at the first two colons; a second
      part that is a mode sets the mode, any other second part is the
      container path; a third part is always the mode. */
  function VolumeFromStr(s: string): (r: Result<DockerVolume, VolumeError>)
    ensures r == Err(Unparsable(s)) <==> s == ""
    ensures r.Ok? ==> WellFormed(r.value) && ':' !in r.value.fromPath && ':' !in r.value.toPath
    ensures r.Err? && s != "" ==> r.error.InvalidHow? && ':' in s
    ensures s != "" && ':' !in s ==> r == Ok(DockerVolume(s, s, DefaultVolumeMountType))
  {
    if s == "" then Err(Unparsable(s))
    else
      var parts := SplitN(s, ':', 2);
      SplitNInitFree(s, ':', 2);
      SplitNLastFree(s, ':', 2);
      SplitNWhole(s, ':', 2);
      if |parts| == 2 then
        if ValidHow(parts[1]) then NewVolume(parts[0], None, parts[1])
        else NewVolume(parts[0], Some(parts[1]), DefaultVolumeMountType)
      else if |parts| == 3 then
        NewVolume(parts[0], Some(parts[1]), parts[2])
      else
        NewVolume(parts[0], None, DefaultVolumeMountType)
  }

  /** `str(volume)`: the three fields joined with colons. */
  function Show(v: DockerVolume): (s: string)
    ensures s == v.fromPath + ":" + v.toPath + ":" + v.how
  {
    JoinUnrolled([v.fromPath, v.toPath, v.how], ':');
    assert [v.fromPath, v.toPath, v.how][2..] == [v.how];
    Join([v.fromPath, v.toPath, v.how], ':')
  }

  /** A lone part is the host path, mounted at the same path read-write. */
  lemma VolumeFromOnePart(path: string)
    requires path != "" && ':' !in path
    ensures VolumeFromStr(path) == Ok(DockerVolume(path, path, "rw"))
  {
  }

  /** Two parts: a mode as second part sets the mode, anything else (even
      an empty string) is the container path, read-write. */
  lemma VolumeFromTwoParts(path: string, second: string)
    requires ':' !in path && ':' !in second
    ensures ValidHow(second) ==>
      VolumeFromStr(path + ":" + second) == Ok(DockerVolume(path, path, second))
    ensures !ValidHow(second) ==>
      VolumeFromStr(path + ":" + second)
        == Ok(DockerVolume(path, if second == "" then path else second, "rw"))
  {
    SplitNJoin([path, second], ':', 2);
    assert Join([path, second], ':') == path + ":" + second;
  }

  /** Three parts: the second is the container path and the third must be
      a mode; the third keeps any further colons. */
  lemma VolumeFromThreeParts(path: string, to: string, how: string)
    requires ':' !in path && ':' !in to
    ensures ValidHow(how) ==>
      VolumeFromStr(path + ":" + to + ":" + how)
        == Ok(DockerVolume(path, if to == "" then path else to, how))
    ensures !ValidHow(how) ==> VolumeFromStr(path + ":" + to + ":" + how) == Err(InvalidHow(how))
  {
    var parts := [path, to, how];
    SplitNJoin(parts, ':', 2);
    JoinUnrolled(parts, ':');
    assert parts[2..] == [how];
    assert Join(parts, ':') == path + ":" + to + ":" + how;
  }

  /** Printing a well-formed volume whose paths hold no colon and parsing
      the text back gives the same volume. */
  lemma ShowThenParse(v: DockerVolume)
    requires WellFormed(v) && ':' !in v.fromPath && ':' !in v.toPath
    ensures VolumeFromStr(Show(v)) == Ok(v)
  {
    VolumeFromThreeParts(v.fromPath, v.toPath, v.how);
  }

  /** Every volume the parser produces survives printing and parsing again. */
  lemma ParsedVolumeRoundTrips(s: string)
    requires VolumeFromStr(s).Ok?
    ensures VolumeFromStr(Show(VolumeFromStr(s).value)) == VolumeFromStr(s)
  {
    ShowThenParse(VolumeFromStr(s).value);
  }

  /** A colon inside the host path breaks the round trip: the printed text
      has a fourth field, which the parser folds into the mode. */
  lemma ColonInPathBreaksRoundTrip(head: string, rest: string, to: string, how: string)
    requires ':' !in head && ':' !in rest && ':' !in to && ValidHow(how)
    ensures VolumeFromStr(Show(DockerVolume(head + ":" + rest, to, how)))
      == Err(InvalidHow(to + ":" + how))
  {
    var v := DockerVolume(head + ":" + rest, to, how);
    assert Show(v) == head + ":" + rest + ":" + (to + ":" + how);
    VolumeFromThreeParts(head, rest, to + ":" + how);
  }

  /** Parses each item in order; the first item that fails decides the error. */
  function ParseVolumes(items: seq<string>): (r: Result<seq<DockerVolume>, VolumeError>)
    ensures r.Ok? <==> forall i :: 0 <= i < |items| ==> VolumeFromStr(items[i]).Ok?
    ensures r.Ok? ==> (|r.value| == |items|
      && forall i :: 0 <= i < |items| ==> VolumeFromStr(items[i]) == Ok(r.value[i]))
    ensures r.Err? ==>
      exists i :: && 0 <= i < |items|
                  && VolumeFromStr(items[i]) == Err(r.error)
                  && (forall j :: 0 <= j < i ==> VolumeFromStr(items[j]).Ok?)
  {
    if |items| == 0 then Ok([])
    else match VolumeFromStr(items[0])
      case Err(e) => Err(e)
      case Ok(v) =>
        match ParseVolumes(items[1..])
        case Err(e) => Err(e)
        case Ok(vs) => Ok([v] + vs)
  }

  /** The comma-separated items of a volume list, each stripped: one item
      more than there are commas, none holding a comma or surrounding
      whitespace. */
  function VolumeItems(s: string): (items: seq<string>)
    ensures |items| == multiset(s)[','] + 1
    ensures forall i :: 0 <= i < |items| ==> Trimmed(items[i]) && ',' !in items[i]
    ensures |items| == |Split(s, ',')|
    ensures forall i :: 0 <= i < |items| ==> items[i] == Strip(Split(s, ',')[i])
  {
    var parts := Split(s, ',');
    SplitPieces(s, ',');
    seq(|parts|, i requires 0 <= i < |parts| => Strip(parts[i]))
  }

  /** `DockerVolume.volumes_from_str`: no text gives no volumes; otherwise
      one volume per comma-separated item, and an item that is empty after
      stripping raises. */
  function VolumesFromStr(s: Option<string>): (r: Result<seq<DockerVolume>, VolumeError>)
    ensures s == None || s == Some("") ==> r == Ok([])
    ensures s.Some? && s.value != "" ==>
      var items := VolumeItems(s.value);
      && (r.Ok? <==> forall i :: 0 <= i < |items| ==> VolumeFromStr(items[i]).Ok?)
      && (r.Ok? ==> |r.value| == |items|
                    && forall i :: 0 <= i < |items| ==> VolumeFromStr(items[i]) == Ok(r.value[i]))
      && ("" in items ==> r.Err?)
  {
    if s == None || s == Some("") then Ok([])
    else ParseVolumes(VolumeItems(s.value))
  }

  /** A volume whose printed form survives a comma-separated list: no
      colon or comma in either path, and no leading whitespace to strip. */
  predicate Listable(v: DockerVolume)
  {
    && WellFormed(v)
    && ':' !in v.fromPath && ':' !in v.toPath
    && ',' !in v.fromPath && ',' !in v.toPath
    && (v.fromPath == "" || !IsSpace(v.fromPath[0]))
  }

  /** The printed form of a listable volume: colon-separated, so never
      empty, with no comma and nothing for `strip` to remove. */
  lemma ShowListable(v: DockerVolume)
    requires Listable(v)
    ensures var t := Show(v);
      t != "" && ',' !in t && Trimmed(t) && VolumeFromStr(t) == Ok(v)
  {
    var t := Show(v);
    assert t[|t| - 1] == v.how[|v.how| - 1];
    assert t[0] == if v.fromPath == "" then ':' else v.fromPath[0];
    ShowThenParse(v);
  }

  /** The printed form of each volume, in order. */
  function ShowEach(vs: seq<DockerVolume>): (shows: seq<string>)
    ensures |shows| == |vs| && forall i :: 0 <= i < |vs| ==> shows[i] == Show(vs[i])
  {
    seq(|vs|, i requires 0 <= i < |vs| => Show(vs[i]))
  }

  /** `",".join(str(v) for v in vs)`. */
  function ShowVolumes(vs: seq<DockerVolume>): string
  {
    Join(ShowEach(vs), ',')
  }

  lemma ShowEachListable(vs: seq<DockerVolume>)
    requires forall i :: 0 <= i < |vs| ==> Listable(vs[i])
    ensures forall i :: 0 <= i < |vs| ==>
      && ShowEach(vs)[i] != "" && ',' !in ShowEach(vs)[i] && Trimmed(ShowEach(vs)[i])
      && VolumeFromStr(ShowEach(vs)[i]) == Ok(vs[i])
  {
    forall i | 0 <= i < |vs|
      ensures ShowEach(vs)[i] != "" && ',' !in ShowEach(vs)[i] && Trimmed(ShowEach(vs)[i])
      ensures VolumeFromStr(ShowEach(vs)[i]) == Ok(vs[i])
    {
      ShowListable(vs[i]);
    }
  }

  /** The items of a printed list of listable volumes are their printed
      forms. */
  lemma ShownItems(vs: seq<DockerVolume>)
    requires |vs| > 0 && forall i :: 0 <= i < |vs| ==> Listable(vs[i])
    ensures VolumeItems(ShowVolumes(vs)) == ShowEach(vs)
  {
    var shows := ShowEach(vs);
    ShowEachListable(vs);
    SplitJoin(shows, ',');
    var items := VolumeItems(ShowVolumes(vs));
    forall i | 0 <= i < |shows|
      ensures items[i] == shows[i]
    {
      assert Trimmed(shows[i]);
    }
  }

  /** Printing a list of listable volumes and parsing it back gives the
      same list, in the same order. */
  lemma VolumesRoundTrip(vs: seq<DockerVolume>)
    requires forall i :: 0 <= i < |vs| ==> Listable(vs[i])
    ensures VolumesFromStr(Some(ShowVolumes(vs))) == Ok(vs)
  {
    if |vs| > 0 {
      ShowEachListable(vs);
      JoinNonEmpty(ShowEach(vs), ',');
      ShownItems(vs);
      ParseAll(ShowEach(vs), vs);
    }
  }

  /** Items that each parse to the matching volume parse to the list. */
  lemma ParseAll(items: seq<string>, vs: seq<DockerVolume>)
    requires |items| == |vs|
    requires forall i :: 0 <= i < |items| ==> VolumeFromStr(items[i]) == Ok(vs[i])
    ensures ParseVolumes(items) == Ok(vs)
  {
    var r := ParseVolumes(items);
    assert r.Ok?;
    assert r.value == vs;
  }

  /** `_singularity_prefix(**kwds)`: the `singularity_cmd` keyword, or the
      default command; every other keyword is accepted and dropped.
      Keyword arguments are a map from keyword name to value. */
  function SingularityPrefix(kwds: map<string, string>): (prefix: seq<string>)
    ensures |prefix| == 1
    ensures "singularity_cmd" in kwds ==> prefix[0] == kwds["singularity_cmd"]
    ensures "singularity_cmd" !in kwds ==> prefix[0] == DefaultSingularityCommand
  {
    [if "singularity_cmd" in kwds then kwds["singularity_cmd"] else DefaultSingularityCommand]
  }

  /** Python's `TypeError` for a call that passes a keyword argument
      naming one of the function's own parameters ("got multiple values
      for argument"). */
  datatype CallError = MultipleValues(name: string)

  /** `command_list(command, command_args, **kwds)`: the argv of one
      Singularity subcommand. A keyword named `command` or `command_args`
      clashes with the positional parameters and raises. */
  function CommandList(command: string, commandArgs: seq<string>, kwds: map<string, string>)
    : (r: Result<seq<string>, CallError>)
    ensures r.Err? <==> "command" in kwds || "command_args" in kwds
    ensures r.Err? ==> r.error.name in kwds && r.error.name in ["command", "command_args"]
    ensures r.Ok? ==> && |r.value| == |commandArgs| + 2
                      && r.value[0] == SingularityPrefix(kwds)[0]
                      && r.value[1] == command && r.value[2..] == commandArgs
  {
    if "command" in kwds then Err(MultipleValues("command"))
    else if "command_args" in kwds then Err(MultipleValues("command_args"))
    else
      var parts := SingularityPrefix(kwds);
      Ok(parts + [command] + commandArgs)
  }

  /** Keywords other than `singularity_cmd` and the two clashing names never
      change the outcome. */
  lemma CommandListIgnoresOtherKeywords(command: string, commandArgs: seq<string>,
                                        kwds: map<string, string>, other: map<string, string>)
    requires ("singularity_cmd" in kwds <==> "singularity_cmd" in other)
    requires "singularity_cmd" in kwds ==> kwds["singularity_cmd"] == other["singularity_cmd"]
    requires ("command" in kwds <==> "command" in other)
    requires ("command_args" in kwds <==> "command_args" in other)
    ensures CommandList(command, commandArgs, kwds) == CommandList(command, commandArgs, other)
  {
  }

  /** `build_pull_command(tag, **kwds)`: `<cmd> pull <tag>`. A keyword
      named `tag` clashes with this function's own parameter, and `command`
      or `command_args` with those of `command_list`; each raises. */
  function BuildPullCommand(tag: string, kwds: map<string, string>): (r: Result<seq<string>, CallError>)
    ensures r.Err? <==> "tag" in kwds || "command" in kwds || "command_args" in kwds
    ensures r.Err? ==> r.error.name in kwds && r.error.name in ["tag", "command", "command_args"]
    ensures r.Ok? ==> r.value == [SingularityPrefix(kwds)[0], "pull", tag]
  {
    if "tag" in kwds then Err(MultipleValues("tag"))
    else CommandList("pull", [tag], kwds)
  }

  /** The arguments of `build_singularity_exec_command`. Flags hold their
      truthiness; the directory arguments are only used when truthy, so
      `None` and the empty string are both the empty string here. Apart
      from the flags, the three directories and `singularityCmd`, every
      argument is accepted and never used. */
  datatype ExecOptions = ExecOptions(
    interactive: bool,
    terminal: bool,
    tag: Option<string>,
    binds: seq<string>,
    contain: bool,
    containall: bool,
    homeDirectory: string,
    ipc: bool,
    pid: bool,
    scratchDirectory: string,
    writable: bool,
    memory: Option<string>,
    envDirectives: seq<string>,
    workingDirectory: string,
    name: Option<string>,
    net: Option<string>,
    runExtraArguments: Option<string>,
    singularityCmd: string,
    sudo: bool,
    sudoCmd: string,
    autoRm: bool,
    setUser: string,
    host: Option<string>
  )

  /** The default arguments of `build_singularity_exec_command`. */
  const DefaultExecOptions: ExecOptions := ExecOptions(
    interactive := false, terminal := false, tag := None, binds := [],
    contain := false, containall := false, homeDirectory := "", ipc := false, pid := false,
    scratchDirectory := "", writable := false, memory := None, envDirectives := [],
    workingDirectory := "", name := None, net := None, runExtraArguments := None,
    singularityCmd := DefaultSingularityCommand, sudo := true, sudoCmd := "sudo",
    autoRm := true, setUser := "$UID", host := None)

  /** One optional exec flag: whether it is on, and the words it adds. */
  datatype ExecFlag = ExecFlag(on: bool, words: seq<string>)

  /** The exec flags in their fixed order. */
  function ExecFlagTable(o: ExecOptions, quote: string -> string): seq<ExecFlag>
  {
    [ ExecFlag(o.contain, ["-c"]),
      ExecFlag(o.containall, ["-C"]),
      ExecFlag(o.homeDirectory != "", ["-H", quote(o.homeDirectory)]),
      ExecFlag(o.ipc, ["-i"]),
      ExecFlag(o.pid, ["-p"]),
      ExecFlag(o.scratchDirectory != "", ["-S", quote(o.scratchDirectory)]),
      ExecFlag(o.workingDirectory != "", ["-W", quote(o.workingDirectory)]),
      ExecFlag(o.writable, ["-w"]) ]
  }

  /** The words of the flags that are on, in table order. */
  function OnWords(flags: seq<ExecFlag>): (words: seq<string>)
    ensures |words| == WordCount(flags)
  {
    if |flags| == 0 then []
    else
      var last := flags[|flags| - 1];
      OnWords(flags[..|flags| - 1]) + (if last.on then last.words else [])
  }

  /** How many words the flags that are on contribute. */
  function WordCount(flags: seq<ExecFlag>): nat
  {
    if |flags| == 0 then 0
    else
      var last := flags[|flags| - 1];
      WordCount(flags[..|flags| - 1]) + (if last.on then |last.words| else 0)
  }

  /** The exec argv described by the flag table: `<cmd> exec`, the words of
      each flag that is on in table order, the quoted image, the container
      command. */
  function ExecWords(containerCommand: string, image: string, o: ExecOptions,
                     quote: string -> string): (argv: seq<string>)
    ensures |argv| == 4 + WordCount(ExecFlagTable(o, quote))
  {
    [o.singularityCmd, "exec"] + OnWords(ExecFlagTable(o, quote)) + [quote(image), containerCommand]
  }

  /** Appends, in table order, the words of each flag that is on. */
  method AppendFlags(parts: seq<string>, table: seq<ExecFlag>) returns (r: seq<string>)
    ensures r == parts + OnWords(table)
  {
    r := parts;
    var i := 0;
    while i < |table|
      invariant 0 <= i <= |table|
      invariant r == parts + OnWords(table[..i])
    {
      assert table[..i + 1][..i] == table[..i];
      if table[i].on {
        r := r + table[i].words;
      }
      i := i + 1;
    }
    assert table[..i] == table;
  }

  /** The argv of `build_singularity_exec_command`, appended step by step:
      `<cmd> exec`, then each flag of the table that is on, then the quoted
      image and the container command. */
  method ExecArgv(containerCommand: string, image: string, o: ExecOptions,
                  quote: string -> string) returns (parts: seq<string>)
    ensures parts == ExecWords(containerCommand, image, o, quote)
  {
    parts := SingularityPrefix(map["singularity_cmd" := o.singularityCmd]);
    parts := parts + ["exec"];
    parts := AppendFlags(parts, ExecFlagTable(o, quote));
    parts := parts + [quote(image)];
    parts := parts + [containerCommand];
  }

  /** The words one flag contributes: its words when it is on, none otherwise. */
  function FlagWords(f: ExecFlag): seq<string>
  {
    if f.on then f.words else []
  }

  /** Extending a flag list by one flag appends that flag's words. */
  lemma OnWordsStep(flags: seq<ExecFlag>, k: nat)
    requires 0 < k <= |flags|
    ensures OnWords(flags[..k]) == OnWords(flags[..k - 1]) + FlagWords(flags[k - 1])
  {
    assert flags[..k][..k - 1] == flags[..k - 1];
  }

  /** Eight flags contribute their words one after the other. */
  lemma OnWordsOfEight(t: seq<ExecFlag>)
    requires |t| == 8
    ensures OnWords(t)
         == FlagWords(t[0]) + FlagWords(t[1]) + FlagWords(t[2]) + FlagWords(t[3])
          + FlagWords(t[4]) + FlagWords(t[5]) + FlagWords(t[6]) + FlagWords(t[7])
  {
    assert t[..0] == [];
    OnWordsStep(t, 1);
    var w1 := FlagWords(t[0]);
    assert OnWords(t[..1]) == w1;
    OnWordsStep(t, 2);
    var w2 := w1 + FlagWords(t[1]);
    OnWordsStep(t, 3);
    var w3 := w2 + FlagWords(t[2]);
    OnWordsStep(t, 4);
    var w4 := w3 + FlagWords(t[3]);
    OnWordsStep(t, 5);
    var w5 := w4 + FlagWords(t[4]);
    OnWordsStep(t, 6);
    var w6 := w5 + FlagWords(t[5]);
    OnWordsStep(t, 7);
    var w7 := w6 + FlagWords(t[6]);
    assert OnWords(t[..7]) == w7;
    OnWordsStep(t, 8);
    assert t[..8] == t;
  }

  /** The flag words, written out as the eight `if`s of
      `build_singularity_exec_command` in their order: `-c`, `-C`,
      `-H <home>`, `-i`, `-p`, `-S <scratch>`, `-W <workdir>`, `-w`, each
      present exactly when its argument is truthy, directories quoted. */
  lemma ExecFlagWords(o: ExecOptions, quote: string -> string)
    ensures OnWords(ExecFlagTable(o, quote))
         == (if o.contain then ["-c"] else [])
          + (if o.containall then ["-C"] else [])
          + (if o.homeDirectory != "" then ["-H", quote(o.homeDirectory)] else [])
          + (if o.ipc then ["-i"] else [])
          + (if o.pid then ["-p"] else [])
          + (if o.scratchDirectory != "" then ["-S", quote(o.scratchDirectory)] else [])
          + (if o.workingDirectory != "" then ["-W", quote(o.workingDirectory)] else [])
          + (if o.writable then ["-w"] else [])
  {
    OnWordsOfEight(ExecFlagTable(o, quote));
  }

  /** A word carried by one flag only is among the words of the flags
      that are on exactly when that flag is on. */
  lemma {:induction false} InOnWords(flags: seq<ExecFlag>, k: nat, x: string)
    requires k < |flags| && x in flags[k].words
    requires forall j :: 0 <= j < |flags| && j != k && flags[j].on ==> x !in flags[j].words
    ensures x in OnWords(flags) <==> flags[k].on
  {
    var n := |flags| - 1;
    var init := flags[..n];
    if k < n {
      InOnWords(init, k, x);
    } else {
      NotInOnWords(init, x);
    }
  }

  /** A word no flag carries is not among the words of the flags that are on. */
  lemma {:induction false} NotInOnWords(flags: seq<ExecFlag>, x: string)
    requires forall j :: 0 <= j < |flags| && flags[j].on ==> x !in flags[j].words
    ensures x !in OnWords(flags)
  {
    if |flags| > 0 {
      NotInOnWords(flags[..|flags| - 1], x);
    }
  }

  /** When no flag is on, no word is added. */
  lemma {:induction false} NoFlagOn(flags: seq<ExecFlag>)
    requires forall j :: 0 <= j < |flags| ==> !flags[j].on
    ensures OnWords(flags) == []
  {
    if |flags| > 0 {
      NoFlagOn(flags[..|flags| - 1]);
    }
  }

  /** The words the exec flags themselves contribute. */
  predicate IsExecFlagWord(w: string)
  {
    w in {"-c", "-C", "-H", "-i", "-p", "-S", "-W", "-w"}
  }

  /** With every argument word distinct from the flag words, the `k`th
      flag's option word appears in the exec argv exactly when that flag's
      argument is truthy. */
  lemma ExecFlagPresence(containerCommand: string, image: string, o: ExecOptions,
                         quote: string -> string, k: nat)
    requires k < 8
    requires !IsExecFlagWord(o.singularityCmd) && !IsExecFlagWord(containerCommand)
    requires !IsExecFlagWord(quote(image))
    requires o.homeDirectory != "" ==> !IsExecFlagWord(quote(o.homeDirectory))
    requires o.scratchDirectory != "" ==> !IsExecFlagWord(quote(o.scratchDirectory))
    requires o.workingDirectory != "" ==> !IsExecFlagWord(quote(o.workingDirectory))
    ensures var flag := ExecFlagTable(o, quote)[k];
      flag.words[0] in ExecWords(containerCommand, image, o, quote) <==> flag.on
  {
    var t := ExecFlagTable(o, quote);
    var x := t[k].words[0];
    assert IsExecFlagWord(x);
    forall j | 0 <= j < |t| && j != k && t[j].on
      ensures x !in t[j].words
    {
      assert t[j].words[0] != x;
    }
    InOnWords(t, k, x);
    InFramedWords(o.singularityCmd, "exec", OnWords(t), quote(image), containerCommand, x);
  }

  /** A word other than the four framing words is in the framed list
      exactly when it is in the middle. */
  lemma InFramedWords(a: string, b: string, middle: seq<string>, c: string, d: string, x: string)
    requires x != a && x != b && x != c && x != d
    ensures x in [a, b] + middle + [c, d] <==> x in middle
  {
    var all := [a, b] + middle + [c, d];
    if x in all {
      var i :| 0 <= i < |all| && all[i] == x;
      assert middle[i - 2] == x;
    }
    if x in middle {
      var i :| 0 <= i < |middle| && middle[i] == x;
      assert all[i + 2] == x;
    }
  }

  /** With the default arguments no flag is added: the argv is
      `singularity exec <quoted image> <command>`. */
  lemma ExecDefaults(containerCommand: string, image: string, quote: string -> string)
    ensures ExecWords(containerCommand, image, DefaultExecOptions, quote)
         == ["singularity", "exec", quote(image), containerCommand]
  {
    NoFlagOn(ExecFlagTable(DefaultExecOptions, quote));
  }

  /** The exec argv depends on the command, the image, the eight flag
      arguments and `singularityCmd` only: the other arguments are accepted
      and ignored. */
  lemma ExecIgnoresOtherArguments(containerCommand: string, image: string,
                                  o: ExecOptions, p: ExecOptions, quote: string -> string)
    requires o.contain == p.contain && o.containall == p.containall
    requires o.homeDirectory == p.homeDirectory && o.ipc == p.ipc && o.pid == p.pid
    requires o.scratchDirectory == p.scratchDirectory && o.workingDirectory == p.workingDirectory
    requires o.writable == p.writable && o.singularityCmd == p.singularityCmd
    ensures ExecWords(containerCommand, image, o, quote) == ExecWords(containerCommand, image, p, quote)
  {
  }

  /** `build_singularity_exec_command`: the argv joined with single spaces. */
  method BuildSingularityExecCommand(containerCommand: string, image: string, o: ExecOptions,
                                     quote: string -> string) returns (cmd: string)
    ensures cmd == Join(ExecWords(containerCommand, image, o, quote), ' ')
    ensures o.singularityCmd + " exec " <= cmd
    ensures EndsWith(cmd, " " + quote(image) + " " + containerCommand)
  {
    var argv := ExecArgv(containerCommand, image, o, quote);
    ExecCommandFrame(containerCommand, image, o, quote);
    cmd := Join(argv, ' ');
  }

  /** A joined exec argv starts with `<cmd> exec ` and ends with the quoted
      image and the container command. */
  lemma ExecCommandFrame(containerCommand: string, image: string, o: ExecOptions,
                         quote: string -> string)
    ensures var cmd := Join(ExecWords(containerCommand, image, o, quote), ' ');
      o.singularityCmd + " exec " <= cmd && EndsWith(cmd, " " + quote(image) + " " + containerCommand)
  {
    ExecFrame(o.singularityCmd, OnWords(ExecFlagTable(o, quote)), quote(image), containerCommand);
  }

  /** A joined `<cmd> exec <flags> <image> <command>` argv starts with
      `<cmd> exec ` and ends with ` <image> <command>`. */
  lemma ExecFrame(cmd: string, flags: seq<string>, image: string, command: string)
    ensures cmd + " exec " <= Join([cmd, "exec"] + flags + [image, command], ' ')
    ensures EndsWith(Join([cmd, "exec"] + flags + [image, command], ' '), " " + image + " " + command)
  {
    var all := [cmd, "exec"] + flags + [image, command];
    var after := flags + [image, command];
    assert all == [cmd] + (["exec"] + after);
    JoinCons(cmd, ["exec"] + after, ' ');
    JoinCons("exec", after, ' ');
    assert cmd + [' '] + ("exec" + [' '] + Join(after, ' ')) == cmd + " exec " + Join(after, ' ');
    PrefixOfConcat(cmd + " exec ", Join(after, ' '));
    assert all == [cmd] + (["exec"] + flags) + [image, command];
    JoinFrame(cmd, ["exec"] + flags, [image, command], ' ');
    JoinCons(image, [command], ' ');
    assert [' '] + (image + [' '] + command) == " " + image + " " + command;
  }
}
