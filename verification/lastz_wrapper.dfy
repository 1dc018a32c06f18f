/** The command construction of the lastz wrapper: from the wrapper's options
    it builds one `lastz` shell command per reference partition, all
    appending to the same output file. Option values are the strings the
    option parser produced, or `None` when an option was not given. */
module LastzWrapper {
  import opened Wrappers
  import opened Strings

  /** One command-line option: its string value, or `None` when absent. */
  type Arg = Option<string>

  /** The parsed command line. Single-letter scoring options keep the
      letter lastz uses for them (`O=`, `E=`, ...) in their comment. */
  datatype Options = Options(
    refName: Arg,           // --ref_name
    refSource: Arg,         // --ref_source: 'history' or 'cached'
    refSequences: Arg,      // --ref_sequences: accepted, never used
    sourceSelect: Arg,      // --source_select: 'pre_set' or anything else
    input1: Arg,            // reference file, or base name of the cached 2bit file
    input2: Arg,            // the reads to align
    preSetOptions: Arg,
    strand: Arg,
    seed: Arg,
    transition: Arg,
    gfextend: Arg,
    chain: Arg,
    gapOpen: Arg,           // O
    gapExtend: Arg,         // E
    xDrop: Arg,             // X
    yDrop: Arg,             // Y
    hspThreshold: Arg,      // K
    gappedThreshold: Arg,   // L
    entropy: Arg,
    identityMin: Arg,
    identityMax: Arg,
    coverage: Arg,
    format: Arg,            // --out_format: 'sam', 'diffs' or 'tabular'
    output: Arg,
    numThreads: Arg,        // only used by the job runner
    lastzSeqsFileDir: Arg   // accepted, never used
  )

  /** A unit of work: the whole history reference, or one sequence of the
      cached 2bit reference. */
  datatype Partition = WholeReference | Chromosome(key: string)

  /** Python's `'%s' % v`: an absent option prints as `None`. */
  function PyStr(v: Arg): string
  {
    match v
    case None => "None"
    case Some(s) => s
  }

  /** The prefix naming the reference in every match: empty only when the
      option is literally the string `None`; an absent option is not that
      string, so it yields `None::`. */
  function RefLabel(refName: Arg): (prefix: string)
    ensures prefix == "" <==> refName == Some("None")
    ensures prefix != "" ==> prefix == PyStr(refName) + "::" && EndsWith(prefix, "::")
  {
    if refName != Some("None") then PyStr(refName) + "::" else ""
  }

  /** The words of the explicit parameter set, in the order the wrapper
      writes them. */
  function ExplicitWords(o: Options): seq<string>
  {
    [ "--" + PyStr(o.gfextend), "--" + PyStr(o.chain), "--gapped",
      "--" + PyStr(o.strand), "--" + PyStr(o.seed), "--" + PyStr(o.transition),
      "O=" + PyStr(o.gapOpen), "E=" + PyStr(o.gapExtend), "X=" + PyStr(o.xDrop),
      "Y=" + PyStr(o.yDrop), "K=" + PyStr(o.hspThreshold), "L=" + PyStr(o.gappedThreshold),
      "--" + PyStr(o.entropy) ]
  }

  predicate IsPreset(o: Options)
  {
    o.sourceSelect == Some("pre_set")
  }

  /** The words of the alignment parameter string: the preset alone, or the
      explicit set for every other `source_select` value. */
  function OptionWords(o: Options): seq<string>
  {
    if IsPreset(o) then ["--" + PyStr(o.preSetOptions)] else ExplicitWords(o)
  }

  /** The alignment parameter string spliced into every command: the
      option words separated by single spaces, as the wrapper's format
      string writes them. */
  function SetOptions(o: Options): (r: string)
    ensures IsPreset(o) ==> r == "--" + PyStr(o.preSetOptions)
    ensures !IsPreset(o) ==> "--" + PyStr(o.gfextend) + " " <= r
    ensures !IsPreset(o) ==> EndsWith(r, " --" + PyStr(o.entropy))
  {
    var words := OptionWords(o);
    if IsPreset(o) then Join(words, ' ')
    else
      JoinFrame(words[0], words[1..12], words[12..], ' ');
      assert [words[0]] + words[1..12] + words[12..] == words;
      Join(words, ' ')
  }

  /** The reads argument: `[fullnames]` is appended exactly for `diffs`. */
  function QueryToken(o: Options): (r: string)
    ensures o.format == Some("diffs") ==> r == PyStr(o.input2) + "[fullnames]"
    ensures o.format != Some("diffs") ==> r == PyStr(o.input2)
  {
    if o.format == Some("diffs") then PyStr(o.input2) + "[fullnames]" else PyStr(o.input2)
  }

  /** The general-format fields that stand in for `tabular`, in order. */
  const TabularFieldNames: seq<string> := [
    "score", "name1", "strand1", "size1", "start1", "zstart1", "end1", "length1", "text1",
    "name2", "strand2", "size2", "start2", "zstart2", "end2", "start2+", "zstart2+", "end2+",
    "length2", "text2", "diff", "cigar", "identity", "coverage", "gaprate", "diagonal", "shingle"]

  /** The field suffix: a colon, then the names separated by commas. */
  const TabularFields: string := ":" + Join(TabularFieldNames, ',')

  /** The `--format=` value: `tabular` becomes `general` with the field list,
      every other value passes through with no field suffix. */
  function FormatToken(o: Options): (r: (string, string))
    ensures o.format == Some("tabular") ==> r == ("general", TabularFields)
    ensures o.format != Some("tabular") ==> r == (PyStr(o.format), "")
  {
    if o.format == Some("tabular") then ("general", TabularFields) else (PyStr(o.format), "")
  }

  /** The fixed filter and output words every command carries. */
  function FilterWords(o: Options): seq<string>
  {
    var (fmt, fields) := FormatToken(o);
    [ "--ambiguousn", "--nolaj",
      "--identity=" + PyStr(o.identityMin) + ".." + PyStr(o.identityMax),
      "--coverage=" + PyStr(o.coverage),
      "--format=" + fmt + fields ]
  }

  /** The reference argument: label and reference path, followed by
      `/chrom` for a sequence of a cached reference. */
  function ReferenceToken(o: Options, p: Partition): (r: string)
    ensures p.WholeReference? ==> r == RefLabel(o.refName) + PyStr(o.input1)
    ensures p.Chromosome? ==> r == RefLabel(o.refName) + PyStr(o.input1) + "/" + p.key
  {
    match p
    case WholeReference => RefLabel(o.refName) + PyStr(o.input1)
    case Chromosome(key) => RefLabel(o.refName) + PyStr(o.input1) + "/" + key
  }

  /** The template's eleven fields; the parameter string is one field
      even when it holds several words. */
  function CommandFields(o: Options, p: Partition): seq<string>
  {
    ["lastz", ReferenceToken(o, p), QueryToken(o), SetOptions(o)]
      + FilterWords(o) + [">>", PyStr(o.output)]
  }

  /** One lastz invocation: the template fields separated by single spaces,
      with no quoting of any value. */
  function Command(o: Options, p: Partition): (cmd: string)
    ensures "lastz " <= cmd
    ensures EndsWith(cmd, " " + Join(FilterWords(o), ' ') + " >> " + PyStr(o.output))
  {
    CommandFrame(o, p);
    Join(CommandFields(o, p), ' ')
  }

  lemma CommandFrame(o: Options, p: Partition)
    ensures "lastz " <= Join(CommandFields(o, p), ' ')
    ensures EndsWith(Join(CommandFields(o, p), ' '), " " + Join(FilterWords(o), ' ') + " >> " + PyStr(o.output))
  {
    var fields := CommandFields(o, p);
    var middle := [ReferenceToken(o, p), QueryToken(o), SetOptions(o)];
    assert fields == ["lastz"] + middle + (FilterWords(o) + [">>", PyStr(o.output)]);
    RedirectFrame("lastz", middle, FilterWords(o), PyStr(o.output));
  }

  /** The shape of a template whose last two fields are `>>` and the
      output: it starts with its first field and ends with the filter words
      and the redirection. */
  lemma RedirectFrame(first: string, middle: seq<string>, filters: seq<string>, out: string)
    requires |filters| >= 1
    ensures first + " " <= Join([first] + middle + (filters + [">>", out]), ' ')
    ensures EndsWith(Join([first] + middle + (filters + [">>", out]), ' '),
                     " " + Join(filters, ' ') + " >> " + out)
  {
    JoinFrame(first, middle, filters + [">>", out], ' ');
    JoinConcat(filters, [">>", out], ' ');
    JoinCons(">>", [out], ' ');
    assert [' '] + (Join(filters, ' ') + [' '] + (">>" + [' '] + out))
        == " " + Join(filters, ' ') + " >> " + out;
  }

  /** The command's words when it is split at single spaces and no value
      holds a space: the parameter string contributes each of its own
      words. */
  function CommandWords(o: Options, p: Partition): seq<string>
  {
    ["lastz", ReferenceToken(o, p), QueryToken(o)] + OptionWords(o)
      + FilterWords(o) + [">>", PyStr(o.output)]
  }

  predicate NoSpace(s: string)
  {
    ' ' !in s
  }

  /** No value that reaches the alignment-option string holds a space. */
  predicate OptionValuesUnspaced(o: Options)
  {
    && (IsPreset(o) ==> NoSpace(PyStr(o.preSetOptions)))
    && (!IsPreset(o) ==>
      && NoSpace(PyStr(o.gfextend)) && NoSpace(PyStr(o.chain)) && NoSpace(PyStr(o.strand))
      && NoSpace(PyStr(o.seed)) && NoSpace(PyStr(o.transition))
      && NoSpace(PyStr(o.gapOpen)) && NoSpace(PyStr(o.gapExtend))
      && NoSpace(PyStr(o.xDrop)) && NoSpace(PyStr(o.yDrop))
      && NoSpace(PyStr(o.hspThreshold)) && NoSpace(PyStr(o.gappedThreshold))
      && NoSpace(PyStr(o.entropy)))
  }

  /** No option value that reaches the command holds a space. */
  predicate ValuesUnspaced(o: Options, p: Partition)
  {
    && NoSpace(PyStr(o.refName)) && NoSpace(PyStr(o.input1)) && NoSpace(PyStr(o.input2))
    && (p.Chromosome? ==> NoSpace(p.key))
    && OptionValuesUnspaced(o)
    && NoSpace(PyStr(o.identityMin)) && NoSpace(PyStr(o.identityMax))
    && NoSpace(PyStr(o.coverage)) && NoSpace(PyStr(o.format)) && NoSpace(PyStr(o.output))
  }

  /** The tabular field names hold neither commas nor spaces. */
  lemma TabularFieldNamesPlain()
    ensures forall i :: 0 <= i < |TabularFieldNames| ==>
      ',' !in TabularFieldNames[i] && ' ' !in TabularFieldNames[i]
  {
  }

  /** The `tabular` suffix lists the 27 general-format fields in the
      wrapper's order, recoverable by splitting at commas. */
  lemma TabularFieldOrder()
    ensures |TabularFieldNames| == 27
    ensures TabularFields[0] == ':'
    ensures Split(TabularFields[1..], ',') == TabularFieldNames
  {
    TabularFieldNamesPlain();
    assert TabularFields[1..] == Join(TabularFieldNames, ',');
    SplitJoin(TabularFieldNames, ',');
  }

  lemma TabularFieldsUnspaced()
    ensures NoSpace(TabularFields)
  {
    TabularFieldNamesPlain();
    JoinAvoids(TabularFieldNames, ',', ' ');
  }

  /** With the parameter string as one word, every option word stands
      alone in the command. */
  lemma CommandIsJoinedWords(o: Options, p: Partition)
    ensures Command(o, p) == Join(CommandWords(o, p), ' ')
  {
    var a := ["lastz", ReferenceToken(o, p), QueryToken(o)];
    var w := OptionWords(o);
    var b := FilterWords(o) + [">>", PyStr(o.output)];
    assert CommandFields(o, p) == a + ([SetOptions(o)] + b);
    assert CommandWords(o, p) == a + (w + b);
    JoinConcat(a, [SetOptions(o)] + b, ' ');
    JoinConcat([SetOptions(o)], b, ' ');
    JoinConcat(a, w + b, ' ');
    JoinConcat(w, b, ' ');
  }

  predicate AllUnspaced(words: seq<string>)
  {
    forall i :: 0 <= i < |words| ==> NoSpace(words[i])
  }

  lemma AllUnspacedConcat(a: seq<string>, b: seq<string>)
    requires AllUnspaced(a) && AllUnspaced(b)
    ensures AllUnspaced(a + b)
  {
    assert forall i :: |a| <= i < |a + b| ==> (a + b)[i] == b[i - |a|];
  }

  lemma NoSpaceConcat(a: string, b: string)
    requires NoSpace(a) && NoSpace(b)
    ensures NoSpace(a + b)
  {
    assert forall i :: |a| <= i < |a + b| ==> (a + b)[i] == b[i - |a|];
  }

  lemma HeadWordsUnspaced(o: Options, p: Partition)
    requires ValuesUnspaced(o, p)
    ensures AllUnspaced(["lastz", ReferenceToken(o, p), QueryToken(o)])
  {
    var tag := RefLabel(o.refName);
    NoSpaceConcat(PyStr(o.refName), "::");
    NoSpaceConcat(tag, PyStr(o.input1));
    if p.Chromosome? {
      NoSpaceConcat(tag + PyStr(o.input1), "/");
      NoSpaceConcat(tag + PyStr(o.input1) + "/", p.key);
    }
    NoSpaceConcat(PyStr(o.input2), "[fullnames]");
  }

  lemma FormatWordUnspaced(o: Options)
    requires NoSpace(PyStr(o.format))
    ensures NoSpace("--format=" + FormatToken(o).0 + FormatToken(o).1)
  {
    if o.format == Some("tabular") {
      TabularFieldsUnspaced();
      assert NoSpace("general");
      FormatWordUnspacedFor("general", TabularFields);
    } else {
      FormatWordUnspacedFor(PyStr(o.format), "");
    }
  }

  lemma FormatWordUnspacedFor(fmt: string, fields: string)
    requires NoSpace(fmt) && NoSpace(fields)
    ensures NoSpace("--format=" + fmt + fields)
  {
    NoSpaceConcat("--format=", fmt);
    NoSpaceConcat("--format=" + fmt, fields);
  }

  lemma FilterWordsUnspaced(o: Options)
    requires ValuesUnspaced(o, WholeReference)
    ensures AllUnspaced(FilterWords(o))
  {
    FormatWordUnspaced(o);
    NoSpaceConcat("--identity=", PyStr(o.identityMin));
    NoSpaceConcat("--identity=" + PyStr(o.identityMin), "..");
    NoSpaceConcat("--identity=" + PyStr(o.identityMin) + "..", PyStr(o.identityMax));
    NoSpaceConcat("--coverage=", PyStr(o.coverage));
  }

  lemma OptionWordsUnspaced(o: Options)
    requires OptionValuesUnspaced(o)
    ensures AllUnspaced(OptionWords(o))
  {
    forall v | v in [o.preSetOptions, o.gfextend, o.chain, o.strand, o.seed, o.transition, o.entropy]
      ensures NoSpace(PyStr(v)) ==> NoSpace("--" + PyStr(v))
    {
      if NoSpace(PyStr(v)) {
        NoSpaceConcat("--", PyStr(v));
      }
    }
    if !IsPreset(o) {
      NoSpaceConcat("O=", PyStr(o.gapOpen));
      NoSpaceConcat("E=", PyStr(o.gapExtend));
      NoSpaceConcat("X=", PyStr(o.xDrop));
      NoSpaceConcat("Y=", PyStr(o.yDrop));
      NoSpaceConcat("K=", PyStr(o.hspThreshold));
      NoSpaceConcat("L=", PyStr(o.gappedThreshold));
    }
  }

  /** Every word of a command is space free when the values are. */
  lemma CommandWordsUnspaced(o: Options, p: Partition)
    requires ValuesUnspaced(o, p)
    ensures AllUnspaced(CommandWords(o, p))
  {
    var head := ["lastz", ReferenceToken(o, p), QueryToken(o)];
    assert ValuesUnspaced(o, WholeReference);
    HeadWordsUnspaced(o, p);
    OptionWordsUnspaced(o);
    FilterWordsUnspaced(o);
    AllUnspacedConcat(head, OptionWords(o));
    AllUnspacedConcat(head + OptionWords(o), FilterWords(o));
    AllUnspacedConcat(head + OptionWords(o) + FilterWords(o), [">>", PyStr(o.output)]);
  }

  /** When no value holds a space, splitting a command at spaces yields
      exactly its words: `lastz`, the reference, the reads, each parameter
      word in order, the fixed filter words, `>>` and the output. */
  lemma CommandSplitsIntoWords(o: Options, p: Partition)
    requires ValuesUnspaced(o, p)
    ensures Split(Command(o, p), ' ') == CommandWords(o, p)
  {
    CommandIsJoinedWords(o, p);
    CommandWordsUnspaced(o, p);
    SplitJoin(CommandWords(o, p), ' ');
  }

  /** The output path is pasted in unquoted: an output `a b` makes the
      command end in the two words `a` and `b`, which splitting at spaces
      recovers as its last two words. */
  lemma SpacedOutputIsResplit(o: Options, p: Partition, a: string, b: string)
    requires o.output == Some(a + " " + b) && NoSpace(a) && NoSpace(b)
    requires ValuesUnspaced(o.(output := Some("x")), p)
    ensures var w := Split(Command(o, p), ' ');
      |w| >= 2 && w[|w| - 2] == a && w[|w| - 1] == b
  {
    var q := o.(output := Some("x"));
    var init := LeadWords(o, p);
    LeadWordsIgnoreOutput(o, p, Some("x"));
    CommandWordsEnd(q, p);
    CommandWordsUnspaced(q, p);
    UnspacedInit(init, "x");
    SpacedTail(init, a, b);
    CommandWordsEnd(o, p);
    CommandIsJoinedWords(o, p);
  }

  /** The words of a command up to `>>`. */
  function LeadWords(o: Options, p: Partition): seq<string>
  {
    ["lastz", ReferenceToken(o, p), QueryToken(o)] + OptionWords(o) + FilterWords(o) + [">>"]
  }

  /** A command's words are its lead words and then the output path. */
  lemma CommandWordsEnd(o: Options, p: Partition)
    ensures CommandWords(o, p) == LeadWords(o, p) + [PyStr(o.output)]
  {
  }

  /** The lead words do not depend on the output path. */
  lemma LeadWordsIgnoreOutput(o: Options, p: Partition, v: Arg)
    ensures LeadWords(o.(output := v), p) == LeadWords(o, p)
  {
  }

  /** The words before the last of a space-free list are space-free. */
  lemma UnspacedInit(init: seq<string>, last: string)
    requires AllUnspaced(init + [last])
    ensures AllUnspaced(init)
  {
    assert forall i :: 0 <= i < |init| ==> init[i] == (init + [last])[i];
  }

  /** Space-free words followed by one word `a b` join to the same text as
      the words followed by `a` and `b`, so they split into the latter. */
  lemma SpacedTail(init: seq<string>, a: string, b: string)
    requires |init| >= 1 && AllUnspaced(init) && NoSpace(a) && NoSpace(b)
    ensures Split(Join(init + [a + " " + b], ' '), ' ') == init + [a, b]
  {
    JoinConcat(init, [a + " " + b], ' ');
    JoinConcat(init, [a, b], ' ');
    JoinCons(a, [b], ' ');
    AllUnspacedConcat(init, [a, b]);
    SplitJoin(init + [a, b], ' ');
  }

  /** The explicit parameter string splits into its thirteen words in the
      wrapper's order. */
  lemma SetOptionsSplitsIntoWords(o: Options)
    requires OptionValuesUnspaced(o)
    ensures Split(SetOptions(o), ' ') == OptionWords(o)
    ensures !IsPreset(o) ==> |OptionWords(o)| == 13 && OptionWords(o)[2] == "--gapped"
  {
    OptionWordsUnspaced(o);
    SplitJoin(OptionWords(o), ' ');
  }

  /** One command per partition, in partition order: a single command for a
      history reference, whatever the chromosome keys, and one per key, in
      key order, for any other reference source. */
  method BuildCommands(o: Options, chromKeys: seq<string>) returns (commands: seq<string>)
    ensures o.refSource == Some("history") ==> commands == [Command(o, WholeReference)]
    ensures o.refSource != Some("history") ==>
      && |commands| == |chromKeys|
      && forall i :: 0 <= i < |chromKeys| ==> commands[i] == Command(o, Chromosome(chromKeys[i]))
    ensures forall i :: 0 <= i < |commands| ==> "lastz " <= commands[i]
  {
    commands := [];
    if o.refSource == Some("history") {
      commands := commands + [Command(o, WholeReference)];
    } else {
      var i := 0;
      while i < |chromKeys|
        invariant 0 <= i <= |chromKeys|
        invariant |commands| == i
        invariant forall j :: 0 <= j < i ==> commands[j] == Command(o, Chromosome(chromKeys[j]))
      {
        commands := commands + [Command(o, Chromosome(chromKeys[i]))];
        i := i + 1;
      }
    }
  }
}
