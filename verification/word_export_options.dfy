/** Resolution of a document's word-processor exports: the front-matter
    export entries (already validated) plus an optional command-line file
    name become the list of exports with concrete output paths. */
module WordExportOptions {
  import opened Wrappers
  import opened Strings

  /** The export formats a front-matter entry may declare. */
  datatype ExportFormat = Pdf | Tex | PdfTex | Docx

  function FormatName(f: ExportFormat): string {
    match f
    case Pdf => "pdf"
    case Tex => "tex"
    case PdfTex => "pdf+tex"
    case Docx => "docx"
  }

  /** A validated front-matter export entry; `others` are the remaining
      declared fields, carried along untouched. */
  datatype Export = Export(format: ExportFormat, output: Option<string>, template: Option<string>,
                           others: seq<(string, string)>)

  /** An export with its concrete output path. */
  datatype ExportWithOutput = ExportWithOutput(format: ExportFormat, output: string, template: Option<string>,
                                               others: seq<(string, string)>)

  /** The pieces `path.parse` splits a path into. */
  datatype ParsedPath = ParsedPath(dir: string, name: string, ext: string)

  /** The Node `path` functions the resolver uses, left uninterpreted. */
  datatype PathOps = PathOps(
    resolve: (string, string) -> string,
    dirname: string -> string,
    join: (string, string) -> string,
    extname: string -> string,
    parse: string -> ParsedPath)

  /** Everything the resolver reads besides the entries: the source file,
      the target extension (without the dot), and the default export folder
      and file name computed for that file. */
  datatype ExportContext = ExportContext(file: string, extension: string, defaultFolder: string,
                                         defaultSlug: string, path: PathOps)

  /** The error thrown when no export is requested: it names the formats,
      the file, and the validation messages of the dropped entries. */
  datatype ExportError = NoExportOptions(formats: seq<ExportFormat>, file: string, causes: seq<string>)
  {
    /** The first line: the requested formats, joined by ", ", and the file. */
    function Headline(): (line: string)
      ensures StartsWith(line, "No export options of format " + Join(FormatNames(formats), ", "))
      ensures EndsWith(line, " defined in frontmatter of " + file)
    {
      var prefix := "No export options of format " + Join(FormatNames(formats), ", ");
      var line := prefix + " defined in frontmatter of " + file;
      assert line[..|prefix|] == prefix;
      assert line[|line| - |" defined in frontmatter of " + file|..] == " defined in frontmatter of " + file;
      line
    }

    /** The thrown message: the headline, then the validation messages as a
        bulleted list of possible causes when there are any. */
    function Message(): (m: string)
      ensures StartsWith(m, Headline())
      ensures |causes| == 0 <==> m == Headline()
      ensures |causes| > 0 ==> m[|Headline()|..] == "\nPossible causes:\n- " + Join(causes, "\n- ")
    {
      var head := Headline();
      if |causes| > 0 then
        var m := head + "\nPossible causes:\n- " + Join(causes, "\n- ");
        assert m[..|head|] == head;
        assert m[|head|..] == "\nPossible causes:\n- " + Join(causes, "\n- ");
        m
      else head
    }
  }

  function FormatNames(formats: seq<ExportFormat>): (names: seq<string>)
    ensures |names| == |formats|
    ensures forall i :: 0 <= i < |formats| ==> names[i] == FormatName(formats[i])
  {
    seq(|formats|, i requires 0 <= i < |formats| => FormatName(formats[i]))
  }

  /** The spread `{ ...exp, output }`: every field but `output` carries over. */
  function WithOutput(exp: Export, output: string): (r: ExportWithOutput)
    ensures r.output == output
    ensures Carries(exp, r)
  {
    ExportWithOutput(exp.format, output, exp.template, exp.others)
  }

  predicate Carries(exp: Export, r: ExportWithOutput) {
    r.format == exp.format && r.template == exp.template && r.others == exp.others
  }

  /** Two resolved exports agree on everything but their output. */
  predicate SameButOutput(a: ExportWithOutput, b: ExportWithOutput) {
    a.format == b.format && a.template == b.template && a.others == b.others
  }

  // ---------------------------------------------------------------------
  // Step 1: the validated entries of a requested format

  predicate Requested(entry: Option<Export>, formats: seq<ExportFormat>) {
    entry.Some? && entry.value.format in formats
  }

  /** `exports.map(validateExport).filter((exp) => exp && formats.includes(exp.format))`,
      given the validation results. */
  function Candidates(entries: seq<Option<Export>>, formats: seq<ExportFormat>): (r: seq<Export>)
    ensures |r| <= |entries|
    ensures forall e :: e in r <==> Some(e) in entries && e.format in formats
  {
    if entries == [] then []
    else
      var rest := Candidates(entries[1..], formats);
      assert forall x :: x in entries <==> x == entries[0] || x in entries[1..] by {
        assert entries == [entries[0]] + entries[1..];
      }
      if Requested(entries[0], formats) then [entries[0].value] + rest else rest
  }

  /** Filtering commutes with concatenation, so the candidates keep the
      entries' relative order. */
  lemma {:induction false} CandidatesAppend(a: seq<Option<Export>>, b: seq<Option<Export>>, formats: seq<ExportFormat>)
    ensures Candidates(a + b, formats) == Candidates(a, formats) + Candidates(b, formats)
    decreases |a|
  {
    if a == [] {
      assert a + b == b;
    } else {
      assert (a + b)[0] == a[0];
      assert (a + b)[1..] == a[1..] + b;
      CandidatesAppend(a[1..], b, formats);
    }
  }

  /** A single entry survives exactly when it validated with a requested format. */
  lemma CandidatesSingle(entry: Option<Export>, formats: seq<ExportFormat>)
    ensures Candidates([entry], formats) == if Requested(entry, formats) then [entry.value] else []
  {
    assert [entry][1..] == [];
  }

  // ---------------------------------------------------------------------
  // Step 2: a file name on the command line asks for a single export

  function Collapse(candidates: seq<Export>, formats: seq<ExportFormat>, filename: string): (r: seq<Export>)
    ensures filename == "" ==> r == candidates
    ensures filename != "" ==> |r| <= 1
    ensures filename != "" && candidates != [] ==> r == [candidates[0]]
    ensures filename != "" && candidates == [] && formats != [] ==> r == [Export(formats[0], None, None, [])]
    ensures r == [] <==> candidates == [] && (filename == "" || formats == [])
  {
    if filename == "" then candidates
    else if |candidates| > 0 then [candidates[0]]
    else if |formats| > 0 then [Export(formats[0], None, None, [])]
    else []
  }

  // ---------------------------------------------------------------------
  // Steps 3-5: the output path of one export

  /** The output before extension handling: the command-line file name, else
      the entry's own output resolved against the source file's folder,
      else the default export folder. An empty string counts as absent. */
  function RawOutput(ctx: ExportContext, exp: Export, filename: string): (out: string)
    ensures filename != "" ==> out == filename
    ensures filename == "" && exp.output.Some? && exp.output.value != ""
            ==> out == ctx.path.resolve(ctx.path.dirname(ctx.file), exp.output.value)
    ensures filename == "" && (exp.output.None? || exp.output.value == "") ==> out == ctx.defaultFolder
  {
    if filename != "" then filename
    else if exp.output.Some? && exp.output.value != "" then
      ctx.path.resolve(ctx.path.dirname(ctx.file), exp.output.value)
    else ctx.defaultFolder
  }

  /** The entry matters only through its declared output, and not at all
      once a file name is given. */
  lemma RawOutputDependsOnlyOnOutput(ctx: ExportContext, a: Export, b: Export, filename: string)
    requires filename != "" || a.output == b.output
             || ((a.output.None? || a.output.value == "") && (b.output.None? || b.output.value == ""))
    ensures RawOutput(ctx, a, filename) == RawOutput(ctx, b, filename)
  {
  }

  /** A path without an extension names a folder: the default file name
      with the target extension is joined onto it. */
  function WithDefaultFilename(ctx: ExportContext, out: string): (r: string)
    ensures ctx.path.extname(out) != "" ==> r == out
    ensures ctx.path.extname(out) == "" ==> r == ctx.path.join(out, ctx.defaultSlug + "." + ctx.extension)
  {
    if ctx.path.extname(out) == "" then ctx.path.join(out, ctx.defaultSlug + "." + ctx.extension)
    else out
  }

  /** The output path an export gets before the extension check. */
  function OutputPath(ctx: ExportContext, exp: Export, filename: string): string {
    WithDefaultFilename(ctx, RawOutput(ctx, exp, filename))
  }

  predicate HasExtension(ctx: ExportContext, out: string) {
    EndsWith(out, "." + ctx.extension)
  }

  /** One export with its output, or `None` when the output does not end
      with the target extension (the entry is dropped, not corrected). */
  function ResolveOne(ctx: ExportContext, exp: Export, filename: string): (r: Option<ExportWithOutput>)
    ensures r.Some? <==> HasExtension(ctx, OutputPath(ctx, exp, filename))
    ensures r.Some? ==> r.value.output == OutputPath(ctx, exp, filename) && Carries(exp, r.value)
  {
    var out := OutputPath(ctx, exp, filename);
    if HasExtension(ctx, out) then Some(WithOutput(exp, out)) else None
  }

  /** Every export that passes the extension check, in order. */
  function ResolveAll(ctx: ExportContext, exps: seq<Export>, filename: string): (r: seq<ExportWithOutput>)
    ensures |r| <= |exps|
    ensures forall i :: 0 <= i < |r| ==> HasExtension(ctx, r[i].output)
  {
    if exps == [] then []
    else
      var rest := ResolveAll(ctx, exps[1..], filename);
      match ResolveOne(ctx, exps[0], filename)
      case Some(e) => [e] + rest
      case None => rest
  }

  /** When every output has the wrong extension nothing survives. */
  lemma {:induction false} ResolveAllRejected(ctx: ExportContext, exps: seq<Export>, filename: string)
    requires forall e :: e in exps ==> !HasExtension(ctx, OutputPath(ctx, e, filename))
    ensures ResolveAll(ctx, exps, filename) == []
    decreases |exps|
  {
    if exps != [] {
      assert forall e :: e in exps[1..] ==> e in exps;
      ResolveAllRejected(ctx, exps[1..], filename);
    }
  }

  /** Resolution commutes with concatenation ... */
  lemma {:induction false} ResolveAllAppend(ctx: ExportContext, a: seq<Export>, b: seq<Export>, filename: string)
    ensures ResolveAll(ctx, a + b, filename) == ResolveAll(ctx, a, filename) + ResolveAll(ctx, b, filename)
    decreases |a|
  {
    if a == [] {
      assert a + b == b;
    } else {
      assert (a + b)[0] == a[0];
      assert (a + b)[1..] == a[1..] + b;
      ResolveAllAppend(ctx, a[1..], b, filename);
    }
  }

  /** ... and resolves a single export as `ResolveOne` does: survivors keep
      their candidates' order and fields. */
  lemma ResolveAllSingle(ctx: ExportContext, exp: Export, filename: string)
    ensures ResolveAll(ctx, [exp], filename)
         == match ResolveOne(ctx, exp, filename) case Some(e) => [e] case None => []
  {
    assert [exp][1..] == [];
  }

  // ---------------------------------------------------------------------
  // Step 6: repeated outputs get a positional suffix

  /** How many exports in `arr` have output `out`. */
  function CountOutput(arr: seq<ExportWithOutput>, out: string): (n: nat)
    ensures n <= |arr|
  {
    if arr == [] then 0
    else (if arr[0].output == out then 1 else 0) + CountOutput(arr[1..], out)
  }

  /** No export has the output: the count is zero. */
  lemma {:induction false} CountOutputAbsent(arr: seq<ExportWithOutput>, out: string)
    requires forall i :: 0 <= i < |arr| ==> arr[i].output != out
    ensures CountOutput(arr, out) == 0
    decreases |arr|
  {
    if arr != [] {
      assert forall i :: 0 <= i < |arr[1..]| ==> arr[1..][i] == arr[i + 1];
      CountOutputAbsent(arr[1..], out);
    }
  }

  lemma {:induction false} CountOutputAppend(a: seq<ExportWithOutput>, b: seq<ExportWithOutput>, out: string)
    ensures CountOutput(a + b, out) == CountOutput(a, out) + CountOutput(b, out)
    decreases |a|
  {
    if a == [] {
      assert a + b == b;
    } else {
      assert (a + b)[1..] == a[1..] + b;
      CountOutputAppend(a[1..], b, out);
    }
  }

  /** `path.join(dir, `${name}_${k}${ext}`)` for `path.parse(out)`. */
  function Suffixed(p: PathOps, out: string, k: nat): string {
    var parsed := p.parse(out);
    p.join(parsed.dir, parsed.name + "_" + NatToString(k) + parsed.ext)
  }

  /** The `i`-th export after de-duplication: unchanged when its output is
      unique, otherwise renamed with the number of equal outputs before it. */
  function DedupAt(p: PathOps, arr: seq<ExportWithOutput>, i: nat): (r: ExportWithOutput)
    requires i < |arr|
    ensures SameButOutput(r, arr[i])
  {
    var out := arr[i].output;
    if CountOutput(arr, out) == 1 then arr[i]
    else arr[i].(output := Suffixed(p, out, CountOutput(arr[..i], out)))
  }

  /** Makes identical outputs distinct. Every copy of a repeated output is
      rewritten, the first one included (it gets `_0`). */
  function Dedup(p: PathOps, arr: seq<ExportWithOutput>): (r: seq<ExportWithOutput>)
    ensures |r| == |arr|
    ensures forall i :: 0 <= i < |arr| ==> SameButOutput(r[i], arr[i])
    ensures forall i :: 0 <= i < |arr| && CountOutput(arr, arr[i].output) == 1 ==> r[i] == arr[i]
  {
    seq(|arr|, i requires 0 <= i < |arr| => DedupAt(p, arr, i))
  }

  /** Equal outputs before position `i`, plus the one at `i`, are strictly
      fewer than those before a later position `j` with the same output. */
  lemma CountBeforeGrows(arr: seq<ExportWithOutput>, i: nat, j: nat)
    requires i < j <= |arr|
    ensures CountOutput(arr[..i], arr[i].output) < CountOutput(arr[..j], arr[i].output)
  {
    var out := arr[i].output;
    assert arr[..j] == arr[..i] + arr[i..j];
    CountOutputAppend(arr[..i], arr[i..j], out);
    assert arr[i..j][0] == arr[i];
  }

  /** The rename of a repeated output: its position among the equal
      outputs, counted from 0, goes before the extension. */
  lemma DedupRenamesRepeated(p: PathOps, arr: seq<ExportWithOutput>, i: nat)
    requires i < |arr| && CountOutput(arr, arr[i].output) > 1
    ensures Dedup(p, arr)[i].output == Suffixed(p, arr[i].output, CountOutput(arr[..i], arr[i].output))
    ensures CountOutput(arr[..i], arr[i].output) < CountOutput(arr, arr[i].output)
  {
    CountBeforeGrows(arr, i, |arr|);
    assert arr[..|arr|] == arr;
  }

  /** The first of several equal outputs is not left alone: it gets `_0`. */
  lemma DedupFirstCopyGetsZero(p: PathOps, arr: seq<ExportWithOutput>, i: nat)
    requires i < |arr| && CountOutput(arr, arr[i].output) > 1
    requires forall j :: 0 <= j < i ==> arr[j].output != arr[i].output
    ensures Dedup(p, arr)[i].output == Suffixed(p, arr[i].output, 0)
  {
    DedupRenamesRepeated(p, arr, i);
    CountOutputAbsent(arr[..i], arr[i].output);
  }

  predicate DistinctOutputs(arr: seq<ExportWithOutput>) {
    forall i, j :: 0 <= i < j < |arr| ==> arr[i].output != arr[j].output
  }

  lemma {:induction false} CountOfDistinct(arr: seq<ExportWithOutput>, i: nat)
    requires i < |arr| && DistinctOutputs(arr)
    ensures CountOutput(arr, arr[i].output) == 1
    decreases |arr|
  {
    if i == 0 {
      assert forall k :: 0 <= k < |arr[1..]| ==> arr[1..][k].output != arr[0].output by {
        forall k | 0 <= k < |arr[1..]| ensures arr[1..][k].output != arr[0].output {
          assert arr[1..][k] == arr[k + 1];
        }
      }
      CountOutputAbsent(arr[1..], arr[0].output);
    } else {
      assert arr[1..][i - 1] == arr[i];
      CountOfDistinct(arr[1..], i - 1);
    }
  }

  /** Outputs that are already distinct are left as they are. */
  lemma DedupOfDistinct(p: PathOps, arr: seq<ExportWithOutput>)
    requires DistinctOutputs(arr)
    ensures Dedup(p, arr) == arr
  {
    forall i | 0 <= i < |arr| ensures Dedup(p, arr)[i] == arr[i] {
      CountOfDistinct(arr, i);
    }
  }

  /** A single path segment that `path.join` cannot normalise away: not
      empty, not `.` or `..`, and without a separator. */
  predicate PlainSegment(s: string) {
    s != "" && s != "." && s != ".." && '/' !in s
  }

  /** `path.join(dir, _)` tells different plain file names apart. POSIX
      `path.join` normalises `dir + "/" + name`, which keeps a plain
      segment intact, so it meets this. */
  ghost predicate JoinInjectiveIn(p: PathOps, dir: string) {
    forall a, b :: PlainSegment(a) && PlainSegment(b) && p.join(dir, a) == p.join(dir, b) ==> a == b
  }

  /** The renamed file name is a plain segment when the parsed name and
      extension hold no separator. */
  lemma SuffixedNamePlain(name: string, k: nat, ext: string)
    requires '/' !in name + ext
    ensures PlainSegment(name + "_" + NatToString(k) + ext)
  {
    var digits := NatToString(k);
    var s := name + "_" + digits + ext;
    assert s[|name|] == '_';
    assert '/' !in name && '/' !in ext by {
      assert forall c :: c in name + ext <==> c in name || c in ext;
    }
    assert s == name + ("_" + digits + ext);
  }

  /** Different positions give different names in the same folder. */
  lemma SuffixedInjective(p: PathOps, out: string, m: nat, n: nat)
    requires JoinInjectiveIn(p, p.parse(out).dir) && m != n
    requires '/' !in p.parse(out).name + p.parse(out).ext
    ensures Suffixed(p, out, m) != Suffixed(p, out, n)
  {
    var parsed := p.parse(out);
    var a := parsed.name + "_" + NatToString(m) + parsed.ext;
    var b := parsed.name + "_" + NatToString(n) + parsed.ext;
    SuffixedNamePlain(parsed.name, m, parsed.ext);
    SuffixedNamePlain(parsed.name, n, parsed.ext);
    if a == b {
      MiddleCancel(parsed.name + "_", NatToString(m), NatToString(n), parsed.ext);
      NatToStringInjective(m, n);
    }
  }

  /** Copies of one output are told apart, provided `path.join` does not
      merge distinct file names in that folder. */
  lemma DedupSeparatesCopies(p: PathOps, arr: seq<ExportWithOutput>, i: nat, j: nat)
    requires i < j < |arr| && arr[i].output == arr[j].output
    requires JoinInjectiveIn(p, p.parse(arr[i].output).dir)
    requires '/' !in p.parse(arr[i].output).name + p.parse(arr[i].output).ext
    ensures Dedup(p, arr)[i].output != Dedup(p, arr)[j].output
  {
    var out := arr[i].output;
    CountBeforeGrows(arr, i, j);
    CountBeforeGrows(arr, j, |arr|);
    assert arr[..|arr|] == arr;
    DedupRenamesRepeated(p, arr, i);
    DedupRenamesRepeated(p, arr, j);
    SuffixedInjective(p, out, CountOutput(arr[..i], out), CountOutput(arr[..j], out));
  }

  /** Uniqueness is NOT guaranteed: a renamed copy can land on the output
      another export declared literally. With outputs `o, o, o'` where `o'`
      is what `o`'s first copy is renamed to, the first and third results
      coincide. */
  lemma DedupMayCollide(p: PathOps, a: ExportWithOutput, b: ExportWithOutput)
    requires a.output != b.output && b.output == Suffixed(p, a.output, 0)
    ensures var r := Dedup(p, [a, a, b]); r[0].output == r[2].output
  {
    var arr := [a, a, b];
    assert arr[1..] == [a, b] && arr[1..][1..] == [b] && [b][1..] == [];
    assert CountOutput([b], a.output) == 0;
    assert CountOutput([b], b.output) == 1;
    assert CountOutput([a, b], a.output) == 1;
    assert CountOutput([a, b], b.output) == 1;
    assert CountOutput(arr, a.output) == 2;
    assert CountOutput(arr, b.output) == 1;
    assert CountOutput(arr[..0], a.output) == 0;
  }

  // ---------------------------------------------------------------------
  // The whole resolver

  /** `collectWordExportOptions(session, file, extension, formats, projectPath, { filename })`.
      `entries` are the front-matter entries after validation (`None` for one
      that failed) and `causes` the validation messages. The error is decided
      on the list BEFORE the extension check. */
  function CollectWordExportOptions(ctx: ExportContext, entries: seq<Option<Export>>, formats: seq<ExportFormat>,
                                    filename: string, causes: seq<string>): (r: Result<seq<ExportWithOutput>, ExportError>)
    ensures r.Failure? <==> Candidates(entries, formats) == [] && (filename == "" || formats == [])
    ensures r.Failure? ==> r.error == NoExportOptions(formats, ctx.file, causes)
    ensures r.Success? ==> |r.value| <= |Collapse(Candidates(entries, formats), formats, filename)|
    ensures r.Success? ==> r.value == Dedup(ctx.path, ResolveAll(ctx, Collapse(Candidates(entries, formats), formats, filename), filename))
  {
    var exportOptions := Collapse(Candidates(entries, formats), formats, filename);
    var resolved := Dedup(ctx.path, ResolveAll(ctx, exportOptions, filename));
    if |exportOptions| == 0 then Failure(NoExportOptions(formats, ctx.file, causes))
    else Success(resolved)
  }

  /** Dropping every export for its extension is not an error: the result
      is an empty list, because the error looks at the list before that check. */
  lemma AllRejectedIsEmptySuccess(ctx: ExportContext, entries: seq<Option<Export>>, formats: seq<ExportFormat>,
                                  filename: string, causes: seq<string>)
    requires Collapse(Candidates(entries, formats), formats, filename) != []
    requires forall e :: e in Collapse(Candidates(entries, formats), formats, filename)
                         ==> !HasExtension(ctx, OutputPath(ctx, e, filename))
    ensures CollectWordExportOptions(ctx, entries, formats, filename, causes) == Success([])
  {
    ResolveAllRejected(ctx, Collapse(Candidates(entries, formats), formats, filename), filename);
  }

  /** With a file name on the command line there is at most one export, and
      when the file name carries the target extension that export writes to
      exactly that file name. */
  lemma FilenameGivesSingleExport(ctx: ExportContext, entries: seq<Option<Export>>, formats: seq<ExportFormat>,
                                  filename: string, causes: seq<string>)
    requires filename != ""
    requires Candidates(entries, formats) != [] || formats != []
    requires ctx.path.extname(filename) != "" && HasExtension(ctx, filename)
    ensures var r := CollectWordExportOptions(ctx, entries, formats, filename, causes);
            r.Success? && |r.value| == 1 && r.value[0].output == filename
  {
    var exps := Collapse(Candidates(entries, formats), formats, filename);
    var resolved := ResolveAll(ctx, exps, filename);
    assert exps[1..] == [];
    assert |resolved| == 1;
    DedupOfDistinct(ctx.path, resolved);
  }
}
