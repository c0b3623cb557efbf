/** The TeX preamble helpers of the template engine: `\usepackage` lines for
    a template's packages, `\newcommand` definitions for its math macros,
    the rendered imports block, and the merge of two import declarations. */
module TexImports {
  import opened Wrappers
  import opened Strings
  import opened Seqs
  import opened StringOrder
  import opened Records

  /** Width of the `%` rulers and labelled comments around the block. */
  const CommentLength: nat := 50

  // ---------------------------------------------------------------------
  // \usepackage lines

  const UsePackagePrefix: string := "\\usepackage{"

  function UsePackage(pkg: string): (line: string)
    ensures StartsWith(line, UsePackagePrefix) && EndsWith(line, "}")
  {
    UsePackagePrefix + pkg + "}"
  }

  /** The package named by a `\usepackage{...}` line. */
  function PackageOf(line: string): string
    requires StartsWith(line, UsePackagePrefix) && EndsWith(line, "}")
    requires |line| >= |UsePackagePrefix| + 1
  {
    line[|UsePackagePrefix|..|line| - 1]
  }

  lemma PackageOfUsePackage(pkg: string)
    ensures |UsePackage(pkg)| >= |UsePackagePrefix| + 1
    ensures PackageOf(UsePackage(pkg)) == pkg
  {
    var line := UsePackage(pkg);
    assert line[|UsePackagePrefix|..|line| - 1] == pkg;
  }

  /** A package survives unless `existingPackages` is given and lists it. */
  predicate Kept(existingPackages: Option<seq<string>>, pkg: string) {
    existingPackages.None? || pkg !in existingPackages.value
  }

  /** `existingPackages ? sorted.filter((p) => !existingSet.has(p)) : sorted` */
  function FilterKept(s: seq<string>, existingPackages: Option<seq<string>>): (r: seq<string>)
    ensures forall p :: p in r <==> p in s && Kept(existingPackages, p)
    ensures StrictlySorted(s) ==> StrictlySorted(r)
  {
    if s == [] then []
    else
      var rest := FilterKept(s[1..], existingPackages);
      assert forall p :: p in s <==> p == s[0] || p in s[1..] by {
        assert s == [s[0]] + s[1..];
      }
      if Kept(existingPackages, s[0]) then
        assert StrictlySorted(s) ==> forall p :: p in rest ==> StrLt(s[0], p);
        [s[0]] + rest
      else rest
  }

  lemma {:induction false} NoDuplicatesCount(s: seq<string>, x: string)
    requires NoDuplicates(s)
    ensures multiset(s)[x] <= 1
    decreases |s|
  {
    if s != [] {
      assert s == [s[0]] + s[1..];
      NoDuplicatesCount(s[1..], x);
      if s[0] == x {
        assert x !in s[1..];
      }
    }
  }

  /** A permutation of a duplicate-free sequence is duplicate-free. */
  lemma PermutationNoDuplicates(a: seq<string>, b: seq<string>)
    requires NoDuplicates(a) && multiset(a) == multiset(b)
    ensures NoDuplicates(b)
  {
    forall i, j | 0 <= i < j < |b| ensures b[i] != b[j] {
      if b[i] == b[j] {
        var x := b[i];
        assert b == b[..i] + [x] + b[i + 1..j] + [x] + b[j + 1..];
        assert multiset(b)[x] >= 2;
        NoDuplicatesCount(a, x);
      }
    }
  }

  /** Every element is a `\usepackage{...}` line. */
  predicate ImportLines(r: seq<string>) {
    forall i :: 0 <= i < |r| ==> StartsWith(r[i], UsePackagePrefix) && EndsWith(r[i], "}")
                                 && |r[i]| >= |UsePackagePrefix| + 1
                                 && r[i] == UsePackage(PackageOf(r[i]))
  }

  /** The package names of import lines, in order. */
  function Names(r: seq<string>): (names: seq<string>)
    requires ImportLines(r)
    ensures |names| == |r|
    ensures forall i :: 0 <= i < |r| ==> names[i] == PackageOf(r[i])
  {
    seq(|r|, i requires 0 <= i < |r| => PackageOf(r[i]))
  }

  lemma InNames(r: seq<string>, pkg: string)
    requires ImportLines(r)
    ensures pkg in Names(r) <==> UsePackage(pkg) in r
  {
    PackageOfUsePackage(pkg);
    if pkg in Names(r) {
      var i :| 0 <= i < |r| && Names(r)[i] == pkg;
      assert r[i] == UsePackage(pkg);
    }
    if UsePackage(pkg) in r {
      var i :| 0 <= i < |r| && r[i] == UsePackage(pkg);
      assert Names(r)[i] == pkg;
    }
  }

  /** `createTexImportCommands(commands, existingPackages)`: the
      `\usepackage` lines for the packages of the set `commands` (kept in
      its insertion order, hence duplicate-free), sorted by package name,
      without those `existingPackages` already lists. */
  function CreateTexImportCommands(commands: seq<string>, existingPackages: Option<seq<string>>): (r: seq<string>)
    requires NoDuplicates(commands)
    ensures forall pkg :: UsePackage(pkg) in r <==> pkg in commands && Kept(existingPackages, pkg)
    ensures NoDuplicates(r)
    ensures ImportLines(r)
    ensures StrictlySorted(Names(r))
  {
    var sorted := Sort(commands);
    assert forall p :: p in sorted <==> p in commands by {
      assert forall p :: p in sorted <==> p in multiset(sorted);
    }
    PermutationNoDuplicates(commands, sorted);
    SortedDistinctIsStrict(sorted);
    var names := FilterKept(sorted, existingPackages);
    forall p ensures PackageOf(UsePackage(p)) == p && |UsePackage(p)| >= |UsePackagePrefix| + 1 {
      PackageOfUsePackage(p);
    }
    var r := seq(|names|, i requires 0 <= i < |names| => UsePackage(names[i]));
    assert Names(r) == names;
    forall pkg ensures UsePackage(pkg) in r <==> pkg in names {
      InNames(r, pkg);
    }
    StrictlySortedNoDuplicates(names);
    r
  }

  /** The import lines depend only on the SET of packages: any two
      insertion orders of the same packages give the same lines. */
  lemma ImportCommandsIgnoreInsertionOrder(a: seq<string>, b: seq<string>, existingPackages: Option<seq<string>>)
    requires NoDuplicates(a) && NoDuplicates(b)
    requires forall p :: p in a <==> p in b
    ensures CreateTexImportCommands(a, existingPackages) == CreateTexImportCommands(b, existingPackages)
  {
    var ra, rb := CreateTexImportCommands(a, existingPackages), CreateTexImportCommands(b, existingPackages);
    forall p ensures p in Names(ra) <==> p in Names(rb) {
      InNames(ra, p);
      InNames(rb, p);
    }
    StrictlySortedUnique(Names(ra), Names(rb));
    forall i | 0 <= i < |ra| ensures ra[i] == rb[i] {
      assert ra[i] == UsePackage(Names(ra)[i]);
    }
  }

  // ---------------------------------------------------------------------
  // \newcommand definitions

  predicate IsArgDigit(c: char) {
    '1' <= c <= '9'
  }

  /** Reference count: the positions where `#` is followed by a digit 1-9. */
  function PlaceholderCount(s: string): nat {
    if |s| < 2 then 0
    else (if s[0] == '#' && IsArgDigit(s[1]) then 1 else 0) + PlaceholderCount(s[1..])
  }

  /** `v.match(/#([1-9])/g)?.length ?? 0`: the global scan tries a match at
      each position, and a successful match resumes after its two characters. */
  function MatchCount(s: string): nat {
    if |s| < 2 then 0
    else if s[0] == '#' && IsArgDigit(s[1]) then 1 + MatchCount(s[2..])
    else MatchCount(s[1..])
  }

  /** Matches never overlap (a digit cannot start one), so the regex counts
      every placeholder occurrence, repeated ones included. */
  lemma {:induction false} MatchCountIsPlaceholderCount(s: string)
    ensures MatchCount(s) == PlaceholderCount(s)
    decreases |s|
  {
    if |s| >= 2 {
      if s[0] == '#' && IsArgDigit(s[1]) {
        assert s[1..][1..] == s[2..];
        MatchCountIsPlaceholderCount(s[2..]);
      } else {
        MatchCountIsPlaceholderCount(s[1..]);
      }
    }
  }

  /** The optional `[n]` argument count of a definition. */
  function ArgSpec(n: nat): (spec: string)
    ensures n == 0 <==> spec == ""
  {
    if n == 0 then "" else "[" + NatToString(n) + "]"
  }

  /** One math macro `k` with body `v` as a `\newcommand`. */
  function NewCommand(k: string, v: string): (line: string)
    ensures line == "\\newcommand{" + k + "}" + ArgSpec(PlaceholderCount(v)) + "{" + v + "}"
  {
    MatchCountIsPlaceholderCount(v);
    var numArgs := MatchCount(v);
    if numArgs == 0 then "\\newcommand{" + k + "}{" + v + "}"
    else "\\newcommand{" + k + "}[" + NatToString(numArgs) + "]{" + v + "}"
  }

  /** `createTexMathCommands(plugins)`: one definition per entry, in entry
      order; nothing for an absent or empty record. */
  function CreateTexMathCommands(plugins: Option<Record>): (r: seq<string>)
    ensures plugins.None? ==> r == []
    ensures plugins.Some? ==> |r| == |plugins.value|
    ensures plugins.Some? ==> forall i :: 0 <= i < |r| ==>
              r[i] == NewCommand(plugins.value[i].0, plugins.value[i].1)
  {
    if plugins.None? || |plugins.value| == 0 then []
    else
      var entries := plugins.value;
      seq(|entries|, i requires 0 <= i < |entries| => NewCommand(entries[i].0, entries[i].1))
  }

  /** A body that uses `#1` twice declares two arguments, not one. */
  lemma RepeatedPlaceholderCountsTwice()
    ensures MatchCount("#1+#1") == 2
    ensures ArgSpec(MatchCount("#1+#1")) == "[2]"
  {
    assert "#1+#1"[2..] == "+#1";
    assert "+#1"[1..] == "#1";
    assert "#1"[2..] == "";
    assert NatToString(2) == "2";
  }

  // ---------------------------------------------------------------------
  // The rendered block

  /** A template's declared imports and math macros. */
  datatype TexTemplateImports = TexTemplateImports(imports: seq<string>, commands: Record)

  /** The template field is either raw preamble text or structured imports. */
  datatype TemplateImportsField = RawPreamble(text: string) | Structured(value: TexTemplateImports)

  /** `writeTexLabelledComment(label, lines, width)` from a library this
      model does not include, left uninterpreted. */
  type LabelledComment = (string, seq<string>, nat) -> string

  /** The 50-character `%` ruler, `''.padEnd(commentLength, '%')`. */
  function Ruler(): (ruler: string)
    ensures |ruler| == CommentLength
    ensures forall i :: 0 <= i < |ruler| ==> ruler[i] == '%'
  {
    Repeat('%', CommentLength)
  }

  /** The text between the rulers: raw text verbatim (an absent field counts
      as empty text); otherwise the labelled imports block followed by the
      labelled math-commands block. */
  function ImportsAndCommands(templateImports: Option<TemplateImportsField>, existingPackages: Option<seq<string>>,
                              comment: LabelledComment): (body: string)
    ensures templateImports.None? ==> body == ""
    ensures templateImports.Some? && templateImports.value.RawPreamble? ==> body == templateImports.value.text
    ensures templateImports.Some? && templateImports.value.Structured? ==>
              var t := templateImports.value.value;
              body == comment("imports", CreateTexImportCommands(Distinct(t.imports), existingPackages), CommentLength)
                      + comment("math commands", CreateTexMathCommands(Some(t.commands)), CommentLength)
  {
    match templateImports
    case None => ""
    case Some(RawPreamble(text)) => text
    case Some(Structured(t)) =>
      var packages := Distinct(t.imports);
      var imports := comment("imports", CreateTexImportCommands(packages, existingPackages), CommentLength);
      var commands := comment("math commands", CreateTexMathCommands(Some(t.commands)), CommentLength);
      imports + commands
  }

  /** `preamble ? `${preamble}\n` : ''` */
  function PreambleContent(preamble: Option<string>): (content: string)
    ensures content == "" <==> preamble.None? || preamble.value == ""
    ensures content != "" ==> content == preamble.value + "\n"
  {
    if preamble.Some? && preamble.value != "" then preamble.value + "\n" else ""
  }

  /** `renderTexImports(templateImports, existingPackages, preamble)` */
  function RenderTexImports(templateImports: Option<TemplateImportsField>, existingPackages: Option<seq<string>>,
                            preamble: Option<string>, comment: LabelledComment): (text: string)
    ensures EndsWith(text, PreambleContent(preamble))
    ensures ImportsAndCommands(templateImports, existingPackages, comment) == "" ==> text == PreambleContent(preamble)
  {
    var body := ImportsAndCommands(templateImports, existingPackages, comment);
    var content := PreambleContent(preamble);
    if body == "" then content
    else
      var text := Ruler() + "\n" + body + Ruler() + "\n" + content;
      assert text[|text| - |content|..] == content;
      text
  }

  /** With a non-empty body the output is: ruler line, body, ruler line,
      then the preamble — which therefore always follows the closing ruler. */
  lemma RenderLayout(templateImports: Option<TemplateImportsField>, existingPackages: Option<seq<string>>,
                     preamble: Option<string>, comment: LabelledComment)
    ensures var body := ImportsAndCommands(templateImports, existingPackages, comment);
            var text := RenderTexImports(templateImports, existingPackages, preamble, comment);
            var n := CommentLength + 1;
            body != "" ==>
            && |text| == 2 * n + |body| + |PreambleContent(preamble)|
            && text[..n] == Ruler() + "\n"
            && text[n..n + |body|] == body
            && text[n + |body|..2 * n + |body|] == Ruler() + "\n"
            && text[2 * n + |body|..] == PreambleContent(preamble)
  {
    var body := ImportsAndCommands(templateImports, existingPackages, comment);
    if body != "" {
      var line := Ruler() + "\n";
      assert |line| == CommentLength + 1;
      var content := PreambleContent(preamble);
      assert RenderTexImports(templateImports, existingPackages, preamble, comment) == line + body + line + content;
      FramedSlices(line, body, content);
    }
  }

  /** Where the parts of `line + body + line + content` sit. */
  lemma FramedSlices(line: string, body: string, content: string)
    ensures var text := line + body + line + content;
            var n := |line|;
            && |text| == 2 * n + |body| + |content|
            && text[..n] == line
            && text[n..n + |body|] == body
            && text[n + |body|..2 * n + |body|] == line
            && text[2 * n + |body|..] == content
  {
    var text := line + body + line + content;
    var n := |line|;
    assert text[..n] == line;
    assert text[n..n + |body|] == body;
    assert text[n + |body|..2 * n + |body|] == line;
    assert text[2 * n + |body|..] == content;
  }

  /** The output is empty exactly when there is neither imports/commands
      text nor a preamble. */
  lemma RenderEmptyIff(templateImports: Option<TemplateImportsField>, existingPackages: Option<seq<string>>,
                       preamble: Option<string>, comment: LabelledComment)
    ensures RenderTexImports(templateImports, existingPackages, preamble, comment) == ""
        <==> ImportsAndCommands(templateImports, existingPackages, comment) == ""
             && (preamble.None? || preamble.value == "")
  {
    RenderLayout(templateImports, existingPackages, preamble, comment);
  }

  // ---------------------------------------------------------------------
  // Merging two declarations

  /** A `Partial<TexTemplateImports>`: either field may be absent. */
  datatype PartialImports = PartialImports(imports: Option<seq<string>>, commands: Option<Record>)

  /** `x?.commands`, absent counting as the empty record. */
  function CommandsOf(x: Option<PartialImports>): Record {
    if x.Some? && x.value.commands.Some? then x.value.commands.value else []
  }

  /** `x?.imports ?? []` */
  function ImportsOf(x: Option<PartialImports>): seq<string> {
    if x.Some? && x.value.imports.Some? then x.value.imports.value else []
  }

  /** `mergeTexTemplateImports(current, next)` */
  function MergeTexTemplateImports(current: Option<PartialImports>, next: Option<PartialImports>): (r: TexTemplateImports)
    requires UniqueKeys(CommandsOf(current)) && UniqueKeys(CommandsOf(next))
    ensures UniqueKeys(r.commands)
    ensures Keys(CommandsOf(current)) <= Keys(r.commands)
    ensures Keys(r.commands) == DistinctFrom(Keys(CommandsOf(current)), Keys(CommandsOf(next)))
    ensures forall k :: k in Keys(r.commands) <==> k in Keys(CommandsOf(current)) || k in Keys(CommandsOf(next))
    ensures forall k :: Lookup(r.commands, k)
                     == if Lookup(CommandsOf(next), k).Some? then Lookup(CommandsOf(next), k)
                        else Lookup(CommandsOf(current), k)
    ensures r.imports == Distinct(ImportsOf(current) + ImportsOf(next))
    ensures NoDuplicates(r.imports)
    ensures forall x :: x in r.imports <==> x in ImportsOf(current) || x in ImportsOf(next)
    ensures Distinct(ImportsOf(current)) <= r.imports
  {
    var commands := Overlay(CommandsOf(current), CommandsOf(next));
    forall k ensures Lookup(commands, k)
                  == if Lookup(CommandsOf(next), k).Some? then Lookup(CommandsOf(next), k)
                     else Lookup(CommandsOf(current), k) {
      OverlayLookup(CommandsOf(current), CommandsOf(next), k);
    }
    var imports := Distinct(ImportsOf(current) + ImportsOf(next));
    DistinctAppend(ImportsOf(current), ImportsOf(next));
    TexTemplateImports(imports, commands)
  }

  const ExampleCurrent: Option<PartialImports> := Some(PartialImports(Some(["a", "b"]), Some([("x", "1")])))
  const ExampleNext: Option<PartialImports> := Some(PartialImports(Some(["b", "c"]), Some([("x", "2"), ("y", "3")])))

  lemma DistinctExample()
    ensures Distinct(["a", "b", "b", "c"]) == ["a", "b", "c"]
  {
    var ab: seq<string> := ["a", "b"];
    assert "a" != "b" && "a" != "c" && "b" != "c" by {
      assert "a"[0] != "b"[0] && "a"[0] != "c"[0] && "b"[0] != "c"[0];
    }
    DistinctOfDistinct(ab);
    DistinctAppend(ab, ["b", "c"]);
    assert ab + ["b", "c"] == ["a", "b", "b", "c"];
    assert ["b", "c"][1..] == ["c"];
    assert DistinctFrom(ab, ["b", "c"]) == DistinctFrom(ab, ["c"]);
    assert DistinctFrom(ab, ["c"]) == DistinctFrom(ab + ["c"], []);
  }

  /** Union on imports: merging imports `a, b` with `b, c` gives `a, b, c`. */
  lemma MergeExampleImports()
    ensures MergeTexTemplateImports(ExampleCurrent, ExampleNext).imports == ["a", "b", "c"]
  {
    DistinctExample();
    assert ImportsOf(ExampleCurrent) + ImportsOf(ExampleNext) == ["a", "b", "b", "c"];
  }

  /** Override on commands: `{x: 1}` under `{x: 2, y: 3}` gives `{x: 2, y: 3}`. */
  lemma MergeExampleCommands()
    ensures MergeTexTemplateImports(ExampleCurrent, ExampleNext).commands == [("x", "2"), ("y", "3")]
  {
    assert Keys([("x", "1")]) == ["x"];
    assert Keys([("x", "2"), ("y", "3")]) == ["x", "y"];
    var step := Assign([("x", "1")], "x", "2");
    assert step == [("x", "2")];
    assert Assign(step, "y", "3") == [("x", "2"), ("y", "3")];
    assert [("x", "2"), ("y", "3")][1..] == [("y", "3")];
    assert [("y", "3")][1..] == [];
  }
}
