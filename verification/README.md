# Export resolution and TeX preamble helpers, modelled in Dafny

This project models two pure pieces of the MyST command-line tooling.

- **Export-option resolution** (`collectWordExportOptions`). The exports declared in a
  document's front matter, plus an optional file name given on the command line, become
  the list of exports with concrete output paths. The steps are:
  1. keep the validated entries of a requested format;
  2. collapse to a single entry when a file name is given;
  3. pick the output path by precedence;
  4. add a default file name to a folder path, and drop outputs with the wrong extension;
  5. rename repeated outputs with a positional suffix;
  6. throw when no validated entry of a requested format remains and no file name plus
     format stands in for one.
- **TeX import helpers** (`imports.ts`). These build the sorted `\usepackage` lines,
  build the `\newcommand` definitions of math macros, render the preamble block between
  50-character `%` rulers, and merge two import/command declarations.

Modules:

- `Wrappers`: `Option` and `Result`.
- `Strings`: suffix tests, decimal rendering of naturals, join, repeat.
- `Seqs`: duplicate-free sequences and `[...new Set(xs)]`.
- `StringOrder`: the default string order of `Array.prototype.sort` and a functional insertion sort.
- `Records`: a `Record<string, string>` as an association list, with object-spread overlay.
- `TexImports`: the TeX helpers.
- `WordExportOptions`: the resolver.

Collaborators are parameters:

- Node's `path.resolve`, `dirname`, `join`, `extname` and `parse` are the function-valued
  fields of `PathOps`.
- `writeTexLabelledComment` is the function-valued parameter `LabelledComment`.
- The front-matter loader and `validateExport` are replaced by their results. The caller
  passes a `seq<Option<Export>>`, with `None` for an entry that failed validation, and
  the validation messages.
- The default export folder and file name are plain strings in `ExportContext`.
- An absent `exports` list is the empty sequence.

JavaScript truthiness is explicit. An empty file name, an empty declared `output`, an
empty preamble and an empty raw template text all count as absent.

Where the code differs from the behaviour one might expect, the model follows the code:

- De-duplication rewrites EVERY copy of a repeated output, the first one included. The
  copies become `name_0.ext`, `name_1.ext`, …. The first copy is not left unchanged and
  numbering does not start at `_1` (`DedupFirstCopyGetsZero`).
- The "no export options" error tests the list before the extension check. If every
  entry is then dropped for its extension, the result is an empty list, not an error
  (`AllRejectedIsEmptySuccess`).
- Outputs are not guaranteed unique. A renamed copy can collide with an output that
  another entry declared literally (`DedupMayCollide`). Copies of one output are told
  apart only when `path.join` keeps distinct file names apart (`DedupSeparatesCopies`).
- The argument count of a math macro is the number of occurrences of `#1`–`#9`, not the
  number of distinct placeholders. `#1+#1` declares two arguments.
- Merged imports keep first-occurrence order. Order is not discarded.
- A structured declaration with no imports and no commands still renders the two labelled
  comments. Whether that text is empty depends on `writeTexLabelledComment`, which the model
  leaves uninterpreted.

## Model

| member | source | states |
|---|---|---|
| WordExportOptions.Candidates | apps/cli/src/export/word/single.ts:36-44 | an export is a candidate iff it is a validated entry whose format is requested; never more candidates than entries |
| WordExportOptions.CandidatesAppend | apps/cli/src/export/word/single.ts:36-44 | filtering distributes over concatenation, so candidates keep the entries' order |
| WordExportOptions.CandidatesSingle | apps/cli/src/export/word/single.ts:44 | a single entry survives iff it validated and its format is requested |
| WordExportOptions.Collapse | apps/cli/src/export/word/single.ts:46-54 | without a file name the list is unchanged; with one it is the first candidate, else a bare entry of the first format, else empty; length at most 1; empty iff no candidates and (no file name or no formats) |
| WordExportOptions.RawOutput | apps/cli/src/export/word/single.ts:57-65 | precedence: file name, else the entry's output resolved against the source file's folder, else the default export folder |
| WordExportOptions.RawOutputDependsOnlyOnOutput | apps/cli/src/export/word/single.ts:57-65 | two entries with the same declared output, or both without one, get the same raw path; with a file name every entry gets it |
| WordExportOptions.WithDefaultFilename | apps/cli/src/export/word/single.ts:66-69 | a path without extension gets the default slug plus extension joined on; a path with one is untouched |
| WordExportOptions.WithOutput | apps/cli/src/export/word/single.ts:74 | the spread sets the output and carries format, template and other fields unchanged |
| WordExportOptions.ResolveOne | apps/cli/src/export/word/single.ts:70-74 | an export survives iff its output ends with "." + extension; a survivor keeps that output and all other fields |
| WordExportOptions.ResolveAll | apps/cli/src/export/word/single.ts:55-76 | survivors number at most the candidates and all end with "." + extension |
| WordExportOptions.ResolveAllRejected | apps/cli/src/export/word/single.ts:70-76 | when every candidate's output fails the extension check the resolved list is empty |
| WordExportOptions.ResolveAllAppend | apps/cli/src/export/word/single.ts:55-76 | resolving distributes over concatenation, so survivors keep their candidates' order |
| WordExportOptions.ResolveAllSingle | apps/cli/src/export/word/single.ts:55-76 | a single candidate resolves to its ResolveOne result: one export with its output and fields, or nothing |
| WordExportOptions.Dedup | apps/cli/src/export/word/single.ts:77-86 | length and order preserved, only outputs change, an output occurring once is unchanged |
| WordExportOptions.DedupRenamesRepeated | apps/cli/src/export/word/single.ts:79-85 | a repeated output at position i becomes name_k.ext with k its 0-based rank among equal outputs, k below the number of copies |
| WordExportOptions.DedupFirstCopyGetsZero | apps/cli/src/export/word/single.ts:79-85 | the first copy of a repeated output is also rewritten, to the _0 name |
| WordExportOptions.DedupOfDistinct | apps/cli/src/export/word/single.ts:79-80 | a list with distinct outputs is left unchanged |
| WordExportOptions.SuffixedNamePlain | apps/cli/src/export/word/single.ts:84 | name_k.ext is a single plain path segment (not empty, not . or .., no separator) when the parsed name and extension hold no separator |
| WordExportOptions.SuffixedInjective | apps/cli/src/export/word/single.ts:84 | different ranks give different names in the same folder, given that join keeps plain segments apart there and the parsed name and extension hold no separator |
| WordExportOptions.DedupSeparatesCopies | apps/cli/src/export/word/single.ts:77-86 | two copies of one output end up with different outputs, given that join keeps plain segments apart in their folder and the parsed name and extension hold no separator |
| WordExportOptions.DedupMayCollide | apps/cli/src/export/word/single.ts:77-86 | counterexample to uniqueness: outputs o, o, o' with o' the _0 name of o give equal first and third results |
| WordExportOptions.CollectWordExportOptions | apps/cli/src/export/word/single.ts:25-100 | throws iff there is no validated matching entry and (no file name or no formats), with the formats, file and validation messages; otherwise the de-duplicated resolved list, never longer than the collapsed list |
| WordExportOptions.ExportError.Message | apps/cli/src/export/word/single.ts:88-94 | the message starts with the headline naming the formats (joined by ", ") and the file; it is exactly the headline iff there are no validation messages, otherwise the headline is followed by "\nPossible causes:\n- " and the messages joined by "\n- " |
| WordExportOptions.AllRejectedIsEmptySuccess | apps/cli/src/export/word/single.ts:70-95 | when every collapsed entry fails the extension check the result is success with an empty list |
| WordExportOptions.FilenameGivesSingleExport | apps/cli/src/export/word/single.ts:46-69 | a command-line file name with the right extension yields exactly one export, written to that file name |
| TexImports.FilterKept | packages/jtex/src/tex/imports.ts:11-12 | keeps exactly the packages not listed as existing; preserves strict sortedness |
| TexImports.CreateTexImportCommands | packages/jtex/src/tex/imports.ts:6-14 | one \usepackage line per package of the set not already present, no duplicates, in strictly increasing package order |
| TexImports.ImportCommandsIgnoreInsertionOrder | packages/jtex/src/tex/imports.ts:10-13 | two sets with the same packages, in any insertion order, give identical lines |
| TexImports.MatchCountIsPlaceholderCount | packages/jtex/src/tex/imports.ts:19 | the global regex count equals the number of positions holding # followed by 1-9 |
| TexImports.RepeatedPlaceholderCountsTwice | packages/jtex/src/tex/imports.ts:19 | "#1+#1" counts two arguments and renders "[2]" |
| TexImports.NewCommand | packages/jtex/src/tex/imports.ts:19-21 | the definition is \newcommand{k}, then [n] for n placeholder occurrences (nothing when n = 0), then {v} |
| TexImports.CreateTexMathCommands | packages/jtex/src/tex/imports.ts:16-23 | nothing for an absent record; otherwise one definition per entry, in entry order |
| TexImports.Ruler | packages/jtex/src/tex/imports.ts:49 | the ruler is 50 '%' characters |
| TexImports.ImportsAndCommands | packages/jtex/src/tex/imports.ts:30-46 | an absent field gives empty text, a raw-text field is used verbatim, and a structured field gives the labelled "imports" comment over the import lines of its de-duplicated imports, then the labelled "math commands" comment over its command definitions |
| TexImports.PreambleContent | packages/jtex/src/tex/imports.ts:47 | empty iff the preamble is absent or empty, otherwise the preamble plus a newline |
| TexImports.RenderTexImports | packages/jtex/src/tex/imports.ts:47-50 | the output always ends with the preamble content; with no imports/commands text it is exactly that content |
| TexImports.RenderLayout | packages/jtex/src/tex/imports.ts:49-50 | with text present the output is ruler line, text, ruler line, preamble content, at those exact positions |
| TexImports.RenderEmptyIff | packages/jtex/src/tex/imports.ts:47-50 | the output is empty iff there is no imports/commands text and no preamble |
| TexImports.MergeTexTemplateImports | packages/jtex/src/tex/imports.ts:53-61 | merged command keys are current's keys followed by next's new keys in next's order, and next's value wins on shared keys; merged imports are exactly the de-duplication of current's imports followed by next's |
| TexImports.MergeExampleImports | packages/jtex/src/tex/imports.ts:59 | imports a, b merged with b, c give a, b, c |
| TexImports.MergeExampleCommands | packages/jtex/src/tex/imports.ts:58 | {x: 1} overlaid by {x: 2, y: 3} gives {x: 2, y: 3} in that key order |
| Records.Lookup | packages/jtex/src/tex/imports.ts:58 | a key has a value iff it is one of the record's keys, and that value is the one paired with the key in the record |
| Records.LookupAt | packages/jtex/src/tex/imports.ts:58 | in a record with unique keys, each entry's key reads that entry's value |
| Records.Assign | packages/jtex/src/tex/imports.ts:58 | assigning keeps an existing key in place or appends a new one; the key reads the new value and other keys are unchanged |
| Records.Overlay | packages/jtex/src/tex/imports.ts:58 | the spread keeps unique keys; its keys are base's keys followed by top's new keys in top's order |
| Records.OverlayLookup | packages/jtex/src/tex/imports.ts:58 | a key reads top's value where top defines it, else base's |
| Seqs.Distinct | packages/jtex/src/tex/imports.ts:59 | the Set spread is duplicate-free with exactly the input's elements |
| Seqs.DistinctSnoc | packages/jtex/src/tex/imports.ts:59 | appending an element leaves the result unchanged if it was present, else appends it (first-occurrence order) |
| Seqs.DistinctAppend | packages/jtex/src/tex/imports.ts:59 | de-duplicating a concatenation starts with the de-duplicated left part |
| Seqs.DistinctOfDistinct | packages/jtex/src/tex/imports.ts:59 | a duplicate-free sequence is its own de-duplication |
| StringOrder.Sort | packages/jtex/src/tex/imports.ts:10 | the sort result is ordered and a permutation of its input |
| StringOrder.StrictlySortedUnique | packages/jtex/src/tex/imports.ts:10 | two strictly sorted sequences with the same elements are equal |
| Strings.NatToStringInjective | apps/cli/src/export/word/single.ts:84 | distinct numbers print as distinct decimal strings |

## Left out

- `runWordExport` and `localArticleToWord` (apps/cli/src/export/word/single.ts:102-153): the docx serializer, image reads, file writes and the concurrent fan-out are I/O.
- packages/myst-cli/src/build/pdf/create.ts is not part of this model. It is file-system and process plumbing: the temporary folder, recursive copy, running the LaTeX command, copying files back and existence checks.
- Loading the front matter and `validateExport`'s schema checks are foreign calls. Their results are inputs: validated entries as `Option<Export>` and the validation messages.
- `getDefaultExportFolder` and `getDefaultExportFilename` are foreign calls. Their results are inputs.
- Node `path` semantics are not modelled. `resolve`, `dirname`, `join`, `extname` and `parse` stay uninterpreted. The uniqueness lemmas assume only that `join(dir, _)` keeps different plain segments apart, which POSIX `path.join` does, since it normalises `dir + "/" + name` and leaves a plain segment intact.
- `writeTexLabelledComment` lives in a library this model does not include, so it stays uninterpreted.
- Session logging (apps/cli/src/export/word/single.ts:71, 96-98) is not modelled. Logging has no effect on the result.
- WordExportOptions.ExportFormat: only the formats pdf, tex, pdf+tex and docx are listed. Other front-matter fields are an opaque list carried through unchanged.
- WordExportOptions.DedupSeparatesCopies: uniqueness is proved only under the stated hypotheses: `path.join` keeps plain segments apart, and the parsed name and extension hold no `/`. The source promises nothing stronger, and `DedupMayCollide` shows that unconditional uniqueness fails.
- StringOrder.Sort: compares characters by Unicode scalar value. JavaScript compares UTF-16 code units. The two orders differ only between characters above U+FFFF and those in U+E000–U+FFFF.
- Records.Overlay: JavaScript lists integer-like object keys first, in numeric order. That ordering is not modelled; keys are kept in insertion order. TeX command names begin with a backslash, so they are never integer-like.
- TexImports.CreateTexImportCommands: requires its input to be duplicate-free, because the source's parameter is a `Set`. `renderTexImports` builds that set with `Distinct`.
- TexImports.MergeTexTemplateImports: requires each input record to have unique keys, as JavaScript objects do.
