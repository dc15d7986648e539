# tech-stack-collector, modelled in Dafny

This project models the deterministic core of `tech-stack-collector`. That tool
runs `collector.py` on a server, directly or piped over SSH by
`remote_runner.py`, and writes a Markdown "tech stack" report per server plus
an index of the run. Only the text and collection logic is modelled:

- `text.dfy` (`Text`): the helpers the other modules rely on. These are
  `str.split`/`str.join` on one separator with their round trips, the
  `str.strip` family over Python's whitespace set, substring and prefix
  tests, decimal rendering of naturals and Python's code-point string order
  with a sorted listing of a set.
- `markdown.dfy` (`Markdown`): `md_table` and `md_bullets`.
- `tagformat.dfy` (`TagFormat`) and `tags.dfy` (`Tags`): the `TagStore`
  class. Its map from category to a set of tags is filled by `add`, `merge`
  and the three `resolve_*` lookups and rendered by `format_tags`.
- `collectors.dfy` (`Collectors`): the post-processing inside
  `collect_services` and `collect_ports`, and the order in which
  `build_report` assembles sections.
- `relay.dfy` (`Relay`): the stdout line buffer of `run_on_target`. It is fed
  abstract byte chunks and appends stderr after a nonzero exit.
- `runner.dfy` (`Runner`): the report-name sanitiser, the ok/failed
  classification, the per-target results loop, the run directory name and
  the `_index.md` text.
- `config.dfy` (`Config`): `_yaml_val`, the fallback parser
  `_basic_yaml_parse` and the validate-and-default loop of `load_config`.

Some pieces of Python depend on Unicode tables. These are function
parameters that every member takes unchanged:

- UTF-8 decoding with `errors="replace"` is `decode`.
- `str.isalnum` is `isAlnum`.
- The regular-expression class `\w` is `isWord`.
- `str.lower` is `lower`.

Whitespace is Python's `str.isspace` set written out. `str.isdigit` is the
ASCII digits. Python orders strings by code point, and so does the model.

The `TagStore` and the loops that build lists or dictionaries step by step
are imperative:

- `TagStore` is a class with a `tags` field.
- `md_table`, `format_tags`, the services partition, the ports parse, the
  section assembly, the stdout loop, the YAML parser, the defaulting loop,
  the results loop and `write_index` are methods with loops.

Each method is proved equal to a specification function. Lemmas state what
that function promises.

## Model

| member | source | states |
|---|---|---|
| Markdown.Cell | tools/tech-stack-collector/collector.py:67 | a rendered cell holds no `\|` and no newline and is at most 120 characters long (the length of the input, capped at 120) |
| Markdown.CellCharacters | tools/tech-stack-collector/collector.py:67 | a cell keeps the first 120 characters, with `\|` turned into `∣` and a newline into a space, and no other character changed |
| Markdown.CellKeepsPlainText | tools/tech-stack-collector/collector.py:67 | text of at most 120 characters without pipes or newlines is rendered unchanged |
| Markdown.TableLines | tools/tech-stack-collector/collector.py:62-70 | a table has exactly two lines more than it has rows |
| Markdown.MdTable | tools/tech-stack-collector/collector.py:59-71 | no rows give the empty string; otherwise the text is the header line, the separator line and one line per row, joined by newlines |
| Markdown.RowWidth | tools/tech-stack-collector/collector.py:67-69 | a row's cells are its rendered cells in order, then `—` padding up to the header width; a longer row keeps all its cells |
| Markdown.RowCellsPlain | tools/tech-stack-collector/collector.py:67-69 | no cell of a rendered row holds `\|` or a newline |
| Markdown.TableLineCells | tools/tech-stack-collector/collector.py:63 | splitting a table line at `\|` gives back its cells, each padded with one space |
| Markdown.RowLineCells | tools/tech-stack-collector/collector.py:70 | a row line splits at `\|` into exactly the row's rendered and padded cells |
| Markdown.SeparatorCells | tools/tech-stack-collector/collector.py:64 | the separator line has one `---` cell per header |
| Markdown.TableTextLines | tools/tech-stack-collector/collector.py:62-71 | with newline-free headers, splitting the table text at newlines gives back its lines, and line 2+k renders row k |
| Markdown.FilterMembers | tools/tech-stack-collector/collector.py:75 | filtering keeps exactly the items that pass the test |
| Markdown.FilterAppend | tools/tech-stack-collector/collector.py:75 | filtering distributes over concatenation, so the kept items stay in input order |
| Markdown.NonBlankMembers | tools/tech-stack-collector/collector.py:75 | the bulleted items are exactly those whose stripped form is non-empty |
| Markdown.BulletsAppend | tools/tech-stack-collector/collector.py:75 | bullets of a concatenation are the bullets of each part in order |
| Markdown.BulletsSingle | tools/tech-stack-collector/collector.py:75 | one item gives `- item` when it is not blank and nothing otherwise |
| Markdown.BulletText | tools/tech-stack-collector/collector.py:74-75 | no non-blank items give the empty string; otherwise the text splits back into one `- ` line per non-blank item, in order |
| Markdown.MdBullets | tools/tech-stack-collector/collector.py:74-75 | the text is empty exactly when no item is non-blank; otherwise it starts with `- ` and the first non-blank item |
| Tags.TagStore.constructor | tools/tech-stack-collector/collector.py:604-605 | a new store holds no category |
| Tags.TagStore.Add | tools/tech-stack-collector/collector.py:607-611 | the category exists afterwards and gains exactly the non-empty names; nothing else changes |
| Tags.AddPairs | tools/tech-stack-collector/collector.py:607-611 | after `add`, the (category, tag) pairs are the old pairs plus one pair per non-empty name, and other categories are unchanged |
| Tags.AddIgnoresEmpty | tools/tech-stack-collector/collector.py:610 | the empty name is never added |
| Tags.AddIdempotent | tools/tech-stack-collector/collector.py:607-611 | adding the same names twice is the same as adding them once |
| Tags.TagStore.Merge | tools/tech-stack-collector/collector.py:613-615 | each category becomes the union of both stores' sets for it |
| Tags.UnionPairs | tools/tech-stack-collector/collector.py:613-615 | after a merge the categories are those of either store and the pairs are the union of both stores' pairs |
| Tags.UnionKeeps | tools/tech-stack-collector/collector.py:613-615 | merging never removes a category or a tag |
| Tags.UnionSelf | tools/tech-stack-collector/collector.py:613-615 | merging a store with an equal store changes nothing |
| Tags.UnionCommutes | tools/tech-stack-collector/collector.py:613-615 | the merged contents do not depend on which store is merged into which |
| Tags.FirstMatch | tools/tech-stack-collector/collector.py:750-754 | a found rule is in the table and its key occurs in the text; nothing is found exactly when no key of the table occurs in it |
| Tags.FirstMatchIsFirst | tools/tech-stack-collector/collector.py:750-754 | the rule found is the first one in declaration order whose key occurs in the text |
| Tags.FindRule | tools/tech-stack-collector/collector.py:750-754 | the scan over the table finds the first matching rule |
| Tags.Candidates | tools/tech-stack-collector/collector.py:737-745 | there are exactly three candidates to try, in order |
| Tags.CandidatesShape | tools/tech-stack-collector/collector.py:737-745 | the first candidate holds no `:`, the other two are suffixes of it, and the last holds no `/` |
| Tags.Segments | tools/tech-stack-collector/collector.py:739-745 | the last two segments and the last segment of a path are suffixes of it, and the last segment holds no `/` |
| Tags.CandidateMatchIsFirst | tools/tech-stack-collector/collector.py:746-756 | the rule used is the first match of the first non-empty candidate that has one; there is none exactly when no candidate matches |
| Tags.TagStore.ResolveImageWith | tools/tech-stack-collector/collector.py:733-758 | the store gains the candidate match, if any, and `Docker` under `Containers`, and nothing else |
| Tags.TagStore.ResolveDockerImage | tools/tech-stack-collector/collector.py:620-758 | `resolve_docker_image` with the image table in declaration order |
| Tags.DockerPairs | tools/tech-stack-collector/collector.py:744-758 | `Docker` is always tagged under `Containers`, and the only other pair added is the matched rule's |
| Tags.LookupPairs | tools/tech-stack-collector/collector.py:797-800 | a lookup adds at most one pair, and none when no key occurs |
| Tags.RemoveAll | tools/tech-stack-collector/collector.py:762 | removing a fragment never makes a text longer |
| Tags.RemoveAbsent | tools/tech-stack-collector/collector.py:762 | removing a fragment that does not occur leaves the text unchanged |
| Tags.TagStore.AddFirstMatch | tools/tech-stack-collector/collector.py:797-800 | the store gains the first matching rule's tag, or nothing |
| Tags.TagStore.ResolveService | tools/tech-stack-collector/collector.py:760-800 | the store gains the tag of the first service rule whose key occurs in the lower-cased name without `.service`, or nothing |
| Tags.Canonical | tools/tech-stack-collector/collector.py:805-845 | a name whose lower-cased form is in the normalisation table maps to that entry; any other name is kept as given |
| Tags.TagStore.ResolveTool | tools/tech-stack-collector/collector.py:802-846 | the store gains the canonical name under the given category |
| TagFormat.FindLabel | tools/tech-stack-collector/collector.py:873-893 | a category has a display label exactly when it appears in the category order |
| TagFormat.FindLabelAt | tools/tech-stack-collector/collector.py:873-893 | the first occurrence of a category in the order decides its label |
| TagFormat.UntaggedNotInOrder | tools/tech-stack-collector/collector.py:907-911 | a label for an unmapped category never collides with a label of the category order |
| TagFormat.MergedMembers | tools/tech-stack-collector/collector.py:899-911 | after merging, the labels are exactly those of the stored categories; each tag appears under its category's label, and only there |
| TagFormat.MergedUnknown | tools/tech-stack-collector/collector.py:907-911 | an unmapped category gets its own `🏷️` label holding exactly its tags |
| TagFormat.MergedValues | tools/tech-stack-collector/collector.py:899-911 | merging neither loses nor invents tags |
| TagFormat.EmitBlocks | tools/tech-stack-collector/collector.py:916-922 | each emitted block is a non-empty label of the merged map with its tags sorted, and the label is removed from the map |
| TagFormat.EmitRest | tools/tech-stack-collector/collector.py:916-922 | what stays in the map is unchanged, every removed label was emitted, and a label of the order stays only when its set was empty |
| TagFormat.EmitDistinct | tools/tech-stack-collector/collector.py:916-922 | no label is emitted twice |
| TagFormat.EmitInOrder | tools/tech-stack-collector/collector.py:916-922 | the ordered blocks follow the category order |
| TagFormat.LeftoverBlocks | tools/tech-stack-collector/collector.py:923-930 | a leftover block is a remaining label with a non-empty set, with its tags sorted |
| TagFormat.LeftoverComplete | tools/tech-stack-collector/collector.py:923-930 | every remaining label with tags gets a block |
| TagFormat.LeftoverSorted | tools/tech-stack-collector/collector.py:923-930 | the leftover blocks come in increasing label order |
| TagFormat.BlocksTags | tools/tech-stack-collector/collector.py:916-930 | every block shows a non-empty merged label with its tags sorted |
| TagFormat.BlocksComplete | tools/tech-stack-collector/collector.py:916-930 | every merged label with tags is shown |
| TagFormat.BlocksDistinct | tools/tech-stack-collector/collector.py:916-930 | every label is shown at most once |
| TagFormat.BlocksOrder | tools/tech-stack-collector/collector.py:916-930 | labels of the category order come first and in that order; then the other labels follow in sorted order |
| TagFormat.BlocksShowValues | tools/tech-stack-collector/collector.py:916-930 | the tags shown are exactly the tags of the merged map |
| TagFormat.TagsShown | tools/tech-stack-collector/collector.py:895-930 | the tags shown are exactly the tags of the store |
| TagFormat.FlatMembers | tools/tech-stack-collector/collector.py:919-927 | the flat list holds exactly the tags of the emitted blocks |
| TagFormat.SummaryCounts | tools/tech-stack-collector/collector.py:933-934 | the summary line counts the flat list with duplicates, and that count is at least the number of distinct tags listed in sorted order |
| TagFormat.FormatEmptyIff | tools/tech-stack-collector/collector.py:896-897 | the text is empty exactly when the store holds no category |
| TagFormat.FormatEnds | tools/tech-stack-collector/collector.py:933-936 | a non-empty store's text ends with the `---` line and then the summary line |
| Tags.TagStore.MergeLabels | tools/tech-stack-collector/collector.py:899-911 | the merge loops build the label map of the specification |
| Tags.EmitOrdered | tools/tech-stack-collector/collector.py:913-922 | the ordered emit loop produces the specified blocks and remaining map |
| Tags.EmitLeftover | tools/tech-stack-collector/collector.py:923-930 | the leftover loop appends the blocks of the remaining labels in sorted order |
| Tags.TagStore.FormatIn | tools/tech-stack-collector/collector.py:895-936 | an empty store gives the empty string; otherwise the text renders the merged blocks |
| Tags.TagStore.FormatTags | tools/tech-stack-collector/collector.py:873-936 | `format_tags` with the category order returns the specified text |
| Collectors.ServiceNamesClean | tools/tech-stack-collector/collector.py:303 | every service name is stripped, non-empty and holds no newline |
| Collectors.PartitionSizes | tools/tech-stack-collector/collector.py:305-309 | every name is counted either as a system service or as notable |
| Collectors.PartitionServices | tools/tech-stack-collector/collector.py:304-309 | the notable names are exactly the names with no boring prefix, in input order; the system count is the number of the rest; the two add up to the number of names |
| Collectors.CollectServices | tools/tech-stack-collector/collector.py:288-315 | no output gives empty content; otherwise the section lists the notable names and the count of omitted ones |
| Collectors.SectionPartsLines | tools/tech-stack-collector/collector.py:311-315 | the section's lines are the `### Notable` heading, a blank line and the bullets when there are notable names, then a blank line and the omitted-count line |
| Collectors.ServicesLines | tools/tech-stack-collector/collector.py:303-315 | the section holds one `- name` line per notable name, in order, and its last line shows the system count, which reads back as that count |
| Collectors.WordsClean | tools/tech-stack-collector/collector.py:324 | every column is non-empty and holds no whitespace |
| Collectors.WordsOfJoin | tools/tech-stack-collector/collector.py:324 | splitting columns joined by spaces gives back the columns |
| Collectors.PortOfTail | tools/tech-stack-collector/collector.py:328 | the port is the part of the address after its last `:`, or the whole address when it has no `:` |
| Collectors.ProcAt | tools/tech-stack-collector/collector.py:329 | the matcher at one position returns a name exactly when `users:(("name"` with a non-empty quote-free name starts there |
| Collectors.FindProc | tools/tech-stack-collector/collector.py:329 | the search returns the name of the leftmost match after the start, or nothing when there is none |
| Collectors.ProcOfLeftmost | tools/tech-stack-collector/collector.py:329-330 | the process is the leftmost match's name, and `—` when the line has none |
| Collectors.ParsePorts | tools/tech-stack-collector/collector.py:322-331 | the loop yields the specified rows, one for each line of at least five columns, in line order |
| Collectors.ParsedRowsFrom | tools/tech-stack-collector/collector.py:322-331 | a row comes from a line of at least five columns, and every such line gives one; there are never more rows than lines |
| Collectors.SortRowsSpec | tools/tech-stack-collector/collector.py:332 | the rows are sorted by numeric port with 99999 for a non-digit port, are a permutation of the input, and keep the input order among equal keys |
| Collectors.SortRows | tools/tech-stack-collector/collector.py:332 | the sorted rows are a permutation of the input, ordered by numeric port with 99999 for a non-digit port |
| Collectors.CollectPorts | tools/tech-stack-collector/collector.py:318-333 | no output or no wide line gives empty content; otherwise the content is the Port/Bind Address/Process table of the sorted rows |
| Collectors.Titles | tools/tech-stack-collector/collector.py:1007-1016 | every assembled title is a section of the report |
| Collectors.OrderedParts | tools/tech-stack-collector/collector.py:1007-1012 | the first loop lists the sections of the fixed order that exist, in that order |
| Collectors.ExtraParts | tools/tech-stack-collector/collector.py:1013-1018 | the second loop appends, in map order, the non-empty sections whose titles the fixed order lacks |
| Collectors.AssembleIn | tools/tech-stack-collector/collector.py:1007-1018 | the two loops produce one `## title` block per selected title, in the specified order |
| Collectors.AssembleSections | tools/tech-stack-collector/collector.py:1007-1018 | the assembly with the fixed section order of `SECTION_ORDER` (collector.py lines 940-958) |
| Collectors.SectionsCover | tools/tech-stack-collector/collector.py:1007-1016 | a section is shown exactly when it exists and is either in the fixed order or non-empty |
| Collectors.SectionsOnce | tools/tech-stack-collector/collector.py:1007-1016 | no section is shown twice |
| Collectors.SectionsOrdered | tools/tech-stack-collector/collector.py:1007-1016 | known sections come first, in the fixed order; they are followed only by sections outside that order |
| Collectors.SectionOrderDistinct | tools/tech-stack-collector/collector.py:940-958 | the fixed order names each section once |
| Relay.UntilEof | tools/tech-stack-collector/remote_runner.py:181-186 | reading stops at the first empty chunk; the chunks read before it are all non-empty |
| Relay.FirstNewline | tools/tech-stack-collector/remote_runner.py:188 | the split point is the first newline of the buffer |
| Relay.SplitOffLines | tools/tech-stack-collector/remote_runner.py:187-191 | the inner loop emits every complete line of the buffer, decoded; the remainder holds no newline |
| Relay.ChunkStep | tools/tech-stack-collector/remote_runner.py:186-191 | splitting a chunk at a time gives the same lines as splitting all bytes received so far |
| Relay.DrainRemaining | tools/tech-stack-collector/remote_runner.py:194-196 | the drain loop appends every drained chunk to the buffer, without splitting |
| Relay.RelayOutput | tools/tech-stack-collector/remote_runner.py:178-214 | the loop returns the specified output lines for the given chunks, drain, exit code and stderr |
| Relay.EntriesNewlineFree | tools/tech-stack-collector/remote_runner.py:187-203 | no stdout entry but the last holds a newline, and none does when the drained bytes hold none |
| Relay.EntriesNewlineFreeAtEof | tools/tech-stack-collector/remote_runner.py:184-191 | when the stream ends with an empty chunk, no entry holds a newline |
| Relay.DrainedEntryKeepsNewline | tools/tech-stack-collector/remote_runner.py:192-203 | a drained newline is not split: the drained `a\nb` is one entry |
| Relay.EntriesReconstruct | tools/tech-stack-collector/remote_runner.py:186-203 | the entries joined by newlines give back every received byte, except that a final newline is dropped when nothing follows it |
| Relay.SplitAcrossChunks | tools/tech-stack-collector/remote_runner.py:187-191 | the chunks `line1\nline` and `2\n` give exactly `line1` and `line2` |
| Relay.StderrComesLast | tools/tech-stack-collector/remote_runner.py:205-214 | the output is the decoded stdout entries, then one stderr entry exactly when the exit code is nonzero and stderr is non-empty |
| Relay.OutputLines | tools/tech-stack-collector/remote_runner.py:178-214 | one line per stdout entry, decoded and in order, plus one more exactly when the exit code is nonzero and stderr is non-empty |
| Relay.DecodedEntriesNewlineFree | tools/tech-stack-collector/remote_runner.py:187-203 | under a decoder that keeps newline-free bytes newline-free, no decoded entry but the last holds a newline |
| Runner.Sanitise | tools/tech-stack-collector/remote_runner.py:229 | the safe name has the length of the name; each character is alphanumeric or one of `-_.`; such characters are kept and every other character becomes `_` |
| Runner.SanitiseIdempotent | tools/tech-stack-collector/remote_runner.py:229 | sanitising twice is the same as sanitising once |
| Runner.SanitiseKeepsSafeNames | tools/tech-stack-collector/remote_runner.py:229 | a name of safe characters is kept as is |
| Runner.SanitiseExample | tools/tech-stack-collector/remote_runner.py:229 | `my server #1` becomes `my_server__1` |
| Runner.ReportPath | tools/tech-stack-collector/remote_runner.py:227-232 | the report lies in the run directory, and its file name is the sanitised name followed by `.md` |
| Runner.Status | tools/tech-stack-collector/remote_runner.py:350-351 | the status is `failed` exactly when the stripped text starts with `❌` or the text contains `Connection failed`, and `ok` otherwise |
| Runner.ErrorsAreFailed | tools/tech-stack-collector/remote_runner.py:350-351 | every error text of `run_on_target` is classified as failed |
| Runner.ErrorTextFails | tools/tech-stack-collector/remote_runner.py:159-222 | each of the three error messages (connection failure, missing transport, execution error) passes the failure test |
| Runner.ReportText | tools/tech-stack-collector/remote_runner.py:159-222 | an attempt that did not complete returns a message starting with `  ❌`; a completed one returns its output lines joined by newlines |
| Runner.MarkedExactly | tools/tech-stack-collector/remote_runner.py:350 | the marker test holds exactly when the first character of the text that is not whitespace is `❌` |
| Runner.OutputMentionFails | tools/tech-stack-collector/remote_runner.py:350-351 | a completed run whose output has a line mentioning `Connection failed` is classified as failed |
| Runner.ProcessTarget | tools/tech-stack-collector/remote_runner.py:120-149 | one target either gives its entry (name, status of the report text, report path) or raises: before connecting when a field is missing, `int()` rejects the port or a `key_path` is not a string, and in `save_report` when the name is not a string |
| Runner.CollectResults | tools/tech-stack-collector/remote_runner.py:346-354 | one entry per target, in target order, each with the target's name, its status and its report path; the run succeeds exactly when every target is processed without raising, and otherwise ends with the first raising target's exception |
| Runner.ResultsFollowTargets | tools/tech-stack-collector/remote_runner.py:346-354 | entry i carries target i's name and the run directory, is failed exactly when its text is, and is failed whenever the attempt errored |
| Runner.RunDirName | tools/tech-stack-collector/remote_runner.py:334-340 | the directory is `run_<ts>`, followed for a single target by `_` and exactly the sanitised name; it fails only when a single target's name is not a string |
| Runner.RunDirsDiffer | tools/tech-stack-collector/remote_runner.py:334-340 | two runs with different timestamps of equal width never share a directory |
| Runner.SingleRunDirMatchesReport | tools/tech-stack-collector/remote_runner.py:335-338 | a single target's directory ends with the same sanitised name as its report file (named by `save_report`, remote_runner.py line 229) |
| Runner.CountsAddUp | tools/tech-stack-collector/remote_runner.py:240-242 | the success and failure counts add up to the number of targets |
| Runner.IndexHeader | tools/tech-stack-collector/remote_runner.py:237-245 | the header has eight lines, the three count lines among them |
| Runner.WriteIndex | tools/tech-stack-collector/remote_runner.py:235-255 | the loop builds the specified index lines, joined by newlines |
| Runner.IndexLines | tools/tech-stack-collector/remote_runner.py:237-252 | the index has the header, one line per result and a three-line footer |
| Runner.IndexCounts | tools/tech-stack-collector/remote_runner.py:239-242 | the index shows the number of targets, of successes and of failures |
| Runner.IndexRows | tools/tech-stack-collector/remote_runner.py:247-250 | row i of the index shows result i, numbered from 1 |
| Runner.RowShowsStatus | tools/tech-stack-collector/remote_runner.py:247-250 | an `ok` row shows ✅ and links the report file; any other status shows ❌ and `—`; every row starts with its number and name |
| Runner.IndexLinesRecoverable | tools/tech-stack-collector/remote_runner.py:252-254 | with plain names and timestamp, the index text splits back into its lines |
| Config.YamlVal | tools/tech-stack-collector/remote_runner.py:110-114 | the result is an integer exactly when the unquoted text is all digits, and then it is the decimal value of those digits; otherwise it is the unquoted text itself |
| Config.Unquoted | tools/tech-stack-collector/remote_runner.py:111 | after stripping whitespace, double quotes and single quotes, the value neither starts nor ends with a single quote |
| Config.UnquotedStrips | tools/tech-stack-collector/remote_runner.py:111 | the unquoted text is what remains after removing the whitespace ends, then the double-quote ends, then the single-quote ends |
| Config.UnquotedUnique | tools/tech-stack-collector/remote_runner.py:111 | any text obtained by those three removals in that order equals the unquoted text |
| Text.StripByIsStripOf | tools/tech-stack-collector/remote_runner.py:111 | `strip(chars)` removes exactly the longest leading and trailing runs of the given characters |
| Text.StripOfUnique | tools/tech-stack-collector/remote_runner.py:111 | those runs are determined by the string, so the stripped text is unique |
| Config.YamlValOfNumber | tools/tech-stack-collector/remote_runner.py:110-114 | the decimal text of a number reads back as that integer |
| Config.YamlValDoubleQuoted | tools/tech-stack-collector/remote_runner.py:111 | double quotes around a plain value are dropped |
| Config.YamlValSingleQuoted | tools/tech-stack-collector/remote_runner.py:111 | single quotes around a plain value are dropped |
| Config.MatchKeyVal | tools/tech-stack-collector/remote_runner.py:95-102 | a matched key is a non-empty prefix of word characters followed by `:`, and the value does not start with whitespace |
| Config.MatchKeyValExactly | tools/tech-stack-collector/remote_runner.py:95-102 | the match succeeds exactly when a non-empty run of word characters is followed by `:`; the key is that run and the value is the rest of the line after the whitespace that follows the colon |
| Config.MatchItemLead | tools/tech-stack-collector/remote_runner.py:95 | an item match has the lead `\s*-\s+` and is the key-value match of the rest of the line |
| Config.MatchItemExactly | tools/tech-stack-collector/remote_runner.py:95 | wherever the lead `\s*-\s+` matches, the item match is the key-value match of what follows it |
| Config.MatchCont | tools/tech-stack-collector/remote_runner.py:102 | a continuation match has a non-empty whitespace lead and is the key-value match of the rest of the line |
| Config.MatchContExactly | tools/tech-stack-collector/remote_runner.py:102 | wherever a non-empty whitespace lead matches, the continuation match is the key-value match of what follows it |
| Config.Classify | tools/tech-stack-collector/remote_runner.py:91-104 | a line is blank exactly when it is empty after `rstrip` or a `#` comment; otherwise an item match wins, then a continuation match, else the line is ignored |
| Config.Kinds | tools/tech-stack-collector/remote_runner.py:90-104 | every line is classified once |
| Config.BasicYamlParse | tools/tech-stack-collector/remote_runner.py:84-107 | the loop builds the records of the specification |
| Config.ParseLine | tools/tech-stack-collector/remote_runner.py:91-104 | one pass of the loop body is one step of the parse over the line's classification |
| Config.ParsedRecordsNonEmpty | tools/tech-stack-collector/remote_runner.py:97-106 | no parsed record is empty |
| Config.RunCount | tools/tech-stack-collector/remote_runner.py:94-106 | with an open record, parsing closes it and opens one more record per `- key: value` line |
| Config.OneRecordPerItem | tools/tech-stack-collector/remote_runner.py:94-106 | when the first meaningful line is an item, there is exactly one record per item line |
| Config.WithDefaultsValues | tools/tech-stack-collector/remote_runner.py:75-78 | missing `port`, `user`, `auth` and `name` become 22, `root`, `key` and the host |
| Config.WithDefaultsKeyPath | tools/tech-stack-collector/remote_runner.py:79-80 | `key_path` is present afterwards exactly when it was there or `auth` is `key`, and a filled-in one is the default path |
| Config.WithDefaultsKeys | tools/tech-stack-collector/remote_runner.py:75-80 | the fields afterwards are the original ones, the four defaulted ones and `key_path` when `auth` is `key` |
| Config.WithDefaults | tools/tech-stack-collector/remote_runner.py:75-80 | present fields are kept; `port`, `user`, `auth` and `name` are present afterwards, and `key_path` is exactly when it was there or `auth` is `key` |
| Config.Normalise | tools/tech-stack-collector/remote_runner.py:72-81 | success exactly when every target has a host, each then defaulted; otherwise the error names the first target without one |
| Config.LoadBasicYaml | tools/tech-stack-collector/remote_runner.py:51-81 | loading a YAML text succeeds exactly when every parsed record has a host; each loaded target is then its parsed record with the defaults filled in (so a missing port becomes 22), and otherwise the error is `Target #i missing 'host'` for the first record without one |

## Left out

- Network and process I/O is not modelled. This covers SSH connection and authentication, channel set-up, `recv_ready`/`exit_status_ready` polling, timeouts, the `run`/`subprocess` shell-outs, `socket`/`platform`/`os.environ` queries, file reads and writes, `getpass`, argparse, and printing or `emit` of streamed lines. The chunk stream, the drained chunks, the exit code and stderr are inputs of `Relay.RelayOutput`. How a session ended is the `Runner.Attempt` input. Timestamps are parameters.
- `ThreadPoolExecutor` and the `as_completed` fan-out are not modelled. So the order in which results enter `section_map` is the `keys` parameter of `Collectors.AssembleIn`. It must list exactly the map's keys for `Collectors.SectionsCover`.
- Python dictionaries iterate in insertion order. The model stores categories in a Dafny `map`. For the leftover labels of `format_tags`, which are sorted, this makes no difference. In `format_tags`'s second merge loop, the unmapped categories are folded in one at a time in an arbitrary order. This gives the same union, as `TagFormat.RestDone` shows.
- `str.lower`, UTF-8 decoding, `str.isalnum` and `\w` are opaque parameters. Their Unicode tables are not modelled. `str.isdigit` is ASCII only, so `Config.YamlVal` and `Collectors.PortKey` do not treat other Unicode digits as digits.
- Tags.TagStore.ResolveDockerImage: its contract is stated through the specification function. The outcome for a concrete image name, such as `grafana/loki` matching `grafana` before `grafana/loki`, is not proved. The source comment says "longest prefix match wins", but the code takes the first key in declaration order, and the model follows the code.
- `resolve_git_repo` and `_extract_tags_from_sections` are not part of this model. They are regex scans that only feed names to the `TagStore`.
- `build_report` also concatenates the header, the body and the technology-profile section, and it turns a collector's exception into an `_Error: …_` section. Neither is modelled. An error section is just a map entry whose title is the function's name, so it is shown among the extra sections.
- `collect_ports` falls back to `netstat` when `ss` prints nothing, and `run` strips the command output. Both are taken as given: the raw text is an input.
- Python's `list.sort` is modelled by `Collectors.SortRows`, a stable insertion sort. `sorted` on strings is modelled by `Text.SortStrings`, a selection of the least string. Only their results are modelled, not their algorithms.
- `load_config`'s `pyyaml` and JSON paths are not modelled; only the fallback YAML parser is. The `data.get("targets", [data])` shape handling is not modelled either. The default key path is a parameter.
- In the drain phase, `run_on_target` appends drained chunks to the buffer without splitting them. The model does the same, so the final entry can hold a newline (`Relay.DrainedEntryKeepsNewline`). The no-newline property is stated for every other entry.
- Runner.CollectResults: an exception that escapes `main` is a `Failure` naming only its kind. No report for a later target and no `_index.md` is written after it. Which strings Python's `int()` accepts is the `parsesAsInt` parameter. For example, the fallback parser keeps an inline comment, so `port: 2222 # ssh` gives a string `int()` rejects.
- The relay loop of `run_on_target` (remote_runner.py:181-197) spins forever when the remote process neither sends output nor exits. `recv` is called only after `recv_ready()`, so the 120-second channel timeout never fires. The model takes the chunk sequence as a finite input and cannot show this.
