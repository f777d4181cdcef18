# Query migration engine: a verified model

This project models the query-migration engine of the *querymanager* service in Dafny. The engine rewrites saved SQL queries that use deprecated tables and columns, using a workbook of `Table[.Field] -> Table[.Field]` mapping rows. Each query is processed in four stages:

1. **Sanitize** the text (`sanitizeSQL`).
2. **Parse** it.
3. **Walk** the parsed statement with a `QueryMigrationProcessor`. The processor records a replacement log: an insertion-ordered map from the reference as written to its new reference.
4. **Apply** that log to the *original* text (`applyReplacementsWithFormatting`). When the parser throws, the plain text rewriter `performSimpleReplacement` is applied to the original text instead. A query counts as impacted when the processor logged a replacement, even if applying the log leaves the text as it was. When the parser throws, it counts as impacted when the fallback text differs from the original.

It also models the pieces the engine depends on:

- how a mapping cell is split into table and field (`parseMappingEntry`);
- the field-level / table-level classification of mapping entries;
- the row filters of the two workbook readers.

## Modules

| file | module | models |
|---|---|---|
| `text.dfy` | `Text` | Java text semantics the code relies on: `\s`, `\w`/`\b`, ASCII case folding, `trim`, `split("\\.", 2)` |
| `linked_map.dfy` | `LinkedMap` | `LinkedHashMap.put` on an association list (a re-put key keeps its position) |
| `mapping_entry.dfy` | `MappingEntries` | `MappingEntry` and its two classification predicates |
| `excel_ingest.dfy` | `ExcelIngest` | `parseMappingEntry`; the row loops of `readMappingFile` and `readQueryFile` over already-read cells |
| `query_dto.dfy` | `Queries` | `QueryDTO` as a class with the fields the migrator reads and sets |
| `mapping_index.dfy` | `MappingIndex` | `buildFieldMappingMap` (a function) and `buildTableMappingMap` (a loop) |
| `sanitizer.dfy` | `Sanitizer` | `sanitizeSQL` as eight hand-written scanners |
| `sql_tree.dfy` | `SqlTree` | the fragment of the statement tree the processor visits, and the parser's result |
| `processor_spec.dfy` | `ProcessorSpec` | every processor step as a function of the processor state, and its properties |
| `processor.dfy` | `Processor` | `QueryMigrationProcessor` as a class whose methods update its fields in place |
| `naming.dfy` | `Naming` | `generateAlias` and `capitalize` |
| `patterns.dfy` | `Patterns` | the rewriter's regular expressions as scanners; `replaceAll` and `find`/`appendReplacement`/`appendTail` |
| `rewriter_spec.dfy` | `RewriterSpec` | the four rewriter steps as functions; `applyReplacementsWithFormatting` and `performSimpleReplacement` |
| `rewriter.dfy` | `Rewriter` | the same steps as the loops the Java code runs, each proved equal to its function |
| `migration.dfy` | `Migration` | `migrateQuery` and `migrateQueries` |

Two external inputs are parameters:

- **The SQL parser** is a function `parse` from the sanitized text to `Parsed(select) | NotSelect | ParseError`.
- **HashMap iteration order** is a function `order` from a key set to a sequence. It is used for `oldAliasToNewAlias` in step 3 and for the three maps of `performSimpleReplacement`. Every property is proved for every `order`. A real HashMap's order also depends on insertion order within a bucket, which one fixed function does not capture (see "Left out"). The predicate `Enumerates(order)` says that `order` lists each key exactly once; under it, iteration is a permutation of the map (`HashOrderPermutation`).

SQL `null` is `None` wherever the code tests for it.

Source paths below are relative to the repository root.

## Model

| member | source | states |
|---|---|---|
| MappingEntries.ExactlyOneLevel | src/main/java/com/querymanager/dto/MappingEntry.java:20-26 | every entry is field-level or table-level, never both |
| MappingEntries.LevelDependsOnlyOnField | src/main/java/com/querymanager/dto/MappingEntry.java:20-26 | two entries with the same `deprecatedField` classify alike, whatever their other five fields |
| ExcelIngest.ParseMappingEntry | src/main/java/com/querymanager/service/ExcelService.java:127-153 | the raw strings are stored unchanged; a deprecated object with a dot is split into a dot-free table and a field that rejoin to it, and one without a dot is the table with a null field; a null or dot-free new object is the new table with a null field, and any other is split the same way |
| ExcelIngest.FieldAfterFirstDot | src/main/java/com/querymanager/service/ExcelService.java:133-136 | `T.f` with a dot-free `T` gives table `T` and field `f`, even when `f` has dots of its own |
| ExcelIngest.TrailingDotIsTableLevel | src/main/java/com/querymanager/service/ExcelService.java:133-136 | `T.` gives the empty field, so the entry is table-level |
| ExcelIngest.ReadMappingFile | src/main/java/com/querymanager/service/ExcelService.java:107-120 | the loop over the data rows returns exactly the parsed non-blank rows, in sheet order |
| ExcelIngest.SkippedRow | src/main/java/com/querymanager/service/ExcelService.java:108-116 | a missing row, or one with a blank deprecated object, contributes no entry |
| ExcelIngest.KeptRow | src/main/java/com/querymanager/service/ExcelService.java:111-119 | a row with a non-blank deprecated object contributes its parsed entry, at its place in sheet order |
| ExcelIngest.KeptMappings | src/main/java/com/querymanager/service/ExcelService.java:107-120 | definition, no contract of its own: the per-row filter applied to every row in sheet order; its properties are `SkippedRow`, `KeptRow` and `KeptMappingsNonBlank` |
| ExcelIngest.KeptMappingsNonBlank | src/main/java/com/querymanager/service/ExcelService.java:114-119 | every kept entry has a non-blank deprecated object and a new object, and there are no more entries than rows |
| ExcelIngest.ReadQueryFile | src/main/java/com/querymanager/service/ExcelService.java:74-91 | one fresh query object per data row that is present and has a non-blank name, in sheet order, with that row's cells and `impacted` false; the returned objects are pairwise distinct, as `Migration.MigrateQueries` requires |
| ExcelIngest.KeptQueryRowsNonBlank | src/main/java/com/querymanager/service/ExcelService.java:78-81 | every kept query row has a non-blank name |
| Text.BlankMeansAllControl | src/main/java/com/querymanager/service/ExcelService.java:79 | `trim().isEmpty()` holds exactly when every character is at most U+0020 |
| Text.SplitFirstDotOf | src/main/java/com/querymanager/service/ExcelService.java:134 | `split("\\.", 2)` of `t + "." + f` with a dot-free `t` is `(t, f)` |
| Queries.QueryDTO.constructor | src/main/java/com/querymanager/service/ExcelService.java:83-88 | a query read from a row has that row's four cells and starts not impacted |
| MappingIndex.BuildFieldMappingMap | src/main/java/com/querymanager/service/SqlMigrationService.java:87-95 | every stored entry is field-level, comes from the input, and is stored under its own `lower(table).lower(field)` key |
| MappingIndex.FieldMapKeys | src/main/java/com/querymanager/service/SqlMigrationService.java:88-91 | a key is present exactly when some field-level entry has it |
| MappingIndex.FieldMapLastWins | src/main/java/com/querymanager/service/SqlMigrationService.java:90-93 | the stored entry for a key is the last field-level entry with that key |
| MappingIndex.BuildTableMappingMap | src/main/java/com/querymanager/service/SqlMigrationService.java:97-106 | the `computeIfAbsent(...).add` loop builds the table index: each `lower(table)` lists its entries in input order, field-level entries included |
| MappingIndex.EntriesFor | src/main/java/com/querymanager/service/SqlMigrationService.java:97-106 | the list for a table has no more entries than the input, and each is an input entry whose table key is that table |
| MappingIndex.TableIndex | src/main/java/com/querymanager/service/SqlMigrationService.java:97-106 | definition, no contract of its own: each table key of the input mapped to its `EntriesFor` list; its properties are the four `EntriesFor`/`TableIndexStep` rows |
| MappingIndex.TableIndexStep | src/main/java/com/querymanager/service/SqlMigrationService.java:100-103 | one more entry is appended to its own table's list and changes no other list |
| MappingIndex.EntriesForIncludesEvery | src/main/java/com/querymanager/service/SqlMigrationService.java:100-103 | every entry, field-level or not, is listed under its table key |
| MappingIndex.EntriesForFirst | src/main/java/com/querymanager/service/SqlMigrationService.java:100-103 | the first entry listed under a key is the first entry in the input with that table |
| MappingIndex.EntriesForNone | src/main/java/com/querymanager/service/SqlMigrationService.java:100-103 | a table no entry names has nothing listed |
| Sanitizer.SanitizeSql | src/main/java/com/querymanager/service/SqlMigrationService.java:140-166 | null stays null; other text comes back without unprintable characters or `\r`, without two spaces in a row, and with no leading or trailing whitespace |
| Sanitizer.StripUnprintable | src/main/java/com/querymanager/service/SqlMigrationService.java:148 | no character of the class `[\x00-\x08\x0B\x0C\x0E-\x1F\x7F]` survives, and none is introduced |
| Sanitizer.CrToLf | src/main/java/com/querymanager/service/SqlMigrationService.java:149 | after both line-ending rewrites no `\r` is left |
| Sanitizer.CollapseSpaces | src/main/java/com/querymanager/service/SqlMigrationService.java:160 | the result has no two spaces in a row and keeps the character properties of the input |
| Sanitizer.StripTrailingSpace | src/main/java/com/querymanager/service/SqlMigrationService.java:163 | deleting `(?m)\s+$` runs keeps the absence of double spaces and adds no character |
| Sanitizer.TrimKeepsClean | src/main/java/com/querymanager/service/SqlMigrationService.java:165 | the final `trim` keeps both properties |
| Sanitizer.JoinCrLf | src/main/java/com/querymanager/service/SqlMigrationService.java:149 | the `\r\n` to `\n` rewrite introduces no unprintable character: text free of them stays free of them |
| Sanitizer.DropCommaBeforeKeyword | src/main/java/com/querymanager/service/SqlMigrationService.java:153 | deleting the comma before a keyword keeps text free of unprintable characters and `\r` |
| Sanitizer.DropCommaBeforeParen | src/main/java/com/querymanager/service/SqlMigrationService.java:156 | deleting the comma before `)` keeps text free of unprintable characters and `\r` |
| Sanitizer.IndentLines | src/main/java/com/querymanager/service/SqlMigrationService.java:159 | writing four spaces for each leading whitespace run keeps text free of unprintable characters and `\r` |
| Sanitizer.StripUnprintableNone | src/main/java/com/querymanager/service/SqlMigrationService.java:148 | text without unprintable characters passes the first rewrite unchanged |
| Sanitizer.LineEndingsNone | src/main/java/com/querymanager/service/SqlMigrationService.java:149 | text without `\r` passes both line-ending rewrites unchanged |
| Sanitizer.CommasNone | src/main/java/com/querymanager/service/SqlMigrationService.java:153-156 | text without commas passes both comma rewrites unchanged |
| Sanitizer.KeywordCaseSensitive | src/main/java/com/querymanager/service/SqlMigrationService.java:153 | the keywords are matched case-sensitively: `, FROM` loses its comma, `, from` keeps it |
| Sanitizer.IndentCollapsed | src/main/java/com/querymanager/service/SqlMigrationService.java:159-160 | the four-space indent written for an indented line is collapsed to one space: `a\n  b` sanitizes to `a\n b` |
| Naming.GenerateAlias | src/main/java/com/querymanager/service/SqlMigrationService.java:338-346 | "" stays ""; otherwise the alias has min(3, length of the trimmed name) characters, no upper-case letter, and equals the start of the trimmed name up to case: exactly the trimmed name's first min(3, length) characters, lower-cased |
| Naming.GenerateAliasOfName | src/main/java/com/querymanager/service/SqlMigrationService.java:343-345 | for a name with nothing to trim, the alias is its first three characters, lower-cased |
| Naming.Capitalize | src/main/java/com/querymanager/service/SqlMigrationService.java:351-356 | same length and same letters up to case; the first character is not lower-case and the rest are not upper-case; "" stays "" |
| Naming.CapitalizeIgnoresCase | src/main/java/com/querymanager/service/SqlMigrationService.java:351-356 | strings equal up to case capitalize to the same string |
| Naming.CapitalizeIdempotent | src/main/java/com/querymanager/service/SqlMigrationService.java:351-356 | capitalizing twice is capitalizing once |
| LinkedMap.Put | src/main/java/com/querymanager/service/SqlMigrationService.java:522 | `get` of the key gives the new value and other keys are unaffected; an existing key keeps its position, and a new key is appended; keys stay unique |
| RewriterSpec.ClassifyCovers | src/main/java/com/querymanager/service/SqlMigrationService.java:179-210 | every table in the table map has a generated alias under its lower-cased name, so the lookups at 220 and 241 never miss; all three maps have unique keys |
| Rewriter.ClassifyReplacements | src/main/java/com/querymanager/service/SqlMigrationService.java:179-210 | the classification loop computes the table, column and alias maps of `RewriterSpec.Classify` |
| RewriterSpec.ClassifyPair | src/main/java/com/querymanager/service/SqlMigrationService.java:179-210 | a pair with a dot on both sides adds itself and its `Capitalize` pair to the column map and nothing else; a dot-free deprecated name adds itself to the table map and its generated alias under its lower-cased name; a dotted name with a dot-free target is dropped |
| RewriterSpec.Classify | src/main/java/com/querymanager/service/SqlMigrationService.java:179-210 | definition, no contract of its own: `ClassifyPair` over the pairs in order; its properties are `ClassifyCovers` and `ClassifyPair` |
| RewriterSpec.CapitalizedPairsFiltered | src/main/java/com/querymanager/service/SqlMigrationService.java:197-200 | when no deprecated name has two dots, every column entry that survives the filter at 258 is one of the input pairs: the `Capitalize` pairs never do |
| RewriterSpec.DottedMembers | src/main/java/com/querymanager/service/SqlMigrationService.java:257-258 | the filter keeps exactly the entries whose key and value both contain a dot |
| RewriterSpec.SortByKeyLengthCorrect | src/main/java/com/querymanager/service/SqlMigrationService.java:257-260 | the column entries are sorted by descending key length; the result is a permutation of the input; entries with equal key length keep their order |
| RewriterSpec.FindAliasesFacts | src/main/java/com/querymanager/service/SqlMigrationService.java:212-235 | the two alias maps of step 1 have the same keys; each found alias names a replaced table; each generated alias stands for one of the new tables |
| RewriterSpec.FindAliases | src/main/java/com/querymanager/service/SqlMigrationService.java:212-235 | definition, no contract of its own: step 1 over the tables in iteration order; its properties are `FindAliasesFacts` and `FindAliasesNone` |
| RewriterSpec.FindAliasesNone | src/main/java/com/querymanager/service/SqlMigrationService.java:224-234 | without a FROM/JOIN match for any table, step 1 finds no alias |
| Patterns.TableClauseEnd | src/main/java/com/querymanager/service/SqlMigrationService.java:224 | a match of `(FROM or JOIN)\s+<table>` has the keyword, in any case, at its start, then a non-empty run of `\s`, then the table name in any case, and ends right after the name, within the text |
| Patterns.AliasAfter | src/main/java/com/querymanager/service/SqlMigrationService.java:245-246 | the alias part `\s+(?:AS\s+)?<ident>` starts after the table and ends within the text |
| Patterns.BareMatch | src/main/java/com/querymanager/service/SqlMigrationService.java:251 | a bare FROM/JOIN match ends past the keyword, within the text |
| Rewriter.FindActualAliases | src/main/java/com/querymanager/service/SqlMigrationService.java:212-235 | step 1's loop records the first FROM/JOIN alias of each replaced table |
| Patterns.AliasedClause | src/main/java/com/querymanager/service/SqlMigrationService.java:245-248 | `FROM or JOIN <table> <ident>`, matched in any case, becomes the keyword as written followed by the replacement, whatever the identifier is |
| Patterns.AliasedClauseWithAs | src/main/java/com/querymanager/service/SqlMigrationService.java:245-248 | `FROM or JOIN <table> AS <alias>` is rewritten the same way |
| Patterns.FromTableWhereSwallowed | src/main/java/com/querymanager/service/SqlMigrationService.java:245-248 | the identifier taken as the alias can be a keyword: `FROM T WHERE x` becomes `FROM New new x` |
| Patterns.BareClause | src/main/java/com/querymanager/service/SqlMigrationService.java:251-252 | `FROM or JOIN <table>` at a word boundary and not followed by another word becomes the keyword as written followed by the new table |
| Rewriter.ReplaceTableNames | src/main/java/com/querymanager/service/SqlMigrationService.java:237-253 | step 2's loop applies the aliased pattern and then the bare pattern, table by table |
| RewriterSpec.ReplaceTables | src/main/java/com/querymanager/service/SqlMigrationService.java:237-253 | definition, no contract of its own: step 2 over the tables in iteration order; `ReplaceTablesNone` states it |
| RewriterSpec.ReplaceTablesNone | src/main/java/com/querymanager/service/SqlMigrationService.java:245-252 | without a FROM/JOIN match for any table, step 2 returns the text unchanged |
| Patterns.QualifiedReference | src/main/java/com/querymanager/service/SqlMigrationService.java:288-299 | a `\b`-delimited `prefix.column` in any case is replaced by the target |
| Patterns.ReplaceAllNoMatch | src/main/java/com/querymanager/service/SqlMigrationService.java:248 | `replaceAll` of a pattern that never matches returns its input |
| Patterns.ReplaceAllSkip | src/main/java/com/querymanager/service/SqlMigrationService.java:248 | text up to the next match is copied unchanged |
| Patterns.ReplaceAllAt | src/main/java/com/querymanager/service/SqlMigrationService.java:248 | at a match the substitute is written and scanning resumes after the match |
| Rewriter.ReplaceAliasColumnRefs | src/main/java/com/querymanager/service/SqlMigrationService.java:282-291 | the inner loop of step 3 over the found aliases, in HashMap order |
| Rewriter.ReplaceColumnRefs | src/main/java/com/querymanager/service/SqlMigrationService.java:266-300 | step 3 for one entry, through the old aliases, the old table and the new table, with the fallback alias of 276-279 |
| Rewriter.ReplaceColumnReferences | src/main/java/com/querymanager/service/SqlMigrationService.java:262-301 | step 3's loop over the sorted entries |
| RewriterSpec.ReplaceColumns | src/main/java/com/querymanager/service/SqlMigrationService.java:262-301 | definition, no contract of its own: step 3 over the sorted entries; `ReplaceColumnsNone` states it |
| RewriterSpec.ReplaceColumnsNone | src/main/java/com/querymanager/service/SqlMigrationService.java:262-301 | with no alias found and no `table.column` match for any entry, step 3 returns the text unchanged |
| Patterns.AsClauseAt | src/main/java/com/querymanager/service/SqlMigrationService.java:305-308 | a match of `alias.column AS name` has its alias, column and name in that order, within the text |
| Patterns.AsClauseRewritten | src/main/java/com/querymanager/service/SqlMigrationService.java:305-330 | an `alias.column AS name` whose lower-cased alias was generated becomes `alias.column AS Capitalize(newTable)+Capitalize(column)`; any other match is copied as written |
| Patterns.AsRewriteUnmapped | src/main/java/com/querymanager/service/SqlMigrationService.java:324-327 | when no match has a generated alias, step 4 returns its input |
| Patterns.AsRewriteFromMatch | src/main/java/com/querymanager/service/SqlMigrationService.java:313-328 | one round of the `find`/`appendReplacement` loop: the text before the match, then its replacement, and the loop goes on after it |
| Patterns.AsRewriteFromTail | src/main/java/com/querymanager/service/SqlMigrationService.java:329 | `appendTail` copies the rest after the last match |
| Rewriter.RewriteAsClauses | src/main/java/com/querymanager/service/SqlMigrationService.java:310-330 | the `StringBuffer` loop computes step 4 |
| Rewriter.ApplyReplacementsWithFormatting | src/main/java/com/querymanager/service/SqlMigrationService.java:171-333 | the whole rewriter, with the log in insertion order, equals `RewriterSpec.ApplyReplacements` |
| RewriterSpec.EmptyLogUnchanged | src/main/java/com/querymanager/service/SqlMigrationService.java:171-333 | an empty log leaves the query as written |
| RewriterSpec.ApplyReplacements | src/main/java/com/querymanager/service/SqlMigrationService.java:171-333 | definition, no contract of its own: the log classified in insertion order, then the four steps; `Rewriter.ApplyReplacementsWithFormatting` computes it |
| RewriterSpec.RewriteUnmatched | src/main/java/com/querymanager/service/SqlMigrationService.java:212-330 | when no FROM/JOIN pattern of a table entry and no `table.column` pattern of a column entry matches the query, the four steps return it unchanged, for any iteration order |
| RewriterSpec.ApplyReplacementsUnmatched | src/main/java/com/querymanager/service/SqlMigrationService.java:171-333 | a log none of whose classified entries matches the original query leaves it as written |
| RewriterSpec.HashOrderEntries | src/main/java/com/querymanager/service/SqlMigrationService.java:398 | whatever the iteration order, every entry iterated is an entry of the map |
| RewriterSpec.HashOrderPermutation | src/main/java/com/querymanager/service/SqlMigrationService.java:398 | when the order lists each key of a key set exactly once, as `entrySet()` does, iterating a map with unique keys visits a permutation of its entries: each exactly once |
| RewriterSpec.SimpleReplacementVisitsAll | src/main/java/com/querymanager/service/SqlMigrationService.java:362-398 | under such an order the fallback iterates every table pair and every column pair it classified, each exactly once |
| Rewriter.PerformSimpleReplacement | src/main/java/com/querymanager/service/SqlMigrationService.java:358-510 | the fallback rewriter: every mapping row classified, the three HashMaps iterated in the given order, then the same four steps |
| RewriterSpec.NoMappingsUnchanged | src/main/java/com/querymanager/service/SqlMigrationService.java:358-510 | with no mapping rows the fallback returns the query as written, whatever the order |
| RewriterSpec.SimpleReplacement | src/main/java/com/querymanager/service/SqlMigrationService.java:358-510 | definition, no contract of its own: every mapping row classified, the maps iterated in the given order, then the four steps; `Rewriter.PerformSimpleReplacement` computes it |
| RewriterSpec.SimpleReplacementUnmatched | src/main/java/com/querymanager/service/SqlMigrationService.java:358-510 | when no pattern of a classified mapping pair matches, the fallback returns the query as written, whatever the order |
| ProcessorSpec.CollectFromItem | src/main/java/com/querymanager/service/SqlMigrationService.java:576-590 | a table is recorded in both alias maps under its lower-cased alias, or under its own lower-cased name when it has none; nothing else changes |
| ProcessorSpec.AnalyzeColumn | src/main/java/com/querymanager/service/SqlMigrationService.java:658-677 | only the table-to-target map can change; an unqualified column changes nothing (660), and neither does a column whose resolved table has no field entry and no table entry (676) |
| ProcessorSpec.AnalyzeColumnFieldEntry | src/main/java/com/querymanager/service/SqlMigrationService.java:665-670 | a field mapping for the resolved table and column sets that table's target to the new table of the last such entry, overwriting any target |
| ProcessorSpec.AnalyzeColumnFirstTableEntry | src/main/java/com/querymanager/service/SqlMigrationService.java:671-675 | otherwise the first entry listed for the table gives the target, and only when the table has none yet |
| ProcessorSpec.UpdateColumn | src/main/java/com/querymanager/service/SqlMigrationService.java:791-838 | only the log and the flag can change, and an unqualified column changes nothing (793); `UpdateColumnLog` states the logged key and value |
| ProcessorSpec.UpdateTable | src/main/java/com/querymanager/service/SqlMigrationService.java:702-724 | a table with a target logs `lower(name) -> target` and sets the flag; an already-logged key keeps its position, a new one is appended, and no other logged key changes; with an alias, the alias is re-pointed to `lower(target)` in `aliasToTable` and `aliasToOriginal` is unchanged; without one, `lower(target)` is recorded in `aliasToTable` as itself and in `aliasToOriginal` as the original name; the target map never changes; a table without a target changes nothing |
| ProcessorSpec.UpdateColumnLog | src/main/java/com/querymanager/service/SqlMigrationService.java:791-837 | the only key logged is `lower(alias as written).lower(column)`: to the field mapping's reference when there is one, otherwise to `target.lower(column)`. A key already logged keeps its position, a new key is appended, and no other key changes |
| ProcessorSpec.WalkExpr | src/main/java/com/querymanager/service/SqlMigrationService.java:627-656 | the analysis descent changes only the target map; the update descent (761-789) changes only the log and the flag |
| ProcessorSpec.WalkExprKeeps | src/main/java/com/querymanager/service/SqlMigrationService.java:627-656 | both expression walks keep the invariant, never reset the flag, and only extend the log |
| ProcessorSpec.ProcessSelectKeeps | src/main/java/com/querymanager/service/SqlMigrationService.java:538-562 | processing a select keeps the invariant and only extends the log |
| ProcessorSpec.ProcessSelect | src/main/java/com/querymanager/service/SqlMigrationService.java:538-548 | definition, no contract of its own: a plain select is processed, the branches of a set operation in order on the same state, and any other select is skipped; `ProcessSelectKeeps`, `UnionSharesProcessor` and `ProcessSelectsAppend` state it |
| ProcessorSpec.ChangesMeanLogged | src/main/java/com/querymanager/service/SqlMigrationService.java:521-522 | after a whole select the flag is set exactly when something is logged, and every key is logged once |
| ProcessorSpec.UnionSharesProcessor | src/main/java/com/querymanager/service/SqlMigrationService.java:542-546 | a set operation processes its second branch in the state left by the first: one processor is shared |
| ProcessorSpec.ProcessSelectsAppend | src/main/java/com/querymanager/service/SqlMigrationService.java:544-546 | the branches run one after another on the same state |
| ProcessorSpec.JoinConditionsNotAnalysed | src/main/java/com/querymanager/service/SqlMigrationService.java:592-625 | changing the JOIN ON expressions does not change what the analysis pass computes |
| Processor.QueryMigrationProcessor.constructor | src/main/java/com/querymanager/service/SqlMigrationService.java:515-528 | a new processor holds the two lookup maps and the empty initial state |
| Processor.QueryMigrationProcessor.ProcessSelect | src/main/java/com/querymanager/service/SqlMigrationService.java:538-548 | the new state is `ProcessorSpec.ProcessSelect` of the old one |
| Processor.QueryMigrationProcessor.ProcessPlainSelect | src/main/java/com/querymanager/service/SqlMigrationService.java:550-562 | collect, analyse, update tables, update columns, in that order |
| Processor.QueryMigrationProcessor.CollectTables | src/main/java/com/querymanager/service/SqlMigrationService.java:564-574 | the FROM item, then every join's right item |
| Processor.QueryMigrationProcessor.CollectFromItem | src/main/java/com/querymanager/service/SqlMigrationService.java:576-590 | the alias maps are updated as `ProcessorSpec.CollectFromItem` says |
| Processor.QueryMigrationProcessor.AnalyzeFieldUsage | src/main/java/com/querymanager/service/SqlMigrationService.java:592-625 | select items, WHERE, GROUP BY, ORDER BY are analysed in order |
| Processor.QueryMigrationProcessor.AnalyzeExpressions | src/main/java/com/querymanager/service/SqlMigrationService.java:637-645 | each expression of a list is analysed in turn |
| Processor.QueryMigrationProcessor.AnalyzeExpression | src/main/java/com/querymanager/service/SqlMigrationService.java:627-656 | the descent through binary, parenthesised, function, BETWEEN and IN expressions |
| Processor.QueryMigrationProcessor.AnalyzeColumn | src/main/java/com/querymanager/service/SqlMigrationService.java:658-677 | the target map is updated as `ProcessorSpec.AnalyzeColumn` says |
| Processor.QueryMigrationProcessor.UpdateTables | src/main/java/com/querymanager/service/SqlMigrationService.java:679-700 | the FROM table, then each join's table and its ON expressions |
| Processor.QueryMigrationProcessor.UpdateTable | src/main/java/com/querymanager/service/SqlMigrationService.java:702-724 | the log and the alias maps are updated as `ProcessorSpec.UpdateTable` says |
| Processor.QueryMigrationProcessor.UpdateColumns | src/main/java/com/querymanager/service/SqlMigrationService.java:726-759 | select items, WHERE, GROUP BY, ORDER BY are updated in order |
| Processor.QueryMigrationProcessor.UpdateExpressionList | src/main/java/com/querymanager/service/SqlMigrationService.java:770-778 | each expression of a list is updated in turn |
| Processor.QueryMigrationProcessor.UpdateExpressionColumns | src/main/java/com/querymanager/service/SqlMigrationService.java:761-789 | the same descent as the analysis |
| Processor.QueryMigrationProcessor.UpdateColumn | src/main/java/com/querymanager/service/SqlMigrationService.java:791-838 | the log is updated as `ProcessorSpec.UpdateColumn` says |
| Migration.MigrateQuerySpec | src/main/java/com/querymanager/service/SqlMigrationService.java:108-134 | it throws exactly when the parser fails; a result without changes returns the query as written; a result with changes comes from a parsed select |
| Migration.MigrateQuery | src/main/java/com/querymanager/service/SqlMigrationService.java:108-134 | a fresh processor per query, and the log applied to the original text, not the sanitized one |
| Migration.ChangedExactlyWhenLogged | src/main/java/com/querymanager/service/SqlMigrationService.java:116-130 | a query that parses is changed exactly when the processor logged something, and its new text is the log applied to the original |
| Migration.QueryUpdate | src/main/java/com/querymanager/service/SqlMigrationService.java:52-80 | a query gets an update only from a returned result with changes, or from a failed parse whose fallback text differs from the original |
| Migration.NoMappingsNoFallback | src/main/java/com/querymanager/service/SqlMigrationService.java:62-79 | with no mapping rows a query that fails to parse is not impacted |
| Migration.MigrateOne | src/main/java/com/querymanager/service/SqlMigrationService.java:53-80 | one query: impacted with its new text when it has an update, otherwise left as it was; name, description and original text never change |
| Migration.MigrateEach | src/main/java/com/querymanager/service/SqlMigrationService.java:50-84 | the loop returns exactly the queries with an update, in input order, each one updated |
| Migration.MigrateQueries | src/main/java/com/querymanager/service/SqlMigrationService.java:45-85 | the returned list is exactly the queries with an update, in input order; each of them is impacted and holds its new text; every other query keeps its flag and text |
| Migration.SelectedMembers | src/main/java/com/querymanager/service/SqlMigrationService.java:56-73 | a query is returned exactly when it has an update, and at most every query is returned |

## Left out

- The SQL parser is not modelled (`CCJSqlParserUtil.parse`, SqlMigrationService.java:114). Its result is the parameter `parse`. Exceptions thrown elsewhere inside the `try` of `migrateQueries` are not modelled; the only throw is the parse error.
- The parsed tree is not mutated (`setName`, `setColumnName`, SqlMigrationService.java:710, 817, 831-835). The tree is discarded after processing, and the mutations affect neither the flag nor the log.
- Logging calls are not modelled.
- Apache POI I/O is not modelled: opening workbooks, `getCellValueAsString`, reports and saving. The readers take the sheet as a sequence of optional rows, row 0 being the header, with cells already converted to strings.
- Case folding is ASCII only. Java's `toLowerCase`, `toUpperCase` and `equalsIgnoreCase` also fold non-ASCII letters, and `toLowerCase` depends on the locale.
- General regular-expression semantics are not modelled. In particular, `$` and `\` in replacement strings would be interpreted by `replaceAll`/`appendReplacement`; the model writes them literally. Names are taken to be plain identifiers.
- Patterns.AliasedClause: requires a non-empty table name that does not start with whitespace. Otherwise backtracking of `\s+` into the quoted name would differ from the scanner. The same holds for AliasedClauseWithAs, BareClause and TableClauseAt.
- Migration.MigrateQueries: requires every mapping's new object to be present, because the reader always sets it (`getCellValueAsString` never returns null). What the fallback does with a null new object is not modelled: with a dotted deprecated object it throws at SqlMigrationService.java:370; with a dot-free one the null reaches the table and alias maps, throws at 414 only when an aliased FROM/JOIN clause is found, and otherwise writes the text `null` into the query (427, 431). The same requirement is on MigrateEach, MigrateOne and Rewriter.PerformSimpleReplacement.
- Migration.MigrateQueries: requires the query objects to be distinct. The same object listed twice would be migrated twice; this aliasing case is not modelled.
- RewriterSpec.CapitalizedPairsFiltered: requires that no deprecated name has two or more dots. Without that, the pair `a.b.c -> x.y.z` adds the capitalized pair `AB.c -> XY.z`, which keeps its dots and survives the filter.
- Naming.GenerateAlias: a null name is not modelled (it is returned as null at SqlMigrationService.java:339). Every caller passes a present name.
- HashMap iteration order is one function of the key set. Java's order also depends on the insertion order of keys that share a bucket, and on the table's capacity. With one `order` for all queries, the model cannot reproduce a run in which two maps with the same keys inserted in different orders iterate differently. Every property is proved for every `order`, so none of them relies on a particular order.
- Strings are sequences of Unicode scalar values. Java's `length()` and `substring` count UTF-16 code units, so names with characters beyond the Basic Multilingual Plane sort differently in step 3 (`RewriterSpec.SortByKeyLength`, SqlMigrationService.java:259) and are truncated differently by `generateAlias` (`Naming.GenerateAlias`, 343-345).
- `QueryDTO`'s report fields (`oldUrl`, `newUrl`, `status`) are not modelled. The migrator never touches them.
- The tree keeps only what the processor inspects. Every other expression kind, and a select item without an expression, is `Other`, which both walks skip. A qualified column keeps only its table name.
