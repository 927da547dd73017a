# CSV Mapper core, modelled in Dafny

This is a model of the core of the CSV Mapper, a browser tool. The tool maps
the columns of a data CSV onto the columns of a template CSV. For every
template header it holds a *rule*. The kinds of rule are:

- none: the cell stays blank;
- direct: copy one source column;
- split name: take the first or the last name out of a full-name column;
- concat: join several trimmed non-blank source columns with a separator.

The model covers these parts of the tool:

- **Mapping logic** (`src/utils/mapping.ts`):
  - header normalisation;
  - the token-set Jaccard score;
  - the four-tier auto-mapper: exact, normalised, name split, fuzzy;
  - rule evaluation over rows;
  - the full-name splitter.
- **Rule types** (`src/types.ts`).
- **Screen behaviour** (`src/App.tsx`), written as a `MapperScreen` class with
  one method per handler:
  - the state reducers: seeding merge, rule update, concat chip add/remove,
    separator edit, kind defaults;
  - save and load of mapping files;
  - the small helpers: `isRuleMatched`, `findDefaultNameColumn`, `guessPart`.
- **Parse completion and export** (`src/utils/csv.ts`). These run around the
  CSV parser itself: they drop empty rows, infer headers, blank missing cells
  and project rows for export.

The modules are:

| module | file | models |
|---|---|---|
| `Wrappers` | wrappers.dfy | `Option` |
| `Text` | text.dfy | JavaScript string operations: `toLowerCase` on ASCII, `trim`, `split`, `join`, `includes`, `lastIndexOf`, the character-class strip and the first-match alternation `replace` |
| `Types` | types.dfy | the rule union, rows, parsed CSVs, mappings |
| `Normalize` | normalize.dfy | `normalizeHeader` |
| `Similarity` | similarity.dfy | `tokens`, `jaccard` |
| `AutoMapper` | automap.dfy | `autoMap` |
| `Evaluator` | evaluator.dfy | `applyMapping`, `splitName` |
| `Editing` | editing.dfy | the App reducers and helpers, as functions on mappings |
| `Csv` | csv.dfy | the `csv.ts` helpers |
| `SaveFile` | savefile.dfy | the save payload and the load filter, over JSON values |
| `App` | appstate.dfy | the screen state and its handlers |

Each loop in the source is a `method` with loop invariants. Each method is
proved equal to a specification function:

- `AutoMap` and `FuzzyBest` against `AutoMapping` and `BestFuzzy`;
- `ApplyMapping` against `EvalRows`;
- `InferHeadersFromRows` against `Dedup(AllKeys(..))`;
- `CleanUndefinedToEmpty` against `CleanRow`;
- `CollectEntries` and `LoadSaveFile` against `LoadMapping`.

The properties the source promises are then proved as lemmas about those
functions.

The model follows the code in these easily misread cases:

- A saved file whose `mapping` member is `null` is read as if the whole
  document were the mapping, because `??` falls through.
- `splitName` splits at every comma and uses the first two pieces.
- Each alias alternation in `normalizeHeader` rewrites only its first match,
  and inside larger words too. For example, "fname" inside "surfname" is
  still an alias.
- The underscore aliases (`first_name`, `last_name`) can never match, because
  the strip before them removes every underscore.

## Model

| member | source | states |
|---|---|---|
| Text.ToLowerIdempotent | src/utils/mapping.ts:5 | lower-casing keeps the length, leaves no ASCII capital, and is idempotent |
| Text.KeepLowerAlnumSpec | src/utils/mapping.ts:6 | the strip leaves only [a-z0-9], never grows the string, and keeps a string already in [a-z0-9] |
| Text.ToLowerKeepsLowerAlnum | src/utils/mapping.ts:5 | lower-casing keeps a string already in [a-z0-9] |
| Text.TrimSpec | src/utils/mapping.ts:101 | `trim` gives a trimmed contiguous slice of its input |
| Text.TrimEmptyIff | src/utils/mapping.ts:102 | a string trims to empty exactly when it is all whitespace |
| Text.TrimIdempotent | src/utils/mapping.ts:113-114 | trimming twice is trimming once |
| Text.SplitWhereSpec | src/utils/mapping.ts:13 | splitting gives at least one piece, no piece holds a separator, and there is one piece exactly when the input has no separator |
| Text.SplitWhereRebuild | src/utils/mapping.ts:13 | there is one more piece than separators, and putting the separator characters back between the pieces, in order, rebuilds the input |
| Text.SplitWhereUnique | src/utils/mapping.ts:13 | any separator-free pieces that rebuild the input that way are exactly the split, so the split is determined |
| Text.SplitOnSpec | src/utils/mapping.ts:105 | splitting at a character gives at least one piece, none holding it, and a single piece (the input) exactly when the character is absent |
| Text.JoinSplitOn | src/utils/mapping.ts:105 | joining the pieces of a split with the same character gives back the input |
| Text.JoinTrimmed | src/utils/mapping.ts:90-91 | joining trimmed non-empty parts is empty exactly when there are no parts, is trimmed, and starts with the first part |
| Text.LastIndexOf | src/utils/mapping.ts:109-110 | the result is absent exactly when the character does not occur; otherwise it points at the character, and none follows it |
| Text.ReplaceFirstSpec | src/utils/mapping.ts:7-8 | the alternation `replace` changes nothing when no alternative occurs; otherwise it rewrites the leftmost match, taking the first alternative matching there |
| Text.ReplaceFirstNotContained | src/utils/mapping.ts:7-8 | a string holding none of the alternatives is left unchanged |
| Text.SettledFixed | src/utils/mapping.ts:7-8 | a string whose leftmost match is the first alternative, or that has no match, is left unchanged by rewriting into that alternative |
| Text.ReplaceSettles | src/utils/mapping.ts:7-8 | after rewriting into the first alternative, the leftmost match is that alternative, when no alternative can overlap the inserted text from inside |
| Text.ReplaceKeepsSettled | src/utils/mapping.ts:7-8 | a second rewrite whose texts cannot overlap the first rewrite's keeps the first rewrite settled |
| Normalize.NormalizeHeader | src/utils/mapping.ts:3-9 | a normalised header holds only [a-z0-9] |
| Normalize.StripHeaderSpec | src/utils/mapping.ts:5-6 | the strip leaves only [a-z0-9], never grows the header, and keeps a header already in [a-z0-9] |
| Normalize.NormalizeIdempotent | src/utils/mapping.ts:3-9 | normalising a normalised header changes nothing |
| Normalize.FirstNameAliasesBlocked | src/utils/mapping.ts:7 | no given-name alias holds "firstname" from its second character on |
| Normalize.LastNameBlocksFirstNameAliases | src/utils/mapping.ts:7-8 | "lastname" and a given-name alias can never overlap |
| Normalize.LastNameAliasesBlocked | src/utils/mapping.ts:8 | no surname alias holds "lastname" from its second character on |
| Normalize.FirstNameBlocksLastNameAliases | src/utils/mapping.ts:7-8 | "firstname" and a surname alias can never overlap |
| Normalize.NormalizeEmpty | src/utils/mapping.ts:4 | the empty header normalises to "" |
| Normalize.NormalizeWholeAlias | src/utils/mapping.ts:7-8 | a header that strips down to a whole given-name (surname) alias normalises to "firstname" ("lastname") |
| Normalize.NormalizeWithoutAlias | src/utils/mapping.ts:3-9 | a header holding no alias normalises to its stripped form |
| Normalize.UnderscoreAliasesInert | src/utils/mapping.ts:6-8 | after the strip, `first_name` and `last_name` can occur nowhere |
| Normalize.NormalizeGivenName | src/utils/mapping.ts:7 | "Given Name" normalises to "firstname" |
| Normalize.NormalizeSurname | src/utils/mapping.ts:8 | "Surname" normalises to "lastname" |
| Normalize.NormalizeFirstName | src/utils/mapping.ts:3-7 | "FirstName" normalises to "firstname" |
| Normalize.NormalizeLastName | src/utils/mapping.ts:3-8 | "LastName" normalises to "lastname" |
| Normalize.NormalizeName | src/utils/mapping.ts:9 | "Name" normalises to "name" |
| Normalize.NormalizeEmailAddress | src/utils/mapping.ts:6 | "email_address" normalises to "emailaddress" |
| Similarity.Tokens | src/utils/mapping.ts:12-14 | every token is non-empty and lies in [a-z0-9] |
| Similarity.PiecesCoverStripped | src/utils/mapping.ts:13 | read in order, the pieces hold exactly the header's [a-z0-9] characters |
| Similarity.TokensOfWord | src/utils/mapping.ts:12-14 | a header of letters and digits only is a single token |
| Similarity.Jaccard | src/utils/mapping.ts:16-20 | the score lies in [0, 1] and is 0 for two empty sets |
| Similarity.JaccardSymmetric | src/utils/mapping.ts:16-20 | the score does not depend on argument order |
| Similarity.JaccardOneIff | src/utils/mapping.ts:16-20 | the score is 1 exactly for two equal non-empty sets |
| Similarity.JaccardThreshold | src/utils/mapping.ts:19 | score >= 0.6 exactly when the union is non-empty and 5·\|A∩B\| >= 3·\|A∪B\| |
| Similarity.EmailAgainstEmailAddress | src/utils/mapping.ts:12-20 | "Email" and "email_address" have tokens {email} and {email, address} and score 0.5 |
| AutoMapper.FirstQualifying | src/utils/mapping.ts:31 | `find`: the earliest source passing the tier's test, or none when none passes |
| AutoMapper.BestAmong | src/utils/mapping.ts:58-62 | the strict-improvement scan picks a maximum score, the first one, and picks nothing only from an empty list |
| AutoMapper.FirstBestUnique | src/utils/mapping.ts:61 | there is only one first maximum |
| AutoMapper.FuzzyBest | src/utils/mapping.ts:58-62 | the loop computes the first best-scoring source and its score |
| AutoMapper.FuzzyKind | src/utils/mapping.ts:63-67 | the fuzzy tier gives no rule or a direct rule to one of the sources, and no rule when there are no sources |
| AutoMapper.FuzzyKindSpec | src/utils/mapping.ts:57-67 | a non-empty source list has a first best source; the result is a direct rule to it when its score is >= 0.6, and no rule otherwise |
| AutoMapper.FuzzyAcceptance | src/utils/mapping.ts:63 | the acceptance test, stated on the sizes of the token sets |
| AutoMapper.AutoKind | src/utils/mapping.ts:26-67 | the rule for one target: never concat; its source is one of the sources; a split-name rule only for a target normalising to firstname or lastname, with part first exactly for firstname |
| AutoMapper.AutoMapping | src/utils/mapping.ts:22-71 | every template header gets a rule, and nothing else does; rules have no origin, no concat, and only real sources |
| AutoMapper.AutoMap | src/utils/mapping.ts:22-71 | the loop, with its `continue`s, builds exactly AutoMapping |
| AutoMapper.NoSourcesNoRule | src/utils/mapping.ts:22-71 | with no source headers, every target is unmapped |
| AutoMapper.ExactMatchWins | src/utils/mapping.ts:30-35 | the first case-insensitive exact match is taken, whatever the other tiers would say |
| AutoMapper.NormalizedMatchWins | src/utils/mapping.ts:37-42 | failing that, the first source with the same normalised header is taken |
| AutoMapper.NameSplitWins | src/utils/mapping.ts:44-55 | failing that, a first-name or last-name target takes the first name column as a split-name rule with the matching part |
| AutoMapper.FuzzyTierDecides | src/utils/mapping.ts:57-67 | otherwise the fuzzy tier decides, for targets that are not first or last names, and for those with no name column |
| AutoMapper.FirstNameFromNameColumn | src/utils/mapping.ts:44-55 | "FirstName" against ["Name"] gives a split-name rule, part first |
| AutoMapper.LastNameFromNameColumn | src/utils/mapping.ts:44-55 | "LastName" against ["Name"] gives a split-name rule, part last |
| AutoMapper.EmailNotMatchedToEmailAddress | src/utils/mapping.ts:57-67 | "Email" is not matched to "email_address" (score 0.5 is below 0.6) |
| Evaluator.SplitFullName | src/utils/mapping.ts:100-116 | every result is trimmed |
| Evaluator.SplitBlankName | src/utils/mapping.ts:101-102 | a blank name gives "" for both parts |
| Evaluator.SplitAtComma | src/utils/mapping.ts:104-107 | with a comma: last is the trimmed first piece, first the trimmed second piece, and neither holds a comma |
| Evaluator.SplitAtLastSpace | src/utils/mapping.ts:109-115 | without a comma but with a space: the name is a + " " + b with no space in b; first is trim(a), last is trim(b) and holds no space |
| Evaluator.SplitSingleWord | src/utils/mapping.ts:110-112 | a single word is the first name, and the last name is "" |
| Evaluator.SplitDoeJane | src/utils/mapping.ts:104-107 | "Doe, Jane" gives first "Jane" and last "Doe" |
| Evaluator.SplitSmith | src/utils/mapping.ts:110-112 | "Smith" gives first "Smith" and last "" |
| Evaluator.ConcatValuesTrimmed | src/utils/mapping.ts:90 | every value kept for a concat is trimmed and non-empty |
| Evaluator.DropEmpty | src/utils/mapping.ts:90 | the filter keeps exactly the non-empty values |
| Evaluator.ConcatValuesMapFilter | src/utils/mapping.ts:90 | the kept values are the trimmed cells of the sources with the empty ones dropped, in order |
| Evaluator.ConcatValuesEmptyIff | src/utils/mapping.ts:90 | nothing is kept exactly when every source cell is blank or missing |
| Evaluator.ConcatCell | src/utils/mapping.ts:88-92 | a concat cell is trimmed, and empty exactly when every source cell is blank |
| Evaluator.ConcatCellAppend | src/utils/mapping.ts:89-91 | adding a source appends its trimmed value, after the separator (a space by default), unless that value is blank |
| Evaluator.ConcatJo | src/utils/mapping.ts:88-92 | First "  Jo " and an empty Last concatenate to "Jo" |
| Evaluator.EvalCell | src/utils/mapping.ts:77-93 | none gives ""; direct copies the source cell untrimmed; split name and concat give trimmed cells, and a concat cell is empty exactly when every source cell is blank |
| Evaluator.EvalRow | src/utils/mapping.ts:74-96 | an output row has exactly the template headers as keys |
| Evaluator.EvalRows | src/utils/mapping.ts:73-98 | one output row per input row, each keyed by the template headers |
| Evaluator.ApplyMapping | src/utils/mapping.ts:73-98 | the nested loops compute exactly EvalRows |
| Evaluator.AbsentRuleEmpty | src/utils/mapping.ts:77-81 | a template header with no rule, or a none rule, gets "" |
| Evaluator.DirectCopies | src/utils/mapping.ts:82-84 | a direct rule copies its source cell, or "" when the column is missing |
| Evaluator.OriginIrrelevant | src/types.ts:8-16 | the origin of a rule never changes the mapped output |
| Editing.Merge | src/App.tsx:50 | seeding adds the auto rules for unmapped headers and keeps every existing rule |
| Editing.MergeIdempotent | src/App.tsx:47-52 | seeding twice is seeding once |
| Editing.MergeKeepsEdit | src/App.tsx:47-52 | re-seeding never overrides a rule the user set |
| Editing.WithRule | src/App.tsx:73-75 | `updateRule` replaces the target's rule and leaves every other entry alone |
| Editing.RemoveAll | src/App.tsx:263 | the filter keeps exactly the other sources, and never grows the list |
| Editing.RemoveAllAppend | src/App.tsx:263 | the filter works piece by piece: the removed source contributes nothing, any other source itself, so the kept sources stay in order |
| Editing.RemoveAllAbsent | src/App.tsx:263 | removing a source that is not there leaves the list as it is |
| Editing.RemoveAllNoDuplicates | src/App.tsx:263 | removing a source keeps a duplicate-free list duplicate-free |
| Editing.WithoutSource | src/App.tsx:260-265 | removing a chip leaves exactly the other sources, keeps separator and origin, and changes no other entry |
| Editing.WithSource | src/App.tsx:279-291 | adding "" changes nothing; otherwise the source is appended unless already present, and separator, origin and other entries stay |
| Editing.WithSourceNoDuplicates | src/App.tsx:284-288 | adding sources never creates a duplicate |
| Editing.WithSourceThenWithout | src/App.tsx:260-291 | adding then removing a source is the same as just removing it |
| Editing.WithSeparator | src/App.tsx:309-316 | a separator edit sets the separator, keeps sources and origin, and changes no other entry |
| Editing.SeparatorUsed | src/App.tsx:309-316 | the mapped cell of an edited concat rule joins with the new separator |
| Editing.GuessPart | src/App.tsx:499-504 | the guess is last exactly when the lower-cased target mentions "last" and not "first" |
| Editing.FirstNameColumnFrom | src/App.tsx:496 | the earliest header containing "name" from a position on, or none after it |
| Editing.FindDefaultNameColumn | src/App.tsx:495-497 | the result is the first header whose lower-cased form contains "name", and is absent exactly when there is none |
| Editing.IsRuleMatched | src/App.tsx:480-491 | direct and split-name rules are matched exactly when their source is non-empty, concat rules exactly when they list a source, none rules never |
| Editing.UnmatchedIsBlank | src/App.tsx:480-491 | a rule shown as unmatched maps to "" every row that has no empty-named column |
| Editing.DefaultRule | src/App.tsx:366-386 | the chosen kind's rule: direct takes the first source; split name takes the default name column or the first source, with the guessed part; concat starts empty with separator " " |
| Editing.DefaultRuleMatched | src/App.tsx:366-386 | fresh none and concat rules are unmatched; a fresh direct rule is matched exactly when there is a non-empty first source |
| Editing.DirectChoice | src/App.tsx:326-329 | choosing a source gives a direct rule to it, and choosing "" gives none; matched exactly when the choice is non-empty |
| Editing.SplitSourceChoice | src/App.tsx:220-225 | the new split-name rule takes the chosen source and keeps the current part, or guesses one |
| Editing.SplitPartChoice | src/App.tsx:240-245 | the new split-name rule takes the chosen part and keeps the source |
| Csv.FirstIndex | src/utils/csv.ts:26 | the first position of an element |
| Csv.Dedup | src/utils/csv.ts:25-27 | the insertion-ordered set holds exactly the elements of the input, each once, and is no longer than it |
| Csv.DedupSpec | src/utils/csv.ts:25-27 | the insertion-ordered set holds each element once, nothing else, and in order of first occurrence |
| Csv.InferHeadersFromRows | src/utils/csv.ts:24-28 | the nested loops compute the de-duplicated keys of all rows |
| Csv.InferredHeadersSpec | src/utils/csv.ts:24-28 | the inferred headers are duplicate-free, and are exactly the keys that occur in some row |
| Csv.CleanRow | src/utils/csv.ts:30-34 | a cleaned row has exactly the keys of the raw row |
| Csv.CleanRowValues | src/utils/csv.ts:32 | every present value is kept, and every missing or null one becomes "" |
| Csv.CleanUndefinedToEmpty | src/utils/csv.ts:30-34 | the loop computes CleanRow |
| Csv.PresentRows | src/utils/csv.ts:11 | `filter(Boolean)` keeps exactly the delivered rows and never grows the list |
| Csv.PresentRowsAppend | src/utils/csv.ts:11 | the filter works piece by piece: a missing row contributes nothing, a delivered one itself, so the rows stay in order |
| Csv.ParseResult | src/utils/csv.ts:11-13 | row i of the result is the i-th delivered row, cleaned; the parser's field list is used when there is one |
| Csv.ParseHeadersInferred | src/utils/csv.ts:12 | without a field list, the headers hold every key of every row, once |
| Csv.CompleteParse | src/utils/csv.ts:10-14 | the completion callback computes ParseResult |
| Csv.Project | src/utils/csv.ts:21 | one line of cells per row, one cell per header |
| Csv.ExportedCells | src/utils/csv.ts:21 | each exported cell of mapped rows is exactly the cell's rule evaluated on the source row |
| SaveFile.EncodeRule | src/types.ts:11-16 | a rule is written as an object whose `kind` tag names the rule's kind |
| SaveFile.DecodeRule | src/types.ts:11-16 | a rule is read only from an object whose `kind` tag names the kind read, and it takes the `origin` field's provenance |
| SaveFile.DecodeEncodeRule | src/types.ts:11-16 | reading back a written rule gives the same rule, origin included |
| SaveFile.DecodeEncodeRules | src/types.ts:11-16 | every rule of a mapping reads back as itself |
| SaveFile.DecodeEncodeStrings | src/App.tsx:88-89 | a written list of headers reads back as the same list |
| SaveFile.EncodeMapping | src/App.tsx:90 | the written mapping has the mapping's keys, each entry truthy and reading back as its rule |
| SaveFile.SavePayload | src/App.tsx:85-91 | the payload has exactly the members version (1), templateHeaders and sourceHeaders (each reading back as the given list) and mapping (the encoded mapping) |
| SaveFile.LoadedValue | src/App.tsx:101 | `parsed?.mapping ?? parsed`: the member when present and not null, else the document |
| SaveFile.Collected | src/App.tsx:105-109 | an entry is kept exactly when its key is allowed, its value truthy and readable as a rule, and it is kept as that rule |
| SaveFile.LoadMapping | src/App.tsx:96-115 | only an object or array replaces the mapping; from an object, an entry is kept exactly when its key is allowed (a template header, or any key without a template), its value is truthy and reads as a rule, and it is kept as that rule; an array gives the empty mapping |
| SaveFile.SaveLoadRoundTrip | src/App.tsx:85-115 | without a template, loading a saved file restores the saved mapping |
| SaveFile.SaveLoadFiltered | src/App.tsx:85-115 | with a template, loading a saved file restores the saved rules of the template's headers, and no others |
| SaveFile.NullMappingFallsBack | src/App.tsx:101 | a null `mapping` member makes the whole document the mapping |
| SaveFile.ScalarDocumentIgnored | src/App.tsx:105 | a scalar document leaves the mapping unchanged |
| SaveFile.CollectEntries | src/App.tsx:106-109 | the loop over the keys computes Collected |
| SaveFile.KeysOf | src/App.tsx:106 | `Object.keys`: a list holding exactly the object's keys |
| SaveFile.LoadSaveFile | src/App.tsx:101-111 | the load handler computes LoadMapping |
| App.Take | src/App.tsx:56 | `slice(0, n)`: a prefix of length min(n, length) |
| App.MapperScreen.constructor | src/App.tsx:12-14 | the screen starts with no files and an empty mapping |
| App.MapperScreen.Seed | src/App.tsx:47-52 | once both files are loaded, the auto-mapping is merged under the current mapping; every existing rule survives |
| App.MapperScreen.SelectTemplate | src/App.tsx:61-65 | a parsed template file is stored, and the mapping is seeded |
| App.MapperScreen.SelectData | src/App.tsx:67-71 | a parsed data file is stored, and the mapping is seeded |
| App.MapperScreen.UpdateRule | src/App.tsx:73-75 | the mapping becomes WithRule of the old one; the files are unchanged |
| App.MapperScreen.RemoveConcatSource | src/App.tsx:260-265 | the mapping becomes WithoutSource of the old one |
| App.MapperScreen.AddConcatSource | src/App.tsx:279-291 | the mapping becomes WithSource of the old one |
| App.MapperScreen.SetConcatSeparator | src/App.tsx:309-316 | the mapping becomes WithSeparator of the old one |
| App.MapperScreen.SelectKind | src/App.tsx:366-386 | the target gets the default rule of the chosen kind |
| App.MapperScreen.SelectDirectSource | src/App.tsx:326-329 | the target gets DirectChoice of the selected value |
| App.MapperScreen.SelectSplitSource | src/App.tsx:220-225 | the target gets SplitSourceChoice of the selected source |
| App.MapperScreen.SelectSplitPart | src/App.tsx:240-245 | the target gets SplitPartChoice of the selected part |
| App.MapperScreen.LoadSave | src/App.tsx:96-115 | an unparsable or non-object document leaves the mapping; otherwise it is replaced by LoadMapping |
| App.MapperScreen.Save | src/App.tsx:85-94 | the saved payload holds both header lists and the current mapping |
| App.MapperScreen.Preview | src/App.tsx:54-57 | the first 20 mapped rows, or none until both files are loaded |
| App.MapperScreen.Export | src/App.tsx:78-84 | the exported cells are the projection of all mapped rows, or nothing until both files are loaded |

## Left out

- The user interface (React, MUI, the walkthrough popover, row highlighting) is not modelled. Its handlers are modelled as `MapperScreen` methods.
- `localStorage`, `Blob`/`saveAs` and `file.text()` are I/O and are left out.
- JSON text (`JSON.parse`, `JSON.stringify`) is not modelled. Documents are `Json` values, and a parse failure is `None`.
- PapaParse is a library outside the model: quoting, delimiters, `skipEmptyLines` and `unparse`'s text output. Its results enter as parameters.
- `toLowerCase` lowers ASCII letters only. Non-ASCII case mapping is not modelled.
- JavaScript numbers are modelled as exact rationals: no IEEE rounding or NaN. The fuzzy threshold 0.6 is therefore exact.
- The `normSource` precomputation in `autoMap` is not modelled. The model recomputes each source's normal form and tokens, which gives the same values.
- The `^name$ → name` replacement is left out, because it maps every string to itself.
- Prototype lookups are not modelled: a row or mapping key such as `constructor` behaves as an ordinary key.
- Rule kinds outside the four are unrepresentable, as is a `part` outside first/last. The source's type forbids them too.
- SaveFile.DecodeRule: a truthy entry of a loaded file that is not a well-formed rule is dropped. The source copies such an entry as is.
- SaveFile.LoadMapping: a loaded JSON array gives an empty mapping. The source would copy its truthy elements under their index keys.
- App.MapperScreen.RemoveConcatSource, AddConcatSource and SetConcatSeparator require the target's rule to be a concat rule or absent. The screen renders those controls only for concat rules, and on another rule JavaScript would throw or produce a malformed rule.
- App.MapperScreen.SelectSplitPart requires a split-name rule. The part selector is only rendered for one.
- App.MapperScreen.Seed: the React `useEffect` (after each change of either file) is modelled as seeding straight after each file is selected. Render timing is not modelled.
- Csv.CleanRow: row values enter as `Option<string>`, so `String(v)` on a value that is neither null nor a string is not modelled; for example PapaParse's `__parsed_extra` array of surplus fields would be joined with commas by the source.
- The async `parseCsvFile` promise and its error path are not modelled. `CompleteParse` is the completion callback.
