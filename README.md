# PHP constant checker — a verified model

This project models the lexical core of a VS Code extension. The extension
underlines constant references in PHP documents: green when the constant is
declared in a definitions file through `define_ex('NAME', …)`, and red when
it is not. The core has four parts:

- **Definitions loader** (`loadConstants`). It reads the names declared by
  `define_ex` from the content of the definitions file.
- **Comment and string masker** (`maskCommentsAndStrings`). It replaces
  `//…`, `#…`, closed `/*…*/` comments and quoted strings by blanks of the
  same length.
- **Scan and classify pass** (the body of `applyDecorations`). It:
  - finds the `<?php … ?>` and `<?= … ?>` regions;
  - masks each region;
  - finds the words of the shape `[A-Z][A-Z0-9_]*`;
  - drops variables (`$NAME`), member accesses (`::NAME`, `->NAME`),
    names starting with `TXT_CHAR` or `TEXT`, and excluded names;
  - sorts every other word, as an offset range of the document, into a
    defined list and an undefined list.
- **Hover index** (`ConstantHoverProvider`). It maps each name to its
  definition record: the constructor fills the map, `updateConstants`
  refills it, and a hover looks up the word under the cursor.

The repository holds two revisions of this code, and both are modelled.
`Variant.Current` is `out/extension.js`. `Variant.Legacy` is the older
`src/extension.ts`. They differ as follows:

- The Legacy masker knows only the quotes `'` and `"`; Current also masks
  backtick strings.
- The Legacy loader runs its pattern over the whole content and returns
  names only. Current splits the content into lines and records the first
  match of each line with its 1-based line number.
- For the exclusion list, Legacy uses its fixed `phpBuiltInConstants` list;
  Current takes the list as a parameter.
- To decide "defined", Legacy searches the list of names; Current looks up
  its `constantMap`.

Each regular expression is modelled as a deterministic left-to-right scanner
that takes the first match at each position. The alternatives are tried in
the order of the pattern, and lazy quantifiers stop at the first closer.
Modules:

- `Lexical`: character classes.
- `Masking`: the masker.
- `Regions`: the region pattern.
- `Tokens`: the constant pattern.
- `Definitions`: records and the name index.
- `Loader`: both loaders.
- `Scanner`: the specification `Scan` of the pass, the nested loops
  `Classify`/`ClassifyTokens` proved equal to it, and the properties of
  `Scan`.
- `Hover`: the provider class.

Two behaviours of the code are worth stating, since a reader might expect
otherwise:

- An unclosed `/*` is not masked. The block alternative
  `\/\*[\s\S]*?\*\/` needs a closing `*/`, so without one the scan keeps
  the `/` and the `*`, goes on inside the would-be comment, and reports the
  words in it.
- The `define_ex` pattern `define_ex\s*\(\s*['"]([A-Za-z0-9_]+)['"]` needs
  a closing `'` or `"`, and accepts no backtick on either side.

## Model

| member | source | states |
|---|---|---|
| Masking.Mask | out/extension.js:111-113 | The masked text has the length of the input, and each of its characters is either the input character at that offset or a blank. |
| Masking.MaskFrom | out/extension.js:112 | Masking the rest of the text from `p` keeps its length, and yields only original characters or blanks. |
| Masking.Quotes | out/extension.js:112 | The quotes that open a string: `'`, `"` and the backtick for Current, only `'` and `"` for Legacy (src/extension.ts:62). |
| Masking.LineEnd | out/extension.js:112 | `.*` stops at the first line terminator, or at the end of the text: none lies before the stop. |
| Masking.BlockEnd | out/extension.js:112 | The lazy block alternative ends just past the first `*/`, with none earlier. It fails exactly when no `*/` follows. |
| Masking.QuoteEnd | out/extension.js:112 | A string that matches ends just past a quote equal to its opening one. |
| Masking.QuoteEndSpec | out/extension.js:112 | A string matches, ending at `e`, exactly when the body scan (a backslash and the next character as one step, other characters alone, never stepping on the quote) reaches `e - 1` and a matching quote is there. It fails exactly when that scan meets a backslash before a line terminator or the end, or runs off the text. |
| Masking.QuoteEndFirst | out/extension.js:112 | No position the body scan passes before the closing quote holds that quote: the string ends at the first unescaped one. |
| Masking.ScanPassesNoQuote | out/extension.js:112 | A position the body scan passes on its way further on is inside the text and is not the quote. |
| Masking.QuoteEndAlong | out/extension.js:112 | Where the body scan gets to, the string ends as it would from there. |
| Masking.QuoteEndFound | out/extension.js:112 | A string that matches ends just past the position the body scan reaches. |
| Masking.QuoteEndFails | out/extension.js:112 | A string that does not match has a body scan that gets stuck. |
| Masking.EscapedQuoteSkipped | out/extension.js:112 | A backslash-escaped quote does not end a string: scanning resumes after it. |
| Masking.MatchAt | out/extension.js:112 | A match found at `p` ends after `p`, within the text. |
| Masking.Step | out/extension.js:112 | Every step of the masking scan moves forward. |
| Masking.MaskedMatch | out/extension.js:112 | Where the scan stops and a comment or string matches, the whole match is blank in the output. |
| Masking.KeptChar | out/extension.js:112 | Where the scan stops and nothing matches, the character is copied unchanged. |
| Masking.TerminatorKept | out/extension.js:112 | A line terminator reached by the scan is never masked. |
| Masking.LineCommentMasked | out/extension.js:112 | A `//` comment is blanked up to, but not including, the next line terminator, which is kept. |
| Masking.HashCommentMasked | out/extension.js:112 | A `#` comment is blanked up to, but not including, the next line terminator, which is kept. |
| Masking.BlockCommentMasked | out/extension.js:112 | A `/*` with a closer is blanked through the first `*/`. |
| Masking.UnclosedBlockKept | out/extension.js:112 | A `/*` without a closer is kept as `/` and `*`, and the scan continues right after it. |
| Masking.StringMasked | out/extension.js:112 | A string with a matching end quote is blanked through that quote, for each quote the variant knows. |
| Masking.UnmatchedQuoteKept | out/extension.js:112 | A quote that starts no complete string is kept, and the scan moves on by one character. |
| Masking.BacktickKeptByLegacy | src/extension.ts:61-63 | The Legacy masker leaves a backtick it reaches unmasked. |
| Masking.PlainTextUnchanged | out/extension.js:111-113 | Text without `/`, `#` or quote characters comes out unchanged. |
| Regions.OpensAt | out/extension.js:128 | A region opens where `<?php` or `<?=` starts. |
| Regions.BodyStart | out/extension.js:128 | The body of a region starts after its `<?php` or `<?=` opener, within the text. |
| Regions.CloseFrom | out/extension.js:128 | The lazy `[\s\S]*?(?:\?>\|$)` ends between its start and the end of the text. |
| Regions.CloseFromSpec | out/extension.js:128 | A region ends just past the first `?>` after its opener, or at the end of the text when none follows. |
| Regions.RegionAt | out/extension.js:128 | The region matched at an opener starts there, is not empty and lies in the text. |
| Regions.NextRegion | out/extension.js:139-141 | One `exec` from `from` yields a non-empty region at or after `from`. |
| Regions.NextRegionSpec | out/extension.js:139-141 | `exec` matches at the leftmost opener at or after `from`, and finds nothing exactly when no opener is left. |
| Regions.RegionsFrom | out/extension.js:139-141 | The regions the `while (exec)` loop finds: the next region from `from`, then those from its end, until none is left. |
| Regions.RegionsFromMatched | src/extension.ts:92-94 | Every region that the repeated `exec` finds starts at an opener after `from`, and is the region matched there. |
| Regions.RegionsFromOrdered | out/extension.js:139-141 | Regions come in document order and do not overlap. |
| Regions.OpenersCovered | out/extension.js:139-141 | Every opener in the text lies inside one of the regions found. |
| Regions.GapsHaveNoOpener | src/extension.ts:83 | No opener lies before the first region or between two consecutive regions. |
| Tokens.WordEnd | out/extension.js:145 | The run of word characters from `k` ends at the first character that is not a word character, or at the end. |
| Tokens.IsTokenStart | out/extension.js:145 | `\b[A-Z][A-Z0-9_]*\b` matches at `k` when a word starts there with an upper-case letter and the whole word is of the constant shape. |
| Tokens.NextToken | out/extension.js:148 | One `exec` of the constant pattern yields a non-empty match at or after `from`. |
| Tokens.NextTokenFound | out/extension.js:148-149 | A match starts a constant-shaped word, and its text is that whole word. |
| Tokens.NextTokenLeftmost | out/extension.js:148 | `exec` finds the leftmost match at or after `from`, and finds none exactly when there is none. |
| Tokens.NextTokenAtMost | src/extension.ts:103 | A match at `k` stops the search from any earlier position at or before `k`. |
| Tokens.TokenIsWholeWord | src/extension.ts:100 | A match is a maximal `[A-Za-z0-9_]` run of the shape `[A-Z][A-Z0-9_]*`. |
| Tokens.NextWordAfter | out/extension.js:145 | A match ends before any later match starts. |
| Definitions.Names | out/extension.js:135-137 | The defined names are exactly the names of the records. |
| Definitions.Index | out/extension.js:135-137 | The map `forEach(c => map.set(c.name, c))` leaves: each record, in order, overwrites the entry of its name. |
| Definitions.IndexKeys | out/extension.js:135-137 | The index built by successive `set` calls has exactly the record names as its keys. |
| Definitions.IndexLastWins | out/extension.js:203-205 | Each name in the index is bound to the last record with that name. |
| Definitions.IndexLookup | out/extension.js:218-219 | A lookup succeeds exactly for a name that some record defines, and yields the last such record. |
| Definitions.BuildIndex | out/extension.js:134-137 | The `forEach` loop leaves the index of the records, keyed by exactly their names. |
| Hover.ConstantHoverProvider.constructor | out/extension.js:201-207 | The new map is the index of the records, keyed by exactly their names, and the file path is stored. |
| Hover.ConstantHoverProvider.UpdateConstants | out/extension.js:208-213 | After `clear` and the refill, the map is the index of the new records alone, and the file path is unchanged. |
| Hover.ConstantHoverProvider.Lookup | out/extension.js:218-219 | `constantMap.get(word)` yields a record exactly when the word is a key, and then the record bound to it. |
| Hover.HoverAfterUpdate | out/extension.js:208-219 | After `updateConstants(cs)`, a hover finds a word exactly when some record of `cs` defines it. It then shows the last such record, whatever was loaded before. |
| Loader.SkipSpaces | out/extension.js:87 | Greedy `\s*` ends between its start and the end of the text. |
| Loader.SkipSpacesSpec | out/extension.js:87 | `\s*` takes every blank, and stops at the first non-blank. |
| Loader.NameEnd | out/extension.js:87 | Greedy `[A-Za-z0-9_]+` ends between its start and the end of the text. |
| Loader.NameEndSpec | out/extension.js:87 | The name run takes the longest run of name characters. |
| Loader.DefineAt | out/extension.js:87 | A match at `p` starts with `define_ex`, captures a non-empty name, and ends within the text. |
| Loader.QuotedName | out/extension.js:87 | The quoted tail captures a non-empty name, and ends two characters after it. |
| Loader.DefineAtSound | out/extension.js:87 | A match is `define_ex`, then blanks around exactly one `(`, then a `'` or `"`, the captured name and a `'` or `"`. |
| Loader.GapShape | out/extension.js:87 | Blanks, one `(` and blanks make a call gap. |
| Loader.DefineAtComplete | out/extension.js:87 | Conversely, text of that shape whose name is a whole run is matched, with that name. |
| Loader.SkipSpacesStops | out/extension.js:87 | `\s*` over a run of blanks stops at the first non-blank. |
| Loader.GapParen | out/extension.js:87 | The blanks a call gap starts with stop at its parenthesis. |
| Loader.GapRest | out/extension.js:87 | Only blanks follow the parenthesis of a call gap. |
| Loader.FirstDefine | out/extension.js:90 | A non-global `exec` yields a match that starts at or after `from`. |
| Loader.FirstDefineLeftmost | out/extension.js:90 | `exec` yields the leftmost match, and none only when no position matches. |
| Loader.StripCr | out/extension.js:85 | The optional `\r` of the separator `\r?\n`: one carriage return at the end of a line is dropped. |
| Loader.NewlineIndex | out/extension.js:85 | The index found is the first line feed. |
| Loader.SplitLines | out/extension.js:85 | Splitting on `\r?\n` yields at least one line, and no line holds a line feed. |
| Loader.CrlfToLf | out/extension.js:85 | The text with each `\r\n` turned into `\n`, against which the split is checked. |
| Loader.SplitJoin | out/extension.js:85 | Joining the lines with line feeds rebuilds the text with each `\r\n` turned into `\n`: splitting drops exactly the carriage returns just before line feeds. |
| Loader.SplitJoinNoCr | out/extension.js:85 | Text without carriage returns is rebuilt exactly from its lines. |
| Loader.SplitCrlf | out/extension.js:85 | A line ended by `\r\n` is split off without its carriage return, and splitting goes on after the line feed. |
| Loader.SplitJoinAt | out/extension.js:85 | Splitting and joining at the first line feed agrees with the conversion of `\r\n` to `\n`. |
| Loader.CrlfToLfAtLf | out/extension.js:85 | Across a line feed, the conversion drops one carriage return just before it and converts the rest on its own. |
| Loader.CrlfToLfUnchanged | out/extension.js:85 | The conversion changes nothing in text without line feeds or without carriage returns. |
| Loader.StripCrCons | out/extension.js:85 | Dropping a trailing carriage return keeps the first character of a line that is not a lone carriage return. |
| Loader.LineRecord | out/extension.js:89-96 | What line `i` contributes: the name of its first match with line `i + 1`, or nothing. |
| Loader.LineDefinitions | out/extension.js:88-97 | The records of the first `n` lines, in line order. |
| Loader.LineDefinitionsBounded | out/extension.js:94 | The records of the first `n` lines name lines at most `n`. |
| Loader.LineRecordSound | out/extension.js:90-96 | The record of a line, if any, carries the line's 1-based number and the name of its first match. |
| Loader.LineDefinitionsSound | out/extension.js:88-97 | Each record carries the name of the first match in the line it names. |
| Loader.LineDefinitionsOrdered | out/extension.js:88-97 | Line numbers strictly increase: at most one record per line. |
| Loader.LineDefinitionsComplete | out/extension.js:88-97 | Every line that holds a match contributes its record. |
| Loader.LoadedDefinitions | out/extension.js:81-103 | The Current result: `[]` after a failed read, otherwise the records of all the lines of the content. |
| Loader.LoadConstants | out/extension.js:81-103 | The loop yields the records of the lines. A failed read yields `[]`. Every name is a non-empty `[A-Za-z0-9_]` run and is the first match of its line. Line numbers strictly increase. |
| Loader.AllDefines | src/extension.ts:41-43 | Every name found by the global search is a non-empty `[A-Za-z0-9_]` run. |
| Loader.LegacyNames | src/extension.ts:32-52 | The Legacy result: `[]` after a failed read, otherwise the names of all the matches of the global search. |
| Loader.Covers | src/extension.ts:41-43 | What a global `exec` loop from `from` finds: the leftmost match from `from`, then what it finds from the end of that match; an empty list when no position from `from` on matches. |
| Loader.LoadConstantsLegacy | src/extension.ts:32-52 | The `while (exec)` loop yields the names of the matches that cover the whole content (see `Loader.Covers`), in order, and `[]` after a failed read. |
| Loader.DefineMatches | src/extension.ts:41-43 | Every match found by the global search captures a non-empty `[A-Za-z0-9_]` run. |
| Loader.AllDefinesCaptures | src/extension.ts:41-43 | The names collected are the captured names of the matches found, in order. |
| Loader.DefineMatchesCover | src/extension.ts:41-43 | The matches found cover the content: each is the pattern at its start, no match starts between the end of the previous one and its start, and none after the last. |
| Loader.CoversFound | src/extension.ts:41-43 | Conversely, any list of matches that covers the content is the list found: the cover is unique. |
| Loader.LeftmostUnique | src/extension.ts:41-43 | The leftmost match from a position is the one `exec` finds. |
| Loader.CoversMatch | src/extension.ts:41-43 | Match `k` of a cover is the pattern at its start, and no match starts between the end of match `k - 1` and it. |
| Loader.CoversLast | src/extension.ts:41-43 | No match starts after the end of the last match of a cover. |
| Loader.CoversOrdered | src/extension.ts:41-43 | Consecutive matches of a cover do not overlap: each ends after it starts and before the next starts. |
| Loader.LeftmostSpan | src/extension.ts:41-43 | A leftmost match lies after where the search began, and is not empty. |
| Loader.LegacyNamesOfCover | src/extension.ts:32-52 | The Legacy names are the captured names of any cover of the whole content. |
| Loader.CallAcrossLines | src/extension.ts:38 | The blanks of the pattern include line feeds: a call whose parenthesis opens on the next line is matched. |
| Loader.LegacyFindsCallAcrossLines | src/extension.ts:32-52 | Legacy reports the name of such a call at the start of the content. |
| Loader.CurrentMissesCallAcrossLines | out/extension.js:85-97 | Current, matching line by line, finds nothing in `define_ex`, a line feed and `('A')`. |
| Loader.SplitLinesFirst | out/extension.js:85 | Splitting takes the line before the first line feed off the front, without a trailing carriage return. |
| Loader.CrlfToLfFirst | out/extension.js:85 | Converting up to the first line feed only drops a carriage return just before it. |
| Loader.NoDefineInShort | out/extension.js:90 | Text shorter than the shortest match holds none. |
| Loader.SplitLinesAt | out/extension.js:85 | Text with one line feed splits into the line before it, without a trailing carriage return, and the rest. |
| Loader.AllDefinesStep | src/extension.ts:41-43 | One `exec` moves the name it finds from the pending names to the collected ones, and resumes after the closing quote. |
| Loader.SingleLineAgreement | src/extension.ts:38 | On a single line, Current keeps the first name Legacy finds, and gives it line 1. |
| Scanner.PrecededByAccess | out/extension.js:153-166 | The first rule: the two characters of the document before the word end with `$`, or are `::` or `->`. |
| Scanner.HasIgnoredPrefix | out/extension.js:171 | The second rule: the word starts with `TXT_CHAR` or `TEXT`. |
| Scanner.IgnoredPrefixIsStartsWith | out/extension.js:171 | The ignored-prefix test is `startsWith("TXT_CHAR") \|\| startsWith("TEXT")`. |
| Scanner.Skipped | out/extension.js:153-177 | A candidate is dropped when any of the three rules applies: the access prefix, the ignored prefix, or the exclusion list. |
| Scanner.IsExcluded | out/extension.js:153-177 | A candidate is dropped exactly when it follows `$`, `::` or `->` in the original text, starts with `TXT_CHAR` or `TEXT`, or is excluded. |
| Scanner.MaskedRegion | out/extension.js:143 | The masked region keeps the region's length, and each character is the document's character or a blank. |
| Scanner.TokenHit | out/extension.js:150-188 | What one match adds: nothing when a rule drops it, otherwise its document range `[start, start + length)`, flagged defined exactly when its name is defined. |
| Scanner.HitsFrom | out/extension.js:148-189 | The inner loop: the hit of each successive `exec` match from `index`, in order. |
| Scanner.RegionHits | out/extension.js:140-143 | What a region adds: the hits of its masked text, placed at the region's start. |
| Scanner.RegionsHits | out/extension.js:139-190 | The outer loop: the hits of each region in turn. |
| Scanner.Scan | out/extension.js:126-190 | The pass: the hits of the regions found in the whole document, in discovery order. |
| Scanner.DefinedOf | out/extension.js:183-184 | `definedRanges`: the ranges of the hits flagged defined, in order. |
| Scanner.UndefinedOf | out/extension.js:186-187 | `undefinedRanges`: the ranges of the other hits, in order. |
| Scanner.RegionsFromFit | out/extension.js:139-141 | The regions found lie within the document. |
| Scanner.FiltersOfHit | out/extension.js:183-188 | A single hit lands in the defined list when flagged defined, and in the undefined list otherwise. |
| Scanner.FiltersOfTokenHit | out/extension.js:167-188 | A match adds its range to the side its definedness selects, unless a rule drops it. |
| Scanner.ClassifyFromStep | out/extension.js:148-189 | One iteration of the token loop adds the filtered hit of the match `exec` found. |
| Scanner.ClassifyFromFilters | out/extension.js:148-189 | The token loop run from `index` appends exactly the defined and the undefined ranges of the hits from `index`. |
| Scanner.ClassifyTokens | out/extension.js:148-189 | The inner loop yields exactly the defined ranges and the undefined ranges of the region's hits, in discovery order. |
| Scanner.RegionStep | out/extension.js:139-143 | The hits of the remaining regions are those of the next region, followed by those after it. |
| Scanner.Classify | out/extension.js:139-190 | The nested loops yield exactly the defined and the undefined filters of `Scan`. |
| Scanner.ApplyDecorations | out/extension.js:126-190 | Current: the two lists are the filters of `Scan`, where "defined" means a key of `constantMap` and the excluded names are the given ones. |
| Scanner.ApplyDecorationsLegacy | src/extension.ts:78-152 | Legacy: the two lists are the filters of `Scan`, where "defined" means listed in `constants` and the excluded names are `phpBuiltInConstants`. |
| Scanner.LegacyBuiltInsNeverReported | src/extension.ts:8-15 | No range in either Legacy list covers a name of `phpBuiltInConstants`. |
| Scanner.HitsFromStep | out/extension.js:148 | The hits from `index` are the hit of the next match, followed by the hits after it. |
| Scanner.TokenHitFound | out/extension.js:148-188 | The hit of a kept match is found at that match. |
| Scanner.HitsFromSound | out/extension.js:148-188 | Every hit found from `index` starts at or after it. It is a whole constant-shaped word of the masked code that no rule drops, and it is flagged defined exactly when its name is defined. |
| Scanner.HitsFromOrdered | out/extension.js:148 | The hits of a region come in order without overlapping. |
| Scanner.HitsComplete | out/extension.js:148-188 | Every match at or after `index` that no rule drops yields its hit. |
| Scanner.HitAtMatch | out/extension.js:148-188 | The match `exec` finds next yields its hit, unless a rule drops it. |
| Scanner.FoundInSpells | out/extension.js:150-151 | A hit lies inside its region. Its text in the document is the masked word itself, unchanged by masking, and a constant name. |
| Scanner.MaskedWord | out/extension.js:143-149 | A match in masked text equals the document text at the same offsets. |
| Scanner.RegionsHitsSound | out/extension.js:139-151 | Every hit of a list of regions is reported in one of those regions. |
| Scanner.ScanSound | out/extension.js:139-151 | Every hit of the document is a kept match of the masked text of one of its regions. |
| Scanner.RegionHitsWithin | out/extension.js:150-151 | The hits of a region lie inside it, in order. |
| Scanner.RegionsHitsOrdered | out/extension.js:139-151 | The hits of ordered regions are ordered. |
| Scanner.ScanOrdered | out/extension.js:139-190 | All hits of the document come in document order, without overlapping. |
| Scanner.FilterMembers | out/extension.js:183-188 | A range is in the defined list exactly when a defined hit covers it, and in the undefined list exactly when an undefined hit does. |
| Scanner.FilterSizes | out/extension.js:183-188 | Every hit lands in exactly one of the two lists. |
| Scanner.OrderedDisjoint | out/extension.js:183-188 | Ordered hits over non-empty ranges never put one range in both lists. |
| Scanner.HitsFromSpell | out/extension.js:149-177 | Every hit of a region spells, in the document, a constant that no rule drops, flagged by definedness. |
| Scanner.RegionsHitsSpell | out/extension.js:139-177 | Every hit of a list of regions spells such a constant. |
| Scanner.ScanSpells | out/extension.js:139-188 | Every reported range covers a constant name in the document. No rule drops it, and it is flagged defined exactly when the name is defined. |
| Scanner.ScanPartition | out/extension.js:182-188 | The two lists together are exactly as long as the hits, and no range is both defined and undefined. |
| Scanner.RegionsHitsContain | out/extension.js:139-143 | The hits of a region are among the hits of any list of regions that holds it. |
| Scanner.RegionComplete | out/extension.js:148-188 | Every kept match in the masked text of a region is among its hits. |
| Scanner.ScanComplete | out/extension.js:126-190 | Every kept, constant-shaped whole word in the masked text of a region is reported, in the list its definedness selects. |

## Left out

- Editor calls are not modelled, and offsets stand for positions. This covers:
  - the `visibleTextEditors` lookup and the early return when no editor shows the document;
  - `document.positionAt` and `vscode.Range`: ranges are pairs of offsets;
  - `setDecorations`, `createTextEditorDecorationType`, and the hover's `MarkdownString`, `Uri` and `Hover` objects.
- `getWordRangeAtPosition` is editor work, so the hover word is a parameter of `Lookup` and `HoverAfterUpdate`.
- File reading is not modelled: the file content is a parameter. `fs.readFileSync` failing is `None`, after which both loaders return `[]`. The `showErrorMessage` call is left out.
- `activate` and `deactivate` are left out: listener registration, the file watcher, the configuration read that supplies `excludedConstants`, and the unused diagnostic collection. They are event plumbing.
- The module glue emitted by TypeScript is left out.
- Only ASCII is handled, with no Unicode:
  - `\s` is the ASCII whitespace set;
  - only `\n` and `\r` end `.*` (JavaScript also stops at U+2028 and U+2029);
  - a Dafny `char` is a Unicode scalar value while JavaScript indexes UTF-16 code units, so offsets agree only for text in the Basic Multilingual Plane.
- Scanner.ApplyDecorations: `excludedConstants` is used only through `includes`, so it is passed as the set of its elements. Likewise, Legacy's `constants` and `phpBuiltInConstants`.
- Scanner.ClassifyTokens: the inner loop is a method of its own, called by the outer loop `Classify`. The source writes the two loops nested in one function body.
- The hover's `constantFilePath` is stored, but only used to render the hover text, which is not modelled.
