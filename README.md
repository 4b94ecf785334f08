# Arxiv_Scanner: section splitting, section selection and file naming

This project models the text-processing core of Arxiv_Scanner, a tool that
downloads arXiv papers, cuts their extracted text into standard sections
(Abstract, Introduction, Methods, …) and hands those sections to a language
model for notes. The model covers three parts.

- `PDF_Processor`:
  - the construction of the translation and chapter tables, and their normalised form;
  - `normalize_title` and `extract_section_number`;
  - `translate`, which detects a Chinese paper, truncates its index and tail sections, and rewrites Chinese headers into English ones;
  - `filter_iclr_pdf`, which finds the first match of every title of every chapter (one candidate per matching title), sorts the matches by start, keeps the first per chapter and assigns text ranges;
  - `process_pdf` once the text is extracted.
- `Reviewer`:
  - `identify_and_extract_sections`, the synonym lookup over the case-folded keys of one file's sections;
  - the length rule of `process_single_section` and `compress_sections`, with the per-section limits.
- `ArxivDownloader`: `sanitize_filename` and the name `"{id} - {title}.pdf"` under which a search result is saved.

Modules:

- `Text`: the Python string operations the core uses, defined once:
  - `str.lower` on ASCII letters and `str.strip`;
  - `str.rindex` and `str.replace`;
  - `\b`-delimited case-insensitive `re.sub`.
- `Tables`: ordered dictionaries modelled as sequences of entries, and the default tables.
- `Titles`: title normalisation and section numbers.
- `Rewriting`: the specification of `translate`.
- `Locating`: the specification of `filter_iclr_pdf`: candidates, sorting, de-duplication and ranges.
- `PdfProcessor`:
  - the processor state;
  - the loops of `translate` and `filter_iclr_pdf` as methods proved equal to those specifications;
  - `process_pdf`.
- `Reviewer`: section extraction and length control.
- `ArxivApi`: file names.

## Model

| member | source | states |
|---|---|---|
| Text.Strip | Arxiv_Scanner/PDF_Processor.py:116 | the result is a slice of the input with only whitespace removed on each side, and it neither starts nor ends in whitespace |
| Text.StripKeeps | Arxiv_Scanner/PDF_Processor.py:116 | every character of the stripped string is a character of the input, so a property all input characters have holds of the result |
| Text.StripIdempotent | Arxiv_Scanner/PDF_Processor.py:249 | stripping a stripped string changes nothing |
| Text.StripOfTrimmed | Arxiv_Scanner/Arxiv_API.py:45 | a string with non-space ends is its own strip |
| Text.RIndex | Arxiv_Scanner/PDF_Processor.py:155 | `rindex(v, h)` returns a position at or after `h` where `v` occurs, with no occurrence further right |
| Text.SubWordFromFirstMatch | Arxiv_Scanner/PDF_Processor.py:166-167 | `re.sub` keeps the text before the first whole-word case-insensitive match and puts the replacement in place of the match |
| Text.SubWordFromNoMatch | Arxiv_Scanner/PDF_Processor.py:166-167 | with no whole-word match from a position on, the substitution leaves the rest untouched |
| Text.ContainsIgnoringCase | Arxiv_Scanner/PDF_Processor.py:144-146 | an exact substring occurrence (`v in content`) is also a case-insensitive occurrence; no word boundary is involved |
| Text.SubWordAbsent | Arxiv_Scanner/PDF_Processor.py:166-167 | text with no case-insensitive occurrence of the header is left unchanged by `re.sub` |
| Text.SubWordFrom | Arxiv_Scanner/PDF_Processor.py:166-167 | the `\b`-delimited case-insensitive `re.sub` from a position, characterised by SubWordFromFirstMatch and SubWordFromNoMatch |
| Text.SubWord | Arxiv_Scanner/PDF_Processor.py:166-167 | `re.sub` on the whole text, characterised by SubWordAbsent |
| Text.ReplaceFromAbsent | Arxiv_Scanner/PDF_Processor.py:274-275 | `str.replace` from a position with no later occurrence keeps the rest |
| Text.ReplaceAbsent | Arxiv_Scanner/PDF_Processor.py:274-275 | `str.replace` of an absent pattern returns the text unchanged |
| Text.ReplaceFromNotLonger | Arxiv_Scanner/PDF_Processor.py:274-275 | replacing a pattern by one no longer does not lengthen the text |
| Text.ReplaceFromFirstOccurrence | Arxiv_Scanner/PDF_Processor.py:274-275 | `str.replace` keeps the text before the first occurrence and puts the replacement in place of that occurrence |
| Text.ReplaceOnly | Arxiv_Scanner/PDF_Processor.py:274-275 | a text with a single occurrence has exactly that occurrence replaced and the rest kept |
| Text.ReplaceFrom | Arxiv_Scanner/PDF_Processor.py:274-275 | `s[i:].replace(old, new)`, characterised by ReplaceFromFirstOccurrence, ReplaceFromAbsent and ReplaceFromNotLonger |
| Text.Replace | Arxiv_Scanner/PDF_Processor.py:274-275 | `str.replace` on the whole text, characterised by ReplaceOnly and ReplaceAbsent |
| Tables.Lookup | Arxiv_Scanner/PDF_Processor.py:158 | `translations.get(section, [])`: the values of an entry with that key, or `[]` when no entry has it |
| Titles.KeepTitleChars | Arxiv_Scanner/PDF_Processor.py:116 | the character class `[^a-zA-Z0-9\s]` is deleted: at most as long, and only letters, digits and whitespace remain |
| Titles.NormalizeTitle | Arxiv_Scanner/PDF_Processor.py:116 | the normalised title is no longer than the input, holds only lower-case letters, digits and whitespace (the ASCII fold of `LowerStr`), and has no whitespace at either end |
| Titles.NormalizeTitleIdempotent | Arxiv_Scanner/PDF_Processor.py:116 | normalising a normalised title changes nothing |
| Titles.NormalizeWrapUp | Arxiv_Scanner/PDF_Processor.py:116 | the hyphen of a compound title is dropped: `"wrap-up"` normalises to `"wrapup"` |
| Titles.KeepDropsPunctuation | Arxiv_Scanner/PDF_Processor.py:116 | a character outside the class between two runs of kept characters is deleted and the runs are joined |
| Titles.KeepTitleCharsOfClean | Arxiv_Scanner/PDF_Processor.py:116 | a title made only of letters, digits and whitespace is kept whole |
| Titles.KeepTitleCharsConcat | Arxiv_Scanner/PDF_Processor.py:116 | the deletion works character by character, so it distributes over concatenation |
| Titles.ExtractSectionNumber | Arxiv_Scanner/PDF_Processor.py:129-130 | the result is a prefix of the title; a non-empty result is a dotted number followed by a word boundary, and no longer prefix is |
| Titles.ExtractSectionNumberShape | Arxiv_Scanner/PDF_Processor.py:129-130 | a title not starting with a digit yields `""`; a non-empty result starts and ends with a digit and holds only digits and dots |
| Titles.ExtractSectionNumberExample | Arxiv_Scanner/PDF_Processor.py:129-130 | `"3.2 Methods"` yields `"3.2"`; `"12abc"` yields `""`, because no word boundary follows any digit prefix |
| Titles.NormalizeChapters | Arxiv_Scanner/PDF_Processor.py:98-100 | the same keys in the same order, each with its titles normalised one by one, in order |
| Titles.SectionTitles | Arxiv_Scanner/PDF_Processor.py:103 | a title is in the flattened list exactly when it is a normalised title of some chapter |
| Titles.SectionTitlesSingle | Arxiv_Scanner/PDF_Processor.py:103 | one chapter flattens to its titles, in order |
| Titles.SectionTitlesConcat | Arxiv_Scanner/PDF_Processor.py:103 | the flattening of two tables joined is the two flattenings one after the other, so the table order and every duplicate are kept |
| Rewriting.CountPresent | Arxiv_Scanner/PDF_Processor.py:144-146 | the count for one section is at most its number of variants |
| Rewriting.CountPresentIsDistinct | Arxiv_Scanner/PDF_Processor.py:144-146 | the count is the number of list positions whose variant occurs in the content, not the number of occurrences |
| Rewriting.CountTableAtMostTotal | Arxiv_Scanner/PDF_Processor.py:142-146 | the count over the table is at most the total number of variants |
| Rewriting.CountTableOnlyPresence | Arxiv_Scanner/PDF_Processor.py:142-146 | two contents holding the same variants give the same count |
| Rewriting.CountPresentOnlyPresence | Arxiv_Scanner/PDF_Processor.py:144-146 | the same for one list of variants |
| Rewriting.CountTableNone | Arxiv_Scanner/PDF_Processor.py:142-146 | content holding no variant counts zero |
| Rewriting.CountPresentNone | Arxiv_Scanner/PDF_Processor.py:144-146 | the same for one list of variants |
| Rewriting.CountTable | Arxiv_Scanner/PDF_Processor.py:142-146 | the number of (section, variant) pairs whose variant occurs in the content, characterised by the CountTable and CountPresent lemmas |
| Rewriting.CutAtMarker | Arxiv_Scanner/PDF_Processor.py:154-155 | a marker occurring in the second half cuts the content at its last occurrence, which lies in that half; otherwise the content is kept; the result is always a prefix |
| Rewriting.CutEach | Arxiv_Scanner/PDF_Processor.py:153-155 | cutting at each index marker in turn yields a prefix of the content |
| Rewriting.CutFirstFrom | Arxiv_Scanner/PDF_Processor.py:158-161 | the result is a prefix; when some variant occurs in the second half, it is the cut at the first such variant in list order; with no such variant it is the content |
| Rewriting.CutTails | Arxiv_Scanner/PDF_Processor.py:157-161 | cutting at the acknowledgement, appendix and reference headers yields a prefix |
| Rewriting.CutTailsStep | Arxiv_Scanner/PDF_Processor.py:157-161 | each further tail section cuts the text left so far at the first of its variants found in that text's second half, and keeps the text when none is found |
| Rewriting.TruncateIsPrefix | Arxiv_Scanner/PDF_Processor.py:153-161 | the whole truncation keeps a prefix of the content |
| Rewriting.Truncate | Arxiv_Scanner/PDF_Processor.py:153-161 | the index-marker cuts, then the tail-section cuts; TruncateIsPrefix, CutAtMarker, CutFirstFrom and CutTailsStep characterise it |
| Rewriting.RewriteAllUntouched | Arxiv_Scanner/PDF_Processor.py:164-167 | content without any Chinese variant is not rewritten |
| Rewriting.RewriteVariantsUntouched | Arxiv_Scanner/PDF_Processor.py:165-167 | the same for one key's variants |
| Rewriting.RewriteFirstVariant | Arxiv_Scanner/PDF_Processor.py:165-167 | each further variant of an entry is rewritten, in the text the earlier variants left, at its first whole-word match: the text before it is kept and `"\n" + key + "\n"` takes its place |
| Rewriting.RewriteAll | Arxiv_Scanner/PDF_Processor.py:164-167 | every variant of every entry rewritten in table order; RewriteAllUntouched and RewriteFirstVariant characterise it |
| Rewriting.TranslateSpec | Arxiv_Scanner/PDF_Processor.py:132-168 | `translate`, characterised by TranslateGate and TranslateEnglishText |
| Rewriting.TranslateGate | Arxiv_Scanner/PDF_Processor.py:142-148 | fewer than three variants present return the content unchanged; otherwise the result is the header rewriting of a prefix of the content |
| Rewriting.TranslateEnglishText | Arxiv_Scanner/PDF_Processor.py:142-148 | content holding no Chinese variant is returned unchanged |
| Locating.NumberedFromExists | Arxiv_Scanner/PDF_Processor.py:217 | the scan over ends finds a numbering prefix followed by the whole-word title exactly when one exists from that end on |
| Locating.HeaderMatchesAtSpec | Arxiv_Scanner/PDF_Processor.py:217 | the position-by-position test agrees with the pattern `(?:(?:\d+\.)*\d+\s+)?\b title \b` |
| Locating.FindHeaderFrom | Arxiv_Scanner/PDF_Processor.py:217-218 | a match found from a position lies between that position and the end of the text; FindHeaderFromLeftmost states that it is the leftmost one |
| Locating.FirstHeaderMatch | Arxiv_Scanner/PDF_Processor.py:217-218 | `match.start()` of the first `finditer` match, characterised by FindHeaderFromLeftmost |
| Locating.FindHeaderFromLeftmost | Arxiv_Scanner/PDF_Processor.py:217-218 | finds the leftmost position where an optional section number and then the whole-word, case-insensitive title match, and `None` exactly when there is none |
| Locating.TitleCandidatesBounds | Arxiv_Scanner/PDF_Processor.py:215-224 | every candidate of one chapter carries that chapter's name and starts inside the content |
| Locating.CandidatesUpToBounds | Arxiv_Scanner/PDF_Processor.py:214-224 | every candidate is named after a chapter of the table and starts inside the content |
| Locating.TitleCandidatesExact | Arxiv_Scanner/PDF_Processor.py:215-224 | a chapter contributes a candidate at `p` exactly when one of its titles first matches at `p` |
| Locating.CandidatesUpToExact | Arxiv_Scanner/PDF_Processor.py:214-224 | the same over a prefix of the table |
| Locating.CandidateSound | Arxiv_Scanner/PDF_Processor.py:214-224 | every candidate is the first match of some title of its chapter |
| Locating.CandidateComplete | Arxiv_Scanner/PDF_Processor.py:214-224 | the first match of every title yields a candidate |
| Locating.CandidatesExact | Arxiv_Scanner/PDF_Processor.py:214-224 | a candidate exists exactly when some title of its chapter first matches at its start |
| Locating.CandidatesEmpty | Arxiv_Scanner/PDF_Processor.py:214-228 | there are no candidates exactly when no title of any chapter matches |
| Locating.InsertByStart | Arxiv_Scanner/PDF_Processor.py:231 | inserting into a sorted list keeps it sorted by start; the result holds the old elements and the new one and nothing else |
| Locating.InsertByStartPerm | Arxiv_Scanner/PDF_Processor.py:231 | insertion adds exactly one copy of the new element |
| Locating.SortByStart | Arxiv_Scanner/PDF_Processor.py:231 | `sorted(key=start)` is ordered by start and holds exactly the elements of its input |
| Locating.SortByStartPerm | Arxiv_Scanner/PDF_Processor.py:231 | the sort is a permutation of its input, multiplicities included |
| Locating.WithStartConcat | Arxiv_Scanner/PDF_Processor.py:231 | selecting the elements with a given start distributes over concatenation |
| Locating.WithStartAbove | Arxiv_Scanner/PDF_Processor.py:231 | a list whose starts all exceed `p` has no element starting at `p` |
| Locating.InsertByStartStable | Arxiv_Scanner/PDF_Processor.py:231 | insertion places the new element after the elements with an equal start |
| Locating.SortByStartStable | Arxiv_Scanner/PDF_Processor.py:231 | the sort is stable: elements with equal start keep their input order |
| Locating.KeyIndex | Arxiv_Scanner/PDF_Processor.py:214 | the position of the first chapter with a given name, or the table length |
| Locating.KeyIndexOf | Arxiv_Scanner/PDF_Processor.py:214 | a key with unique entries is found at its own position |
| Locating.CandidatesKeyBound | Arxiv_Scanner/PDF_Processor.py:214-224 | the candidates found after visiting some chapters come only from those chapters |
| Locating.CandidatesInTableOrder | Arxiv_Scanner/PDF_Processor.py:214-224 | candidates appear in the order of their chapters in the table |
| Locating.InsertByStartLex | Arxiv_Scanner/PDF_Processor.py:231 | insertion keeps the order by start, then by table position |
| Locating.SortByStartLex | Arxiv_Scanner/PDF_Processor.py:231 | after the stable sort, ties on start are in table order |
| Locating.HasSectionSnoc | Arxiv_Scanner/PDF_Processor.py:236-239 | a list extended by one holds a section exactly when the list or the new element does |
| Locating.HasSectionPermuted | Arxiv_Scanner/PDF_Processor.py:231 | two lists with the same elements hold the same sections, so sorting does not change which sections occur |
| Locating.Dedupe | Arxiv_Scanner/PDF_Processor.py:234-239 | no section occurs twice, a section occurs exactly when it occurred in the input, and every kept element comes from the input |
| Locating.DedupeKeepsLeast | Arxiv_Scanner/PDF_Processor.py:231-239 | for sorted input, the output stays sorted and each kept element has the least start of its section |
| Locating.DedupeLex | Arxiv_Scanner/PDF_Processor.py:231-239 | de-duplication keeps the order by start, then by table position |
| Locating.UniqueCandidates | Arxiv_Scanner/PDF_Processor.py:231-239 | the kept candidates are sorted by start and start inside the content |
| Locating.UniqueCandidatesSections | Arxiv_Scanner/PDF_Processor.py:214-239 | a section is kept exactly when one of its titles matches |
| Locating.UniqueCandidatesTies | Arxiv_Scanner/PDF_Processor.py:231-239 | kept sections with the same start are in table order |
| Locating.LocateEmpty | Arxiv_Scanner/PDF_Processor.py:226-228 | the result is empty exactly when no title of any chapter matches |
| Locating.LocateSections | Arxiv_Scanner/PDF_Processor.py:214-254 | sections are unique, sorted by start, and present exactly when some title of theirs matches |
| Locating.RangesKeep | Arxiv_Scanner/PDF_Processor.py:242-252 | each range keeps the section and start of its candidate |
| Locating.LocateStartIsLeast | Arxiv_Scanner/PDF_Processor.py:214-254 | each section starts where one of its titles first matches, and at or before the first match of every title of that section |
| Locating.LocateTies | Arxiv_Scanner/PDF_Processor.py:214-254 | sections that start at the same position follow the chapter table order |
| Locating.RangesTile | Arxiv_Scanner/PDF_Processor.py:242-252 | each range ends where the next starts and the last ends at the end of the content; the text is the stripped slice, and the length is that text's length, at most the range's width |
| Locating.LocateTiles | Arxiv_Scanner/PDF_Processor.py:242-252 | the same for the located sections |
| Locating.Ranges | Arxiv_Scanner/PDF_Processor.py:242-252 | the spans of the kept candidates, characterised by RangesKeep and RangesTile |
| Locating.Locate | Arxiv_Scanner/PDF_Processor.py:200-254 | `filter_iclr_pdf` on the translated text, characterised by LocateEmpty, LocateSections, LocateStartIsLeast, LocateTies and LocateTiles |
| PdfProcessor.Init | Arxiv_Scanner/PDF_Processor.py:16-103 | missing tables default to the built-in ones; the normalised chapters have the same keys with normalised titles; the flat title list holds exactly the normalised titles |
| PdfProcessor.CountVariants | Arxiv_Scanner/PDF_Processor.py:142-146 | the counting loop computes the variant count of the specification |
| PdfProcessor.CutIndexMarkers | Arxiv_Scanner/PDF_Processor.py:153-155 | the marker loop computes the index-marker cut |
| PdfProcessor.CutFirstVariant | Arxiv_Scanner/PDF_Processor.py:158-161 | the loop with `break` cuts at the first variant found |
| PdfProcessor.CutTailSections | Arxiv_Scanner/PDF_Processor.py:157-161 | the tail-section loop computes the tail cut |
| PdfProcessor.RewriteHeaders | Arxiv_Scanner/PDF_Processor.py:164-167 | the rewriting loop computes the header rewrite |
| PdfProcessor.Translate | Arxiv_Scanner/PDF_Processor.py:132-168 | `translate` returns exactly the gated truncate-and-rewrite of the specification |
| PdfProcessor.TitleCandidatesStep | Arxiv_Scanner/PDF_Processor.py:216-223 | one more title adds the candidate of its first match when it matches, and nothing otherwise |
| PdfProcessor.CollectCandidates | Arxiv_Scanner/PDF_Processor.py:214-224 | the nested loops with `break` collect exactly the candidates |
| PdfProcessor.KeepFirstOfEachSection | Arxiv_Scanner/PDF_Processor.py:234-239 | the loop with a `seen` set keeps exactly the first element of each section |
| PdfProcessor.AssignRanges | Arxiv_Scanner/PDF_Processor.py:242-252 | the range loop gives each section its end, stripped text and length |
| PdfProcessor.FilterIclrPdf | Arxiv_Scanner/PDF_Processor.py:200-254 | `filter_iclr_pdf` returns the sections located in the translated content |
| PdfProcessor.FixSpacedHeadings | Arxiv_Scanner/PDF_Processor.py:274-275 | joining the split headings never lengthens the text; FixSpacedHeadingsJoins states what is joined |
| PdfProcessor.FixSpacedHeadingsUntouched | Arxiv_Scanner/PDF_Processor.py:274-275 | text holding neither split heading is kept as it is |
| PdfProcessor.FixSpacedHeadingsJoins | Arxiv_Scanner/PDF_Processor.py:274-275 | a text with one `I NTRODUCTION` and one `C ONCLUSION` gets both replaced by `INTRODUCTION` and `CONCLUSION` in place, and the rest kept |
| PdfProcessor.FixSpacedHeadingsExample | Arxiv_Scanner/PDF_Processor.py:274-275 | `"I NTRODUCTION"` becomes `"INTRODUCTION"` and `"C ONCLUSION"` becomes `"CONCLUSION"` |
| PdfProcessor.SectionDict | Arxiv_Scanner/PDF_Processor.py:282-290 | the dictionary the loop builds, a later span of a section overwriting an earlier one; SectionDictKeys and SectionDictValues characterise it |
| PdfProcessor.SectionDictKeys | Arxiv_Scanner/PDF_Processor.py:282-290 | the dictionary's keys are exactly the sections of the spans |
| PdfProcessor.SectionDictValues | Arxiv_Scanner/PDF_Processor.py:282-290 | with unique sections, each section's value holds the text, start, end and length of its span |
| PdfProcessor.ProcessPdf | Arxiv_Scanner/PDF_Processor.py:267-292 | `None` exactly when the extracted text is empty or no section is located; otherwise the dictionary of the located sections |
| PdfProcessor.ProcessPdfNothing | Arxiv_Scanner/PDF_Processor.py:267-279 | for non-empty text, `None` exactly when no chapter title matches the translated text |
| PdfProcessor.ProcessPdfFields | Arxiv_Scanner/PDF_Processor.py:277-292 | a chapter is a key exactly when one of its titles matches the translated text, and each located section's text, start, end and length are stored under its name |
| Reviewer.LowerKeys | Arxiv_Scanner/Reviewer.py:111 | a lower-case key is present exactly when some item's key lowers to it under the ASCII fold of `str.lower` |
| Reviewer.LowerKeysLastWins | Arxiv_Scanner/Reviewer.py:111 | when keys collide after lowering, the value of the last such item wins |
| Reviewer.PickFromSpec | Arxiv_Scanner/Reviewer.py:115-126 | the first synonym present gives its text; a synonym that is absent but among the lowered translations raises `KeyError`; `Missing` exactly when the loop ends without either |
| Reviewer.PickFrom | Arxiv_Scanner/Reviewer.py:115-126 | the synonym loop of one chapter, characterised by PickFromSpec |
| Reviewer.PickSynonym | Arxiv_Scanner/Reviewer.py:115-126 | the synonym loop computes that pick |
| Reviewer.ExtractUpToKeys | Arxiv_Scanner/Reviewer.py:113-130 | every extracted key is a chapter key |
| Reviewer.ExtractUpTo | Arxiv_Scanner/Reviewer.py:113-130 | the chapter loop over the first chapters, characterised by ExtractUpToKeys, ExtractUpToErrSticks, ExtractUpToChapters and ExtractUpToNeverRaises |
| Reviewer.ExtractSections | Arxiv_Scanner/Reviewer.py:99-133 | `identify_and_extract_sections`, characterised by ExtractSectionsChapters |
| Reviewer.ExtractUpToErrSticks | Arxiv_Scanner/Reviewer.py:123-124 | a `KeyError` ends extraction: later chapters do not change it |
| Reviewer.ExtractChapter | Arxiv_Scanner/Reviewer.py:113-126 | one pass of the chapter loop extends the extraction by that chapter's pick, or ends it with the `KeyError` |
| Reviewer.ExtractChapters | Arxiv_Scanner/Reviewer.py:113-130 | the chapter loop over the lowered keys returns the specified extraction, `KeyError` included |
| Reviewer.IdentifyAndExtractSections | Arxiv_Scanner/Reviewer.py:99-133 | the method returns the specified extraction of the file, `KeyError` included |
| Reviewer.ExtractUpToChapters | Arxiv_Scanner/Reviewer.py:113-130 | without a `KeyError`, no chapter's pick raised, a chapter is extracted exactly when its pick found a synonym, and its value is that pick's text |
| Reviewer.ExtractSectionsChapters | Arxiv_Scanner/Reviewer.py:113-130 | over the whole table: keys are chapters, a chapter is present exactly when one of its synonyms is a lowered key, and its text is that of the first one |
| Reviewer.ExtractUpToNeverRaises | Arxiv_Scanner/Reviewer.py:123-124 | when no synonym is among its chapter's lowered translations, no `KeyError` is raised |
| Reviewer.DefaultSynonymsAscii | Arxiv_Scanner/Reviewer.py:24-65 | every default synonym is non-empty and starts with an ASCII character |
| Reviewer.DefaultVariantsWide | Arxiv_Scanner/Reviewer.py:9-22 | every default translation is non-empty and starts with a non-ASCII character |
| Reviewer.DefaultsNeverRaise | Arxiv_Scanner/Reviewer.py:113-126 | with the default tables the translation branch never fires, so extraction never raises |
| Reviewer.TranslatedSynonymRaises | Arxiv_Scanner/Reviewer.py:123-124 | a chapter whose synonym `摘要` is also its translation raises `KeyError("摘要")` on a file without that key |
| Reviewer.LengthRule | Arxiv_Scanner/Reviewer.py:184-197 | the limit is the section's configured one, or 1024 when it has none; text is kept whatever the compressor exactly when its length is within the limit; longer text is replaced by the compressor's output for that limit |
| Reviewer.ProcessSingleSection | Arxiv_Scanner/Reviewer.py:184-197 | `process_single_section`, characterised by LengthRule and ReviewerLimits |
| Reviewer.ReviewerLimits | Arxiv_Scanner/Reviewer.py:66-79 | the configured limits: 512 for Abstract, 256 for Acknowledgments, 2048 for References, and 1024 for an unlisted section |
| Reviewer.CompressSections | Arxiv_Scanner/Reviewer.py:173-206 | the result has the same sections, each processed by the length rule, whatever the completion order |
| ArxivApi.DeleteIllegal | Arxiv_Scanner/Arxiv_API.py:44 | the result holds none of `\ / * ? : " < > \|` and is no longer than the input; DeleteIllegalAround states that the illegal characters are deleted and the others kept in order |
| ArxivApi.DeleteIllegalKeepsClean | Arxiv_Scanner/Arxiv_API.py:44 | a name with no illegal character is kept whole |
| ArxivApi.DeleteIllegalConcat | Arxiv_Scanner/Arxiv_API.py:44 | the deletion distributes over concatenation |
| ArxivApi.DeleteIllegalDrops | Arxiv_Scanner/Arxiv_API.py:44 | an illegal character is deleted |
| ArxivApi.DeleteIllegalAround | Arxiv_Scanner/Arxiv_API.py:44 | an illegal character between two parts is deleted and the parts joined; any other character stays in its place between the deletions of its two sides |
| ArxivApi.SanitizeFilename | Arxiv_Scanner/Arxiv_API.py:34-46 | the sanitized name holds no illegal character, has no whitespace at either end, and is no longer than the input |
| ArxivApi.SanitizeIdempotent | Arxiv_Scanner/Arxiv_API.py:34-46 | sanitizing twice equals sanitizing once |
| ArxivApi.SanitizeKeepsCleanNames | Arxiv_Scanner/Arxiv_API.py:34-46 | a clean trimmed name is returned unchanged |
| ArxivApi.ArxivId | Arxiv_Scanner/Arxiv_API.py:111 | the id is the suffix after the last `/`, or the whole entry id when it has none |
| ArxivApi.ArxivIdAfterSlash | Arxiv_Scanner/Arxiv_API.py:111 | the id of `prefix/id` is `id` for any slash-free `id` |
| ArxivApi.ArxivIdExample | Arxiv_Scanner/Arxiv_API.py:111 | the id of an abstract URL is its last path segment |
| ArxivApi.DownloadFileNameNoSlash | Arxiv_Scanner/Arxiv_API.py:110-114 | the saved file name is one path component: it holds no `/` |
| ArxivApi.DownloadFileNameEnds | Arxiv_Scanner/Arxiv_API.py:110-113 | the file name starts with the arXiv id and ends in `.pdf` |
| ArxivApi.DownloadFileName | Arxiv_Scanner/Arxiv_API.py:110-113 | `f"{arxiv_id} - {title}.pdf"`, characterised by DownloadFileNameNoSlash and DownloadFileNameEnds |

## Left out

- Reading PDFs: `extract_text_from_pdf` is a library call. `ProcessPdf` takes the extracted text as a parameter.
- `process_directory_to_json` and `load_json_data` are left out. They are file-system and JSON I/O.
- Downloads are left out: `download_pdf` and the rest of `search_and_download` (searching, logging, the existence check). Only the file name is modelled.
- Language-model calls are not modelled: `compress_section_text` and the note generation. `CompressSections` takes the compressor as a function parameter.
- CompressSections: the thread pool is not modelled. The completion order is an arbitrary choice among the remaining sections.
- Console output is left out (`print`, logging).
- Character classes are approximated:
  - `\w` and `\b` use ASCII letters, ASCII digits, `_` and every non-ASCII character that is neither whitespace nor in the listed Latin-1, general and CJK punctuation ranges;
  - `\d` is ASCII digits;
  - `str.lower` and `re.IGNORECASE` fold ASCII letters only.
- `\s` and `str.strip` use the characters Python counts as whitespace: the ASCII controls `\t`-`\r` and `\x1c`-`\x1f`, the space, and the Unicode spaces.
- Rewriting.Marker: the replacement is inserted literally. A custom table key holding a backslash escape would be expanded by `re.sub`; the built-in keys hold none.
- PdfProcessor.AssignRanges: builds new section records instead of writing `end`, `length` and `text` into the dictionaries in place. No other reference to those dictionaries exists, so nothing observable is lost.
- PdfProcessor.SectionDict: a Dafny `map` has no order, so the insertion order (by start) of the returned dictionary is not modelled; the core never reads that order.
- PdfProcessor.Init: the processor is a value, because its fields are never reassigned after construction.
- The Reviewer's own copies of the translation and chapter tables are the same as `PDF_Processor`'s. They are defined once, in `Tables`.
- Reviewer.IdentifyAndExtractSections: a file section is modelled by its `"text"` field only. A missing field yields `""`, as `.get("text", "")` does.
- Text lengths are counted in characters (`len(text)`), as the source does, not in tokens.
