# RevealJS documentation scrapers: a verified model

This project models the two scripts that turn the reveal.js documentation site into
local files:

- `scrape_revealjs.py` fetches each page in a fixed list (`PAGES`) and saves it
  under a name made from the URL path (`get_filename`).
- `convert_to_markdown.py` converts every saved page to Markdown and cleans up the
  whitespace of the result.

Each script keeps a progress file with a `completed` list and a `failed` list. An
interrupted run can be resumed: items already in `completed` are skipped.

The model has five modules:

- `PyStr` (`pystr.dfy`): the Python `str` operations the scripts rely on, over
  `seq<char>`, plus the set of characters for which `str.isspace()` holds. The
  scripts call `strip`, `rstrip`, `replace`, `split` and `join`. `lstrip` is
  modelled because `strip` is defined as `lstrip` followed by `rstrip`. `rfind` is
  modelled because `PurePath.stem` finds the last `.` with it.
- `ProgressFile` (`progress.dfy`): the progress record. It has a value view
  `Lists` and a class `Progress` whose two `seq<string>` fields the loops append to
  in place.
- `ScrapeRevealjs` (`scrape_revealjs.dfy`): `PAGES`, `get_filename`, and the main
  loop of the scraper.
- `ScrapePages` (`scrape_pages.dfy`): facts about the literal page list, proved a
  few pages at a time.
- `ConvertToMarkdown` (`convert_to_markdown.dfy`): the clean-up pass of
  `convert_html_to_markdown`, the Markdown file name, and the main loop of the
  converter.

Each main loop is a `method` over a `Progress` object. Its postcondition ties the
final lists to a function that folds one loop step over the work list
(`ScrapeRun`, `ConvertRun`). The properties of a run are lemmas about that function.

What a network fetch, a file read or write, a progress save, or the HTML-to-Markdown
library gives for each item is not computed. It is an input sequence with one entry
per item (`ScrapeOutcome`, `ConvertOutcome`). That entry records which step raised an
exception, if any, and, for the converter, the Markdown text of the page's article
or its absence.

## Model

| member | source | states |
|---|---|---|
| ScrapeRevealjs.GetFilename | scraping/scrape_revealjs.py:63-67 | the root path is saved as `home.html`; every file name ends in `.html` and contains no `/` |
| ScrapeRevealjs.SectionFilename | scraping/scrape_revealjs.py:67 | a path `/x/` whose middle `x` is slash-free and non-empty is saved as `x.html` |
| ScrapeRevealjs.OuterSlashesIgnored | scraping/scrape_revealjs.py:67 | for any `x` other than `/`, the paths `/x/` and `x` get the same file name |
| ScrapeRevealjs.SectionFilenameInjective | scraping/scrape_revealjs.py:67 | two section paths with the same file name are the same path |
| ScrapePages.PagesAreDistinctSections | scraping/scrape_revealjs.py:11-51 | the page list has no duplicates; its first entry is `/`; every other entry is a section path, and none is `/home/` |
| ScrapePages.PagesHaveDistinctFilenames | scraping/scrape_revealjs.py:11-51 | the 39 pages are saved under pairwise distinct file names, so no page overwrites another |
| ScrapeRevealjs.ScrapeStep | scraping/scrape_revealjs.py:80-100 | a completed path changes nothing; the lists only grow, and the path ends up in one of them; a save appends the path to `completed` once; a raise before it leaves `completed` alone; a save with nothing raised leaves `failed` alone; any raise makes `failed` its guarded append of the path; no other entry changes; duplicate-free lists stay duplicate-free |
| ScrapeRevealjs.ScrapeRun | scraping/scrape_revealjs.py:80-100 | the loop as a fold of ScrapeStep: the loaded lists are prefixes of the final ones; the run lemmas below give the rest |
| ScrapeRevealjs.ScrapeRunKeepsListsUnique | scraping/scrape_revealjs.py:80-100 | starting from duplicate-free lists, both lists stay duplicate-free over a whole run, even when the work list repeats a path |
| ScrapeRevealjs.ScrapeRunRecordsEveryPage | scraping/scrape_revealjs.py:80-100 | after a run the lists extend the loaded ones; every page of the run is in one of them; nothing but the run's pages was added |
| ScrapeRevealjs.ScrapeRunFailuresRaised | scraping/scrape_revealjs.py:88-100 | a page newly in `failed` after a run met an outcome in which something raised |
| ScrapeRevealjs.ScrapeRunWhenAllDone | scraping/scrape_revealjs.py:81-83 | resuming when every page is already completed leaves the progress unchanged |
| ScrapeRevealjs.ScrapeAll | scraping/scrape_revealjs.py:76-100 | the loop over `PAGES` leaves `progress` in the state given by folding the step over the pages and their outcomes |
| ProgressFile.AppendIfAbsent | scraping/scrape_revealjs.py:98-99 | the guarded append leaves the list unchanged when the item is present, and otherwise adds it once at the end; nothing else is added, and a duplicate-free list stays duplicate-free |
| ProgressFile.Progress.constructor | scraping/scrape_revealjs.py:78 | the progress object starts as the loaded record |
| ProgressFile.Progress.MarkCompleted | scraping/scrape_revealjs.py:92 | appends the item to `completed` and leaves `failed` alone |
| ProgressFile.Progress.MarkFailed | scraping/convert_to_markdown.py:94 | appends the item to `failed` with no membership check and leaves `completed` alone |
| ProgressFile.Progress.MarkFailedIfAbsent | scraping/convert_to_markdown.py:101-102 | appends the item to `failed` only when it is absent, and leaves `completed` alone |
| PyStr.LStrip | scraping/scrape_revealjs.py:67 | `lstrip` never lengthens the text; LStripSpec characterises it |
| PyStr.RStrip | scraping/convert_to_markdown.py:64 | `rstrip` never lengthens the text; RStripSpec characterises it |
| PyStr.Strip | scraping/scrape_revealjs.py:67 | `strip` never lengthens the text; StripIsSlice and StripSpec characterise it |
| PyStr.StripIsSlice | scraping/convert_to_markdown.py:66 | `strip` gives the slice of the text between a prefix and a suffix made only of stripped characters, so stripped characters inside the text are kept |
| PyStr.LStripSpec | scraping/scrape_revealjs.py:67 | `lstrip` removes the longest prefix made of the given characters: the result is a suffix that does not start with one of them |
| PyStr.RStripSpec | scraping/convert_to_markdown.py:64 | `rstrip` removes the longest suffix made of the given characters: the result is a prefix that does not end with one of them |
| PyStr.StripSpec | scraping/convert_to_markdown.py:66 | neither end of `strip`'s result is a stripped character; text made only of such characters strips to `""`; text whose ends are kept is unchanged |
| PyStr.StripKeepsOthers | scraping/convert_to_markdown.py:66 | stripping removes only the given characters: all other characters are kept, in order |
| PyStr.RFind | scraping/convert_to_markdown.py:79 | `rfind` gives -1 or an index holding the character, with no later index holding it |
| PyStr.Replace | scraping/scrape_revealjs.py:67 | `replace` keeps the length and replaces exactly the matching characters |
| PyStr.Split | scraping/convert_to_markdown.py:64 | `split` gives at least one piece and no piece holds the separator; SplitCount and SplitJoin give the rest |
| PyStr.Join | scraping/convert_to_markdown.py:64 | `join` starts with the first piece; JoinSplit gives the rest |
| PyStr.SplitCount | scraping/convert_to_markdown.py:64 | `split` gives one more piece than there are separators |
| PyStr.JoinSplit | scraping/convert_to_markdown.py:64 | joining the pieces of a split gives back the text |
| PyStr.SplitJoin | scraping/convert_to_markdown.py:64 | splitting a join of separator-free pieces gives back the pieces |
| ConvertToMarkdown.CollapseBlankLines | scraping/convert_to_markdown.py:61 | `re.sub(r'\n{3,}', '\n\n', …)` never lengthens the text and keeps its first character; the collapse lemmas below give the rest |
| ConvertToMarkdown.CollapseLeavesNoBlankRun | scraping/convert_to_markdown.py:61 | after the substitution, no three newlines follow each other |
| ConvertToMarkdown.CollapseKeepsText | scraping/convert_to_markdown.py:61 | the substitution keeps every character other than a newline, in order |
| ConvertToMarkdown.CollapseRun | scraping/convert_to_markdown.py:61 | a run of three or more newlines becomes exactly two; a shorter run is unchanged |
| ConvertToMarkdown.CollapseSplitsAtText | scraping/convert_to_markdown.py:61 | no match spans a character other than a newline: when the left part ends in one or the right part starts with one, each part is substituted separately; with CollapseRun this fixes the result on every input |
| ConvertToMarkdown.CollapseKeepsShortRuns | scraping/convert_to_markdown.py:61 | text without three newlines in a row is left unchanged |
| ConvertToMarkdown.RStripEach | scraping/convert_to_markdown.py:64 | each line is replaced by its right-stripped self, and the number of lines stays the same |
| ConvertToMarkdown.RStripLinesKeepsNewlines | scraping/convert_to_markdown.py:64 | trimming the lines keeps the number of newlines |
| ConvertToMarkdown.RStripLinesTrimsEveryLine | scraping/convert_to_markdown.py:64 | the lines afterwards are the old lines, each right-stripped, so none of them ends in whitespace |
| ConvertToMarkdown.RStripLines | scraping/convert_to_markdown.py:64 | trimming the lines removes only whitespace; RStripLinesKeepsNewlines and RStripLinesTrimsEveryLine give its lines |
| ConvertToMarkdown.Cleanup | scraping/convert_to_markdown.py:59-66 | the cleaned text neither starts nor ends with whitespace |
| ConvertToMarkdown.CleanupKeepsText | scraping/convert_to_markdown.py:59-66 | the clean-up keeps every non-whitespace character, in order |
| ConvertToMarkdown.CleanupEmptyIffBlank | scraping/convert_to_markdown.py:59-66 | the cleaned text is `""` exactly when the input is all whitespace |
| ConvertToMarkdown.CleanupCanLeaveBlankRun | scraping/convert_to_markdown.py:61-64 | a text with no three newlines in a row can come out with three in a row, and cleaning that result again changes it: the pass is not idempotent |
| ConvertToMarkdown.ConvertHtmlToMarkdown | scraping/convert_to_markdown.py:47-66 | no article gives `None`; otherwise the result is the clean-up of the article's Markdown, neither starts nor ends with whitespace, keeps the article's visible text, and is empty exactly when the article is all whitespace |
| ConvertToMarkdown.Stem | scraping/convert_to_markdown.py:79 | the stem is a prefix of the name; it is shorter exactly when the last `.` is neither the first nor the last character, and then it ends just before that dot |
| ConvertToMarkdown.HtmlStem | scraping/convert_to_markdown.py:79 | the stem of `x.html` with a non-empty `x` is `x` |
| ConvertToMarkdown.MarkdownFilename | scraping/convert_to_markdown.py:79 | every Markdown name ends in `.md`; `x.html` with a non-empty `x` becomes `x.md` |
| ConvertToMarkdown.MarkdownFilenameInjective | scraping/convert_to_markdown.py:79 | distinct HTML files `x.html` with a non-empty `x` get distinct Markdown names |
| ConvertToMarkdown.HiddenHtmlNamesCollide | scraping/convert_to_markdown.py:72-79 | the hidden file `.html` and the file `.html.html` are both converted to `.html.md` |
| ConvertToMarkdown.RootMarkdownName | scraping/convert_to_markdown.py:79 | the scraped root page `home.html` becomes `home.md` |
| ConvertToMarkdown.SectionMarkdownName | scraping/convert_to_markdown.py:79 | the scraped section page `/x/` becomes `x.md` |
| ConvertToMarkdown.HasContent | scraping/convert_to_markdown.py:87 | `if markdown:` takes its first branch exactly when the conversion ran and the cleaned Markdown is non-empty |
| ConvertToMarkdown.ConvertStep | scraping/convert_to_markdown.py:74-103 | a completed file changes nothing; a file joins `completed` exactly when its article has visible text and the write succeeds; a converted file without content is appended to `failed` unconditionally; a clean conversion leaves `failed` alone; when reading, converting, writing or saving raises, `failed` becomes its guarded append of the file; a file already in `failed` is not added again unless it had no content; the lists only grow and the file ends up in one of them; no other entry changes; `completed` stays duplicate-free |
| ConvertToMarkdown.RecordConversion | scraping/convert_to_markdown.py:87-103 | the `if markdown:` branch: non-empty Markdown that is written joins `completed`; empty or missing Markdown is appended to `failed`; non-empty Markdown leaves `failed` alone when nothing raises, and otherwise gives `failed` as its guarded append of the file |
| ConvertToMarkdown.ConvertRun | scraping/convert_to_markdown.py:74-103 | the loop as a fold of ConvertStep: the loaded lists are prefixes of the final ones; the run lemmas below give the rest |
| ConvertToMarkdown.FailedCanGainDuplicates | scraping/convert_to_markdown.py:92-95 | a file already in `failed` that again has no content is listed in `failed` twice |
| ConvertToMarkdown.ConvertRunKeepsCompletedUnique | scraping/convert_to_markdown.py:74-103 | starting from a duplicate-free `completed`, it stays duplicate-free over a whole run |
| ConvertToMarkdown.ConvertRunRecordsEveryFile | scraping/convert_to_markdown.py:74-103 | after a run the lists extend the loaded ones; every file of the run is in one of them; nothing but the run's files was added |
| ConvertToMarkdown.ConvertRunFailuresExplained | scraping/convert_to_markdown.py:82-103 | a file newly in `failed` after a run was not converted cleanly: reading or converting raised, it had no content, or writing or saving raised |
| ConvertToMarkdown.ConvertRunKeepsFailedUnique | scraping/convert_to_markdown.py:74-103 | `failed` stays duplicate-free when the files are distinct and none of them had failed before |
| ConvertToMarkdown.ConvertRunWhenAllDone | scraping/convert_to_markdown.py:75-77 | resuming when every file is already completed leaves the progress unchanged |
| ConvertToMarkdown.ConvertAll | scraping/convert_to_markdown.py:68-103 | the loop over the HTML files leaves `progress` in the state given by folding the step over the files and their outcomes |

## Left out

- HTTP fetching (`scrape_page`, `requests.get`, `raise_for_status`, the timeout) and `time.sleep`. Each page's fetch, write and save is reduced to which of them raised.
- File-system work: `mkdir`, `glob`, `read_text`, `write_text`, and loading and saving the JSON progress file. The loaded progress is the argument of the `Progress` constructor, and each write's or save's success is an input.
- `extract_main_content`, `remove_demo_elements` and the `markdownify` call (BeautifulSoup and markdownify). Each page's converter output is an input: `None` when the page has no article, otherwise an arbitrary Markdown string. The clean-up is modelled exactly on that string.
- Console output: `print`, `traceback.print_exc`, and the final summary line.
- Exceptions raised by `print`: inside the `try` blocks most of them have the effect of an outcome the model has. A raise at scraping/scrape_revealjs.py:89 or scraping/convert_to_markdown.py:83 acts like a failed fetch or read. A raise at scraping/scrape_revealjs.py:94 or scraping/convert_to_markdown.py:91 acts like a failed save.
- Not modelled: a raise from the `print` at scraping/convert_to_markdown.py:93. It would send the file to the guarded append at lines 101-102 instead of the unguarded one at line 94, and no `ConvertOutcome` expresses it.
- Not modelled: a raise from the `print` calls outside the `try` blocks (scraping/scrape_revealjs.py:82, scraping/convert_to_markdown.py:76) or in the `except` branches (scraping/scrape_revealjs.py:97, scraping/convert_to_markdown.py:98-100). Such a raise ends the script.
- An exception from the `save_progress` call inside an `except` branch leaves the loop and ends the script. The model assumes that call does not raise.
- `re.sub` is modelled only for the one pattern used, `\n{3,}` → `\n\n`, and not as a general regular-expression engine.
- `PyStr.Whitespace` is the set of characters for which Python's `str.isspace()` holds. Nothing of Unicode beyond that set is modelled.
- MarkdownFilenameInjective: holds only for names `x.html` with a non-empty `x`. The glob at scraping/convert_to_markdown.py:72 also lists a hidden file `.html`, which is converted to the same file as `.html.html` (`HiddenHtmlNamesCollide`).
- `ScrapePages.PagePosition` is a proof device that tells the literal pages apart. It does not correspond to anything in the scripts.
