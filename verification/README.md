# BEAR.Sunday documentation tooling: a Dafny model

The BEAR.Sunday manual site comes with four small text-processing tools. This
project models each of them as pure Dafny functions over strings
(`seq<char>`) and proves properties of them:

- **LinkExpander** (`link_expander.dfy`) models `MdLinkExpander` in
  `bin/gen_llms.php`. It reads the `llms.txt` index of Markdown links and
  resolves each internal link to a local Markdown file (`urlToLocalPath`).
  It writes each file under a `# Source:` heading (`processUrl`, `expand`).
  Inside the file, each internal link is replaced by the text of the file it
  names (`processLinks`). The file system is a `map<string, string>` from
  every path `file_exists` accepts to what `file_get_contents` returns for
  it: a regular file maps to its content, and a directory maps to "".
- **ManualMerger** (`manual_merger.dfy`) models `generate_combined_file` in
  `bin/merge_md_files.rb`, which builds the one-page manual. The page is a
  fixed frontmatter header and an introduction, then every top-level `*.md`
  file of the language folder. The files come in sorted path order, each
  with every `---…---` span removed. The folder is given as its listing.
- **FrontmatterValidator** (`frontmatter_validator.dfy`) models
  `validateFrontmatter` and the counting in `main` of
  `scripts/validate-frontmatter.js`:
  - a page must open with `---`;
  - it must have a closing `---` line;
  - the block between them must mention `layout:`, `title:`, `category:` and `permalink:`;
  - the run exits 1 when any checked page fails.
- **ServiceVersions** (`service_versions.dfy`) models the version detection
  of the dashboard in `public/index.php`:
  - `getVersionFromDependencies`;
  - the clean-up of a command's first output line with the three version patterns;
  - the fallback chain of `getServiceVersion`.

  Whether `exec` may be called, and what each command prints, are fields of a
  `Host` value.

`strings.dfy` (module `Strings`) holds the string built-ins the four tools
rely on, each stated once:
- `trim`/`ltrim`/`rtrim`;
- `strpos`/`includes`, modelled as `Find`;
- `str_replace`, modelled as `ReplaceAll`;
- `split`/`explode` and `join`;
- `strtolower`;
- byte-wise string order.

`wrappers.dfy` holds `Option` and `Result`. The tools' exceptions become
`Err` values or `None`.

Where the code and its own comments disagree, the model follows the code:
- The class comment of `bin/gen_llms.php` says links are expanded
  recursively. In fact `processLinks` collects the matches of the original
  text once; text inserted for one match yields no new matches
  (`LinkExpander.ProcessLinksNotRecursive`). Each replacement still runs
  over the whole current text, so a later match's replacement also rewrites
  copies of its markup inside text inserted earlier
  (`LinkExpander.ProcessLinksRewritesInserted`).
- A link that is only a fragment, such as `/#section`, does not name the
  site's root `index.md`. `parse_url` finds no path in `#section`, so the
  fragment is kept and becomes a directory name
  (`LinkExpander.FragmentOnlyUrl`).
- The merger's comment speaks of removing "the header". The pattern
  `/---.*?---/m` removes every span between two `---`, wherever it is. This
  includes body text between two `---` horizontal rules
  (`ManualMerger.StripFirstSpan`).
- The merger inserts no separators, headings or navigation order between
  files. Each file is followed by one newline only
  (`ManualMerger.CombinedLength`).

## Model

| member | source | states |
|---|---|---|
| `LinkExpander.NewExpander` | bin/gen_llms.php:37-42 | The base URL is kept. The base directory becomes a prefix of the given one: only '/' characters are removed, and a non-empty result does not end in '/'. |
| `LinkExpander.LinkAt` | bin/gen_llms.php:81 | A match of `\[([^\]]+)\]\(([^)]+)\)` at the start of a text is a link with non-empty text free of ']' and a non-empty URL free of ')'. Its markup is a prefix of the text. |
| `LinkExpander.LinkAtComplete` | bin/gen_llms.php:81 | Conversely, the markup of every such link is matched where it starts, with exactly its text and URL as the two groups. |
| `LinkExpander.LinksOfRaw` | bin/gen_llms.php:150-151 | `preg_match_all` on text that begins with a link's markup yields that link first. The scan then resumes after the markup, so matches do not overlap. |
| `LinkExpander.LinksWithoutBracket` | bin/gen_llms.php:150-151 | Text without '[' has no match. |
| `LinkExpander.UrlPath` | bin/gen_llms.php:119-122 | The path `parse_url` reports. When the input starts with '#' or '?' there is no path, and the caller keeps the input as it is. Otherwise the path is the part before the first '#' or '?', or the whole input when it has neither, with every control character (0x00-0x1F, 0x7F) replaced by '_'. |
| `LinkExpander.Basename` | bin/gen_llms.php:125 | The base name `pathinfo` uses contains no '/'. |
| `LinkExpander.Extension` | bin/gen_llms.php:125 | The extension contains neither '.' nor '/'. A non-empty extension is shorter than the path. |
| `LinkExpander.UrlToLocalPath` | bin/gen_llms.php:106-135 | Fails exactly when the trimmed URL starts neither with the base URL nor with '/'. Every path it returns starts with the base directory followed by '/'. |
| `LinkExpander.ReadLocalFile` | bin/gen_llms.php:138-146 | Succeeds exactly when the trimmed path is a file, and returns that file's content. |
| `LinkExpander.ExtensionWithoutDot` | bin/gen_llms.php:125-127 | A path without '.' has the empty extension, so it gets an index file. |
| `LinkExpander.IndexExtension` | bin/gen_llms.php:125-132 | After "/index.md" is appended the extension is "md", so the html rewrite leaves the path alone. |
| `LinkExpander.RootRelativeRel` | bin/gen_llms.php:110-116 | A root-relative URL "/s" is internal. Its relative path is s: one leading '/' goes and nothing else. |
| `LinkExpander.PlainUrlPath` | bin/gen_llms.php:119-122 | A path without '#', '?' or control characters is its own path component. |
| `LinkExpander.FragmentUrlPath` | bin/gen_llms.php:119-122 | In "s#f" with a non-empty, '#'/'?'-free s, everything from '#' on is dropped. |
| `LinkExpander.DirectoryIndex` | bin/gen_llms.php:124-132 | A path without '.' becomes exactly path + "/index.md". |
| `LinkExpander.RootRelativeDirectory` | bin/gen_llms.php:106-135 | "/s" for a directory-like s resolves to baseDir + "/" + s + "/index.md". |
| `LinkExpander.HtmlLetters` | bin/gen_llms.php:130 | An extension that lower-cases to "html" is four ASCII letters. |
| `LinkExpander.ExtensionAfterDot` | bin/gen_llms.php:125 | The extension of "stem.x" is x whenever x has no '.' or '/'. |
| `LinkExpander.HtmlUrlPath` | bin/gen_llms.php:119-122 | "stem.html" in any case keeps its whole text as the path component. |
| `LinkExpander.HtmlRewrite` | bin/gen_llms.php:124-132 | "stem.x", with x lower-casing to "html", becomes "stem.md". The last five characters are replaced, whatever their case. |
| `LinkExpander.RootRelativeHtml` | bin/gen_llms.php:106-135 | "/stem.HTML" (any case) resolves to baseDir + "/" + stem + ".md". |
| `LinkExpander.PlainRootRelative` | bin/gen_llms.php:106-135 | A '#'/'?'-free root-relative path resolves through itself and the index and html steps. |
| `LinkExpander.FragmentRootRelative` | bin/gen_llms.php:106-135 | "/s#f" resolves through the part before '#'. |
| `LinkExpander.FragmentIgnored` | bin/gen_llms.php:119-122 | "/s#f" and "/s" name the same file. |
| `LinkExpander.FragmentOnlyRel` | bin/gen_llms.php:114-122 | For "/#f" the relative path is "#f", and the path step keeps it whole because `parse_url` reports no path. |
| `LinkExpander.FragmentOnlyUrl` | bin/gen_llms.php:106-135 | "/#f" resolves to baseDir + "/#f/index.md", not to the root index. |
| `LinkExpander.BaseUrlRemovedEverywhere` | bin/gen_llms.php:114-116 | For an absolute URL baseUrl + s, every occurrence of the base URL in s is removed too, not only the leading one, and then '/' is trimmed at both ends. |
| `LinkExpander.AbsoluteRelativePath` | bin/gen_llms.php:114-116 | For baseUrl + s, where s does not contain the base URL, the relative path is s with '/' trimmed at both ends. |
| `LinkExpander.RootRelativePath` | bin/gen_llms.php:114-116 | For "/" + s the relative path is s with '/' trimmed at both ends: `ltrim` of the extra leading '/' does not change what `trim` keeps. |
| `LinkExpander.BaseUrlMatchesRootRelative` | bin/gen_llms.php:157-163 | processLinks rewrites "/s" to baseUrl + "s". That rewrite names the same file as "/s", as long as the base URL does not start with '/' and does not occur inside s. |
| `LinkExpander.Substitute` | bin/gen_llms.php:157-170 | A link that is external, or whose file cannot be resolved or read, leaves the content unchanged, and the loop goes on. |
| `LinkExpander.SubstituteAllInert` | bin/gen_llms.php:153-172 | When no collected link resolves, the whole loop leaves the content unchanged. |
| `LinkExpander.ProcessLinksInert` | bin/gen_llms.php:148-175 | A page whose links all fail to resolve is returned unchanged. |
| `LinkExpander.ProcessLinksWithoutLinks` | bin/gen_llms.php:148-175 | A page without link markup is returned unchanged. |
| `LinkExpander.ProcessLinksNotRecursive` | bin/gen_llms.php:150-172 | A page that is one resolvable link becomes text + "\n\n" + the linked file verbatim. On such a page, links inside the linked file are not expanded. |
| `LinkExpander.ProcessLinksRewritesInserted` | bin/gen_llms.php:150-172 | The matches come from the original page only, but each `str_replace` runs over the whole current text. When the first link's file is the markup of the page's second link, the second replacement expands both the inserted copy and the original. |
| `LinkExpander.SourceBlock` | bin/gen_llms.php:94-96 | An entry's block starts with "# Source: " + url + "\n\n" and ends with body + "\n\n" + the dashed delimiter. |
| `LinkExpander.ProcessEntry` | bin/gen_llms.php:77-104 | An index line yields nothing exactly when it has no link, or its cleaned URL cannot be resolved or read. Otherwise it yields one "# Source:" block. |
| `LinkExpander.Entries` | bin/gen_llms.php:52-54 | The kept index lines are trimmed, none starts with '#', and there are no more of them than input lines. A single line is dropped exactly when it is empty or its trim starts with '#'; otherwise its trim is kept. With `EntriesAppend` this fixes the filter for every index. |
| `LinkExpander.Expand` | bin/gen_llms.php:44-75 | The run fails exactly when the index file is missing. Failing entries never make it fail. |
| `LinkExpander.ExpandIndex` | bin/gen_llms.php:44-65 | An index file whose text is newline-free lines joined by '\n' expands to the blocks of the kept lines, in index order. |
| `LinkExpander.ExpandSingleEntry` | bin/gen_llms.php:44-65 | An index of one trimmed line that does not start with '#' writes exactly that line's `processUrl` output. |
| `LinkExpander.EntriesOfEntryLine` | bin/gen_llms.php:52-54 | A trimmed, non-empty line that does not start with '#' is kept as it is. |
| `LinkExpander.EntriesAppend` | bin/gen_llms.php:52-54 | Line filtering is line by line: filtering two blocks of lines is filtering each. |
| `LinkExpander.ExpandEntriesAppend` | bin/gen_llms.php:63-65 | The output of a run is the outputs of its entries concatenated in index order, so a failing entry removes only its own block. |
| `LinkExpander.EntryOfRawLink` | bin/gen_llms.php:78-85 | An index line "[t](u)" yields the link (t, u), and u itself as the URL when u needs no trimming or punctuation stripping. |
| `LinkExpander.ReadExact` | bin/gen_llms.php:138-146 | A stored path without surrounding whitespace reads that file. |
| `LinkExpander.DirectoryPageResolves` | bin/gen_llms.php:106-135 | baseUrl + s for a directory page s resolves to baseDir + "/" + s + "/index.md". |
| `LinkExpander.DirectoryPageLoads` | bin/gen_llms.php:89-91 | Such a URL loads that index.md when it exists. |
| `LinkExpander.SeedToDirectoryPage` | bin/gen_llms.php:77-104 | An index line "[t](baseUrl + s)" for an existing directory page without links yields exactly one block: the URL as written, then the page's text. |
| `ManualMerger.StripWithoutSpan` | bin/merge_md_files.rb:31 | Text in which `/---.*?---/m` has no match is unchanged. |
| `ManualMerger.StripWithoutDashes` | bin/merge_md_files.rb:31 | A file whose text contains no "---" passes through unchanged. |
| `ManualMerger.StripFirstSpan` | bin/merge_md_files.rb:31 | Take the first "---" and the nearest "---" after it. Everything before the first is kept, the span up to the end of the second is removed across lines, and the scan resumes after it. |
| `ManualMerger.FirstDashesIsFind` | bin/merge_md_files.rb:31 | The character-by-character scan for the next "---" finds the same first occurrence as the general substring search. |
| `ManualMerger.StripUnclosed` | bin/merge_md_files.rb:31 | An opening "---" with no later "---" removes nothing. |
| `ManualMerger.PrefixKeepsNoSpan` | bin/merge_md_files.rb:31 | Text kept in front of a removed span, followed by match-free text, forms no new match. |
| `ManualMerger.StripLeavesNoSpan` | bin/merge_md_files.rb:31 | After the substitution no match of the pattern remains. |
| `ManualMerger.StripIdempotent` | bin/merge_md_files.rb:31 | Stripping a stripped file changes nothing. |
| `ManualMerger.Glob` | bin/merge_md_files.rb:22 | The globbed files are exactly the entries whose names end in ".md" and do not start with '.'. Each gets the path folder + "/" + name. |
| `ManualMerger.Insert` | bin/merge_md_files.rb:22 | Insertion adds exactly one file: the multiset grows by it. |
| `ManualMerger.InsertSorted` | bin/merge_md_files.rb:22 | Insertion keeps a path-sorted list sorted. |
| `ManualMerger.SortByPath` | bin/merge_md_files.rb:22 | The sorted list is a permutation of the globbed files in ascending byte order of full path. |
| `ManualMerger.PathOrderIsNameOrder` | bin/merge_md_files.rb:5-22 | Within one folder, full-path order is file-name order. |
| `ManualMerger.ManualFiles` | bin/merge_md_files.rb:22-25 | The files written are the globbed files, each once, sorted by path. |
| `ManualMerger.GlobAppend` | bin/merge_md_files.rb:22 | Globbing is entry by entry: globbing two parts of a listing is globbing each. |
| `ManualMerger.GlobPermutation` | bin/merge_md_files.rb:22 | A reordered listing globs to a reordering of the same files. |
| `ManualMerger.GlobUniquePaths` | bin/merge_md_files.rb:22 | Distinct names give distinct paths. |
| `ManualMerger.SortedHeads` | bin/merge_md_files.rb:22 | Two sorted arrangements of the same files with distinct paths start with the same file. |
| `ManualMerger.SortedUnique` | bin/merge_md_files.rb:22 | Two sorted arrangements of the same files with distinct paths are identical. |
| `ManualMerger.ManualFilesIgnoreListingOrder` | bin/merge_md_files.rb:22 | The files written do not depend on the order in which the folder is listed. |
| `ManualMerger.CombinedIgnoresListingOrder` | bin/merge_md_files.rb:3-38 | The generated manual does not depend on the order in which the folder is listed. |
| `ManualMerger.SectionsLengthIsSum` | bin/merge_md_files.rb:25-35 | The files contribute Σ (length of stripped text + 1) characters: one newline each and nothing else. |
| `ManualMerger.GenerateCombined` | bin/merge_md_files.rb:3-38 | Fails exactly when the source folder is missing. Otherwise the output starts with the language's header, the introduction and "\n\n". |
| `ManualMerger.CombinedLength` | bin/merge_md_files.rb:16-34 | The output length is header + introduction + 2 + Σ (length of stripped file + 1). |
| `ManualMerger.HeaderLinesSplit` | bin/merge_md_files.rb:16 | For a language without a newline, the header's block splits into its four lines, none of them "---". |
| `ManualMerger.HeaderMentionsKey` | bin/merge_md_files.rb:16 | The header's block mentions each of layout:, title:, category: and permalink:. |
| `ManualMerger.HeaderPassesValidation` | bin/merge_md_files.rb:16 | Whatever follows it, the generated page passes the frontmatter check of scripts/validate-frontmatter.js. |
| `FrontmatterValidator.ClosingFrom` | scripts/validate-frontmatter.js:18-23 | Returns the first line at or after the start index that is exactly "---", or reports that no such line exists. |
| `FrontmatterValidator.ClosingIndex` | scripts/validate-frontmatter.js:15-23 | The closing delimiter is the first line at index ≥ 1 that is exactly "---". It is absent exactly when no such line exists. |
| `FrontmatterValidator.ExtractFrontmatter` | scripts/validate-frontmatter.js:9-30 | The error is the opening one exactly when the text does not start with "---\n". It is the closing one exactly when the text does start that way but has no closing line. |
| `FrontmatterValidator.FirstMissing` | scripts/validate-frontmatter.js:33-39 | Reports the first field, in list order, whose "field:" does not occur, with every earlier field present. Reports none exactly when all occur. |
| `FrontmatterValidator.Validate` | scripts/validate-frontmatter.js:6-42 | A page passes exactly when both delimiters exist and all four "key:" strings occur in the frontmatter. A missing-field error names the first missing key in the order layout, title, category, permalink. |
| `FrontmatterValidator.ComposedLines` | scripts/validate-frontmatter.js:15 | A page "---\n" + fm + "\n---\n" + rest splits into "---", the lines of fm, "---" and the lines of rest. |
| `FrontmatterValidator.ExtractComposed` | scripts/validate-frontmatter.js:15-30 | For a page "---\n" + fm + "\n---\n" + rest with no "---" line in fm, the frontmatter is exactly fm. |
| `FrontmatterValidator.ExtractClosedAtEnd` | scripts/validate-frontmatter.js:15-30 | For a page "---\n" + fm + "\n---" whose closing line ends the file, with no "---" line in fm, the frontmatter is exactly fm. |
| `FrontmatterValidator.ExtractEmptyBlock` | scripts/validate-frontmatter.js:15-30 | A page "---\n---\n" + rest has the empty frontmatter. |
| `FrontmatterValidator.ValidateComposed` | scripts/validate-frontmatter.js:6-42 | Such a page passes exactly when fm mentions every required key followed by ':'. |
| `FrontmatterValidator.ErrorCount` | scripts/validate-frontmatter.js:64-78 | The error count never exceeds the number of pages. |
| `FrontmatterValidator.ErrorCountAppend` | scripts/validate-frontmatter.js:66-78 | Failures are counted page by page: the count for two lists is the sum of their counts. |
| `FrontmatterValidator.ErrorCountPositive` | scripts/validate-frontmatter.js:66-80 | The count is positive exactly when some checked page fails. |
| `FrontmatterValidator.SkippedNeverFails` | scripts/validate-frontmatter.js:68-70 | A page whose path contains "1page.md" or "onepage.md" never counts, whatever its content. |
| `FrontmatterValidator.ExitCode` | scripts/validate-frontmatter.js:80-85 | The exit status is 0 or 1. It is 1 exactly when some page that is not skipped fails validation. |
| `ServiceVersions.FirstDependency` | public/index.php:14-15 | Finds the first dependency that starts with name + "@": every earlier one does not. It finds none exactly when no dependency does. |
| `ServiceVersions.VersionFromDependencies` | public/index.php:13-21 | Without such a dependency the result is "Unknown". Otherwise, for a name without '@', the dependency starts with name + "@" + the result, and the result contains no '@' and is followed by '@' or by the end. So it is exactly the segment between the first and second '@', and may be empty. |
| `ServiceVersions.SecondSegment` | public/index.php:16-17 | For a dependency "name@..." with an '@'-free name, `explode`'s second part runs from after the first '@' up to the next '@' or the end. |
| `ServiceVersions.PinnedVersion` | public/index.php:13-21 | For a first matching dependency "name@v", the result is v. So "php" is not matched by "php-fpm@…", and earlier entries win. |
| `ServiceVersions.UnpinnedVersion` | public/index.php:14-20 | A service that no dependency names gets "Unknown". |
| `ServiceVersions.Run` | public/index.php:50 | A greedy run of `\d+` or `\s+` is a prefix made of the class and followed by a character outside it. |
| `ServiceVersions.RunExact` | public/index.php:50 | A run followed by a character outside the class is exactly that run. |
| `ServiceVersions.TripleOfParts` | public/index.php:50 | Three non-empty digit strings joined by '.' form a version triple and split back into the same three parts. |
| `ServiceVersions.Triple` | public/index.php:50 | A match of `\d+\.\d+\.\d+` is a prefix of the text, made of three non-empty digit parts. It is not followed by a digit. |
| `ServiceVersions.TripleAt` | public/index.php:50 | Three maximal non-empty digit runs with a '.' after the first two make the pattern match, and the match spans all three runs and both dots. |
| `ServiceVersions.TripleComplete` | public/index.php:50 | Every version triple at the start, not followed by a digit, is exactly what the pattern captures. |
| `ServiceVersions.MatchAt` | public/index.php:50-60 | A match at a position starts with the pattern's literal prefix and captures a version triple. |
| `ServiceVersions.FirstMatch` | public/index.php:50-60 | `preg_match` takes the leftmost position where the pattern matches: there is no match before it. It reports none exactly when no position matches. |
| `ServiceVersions.Capture` | public/index.php:50-60 | A capture is a version triple. There is no capture exactly when the pattern matches nowhere. When there is a match at i and none before it, the capture is the version of that match at i. |
| `ServiceVersions.CaptureAfterPrefix` | public/index.php:50-60 | When the first "Ver"/"PHP"/"nginx/" is followed by the required whitespace and a version v that no digit follows, the capture is v. |
| `ServiceVersions.CaptureAt` | public/index.php:50-60 | The version after an occurrence of the prefix is the capture whenever the pattern matches nowhere before that occurrence, even if the prefix occurs earlier. |
| `ServiceVersions.NoVersionAt` | public/index.php:50-60 | An occurrence of the prefix followed by whitespace and then a non-digit is no match. So in "PHP Warning: PHP 8.3.1 (cli)" the first "PHP" is passed over. |
| `ServiceVersions.CaptureOr` | public/index.php:50-62 | When the pattern matches, the result is the leftmost capture. Otherwise the line is returned unchanged. |
| `ServiceVersions.VersionPattern` | public/index.php:48-62 | Exactly mysql, php and nginx have a clean-up pattern. |
| `ServiceVersions.CleanVersion` | public/index.php:46-64 | A truthy mysql, php or nginx line on which the service's pattern (`Ver\s+`, `PHP\s+`, `nginx/`) matches becomes the leftmost capture. A line on which it does not match, "" and "0", and every other service's line are returned unchanged. |
| `ServiceVersions.CleanToCapture` | public/index.php:46-64 | For a truthy line of mysql, php or nginx, whatever the service's pattern captures is the cleaned version. |
| `ServiceVersions.CleanAfterPrefix` | public/index.php:46-64 | When the first occurrence of the service's prefix is followed by the required spaces and a complete version triple, the cleaned version is that triple. |
| `ServiceVersions.ServiceVersionCommand` | public/index.php:24-68 | Returns a version exactly when the service has a command, exec is available and the command printed a line. The version is that first line, or the triple the service's pattern captures from it. |
| `ServiceVersions.ServiceVersion` | public/index.php:71-90 | A command answer is returned as it is. Otherwise the dependency lookup is returned, which is always a string, so no further fallback is reached. |
| `ServiceVersions.FallsBackToDependencies` | public/index.php:34-36 | A service outside the command table, or a host where exec is disabled, gets the dependency version. |
| `ServiceVersions.CommandWins` | public/index.php:73-78 | When the command answers, the dependency list has no influence. |
| `ServiceVersions.CommandVersion` | public/index.php:43-47 | With exec and some output, the version is the cleaned first line. |
| `ServiceVersions.FalsyLineReturned` | public/index.php:44-47 | A first line "" or "0" is returned as it is: PHP's falsy strings skip the clean-up but are not null, so the dependency list is not consulted. |
| `ServiceVersions.MysqlBannerVersion` | public/index.php:48-52 | "mysql  Ver 8.0.32 for …" yields the triple after the first "Ver" and its whitespace. |
| `ServiceVersions.PhpBannerVersion` | public/index.php:53-57 | "PHP 8.4.0 (cli) …" yields the triple after the first "PHP" and its whitespace. |
| `ServiceVersions.NginxBannerVersion` | public/index.php:58-62 | "nginx version: nginx/1.25.1" yields the triple right after the first "nginx/". |
| `Strings.Find` | scripts/validate-frontmatter.js:36 | `includes`/`strpos`: an occurrence at the reported index and none before it. When nothing is reported, there is no occurrence anywhere. |
| `Strings.FindTail` | bin/merge_md_files.rb:31 | A first occurrence at i > 0 is the first occurrence at i - 1 in the text without its first character. |
| `Strings.ContainsInMiddle` | scripts/validate-frontmatter.js:36 | A string contained in a part is contained in the whole. |
| `Strings.ContainsInJoin` | scripts/validate-frontmatter.js:30-36 | A key found in one line is found in the joined lines. |
| `Strings.IndexOfAny` | bin/gen_llms.php:119 | The first index holding a character of the set: every earlier character lies outside it. When the set does not occur it is the length. |
| `Strings.TrimLeft` | bin/gen_llms.php:85 | `ltrim`: the result is a suffix, every removed character is in the set, and a non-empty result starts outside the set. |
| `Strings.TrimRight` | bin/gen_llms.php:39 | `rtrim`: the result is a prefix, every removed character is in the set, and a non-empty result ends outside the set. |
| `Strings.Trim` | bin/gen_llms.php:78 | `trim`: neither end of a non-empty result lies in the set. That the result is what remains after removing set characters at both ends is `TrimRemovesOnly`. |
| `Strings.TrimRemovesOnly` | bin/gen_llms.php:116 | `trim` removes only characters of the set: the result occurs in the input, and everything before and after it is in the set. |
| `Strings.TrimKeeps` | bin/gen_llms.php:107 | A string whose ends lie outside the set is its own trim. |
| `Strings.ReplaceAllAbsent` | bin/gen_llms.php:114 | `str_replace` with a needle that does not occur changes nothing. |
| `Strings.ReplaceAllSelf` | bin/gen_llms.php:166 | Replacing a needle by itself changes nothing. |
| `Strings.ReplaceAllLeading` | bin/gen_llms.php:114 | A subject that starts with the needle has that occurrence replaced, and the scan goes on right after it. |
| `Strings.ReplaceAllAtFirst` | bin/gen_llms.php:114 | The first occurrence of the needle is replaced wherever it sits, not only as a prefix. The text before it is kept, and the scan goes on after it. |
| `Strings.ReplaceAllWhole` | bin/gen_llms.php:166 | A subject that is exactly the needle becomes exactly the replacement. |
| `Strings.Split` | scripts/validate-frontmatter.js:15 | `split`/`explode`: at least one part, no part contains the separator, and joining the parts gives the input back. |
| `Strings.SplitCons` | public/index.php:16 | A separator-free first part is peeled off as the first element. |
| `Strings.SplitJoin` | scripts/validate-frontmatter.js:15-30 | Splitting the join of separator-free parts gives back the parts. |
| `Strings.JoinAppend` | scripts/validate-frontmatter.js:30 | Joining a concatenation puts exactly one separator between the two joins. |
| `Strings.SplitAppend` | scripts/validate-frontmatter.js:15 | Splitting a + sep + b gives the parts of a followed by the parts of b. |
| `Strings.AfterLast` | bin/gen_llms.php:125 | The part after the last separator is a suffix without the separator, preceded by the separator when shorter than the input. |
| `Strings.AfterLastAppend` | bin/gen_llms.php:125 | Appending separator-free text extends the part after the last separator. |
| `Strings.LexLeTotal` | bin/merge_md_files.rb:22 | Byte-wise string order is total. |
| `Strings.LexLeTrans` | bin/merge_md_files.rb:22 | Byte-wise string order is transitive. |
| `Strings.LexLeAntisymmetric` | bin/merge_md_files.rb:22 | Byte-wise string order is antisymmetric. |
| `Strings.LexLeCommonPrefix` | bin/merge_md_files.rb:22 | A common prefix does not change the order. |

## Left out

- File and console I/O are not modelled: `file`, `fopen`/`fwrite`, `File.open`, `readFileSync`, `echo`, `puts` and `console.log`. Inputs are given as maps or lists of (path, content), and outputs are returned as strings.
- `findMarkdownFiles` (scripts/validate-frontmatter.js:44-60) is not modelled: it recurses over directories. The pages are given as a list. A page that cannot be read would count as a failure in the source; every given page is readable.
- `Dir.glob` is left out for entries that are directories with a `.md` name. The listing holds files only.
- The merger writes `manuals/1.0/<lang>/1page.md` relative to the working directory, and opens it before globbing. When the working directory is the repository root, the half-written output is part of its own listing. That depends on the working directory and on write buffering, so the model leaves it out.
- `exec`, `function_exists`, `ini_get` and the command's exit status are not modelled. The host supplies exec availability, the `disable_functions` string and each command's output lines. PHP's `exec` removes trailing whitespace from each line; the model takes the lines after that step.
- `ServiceVersion` has no branch for the `PHP_VERSION`/`'Unknown'` fallback of `getServiceVersion` (public/index.php:81-87). It is unreachable, because `getVersionFromDependencies` always returns a string.
- `LinkExpander.UrlPath` models `parse_url` for relative paths without ':', including its replacement of control characters in the path by '_'. Scheme, host and port parsing of paths containing ':' are left out, and so is `parse_url` returning false for malformed input.
- `LinkExpander.Entries` splits the index on '\n' only. PHP's `file` with `FILE_IGNORE_NEW_LINES | FILE_SKIP_EMPTY_LINES` also drops the '\r' of a CRLF line end and then skips the lines left empty. The model keeps a "\r"-only line as an empty entry instead; `trim` gives the same text for every other line, and an empty entry writes no block (`ProcessEntry`), so the written output is the same.
- `LinkExpander.UrlToLocalPath`: its contract states when it fails and that every result lies under the base directory. The full path is stated by the lemmas for root-relative URLs, `.html` URLs, fragment URLs and base-URL URLs without ':'. Other shapes are covered only by the definition.
- `ManualMerger.Insert`: its contract states the permutation only. Sortedness is the separate lemma `ManualMerger.InsertSorted`.
- `FrontmatterValidator.ErrorCount`: its contract bounds the count only. What the count means is stated by `ErrorCountPositive` and `ErrorCountAppend`.
- The rest of public/index.php is not modelled, for these reasons:
  - port and process probing (`isPortListening`, `getServiceStatus`, `getProcessId`) is I/O;
  - the HTML rendering is presentation;
  - the extension badges (public/index.php:611-629) depend on the PHP runtime.
- `_plugins/copy_markdown.rb`, `js/` and `MyVendor.Ticket/` are not part of this model. They are a Jekyll copy hook, browser UI code, and a sample application over a framework and a database.
- General PCRE and Ruby regex semantics are not modelled. Only the patterns the tools use are modelled, as explicit string functions:
  - the link pattern;
  - `/---.*?---/m`;
  - the three version patterns.
