# Instagram downloader core, modelled in Dafny

`app.py` is a Streamlit dashboard that downloads Instagram posts, reels and
profile pictures through instaloader. Stripped of its UI and network calls,
what remains is a handful of decisions. This project models each of them and
proves what they guarantee:

- **Caption summary** (`summarize_caption`). Mentions, hashtags, links and
  non-ASCII runs are removed by four `re.sub` calls. The text is then split
  into lines, stripped, and blank lines are dropped. The first two lines are
  joined with `". "`, plus `"..."` when more lines remain.
  The function is defined twice in the source: at app.py:54-67 and again at
  app.py:74-85. The two bodies agree statement for statement; only a local
  `import re` and the comments differ, so one Dafny function,
  `Caption.Summarize`, models both.
- **Shortcode extraction and the URL gate.** `extract_shortcode` returns the
  first path segment longer than five characters made only of letters,
  digits, `-` and `_`. Before any network access, three checks refuse:
  - an empty URL,
  - a URL without `instagram.com`,
  - a URL with no shortcode.
- **Post enumeration** (`display_post`). Depending on the post's typename, it
  offers one image, one video, one item per carousel slide, or nothing. Each
  item has a kind, a source URL and a file name built from the owner and a
  1-based slide number.
- **Access escalation.** The post is fetched anonymously first. A private or
  login-required refusal leads to one login form and a single credentialed
  retry. Every other failure ends the action. This is modelled as a state
  machine whose transitions are driven by the answers instaloader would give,
  which the model takes as input.
- **Session download log.** This is an append-only list of
  `(filename, timestamp)` entries. The history page shows it newest first.
  Python's `sorted` is stable, so entries with the same timestamp keep the
  order in which they were logged.

Modules:

| module | file | contents |
|---|---|---|
| `Builtins` | `builtins.dfy` | the Python `str` and `int` behaviour the code relies on: `None`, `isspace`, `strip`, `split`, `join`, `in`, and `f"{n}"`; also `StartsWith`/`EndsWith`, which `app.py` does not call, used only to state the file-name contracts of `Media` |
| `Caption` | `caption.dfy` | `summarize_caption` |
| `Shortcode` | `shortcode.dfy` | `extract_shortcode` and the URL gate |
| `Media` | `media.dfy` | `display_post` without rendering |
| `Access` | `access.dfy` | the anonymous-then-login state machine and the "Download Post" action |
| `History` | `history.dfy` | the download log class and the history view |

`Builtins.Whitespace` is exactly the set of characters for which Python's
`str.isspace()` holds. The regex classes `\s`/`\S` on `str` patterns and
argument-less `str.strip()` use this same set, so the summariser's
whitespace handling is modelled without approximation.

What `app.py` does not do:

- No `"Caption unavailable."` fallback exists. Nothing in `summarize_caption`
  catches errors.
- A single image is downloaded from the post's `url` field, not from a
  display URL.
- A media fetch inside `display_post` (app.py:103, 116, 130, 138) takes
  `requests.get(url).content` without checking the HTTP status and without a
  timeout. Only two failures raise: an exception from `requests` itself, and
  an image body that PIL cannot decode (app.py:104, 139). Either one is not
  isolated per item: it raises out of the whole `try`, so the action ends
  with an error. A video whose URL answers with an error status raises
  nothing: the error body is offered as the video file.
- Only the "scan all segments" extraction policy exists. The empty-URL and
  missing-host checks are made by the caller, before extraction.
- A caption whose every line is mentions, hashtags or links summarises to
  `""`, not to the placeholder (`Caption.OnlyTagsGiveEmptySummary`).

## Model

| member | source | states |
|---|---|---|
| Builtins.TrimStart | app.py:88 | `lstrip(chars)`: the result is a suffix of the input; everything dropped is in the set; the result does not start with a dropped character |
| Builtins.TrimEnd | app.py:88 | `rstrip(chars)`: the result is a prefix of the input; everything dropped is in the set; the result does not end with a dropped character |
| Builtins.Trim | app.py:65 | `strip(chars)`: the result neither starts nor ends with a dropped character; it is empty iff every character is dropped; it holds only characters of the input |
| Builtins.TrimIsBlock | app.py:65 | what `strip` returns is one contiguous block of the input, and every character before or after that block is a dropped one |
| Builtins.StrippedBlock | app.py:65 | a prefix of a suffix of `s`, cut only at dropped characters, is such a block of `s` |
| Builtins.TrimEmptyIff | app.py:65 | what `lstrip` then `rstrip` leave is empty iff every character of the input is one they drop |
| Builtins.TrimContained | app.py:88 | `s.strip(chars)` is a substring of `s` |
| Builtins.TrimOfTrimmed | app.py:67 | stripping a string with no strippable character at either end changes nothing |
| Builtins.OccursAtContains | app.py:152 | an occurrence at some index makes `t in s` true |
| Builtins.Contains | app.py:152 | `t in s`: the empty string is in every string, and nothing longer than `s` is in it |
| Builtins.ContainsOccurs | app.py:152 | `t in s` yields an index where `t` occurs |
| Builtins.ContainsIff | app.py:152 | `t in s` iff `t` occurs in `s` at some index (both directions) |
| Builtins.ContainsInSlice | app.py:88 | a string occurring in a slice of `s` occurs in `s` |
| Builtins.IndexOf | app.py:65 | an index no larger than the length, holding the character when it is below the length |
| Builtins.IndexOfFirst | app.py:65 | the character does not occur before IndexOf, so IndexOf is its first occurrence |
| Builtins.Split | app.py:88 | `split(sep)` gives at least one piece, and no piece contains the separator |
| Builtins.SplitWithoutSeparator | app.py:65 | a string without the separator splits into itself alone |
| Builtins.SplitAfterPiece | app.py:88 | a separator-free prefix followed by the separator is split off as the first piece |
| Builtins.Join | app.py:66 | `sep.join(pieces)`; no contract of its own: JoinSplit and SplitJoin make it the inverse of Split |
| Builtins.JoinSplit | app.py:65-66 | `sep.join(s.split(sep)) == s` |
| Builtins.SplitJoin | app.py:65-66 | pieces without the separator, joined by it and split again, come back unchanged (with JoinSplit: `join` is the inverse of `split`) |
| Builtins.SplitCount | app.py:65 | `s.split(sep)` has one piece more than `s` has separators |
| Builtins.SplitUnfold | app.py:88 | when the separator occurs, the pieces are the text before its first occurrence followed by the pieces of the text after it |
| Builtins.SplitPieceAt | app.py:88 | every piece of a split occurs in the split string at a position the lemma returns |
| Builtins.SplitPiecesOccur | app.py:88 | every piece of a split is a substring of the split string |
| Builtins.ClassCount | app.py:59-62 | the characters of a class picked out of `s` hold each character of the class exactly as often as `s` does |
| Builtins.KeepsCount | app.py:59-62 | two strings with the same characters of a class, in the same order, hold each of them equally often |
| Builtins.ClassCharsAfter | app.py:59-62 | a prefix holding no character of the class adds none to what is picked out |
| Builtins.SubsequenceTrans | app.py:59-62 | deleting characters from a result that was itself obtained by deleting characters deletes characters from the original |
| Builtins.DigitChar | app.py:134 | the digit character of a value below 10 denotes that value |
| Builtins.Decimal | app.py:134 | `f"{n}"` is non-empty, all digits, with no leading zero unless `n == 0` |
| Builtins.DecimalRoundTrip | app.py:134 | `int(f"{n}") == n` |
| Builtins.DecimalInjective | app.py:134 | different numbers format differently |
| Caption.RunLength | app.py:59-61 | what a greedy `+` consumes: the longest prefix inside the character class |
| Caption.InMatchShift | app.py:59-61 | when no match runs from before position `n` to `n`, a position at or after `n` is covered by a match in `s` exactly when it is covered in `s[n..]` (both directions) |
| Caption.UncoveredShift | app.py:59-61 | behind such a boundary, what no match covers in `s` from a position on is what no match covers in `s[n..]` from the same character on |
| Caption.CoveredPrefix | app.py:59-61 | a match starting at 0 covers every position of its greedy run, so nothing of that run stays |
| Caption.UncoveredAfterMatch | app.py:59-61 | what stays of `s` after a match at 0 that runs to `n` is what stays of `s[n..]` on its own: matching resumes where the greedy match ended |
| Caption.UncoveredAfterKeep | app.py:59-61 | a first character at which no match starts stays, in front of what stays of the rest |
| Caption.NothingCovered | app.py:59-61 | where no match starts, `re.sub` leaves the text unchanged |
| Caption.SkipMatch | app.py:59-62 | a scan that removes a match holding no character of a class, then scans the rest, deletes characters in order and keeps every character of the class |
| Caption.KeepFirst | app.py:59-62 | a scan that keeps the first character in front of the scan of the rest deletes characters in order and keeps every character of the class |
| Caption.StripMentions | app.py:59 | `re.sub(r"@[A-Za-z0-9_]+", "", s)`: no mention is left; the result is the input with characters deleted, the others in their order; the characters that are neither `@` nor word characters are kept, in the same order and number as in the input; text without `@` is unchanged; the result is exactly what `re.sub` leaves (StripMentionsExact) |
| Caption.StripHashtags | app.py:60 | `re.sub(r"#\S+", "", s)`: no hashtag is left; the result is the input with characters deleted, the others in their order; the whitespace characters are kept, in the same order and number as in the input; text without `#` is unchanged; the result is exactly what `re.sub` leaves (StripHashtagsExact) |
| Caption.StripLinks | app.py:61 | `re.sub(r"http\S+", "", s)`: no link is left; the result is the input with characters deleted, the others in their order; the whitespace characters are kept, in the same order and number as in the input; the leading word never grows; text without `h` is unchanged; the result is exactly what `re.sub` leaves (StripLinksExact) |
| Caption.MentionScanKeeps | app.py:59 | the left-to-right scan that `re.sub(r"@[A-Za-z0-9_]+", "", s)` is: it leaves no match, only deletes characters, keeps the characters no match can hold in order and number, and changes no text without `@` |
| Caption.MentionStartsFrom | app.py:59 | whether a match starts at a position of `s[n..]` is decided by `s[n..]` alone |
| Caption.StripMentionsExact | app.py:59 | `re.sub(r"@[A-Za-z0-9_]+", "", s)` is exactly the characters of the input at the positions no match of the pattern covers, in order |
| Caption.MentionScanExact | app.py:59 | the scan keeps exactly the positions no match covers |
| Caption.SkipCoveredMention | app.py:59 | after a match at the head, the greedy run of word characters is consumed and what stays is what stays of the rest |
| Caption.KeepUncoveredMention | app.py:59 | a head character at which no match starts stays, in front of what stays of the rest |
| Caption.NoMentionUnchanged | app.py:59 | text in which no match starts is unchanged, and stripping twice is stripping once |
| Caption.KeepBeforeMention | app.py:59 | a first character that starts no mention, kept in front of the scan of the rest, starts none either, and the scan's other guarantees carry over |
| Caption.HashtagScanKeeps | app.py:60 | the left-to-right scan that `re.sub(r"#\S+", "", s)` is: it leaves no match, only deletes characters, keeps the characters no match can hold in order and number, and changes no text without `#` |
| Caption.HashtagStartsFrom | app.py:60 | whether a match starts at a position of `s[n..]` is decided by `s[n..]` alone |
| Caption.StripHashtagsExact | app.py:60 | `re.sub(r"#\S+", "", s)` is exactly the characters of the input at the positions no match of the pattern covers, in order |
| Caption.HashtagScanExact | app.py:60 | the scan keeps exactly the positions no match covers |
| Caption.SkipCoveredHashtag | app.py:60 | after a match at the head, the greedy run of non-whitespace characters is consumed and what stays is what stays of the rest |
| Caption.KeepUncoveredHashtag | app.py:60 | a head character at which no match starts stays, in front of what stays of the rest |
| Caption.NoHashtagUnchanged | app.py:60 | text in which no match starts is unchanged, and stripping twice is stripping once |
| Caption.KeepBeforeHashtag | app.py:60 | the same for a first character that starts no hashtag |
| Caption.HashtagMatchChars | app.py:60 | a hashtag match holds no whitespace |
| Caption.LinkScanKeeps | app.py:61 | the left-to-right scan that `re.sub(r"http\S+", "", s)` is: it leaves no match, only deletes characters, keeps the characters no match can hold in order and number, and changes no text without `h` |
| Caption.LinkStartsFrom | app.py:61 | whether a match starts at a position of `s[n..]` is decided by `s[n..]` alone |
| Caption.StripLinksExact | app.py:61 | `re.sub(r"http\S+", "", s)` is exactly the characters of the input at the positions no match of the pattern covers, in order |
| Caption.LinkScanExact | app.py:61 | the scan keeps exactly the positions no match covers |
| Caption.SkipCoveredLink | app.py:61 | after a match at the head, the greedy run of non-whitespace characters is consumed and what stays is what stays of the rest |
| Caption.KeepUncoveredLink | app.py:61 | a head character at which no match starts stays, in front of what stays of the rest |
| Caption.NoLinkUnchanged | app.py:61 | text in which no match starts is unchanged, and stripping twice is stripping once |
| Caption.LinkAtHead | app.py:61 | a link at the head lies inside the leading word: the word holds at least `http` and one more character |
| Caption.SkipLink | app.py:61 | the scan resumes after a link at a blank or at the end, so the removal cannot lengthen the leading word |
| Caption.LinkMatchChars | app.py:61 | a link match holds no whitespace |
| Caption.KeepBeforeLink | app.py:61 | a first character that starts no link, kept in front of the link-free scan of the rest, forms no link with what follows, and the leading word stays a prefix of the input's |
| Caption.NoLinkInFront | app.py:61 | a string whose leading word is a prefix of that of `s` starts a link only where `s` does |
| Caption.StripNonAscii | app.py:62 | `re.sub(r"[^\x00-\x7F]+", "", s)`: the result is ASCII and is the input with characters deleted, the others in their order; the ASCII characters are kept, in the same order and number as in the input, so the result is exactly the input's ASCII characters; ASCII text is unchanged |
| Caption.CleanText | app.py:59-62 | the four substitutions, applied in the source's order, give ASCII text |
| Caption.CleaningDeletes | app.py:59-62 | cleaning only deletes characters, keeping the others in order, and keeps every newline, since no pattern can match one |
| Caption.CleaningKeepsLineCount | app.py:59-65 | the cleaned caption splits on `\n` into as many lines as the caption: cleaning never merges or splits lines |
| Caption.KeptLines | app.py:65 | the kept lines are stripped and not blank, no more than the pieces, and ASCII/newline-free when the pieces are |
| Caption.KeptLinesIndex | app.py:65 | no line is lost, added or reordered: line `k` is piece `idx[k]` stripped, the positions increase, and every piece that is not blank once stripped is among them |
| Caption.KeptLinesSelect | app.py:65 | the kept lines are the stripped pieces with the blank ones left out, in order |
| Caption.StrippedPieceAt | app.py:65 | entry `j` of the stripped pieces is piece `j` stripped |
| Caption.SelectsCons | app.py:65 | a stripped piece put in front is kept, at position 0, exactly when it is not blank, and every later position moves up by one |
| Caption.StrippedAsciiLine | app.py:65 | stripping an ASCII line without a newline gives such a line |
| Caption.CleanLines | app.py:59-65 | every kept line of a caption is non-blank, stripped, ASCII and free of newlines |
| Caption.Digest | app.py:66-67 | the digest has no whitespace character at either end |
| Caption.Summarize | app.py:54-67 | `None` and `""` give `"No caption provided."`; every summary is ASCII, has no newline, and has no whitespace at either end (the same function as app.py:74-85) |
| Caption.PlaceholderIsOneStrippedLine | app.py:56 | the placeholder is one stripped ASCII line |
| Caption.DigestIsOneStrippedLine | app.py:66-67 | the digest of clean lines is empty or one stripped ASCII line without a newline |
| Caption.DigestShape | app.py:66-67 | the final `strip()` changes nothing; the digest is exactly "", the line, `l0 + ". " + l1`, or `l0 + ". " + l1 + "..."` for 0, 1, 2 or more lines |
| Caption.DigestOfNone | app.py:66-67 | no lines give the empty digest |
| Caption.DigestOfOne | app.py:66-67 | a single stripped line is its own digest |
| Caption.DigestOfSeveral | app.py:66-67 | with two or more stripped lines, the digest is `l0 + ". " + l1`, followed by `"..."` when there are more |
| Caption.DigestKeepsFirstLines | app.py:66-67 | the digest starts with the first line, then with the first two joined by `". "`; it ends in `"..."` with more than two lines; with at most two it is their join |
| Caption.SummaryKeepsFirstLines | app.py:65-66 | the summary starts with the first kept line, then with the first two joined by `". "`; it ends in `"..."` when more than two lines are kept; with at most two lines it is exactly their join |
| Caption.SummaryIsDigest | app.py:55-67 | a non-empty caption is summarised by the digest of its kept lines |
| Caption.SummaryOfSeveral | app.py:65-67 | a caption with more than two kept lines summarises to the first two joined by `". "` followed by `"..."` |
| Caption.OnlyTagsGiveEmptySummary | app.py:55-67 | a non-empty caption with no kept line summarises to `""`, not to the placeholder |
| Caption.PlaceholderOnlyLiterally | app.py:55-56 | a non-empty caption yields the placeholder text only when its single kept line is that text |
| Caption.DigestPlaceholder | app.py:66-67 | the digest equals the placeholder only for the single line that is the placeholder |
| Caption.NoSeparatorInPlaceholder | app.py:56 | the placeholder contains no `'.'` before its last character |
| Caption.NotJoinedPlaceholder | app.py:56-66 | no two lines joined by `". "` spell the placeholder |
| Caption.PlainTextIsClean | app.py:59-62 | text that is ASCII, with no `@`, no `#` and no `http` followed by a non-blank, passes all four substitutions unchanged |
| Caption.NoLinkWithoutH | app.py:61 | text without `h` starts no link |
| Caption.NoLinkAcrossLines | app.py:61 | two texts without a link, joined by a newline, hold none: a link never spans a newline |
| Caption.SingleLineKept | app.py:65 | clean text that is one stripped line is kept as that one line |
| Caption.PlainLineIsOwnSummary | app.py:54-67 | a caption that is one stripped line, ASCII, with no `@`, no `#` and no link, is kept as that line and is its own summary |
| Caption.KeptLinesOfStripped | app.py:65 | lines that are already stripped and non-blank are all kept, unchanged |
| Caption.PlainAcrossLines | app.py:59-62 | two plain texts joined by a newline stay plain |
| Caption.ThreeLinesSplit | app.py:65 | `a\nb\nc` splits into `[a, b, c]` |
| Caption.ThreePlainLinesClean | app.py:59-62 | three plain lines pass the substitutions unchanged |
| Caption.ThreePlainLinesKept | app.py:59-65 | three plain lines are kept as they are |
| Caption.ThreePlainLines | app.py:54-67 | three plain lines summarise to `a + ". " + b + "..."` |
| Caption.HelloWorldSummary | app.py:54-67 | `"Hello world\nSecond line\nThird line"` summarises to `"Hello world. Second line..."` |
| Caption.LineWithoutHIsPlain | app.py:59-62 | `"Hello world"` and `"Second line"` are stripped, plain and without a newline |
| Caption.ThirdLineIsPlain | app.py:61 | `"Third line"` is stripped, plain and without a newline: its `h` is not followed by `ttp` |
| Caption.EllipsisNotOnlyFromTruncation | app.py:66 | `"Wait..."` is kept as one line and summarises to itself, so a trailing `"..."` does not imply more than two lines |
| Shortcode.IsShortcode | app.py:90 | the segment test: longer than five characters, each a letter, digit, `-` or `_`; no contract of its own: HostIsNotShortcode, SchemeIsNotShortcode and ShortcodeHasNoSlash state what it refuses |
| Shortcode.Segments | app.py:88 | every segment of `url.strip("/").split("/")` is a substring of the URL |
| Shortcode.PieceOccurs | app.py:88 | a segment of the stripped URL is a substring of the URL |
| Shortcode.FirstShortcodeIndex | app.py:89-92 | the index of the first segment that qualifies, with none qualifying before it; the length when none qualifies |
| Shortcode.ExtractShortcode | app.py:87-92 | `None` iff no segment qualifies; a result qualifies, occurs in the URL, and is the first qualifying segment |
| Shortcode.CheckUrl | app.py:149-159 | the checks in order: empty iff the URL is ""; not-Instagram iff non-empty without the host; no-shortcode iff it passes both earlier checks and extraction gives `None`; an accepted code is the extracted one |
| Shortcode.HostIsNotShortcode | app.py:90 | `instagram.com` does not qualify (it contains `.`) |
| Shortcode.SchemeIsNotShortcode | app.py:90 | `https:` does not qualify |
| Shortcode.ShortcodeHasNoSlash | app.py:90 | a qualifying segment has no `/` |
| Shortcode.PostPathSegments | app.py:88-91 | `https://instagram.com/p/<code>` splits into five segments, and the code is the first that qualifies |
| Shortcode.PostUrlTrimmed | app.py:88 | `strip("/")` removes only the trailing slash of a canonical post URL |
| Shortcode.PostUrlHasHost | app.py:152 | a canonical post URL contains the host |
| Shortcode.PostUrlAccepted | app.py:149-159 | for every shortcode, `https://instagram.com/p/<code>/` extracts to that code and passes the gate with it |
| Shortcode.NotAUrl | app.py:152-154 | `"not a url"` is refused as not Instagram |
| Media.SlideFileName | app.py:134-144 | a slide's file name starts with the owner and ends in `.mp4` for a video and `.jpg` for an image |
| Media.SlideFileNameInjective | app.py:134-144 | a slide's file name determines its number and whether it is a video |
| Media.SlidesHaveDistinctNames | app.py:126-146 | slides numbered by position have pairwise different file names |
| Media.DistinctSlides | app.py:134-144 | slides with different numbers have different file names |
| Media.SlidesWellNamed | app.py:126-146 | every slide's name starts with the owner and ends in its kind's extension, and no two slides share a name |
| Media.SingleFileName | app.py:109-120 | `owner.jpg` and `owner.mp4` start with the owner and end in their extension |
| Media.EnumerateSlides | app.py:124-146 | one item per node, in node order, numbered from 1, with kind and URL taken from the node; names start with the owner, carry the kind's extension, and are pairwise distinct |
| Media.DisplayPost | app.py:94-146 | the summary of the caption; `GraphImage` gives exactly `owner.jpg` from the post URL; `GraphVideo` gives exactly `owner.mp4` from the video URL; `GraphSidecar` gives the slides; any other typename gives nothing; only slides carry a number; names are distinct |
| Access.AccessDenied | app.py:175-201 | the two refusals that lead to the login form: a private profile not followed, or a required login; no contract of its own: Step and LoginOnlyAfterAccessDenied state what it decides |
| Access.Rank | app.py:170-229 | only a finished action has rank 0 |
| Access.Step | app.py:170-229 | a transition from an unfinished phase lowers the rank and a finished phase stays as it is; a form is awaited only after the anonymous attempt was refused as private or login-required, with that refusal as cause; credentials are tried only after a form was submitted with them |
| Access.Run | app.py:170-229 | the trace starts at the phase, each phase follows from the previous one by a step, only the last is finished, and it has at most rank + 1 phases |
| Access.Escalate | app.py:170-174 | the action starts with the anonymous attempt and runs 2 to 4 phases |
| Access.EscalationTraces | app.py:170-229 | the action is exactly one of four traces: shown anonymously, failed anonymously, form not submitted, or a login attempt |
| Access.LoginOnlyAfterAccessDenied | app.py:175-200 | a credentialed attempt happens only after a private or login-required refusal and a submitted form, uses the submitted credentials, is the third phase, and happens once |
| Access.OtherFailureIsTerminal | app.py:227-229 | any other anonymous failure ends the action at once with that error, with no form and no login |
| Access.LoginFailureIsTerminal | app.py:192-200 | a failing login or credentialed fetch ends the action with that error, with no retry |
| Access.ShownIff | app.py:170-198 | the post is shown iff the anonymous fetch succeeded, or it was refused for access and the credentialed fetch after a submitted form succeeded (both directions) |
| Access.DownloadPost | app.py:148-173 | no instaloader call is made unless the URL passes all three checks; a rejection reports the failing check; an attempt uses the extracted shortcode and runs exactly the escalation, which starts anonymously |
| History.Insert | app.py:280 | inserting gives one entry more and adds exactly that entry (multiset) |
| History.InsertBounded | app.py:280 | inserting entries no newer than a bound gives entries no newer than it |
| History.InsertKeepsOrder | app.py:280 | insertion keeps a newest-first sequence newest first |
| History.ConsKeepsOrder | app.py:280 | an entry no older than any entry of a newest-first sequence may go in front of it |
| History.SortNewestFirst | app.py:280 | `sorted(..., reverse=True)` is newest first and a permutation of the log |
| History.MatchingAppend | app.py:280 | appending an entry extends the entries with its timestamp by that entry |
| History.MatchingOlder | app.py:280 | no entry older than `t` is stamped `t` |
| History.MatchingInsert | app.py:280 | insertion puts an entry after the others with its timestamp |
| History.SortIsStable | app.py:280 | entries with the same timestamp keep their logging order |
| History.DownloadLog.constructor | app.py:29-30 | the log starts empty |
| History.DownloadLog.Append | app.py:248-251 | exactly one entry is added, at the end, and the earlier entries are unchanged |
| History.DownloadLog.RecordProfilePicture | app.py:235-254 | `<username>_dp.jpg` stamped now is appended when the picture was fetched, and nothing otherwise |
| History.DownloadLog.View | app.py:278-285 | the view is newest first, a permutation of the log, stable, and empty exactly when the log is empty |

## Left out

- Streamlit UI: page setup, feature cards, buttons, forms, spinners, `st.stop`, and every rendering call (app.py:13-51 and throughout). Only the decisions they surround are modelled.
- Streamlit's rerun-on-submit: in the real app, the form nested in the `except` branch (app.py:179-200, 205-226) may never see its submission. The access model follows the decision logic as written, with the form's answer as an input.
- instaloader (`Post.from_shortcode`, `Profile.from_username`, `login`, the `Instaloader` settings at app.py:20-26 and 161-167) is a foreign network library. Its answers are the `Access.Environment` input. Login and credentialed fetch are one answer, because `except Exception` treats their failures alike.
- `requests.get` media fetches and PIL `Image.open` decoding are network I/O and image decoding.
- Media.DisplayPost: does not model the fetched bytes, so it offers every item whose fetch returns. That agrees with the source for a video whose URL answers with an HTTP error status: nothing checks the status, and the error body is offered under the video's file name. Two failures do raise in the source: an exception from `requests` itself, and an image body PIL cannot decode (app.py:104, 139). Either one raises out of `display_post` after earlier slides were already rendered, and the `Access` model folds it into a failed attempt (`OtherError`). No fetch sets a timeout, so a stalled fetch can block the action without end; the model assumes every fetch returns.
- The profile viewer (app.py:256-272) only renders remote fields. The profile-picture downloader is kept only for the log entry it appends (`History.DownloadLog.RecordProfilePicture`), with "fetched and decoded" as a boolean input.
- `datetime.now()` and `strftime` (app.py:250, 282) are not modelled: timestamps are plain integers. Nor are the rendered history lines (app.py:281-283) or `DOWNLOAD_DIR` (app.py:17).
- Shortcode.IsShortcodeChar: takes `str.isalnum()` over ASCII letters and digits only. Python also accepts non-ASCII letters and digits, so a URL segment with such characters is rejected here but accepted by the source.
- Caption.SummaryKeepsFirstLines: states "ends in `...`" only in the if direction, "more than two kept lines ⟹ ends in `...`". The converse is false, as Caption.EllipsisNotOnlyFromTruncation shows.
