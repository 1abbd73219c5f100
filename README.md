# LinkedIn post generator: a Dafny model of its core

The program reads the r/artificial RSS feed and keeps the titles published
in the last twelve hours. It asks a local language model for a summary, a
draft post and a proofread, and sanitises the model's replies with
`cleanResponse`. It then shows the post and asks the user whether to post
it to LinkedIn ('p'), regenerate it (anything else) or quit ('q').

The model has four modules:

- `Strings` (`strings.dfy`) models JavaScript whitespace. Both the regex
  class `\s` and `String.prototype.trim` use the ECMAScript WhiteSpace and
  LineTerminator code points. The module also has `trim()`, ASCII
  lower-casing and `Option`.
- `Sanitizer` (`sanitizer.dfy`) models `cleanResponse`: nine global regex
  replacements and a trim, grouped into seven passes. The pair and
  single-character replacements of `*` form one pass, as do those of `_`
  and the two escapes. Each pass is its own left-to-right scan, and the
  passes are composed in the source's order. Passes 1 to 5 delete, pass 6
  escapes and pass 7 trims. As a worked example,
  `<think>x</think>**bold** [a](http://b) _i_ (q)` is cleaned to
  `bold a i \(q\)`: the underscores around `i` are deleted, but the word
  stays (`Sanitizer.CleanResponseSample`).
  - The think pass matches `<think>` and `</think>` ASCII-case-insensitively,
    with a lazy body.
  - The heading pass reads `^` in multiline mode: a position is a line start
    when it follows a line terminator of the text being scanned.
  - The link pass stops the caption at the first `]` and the URL at the
    first `)`.
  - Then come the two escapes, and finally the trim.
- `Feed` (`feed.dfy`) models the recency digest of `getRedditRssFeed`:
  filter on `published >= cutoff`, map to titles, join with `"\n"`. It
  starts from entries that are already parsed. The cutoff is a parameter.
- `Interaction` (`interaction.dfy`) models `askUser`'s normalisation and the
  `main` loop. The loop is a method with a `while` loop over a finite
  sequence of answers. The feed, the clock and the language model are
  functions of a `Services` value, indexed by the round.

## Model

| member | source | states |
|---|---|---|
| Strings.IsLineTerminator | src/index.ts:160 | the ECMAScript line terminators (LF, CR, U+2028, U+2029), after which `^` matches under the `m` flag |
| Strings.IsWhitespace | src/index.ts:160 | the code points of the regex class `\s`, which `trim()` at src/index.ts:29 and src/index.ts:176 also removes: the line terminators, tab, vertical tab, form feed, space, no-break space, U+1680, U+2000 to U+200A, U+202F, U+205F, U+3000 and U+FEFF |
| Strings.Trim | src/index.ts:176 | `trim()` gives the middle part of the string that neither starts nor ends with whitespace; only whitespace is cut from either end |
| Strings.TrimNoSurroundingWhitespace | src/index.ts:176 | trimming text with no whitespace at either end changes nothing |
| Strings.LowerAsciiString | src/index.ts:29 | each ASCII capital is mapped to its lower-case letter; every other character is kept |
| Sanitizer.StartsWithCi | src/index.ts:157 | a text begins with a tag under the `i` flag without `u`: the ASCII letters are compared case-insensitively, every other character exactly |
| Sanitizer.FindCi | src/index.ts:157 | the lazy `[\s\S]*?` search for the closing tag: the result, when there is one, is a position where the tag occurs, and no position before it has one; with no result, no position at all has one |
| Sanitizer.ThinkBlockRemoved | src/index.ts:157 | an opening tag in any case, a body with no closing tag, then the first closing tag: all three are deleted together, and scanning goes on after them |
| Sanitizer.ShortThinkBlockRemoved | src/index.ts:157 | `<think>x</think>` followed by any text is deleted |
| Sanitizer.UnclosedThinkKept | src/index.ts:157 | text with no closing tag is kept whole, opening tags included |
| Sanitizer.NoThinkKept | src/index.ts:157 | text with no opening tag is kept whole |
| Sanitizer.ThinkPassCanFormNewBlock | src/index.ts:157 | the single pass can leave a new `<think>…</think>` block behind: `<thi<think>x</think>nk>y</think>` becomes `<think>y</think>` |
| Sanitizer.StripThink | src/index.ts:157 | the think pass: from a case-insensitive `<think>` with a `</think>` after it, through the nearest such `</think>`, is deleted and the scan goes on after it; otherwise one character is kept; the result is no longer than the input |
| Sanitizer.StripThinkChars | src/index.ts:157 | every character the think pass outputs occurs in its input |
| Sanitizer.StripThinkDeletes | src/index.ts:157 | the think pass only deletes: its output's characters, counted with multiplicity, are among the input's, and it never deletes a backslash without deleting another character |
| Sanitizer.HeadingMarkerLen | src/index.ts:160 | `#{1,6}\s+` tried at one position: it matches exactly when 1 to 6 hashes are followed by whitespace, and the match then covers the hashes and the whole whitespace run after them |
| Sanitizer.HeadingMarkerRemoved | src/index.ts:160 | at a line start, 1 to 6 hashes and the whole whitespace run after them are deleted; the next position is a line start exactly when that run ended in a line terminator |
| Sanitizer.SevenHashesKept | src/index.ts:160 | seven hashes followed by a space are not a heading marker |
| Sanitizer.NoHeadingKept | src/index.ts:160 | text in which no line starts with a heading marker is kept |
| Sanitizer.StripHeadingsFrom | src/index.ts:160 | the heading pass, with a flag saying whether `^` holds at the front: at a line start a heading marker is deleted, otherwise one character is kept; the result is no longer than the input |
| Sanitizer.StripHeadings | src/index.ts:160 | the heading pass as the code calls it, with `^` holding at the front of the input |
| Sanitizer.StripHeadingsChars | src/index.ts:160 | every character the heading pass outputs occurs in its input |
| Sanitizer.StripHeadingsDeletes | src/index.ts:160 | the heading pass only deletes, counted with multiplicity, and never a backslash without another character |
| Sanitizer.RemovePairs | src/index.ts:163 | the `/\*\*/g` and `/__/g` replacements: non-overlapping pairs are deleted left to right; no pair is left in the output, and a first character that is not the marker is kept |
| Sanitizer.RemoveChar | src/index.ts:164 | the `/\*/g` and `/_/g` replacements: the output holds no marker |
| Sanitizer.RemoveCharCounts | src/index.ts:164 | deleting the marker shortens the text by the marker's count and keeps the count of every other character |
| Sanitizer.StripMarker | src/index.ts:163-164 | a marker pass: the pair replacement, then the single-character one |
| Sanitizer.StripMarkerDeletes | src/index.ts:163-164 | a marker pass other than for the backslash only deletes, counted with multiplicity, and keeps the count of backslashes |
| Sanitizer.StripMarkerDeletesAll | src/index.ts:163-164 | deleting the doubled marker and then the single one deletes every occurrence of the marker; the count of every other character is kept |
| Sanitizer.PairsThenSingles | src/index.ts:170-171 | removing pairs first and then single markers equals removing every single marker |
| Sanitizer.LinkMatch | src/index.ts:167 | the link regex tried at the front: when it matches, the text starts with `[`, a non-empty caption without `]`, `](`, a non-empty URL without `)` and `)`, and the match ends at that `)` |
| Sanitizer.CollapseLinks | src/index.ts:167 | the link pass: a match is replaced by its caption and the scan goes on after it; otherwise one character is kept |
| Sanitizer.LinkMatchComplete | src/index.ts:167 | `[caption](url)`, with a non-empty caption that has no `]` and a non-empty URL that has no `)`, is matched through its closing `)`, with the caption as group 1 |
| Sanitizer.LinkCollapsed | src/index.ts:167 | a link `[caption](url)` is replaced by its caption, and scanning goes on after it |
| Sanitizer.NoParenNoLink | src/index.ts:167 | text with no `(` is kept by the link pass |
| Sanitizer.NoBracketNoLink | src/index.ts:167 | text with no `[` is kept by the link pass |
| Sanitizer.CollapseLinksChars | src/index.ts:167 | every character the link pass outputs occurs in its input |
| Sanitizer.CollapseLinksDeletes | src/index.ts:167 | the link pass only deletes, counted with multiplicity, and never a backslash without another character |
| Sanitizer.NoJointNoLink | src/index.ts:167 | text in which no `]` is directly followed by `(` is kept by the link pass |
| Sanitizer.EscapedNoLinkJoint | src/index.ts:167 | when every `(` has a backslash in front, no `]` is directly followed by `(` |
| Sanitizer.Escape | src/index.ts:173 | one escaping replacement: a backslash is put in front of every occurrence of the character |
| Sanitizer.EscapeCounts | src/index.ts:173 | escaping adds one backslash per escaped character and keeps the count of every other character |
| Sanitizer.EscapeAppend | src/index.ts:173 | escaping distributes over concatenation |
| Sanitizer.EscapeParens | src/index.ts:173 | the two chained replacements: `(` is escaped first, then `)` |
| Sanitizer.EscapeOnceLength | src/index.ts:173 | the single escaping scan adds one character per parenthesis |
| Sanitizer.EscapeParensCounts | src/index.ts:173 | the escapes keep the count of each parenthesis, add one backslash per parenthesis and lengthen the text by that much |
| Sanitizer.EscapeParensIsOnePass | src/index.ts:173 | the two chained replaces equal one pass that puts a backslash before every parenthesis |
| Sanitizer.EscapeParensEscapes | src/index.ts:173 | after escaping, every `(` and every `)` has a backslash just before it |
| Sanitizer.UnescapeEscapeParens | src/index.ts:173 | removing the backslash before each parenthesis gives back the text before escaping |
| Sanitizer.TrimKeepsEscaped | src/index.ts:173-176 | trimming keeps every parenthesis escaped |
| Sanitizer.TrimCounts | src/index.ts:176 | trimming keeps the count of every character that is not whitespace |
| Sanitizer.EscapeTrimCounts | src/index.ts:173-176 | after escaping and trimming, the parentheses are as many as before, the backslashes have grown by their number, and the other characters have not grown |
| Sanitizer.Deleted | src/index.ts:157-171 | the five deleting passes in source order: think blocks, heading markers, `*`, links, `_` |
| Sanitizer.DeletedChars | src/index.ts:157-171 | after the five deleting passes there is no `*` and no `_`, and every character was in the input |
| Sanitizer.DeletedDeletes | src/index.ts:157-171 | the five deleting passes together only delete, counted with multiplicity, and never a backslash without another character |
| Sanitizer.DeletedSimple | src/index.ts:157-171 | on text without `<`, `#` or `[` the deleting passes only delete `*` and `_` |
| Sanitizer.DeletedNothing | src/index.ts:157-171 | text without `<`, `#`, `*` or `_`, in which no `]` is directly followed by `(`, is kept by the deleting passes |
| Sanitizer.CleanResponse | src/index.ts:155-177 | `cleanResponse`: the seven passes composed in source order |
| Sanitizer.CleanResponseChars | src/index.ts:155-177 | every output character is in the input or is a backslash |
| Sanitizer.CleanResponseNoAsterisk | src/index.ts:163-176 | the output holds no `*` |
| Sanitizer.CleanResponseNoUnderscore | src/index.ts:170-176 | the output holds no `_` |
| Sanitizer.CleanResponseParensEscaped | src/index.ts:155-177 | every parenthesis in the output has a backslash just before it |
| Sanitizer.CleanResponseTrimmed | src/index.ts:155-177 | the output neither starts nor ends with whitespace |
| Sanitizer.CleanResponsePlainIdentity | src/index.ts:155-177 | text the passes do not touch is returned unchanged |
| Sanitizer.CleanOnlyEscapes | src/index.ts:155-177 | trimmed text without `<`, `#`, `*` or `_`, in which no `]` is directly followed by `(`, is cleaned by escaping alone |
| Sanitizer.CleanTwiceEscapesTwice | src/index.ts:155-177 | when the input has no `<` or `#`, links included, a second cleaning only escapes the parentheses again, and unescaping once undoes it |
| Sanitizer.CleanChangesParenthesised | src/index.ts:155-177 | cleaning changes every text that holds a parenthesis |
| Sanitizer.CleanResponseNotIdempotent | src/index.ts:155-177 | for every input whose cleaned text holds a parenthesis, cleaning that text again changes it |
| Sanitizer.CleanOpenParenTwice | src/index.ts:155-177 | `(` is cleaned to `\(`, and cleaning that again gives `\\(` |
| Sanitizer.LinkPrefixKept | src/index.ts:167 | text before the first `[` passes the link pass unchanged |
| Sanitizer.CleanResponseSample | src/index.ts:155-177 | `<think>x</think>**bold** [a](http://b) _i_ (q)`, in general form, is cleaned to `bold a i \(q\)` |
| Sanitizer.UnclosedThinkSurvives | src/index.ts:157 | `<think>a` comes out of cleaning unchanged |
| Sanitizer.NestedHeadingSurvives | src/index.ts:160 | `# # x` is cleaned to `# x`: the heading pass runs once, so the second `#` stays |
| Sanitizer.CleanAfterFirstPasses | src/index.ts:155-177 | text that the think and heading passes leave without `*`, `_`, `[`, parentheses or outer whitespace is the cleaned result |
| Sanitizer.MidLineHashSurvives | src/index.ts:160 | `a#` comes out of cleaning unchanged |
| Feed.Entry | src/index.ts:43-44 | a parsed feed entry: its title and the instant `new Date(entry.published)` gives, or none when the date does not parse |
| Feed.IsRecent | src/index.ts:44-45 | an entry is recent when its date parses and is at or after the cutoff |
| Feed.FilterRecent | src/index.ts:42-46 | the `.filter` step, scanning the entries in order; the result is no longer than the feed |
| Feed.Titles | src/index.ts:47 | the `.map` step: one title per entry, in order |
| Feed.Join | src/index.ts:49 | `join`: "" for no parts, the one part for one, and the parts with the separator between them otherwise |
| Feed.RecentDigest | src/index.ts:42-49 | the digest: filter, map to titles, join with newlines |
| Feed.FilterRecentMembers | src/index.ts:42-46 | an entry is kept exactly when it is in the feed and published at or after the cutoff |
| Feed.FilterRecentAppend | src/index.ts:42-46 | filtering distributes over concatenation, so feed order is kept |
| Feed.RecentPositions | src/index.ts:42-46 | the positions of the recent entries, strictly increasing, each recent position included |
| Feed.FilterKeepsRecentInOrder | src/index.ts:42-46 | the kept entries are exactly the entries at the recent positions, once each, in order |
| Feed.DigestIsRecentTitles | src/index.ts:42-49 | the digest is the titles of the recent entries, in feed order, joined by newlines |
| Feed.DigestEmptyWhenNoneRecent | src/index.ts:42-49 | with no recent entry the digest is "" |
| Feed.FilterKeepsAllRecent | src/index.ts:42-46 | when every entry is recent, the filter keeps them all |
| Feed.SplitJoin | src/index.ts:49 | splitting the digest at newlines gives back the titles when there is at least one and none contains a newline |
| Feed.DigestBoundary | src/index.ts:44-45 | an entry published exactly at the cutoff is kept; one a unit earlier, or with an unparseable date, is dropped |
| Interaction.NormalizeAnswer | src/index.ts:29 | the answer trimmed, then lower-cased; as long as the trimmed answer |
| Interaction.Choose | src/index.ts:196-202 | the branches of `main`: "p" publishes, "q" quits, anything else regenerates |
| Interaction.ChooseNormalized | src/index.ts:196-202 | comparing the trimmed, lower-cased answer with "p" and "q" publishes exactly on a trimmed p or P and quits exactly on a trimmed q or Q |
| Interaction.EmptyAnswerRegenerates | src/index.ts:196-202 | the empty answer regenerates |
| Interaction.OtherAnswerRegenerates | src/index.ts:196-202 | the answer 'r' regenerates |
| Interaction.PaddedUpperPublishes | src/index.ts:29 | `" P\n"` publishes |
| Interaction.AskUser | src/index.ts:20-31 | returns the trimmed, lower-cased answer, whose p/q comparison decides as intended |
| Interaction.Services | src/index.ts:184-188 | what a round reads from outside: the feed entries and the twelve-hour cutoff at that round, and the language model's reply to each of the three requests |
| Interaction.RoundPost | src/index.ts:184-189 | a round's post: digest, summary, draft, clean, proofread, clean |
| Interaction.RoundPostSanitized | src/index.ts:184-189 | whatever the language model replies, the shown post has no `*` or `_`, has its parentheses escaped and is trimmed |
| Interaction.GeneratePost | src/index.ts:184-189 | one round's pipeline gives the next post in the sequence of shown posts, with no `*` or `_`, its parentheses escaped, and trimmed |
| Interaction.FirstDecisive | src/index.ts:194-202 | the position of the first answer that publishes or quits, or the number of answers when there is none |
| Interaction.FirstDecisiveIsFirst | src/index.ts:194-202 | every answer before the first decisive one regenerates, and that one publishes or quits |
| Interaction.FirstDecisiveIgnoresLater | src/index.ts:194-202 | answers after the first decisive one are never consulted |
| Interaction.PostsStep | src/index.ts:183-189 | each round adds its own post to the shown posts |
| Interaction.PostsAreRounds | src/index.ts:183-189 | the k-th shown post is round k's post |
| Interaction.RunMain | src/index.ts:180-203 | the loop runs one round per answer up to and including the first decisive one, shows one post per round, publishes the last post exactly when that answer is 'p', and publishes nothing otherwise |

## Left out

- The HTTP calls are left out: the feed download, the three language-model requests and the LinkedIn `POST`. The feed and the language model's replies are functions of `Services`. No reply to the LinkedIn `POST` is modelled: publishing is an append to `published` in `RunMain`.
- The XML parsing of the feed is left out. The model starts from a sequence of `Entry` values.
- Date handling is left out: `new Date()`, `setHours(getHours() - 12)` and the parsing of `entry.published`. The cutoff is a parameter of each round. An unparseable date is `None`, which is never recent, as `Invalid Date >= x` is false.
- Feed entries that are missing or not arrays, and titles that are not strings, are left out. An entry is a string title and an optional timestamp.
- Loading dotenv and checking the environment variables at start-up are left out. They are configuration, not part of the loop.
- readline and console output are left out. The answers are an input sequence, and the shown posts are an output sequence.
- `postToLinkedIn`'s payload, headers and error logging are left out. A 'p' answer publishes the shown post and ends the loop, whether or not the request succeeds.
- Asynchrony is left out, along with the errors a failed request throws out of `main` (caught at src/index.ts:206). With no errors, the model's rounds always complete.
- The prompt templates and the model names in the three language-model calls are left out.
- Strings.LowerAsciiString: lower-cases ASCII letters only, while `toLowerCase` follows full Unicode. It is used only for the answer, where this does not change the decision (next line).
- Interaction.NormalizeAnswer: lower-cases ASCII letters only, while `toLowerCase` follows full Unicode. No other character lower-cases to "p" or "q", so the branch decision, `Decide`, is exact.
- Strings are sequences of Unicode scalar values. JavaScript works on UTF-16 code units, and the two differ only for characters outside the Basic Multilingual Plane, which none of the regexes name.
- Interaction.RunMain: when the answers run out, the loop stops with `decided == false`. The program would instead wait at the prompt.
- Sanitizer.CleanTwiceEscapesTwice: it requires an input without `<` and `#`. With them the second cleaning can delete more: one pass of the think regex can leave a new block (`Sanitizer.ThinkPassCanFormNewBlock`), and deleting a heading marker can leave a `#` at the front of a line. That cleaning changes cleaned text holding a parenthesis is proved for every input (`Sanitizer.CleanResponseNotIdempotent`).
- Interaction.GeneratePost: its contract says the result extends `Posts` by one rather than naming `RoundPost`. `PostsAreRounds` connects the two.

## Where the comments and the code disagree

The model follows the code.

- The comment at src/index.ts:156 says the think blocks are removed, and the one at src/index.ts:159 says the lines starting with `#` lose their heading marker. The code does not remove all of them:
  - an opening tag with no closing tag stays (`Sanitizer.UnclosedThinkSurvives`);
  - one pass can form a new block from the parts it leaves (`Sanitizer.ThinkPassCanFormNewBlock`);
  - deleting a heading marker can leave another `#` at the front of the line, and that one stays: `# # x` is cleaned to `# x` (`Sanitizer.NestedHeadingSurvives`).

As the comment says, a `#` in the middle of a line is not a heading marker, and it stays (`Sanitizer.MidLineHashSurvives`).
