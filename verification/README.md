# fontship string normalisers in Dafny

This project models the pure string normalisers of fontship, a release helper for font projects (`src/lib.rs`):

- `format_font_version` strips a packaging-revision suffix. It replaces the regex `-r.*$` by nothing, so `1.002-r3` becomes `1.002`.
- `locale_to_language` folds a BCP 47 or POSIX locale tag to its language subtag (section 2.2.1 of RFC 5646). It lower-cases the tag and replaces `[-_\.].*$` by nothing. The POSIX locale `c` becomes `en`.
- `pname` folds a project name into one PascalCase token. It turns `-` and `_` into spaces, title-cases the text and deletes every space.
- `commit` builds its message as `["[fontship]", msg].join(" ")`.

Modules:

- `Regex` (regex.dfy) models the two regex shapes used, with the matching rules of Rust's `regex` crate. `replace` removes only the leftmost match. `.` matches anything except a line feed. `$` matches only at the end of the text. So a match of `P.*$` at position i needs no line feed after P. The model follows this exactly and adds no precondition that excludes line feeds.
- `Text` (text.dfy) holds ASCII case mapping, `split` and `join`.
- `Inflector` (inflector.dfy) is the assumed title case.
- `ProjectName` (project_name.dfy), `Version` (version.dfy), `Locale` (locale.dfy) and `Commit` (commit.dfy) model the four operations.

Each operation has a partner that is defined independently, and a lemma connects the two:

- `Version.FormatFontVersion` and `Locale.Stem` are characterised by the leftmost match position.
- `ProjectName.Pname` is proved equal to `ProjectName.PascalFrom`, a one-pass PascalCase definition.
- The word-by-word title case is proved equal to a one-pass, character-by-character title case.

Three facts about the code that are easy to miss:

- `format_font_version` cuts at the first `-r` that has no line feed after it, wherever it sits in the text, not only at the end. For example, `1.0-r2-beta` becomes `1.0`. `1.0-r2\n` is left unchanged.
- `locale_to_language("")` is `""`. The function never substitutes a default for an empty tag.
- `pname` is not idempotent under the title case modelled here: `a-b` becomes `AB`, and `AB` becomes `Ab`. It is idempotent on single-word names.

## Model

| member | source | states |
|---|---|---|
| `Regex.FirstMatch` | src/lib.rs:109-110 | the leftmost start position (from a given position on) where `p.*$` matches, or the text's length when the pattern matches nowhere; no earlier position matches |
| `Regex.ReplaceFirstToEnd` | src/lib.rs:109-110 | `replace` of `p.*$` by nothing yields a prefix of the text. Its length is the leftmost match position, and no match starts earlier. The text comes back unchanged exactly when the pattern matches nowhere |
| `Regex.NoMatchInResult` | src/lib.rs:109-110 | if no class of the pattern admits a line feed, the text left after the replacement contains no match |
| `Regex.ReplaceFirstIdempotent` | src/lib.rs:109-110 | removing the first match a second time changes nothing |
| `Regex.ReplaceFirstPlain` | src/lib.rs:99-101 | on text without a line feed, the result is the text cut at the first occurrence of the pattern's classes |
| `Regex.ReplaceAll` | src/lib.rs:69-72 | every character of the result of `replace_all` comes from the replacement, or is a character of the input outside the class |
| `Regex.ReplaceAllAt` | src/lib.rs:69-71 | with a one-character replacement, the length is kept and each character in the class is replaced in place |
| `Regex.ReplaceAllConcat` | src/lib.rs:69-72 | `replace_all` rewrites the text left to right: the result for `a + b` is the result for `a` followed by the result for `b` |
| `Regex.ReplaceAllOne` | src/lib.rs:69-72 | a single character in the class becomes the replacement, and any other character is kept |
| `Regex.ReplaceAllDeletes` | src/lib.rs:72 | `replace_all` with the empty replacement leaves no character of the class, and every other character keeps its count |
| `Text.ToLower` | src/lib.rs:100 | an upper-case ASCII letter becomes its own lower-case letter (code point plus 32); every other character is unchanged |
| `Text.ToUpper` | src/lib.rs:71 | a lower-case ASCII letter becomes its own upper-case letter (code point minus 32); every other character is unchanged |
| `Text.Join` | src/lib.rs:92 | `join` of one piece is that piece, and `join` of two pieces is the first, the separator, then the second |
| `Text.Lowercase` | src/lib.rs:100 | `to_lowercase` keeps the length of the text |
| `Text.LowercaseAt` | src/lib.rs:100 | after `to_lowercase`, no upper-case ASCII letter is left; each upper-case letter became its own lower-case letter, and every other character is unchanged |
| `Text.LowercaseIdempotent` | src/lib.rs:100 | lower-casing twice gives the same text as lower-casing once |
| `Inflector.TitleCase` | src/lib.rs:71 | the assumed `to_title_case` keeps the length, and a space is in the result exactly where a space was in the input |
| `Inflector.TitleCaseIsOnePass` | src/lib.rs:71 | the assumed word-by-word `to_title_case` (split on spaces, capitalise, join on spaces) equals a one-pass title case |
| `Inflector.TitleCaseAt` | src/lib.rs:71 | title case keeps the length; a character is upper-cased exactly when it starts the text or follows a space, and every other character is lower-cased |
| `ProjectName.PascalFrom` | src/lib.rs:68-73 | the one-pass PascalCase output contains no space, hyphen or underscore |
| `ProjectName.Pname` | src/lib.rs:68-73 | `pname` equals one-pass PascalCase (`ProjectName.PascalFrom`): breaks (space, `-`, `_`) are dropped, a character after a break or at the start is upper-cased, and the others are lower-cased |
| `ProjectName.PnameHasNoBreaks` | src/lib.rs:70-72 | the output of `pname` contains no space, hyphen or underscore |
| `ProjectName.PnameSeparatorIsSpace` | src/lib.rs:69-71 | replacing any `-` or `_` in the input with a space leaves the result of `pname` unchanged |
| `ProjectName.PnameOneWord` | src/lib.rs:68-73 | a name without breaks comes out capitalised, and `pname` of that result is the same result |
| `ProjectName.PascalFromWordThenBreak` | src/lib.rs:69-72 | a word followed by a break folds on its own, and the text after the break starts a new capitalised word |
| `ProjectName.PnameSampleMyFontName` | src/lib.rs:68-73 | `pname` of `my-font_name`, given as its words joined by their separators, is `MyFontName` |
| `ProjectName.PnameSampleAlreadyTitle` | src/lib.rs:68-73 | `pname` of `already Title`, given as its words joined by a space, is `AlreadyTitle` |
| `ProjectName.PnameJoinsWords` | src/lib.rs:68-73 | `pname("a-b")` is `AB` |
| `ProjectName.PnameLowersInnerCapital` | src/lib.rs:68-73 | `pname("AB")` is `Ab` |
| `ProjectName.PnameNotIdempotent` | src/lib.rs:68-73 | under the assumed title case, folding `a-b` twice differs from folding it once |
| `Version.FormatFontVersion` | src/lib.rs:108-111 | the result is a prefix of the version. When it is shorter, it ends just before the first `-r` that has no line feed after it. The version comes back unchanged exactly when it has no such `-r` |
| `Version.FormatFontVersionIdempotent` | src/lib.rs:109-110 | applying `format_font_version` twice gives the same result as applying it once |
| `Version.FormatFontVersionCutsAtFirstMarker` | src/lib.rs:108-111 | on a single line, the result is exactly the part before the first `-r` |
| `Version.FormatFontVersionWithoutMarker` | src/lib.rs:109-110 | a version with no `-r` comes back unchanged |
| `Version.FormatFontVersionDropsRevision` | src/lib.rs:108-111 | `1.002-r3` becomes `1.002` |
| `Version.FormatFontVersionKeepsPlainVersion` | src/lib.rs:108-111 | `1.002` stays `1.002` |
| `Version.FormatFontVersionKeepsMarkerBeforeLineFeed` | src/lib.rs:109 | a `-r` followed by a line feed is not a match, so `1.0-r2\n` is unchanged |
| `Locale.Stem` | src/lib.rs:99-101 | the lower-cased tag without its suffix is a prefix of the lower-cased tag. When it is shorter, it ends at the first separator that has no line feed after it |
| `Locale.StemHasNoSuffix` | src/lib.rs:99-101 | a separator left in the stem always has a line feed after it |
| `Locale.LocaleToLanguage` | src/lib.rs:98-106 | the result is `en` when the stem (the lower-cased tag cut at its first suffix) is `c`, and the stem otherwise. It has no upper-case ASCII letter. Any separator left in it has a line feed after it. The empty tag gives the empty string |
| `Locale.LocaleToLanguageFirstSuffix` | src/lib.rs:98-106 | for every tag, including tags with line feeds, the result is the lower-cased tag cut at the first separator with no line feed after it (all of it when there is none), and `en` when that cut is `c` |
| `Locale.LocaleToLanguageCut` | src/lib.rs:98-106 | on a single line, the result is the lower-cased text before the first `-`, `_` or `.` (all of it when there is none). When that text is `c`, the result is `en` |
| `Locale.LocaleToLanguageIdempotent` | src/lib.rs:98-106 | folding a language code again changes nothing |
| `Locale.LocaleToLanguageRegion` | src/lib.rs:98-106 | `en-US` gives `en` |
| `Locale.LocaleToLanguagePosix` | src/lib.rs:102-103 | `C` gives `en` |
| `Locale.LocaleToLanguagePosixWithEncoding` | src/lib.rs:99-103 | `C.UTF-8` gives `en` |
| `Locale.LocaleToLanguageRegionAndEncoding` | src/lib.rs:99-104 | `fr_FR.UTF-8` gives `fr` |
| `Locale.DefaultLocaleLanguage` | src/lib.rs:31-32 | the default locale `en-US` folds to `en` |
| `Commit.Message` | src/lib.rs:92 | the commit message is exactly `[fontship] ` followed by the caller's message, unchanged |
| `Commit.MessageInjective` | src/lib.rs:92 | different caller messages give different commit messages |
| `Commit.MessageExample` | src/lib.rs:82-92 | `did work` becomes `[fontship] did work` |

## Left out

- `commit` (src/lib.rs:81-96): only the message string is modelled. It resolves the signature, the HEAD commit and the tree, and writes the commit through `git2`. That library does I/O and its code is not part of this model.
- `get_repo`: configuration lookup and filesystem discovery of the repository.
- The `VERSION` lazy static and the `CONFIGURE_*` statics: build-time environment values.
- `Error` and its `Display` and `Error` implementations: they wrap localised text from the `i18n` module, which is not part of this model.
- `show_welcome`, `show_outro`, `show_header`, `display_check` and `fmt_t_f`: coloured, localised output to stderr.
- `bytes2path`: conversion between bytes and operating-system paths.
- Text.ToLower: models Rust's Unicode `to_lowercase` on ASCII letters only. Every other character is left unchanged, so no character changes the length of the text.
- Text.ToUpper: models Rust's Unicode upper-casing on ASCII letters only. Every other character is left unchanged, so a word starting with `é` keeps its `é`.
- Inflector.TitleCase: models `to_title_case` from the `inflector` crate as an assumption, because the crate's source is not part of this model. The assumption is: split on spaces, upper-case the first character of each word and lower-case the rest (ASCII letters only, through `Text.ToUpper` and `Text.ToLower`), and join with spaces. The real crate also splits camel-case words and treats other punctuation as word breaks. Those rules are not modelled.
- ProjectName.PnameNotIdempotent: proved only under the title case modelled here. The `inflector` crate documents `FOO_BAR` becoming `Foo Bar`, so it lower-cases a run of capitals the same way, and `pname("AB") == "Ab"` very likely holds in the program too. Its source is not part of this model, so this is not proved about the crate. Idempotence is proved only for single-word names (`ProjectName.PnameOneWord`).
