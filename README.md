# arxiv-fetcher, modelled in Dafny

`fetcher.py` reads the arXiv digest e-mails in an IMAP inbox and turns each digest into a
list of `(title, abstract, link)` triples. It then saves every paper's abstract and PDF.
This project models the part that decides which messages are read and what is extracted
from them:

- reading the `.credentials` file;
- the `.ignore` file of uids (parsing it, and appending to it);
- the scan of the inbox in `read_all_messages`: newest first, ignored uids skipped, digests
  from `no-reply@arxiv.org` kept, every other sender added to the ignore file;
- `extract_texts`, which cuts a digest body into entries at its horizontal rules;
- `parse_text`, which reads one entry;
- the aggregation loop of `fetch_paper_data`;
- the rewrite of an abstract link into a PDF link in `save_papers`.

Modules, one per file:

- `PyStr` (`pystr.dfy`): the Python string operations the script relies on, with the
  semantics CPython gives them:
  - `str.split` and `re.split('[-][-]+\r\n', ...)`, both a leftmost, non-overlapping scan;
  - `str.join` and `str.replace`;
  - `strip`, with CPython's `isspace` set;
  - `lower`, `startswith`, `int()` and `str()` of an integer;
  - slicing past the end.
- `PyDict` (`pydict.dfy`): a Python `dict` keyed by uid, with its insertion order. That
  order decides the order of the uid list.
- `IgnoreList` (`ignore.dfy`): the ignore file as a class over its text.
- `Mailbox` (`mailbox.dfy`): the scan as a specification function `ScanFrom`, and the
  imperative `ReadAllMessages` loop proved against it.
- `Digest` (`digest.dfy`): `extract_texts` on one body, and `parse_text`.
- `Fetcher` (`fetcher.py`'s remaining logic, in `fetcher.dfy`): credentials, the PDF link,
  `extract_texts` over the dictionary, and `fetch_paper_data`.

The mailbox is an input. It is the sequence of fetched messages in the order the IMAP
search lists them. Each message has its uid, its optional From and Subject headers, and
its body.

The model follows what the code does, also where that differs from what its names suggest:

- The first field of a parsed entry is the entry's first line with six characters cut off.
  In arXiv's layout that line is `arXiv:<id>`, so the field holds the paper id, not a
  title. `ParseLaidOutEntry` states it for any six-character tag.
- No field of a parsed entry is guaranteed to be non-empty. The code checks only that the
  indexing succeeds.
- The link is the third space-separated token after the second `\\` line (index 2 of
  the split), whatever the first two tokens are.

## Model

| member | source | states |
|---|---|---|
| Fetcher.ReadCredentials | fetcher.py:50-57 | the file is accepted exactly when its stripped text splits into at least three lines at `\n`; fewer raise IndexError (None) |
| Fetcher.CredentialsNeedTwoNewlines | fetcher.py:50-57 | the credentials are read exactly when the stripped file holds at least two line feeds |
| Fetcher.CredentialsRoundTrip | fetcher.py:50-57 | a file written as `server\nemail\npassword` (no line feed inside a field, no whitespace at the outer ends) reads back as exactly those three fields |
| Fetcher.CredentialsCRLF | fetcher.py:50-57 | a credentials file written with CR LF line ends reads exactly like the same file written with LF, because text mode translates the line ends |
| IgnoreList.ParseLines | fetcher.py:68-71 | the lines parse exactly when every non-empty line is an integer for `int()`, and then the set holds the value of every non-empty line |
| IgnoreList.ParseLinesOrigin | fetcher.py:68-71 | every value in the set is `int()` of some non-empty line, so with `ParseLines` the set is exactly the values of the non-empty lines |
| IgnoreList.ParseIgnoreList | fetcher.py:67-71 | `get_ignored_messages` splits the text as read in text mode; a file without CR is split as written |
| IgnoreList.Record | fetcher.py:76 | a record is a line feed followed by one or more ASCII digits, with no further line end and no CR |
| IgnoreList.ParseLinesAppend | fetcher.py:67-71 | parsing the lines of two blocks gives the union of the two parses; a bad line anywhere makes the whole parse fail |
| IgnoreList.EmptyLineIgnored | fetcher.py:67-71 | an empty line adds nothing to the parsed set, whatever line end precedes it |
| IgnoreList.EmptyFile | fetcher.py:67-71 | an empty ignore file parses to the empty set |
| IgnoreList.AppendLine | fetcher.py:67-76 | on text as read, a record adds exactly its uid to the parsed set |
| IgnoreList.EmptyLineSkipped | fetcher.py:68-70 | on text as read, a trailing empty line is dropped by `if x` |
| IgnoreList.RecordLine | fetcher.py:71 | the decimal text of a uid is one line and parses back to that uid |
| IgnoreList.AppendRecord | fetcher.py:67-76 | parsing `contents + "\n" + str(uid)` gives the parse of contents plus {uid}, also when contents ends in CR or CR LF; a file that did not parse still does not |
| IgnoreList.AppendRecordTwice | fetcher.py:67-76 | appending the same uid twice parses to the same set as appending it once |
| IgnoreList.AppendRecords | fetcher.py:67-76 | appending records for a list of uids adds exactly those uids to the parsed set |
| IgnoreList.IgnoreFile.Append | fetcher.py:74-76 | `ignore_message`: the file gains exactly the line `\n<uid>`, and its parsed set gains exactly the uid |
| IgnoreList.IgnoreFile.Ignored | fetcher.py:80 | `get_ignored_messages()` on the file as it now stands: it succeeds exactly when every non-empty line of the newline-translated text passes `ParseInt`, and then every such line's value is in the set |
| Mailbox.IsArxivSender | fetcher.py:106 | the sender test; an accepted sender is at least as long as `no-reply@arxiv.org` |
| Mailbox.ArxivSenderPrefix | fetcher.py:106 | a sender is accepted exactly when its first 18 characters, lower-cased, are `no-reply@arxiv.org` |
| Mailbox.ArxivSenderExtends | fetcher.py:106 | whatever follows an accepted address, the sender is still accepted |
| Mailbox.ArxivSenderIgnoresCase | fetcher.py:106 | lower-casing the header first does not change the decision |
| Mailbox.ReadAllMessages | fetcher.py:79-112 | a malformed ignore file fails before anything is written. Otherwise the result and the new ignore file are those of the scan specification: the refused uids are appended in visiting order, and the parsed ignore set gains exactly them. A message without From stops the run with an error after the earlier appends |
| Mailbox.Step | fetcher.py:85-110 | one message: once the scan is stopped or the uid is ignored nothing changes; no From stops the scan at that uid; a message from arXiv is stored in both dictionaries under its uid; any other message has its uid appended to the ignore list |
| Mailbox.ScanFrom | fetcher.py:84-110 | the scan of the listing from its newest message back to message i; every message adds at most one uid to the ignore list or the dictionaries |
| Mailbox.StoppedStays | fetcher.py:104-106 | after a message without a From header aborts the scan, older messages change nothing |
| Mailbox.ScanValid | fetcher.py:107-108 | both dictionaries stay well-formed and always have the same keys in the same order |
| Mailbox.ScanKeptOrigin | fetcher.py:84-108 | every key of the dictionaries is the uid of a message that is not ignored and is from arXiv |
| Mailbox.ScanRefusedOrigin | fetcher.py:84-110 | every uid appended to the ignore file is the uid of a message that is not ignored and is from another sender |
| Mailbox.FreshUid | fetcher.py:84-108 | with distinct uids, a message's uid is not yet a key when it is visited |
| Mailbox.ScanNewestFirst | fetcher.py:84-110 | with distinct uids and no abort, the dictionaries list the kept uids in reverse listing order, and the refused uids are appended in reverse listing order |
| Mailbox.ScanRecordsKept | fetcher.py:104-108 | with distinct uids and no abort, every kept message's body and subject are stored under its uid |
| Mailbox.ScanStops | fetcher.py:84-106 | the scan aborts exactly when some message that is not ignored has no From header, and then at the newest such message |
| Digest.Keep | fetcher.py:118-119 | the filtered list is never longer than the list of pieces |
| Digest.IsPaperBlock | fetcher.py:117-119 | `filterer.match(x)` holds exactly when the piece starts with two backslashes and a CR (the `\n*` after the CR also matches zero line feeds) |
| Digest.KeepOne | fetcher.py:118-119 | one piece is kept, minus its first 4 characters, exactly when it starts with `\\` and CR; with `KeepAppend` this fixes the filter on every list |
| Digest.ExtractBlocks | fetcher.py:116-119 | a body yields at most as many blocks as it has rule-separated pieces |
| Digest.KeepAppend | fetcher.py:118-119 | the filter works piece by piece and keeps the order |
| Digest.KeepMembers | fetcher.py:118-119 | every kept block is a piece starting with `\\` and CR, minus 4 characters, and every such piece is kept |
| Digest.ExtractedBlockHasNoRule | fetcher.py:116-119 | no extracted block contains a horizontal rule |
| Digest.KeepEntries | fetcher.py:117-119 | marker-prefixed entries are kept as exactly those entries |
| Digest.ExtractLaidOutDigest | fetcher.py:115-120 | a digest laid out as a header, rule-separated entries and a footer yields exactly its entries, in order |
| Digest.ParseText | fetcher.py:123-132 | `parse_text` returns None exactly when there are fewer than three `\r\n\\\\` parts, or the third part has fewer than three space-separated tokens |
| Digest.ParsedFieldsClean | fetcher.py:125-130 | a parsed abstract has no CRLF and no whitespace at either end, the link has no space, and the title has no CRLF |
| Digest.NoBackslashRejected | fetcher.py:125-132 | an entry without a backslash is rejected |
| Digest.ParseLaidOutEntry | fetcher.py:123-130 | an entry laid out as tag+title line, header, `\\`, abstract, `\\`, then two tokens, the link and more text, parses to that title, the abstract with CRLFs made spaces and stripped, and that link |
| Digest.OneLineAbstract | fetcher.py:128 | replacing CRLF by a space and stripping leaves no CRLF |
| Fetcher.PdfLink | fetcher.py:172 | the PDF link always ends in `.pdf` |
| Fetcher.PdfLinkOfAbsPage | fetcher.py:172 | `<site>/abs/<id>` becomes `<site>/pdf/<id>.pdf` when the site holds no `b` and the id no `/abs/` (old-style ids such as `q-bio/0401001` included) |
| Fetcher.PdfLinkExample | fetcher.py:172 | `http://arxiv.org/abs/1234.5678` becomes `http://arxiv.org/pdf/1234.5678.pdf` |
| Fetcher.ExtractTexts | fetcher.py:115-120 | `extract_texts` keeps the key set and key order and replaces every body by its extracted blocks |
| Fetcher.Somes | fetcher.py:144-146 | the filtered list is never longer than the list of results |
| Fetcher.SomesMembers | fetcher.py:144-146 | the `if val:` filter keeps exactly the present values |
| Fetcher.SomesAppend | fetcher.py:143-146 | the filter works block by block and keeps the order |
| Fetcher.Papers | fetcher.py:143-146 | a message yields at most one paper per block |
| Fetcher.PapersMembers | fetcher.py:143-146 | a paper is in a message's list exactly when one of its blocks parses to it |
| Fetcher.PapersAllParsed | fetcher.py:143-146 | when every block parses, the list is every parse in block order |
| Fetcher.PapersAppend | fetcher.py:143-146 | the list for two runs of blocks is the concatenation of their lists |
| Fetcher.ParseBlocks | fetcher.py:143-146 | the inner loop computes exactly the successful parses in block order |
| Fetcher.UidStrings | fetcher.py:148 | one string of ASCII digits per key, in key order; `UidStringsReadBack` shows each reads back as its key |
| Fetcher.MessageData | fetcher.py:147 | the stored pair is the key's subject and its papers, at most one paper per extracted block |
| Fetcher.UidStringsReadBack | fetcher.py:148 | every uid string reads back as its key |
| Fetcher.Aggregated | fetcher.py:140-147 | the dictionary after visiting keys in order holds exactly the visited keys |
| Fetcher.AggregatedValue | fetcher.py:140-147 | every visited key is stored with its subject and its papers |
| Fetcher.AggregatedKeys | fetcher.py:140-147 | with distinct keys, the result lists exactly the visited keys, in visiting order |
| Fetcher.Aggregate | fetcher.py:140-148 | the aggregation loop builds the dictionary specified by `Aggregated` and the uid strings of the keys, in dictionary order |
| Fetcher.FetchPaperData | fetcher.py:135-156 | errors and ignore-file writes as in `read_all_messages`. Otherwise the result is a well-formed dictionary with the scan's kept uids, in scan order, each mapped to its subject and the successful parses of its extracted blocks, plus the uid strings of those keys in the same order |
| PyStr.Split | fetcher.py:125 | `str.split` and `re.split` give at least one piece; `SplitLeftmost` says which, and `SplitRestores` and `SplitPieceFree` show that nothing is lost and no piece holds a match |
| PyStr.SplitLeftmost | fetcher.py:116-118 | text without a match is one piece; otherwise the first piece ends where the leftmost match starts, that whole match (the longest dash run before CRLF, for the rule) is dropped, and the rest is split the same way |
| PyStr.Replace | fetcher.py:128 | `str.replace` leaves a string without the target unchanged |
| PyStr.Strip | fetcher.py:128 | `strip()` leaves no whitespace at either end |
| PyStr.ParseInt | fetcher.py:71 | the model of `int()` accepts exactly a stripped run of one or more ASCII digits with an optional sign, and an unsigned run reads as its decimal value |
| PyStr.DecimalString | fetcher.py:76 | `str(n)` is one or more decimal digits |
| PyStr.Lower | fetcher.py:106 | the model of `lower()` maps ASCII capital letters to small ones and keeps every other character, so the length is kept |
| PyStr.Drop | fetcher.py:127 | `s[n:]` is the characters from n on, and empty when n is past the end |
| PyStr.Universal | fetcher.py:69 | reading in text mode leaves no CR, and a text without CR is read as written |
| PyStr.UniversalCRLF | fetcher.py:69 | CR LF is read as one LF |
| PyStr.UniversalNewline | fetcher.py:69 | an LF is read as a line end, except right after a CR, which already was one |
| PyStr.UniversalAppend | fetcher.py:69 | text without line ends is read as written, whatever precedes it |
| PyStr.SplitRestores | fetcher.py:118 | putting the matched separators back between the pieces of a split restores the input |
| PyStr.SplitPieceFree | fetcher.py:118 | no piece of a split contains a match of the separator |
| PyStr.SplitJoin | fetcher.py:128 | for a literal separator, joining the pieces of a split gives back the input |
| PyStr.JoinSplit | fetcher.py:125 | splitting undoes joining when no part contains the separator and it cannot overlap itself |
| PyStr.WeaveSplit | fetcher.py:116-118 | splitting at the rule undoes putting rule lines between rule-free pieces |
| PyStr.SplitCountChar | fetcher.py:52 | a split at one character has one piece more than the character's occurrences |
| PyStr.StripSpec | fetcher.py:128 | `strip()` keeps one slice and removes only whitespace from the two ends |
| PyStr.StripNoop | fetcher.py:52 | a string without whitespace at its ends is left alone by `strip()` |
| PyStr.ParseDecimal | fetcher.py:76 | `int(str(n)) == n` |
| PyStr.StartsWithPrefix | fetcher.py:106 | `startswith` holds exactly when the prefix is the string's start |
| PyDict.Empty | fetcher.py:81 | `dict()` is well-formed, with no keys and no entries |
| PyDict.Insert | fetcher.py:107-108 | `d[k] = v`: k now maps to v and every other key keeps its value; on a well-formed dictionary a new key goes last, an existing key keeps its place, and the result is well-formed |
| PyStr.StartsWith | fetcher.py:106 | `startswith` only holds when the prefix fits in the string; `StartsWithPrefix` characterises it |

## Left out

- IMAP: `connect`, the search and the fetches (lines 60-64, 82-87) are replaced by the listing they return.
- A fetch answer with several message parts (line 88) is modelled as one message per uid.
- Charset detection and MIME parsing (lines 91-98) are left out. The message's headers and payload are inputs.
- Mailbox.Message: the payload is the string `get_payload()` (line 107) returns for a single-part message. For a kept multipart message, `get_payload()` returns a list of parts, and `splitter.split` in `extract_texts` (line 118) raises TypeError. That happens after `read_all_messages` has made its ignore-file appends, so the run ends through lines 193-199. This error path is not modelled: `Fetcher.FetchPaperData` returns `Ok` whenever every non-ignored message has a From header.
- The bare `except` at line 99 is not modelled. It leaves `msg` stale or unbound.
- `notify` (lines 19-25, 100-103, 150-155) is a desktop notification. `FetchPaperData` returns the uid list the notification would name.
- `save_papers` (lines 159-179) is left out apart from the link rewrite at line 172. It does directory creation, file writes, downloads and its own `ignore_message` calls.
- `time.sleep` (lines 111, 175) is timing only.
- `write_lock` / `is_running` (lines 28-47) are cross-process locking through `os.kill` and the filesystem. Line 46 is indented inside the `if`, so a lock file is only written when a stale one already existed.
- The path helpers `file_path` / `_` (lines 12-16) are left out. Files are given by their contents.
- A missing `.ignore` or `.credentials` file (open raises) is not modelled: files are given as their stored text. Reading them applies universal newlines (`Universal`), as text mode does.
- IgnoreList.IgnoreFile.Append: writes `\n` unchanged, as text mode does where the line separator is LF (POSIX). A platform whose separator is CR LF would write `\r\n`. `Universal` reads that back as the same line end, but the stored text is not modelled for that case.
- PyStr.Lower: maps ASCII letters only, so it keeps the length. Python's `lower()` also lowers other letters and can lengthen a string: `'İ'` (U+0130) lowers to `i` followed by U+0307. The sender test at line 106 still decides the same way. The only non-ASCII characters that lower to ASCII are U+0130 and the Kelvin sign. The Kelvin sign gives `k`, which `no-reply@arxiv.org` does not contain. U+0130 gives an `i` followed by U+0307; the address never has U+0307, and its last character is `g`, not `i`. So a sender holding either character in its first 18 positions is refused by both.
- PyStr.ParseInt: accepts an optional sign and ASCII digits, surrounded by whitespace. Python's `int()` also accepts underscores between digits (`int('1_0')` is 10) and non-ASCII decimal digits (`int('٣')` is 3). The model rejects such a line, so an ignore file that holds one gives `MalformedIgnoreFile` here, where Python would parse it.
- `strip()` uses CPython's whitespace set.
- Fetcher.Aggregate: requires every key of the texts to have a subject. `subjects[key]` would raise KeyError otherwise, and the scan always fills both dictionaries together (`ScanValid`).
- Fetcher.Aggregate: the intermediate `all_data[key] = list()` value is not modelled. Only the final pair is stored, because nothing reads the intermediate value.
- Mailbox.ScanNewestFirst: assumes uids name one message each, as IMAP uids do in one mailbox. So do `Mailbox.ScanRecordsKept` and `Mailbox.FreshUid`.
