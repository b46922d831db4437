# Language-course scraper and Anki exporter: a Dafny model

The repository has two parts:

- **A course downloader** (`language101_scraper.py`). It logs in to an Innovative Language site (japanesepod101.com and its siblings), walks the lessons of a level, and saves each lesson's audio and video files under sanitised names and its PDFs under the last segment of their URL.
- **An Anki exporter** (`anki_export.py`). It reads the vocabulary table of a lesson page into a dictionary of cards, fills in missing fields, and packs the cards into an `.apkg` deck.

This project models the pure logic inside both. The exporter part covers:

- the `cards` store and `createKeyIfNeeded`;
- the four extractor loops (`GetKanji`, `GetKana`, `GetEnglih`, `GetAudio`), each a fold over the fragments the page search found;
- the `Scraper` sequence;
- `SanityCheck` and `FinalizeCard`;
- the deck's notes, media list and file name.

The downloader part covers the string steps:

- `get_filename_body`;
- the audio and video file names;
- the audio suffix classes;
- the PDF URL and its name;
- the login URL from `parse_url`;
- `check_all_arguments_empty`.

## Files

- `wrappers.dfy` (module `Wrappers`): `Option` and `Result`.
- `py_strings.dfy` (module `PyStrings`): the Python `str` operations the code uses, with Python's meaning:
  - `strip`, with the 29 `isspace` characters;
  - slicing with negative bounds;
  - `split(sep)`, `split(sep)[-1]` and `"".join(s.split())`;
  - `replace(c, '')`, the `in` substring test, and `lower`.
- `decimal.dfy` (module `Decimal`): `str(n)` and `zfill`.
- `record_store.dfy` (module `RecordStore`):
  - the field names;
  - the store, which keeps a dictionary's insertion order beside its map;
  - `createKeyIfNeeded` and the write `cards[k][field] = v`.
- `anki_export.dfy` (module `AnkiExport`): the extractors, `Scraper`, `SanityCheck`, `FinalizeCard` and `CreateDeck`.
- `anki_properties.dfy` (module `ExportProperties`): properties that relate several of these operations:
  - last write wins;
  - skipped fragments leave no trace;
  - `SanityCheck` is idempotent;
  - after `Scraper`, every field holds what its last fragment said;
  - a scraped deck is complete.
- `language101.dfy` (module `Language101`): the downloader's string steps and download plans.

A page is modelled as the sequences of fragments its searches return. Each fragment carries the key of its `tr` ancestor, an opaque integer that stands for Python's `hash`. A download is modelled as the `Save(url, fileName)` request the loop would make.

## Model

| member | source | states |
|---|---|---|
| `AnkiExport.CardFieldsShape` | anki_export.py:19-65 | The field list has the eleven names of `japanese_fields`, in that order and pairwise distinct, and `audio_files` is not among them. |
| `RecordStore.CreateKeyIfNeeded` | anki_export.py:95-98 | An absent key afterwards holds an empty record and joins the end of the iteration order. A present key leaves the store as it was. Every other key keeps its record. |
| `RecordStore.Upsert` | anki_export.py:129-131 | After `createKeyIfNeeded` and `cards[k][field] = v`, the record under `k` holds `v` in `field` and is otherwise unchanged. Other records are untouched. The order grows only for a new key, and validity is kept. |
| `AnkiExport.KanaText` | anki_export.py:146-147 | `strip()[1:-1].strip()` of the cell text; its meaning is stated in `KanaTextShape` and `ExportProperties.KanaOfBracketed`. |
| `AnkiExport.KanaTextShape` | anki_export.py:146-147 | `strip()[1:-1].strip()`: a non-empty reading has no whitespace at either end and is at least two characters shorter than the stripped text. |
| `ExportProperties.KanaOfBracketed` | anki_export.py:146-147 | For text that is whitespace, an opening bracket, an inner part, a closing bracket and whitespace, the stored reading is exactly the inner part stripped. |
| `AnkiExport.ExtractStep` | anki_export.py:128-131 | One loop round. A written fragment's key joins the records; a skipped fragment adds none. Its effect is stated in `ExtractStepStore`. |
| `AnkiExport.ExtractStepStore` | anki_export.py:128-131 | One loop round writes the extractor's value into the fragment's record, creating the record if needed. A skipped fragment changes nothing. No other field or record changes. |
| `AnkiExport.Extract` | anki_export.py:127-147 | After an extractor loop, the records are the old ones plus one per key of an unskipped fragment. |
| `AnkiExport.ExtractFrame` | anki_export.py:127-147 | An extractor loop changes no field of an existing record other than its own field. |
| `AnkiExport.ExtractNewRecords` | anki_export.py:127-147 | A record created by an extractor loop holds only the extractor's field. |
| `AnkiExport.ExtractWritten` | anki_export.py:127-147 | Every key an unskipped fragment carries ends up with the extractor's field. |
| `AnkiExport.ExtractOrder` | anki_export.py:127-147 | An extractor loop only appends to the insertion order and keeps the store valid. |
| `ExportProperties.LastWritten` | anki_export.py:127-147 | The value of the last unskipped fragment for a key, read off the fragments. It exists exactly when the key is written. |
| `ExportProperties.ExtractLastWriteWins` | anki_export.py:127-147 | Last write wins: after the loop, a written key's field holds the value of its last unskipped fragment. |
| `ExportProperties.ExtractUntouched` | anki_export.py:127-147 | A key no unskipped fragment carries is neither created nor changed. |
| `ExportProperties.ExtractDropSkipped` | anki_export.py:134-140 | Sample-sentence fragments the English loop skips have no effect: running the loop without them gives the same store. |
| `AnkiExport.MediaNames` | anki_export.py:154-157 | One media name per URL, in order, each the text after the URL's last `/`. |
| `AnkiExport.AudioStep` | anki_export.py:151-162 | A skipped button changes nothing. A kept button without `data-src` fails. A kept button with `data-src` appends the stripped URL and its media name. |
| `AnkiExport.SoundTag` | anki_export.py:161 | `"[sound:" + name + "]"`: eight characters longer than the name, opened by `[sound:` and closed by `]`, with the name read back from between them. |
| `AnkiExport.AudioStepStore` | anki_export.py:154-162 | A kept button sets `Japanese_Audio` to `[sound:name]` and `audio_files` to the name in its record. Every other field and record is unchanged. |
| `AnkiExport.GetAudio` | anki_export.py:149-163 | It fails exactly when a kept button lacks `data-src`. Otherwise it returns the stripped URLs of the kept buttons in order, and `audio_files` grows by exactly one name per returned URL, in the same order and without deduplication. |
| `AnkiExport.GetAudioKeys` | anki_export.py:149-163 | The records after the audio loop are the old ones plus one per kept button's key. |
| `AnkiExport.GetAudioNewRecords` | anki_export.py:149-163 | A record the audio loop creates holds exactly `Japanese_Audio` and `audio_files`. |
| `AnkiExport.GetAudioOrder` | anki_export.py:149-163 | The audio loop only appends to the insertion order and keeps the store valid. |
| `AnkiExport.GetAudioFrame` | anki_export.py:149-163 | The audio loop changes no field outside the two audio fields. That untouched keys keep their audio fields too is stated in `ExportProperties.AudioUntouched`. |
| `ExportProperties.LastAudioName` | anki_export.py:154-162 | The media name of the last kept button for a key. It exists exactly when some kept button carries the key. |
| `ExportProperties.AudioUntouched` | anki_export.py:150-162 | A key that no kept button carries is neither created nor changed, its audio fields included. Buttons of sample sentences and of the slow cell write nothing. |
| `ExportProperties.AudioLastWriteWins` | anki_export.py:154-162 | The last kept button for a key decides its `Japanese_Audio` tag and its `audio_files` name. |
| `AnkiExport.FillRecord` | anki_export.py:178-181 | Filling adds exactly the listed fields that were missing, each as the empty string, and keeps every present value. |
| `ExportProperties.FillRecordComplete` | anki_export.py:178-181 | Filling a record that already has every listed field leaves it unchanged. |
| `AnkiExport.SanityCheck` | anki_export.py:177-182 | The keys and their order stay the same, and every record becomes complete. No present value is overwritten. Every added value is `""` and is under a listed name. Validity is kept. |
| `ExportProperties.SanityCheckIdempotent` | anki_export.py:177-182 | Running `SanityCheck` a second time changes nothing. |
| `AnkiExport.Get` | anki_export.py:187 | `entry.get(f)` is present exactly when the record has the field, and then it is the field's value. |
| `AnkiExport.FinalizeCard` | anki_export.py:184-188 | The tuple has one entry per listed field, in list order. Entry i is `entry.get` of field i, as the source defines it: present exactly when the record has field i, and then its value. What this means for real records is stated in `FinalizeComplete`, `FinalizeAfterSanityHasNoNone` and `FinalizeIgnoresExtraKeys`. |
| `ExportProperties.FinalizeAfterSanityHasNoNone` | anki_export.py:184-188 | After `SanityCheck`, no entry of a finalised record is None. |
| `ExportProperties.FinalizeComplete` | anki_export.py:184-188 | A complete record finalises to its value for every listed field. |
| `ExportProperties.FinalizeIgnoresExtraKeys` | anki_export.py:184-188 | Records that agree on the listed fields finalise alike, so the extra `audio_files` key never reaches a note. |
| `AnkiExport.NewJapanese` | anki_export.py:116-120 | A new `Japanese` object has no cards, in a valid empty store, and an empty `audio_files` list. |
| `AnkiExport.Scraper` | anki_export.py:165-175 | It fails exactly when a kept audio button lacks `data-src`. Otherwise it returns the kept audio URLs, `audio_files` grows by their media names, and every record is complete. |
| `AnkiExport.ScraperKeys` | anki_export.py:165-175 | After `Scraper`, the records are the old ones plus one per key any extractor wrote. None is dropped. |
| `AnkiExport.ScraperOrder` | anki_export.py:165-175 | `Scraper` only appends to the insertion order. |
| `AnkiExport.ScraperValid` | anki_export.py:165-175 | `Scraper` keeps a valid store valid. |
| `ExportProperties.ScraperKanjiField` | anki_export.py:167-172 | After `Scraper`, the Kanji field of a record is the stripped text of its last Kanji fragment. |
| `ExportProperties.ScraperKanaField` | anki_export.py:167-172 | After `Scraper`, the Kana field of a record is the reading of its last Kana fragment. |
| `ExportProperties.ScraperEnglishField` | anki_export.py:167-172 | After `Scraper`, the English field is that of the last English fragment outside a sample sentence. |
| `ExportProperties.ScraperTextField` | anki_export.py:165-175 | None of the later passes disturbs what an extractor wrote: each text field holds its last fragment's value at the end. |
| `ExportProperties.ScraperAudioField` | anki_export.py:165-175 | After `Scraper`, a record's audio fields are those of its last kept play button. |
| `AnkiExport.DeckFileName` | anki_export.py:199 | The package name is the title's non-whitespace characters, in order and each as often as it occurs, then `.apkg`. |
| `AnkiExport.Notes` | anki_export.py:193-196 | One finalised note per key of the iteration order, in that order. |
| `AnkiExport.CreateDeck` | anki_export.py:190-200 | The deck has the package file name, and its media files are `audio_files` as they stand. In a valid store it holds one note per record, in insertion order. |
| `ExportProperties.DeckOfCompleteStore` | anki_export.py:193-196 | A valid store of complete records gives one note per record, each of width eleven with no None. |
| `ExportProperties.ScrapedDeckComplete` | anki_export.py:190-196 | Scraping a lesson into a new exporter and building the deck gives one note per record, each with a value for all eleven fields. |
| `PyStrings.Strip` | anki_export.py:131 | `str.strip()`; its meaning is stated in `StripMeets` and `StripOfUnique`. |
| `PyStrings.StripMeets` | anki_export.py:131 | `strip()` cuts exactly the whitespace at both ends: the result is a contiguous piece, everything outside it is whitespace, and its ends are not. |
| `PyStrings.StripOfUnique` | anki_export.py:131 | That description admits only one result, so it pins `strip()` down. |
| `PyStrings.StripIdempotent` | anki_export.py:131 | Stripping twice is stripping once. |
| `PyStrings.StripPadded` | anki_export.py:146-147 | Whitespace padding around a word with non-blank ends is exactly what `strip()` removes. |
| `PyStrings.Slice` | anki_export.py:146-147 | Python slicing with negative bounds; the result is never longer than the string. `s[1:-1]` is stated in `SliceDropEnds`. |
| `PyStrings.SliceDropEnds` | anki_export.py:146-147 | `s[1:-1]` drops the first and last characters, and is empty for strings of length two or less. |
| `PyStrings.Split` | anki_export.py:156 | `split(sep)` gives at least one piece, and no piece holds the separator. With `JoinSplit` that pins the pieces down. |
| `PyStrings.LastSegment` | anki_export.py:156 | `split(sep)[-1]`; its meaning is stated in `LastSegmentMeets` and `LastSegmentIsLastPiece`. |
| `PyStrings.LastSegmentMeets` | anki_export.py:156 | `split('/')[-1]` is the longest suffix without the separator: it holds none, and what precedes it ends in one. |
| `PyStrings.LastSegmentIsLastPiece` | anki_export.py:156 | That suffix is the last piece `split` produces. |
| `PyStrings.JoinSplit` | anki_export.py:156 | Joining the pieces of `split(sep)` with `sep` gives back the string. |
| `PyStrings.SplitWords` | anki_export.py:199 | `s.split()` gives non-empty pieces that hold no whitespace. Whole words are stated in `SplitWordsOfWord` and `SplitWordsWordThenSpace`. |
| `PyStrings.SplitWordsOfWord` | anki_export.py:199 | A string without whitespace splits into itself alone. |
| `PyStrings.SplitWordsWordThenSpace` | anki_export.py:199 | A word followed by whitespace is one piece, never cut. The rest of the string is split on its own. |
| `PyStrings.Concat` | anki_export.py:199 | `"".join(parts)`; its meaning is stated in `ConcatSplitWords`. |
| `PyStrings.ConcatSplitWords` | anki_export.py:199 | Joining the words of `s.split()` with nothing gives `s` with every whitespace character dropped and the rest in order. |
| `PyStrings.RemoveWhitespace` | anki_export.py:199 | `"".join(s.split())` equals the filter that drops whitespace: exactly the non-whitespace characters, in order and with their multiplicity. |
| `PyStrings.RemoveWhitespaceAppend` | anki_export.py:199 | Removing whitespace distributes over concatenation. |
| `PyStrings.RemoveWhitespaceChar` | anki_export.py:199 | A single character survives exactly when it is not whitespace. |
| `PyStrings.RemoveChar` | language101_scraper.py:220 | `s.replace(c, '')` leaves no `c` and keeps every other character. It is `FilterOut` with the set `{c}`, so order is kept as `FilterOutAppend` states. |
| `PyStrings.FilterOut` | language101_scraper.py:219-220 | Removing a set of characters keeps exactly the others and never lengthens the string. Order is stated in `FilterOutAppend`. |
| `PyStrings.FilterOutTwice` | language101_scraper.py:219-220 | Removing one set of characters and then another removes their union. |
| `PyStrings.FilterOutAppend` | language101_scraper.py:219-220 | Removing characters distributes over concatenation, so the kept characters keep their order. |
| `PyStrings.Contains` | language101_scraper.py:149-151 | The `in` test holds exactly when the pattern occurs at some index. |
| `PyStrings.Lower` | language101_scraper.py:149-151 | `lower()` maps each character on its own and keeps the length (ASCII letters only; see Left out). |
| `PyStrings.LowerIdempotent` | language101_scraper.py:149-151 | Lower-casing twice is lower-casing once. |
| `Decimal.IntToString` | language101_scraper.py:144 | `str(n)` is non-empty, starts with `-` exactly for negative `n`, and is all digits otherwise. |
| `Decimal.NatToStringValue` | language101_scraper.py:144 | The digits of `str(n)` read back as `n`. |
| `Decimal.ZFill` | language101_scraper.py:144 | `zfill(w)` has length `max(len, w)` and leaves a long enough string alone. The padding is stated in `ZFillNatValue`. |
| `Decimal.ZFillNatValue` | language101_scraper.py:144 | `str(n).zfill(w)` is a digit string of the same value, at least `w` long, padded on the left with `0`. |
| `Language101.FilenameBody` | language101_scraper.py:212-222 | The sanitised title holds no invalid character. The rest is stated in `GetFilenameBody` and `FilenameBodyMeets`. |
| `Language101.GetFilenameBody` | language101_scraper.py:212-222 | Replacing each invalid character in turn gives the title filtered once by the whole invalid set. |
| `Language101.FilenameBodyMeets` | language101_scraper.py:218-222 | No invalid character is left, including the backslash and the slash, and every other character of the title remains. |
| `Language101.FilenameBodyIdempotent` | language101_scraper.py:212-222 | Sanitising a sanitised body changes nothing. |
| `Language101.FilenameBodyAppend` | language101_scraper.py:219-220 | Sanitising works character by character, so kept characters keep their order. |
| `Language101.FilenameBodyOfCleanTitle` | language101_scraper.py:219-220 | A title without invalid characters is its own body. |
| `Language101.LessonPrefix` | language101_scraper.py:144 | `str(n).zfill(2)`; its meaning is stated in `LessonPrefixMeets`. |
| `Language101.LessonPrefixMeets` | language101_scraper.py:144 | The lesson prefix is at least two digits, reads back as the lesson number, and is `0` plus the digit below ten. |
| `Language101.AudioSuffix` | language101_scraper.py:147-154 | The audio class is one of `Dialogue`, `Review` and `Main Lesson`. |
| `Language101.AudioSuffixCases` | language101_scraper.py:149-154 | Ignoring case, a segment containing `dialog` is `Dialogue`, otherwise one containing `review` is `Review`, otherwise `Main Lesson`. The `dialogue` test adds nothing. |
| `Language101.AudioSuffixIgnoresCase` | language101_scraper.py:149-151 | A segment and its lower-case form get the same class. |
| `Language101.AudioFileName` | language101_scraper.py:139-157 | An audio URL gets a file name exactly when it ends in `.mp3`. |
| `Language101.AudioFileNameShape` | language101_scraper.py:144-157 | The name is prefix, body and class joined by ` - `, then `.mp3`. |
| `Language101.AudioFileNameNumber` | language101_scraper.py:144 | The digits in front of an audio name read back as the lesson number. |
| `Language101.AudioFileNameSafe` | language101_scraper.py:144-157 | No audio name holds an invalid character, a path separator in particular. |
| `Language101.VideoFileName` | language101_scraper.py:199-207 | A video URL gets a file name exactly when it ends in `.mp4` or `.m4v`. |
| `Language101.VideoFileNameShape` | language101_scraper.py:204-207 | The name is prefix and body joined by ` - `, then the URL's extension. |
| `Language101.VideoFileNameSafe` | language101_scraper.py:204-207 | No video name holds an invalid character. |
| `Language101.Plan` | language101_scraper.py:123-159 | A download loop requests only URLs it found, each under its name, and never more requests than tags. |
| `Language101.PlanComplete` | language101_scraper.py:123-159 | Every found URL that gets a name is requested under that name. |
| `Language101.PlanAppend` | language101_scraper.py:123-159 | Requests follow the order of the tags. |
| `Language101.TagUrl` | language101_scraper.py:124-132 | A tag yields a URL exactly when it has `data-trackurl` or `data-url`. `data-trackurl` wins when present; otherwise the URL is `data-url`. |
| `Language101.DownloadAudios` | language101_scraper.py:115-159 | The corrected loop requests only `.mp3` URLs, each under its audio name. |
| `Language101.DownloadAudiosRequests` | language101_scraper.py:123-159 | The corrected loop requests exactly the tags' `.mp3` URLs, each under its audio name. |
| `Language101.DownloadAudiosAsWritten` | language101_scraper.py:115-159 | `download_audios` as written, starting with `file_url` unbound. Its behaviour is stated in `DownloadAudiosAsWrittenFails` and `UnboundFileUrlExample`. |
| `Language101.AudioLoop` | language101_scraper.py:123-136 | Once `file_url` has been assigned, the loop as written cannot fail. |
| `Language101.AudioLoopBound` | language101_scraper.py:123-159 | With `file_url` assigned, the loop as written makes the corrected loop's requests. |
| `Language101.DownloadAudiosAsWrittenFails` | language101_scraper.py:123-136 | The loop as written fails exactly when the first tag has neither URL, and otherwise agrees with the corrected loop. |
| `Language101.UnboundFileUrlExample` | language101_scraper.py:131-136 | A page whose first `<audio>` tag has no URL stops the loop as written, while the corrected loop still fetches the second tag. |
| `Language101.SourceUrl` | language101_scraper.py:184-195 | A `<source>` yields its `src` exactly when its type is `video/mp4` and it has one. |
| `Language101.DownloadVideos` | language101_scraper.py:175-209 | The video loop requests only `.mp4` and `.m4v` URLs, each under its video name. |
| `Language101.DownloadVideosRequests` | language101_scraper.py:183-209 | The video loop requests exactly the accepted URLs of the `video/mp4` sources. |
| `PyStrings.StartsWith` | language101_scraper.py:169 | `s.startswith(p)`: `p` is no longer than `s` and equals its first `len(p)` characters. It is the test `PdfUrlCases` splits on. |
| `PyStrings.EndsWith` | language101_scraper.py:199 | `s.endswith(p)`: `p` is no longer than `s` and equals its last `len(p)` characters. It is the extension test of `AudioFileName` and `VideoFileName`. |
| `Language101.PdfUrl` | language101_scraper.py:168-170 | The PDF URL always ends with the link's `href`. |
| `Language101.PdfUrlCases` | language101_scraper.py:168-170 | An `href` starting with `/pdfs/` gets the root in front. Any other `href` is the URL unchanged. |
| `Language101.PdfNameIndependentOfRoot` | language101_scraper.py:168-171 | A PDF's file name is the last segment of its `href`, whatever root is put in front. |
| `Language101.DownloadPdfs` | language101_scraper.py:162-172 | The PDF loop fails exactly when some link lacks `href`. Otherwise it makes one request per link. |
| `Language101.DownloadPdfsRequests` | language101_scraper.py:166-172 | Each PDF request fetches the link made absolute and names the file after the link's last segment. |
| `Language101.ParseUrl` | language101_scraper.py:44-50 | The login URL is the root followed by `/member/login_new.php`. |
| `Language101.LoginUrlRoundTrip` | language101_scraper.py:47-48 | Cutting the login path off the login URL gives back the root, so different roots give different login URLs. |
| `Language101.LoginPageName` | language101_scraper.py:48 | The page the login posts to is `login_new.php`. |
| `Language101.CheckAllArgumentsEmpty` | language101_scraper.py:335-341 | It returns true exactly when every argument's value is None. |
| `Language101.ParsedArguments` | language101_scraper.py:343-369 | The seven parsed options, in the order `check_all_arguments_empty` sees them. The flag values are stated in `FlagArg`. |
| `Language101.FlagArg` | language101_scraper.py:350-352 | A flag option always has a value: true by default, `bool` of its text when given. |
| `Language101.CommandLineNeverEmpty` | language101_scraper.py:343-369 | Command-line arguments always include a value, so the default-configuration branch is never taken. |

## Left out

- BeautifulSoup search (`find_all`, `find_parent`, `select`, `get_text`) and Python `hash`. A page arrives as the fragment sequences those searches return, and each fragment carries its key. Orphan fragments all share the key of `hash(None)`, which the model treats like any other key.
- The `Scraper(root_url, ...)` parameter: it is unused in the source, so the model omits it.
- genanki: the note model, `Deck(abs(hash(title)), title)`, `Package`, `write_to_file` and its timestamp. Only the notes, the media list and the file name are modelled.
- Effects that happen before an exception propagates:
  - When `i["data-src"]` raises `KeyError`, the buttons before it have already updated `cards` and `audio_files`.
  - When a PDF link lacks `href`, the PDFs before it have already been saved.
  - The model returns only the `Failure`.
- `requests` sessions, authentication, cookie pickling, `get_soup`, `save_file` (including skipping existing files), pathway and level crawling, and `os.mkdir`/`chdir`. These are network and file-system work. A download is the `Save` request it would make.
- `urlparse`: the scheme and the network location arrive as given strings.
- argparse and configparser beyond the defaults of the flag options, `main`, and all `print` and `logging` output.
- `PyStrings.Lower`: models `str.lower` on ASCII letters only, one character to one character. Python's `lower()` also changes other letters, and U+0130 even becomes two characters (`i` followed by U+0307), so Python's result can be longer. The audio classes still come out the same: the patterns `dialog` and `review` are ASCII. Of the non-ASCII characters, only U+0130 and U+212A lower to ASCII letters. U+212A gives `k`, which neither pattern holds. U+0130 gives an `i` followed by U+0307, which cannot be the `i` inside `dialog` or `review`.
- `PyStrings.IsSpace`: the 29 characters Python's `str.isspace` accepts, listed explicitly rather than derived from Unicode tables.
- Characters are Dafny `char`s, i.e. Unicode scalar values. There is no encoding and no normalisation.

## Findings

| source | as written | input that shows it | evidently intended | confidence | as-written member | corrected member |
|---|---|---|---|---|---|---|
| language101_scraper.py:131-136 | A tag without `data-trackurl` and `data-url` reaches `print(f'Could not retrieve URL: {file_url}')` before `continue`. When no earlier tag assigned `file_url`, that line raises `UnboundLocalError`, which nothing catches, and the whole download stops. | A lesson page whose first `<audio>` tag has neither attribute (`UnboundFileUrlExample`) | Pass over the tag and go on with the next one | not executed; the cause is plain in the code | `Language101.DownloadAudiosAsWritten` | `Language101.DownloadAudios` |
