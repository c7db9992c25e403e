# Parashat generator: verse flattening and slide chunking

The generator fetches the week's Torah portion (parasha) from the Sefaria
API and turns it into a PowerPoint deck. This project models the two pieces
of bookkeeping between those two steps, both in `parashat_generator.py`.

- **Verse flattening** (`get_parasha_data`, lines 56-94). The decoded text
  response has these parts:
  - `sections`, the chapter numbers;
  - `text` and `he`, one list of verse strings per chapter;
  - `sectionNames`, entries such as `"Genesis 6:9"`;
  - `book`.

  The function walks the chapter blocks in order. It skips a block that
  either language list does not reach. It reads the block's first verse
  number from the text after the first colon of its `sectionNames` entry,
  falling back to 1. It then zips the English and Hebrew verses into
  records `{chapter, verse, en, he}`, numbered consecutively. Each text goes
  through `clean_text`. The function gives up (returns `None`) in three
  cases: `sectionNames` is missing while a block is used, no record at all
  was produced, or `book` is missing.
- **Slide chunking** (`create_presentation`, lines 105-132). The flat verse
  list is cut into runs of five, straight across chapter boundaries. Each
  run becomes one slide. The slide's title is built from the run's first
  and last verse: `"Book c:v1-v2"` within one chapter, otherwise
  `"Book c1:v1 - c2:v2"`. The slide's English and Hebrew texts are the run's
  texts joined with single spaces.

Files:
- `text.dfy` (module `PyText`) states the Python built-ins these lines
  rely on: `str.split` with a one-character separator, `str.join`,
  `str(n)` and base-10 `int(s)`, with the whitespace `int(s)` skips.
- `verses.dfy` (module `Verses`) holds the specification of the flat list
  (`ParashaData`, `Flattened`, `Block`, `StartVerse`). It also holds the
  loop as an imperative method proved equal to that specification, and the
  properties of the list.
- `slides.dfy` (module `Slides`) specifies the runs (`Chunks`), the titles
  (`Title`) and the slides (`SlideFor`). It holds the slide loop as a method
  proved against them, and the properties of runs, titles and texts. A
  title decoder (`DecodeTitle`) is the inverse of `Title`. It shows that a
  title names its run's ends unambiguously.

## Model

| member | source | states |
|---|---|---|
| `Verses.GetParashaVerses` | parashat_generator.py:56-94 | The nested loops return exactly `ParashaData(r, clean)`: the flat list of every kept block's zipped records, or `None` when `sectionNames` is missing for a kept block, when no record was produced, or when `book` is missing. |
| `Verses.AppendBlock` | parashat_generator.py:72-79 | The inner loop appends exactly the zipped block of the chapter to the list built so far. |
| `Verses.ZipBlockAt` | parashat_generator.py:72-79 | A zipped block has `min(len(en), len(he))` records. Record `j` carries the chapter, verse `start + j`, and the cleaned English and Hebrew strings of pair `j`. |
| `Verses.BlockAt` | parashat_generator.py:61-79 | Block `idx` holds `BlockSize(idx)` records: none when `text` or `he` does not reach `idx`, otherwise the zip's count. Record `j` is `Record(idx, j)`. |
| `Verses.FlattenedLength` | parashat_generator.py:58-79 | The flat list is as long as all blocks together (`Offset`). |
| `Verses.FlattenedPrefix` | parashat_generator.py:58-79 | Processing later blocks never changes a record already in the list; it only appends. |
| `Verses.FlattenedAt` | parashat_generator.py:58-79 | Record `j` of block `idx` sits at position `Offset(idx) + j` of the flat list, with chapter `sections[idx]`, verse `start + j`, and the cleaned texts of pair `j`. |
| `Verses.FlattenedOrigin` | parashat_generator.py:58-79 | Every record of the flat list is record `j` of some kept block `idx`: nothing else is produced. |
| `Verses.ChaptersComeFromSections` | parashat_generator.py:58-75 | Every record's chapter is the chapter number of a kept block. |
| `Verses.BlockStartsAtStartVerse` | parashat_generator.py:67-76 | A non-empty block starts in the flat list with its chapter number and its start verse. |
| `Verses.ConsecutiveWithinBlock` | parashat_generator.py:72-76 | Within a block, each next record has the same chapter and the next verse number. |
| `Verses.NothingKeptNothingFlattened` | parashat_generator.py:58-62 | When no block is kept, the list stays empty. |
| `Verses.MissingSectionNamesFails` | parashat_generator.py:61-70 | Without `sectionNames` the function always returns `None`: a KeyError when a block is kept, otherwise the empty-list ValueError. |
| `Verses.ParashaDataOutcome` | parashat_generator.py:58-94 | Both directions: the result is `None` exactly when `sectionNames` or `book` is missing or every block zips to nothing. Otherwise it carries `book` and `Offset(len(sections)) > 0` records. |
| `Verses.StartVerseReadsAfterColon` | parashat_generator.py:67-68 | For an entry `before:  v  ` optionally followed by `:...`, where `before` has no colon, the start verse is `v`, whatever whitespace `int()` skips surrounds it. |
| `Verses.StartVerseFallsBack` | parashat_generator.py:67-70 | The start verse is 1 when the entry is missing, has no colon, or its second piece is not an integer. |
| `Slides.CreateSlides` | parashat_generator.py:105-132 | One slide per run of `Chunks(verses)`, in order; slide `k` is `SlideFor(book, run k)`. |
| `Slides.Run` | parashat_generator.py:112 | The slice `all_verses[5k:5k+5]` of a started run holds one to five verses. |
| `Slides.ChunksConcat` | parashat_generator.py:109-112 | The runs, concatenated in order, are the verse list: nothing is lost, repeated or reordered. |
| `Slides.ChunksSizes` | parashat_generator.py:109-112 | There are `ceil(n / 5)` runs. Every run holds one to five verses, and all but the last hold exactly five. |
| `Slides.ChunkAt` | parashat_generator.py:109-112 | Run `k` is the positional slice `[5k : 5k+5]`, clipped to the list, whatever chapters it spans. |
| `Slides.RunsAreChunks` | parashat_generator.py:109-112 | The `m` slices taken by `range(0, n, 5)` are exactly `Chunks`, with `m == len(Chunks)`. |
| `Slides.SlidesShowChunks` | parashat_generator.py:109-132 | Slides made slice by slice, until the slices cover the list, show the runs of `Chunks` in order. |
| `Slides.TextsAt` | parashat_generator.py:131-132 | The list comprehension has one text per verse, in verse order. |
| `Slides.TextsAppend` | parashat_generator.py:131-132 | The texts of a concatenation are the texts of its parts, in order. |
| `Slides.SlideTextsCoverReading` | parashat_generator.py:131-132 | Joining all slides' texts with a space gives the space-join of every verse's text. No verse text is lost at a run or chapter boundary. |
| `Slides.DecodeTitleOfTitle` | parashat_generator.py:114-120 | A title decodes back to its run's first and last chapter and verse, in both the same-chapter and the cross-chapter format. |
| `Slides.SameTitleIffSameEnds` | parashat_generator.py:114-120 | Both directions: two runs of one book get the same title exactly when their first and last verses have the same chapter and verse numbers. |
| `PyText.Split` | parashat_generator.py:68 | `split` never returns an empty list. |
| `PyText.JoinSplit` | parashat_generator.py:68 | Joining the pieces of `s.split(c)` with `c` gives `s` back. |
| `PyText.SplitPiecesFree` | parashat_generator.py:68 | No piece of `s.split(c)` contains `c`. |
| `PyText.SplitNoSeparator` | parashat_generator.py:68 | A string without `c` splits into itself alone. |
| `PyText.SplitAtFirst` | parashat_generator.py:68 | The text before the first `c` is piece 0. The rest splits on its own. |
| `PyText.SplitJoin` | parashat_generator.py:68 | Splitting a `c`-join of `c`-free pieces gives the pieces back. |
| `PyText.TrimPadded` | parashat_generator.py:68 | The whitespace trimming `int()` does removes padding of skipped characters (ASCII `\t` to `\r`, space, non-ASCII Unicode whitespace) and nothing else. |
| `PyText.ParseIntRejectsSeparator` | parashat_generator.py:68 | `int()` raises ValueError on a string that starts with one of U+001C to U+001F, although `str.isspace()` holds for them, so `start_vs` falls back to 1. |
| `PyText.ParseIntToString` | parashat_generator.py:68 | `int(w1 + str(n) + w2) == n` for whitespace `w1`, `w2`. |
| `PyText.NatToStringDigits` | parashat_generator.py:118-120 | `str(n)` of a natural number is a non-empty digit string with value `n`, and has no leading zero. |
| `PyText.IntToStringShape` | parashat_generator.py:118-120 | `str(n)` is an optional minus sign and a digit body worth `abs(n)`, with no whitespace at either end. |
| `PyText.ReadIntToString` | parashat_generator.py:118-120 | Reading a leading integer from `str(n) + t` gives `n` and `t` back, when `t` does not start with a digit. |
| `PyText.JoinLength` | parashat_generator.py:131-132 | `sep.join(parts)` is as long as the parts plus one separator between each pair. |
| `PyText.JoinAppend` | parashat_generator.py:131-132 | Joining two non-empty lists together puts one separator between their joins. |

## Left out

- The network requests, the calendar lookup and the JSON decoding (lines 33-54) are not modelled. The model starts from the decoded text response.
- `clean_text` (lines 8-29: regular-expression tag removal and HTML unescaping) is a parameter `clean`. The flattening applies it to every text and never inspects its result.
- Slide layout is not modelled: text boxes, fonts, sizes, alignment and saving the deck (lines 99-103, 110, 122-129 and after 132). Only what each slide shows is.
- `app.py` and the web front end are not modelled.
- The `print` logging in the exception handler is not modelled.
- `int()` is modelled for ASCII digits only. Python also accepts other Unicode decimal digits.
- PyText.ParseInt and Verses.StartVerse do not model CPython's limit of 4300 digits on converting a decimal string to `int` (Python 3.11 and later, and security releases of 3.7 to 3.10). Above the limit `int()` raises ValueError, so `start_vs` would be 1 by lines 69-70, while the model reads the number.
- PyText.IntToString and Slides.Title do not model the same limit on `str()` of an integer in the title f-string (lines 118 and 120). Above it Python raises ValueError, which `create_presentation` does not catch, while the model builds the title.
- `sections` entries are assumed to be integers, so `int(chapter_ref)` is the identity. A non-numeric entry would raise and yield `None`.
- `text`/`he` entries are assumed to be lists of strings. A plain string entry would be zipped character by character.
- `sectionNames` entries are assumed to be strings. A non-string entry raises AttributeError, which reaches the blanket handler.
- The dictionary fields `title_en`, `hebrew_date` and `parasha_ref` (lines 85-87) come from other requests and are not modelled.
- `Verses.ReadStartVerse` and `Slides.MakeSlide` are proof aids for the two loops; their results are `StartVerse` and `SlideFor`, whose meaning other lemmas state. `Slides.MakeSlide` takes a ghost slide function, and `Verses.GetParashaVerses` and `Slides.CreateSlides` keep one in a ghost variable. These only steer the proof; the computed values are the ones the source computes.
