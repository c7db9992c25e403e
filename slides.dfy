/** The slide loop of `create_presentation` (parashat_generator.py lines
    105-132): the verse list is cut into runs of five, straight across
    chapter boundaries, and each run becomes one slide with a title built
    from its first and last verse and the run's English and Hebrew texts
    joined with single spaces. Laying the text out on the slide is not
    part of this model. */
module Slides {
  import opened PyText
  import opened Verses

  /** `verses_per_slide`. */
  const VersesPerSlide: nat := 5

  /** What one slide shows: its title and its two text columns. */
  datatype Slide = Slide(title: string, en: string, he: string)

  datatype Language = English | Hebrew

  /** The first and last verse of a run, the only verses its title shows. */
  datatype Span = Span(startChapter: int, startVerse: int, endChapter: int, endVerse: int)

  // ---------------------------------------------------------------------
  // Cutting the list

  /** The slices `all_verses[i : i + 5]` for `i in range(0, len(all_verses), 5)`. */
  function Chunks(s: seq<Verse>): seq<seq<Verse>>
    decreases |s|
  {
    if |s| == 0 then []
    else if |s| <= VersesPerSlide then [s]
    else [s[..VersesPerSlide]] + Chunks(s[VersesPerSlide..])
  }

  function Concat(cs: seq<seq<Verse>>): seq<Verse>
    decreases |cs|
  {
    if |cs| == 0 then [] else cs[0] + Concat(cs[1..])
  }

  /** Read in order, the runs are the verse list itself: nothing is lost,
      repeated or reordered. */
  lemma {:induction false} ChunksConcat(s: seq<Verse>)
    ensures Concat(Chunks(s)) == s
    decreases |s|
  {
    if |s| > VersesPerSlide {
      ChunksConcat(s[VersesPerSlide..]);
      assert Chunks(s)[1..] == Chunks(s[VersesPerSlide..]);
      assert s[..VersesPerSlide] + s[VersesPerSlide..] == s;
    } else if |s| > 0 {
      assert Chunks(s)[1..] == [];
    }
  }

  /** There are `ceil(n / 5)` runs; every run holds one to five verses, and
      all but the last hold exactly five. */
  lemma {:induction false} ChunksSizes(s: seq<Verse>)
    ensures |Chunks(s)| == (|s| + VersesPerSlide - 1) / VersesPerSlide
    ensures forall k :: 0 <= k < |Chunks(s)| ==> 1 <= |Chunks(s)[k]| <= VersesPerSlide
    ensures forall k :: 0 <= k < |Chunks(s)| - 1 ==> |Chunks(s)[k]| == VersesPerSlide
    decreases |s|
  {
    if |s| > VersesPerSlide {
      ChunksSizes(s[VersesPerSlide..]);
      assert Chunks(s)[1..] == Chunks(s[VersesPerSlide..]);
      forall k | 1 <= k < |Chunks(s)|
        ensures Chunks(s)[k] == Chunks(s[VersesPerSlide..])[k - 1]
      {
      }
    }
  }

  /** The slice `all_verses[5k : 5k + 5]`, clipped at the end of the list. */
  function Run(s: seq<Verse>, k: nat): (run: seq<Verse>)
    requires VersesPerSlide * k < |s|
    ensures 1 <= |run| <= VersesPerSlide
  {
    s[VersesPerSlide * k .. Min(VersesPerSlide * k + VersesPerSlide, |s|)]
  }

  /** Run `k` of `Chunks` is exactly `Run(s, k)`: runs are positional,
      whatever chapters they cover. */
  lemma {:induction false} ChunkAt(s: seq<Verse>, k: nat)
    requires k < |Chunks(s)|
    ensures VersesPerSlide * k < |s|
    ensures Chunks(s)[k] == Run(s, k)
    decreases |s|
  {
    if k > 0 {
      var rest := s[VersesPerSlide..];
      assert |s| > VersesPerSlide;
      ChunkAt(rest, k - 1);
      assert Chunks(s)[k] == Chunks(rest)[k - 1];
      assert VersesPerSlide * k == VersesPerSlide * (k - 1) + VersesPerSlide;
      assert Run(rest, k - 1) == Run(s, k);
    }
  }

  // ---------------------------------------------------------------------
  // What goes on one slide

  /** The first and last verse of a run. */
  function Ends(chunk: seq<Verse>): Span
    requires |chunk| >= 1
  {
    Span(chunk[0].chapter, chunk[0].verse, chunk[|chunk| - 1].chapter, chunk[|chunk| - 1].verse)
  }

  /** The slide title: `"{book} {c}:{v1}-{v2}"` when the run starts and ends
      in the same chapter (a single verse included), otherwise
      `"{book} {c1}:{v1} - {c2}:{v2}"`. */
  function Title(book: string, chunk: seq<Verse>): string
    requires |chunk| >= 1
  {
    var first, last := chunk[0], chunk[|chunk| - 1];
    if first.chapter == last.chapter then
      book + " " + IntToString(first.chapter) + ":" + IntToString(first.verse)
      + "-" + IntToString(last.verse)
    else
      book + " " + IntToString(first.chapter) + ":" + IntToString(first.verse)
      + " - " + IntToString(last.chapter) + ":" + IntToString(last.verse)
  }

  function TextIn(v: Verse, lang: Language): string {
    match lang
    case English => v.en
    case Hebrew => v.he
  }

  /** `[v['en'] for v in verse_chunk]` (or `'he'`). */
  function Texts(chunk: seq<Verse>, lang: Language): seq<string>
    decreases |chunk|
  {
    if |chunk| == 0 then [] else [TextIn(chunk[0], lang)] + Texts(chunk[1..], lang)
  }

  /** One slide: its title and `" ".join` of each language's texts. */
  function SlideFor(book: string, chunk: seq<Verse>): Slide
    requires |chunk| >= 1
  {
    Slide(Title(book, chunk), Join(Texts(chunk, English), " "), Join(Texts(chunk, Hebrew), " "))
  }

  // ---------------------------------------------------------------------
  // The loop itself

  /** `m` runs of five cover exactly the lists of `5m - 4` to `5m` verses. */
  lemma RunCount(n: nat, m: nat)
    requires n <= VersesPerSlide * m < n + VersesPerSlide
    ensures m == (n + VersesPerSlide - 1) / VersesPerSlide
  {
  }

  /** Lines 114-132 for one run: its title and its two joined texts. A
      proof aid for `CreateSlides`: the result is `SlideFor`, whose meaning
      `SameTitleIffSameEnds` and `SlideTextsCoverReading` state. The ghost
      `slideOf` is any function agreeing with `SlideFor`; the loop that
      calls this method reasons through it. */
  method MakeSlide(book: string, verseChunk: seq<Verse>, ghost slideOf: seq<Verse> --> Slide)
    returns (slide: Slide)
    requires |verseChunk| >= 1 && Makes(slideOf, book)
    ensures slide == SlideFor(book, verseChunk) == slideOf(verseChunk)
  {
    var titleText := Title(book, verseChunk);
    var enText := Join(Texts(verseChunk, English), " ");
    var heText := Join(Texts(verseChunk, Hebrew), " ");
    slide := Slide(titleText, enText, heText);
  }

  /** `f` applied to each of the first `m` slices of five, in order. */
  function MapRuns(f: seq<Verse> --> Slide, s: seq<Verse>, m: nat): seq<Slide>
    requires m == 0 || VersesPerSlide * (m - 1) < |s|
    requires forall c :: 1 <= |c| ==> f.requires(c)
    decreases m
  {
    if m == 0 then []
    else MapRuns(f, s, m - 1) + [f(Run(s, m - 1))]
  }

  lemma {:induction false} MapRunsLength(f: seq<Verse> --> Slide, s: seq<Verse>, m: nat)
    requires m == 0 || VersesPerSlide * (m - 1) < |s|
    requires forall c :: 1 <= |c| ==> f.requires(c)
    ensures |MapRuns(f, s, m)| == m
    decreases m
  {
    if m > 0 {
      MapRunsLength(f, s, m - 1);
    }
  }

  /** Element `k` of the first `m` is `f` of slice `k`. */
  lemma {:induction false} MapRunsAt(f: seq<Verse> --> Slide, s: seq<Verse>, m: nat, k: nat)
    requires k < m && VersesPerSlide * (m - 1) < |s|
    requires forall c :: 1 <= |c| ==> f.requires(c)
    ensures |MapRuns(f, s, m)| == m
    ensures VersesPerSlide * k < |s| && MapRuns(f, s, m)[k] == f(Run(s, k))
    decreases m
  {
    MapRunsLength(f, s, m);
    if k < m - 1 {
      MapRunsAt(f, s, m - 1, k);
      assert MapRuns(f, s, m)[k] == MapRuns(f, s, m - 1)[k];
    }
  }

  /** One more slice: the slice starting at `i` is appended. */
  lemma MapRunsStep(f: seq<Verse> --> Slide, s: seq<Verse>, m: nat, i: nat)
    requires i == VersesPerSlide * m < |s|
    requires forall c :: 1 <= |c| ==> f.requires(c)
    ensures MapRuns(f, s, m + 1)
            == MapRuns(f, s, m) + [f(s[i..Min(i + VersesPerSlide, |s|)])]
  {
  }

  /** Once the slices of five cover the list, element `k` is `f` of run
      `k` of `Chunks`. */
  lemma MapRunsChunks(f: seq<Verse> --> Slide, s: seq<Verse>, m: nat, k: nat)
    requires |s| <= VersesPerSlide * m < |s| + VersesPerSlide && k < m
    requires forall c :: 1 <= |c| ==> f.requires(c)
    ensures |MapRuns(f, s, m)| == m == |Chunks(s)|
    ensures |Chunks(s)[k]| >= 1 && MapRuns(f, s, m)[k] == f(Chunks(s)[k])
  {
    RunsAreChunks(s, m);
    MapRunsAt(f, s, m, k);
  }

  /** `SlideFor` as a function value. */
  function SlideMaker(book: string): seq<Verse> --> Slide {
    c requires |c| >= 1 => SlideFor(book, c)
  }

  /** `f` makes the slide `SlideFor(book, c)` of every run `c`. */
  ghost predicate Makes(f: seq<Verse> --> Slide, book: string) {
    (forall c :: 1 <= |c| ==> f.requires(c))
    && forall c {:trigger SlideFor(book, c)} :: 1 <= |c| ==> f(c) == SlideFor(book, c)
  }

  /** Slides made run by run from covering slices show `Chunks`, in order. */
  lemma SlidesShowChunks(f: seq<Verse> --> Slide, book: string, s: seq<Verse>, slides: seq<Slide>)
    requires Makes(f, book)
    requires |s| <= VersesPerSlide * |slides| < |s| + VersesPerSlide
    requires slides == MapRuns(f, s, |slides|)
    ensures |slides| == |Chunks(s)|
    ensures forall k :: 0 <= k < |slides| ==>
      |Chunks(s)[k]| >= 1 && slides[k] == SlideFor(book, Chunks(s)[k])
  {
    RunsAreChunks(s, |slides|);
    forall k | 0 <= k < |slides|
      ensures |Chunks(s)[k]| >= 1 && slides[k] == SlideFor(book, Chunks(s)[k])
    {
      MapRunsChunks(f, s, |slides|, k);
    }
  }

  /** Lines 105-132: one slide per run of five, in order; slide `k` shows
      run `k` of `Chunks`, its title and its two joined texts. */
  method CreateSlides(data: Parasha) returns (slides: seq<Slide>)
    ensures |slides| == |Chunks(data.verses)|
    ensures forall k :: 0 <= k < |slides| ==>
      |Chunks(data.verses)[k]| >= 1 && slides[k] == SlideFor(data.book, Chunks(data.verses)[k])
  {
    var allVerses := data.verses;
    var totalVerses := |allVerses|;
    slides := [];
    // `slideOf` is `SlideMaker(data.book)` seen only through its values
    assert Makes(SlideMaker(data.book), data.book);
    ghost var slideOf: seq<Verse> --> Slide :| Makes(slideOf, data.book);
    var i := 0;
    while i < totalVerses
      invariant i == Min(VersesPerSlide * |slides|, totalVerses)
      invariant VersesPerSlide * |slides| < totalVerses + VersesPerSlide
      invariant Makes(slideOf, data.book)
      invariant slides == MapRuns(slideOf, allVerses, |slides|)
    {
      var chunkEnd := Min(i + VersesPerSlide, totalVerses);
      var verseChunk := allVerses[i..chunkEnd];
      MapRunsStep(slideOf, allVerses, |slides|, i);
      var slide := MakeSlide(data.book, verseChunk, slideOf);
      slides := slides + [slide];
      // the next value of range(0, total_verses, 5); the last chunk ends the loop
      i := chunkEnd;
    }
    SlidesShowChunks(slideOf, data.book, allVerses, slides);
  }

  /** `m` slices of five cover a list exactly when they are its `Chunks`. */
  lemma RunsAreChunks(s: seq<Verse>, m: nat)
    requires |s| <= VersesPerSlide * m < |s| + VersesPerSlide
    ensures m == |Chunks(s)|
    ensures forall k :: 0 <= k < m ==> VersesPerSlide * k < |s| && Chunks(s)[k] == Run(s, k)
  {
    ChunksSizes(s);
    RunCount(|s|, m);
    forall k | 0 <= k < m
      ensures VersesPerSlide * k < |s| && Chunks(s)[k] == Run(s, k)
    {
      ChunkAt(s, k);
    }
  }

  // ---------------------------------------------------------------------
  // Properties of the slides

  /** `" ".join` of each run's texts, run by run. */
  function RunTexts(cs: seq<seq<Verse>>, lang: Language): seq<string>
    decreases |cs|
  {
    if |cs| == 0 then [] else [Join(Texts(cs[0], lang), " ")] + RunTexts(cs[1..], lang)
  }

  /** The slide texts, read in order, carry the whole reading: joining the
      runs' texts with a space gives the space-join of every verse's text,
      across chunk and chapter boundaries alike. */
  lemma {:induction false} SlideTextsCoverReading(s: seq<Verse>, lang: Language)
    ensures Join(RunTexts(Chunks(s), lang), " ") == Join(Texts(s, lang), " ")
    decreases |s|
  {
    if |s| > VersesPerSlide {
      var head, rest := s[..VersesPerSlide], s[VersesPerSlide..];
      SlideTextsCoverReading(rest, lang);
      TextsAppend(head, rest, lang);
      assert s == head + rest;
      JoinAppend(Texts(head, lang), Texts(rest, lang), " ");
      assert Chunks(s) == [head] + Chunks(rest);
      assert RunTexts(Chunks(s), lang) == [Join(Texts(head, lang), " ")] + RunTexts(Chunks(rest), lang);
    }
  }

  /** The texts of a concatenation are the texts of its parts, in order. */
  lemma TextsAppend(a: seq<Verse>, b: seq<Verse>, lang: Language)
    ensures Texts(a + b, lang) == Texts(a, lang) + Texts(b, lang)
  {
    TextsAt(a + b, lang);
    TextsAt(a, lang);
    TextsAt(b, lang);
    var whole, parts := Texts(a + b, lang), Texts(a, lang) + Texts(b, lang);
    forall i | 0 <= i < |whole|
      ensures whole[i] == parts[i]
    {
      if i < |a| {
        assert (a + b)[i] == a[i];
      } else {
        assert (a + b)[i] == b[i - |a|];
      }
    }
  }

  lemma {:induction false} TextsAt(chunk: seq<Verse>, lang: Language)
    ensures |Texts(chunk, lang)| == |chunk|
    ensures forall i :: 0 <= i < |chunk| ==> Texts(chunk, lang)[i] == TextIn(chunk[i], lang)
    decreases |chunk|
  {
    if |chunk| > 0 {
      TextsAt(chunk[1..], lang);
    }
  }

  // ---------------------------------------------------------------------
  // The title identifies its run's ends

  /** Reads a title back into the first and last verse it names; the
      inverse of `Title` for a given book. */
  function DecodeTitle(book: string, title: string): Option<Span> {
    var prefix := book + " ";
    if |title| < |prefix| || title[..|prefix|] != prefix then None
    else DecodeReference(title[|prefix|..])
  }

  /** Reads `:n` from the front of `s`. */
  function ReadColonInt(s: string): Option<(int, string)> {
    if |s| == 0 || s[0] != ':' then None else ReadInt(s[1..])
  }

  /** Reads `c1:v1` and hands what follows to `DecodeTail`. */
  function DecodeReference(s: string): Option<Span> {
    match ReadInt(s)
    case None => None
    case Some((c1, rest)) =>
      match ReadColonInt(rest)
      case None => None
      case Some((v1, tail)) => DecodeTail(c1, v1, tail)
  }

  /** What follows `c1:v1`: `-v2` in the same chapter, or ` - c2:v2` in a
      different one. */
  function DecodeTail(c1: int, v1: int, tail: string): Option<Span> {
    if |tail| >= 1 && tail[0] == '-' then SameChapterEnd(c1, v1, tail[1..])
    else if |tail| >= 3 && tail[..3] == " - " then OtherChapterEnd(c1, v1, tail[3..])
    else None
  }

  /** `v2`, ending the title. */
  function SameChapterEnd(c1: int, v1: int, s: string): Option<Span> {
    match ReadInt(s)
    case None => None
    case Some((v2, end)) => if |end| == 0 then Some(Span(c1, v1, c1, v2)) else None
  }

  /** `c2:v2` with `c2` another chapter than `c1`, ending the title. */
  function OtherChapterEnd(c1: int, v1: int, s: string): Option<Span> {
    match ReadInt(s)
    case None => None
    case Some((c2, rest)) =>
      if c2 == c1 then None
      else
        match ReadColonInt(rest)
        case None => None
        case Some((v2, end)) => if |end| == 0 then Some(Span(c1, v1, c2, v2)) else None
  }

  lemma ReadColonIntOf(n: int, t: string)
    requires |t| == 0 || !IsDigit(t[0])
    ensures ReadColonInt(":" + IntToString(n) + t) == Some((n, t))
  {
    var s := ":" + IntToString(n) + t;
    assert s[1..] == IntToString(n) + t;
    ReadIntToString(n, t);
  }

  lemma SameChapterEndOf(c: int, v1: int, v2: int)
    ensures SameChapterEnd(c, v1, IntToString(v2)) == Some(Span(c, v1, c, v2))
  {
    assert IntToString(v2) + "" == IntToString(v2);
    ReadIntToString(v2, "");
  }

  lemma OtherChapterEndOf(c1: int, v1: int, c2: int, v2: int)
    requires c1 != c2
    ensures OtherChapterEnd(c1, v1, IntToString(c2) + (":" + IntToString(v2)))
            == Some(Span(c1, v1, c2, v2))
  {
    ReadIntToString(c2, ":" + IntToString(v2));
    assert ":" + IntToString(v2) + "" == ":" + IntToString(v2);
    ReadColonIntOf(v2, "");
  }

  /** Associativity of string concatenation, stated once for the title
      proofs; it is no property of the source. */
  lemma Reassociate(a: string, b: string, c: string, d: string)
    ensures a + b + c + d == a + (b + (c + d))
  {
  }

  lemma DecodeTailHyphen(c1: int, v1: int, rest: string)
    ensures DecodeTail(c1, v1, "-" + rest) == SameChapterEnd(c1, v1, rest)
  {
    assert ("-" + rest)[1..] == rest;
  }

  lemma DecodeTailSpacedHyphen(c1: int, v1: int, rest: string)
    ensures DecodeTail(c1, v1, " - " + rest) == OtherChapterEnd(c1, v1, rest)
  {
    var tail := " - " + rest;
    assert tail[0] == ' ' && tail[..3] == " - " && tail[3..] == rest;
  }

  lemma DecodeTailSameChapter(c: int, v1: int, v2: int)
    ensures DecodeTail(c, v1, "-" + IntToString(v2)) == Some(Span(c, v1, c, v2))
  {
    DecodeTailHyphen(c, v1, IntToString(v2));
    SameChapterEndOf(c, v1, v2);
  }

  lemma DecodeTailOtherChapter(c1: int, v1: int, c2: int, v2: int)
    requires c1 != c2
    ensures DecodeTail(c1, v1, " - " + IntToString(c2) + ":" + IntToString(v2))
            == Some(Span(c1, v1, c2, v2))
  {
    var rest := IntToString(c2) + (":" + IntToString(v2));
    Reassociate(" - ", IntToString(c2), ":", IntToString(v2));
    DecodeTailSpacedHyphen(c1, v1, rest);
    OtherChapterEndOf(c1, v1, c2, v2);
  }

  lemma DecodeReferenceOf(c1: int, v1: int, tail: string)
    requires |tail| >= 1 && (tail[0] == '-' || tail[0] == ' ')
    ensures DecodeReference(IntToString(c1) + (":" + IntToString(v1) + tail))
            == DecodeTail(c1, v1, tail)
  {
    ReadIntToString(c1, ":" + IntToString(v1) + tail);
    ReadColonIntOf(v1, tail);
  }

  lemma DecodeTitleHead(book: string, c1: int, v1: int, tail: string)
    requires |tail| >= 1 && (tail[0] == '-' || tail[0] == ' ')
    ensures DecodeTitle(book, book + " " + IntToString(c1) + ":" + IntToString(v1) + tail)
            == DecodeTail(c1, v1, tail)
  {
    var prefix := book + " ";
    var x := IntToString(c1) + (":" + IntToString(v1) + tail);
    assert book + " " + IntToString(c1) + ":" + IntToString(v1) + tail == prefix + x;
    assert (prefix + x)[..|prefix|] == prefix && (prefix + x)[|prefix|..] == x;
    DecodeReferenceOf(c1, v1, tail);
  }

  /** Each title names its run's first and last verse unambiguously. */
  lemma DecodeTitleOfTitle(book: string, chunk: seq<Verse>)
    requires |chunk| >= 1
    ensures DecodeTitle(book, Title(book, chunk)) == Some(Ends(chunk))
  {
    var first, last := chunk[0], chunk[|chunk| - 1];
    if first.chapter == last.chapter {
      var tail := "-" + IntToString(last.verse);
      assert Title(book, chunk)
          == book + " " + IntToString(first.chapter) + ":" + IntToString(first.verse) + tail;
      DecodeTitleHead(book, first.chapter, first.verse, tail);
      DecodeTailSameChapter(first.chapter, first.verse, last.verse);
    } else {
      var tail := " - " + IntToString(last.chapter) + ":" + IntToString(last.verse);
      assert Title(book, chunk)
          == book + " " + IntToString(first.chapter) + ":" + IntToString(first.verse) + tail;
      DecodeTitleHead(book, first.chapter, first.verse, tail);
      DecodeTailOtherChapter(first.chapter, first.verse, last.chapter, last.verse);
    }
  }

  /** A title depends on nothing but its run's first and last verse, and
      two runs of the same book get the same title exactly when their ends
      have the same chapter and verse numbers. */
  lemma SameTitleIffSameEnds(book: string, a: seq<Verse>, b: seq<Verse>)
    requires |a| >= 1 && |b| >= 1
    ensures Title(book, a) == Title(book, b) <==> Ends(a) == Ends(b)
  {
    DecodeTitleOfTitle(book, a);
    DecodeTitleOfTitle(book, b);
  }
}
