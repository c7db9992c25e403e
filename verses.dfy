/** Flattening the text response of the verse API into one ordered list of
    verse records, as `get_parasha_data` does once the response is decoded
    (parashat_generator.py lines 56-90). */
module Verses {
  import opened PyText

  /** One record of the flat list: `{chapter, verse, en, he}`. */
  datatype Verse = Verse(chapter: int, verse: int, en: string, he: string)

  /** The decoded text response. `sections`, `text` and `he` are read with
      `.get(key, [])`, so an absent key is the empty list; `sectionNames`
      and `book` are read by subscript, so an absent key is `None` here. */
  datatype TextResponse = TextResponse(
    sections: seq<int>,
    text: seq<seq<string>>,
    he: seq<seq<string>>,
    sectionNames: Option<seq<string>>,
    book: Option<string>)

  /** What `get_parasha_data` hands on to the presentation: the book name and
      the flat verse list (the calendar fields come from other requests). */
  datatype Parasha = Parasha(book: string, verses: seq<Verse>)

  function Min(a: int, b: int): int {
    if a <= b then a else b
  }

  // ---------------------------------------------------------------------
  // Specification of the loop

  /** A chapter block is used only when both language lists reach its index. */
  predicate Kept(r: TextResponse, idx: nat) {
    idx < |r.text| && idx < |r.he|
  }

  /** Number of records block `idx` contributes: `zip` stops at the shorter
      list, and a skipped block contributes none. */
  function BlockSize(r: TextResponse, idx: nat): nat {
    if Kept(r, idx) then Min(|r.text[idx]|, |r.he[idx]|) else 0
  }

  /** The piece of `s.split(':')` at index 1, if there is one. */
  function FieldAfterColon(s: string): Option<string> {
    var parts := Split(s, ':');
    if |parts| >= 2 then Some(parts[1]) else None
  }

  /** `start_vs`: the integer after the first colon of `sectionNames[idx]`;
      1 when the entry is missing, has no colon, or is not an integer. */
  function StartVerse(names: seq<string>, idx: nat): int {
    if idx >= |names| then 1
    else
      match FieldAfterColon(names[idx])
      case None => 1
      case Some(field) =>
        match ParseInt(field)
        case None => 1
        case Some(v) => v
  }

  /** `enumerate(zip(en, he))` turned into records numbered from `start`. */
  function ZipBlock(chapter: int, start: int, en: seq<string>, he: seq<string>,
                    clean: string -> string): seq<Verse>
    decreases |en|
  {
    if |en| == 0 || |he| == 0 then []
    else [Verse(chapter, start, clean(en[0]), clean(he[0]))]
         + ZipBlock(chapter, start + 1, en[1..], he[1..], clean)
  }


  /** The start verse of every block, as `sectionNames` gives them. */
  function StartsOf(names: seq<string>): nat -> int {
    (idx: nat) => StartVerse(names, idx)
  }

  /** The records of chapter block `idx`, numbered from `starts(idx)`. */
  function Block(r: TextResponse, starts: nat -> int, clean: string -> string,
                 idx: nat): seq<Verse>
    requires idx < |r.sections|
  {
    if Kept(r, idx)
    then ZipBlock(r.sections[idx], starts(idx), r.text[idx], r.he[idx], clean)
    else []
  }

  /** The list after the first `k` chapter blocks. */
  function Flattened(r: TextResponse, starts: nat -> int, clean: string -> string,
                     k: nat): seq<Verse>
    requires k <= |r.sections|
  {
    if k == 0 then [] else Flattened(r, starts, clean, k - 1) + Block(r, starts, clean, k - 1)
  }

  function Names(r: TextResponse): seq<string> {
    match r.sectionNames
    case Some(names) => names
    case None => []
  }

  /** `text_data['sectionNames']` is evaluated, and raises KeyError, as soon
      as a block is kept. */
  predicate NamesLookupFails(r: TextResponse) {
    r.sectionNames.None? && exists idx :: 0 <= idx < |r.sections| && Kept(r, idx)
  }

  /** The result of `get_parasha_data` as far as the text response decides
      it; `None` wherever an exception reaches the blanket handler. */
  function ParashaData(r: TextResponse, clean: string -> string): Option<Parasha> {
    if NamesLookupFails(r) then None
    else
      var verses := Flattened(r, StartsOf(Names(r)), clean, |r.sections|);
      if |verses| == 0 then None
      else
        match r.book
        case None => None
        case Some(b) => Some(Parasha(b, verses))
  }

  // ---------------------------------------------------------------------
  // The loop itself

  /** `starts` numbers every block as `sectionNames` does. */
  ghost predicate Numbers(starts: nat -> int, names: seq<string>) {
    forall idx {:trigger StartVerse(names, idx)} :: starts(idx) == StartVerse(names, idx)
  }

  /** Lines 67-70: `start_vs` for block `idx`, 1 where the lookup raises
      IndexError or ValueError. A proof aid for the outer loop: the result
      is `StartVerse`, whose meaning `StartVerseReadsAfterColon` and
      `StartVerseFallsBack` state, and equals the ghost `starts(idx)` so the
      loop need not unfold `StartVerse`. */
  method ReadStartVerse(names: seq<string>, idx: nat, ghost starts: nat -> int)
    returns (startVs: int)
    requires Numbers(starts, names)
    ensures startVs == StartVerse(names, idx) == starts(idx)
  {
    startVs := 1;
    if idx < |names| {
      var parts := Split(names[idx], ':');
      if |parts| >= 2 {
        match ParseInt(parts[1])
        case Some(v) => startVs := v;
        case None =>
      }
    }
  }

  /** Lines 72-79: the inner loop, appending one record per zipped pair. */
  method AppendBlock(allVerses: seq<Verse>, chapterNum: int, startVs: int,
                     enVerses: seq<string>, heVerses: seq<string>, clean: string -> string)
    returns (out: seq<Verse>)
    ensures out == allVerses + ZipBlock(chapterNum, startVs, enVerses, heVerses, clean)
  {
    ghost var block := ZipBlock(chapterNum, startVs, enVerses, heVerses, clean);
    ZipBlockAt(chapterNum, startVs, enVerses, heVerses, clean);
    out := allVerses;
    var verseIdx := 0;
    while verseIdx < |enVerses| && verseIdx < |heVerses|
      invariant verseIdx <= |enVerses| && verseIdx <= |heVerses|
      invariant out == allVerses + block[..verseIdx]
    {
      assert block[..verseIdx + 1] == block[..verseIdx] + [block[verseIdx]];
      out := out + [Verse(chapterNum, startVs + verseIdx,
                          clean(enVerses[verseIdx]), clean(heVerses[verseIdx]))];
      verseIdx := verseIdx + 1;
    }
    assert block[..verseIdx] == block;
  }

  /** Lines 56-94: the nested loops append to `allVerses` block by block;
      every exception ends in the blanket handler, which returns `None`. */
  method GetParashaVerses(r: TextResponse, clean: string -> string)
    returns (result: Option<Parasha>)
    ensures result == ParashaData(r, clean)
  {
    var allVerses: seq<Verse> := [];
    // `starts` is `StartsOf(Names(r))` seen only through its values
    assert Numbers(StartsOf(Names(r)), Names(r));
    ghost var starts: nat -> int :| Numbers(starts, Names(r));
    var chapIdx := 0;
    while chapIdx < |r.sections|
      invariant chapIdx <= |r.sections|
      invariant Numbers(starts, Names(r))
      invariant allVerses == Flattened(r, starts, clean, chapIdx)
      invariant r.sectionNames.None? ==> forall i :: 0 <= i < chapIdx ==> !Kept(r, i)
    {
      assert Flattened(r, starts, clean, chapIdx + 1)
        == allVerses + Block(r, starts, clean, chapIdx);
      var chapterNum := r.sections[chapIdx];
      if chapIdx >= |r.text| || chapIdx >= |r.he| {
        chapIdx := chapIdx + 1;
        continue;
      }
      var enVerses := r.text[chapIdx];
      var heVerses := r.he[chapIdx];
      if r.sectionNames.None? {
        // KeyError, caught by the handler around the whole function
        assert Kept(r, chapIdx);
        return None;
      }
      var startVs := ReadStartVerse(r.sectionNames.value, chapIdx, starts);
      allVerses := AppendBlock(allVerses, chapterNum, startVs, enVerses, heVerses, clean);
      chapIdx := chapIdx + 1;
    }
    SameStartsSameFlattened(r, starts, StartsOf(Names(r)), clean, chapIdx);
    if |allVerses| == 0 {
      // ValueError("No verses were parsed ...")
      return None;
    }
    if r.book.None? {
      // KeyError on text_data["book"]
      return None;
    }
    return Some(Parasha(r.book.value, allVerses));
  }

  // ---------------------------------------------------------------------
  // Properties
  //
  // They hold for any numbering `starts` of the blocks' first verses;
  // `ParashaData` uses `StartsOf(Names(r))`.

  /** A zipped block holds one record per pair, the shorter list deciding
      the count, numbered consecutively from `start`. */
  lemma {:induction false} ZipBlockAt(chapter: int, start: int, en: seq<string>,
                                      he: seq<string>, clean: string -> string)
    ensures |ZipBlock(chapter, start, en, he, clean)| == Min(|en|, |he|)
    ensures forall j :: 0 <= j < Min(|en|, |he|) ==>
      ZipBlock(chapter, start, en, he, clean)[j]
        == Verse(chapter, start + j, clean(en[j]), clean(he[j]))
    decreases |en|
  {
    if |en| > 0 && |he| > 0 {
      ZipBlockAt(chapter, start + 1, en[1..], he[1..], clean);
    }
  }

  /** The length part of `ZipBlockAt` alone. It adds nothing to that lemma;
      it only keeps the record facts out of proofs that need the length. */
  lemma {:induction false} ZipBlockLength(chapter: int, start: int, en: seq<string>,
                                          he: seq<string>, clean: string -> string)
    ensures |ZipBlock(chapter, start, en, he, clean)| == Min(|en|, |he|)
    decreases |en|
  {
    if |en| > 0 && |he| > 0 {
      ZipBlockLength(chapter, start + 1, en[1..], he[1..], clean);
    }
  }

  /** Where block `idx` starts in the flat list: the sizes of the blocks
      before it. */
  function Offset(r: TextResponse, idx: nat): nat {
    if idx == 0 then 0 else Offset(r, idx - 1) + BlockSize(r, idx - 1)
  }

  /** Record `j` of chapter block `idx`, as line 74 builds it. */
  function Record(r: TextResponse, starts: nat -> int, clean: string -> string,
                  idx: nat, j: nat): Verse
    requires idx < |r.sections| && j < BlockSize(r, idx)
  {
    Verse(r.sections[idx], starts(idx) + j,
          clean(r.text[idx][j]), clean(r.he[idx][j]))
  }

  lemma {:induction false} OffsetMonotone(r: TextResponse, a: nat, b: nat)
    requires a <= b
    ensures Offset(r, a) + (if a < b then BlockSize(r, a) else 0) <= Offset(r, b)
    decreases b - a
  {
    if a < b {
      OffsetMonotone(r, a + 1, b);
    }
  }

  /** Block `idx` consists of exactly its `BlockSize` records, in order. */
  lemma BlockAt(r: TextResponse, starts: nat -> int, clean: string -> string, idx: nat)
    requires idx < |r.sections|
    ensures |Block(r, starts, clean, idx)| == BlockSize(r, idx)
    ensures forall j :: 0 <= j < BlockSize(r, idx) ==>
      Block(r, starts, clean, idx)[j] == Record(r, starts, clean, idx, j)
  {
    if Kept(r, idx) {
      ZipBlockAt(r.sections[idx], starts(idx), r.text[idx], r.he[idx], clean);
    }
  }

  /** Block `idx` holds `BlockSize(idx)` records: the length part of
      `BlockAt`, split off only to keep proofs that need it cheap. */
  lemma BlockLength(r: TextResponse, starts: nat -> int, clean: string -> string, idx: nat)
    requires idx < |r.sections|
    ensures |Block(r, starts, clean, idx)| == BlockSize(r, idx)
  {
    if Kept(r, idx) {
      ZipBlockLength(r.sections[idx], starts(idx), r.text[idx], r.he[idx], clean);
    }
  }

  /** Record `j` of block `idx`, one at a time: the record part of
      `BlockAt` without its quantifier, a proof aid with no new content. */
  lemma BlockRecord(r: TextResponse, starts: nat -> int, clean: string -> string,
                    idx: nat, j: nat)
    requires idx < |r.sections| && j < BlockSize(r, idx)
    ensures |Block(r, starts, clean, idx)| == BlockSize(r, idx)
    ensures Block(r, starts, clean, idx)[j] == Record(r, starts, clean, idx, j)
  {
    BlockAt(r, starts, clean, idx);
  }

  /** The flat list is as long as all blocks together. */
  lemma {:induction false} FlattenedLength(r: TextResponse, starts: nat -> int,
                                           clean: string -> string, k: nat)
    requires k <= |r.sections|
    ensures |Flattened(r, starts, clean, k)| == Offset(r, k)
    decreases k
  {
    if k > 0 {
      var last := k - 1;
      FlattenedLength(r, starts, clean, last);
      BlockLength(r, starts, clean, last);
      assert Flattened(r, starts, clean, k)
        == Flattened(r, starts, clean, last) + Block(r, starts, clean, last);
    }
  }

  /** Only the start verses of the first `k` blocks matter. */
  lemma {:induction false} SameStartsSameFlattened(r: TextResponse, s1: nat -> int, s2: nat -> int,
                                                   clean: string -> string, k: nat)
    requires k <= |r.sections|
    requires forall idx :: 0 <= idx < k ==> s1(idx) == s2(idx)
    ensures Flattened(r, s1, clean, k) == Flattened(r, s2, clean, k)
    decreases k
  {
    if k > 0 {
      SameStartsSameFlattened(r, s1, s2, clean, k - 1);
    }
  }

  /** Later blocks only extend the flat list. */
  lemma {:induction false} FlattenedPrefix(r: TextResponse, starts: nat -> int,
                                           clean: string -> string, m: nat, k: nat, x: nat)
    requires m <= k <= |r.sections| && x < |Flattened(r, starts, clean, m)|
    ensures x < |Flattened(r, starts, clean, k)|
    ensures Flattened(r, starts, clean, k)[x] == Flattened(r, starts, clean, m)[x]
    decreases k - m
  {
    if m < k {
      var last := k - 1;
      FlattenedPrefix(r, starts, clean, m, last, x);
      var prev := Flattened(r, starts, clean, last);
      assert Flattened(r, starts, clean, k) == prev + Block(r, starts, clean, last);
      assert x < |prev|;
    }
  }

  /** The flat list is the blocks laid end to end in `sections` order:
      record `j` of block `idx` sits at `Offset(idx) + j`, carrying
      `sections[idx]` as chapter and `starts(idx) + j` as verse, and
      the English and Hebrew strings of pair `j` passed through `clean`. */
  lemma FlattenedAt(r: TextResponse, starts: nat -> int,
                    clean: string -> string, k: nat, idx: nat, j: nat)
    requires k <= |r.sections| && idx < k && j < BlockSize(r, idx)
    ensures Offset(r, idx) + j < Offset(r, k) == |Flattened(r, starts, clean, k)|
    ensures Flattened(r, starts, clean, k)[Offset(r, idx) + j] == Record(r, starts, clean, idx, j)
  {
    FlattenedAtOffset(r, starts, clean, k, idx, j);
    FlattenedAtRecord(r, starts, clean, k, idx, j);
  }

  /** The position part of `FlattenedAt`, split off so that each half of
      that lemma stays a small proof; it says nothing `FlattenedAt` does not. */
  lemma FlattenedAtOffset(r: TextResponse, starts: nat -> int,
                          clean: string -> string, k: nat, idx: nat, j: nat)
    requires k <= |r.sections| && idx < k && j < BlockSize(r, idx)
    ensures Offset(r, idx) + j < Offset(r, k) == |Flattened(r, starts, clean, k)|
  {
    OffsetMonotone(r, idx, k);
    FlattenedLength(r, starts, clean, k);
  }

  /** The record part of `FlattenedAt`, split off for the same reason as
      `FlattenedAtOffset`. */
  lemma FlattenedAtRecord(r: TextResponse, starts: nat -> int,
                          clean: string -> string, k: nat, idx: nat, j: nat)
    requires k <= |r.sections| && idx < k && j < BlockSize(r, idx)
    ensures Offset(r, idx) + j < |Flattened(r, starts, clean, k)|
    ensures Flattened(r, starts, clean, k)[Offset(r, idx) + j] == Record(r, starts, clean, idx, j)
  {
    var p := Offset(r, idx) + j;
    LastBlockAt(r, starts, clean, idx, j);
    FlattenedPrefix(r, starts, clean, idx + 1, k, p);
    var a := Flattened(r, starts, clean, k)[p];
    var b := Flattened(r, starts, clean, idx + 1)[p];
    assert a == b;
  }

  /** The first `idx + 1` blocks end with record `j` of block `idx` at
      `Offset(idx) + j`. */
  lemma LastBlockAt(r: TextResponse, starts: nat -> int,
                    clean: string -> string, idx: nat, j: nat)
    requires idx < |r.sections| && j < BlockSize(r, idx)
    ensures Offset(r, idx) + j < |Flattened(r, starts, clean, idx + 1)|
    ensures Flattened(r, starts, clean, idx + 1)[Offset(r, idx) + j] == Record(r, starts, clean, idx, j)
  {
    FlattenedLength(r, starts, clean, idx);
    BlockRecord(r, starts, clean, idx, j);
    var prev := Flattened(r, starts, clean, idx);
    var block := Block(r, starts, clean, idx);
    assert Flattened(r, starts, clean, idx + 1) == prev + block;
  }

  /** Every record of block `idx` is one of its `Record`s. */
  lemma BlockOrigin(r: TextResponse, starts: nat -> int, clean: string -> string, idx: nat)
    requires idx < |r.sections|
    ensures forall v :: v in Block(r, starts, clean, idx) ==>
      exists j :: 0 <= j < BlockSize(r, idx) && v == Record(r, starts, clean, idx, j)
  {
    BlockAt(r, starts, clean, idx);
    forall v | v in Block(r, starts, clean, idx)
      ensures exists j :: 0 <= j < BlockSize(r, idx) && v == Record(r, starts, clean, idx, j)
    {
      var j :| 0 <= j < |Block(r, starts, clean, idx)| && Block(r, starts, clean, idx)[j] == v;
      assert v == Record(r, starts, clean, idx, j);
    }
  }

  /** Every record of the flat list is record `j` of some block `idx`:
      nothing is produced but the zipped pairs of the kept blocks. */
  lemma {:induction false} FlattenedOrigin(r: TextResponse, starts: nat -> int,
                                           clean: string -> string, k: nat)
    requires k <= |r.sections|
    ensures forall v :: v in Flattened(r, starts, clean, k) ==>
      exists idx, j :: 0 <= idx < k && 0 <= j < BlockSize(r, idx)
        && v == Record(r, starts, clean, idx, j)
    decreases k
  {
    if k > 0 {
      var last := k - 1;
      FlattenedOrigin(r, starts, clean, last);
      BlockOrigin(r, starts, clean, last);
      assert Flattened(r, starts, clean, k)
        == Flattened(r, starts, clean, last) + Block(r, starts, clean, last);
    }
  }

  /** Each record's chapter is the chapter number of a kept block. */
  lemma ChaptersComeFromSections(r: TextResponse, starts: nat -> int,
                                 clean: string -> string)
    ensures forall v :: v in Flattened(r, starts, clean, |r.sections|) ==>
      exists idx :: 0 <= idx < |r.sections| && Kept(r, idx) && v.chapter == r.sections[idx]
  {
    FlattenedOrigin(r, starts, clean, |r.sections|);
  }

  /** A kept, non-empty block starts in the flat list with its own chapter
      number and verse `start_vs`. */
  lemma BlockStartsAtStartVerse(r: TextResponse, starts: nat -> int,
                                clean: string -> string, idx: nat)
    requires idx < |r.sections| && 0 < BlockSize(r, idx)
    ensures var f := Flattened(r, starts, clean, |r.sections|);
      Offset(r, idx) < |f|
      && f[Offset(r, idx)].chapter == r.sections[idx]
      && f[Offset(r, idx)].verse == starts(idx)
  {
    FlattenedAt(r, starts, clean, |r.sections|, idx, 0);
  }

  /** Inside one block the verse numbers run `start_vs, start_vs + 1, ...`:
      each next record of the same block carries the same chapter and the
      next verse number. */
  lemma ConsecutiveWithinBlock(r: TextResponse, starts: nat -> int,
                               clean: string -> string, idx: nat, j: nat)
    requires idx < |r.sections| && j + 1 < BlockSize(r, idx)
    ensures var f := Flattened(r, starts, clean, |r.sections|);
      var p := Offset(r, idx) + j;
      p + 1 < |f|
      && f[p + 1].chapter == f[p].chapter == r.sections[idx]
      && f[p + 1].verse == f[p].verse + 1
  {
    FlattenedAt(r, starts, clean, |r.sections|, idx, j);
    FlattenedAt(r, starts, clean, |r.sections|, idx, j + 1);
  }

  lemma {:induction false} NothingKeptNothingFlattened(r: TextResponse, starts: nat -> int,
                                                       clean: string -> string, k: nat)
    requires k <= |r.sections|
    requires forall idx :: 0 <= idx < k ==> !Kept(r, idx)
    ensures Flattened(r, starts, clean, k) == []
    decreases k
  {
    if k > 0 {
      NothingKeptNothingFlattened(r, starts, clean, k - 1);
    }
  }

  /** Without `sectionNames` the function always fails: either a kept block
      raises KeyError, or no block is kept and the list stays empty. */
  lemma MissingSectionNamesFails(r: TextResponse, clean: string -> string)
    requires r.sectionNames.None?
    ensures ParashaData(r, clean) == None
  {
    if !NamesLookupFails(r) {
      NothingKeptNothingFlattened(r, StartsOf(Names(r)), clean, |r.sections|);
    }
  }

  lemma {:induction false} OffsetZeroMeansNothingKept(r: TextResponse, k: nat)
    ensures Offset(r, k) == 0 <==> forall idx :: 0 <= idx < k ==> BlockSize(r, idx) == 0
    decreases k
  {
    if k > 0 {
      OffsetZeroMeansNothingKept(r, k - 1);
    }
  }

  /** When `get_parasha_data` fails: exactly when `sectionNames` or `book`
      is missing, or every kept block zips to nothing. Otherwise it returns
      the book and a list of `Offset(|sections|)` records. */
  lemma ParashaDataOutcome(r: TextResponse, clean: string -> string)
    ensures ParashaData(r, clean) == None
      <==> r.sectionNames.None? || r.book.None?
           || forall idx :: 0 <= idx < |r.sections| ==> BlockSize(r, idx) == 0
    ensures ParashaData(r, clean).Some? ==>
      ParashaData(r, clean).value.book == r.book.value
      && |ParashaData(r, clean).value.verses| == Offset(r, |r.sections|) > 0
  {
    FlattenedLength(r, StartsOf(Names(r)), clean, |r.sections|);
    OffsetZeroMeansNothingKept(r, |r.sections|);
    if r.sectionNames.None? {
      MissingSectionNamesFails(r, clean);
    }
  }

  /** The start verse is the integer after the first colon, however the
      entry continues after a second colon and whatever spaces surround the
      number. */
  lemma StartVerseReadsAfterColon(names: seq<string>, idx: nat, before: string,
                                  w1: string, v: int, w2: string, after: string)
    requires idx < |names|
    requires ':' !in before && AllIntSpace(w1) && AllIntSpace(w2)
    requires |after| == 0 || after[0] == ':'
    requires names[idx] == before + ":" + w1 + IntToString(v) + w2 + after
    ensures StartVerse(names, idx) == v
  {
    var field := w1 + IntToString(v) + w2;
    IntToStringHasNoColon(v);
    PaddingHasNoColon(w1, IntToString(v), w2);
    if |after| == 0 {
      assert names[idx] == before + [':'] + field;
      SplitNoSeparator(field, ':');
    } else {
      assert names[idx] == before + [':'] + (field + [':'] + after[1..]);
      SplitAtFirst(field, ':', after[1..]);
    }
    SplitAtFirst(before, ':', names[idx][|before| + 1..]);
    ParseIntToString(v, w1, w2);
  }

  lemma PaddingHasNoColon(w1: string, x: string, w2: string)
    requires AllIntSpace(w1) && AllIntSpace(w2) && ':' !in x
    ensures ':' !in w1 + x + w2
  {
    var s := w1 + x + w2;
    forall i | 0 <= i < |s| ensures s[i] != ':' {
      if i < |w1| {
        assert s[i] == w1[i] && IsIntSpace(w1[i]);
      } else if i < |w1| + |x| {
        assert s[i] == x[i - |w1|];
      } else {
        assert s[i] == w2[i - |w1| - |x|] && IsIntSpace(w2[i - |w1| - |x|]);
      }
    }
  }

  lemma IntToStringHasNoColon(v: int)
    ensures ':' !in IntToString(v)
  {
    var m: nat := if v < 0 then -v else v;
    NatToStringDigits(m);
    var d := NatToString(m);
    var x := IntToString(v);
    forall i | 0 <= i < |x| ensures x[i] != ':' {
      if v < 0 && i == 0 {
        assert x[i] == '-';
      } else {
        assert x[i] == d[if v < 0 then i - 1 else i] && IsDigit(d[if v < 0 then i - 1 else i]);
      }
    }
  }

  /** The start verse falls back to 1 when the entry is missing, has no
      colon, or what follows the first colon is not an integer. */
  lemma StartVerseFallsBack(names: seq<string>, idx: nat)
    requires idx >= |names| || ':' !in names[idx]
             || (FieldAfterColon(names[idx]).Some?
                 && ParseInt(FieldAfterColon(names[idx]).value).None?)
    ensures StartVerse(names, idx) == 1
  {
    if idx < |names| && ':' !in names[idx] {
      SplitNoSeparator(names[idx], ':');
    }
  }
}
