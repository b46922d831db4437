/** What the exporter promises about the cards it builds, stated against
    independent descriptions of the extractor loops: the last fragment for
    a key decides its field, skipped fragments count for nothing, the
    `SanityCheck` pass is idempotent and leaves nothing for `FinalizeCard` to
    report as missing, and a scraped lesson yields a deck of complete notes. */
module ExportProperties {
  import opened Wrappers
  import opened PyStrings
  import opened RecordStore
  import opened AnkiExport

  // ---------------------------------------------------------------------------
  // text extractors

  /** The value of the last fragment for `k` that `e` does not skip, if any:
      read off the fragments alone, without running the loop. */
  function LastWritten(e: TextExtractor, frags: seq<Fragment>, k: Key): (v: Option<string>)
    ensures v.Some? <==> k in WrittenKeys(e, frags)
    decreases |frags|
  {
    if frags == [] then None
    else
      var init := frags[..|frags| - 1];
      var f := frags[|frags| - 1];
      assert frags == init + [f];
      WrittenKeysSnoc(e, init, f);
      if !e.Skips(f) && f.key == k then Some(e.Value(f.text))
      else LastWritten(e, init, k)
  }

  /** The fragments `e` does not skip, in order. */
  function Unskipped(e: TextExtractor, frags: seq<Fragment>): (r: seq<Fragment>)
    ensures |r| <= |frags|
    ensures forall i :: 0 <= i < |r| ==> !e.Skips(r[i])
    decreases |frags|
  {
    if frags == [] then []
    else
      var f := frags[|frags| - 1];
      Unskipped(e, frags[..|frags| - 1]) + (if e.Skips(f) then [] else [f])
  }

  /** Later fragments overwrite earlier ones: the record of a written key
      holds, in the extractor's field, the value of the last fragment for
      that key. */
  lemma {:induction false} ExtractLastWriteWins(e: TextExtractor, s: Store, frags: seq<Fragment>, k: Key)
    requires LastWritten(e, frags, k).Some?
    ensures var r := Extract(e, s, frags);
      && k in r.cards
      && e.Field() in r.cards[k]
      && r.cards[k][e.Field()] == LastWritten(e, frags, k).value
    decreases |frags|
  {
    var init := frags[..|frags| - 1];
    var f := frags[|frags| - 1];
    var p := Extract(e, s, init);
    assert frags == init + [f];
    assert Extract(e, s, frags) == ExtractStep(e, p, f);
    ExtractStepStore(e, p, f);
    if e.Skips(f) || f.key != k {
      ExtractLastWriteWins(e, s, init, k);
    }
  }

  /** A key no unskipped fragment carries is left exactly as it was: its
      record is neither created nor changed. */
  lemma {:induction false} ExtractUntouched(e: TextExtractor, s: Store, frags: seq<Fragment>, k: Key)
    requires LastWritten(e, frags, k).None?
    ensures var r := Extract(e, s, frags);
      && (k in r.cards <==> k in s.cards)
      && (k in s.cards ==> r.cards[k] == s.cards[k])
    decreases |frags|
  {
    if frags != [] {
      var init := frags[..|frags| - 1];
      var f := frags[|frags| - 1];
      var p := Extract(e, s, init);
      assert frags == init + [f];
      assert Extract(e, s, frags) == ExtractStep(e, p, f);
      ExtractStepStore(e, p, f);
      ExtractUntouched(e, s, init, k);
    }
  }

  /** The fragments an extractor passes over might as well not be there:
      running it on the unskipped ones gives the same store. */
  lemma {:induction false} ExtractDropSkipped(e: TextExtractor, s: Store, frags: seq<Fragment>)
    ensures Extract(e, s, Unskipped(e, frags)) == Extract(e, s, frags)
    decreases |frags|
  {
    if frags != [] {
      var init := frags[..|frags| - 1];
      var f := frags[|frags| - 1];
      var u := Unskipped(e, init);
      var p := Extract(e, s, init);
      assert frags == init + [f];
      assert Extract(e, s, frags) == ExtractStep(e, p, f);
      ExtractDropSkipped(e, s, init);
      if e.Skips(f) {
        assert Unskipped(e, frags) == u;
        ExtractStepStore(e, p, f);
      } else {
        assert Unskipped(e, frags) == u + [f];
        ExtractSnoc(e, s, u, f);
      }
    }
  }

  /** The extractor loop over one more fragment is one more step. */
  lemma ExtractSnoc(e: TextExtractor, s: Store, frags: seq<Fragment>, f: Fragment)
    ensures Extract(e, s, frags + [f]) == ExtractStep(e, Extract(e, s, frags), f)
  {
    assert (frags + [f])[..|frags|] == frags;
  }

  /** A field other than the extractor's survives an extractor loop
      unchanged. */
  lemma FieldSurvivesExtract(e: TextExtractor, s: Store, frags: seq<Fragment>, k: Key, fld: FieldName)
    requires fld != e.Field() && k in s.cards && fld in s.cards[k]
    ensures var r := Extract(e, s, frags);
      k in r.cards && fld in r.cards[k] && r.cards[k][fld] == s.cards[k][fld]
  {
    ExtractFrame(e, s, frags);
  }

  // ---------------------------------------------------------------------------
  // audio

  /** The media name of the last button for `k` that `GetAudio` keeps. */
  function LastAudioName(bs: seq<AudioButton>, k: Key): (v: Option<string>)
    requires Sourced(bs)
    ensures v.Some? <==> k in KeptKeys(bs)
    decreases |bs|
  {
    if bs == [] then None
    else
      var init := bs[..|bs| - 1];
      var b := bs[|bs| - 1];
      assert bs == init + [b];
      SourcedSnoc(init, b);
      KeptKeysSnoc(init, b);
      if !AudioSkipped(b) && b.key == k then Some(LastSegment(Strip(b.dataSrc.value), '/'))
      else LastAudioName(init, k)
  }

  /** The last kept button for a key decides its audio: `Japanese_Audio` is
      the `[sound:...]` tag of its media name and `audio_files` the bare
      name. */
  lemma {:induction false} AudioLastWriteWins(s: Store, files: seq<string>, bs: seq<AudioButton>, k: Key)
    requires Sourced(bs) && LastAudioName(bs, k).Some?
    ensures var st := GetAudio(s, files, bs).value.store;
      var name := LastAudioName(bs, k).value;
      && k in st.cards
      && JapaneseAudio in st.cards[k] && st.cards[k][JapaneseAudio] == SoundTag(name)
      && AudioFiles in st.cards[k] && st.cards[k][AudioFiles] == name
    decreases |bs|
  {
    var init := bs[..|bs| - 1];
    var b := bs[|bs| - 1];
    assert bs == init + [b];
    SourcedSnoc(init, b);
    var p := GetAudio(s, files, init).value;
    assert GetAudio(s, files, bs) == AudioStep(p, b);
    if AudioSkipped(b) || b.key != k {
      AudioLastWriteWins(s, files, init, k);
      if !AudioSkipped(b) {
        AudioStepStore(p, b);
      }
    } else {
      AudioStepStore(p, b);
    }
  }

  /** A key that no kept button carries is neither created nor changed by
      `GetAudio`, its audio fields included: buttons of sample sentences and
      of the slow cell write nothing. */
  lemma {:induction false} AudioUntouched(s: Store, files: seq<string>, bs: seq<AudioButton>, k: Key)
    requires Sourced(bs) && LastAudioName(bs, k).None?
    ensures var st := GetAudio(s, files, bs).value.store;
      && (k in st.cards <==> k in s.cards)
      && (k in s.cards ==> st.cards[k] == s.cards[k])
    decreases |bs|
  {
    if bs != [] {
      var init := bs[..|bs| - 1];
      var b := bs[|bs| - 1];
      assert bs == init + [b];
      SourcedSnoc(init, b);
      KeptKeysSnoc(init, b);
      AudioUntouched(s, files, init, k);
      var p := GetAudio(s, files, init).value;
      assert GetAudio(s, files, bs) == AudioStep(p, b);
      if !AudioSkipped(b) {
        AudioStepStore(p, b);
      }
    }
  }

  /** A field outside the two audio fields survives `GetAudio` unchanged. */
  lemma FieldSurvivesAudio(s: Store, files: seq<string>, bs: seq<AudioButton>, k: Key, fld: FieldName)
    requires Sourced(bs) && fld !in AudioFields && k in s.cards && fld in s.cards[k]
    ensures var st := GetAudio(s, files, bs).value.store;
      k in st.cards && fld in st.cards[k] && st.cards[k][fld] == s.cards[k][fld]
  {
    GetAudioFrame(s, files, bs);
  }

  // ---------------------------------------------------------------------------
  // SanityCheck and FinalizeCard

  /** Filling a record that already holds every listed field changes
      nothing. */
  lemma {:induction false} FillRecordComplete(rec: Record, fields: seq<FieldName>)
    requires forall f :: f in fields ==> f in rec
    ensures FillRecord(rec, fields) == rec
    decreases |fields|
  {
    if fields != [] {
      assert fields[0] in rec;
      FillRecordComplete(rec, fields[1..]);
    }
  }

  /** Running `SanityCheck` a second time changes nothing. */
  lemma SanityCheckIdempotent(s: Store)
    ensures SanityCheck(SanityCheck(s)) == SanityCheck(s)
  {
    var t := SanityCheck(s);
    var u := SanityCheck(t);
    assert u.cards.Keys == t.cards.Keys;
    forall k | k in t.cards
      ensures u.cards[k] == t.cards[k]
    {
      CompleteHasEveryField(t.cards[k]);
      FillRecordComplete(t.cards[k], CardFields);
    }
    assert u.cards == t.cards;
  }

  /** A complete record holds each listed field. */
  lemma CompleteHasEveryField(rec: Record)
    requires Complete(rec)
    ensures forall f :: f in CardFields ==> f in rec
    ensures forall i :: 0 <= i < |CardFields| ==> CardFields[i] in rec
  {
  }

  /** After `SanityCheck` every finalised record has a value for every field
      of the list, in list order: `FinalizeCard` never reports a field as
      missing. */
  lemma FinalizeAfterSanityHasNoNone(s: Store, k: Key)
    requires k in s.cards
    ensures var rec := SanityCheck(s).cards[k];
      forall i :: 0 <= i < |CardFields| ==>
        FinalizeCard(rec)[i].Some? && FinalizeCard(rec)[i].value == rec[CardFields[i]]
  {
    var rec := SanityCheck(s).cards[k];
    FinalizeComplete(rec);
  }

  /** A complete record finalises to a value for every field of the list. */
  lemma FinalizeComplete(rec: Record)
    requires Complete(rec)
    ensures forall i :: 0 <= i < |CardFields| ==>
      CardFields[i] in rec && FinalizeCard(rec)[i] == Some(rec[CardFields[i]])
  {
    CompleteHasEveryField(rec);
  }

  /** `FinalizeCard` sees only the listed fields, so two records that agree
      on them finalise alike; in particular the extra `audio_files` key never
      reaches a note. */
  lemma FinalizeIgnoresExtraKeys(a: Record, b: Record)
    requires forall f :: f in CardFields ==> Get(a, f) == Get(b, f)
    ensures FinalizeCard(a) == FinalizeCard(b)
    ensures FinalizeCard(a - {AudioFiles}) == FinalizeCard(a)
  {
    CardFieldsShape();
    assert forall f :: f in CardFields ==> Get(a - {AudioFiles}, f) == Get(a, f);
  }

  // ---------------------------------------------------------------------------
  // the reading

  /** The reading of a bracketed pronunciation, padded with whitespace
      outside the brackets, is the text inside the brackets with its own
      padding cut off. */
  lemma KanaOfBracketed(pre: string, open: char, inner: string, close: char, post: string)
    requires forall i :: 0 <= i < |pre| ==> IsSpace(pre[i])
    requires forall i :: 0 <= i < |post| ==> IsSpace(post[i])
    requires !IsSpace(open) && !IsSpace(close)
    ensures KanaText(pre + [open] + inner + [close] + post) == Strip(inner)
  {
    var w := [open] + inner + [close];
    assert pre + [open] + inner + [close] + post == pre + w + post;
    StripPadded(pre, w, post);
    SliceDropEnds(w);
    assert w[1..|w| - 1] == inner;
  }

  // ---------------------------------------------------------------------------
  // the whole scrape

  /** The fragments of a lesson the extractor `e` reads. */
  function FragmentsFor(lesson: Lesson, e: TextExtractor): seq<Fragment> {
    match e
    case KanjiExtractor => lesson.kanji
    case KanaExtractor => lesson.kana
    case EnglishExtractor => lesson.english
  }

  /** A field `SanityCheck` finds keeps its value. */
  lemma FieldSurvivesSanity(s: Store, k: Key, fld: FieldName)
    requires k in s.cards && fld in s.cards[k]
    ensures var r := SanityCheck(s);
      k in r.cards && fld in r.cards[k] && r.cards[k][fld] == s.cards[k][fld]
  {
  }

  /** The store `Scraper` builds from the store the English loop leaves. */
  lemma ScraperStore(j: Japanese, lesson: Lesson)
    requires Sourced(lesson.audio)
    ensures var s1 := Extract(KanjiExtractor, j.cards, lesson.kanji);
      var s2 := Extract(KanaExtractor, s1, lesson.kana);
      var s3 := Extract(EnglishExtractor, s2, lesson.english);
      Scraper(j, lesson).value.0.cards == SanityCheck(GetAudio(s3, j.audioFiles, lesson.audio).value.store)
  {
  }

  /** A text field in place before the audio loop reaches the final store. */
  lemma TextFieldSurvivesLate(s3: Store, files: seq<string>, bs: seq<AudioButton>, k: Key, fld: FieldName)
    requires Sourced(bs) && fld !in AudioFields && k in s3.cards && fld in s3.cards[k]
    ensures var r := SanityCheck(GetAudio(s3, files, bs).value.store);
      k in r.cards && fld in r.cards[k] && r.cards[k][fld] == s3.cards[k][fld]
  {
    FieldSurvivesAudio(s3, files, bs, k, fld);
    FieldSurvivesSanity(GetAudio(s3, files, bs).value.store, k, fld);
  }

  /** A field other than English in place before the English loop reaches
      the final store. */
  lemma FieldSurvivesFromEnglish(s2: Store, english: seq<Fragment>, files: seq<string>, bs: seq<AudioButton>, k: Key, fld: FieldName)
    requires Sourced(bs) && fld !in AudioFields && fld != English && k in s2.cards && fld in s2.cards[k]
    ensures var s3 := Extract(EnglishExtractor, s2, english);
      var r := SanityCheck(GetAudio(s3, files, bs).value.store);
      k in r.cards && fld in r.cards[k] && r.cards[k][fld] == s2.cards[k][fld]
  {
    FieldSurvivesExtract(EnglishExtractor, s2, english, k, fld);
    TextFieldSurvivesLate(Extract(EnglishExtractor, s2, english), files, bs, k, fld);
  }

  /** The Kanji field in place before the Kana loop reaches the final
      store. */
  lemma KanjiSurvivesFromKana(s1: Store, lesson: Lesson, files: seq<string>, k: Key)
    requires Sourced(lesson.audio) && k in s1.cards && Kanji in s1.cards[k]
    ensures var s2 := Extract(KanaExtractor, s1, lesson.kana);
      var s3 := Extract(EnglishExtractor, s2, lesson.english);
      var r := SanityCheck(GetAudio(s3, files, lesson.audio).value.store);
      k in r.cards && Kanji in r.cards[k] && r.cards[k][Kanji] == s1.cards[k][Kanji]
  {
    FieldSurvivesExtract(KanaExtractor, s1, lesson.kana, k, Kanji);
    FieldSurvivesFromEnglish(Extract(KanaExtractor, s1, lesson.kana), lesson.english, files, lesson.audio, k, Kanji);
  }

  /** The Kana field in place before the English loop reaches the final
      store. */
  lemma KanaSurvivesFromEnglish(s2: Store, lesson: Lesson, files: seq<string>, k: Key)
    requires Sourced(lesson.audio) && k in s2.cards && Kana in s2.cards[k]
    ensures var s3 := Extract(EnglishExtractor, s2, lesson.english);
      var r := SanityCheck(GetAudio(s3, files, lesson.audio).value.store);
      k in r.cards && Kana in r.cards[k] && r.cards[k][Kana] == s2.cards[k][Kana]
  {
    FieldSurvivesFromEnglish(s2, lesson.english, files, lesson.audio, k, Kana);
  }

  /** The English field in place before the audio loop reaches the final
      store. */
  lemma EnglishSurvivesLate(s3: Store, lesson: Lesson, files: seq<string>, k: Key)
    requires Sourced(lesson.audio) && k in s3.cards && English in s3.cards[k]
    ensures var r := SanityCheck(GetAudio(s3, files, lesson.audio).value.store);
      k in r.cards && English in r.cards[k] && r.cards[k][English] == s3.cards[k][English]
  {
    TextFieldSurvivesLate(s3, files, lesson.audio, k, English);
  }

  /** The Kanji field of a scraped record is that of its last Kanji
      fragment. */
  lemma ScraperKanjiField(j: Japanese, lesson: Lesson, k: Key)
    requires Sourced(lesson.audio) && LastWritten(KanjiExtractor, lesson.kanji, k).Some?
    ensures var st := Scraper(j, lesson).value.0.cards;
      k in st.cards && Kanji in st.cards[k] && st.cards[k][Kanji] == LastWritten(KanjiExtractor, lesson.kanji, k).value
  {
    var s1 := Extract(KanjiExtractor, j.cards, lesson.kanji);
    var s2 := Extract(KanaExtractor, s1, lesson.kana);
    var s3 := Extract(EnglishExtractor, s2, lesson.english);
    ScraperStore(j, lesson);
    ExtractLastWriteWins(KanjiExtractor, j.cards, lesson.kanji, k);
    KanjiSurvivesFromKana(s1, lesson, j.audioFiles, k);
  }

  /** The Kana field of a scraped record is the reading of its last Kana
      fragment. */
  lemma ScraperKanaField(j: Japanese, lesson: Lesson, k: Key)
    requires Sourced(lesson.audio) && LastWritten(KanaExtractor, lesson.kana, k).Some?
    ensures var st := Scraper(j, lesson).value.0.cards;
      k in st.cards && Kana in st.cards[k] && st.cards[k][Kana] == LastWritten(KanaExtractor, lesson.kana, k).value
  {
    var s1 := Extract(KanjiExtractor, j.cards, lesson.kanji);
    var s2 := Extract(KanaExtractor, s1, lesson.kana);
    var s3 := Extract(EnglishExtractor, s2, lesson.english);
    ScraperStore(j, lesson);
    ExtractLastWriteWins(KanaExtractor, s1, lesson.kana, k);
    KanaSurvivesFromEnglish(s2, lesson, j.audioFiles, k);
  }

  /** The English field of a scraped record is that of its last English
      fragment outside an example sentence. */
  lemma ScraperEnglishField(j: Japanese, lesson: Lesson, k: Key)
    requires Sourced(lesson.audio) && LastWritten(EnglishExtractor, lesson.english, k).Some?
    ensures var st := Scraper(j, lesson).value.0.cards;
      k in st.cards && English in st.cards[k] && st.cards[k][English] == LastWritten(EnglishExtractor, lesson.english, k).value
  {
    var s1 := Extract(KanjiExtractor, j.cards, lesson.kanji);
    var s2 := Extract(KanaExtractor, s1, lesson.kana);
    var s3 := Extract(EnglishExtractor, s2, lesson.english);
    ScraperStore(j, lesson);
    ExtractLastWriteWins(EnglishExtractor, s2, lesson.english, k);
    EnglishSurvivesLate(s3, lesson, j.audioFiles, k);
  }

  /** End to end: after `Scraper`, the Kanji, Kana and English fields of a
      record hold the value of the last fragment for its key, none of the
      later passes disturbing them. */
  lemma ScraperTextField(j: Japanese, lesson: Lesson, e: TextExtractor, k: Key)
    requires Sourced(lesson.audio) && LastWritten(e, FragmentsFor(lesson, e), k).Some?
    ensures var st := Scraper(j, lesson).value.0.cards;
      && k in st.cards
      && e.Field() in st.cards[k]
      && st.cards[k][e.Field()] == LastWritten(e, FragmentsFor(lesson, e), k).value
  {
    match e
    case KanjiExtractor => ScraperKanjiField(j, lesson, k);
    case KanaExtractor => ScraperKanaField(j, lesson, k);
    case EnglishExtractor => ScraperEnglishField(j, lesson, k);
  }

  /** End to end: after `Scraper`, a record with a kept play button holds the
      sound tag and media name of the last such button. */
  lemma ScraperAudioField(j: Japanese, lesson: Lesson, k: Key)
    requires Sourced(lesson.audio) && LastAudioName(lesson.audio, k).Some?
    ensures var st := Scraper(j, lesson).value.0.cards;
      var name := LastAudioName(lesson.audio, k).value;
      && k in st.cards
      && JapaneseAudio in st.cards[k] && st.cards[k][JapaneseAudio] == SoundTag(name)
      && AudioFiles in st.cards[k] && st.cards[k][AudioFiles] == name
  {
    var s1 := Extract(KanjiExtractor, j.cards, lesson.kanji);
    var s2 := Extract(KanaExtractor, s1, lesson.kana);
    var s3 := Extract(EnglishExtractor, s2, lesson.english);
    var p := GetAudio(s3, j.audioFiles, lesson.audio).value;
    ScraperStore(j, lesson);
    AudioLastWriteWins(s3, j.audioFiles, lesson.audio, k);
    FieldSurvivesSanity(p.store, k, JapaneseAudio);
    FieldSurvivesSanity(p.store, k, AudioFiles);
  }

  /** A deck built from a valid store of complete records has one note per
      record, each with a value for all eleven fields. */
  lemma DeckOfCompleteStore(j: Japanese, title: string)
    requires j.cards.Valid()
    requires forall k :: k in j.cards.cards ==> Complete(j.cards.cards[k])
    ensures var d := CreateDeck(j, title);
      && |d.notes| == |j.cards.cards|
      && forall i :: 0 <= i < |d.notes| ==>
           |d.notes[i]| == 11 && forall n :: 0 <= n < 11 ==> d.notes[i][n].Some?
  {
    CardFieldsShape();
    OrderCoversStore(j.cards);
    var d := CreateDeck(j, title);
    forall i | 0 <= i < |d.notes|
      ensures |d.notes[i]| == 11 && forall n :: 0 <= n < 11 ==> d.notes[i][n].Some?
    {
      var k := j.cards.order[i];
      assert k in j.cards.cards;
      FinalizeComplete(j.cards.cards[k]);
    }
  }

  /** Scraping a lesson into a fresh exporter and building the deck gives one
      note per record, each with a value for all eleven fields. */
  lemma ScrapedDeckComplete(lesson: Lesson, title: string)
    requires Sourced(lesson.audio)
    ensures var j := Scraper(NewJapanese(), lesson).value.0;
      var d := CreateDeck(j, title);
      && |d.notes| == |j.cards.cards|
      && forall i :: 0 <= i < |d.notes| ==>
           |d.notes[i]| == 11 && forall n :: 0 <= n < 11 ==> d.notes[i][n].Some?
  {
    EmptyStoreValid();
    ScraperValid(NewJapanese(), lesson);
    DeckOfCompleteStore(Scraper(NewJapanese(), lesson).value.0, title);
  }

  /** In a valid store the order lists as many keys as the map holds. */
  lemma OrderCoversStore(s: Store)
    requires s.Valid()
    ensures |s.order| == |s.cards|
  {
    DistinctCard(s.order);
    assert (set k | k in s.order) == s.cards.Keys;
  }

  /** A sequence without repeats has as many elements as its set. */
  lemma {:induction false} DistinctCard(xs: seq<Key>)
    requires forall i, j :: 0 <= i < j < |xs| ==> xs[i] != xs[j]
    ensures |set k | k in xs| == |xs|
    decreases |xs|
  {
    if xs != [] {
      var init := xs[..|xs| - 1];
      var x := xs[|xs| - 1];
      assert xs == init + [x];
      DistinctCard(init);
      assert x !in init;
      assert (set k | k in xs) == (set k | k in init) + {x};
    }
  }
}
