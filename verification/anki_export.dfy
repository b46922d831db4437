/** The `Japanese` exporter: extractors that write fragments of a lesson page
    into the record store, the pass that fills every missing field with an
    empty string, the projection of a record onto the fixed field list, and
    the deck assembled from all records. The page search itself (which nodes
    an extractor finds, their `tr` ancestor and its hash) arrives as
    sequences of fragments. */
module AnkiExport {
  import opened Wrappers
  import opened PyStrings
  import opened RecordStore

  /** `card_fields`: the names of `japanese_fields`, in order (the font of
      each entry belongs to the packager and is left out). */
  const CardFields: seq<FieldName> := [
    Kana, English, Kanji, JapaneseAudio, EnglishAudio, Image,
    ExampleKanji, ExampleKana, ExampleEnglish, ExampleJapaneseAudio, ExampleEnglishAudio
  ]

  /** The field list has eleven distinct names, and the audio extractor's
      extra key is not among them. */
  lemma CardFieldsShape()
    ensures |CardFields| == 11
    ensures forall i, j :: 0 <= i < j < |CardFields| ==> CardFields[i].Name() != CardFields[j].Name()
    ensures AudioFiles !in CardFields
  {
    forall i, j | 0 <= i < j < |CardFields|
      ensures CardFields[i].Name() != CardFields[j].Name()
    {
      NameInjective(CardFields[i], CardFields[j]);
    }
  }

  // ---------------------------------------------------------------------------
  // fragments and extractors

  /** A `span` an extractor found: the key of its `tr` ancestor, its text, and
      whether it sits inside an example-sentence `span`. */
  datatype Fragment = Fragment(key: Key, text: string, inSample: bool)

  /** A vocabulary play button: the key of its `tr` ancestor, its `data-src`
      attribute when present, and whether it sits inside an example-sentence
      `span` or inside the slow-playback (`play05`) cell. */
  datatype AudioButton = AudioButton(key: Key, dataSrc: Option<string>, inSample: bool, inSlowCell: bool)

  /** The three text extractors `GetKanji`, `GetKana` and `GetEnglih`. */
  datatype TextExtractor = KanjiExtractor | KanaExtractor | EnglishExtractor {

    /** The field the extractor writes. */
    function Field(): FieldName {
      match this
      case KanjiExtractor => Kanji
      case KanaExtractor => Kana
      case EnglishExtractor => English
    }

    /** The value it writes for a fragment's text. */
    function Value(text: string): string {
      match this
      case KanaExtractor => KanaText(text)
      case _ => Strip(text)
    }

    /** Only the English extractor passes over fragments, those inside an
        example sentence. */
    predicate Skips(f: Fragment) {
      EnglishExtractor? && f.inSample
    }
  }

  /** `text.strip()[1:-1].strip()`: the reading without its enclosing
      brackets. */
  function KanaText(text: string): string {
    Strip(Slice(Strip(text), 1, -1))
  }

  /** The reading has no blank at either end and is shorter than the
      stripped text by at least the two dropped characters. */
  lemma KanaTextShape(text: string)
    ensures var r := KanaText(text);
      && (r != [] ==> !IsSpace(r[0]) && !IsSpace(r[|r| - 1]))
      && (r != [] ==> |r| + 2 <= |Strip(text)|)
  {
    var t := Strip(text);
    var inner := Slice(t, 1, -1);
    SliceDropEnds(t);
    assert |inner| == if |t| <= 2 then 0 else |t| - 2;
    var r := Strip(inner);
    StripMeets(inner);
    var i :| StrippedAt(inner, r, i);
    assert |r| <= |inner|;
  }

  /** The keys an extractor writes for a sequence of fragments. */
  ghost function WrittenKeys(e: TextExtractor, frags: seq<Fragment>): set<Key> {
    set f | f in frags && !e.Skips(f) :: f.key
  }

  lemma WrittenKeysSnoc(e: TextExtractor, init: seq<Fragment>, f: Fragment)
    ensures WrittenKeys(e, init + [f]) == WrittenKeys(e, init) + (if e.Skips(f) then {} else {f.key})
  {
    assert forall g :: g in init + [f] <==> g in init || g == f;
  }

  /** One iteration of an extractor loop. */
  function ExtractStep(e: TextExtractor, s: Store, f: Fragment): (r: Store)
    ensures r.cards.Keys == s.cards.Keys + (if e.Skips(f) then {} else {f.key})
  {
    if e.Skips(f) then s else Upsert(s, f.key, e.Field(), e.Value(f.text))
  }

  /** What one iteration writes: a fragment the extractor does not skip has
      its value stored in the extractor's field of its record, creating the
      record if needed; nothing else changes. */
  lemma ExtractStepStore(e: TextExtractor, s: Store, f: Fragment)
    ensures var r := ExtractStep(e, s, f);
      && (e.Skips(f) ==> r == s)
      && (!e.Skips(f) ==> e.Field() in r.cards[f.key] && r.cards[f.key][e.Field()] == e.Value(f.text))
      && (forall k :: k in s.cards ==> AgreeOutside(r.cards[k], s.cards[k], {e.Field()}))
      && (forall k :: k in s.cards && k != f.key ==> r.cards[k] == s.cards[k])
      && (!e.Skips(f) && f.key !in s.cards ==> r.cards[f.key].Keys == {e.Field()})
      && (!e.Skips(f) && f.key in s.cards ==> r.cards[f.key].Keys == s.cards[f.key].Keys + {e.Field()})
      && (forall k :: k in s.cards && s.cards[k].Keys == {e.Field()} ==> r.cards[k].Keys == {e.Field()})
      && (!e.Skips(f) && f.key !in s.cards ==> r.order == s.order + [f.key])
      && (e.Skips(f) || f.key in s.cards ==> r.order == s.order)
      && (s.Valid() ==> r.Valid())
  {
  }

  /** One extractor loop: for each fragment it does not skip, create the
      record of the fragment's key if needed and overwrite the extractor's
      field. Records appear for exactly the written keys; `ExtractFrame` and
      `ExtractOrder` say what happens inside them. */
  function Extract(e: TextExtractor, s: Store, frags: seq<Fragment>): (r: Store)
    ensures r.cards.Keys == s.cards.Keys + WrittenKeys(e, frags)
    decreases |frags|
  {
    if frags == [] then s
    else
      var init := frags[..|frags| - 1];
      var f := frags[|frags| - 1];
      assert frags == init + [f];
      WrittenKeysSnoc(e, init, f);
      ExtractStep(e, Extract(e, s, init), f)
  }

  /** No field other than the extractor's changes in any record, and a
      record that had the field keeps one. */
  lemma {:induction false} ExtractFrame(e: TextExtractor, s: Store, frags: seq<Fragment>)
    ensures var r := Extract(e, s, frags);
      && (forall k :: k in s.cards ==> AgreeOutside(r.cards[k], s.cards[k], {e.Field()}))
      && (forall k :: k in s.cards && e.Field() in s.cards[k] ==> e.Field() in r.cards[k])
    decreases |frags|
  {
    if frags != [] {
      var init := frags[..|frags| - 1];
      var f := frags[|frags| - 1];
      assert frags == init + [f];
      ExtractFrame(e, s, init);
      var p := Extract(e, s, init);
      var r := Extract(e, s, frags);
      assert r == ExtractStep(e, p, f);
      ExtractStepStore(e, p, f);
      forall k | k in s.cards
        ensures AgreeOutside(r.cards[k], s.cards[k], {e.Field()})
        ensures e.Field() in s.cards[k] ==> e.Field() in r.cards[k]
      {
        AgreeOutsideTrans(r.cards[k], p.cards[k], s.cards[k], {e.Field()});
      }
    }
  }

  /** A record an extractor creates holds only the extractor's field. */
  lemma {:induction false} ExtractNewRecords(e: TextExtractor, s: Store, frags: seq<Fragment>)
    ensures var r := Extract(e, s, frags);
      forall k :: k in r.cards && k !in s.cards ==> r.cards[k].Keys == {e.Field()}
    decreases |frags|
  {
    if frags != [] {
      var init := frags[..|frags| - 1];
      var f := frags[|frags| - 1];
      assert frags == init + [f];
      ExtractNewRecords(e, s, init);
      var p := Extract(e, s, init);
      var r := Extract(e, s, frags);
      assert r == ExtractStep(e, p, f);
      ExtractStepStore(e, p, f);
    }
  }

  /** Every key an extractor writes ends up with the extractor's field. */
  lemma {:induction false} ExtractWritten(e: TextExtractor, s: Store, frags: seq<Fragment>)
    ensures var r := Extract(e, s, frags);
      forall k :: k in WrittenKeys(e, frags) ==> e.Field() in r.cards[k]
    decreases |frags|
  {
    if frags != [] {
      var init := frags[..|frags| - 1];
      var f := frags[|frags| - 1];
      assert frags == init + [f];
      WrittenKeysSnoc(e, init, f);
      ExtractWritten(e, s, init);
      var p := Extract(e, s, init);
      var r := Extract(e, s, frags);
      assert r == ExtractStep(e, p, f);
      ExtractStepStore(e, p, f);
      forall k | k in WrittenKeys(e, frags)
        ensures e.Field() in r.cards[k]
      {
        if k != f.key || e.Skips(f) {
          assert r.cards[k] == p.cards[k];
        }
      }
    }
  }

  /** An extractor loop only appends to the insertion order and keeps a
      valid store valid. */
  lemma {:induction false} ExtractOrder(e: TextExtractor, s: Store, frags: seq<Fragment>)
    ensures s.order <= Extract(e, s, frags).order
    ensures s.Valid() ==> Extract(e, s, frags).Valid()
    decreases |frags|
  {
    if frags != [] {
      ExtractOrder(e, s, frags[..|frags| - 1]);
      ExtractStepStore(e, Extract(e, s, frags[..|frags| - 1]), frags[|frags| - 1]);
    }
  }

  // ---------------------------------------------------------------------------
  // audio

  predicate AudioSkipped(b: AudioButton) {
    b.inSample || b.inSlowCell
  }

  /** Every button `GetAudio` does not skip has a `data-src` attribute. */
  predicate Sourced(bs: seq<AudioButton>) {
    forall i :: 0 <= i < |bs| && !AudioSkipped(bs[i]) ==> bs[i].dataSrc.Some?
  }

  /** The stripped `data-src` URLs of the buttons `GetAudio` keeps, in order. */
  function KeptUrls(bs: seq<AudioButton>): seq<string>
    requires Sourced(bs)
  {
    if bs == [] then []
    else
      var b := bs[|bs| - 1];
      KeptUrls(bs[..|bs| - 1]) + (if AudioSkipped(b) then [] else [Strip(b.dataSrc.value)])
  }

  ghost function KeptKeys(bs: seq<AudioButton>): set<Key> {
    set b | b in bs && !AudioSkipped(b) :: b.key
  }

  /** The media file name of each URL: the segment after its last '/'. */
  function MediaNames(urls: seq<string>): (names: seq<string>)
    ensures |names| == |urls|
    ensures forall i :: 0 <= i < |urls| ==> names[i] == LastSegment(urls[i], '/')
  {
    if urls == [] then [] else MediaNames(urls[..|urls| - 1]) + [LastSegment(urls[|urls| - 1], '/')]
  }

  /** Anki's sound reference for a media file. The name can be read back
      from between the `[sound:` opener and the closing bracket. */
  function SoundTag(name: string): (t: string)
    ensures |t| == |name| + 8
    ensures t[..7] == "[sound:" && t[|t| - 1] == ']'
    ensures t[7..|t| - 1] == name
  {
    "[sound:" + name + "]"
  }

  /** `i["data-src"]` on a button without that attribute raises `KeyError`. */
  datatype ScrapeError = MissingDataSrc

  /** What `GetAudio` leaves behind: the store, `audio_files`, and the list of
      URLs it returns. */
  datatype AudioPass = AudioPass(store: Store, audioFiles: seq<string>, urls: seq<string>)

  /** The fields `GetAudio` writes into a record. */
  const AudioFields: set<FieldName> := {JapaneseAudio, AudioFiles}

  /** One iteration of the `GetAudio` loop: a skipped button changes nothing,
      a kept one without `data-src` fails, and a kept one with it appends its
      URL and media name. What it writes into the store is `AudioStepStore`. */
  function AudioStep(p: AudioPass, b: AudioButton): (r: Result<AudioPass, ScrapeError>)
    ensures r.Success? <==> AudioSkipped(b) || b.dataSrc.Some?
    ensures r.Success? && AudioSkipped(b) ==> r.value == p
    ensures r.Success? && !AudioSkipped(b) ==>
      && r.value.urls == p.urls + [Strip(b.dataSrc.value)]
      && r.value.audioFiles == p.audioFiles + [LastSegment(Strip(b.dataSrc.value), '/')]
  {
    if AudioSkipped(b) then Success(p)
    else
      match b.dataSrc
      case None => Failure(MissingDataSrc)
      case Some(src) =>
        var url := Strip(src);
        var name := LastSegment(url, '/');
        var s1 := Upsert(p.store, b.key, JapaneseAudio, SoundTag(name));
        var s2 := Upsert(s1, b.key, AudioFiles, name);
        Success(AudioPass(s2, p.audioFiles + [name], p.urls + [url]))
  }

  /** A kept button writes `[sound:name]` into `Japanese_Audio` and the bare
      name into `audio_files` of its record, creating the record if needed;
      nothing else in the store changes, apart from the key joining the
      insertion order when it is new. */
  lemma AudioStepStore(p: AudioPass, b: AudioButton)
    requires !AudioSkipped(b) && b.dataSrc.Some?
    ensures var st := AudioStep(p, b).value.store;
      var name := LastSegment(Strip(b.dataSrc.value), '/');
      && st.cards.Keys == p.store.cards.Keys + {b.key}
      && (forall k :: k in p.store.cards ==> AgreeOutside(st.cards[k], p.store.cards[k], AudioFields))
      && (b.key !in p.store.cards ==> st.cards[b.key].Keys == AudioFields)
      && (b.key in p.store.cards ==> st.cards[b.key].Keys == p.store.cards[b.key].Keys + AudioFields)
      && (forall k :: k in p.store.cards && k != b.key ==> st.cards[k] == p.store.cards[k])
      && st.cards[b.key][JapaneseAudio] == SoundTag(name)
      && st.cards[b.key][AudioFiles] == name
      && (b.key in p.store.cards ==> st.order == p.store.order)
      && (b.key !in p.store.cards ==> st.order == p.store.order + [b.key])
      && (p.store.Valid() ==> st.Valid())
  {
    var name := LastSegment(Strip(b.dataSrc.value), '/');
    var s1 := Upsert(p.store, b.key, JapaneseAudio, SoundTag(name));
    var s2 := Upsert(s1, b.key, AudioFiles, name);
    assert AudioStep(p, b).value.store == s2;
    forall k | k in p.store.cards
      ensures AgreeOutside(s2.cards[k], p.store.cards[k], AudioFields)
    {
    }
  }

  lemma KeptKeysSnoc(init: seq<AudioButton>, b: AudioButton)
    ensures KeptKeys(init + [b]) == KeptKeys(init) + (if AudioSkipped(b) then {} else {b.key})
  {
    assert forall g :: g in init + [b] <==> g in init || g == b;
  }

  lemma SourcedSnoc(init: seq<AudioButton>, b: AudioButton)
    ensures Sourced(init + [b]) <==> Sourced(init) && (AudioSkipped(b) || b.dataSrc.Some?)
    ensures Sourced(init + [b]) ==>
      KeptUrls(init + [b]) == KeptUrls(init) + (if AudioSkipped(b) then [] else [Strip(b.dataSrc.value)])
  {
    var bs := init + [b];
    assert bs[..|bs| - 1] == init;
    assert bs[|bs| - 1] == b;
    assert forall i :: 0 <= i < |init| ==> bs[i] == init[i];
  }

  lemma MediaNamesSnoc(urls: seq<string>, url: string)
    ensures MediaNames(urls + [url]) == MediaNames(urls) + [LastSegment(url, '/')]
  {
    assert (urls + [url])[..|urls|] == urls;
  }

  /** The `GetAudio` loop. It fails exactly when a kept button has no
      `data-src`; otherwise it returns the stripped URLs of the kept buttons
      in order and appends one media name per URL, in the same order and
      without removing duplicates, to `audio_files`. */
  function GetAudio(s: Store, files: seq<string>, bs: seq<AudioButton>): (r: Result<AudioPass, ScrapeError>)
    ensures r.Success? <==> Sourced(bs)
    ensures r.Success? ==> r.value.urls == KeptUrls(bs)
    ensures r.Success? ==> r.value.audioFiles == files + MediaNames(r.value.urls)
    decreases |bs|
  {
    if bs == [] then Success(AudioPass(s, files, []))
    else
      var init := bs[..|bs| - 1];
      var b := bs[|bs| - 1];
      assert bs == init + [b];
      SourcedSnoc(init, b);
      match GetAudio(s, files, init)
      case Failure(e) => Failure(e)
      case Success(p) =>
        var r := AudioStep(p, b);
        if r.Success? && !AudioSkipped(b) then
          var url := Strip(b.dataSrc.value);
          MediaNamesSnoc(p.urls, url);
          r
        else
          assert r.Success? ==> KeptUrls(bs) == p.urls;
          r
  }

  /** `GetAudio` creates records for exactly the kept keys. */
  lemma {:induction false} GetAudioKeys(s: Store, files: seq<string>, bs: seq<AudioButton>)
    requires Sourced(bs)
    ensures GetAudio(s, files, bs).value.store.cards.Keys == s.cards.Keys + KeptKeys(bs)
    decreases |bs|
  {
    if bs != [] {
      var init := bs[..|bs| - 1];
      var b := bs[|bs| - 1];
      assert bs == init + [b];
      SourcedSnoc(init, b);
      KeptKeysSnoc(init, b);
      GetAudioKeys(s, files, init);
      var p := GetAudio(s, files, init).value;
      assert GetAudio(s, files, bs) == AudioStep(p, b);
      if !AudioSkipped(b) {
        AudioStepStore(p, b);
      }
    }
  }

  /** A record `GetAudio` creates holds just the two audio fields. */
  lemma {:induction false} GetAudioNewRecords(s: Store, files: seq<string>, bs: seq<AudioButton>)
    requires Sourced(bs)
    ensures var st := GetAudio(s, files, bs).value.store;
      forall k :: k in st.cards && k !in s.cards ==> st.cards[k].Keys == AudioFields
    decreases |bs|
  {
    if bs != [] {
      var init := bs[..|bs| - 1];
      var b := bs[|bs| - 1];
      assert bs == init + [b];
      SourcedSnoc(init, b);
      GetAudioNewRecords(s, files, init);
      var p := GetAudio(s, files, init).value;
      assert GetAudio(s, files, bs) == AudioStep(p, b);
      if !AudioSkipped(b) {
        AudioStepStore(p, b);
      }
    }
  }

  /** `GetAudio` only appends to the insertion order and keeps the store
      valid. */
  lemma {:induction false} GetAudioOrder(s: Store, files: seq<string>, bs: seq<AudioButton>)
    requires Sourced(bs)
    ensures var st := GetAudio(s, files, bs).value.store;
      && s.order <= st.order
      && (s.Valid() ==> st.Valid())
    decreases |bs|
  {
    if bs != [] {
      var init := bs[..|bs| - 1];
      var b := bs[|bs| - 1];
      assert bs == init + [b];
      SourcedSnoc(init, b);
      GetAudioOrder(s, files, init);
      var p := GetAudio(s, files, init).value;
      assert GetAudio(s, files, bs) == AudioStep(p, b);
      if !AudioSkipped(b) {
        AudioStepStore(p, b);
      }
    }
  }

  /** `GetAudio` changes no field of an existing record other than the two
      audio fields. */
  lemma {:induction false} GetAudioFrame(s: Store, files: seq<string>, bs: seq<AudioButton>)
    requires Sourced(bs)
    ensures var st := GetAudio(s, files, bs).value.store;
      && s.cards.Keys <= st.cards.Keys
      && (forall k :: k in s.cards ==> AgreeOutside(st.cards[k], s.cards[k], AudioFields))
    decreases |bs|
  {
    if bs != [] {
      var init := bs[..|bs| - 1];
      var b := bs[|bs| - 1];
      assert bs == init + [b];
      SourcedSnoc(init, b);
      GetAudioFrame(s, files, init);
      var p := GetAudio(s, files, init).value;
      assert GetAudio(s, files, bs) == AudioStep(p, b);
      if !AudioSkipped(b) {
        AudioStepStore(p, b);
      }
    }
  }

  // ---------------------------------------------------------------------------
  // filling and finalising

  /** Every name of the field list has a value in the record. */
  ghost predicate Complete(rec: Record) {
    forall f :: f in CardFields ==> f in rec
  }

  /** The inner loop of `SanityCheck` for one record: each listed field that
      is absent gets the empty string; present fields keep their values and
      no other field appears. */
  function FillRecord(rec: Record, fields: seq<FieldName>): (r: Record)
    ensures r.Keys == rec.Keys + (set f | f in fields)
    ensures forall f :: f in rec ==> r[f] == rec[f]
    ensures forall f :: f in r && f !in rec ==> r[f] == ""
    decreases |fields|
  {
    if fields == [] then rec
    else
      var f := fields[0];
      var next := if f in rec then rec else rec[f := ""];
      var r := FillRecord(next, fields[1..]);
      assert (set g | g in fields) == {f} + (set g | g in fields[1..]);
      r
  }

  /** `SanityCheck`: the same keys, in the same order, every record complete,
      no value overwritten, and every new value the empty string. */
  function SanityCheck(s: Store): (r: Store)
    ensures r.order == s.order && r.cards.Keys == s.cards.Keys
    ensures forall k :: k in r.cards ==> Complete(r.cards[k])
    ensures forall k, f :: k in s.cards && f in s.cards[k] ==> f in r.cards[k] && r.cards[k][f] == s.cards[k][f]
    ensures forall k, f :: k in r.cards && f in r.cards[k] && f !in s.cards[k] ==> f in CardFields && r.cards[k][f] == ""
    ensures s.Valid() ==> r.Valid()
  {
    Store(s.order, map k | k in s.cards :: FillRecord(s.cards[k], CardFields))
  }

  /** `entry.get(f)`. */
  function Get(entry: Record, f: FieldName): (v: Option<string>)
    ensures v.Some? <==> f in entry
    ensures v.Some? ==> v.value == entry[f]
  {
    if f in entry then Some(entry[f]) else None
  }

  /** `FinalizeCard`: one value per name of the field list, in that order. */
  function FinalizeCard(entry: Record): (r: seq<Option<string>>)
    ensures |r| == |CardFields|
    ensures forall i :: 0 <= i < |r| ==> r[i] == Get(entry, CardFields[i])
    ensures forall i :: 0 <= i < |r| ==> (r[i].Some? <==> CardFields[i] in entry)
    ensures forall i :: 0 <= i < |r| && r[i].Some? ==> r[i].value == entry[CardFields[i]]
  {
    seq(|CardFields|, i requires 0 <= i < |CardFields| => Get(entry, CardFields[i]))
  }

  // ---------------------------------------------------------------------------
  // the exporter object

  /** A lesson page as the extractors see it: the fragments each one finds,
      in document order. */
  datatype Lesson = Lesson(kanji: seq<Fragment>, kana: seq<Fragment>, english: seq<Fragment>, audio: seq<AudioButton>)

  /** Every key some extractor writes for the lesson. */
  ghost function ScrapedKeys(lesson: Lesson): set<Key> {
    WrittenKeys(KanjiExtractor, lesson.kanji) + WrittenKeys(KanaExtractor, lesson.kana)
    + WrittenKeys(EnglishExtractor, lesson.english) + KeptKeys(lesson.audio)
  }

  /** The state of a `Japanese` object: `cards` and `audio_files`. */
  datatype Japanese = Japanese(cards: Store, audioFiles: seq<string>)

  /** A fresh `Japanese` object: no cards yet, in a valid store, and no
      audio files. */
  function NewJapanese(): (j: Japanese)
    ensures j.cards.cards == map[] && j.cards.order == [] && j.cards.Valid()
    ensures j.audioFiles == []
  {
    EmptyStoreValid();
    Japanese(EmptyStore, [])
  }

  /** `Scraper`: Kanji, Kana, English, then audio, then `SanityCheck`. It fails
      exactly when a kept audio button lacks `data-src`. Otherwise it returns
      the kept audio URLs, every record is complete, and `audio_files` grows
      by one media name per returned URL. */
  function Scraper(j: Japanese, lesson: Lesson): (r: Result<(Japanese, seq<string>), ScrapeError>)
    ensures r.Success? <==> Sourced(lesson.audio)
    ensures r.Success? ==> r.value.1 == KeptUrls(lesson.audio)
    ensures r.Success? ==> r.value.0.audioFiles == j.audioFiles + MediaNames(r.value.1)
    ensures r.Success? ==> forall k :: k in r.value.0.cards.cards ==> Complete(r.value.0.cards.cards[k])
  {
    var s1 := Extract(KanjiExtractor, j.cards, lesson.kanji);
    var s2 := Extract(KanaExtractor, s1, lesson.kana);
    var s3 := Extract(EnglishExtractor, s2, lesson.english);
    match GetAudio(s3, j.audioFiles, lesson.audio)
    case Failure(e) => Failure(e)
    case Success(p) => Success((Japanese(SanityCheck(p.store), p.audioFiles), p.urls))
  }

  /** After `Scraper` the records are the old ones plus one per key any
      extractor wrote, none dropped. */
  lemma ScraperKeys(j: Japanese, lesson: Lesson)
    requires Sourced(lesson.audio)
    ensures Scraper(j, lesson).value.0.cards.cards.Keys == j.cards.cards.Keys + ScrapedKeys(lesson)
  {
    var s1 := Extract(KanjiExtractor, j.cards, lesson.kanji);
    var s2 := Extract(KanaExtractor, s1, lesson.kana);
    var s3 := Extract(EnglishExtractor, s2, lesson.english);
    GetAudioKeys(s3, j.audioFiles, lesson.audio);
  }

  /** `Scraper` only appends to the insertion order. */
  lemma ScraperOrder(j: Japanese, lesson: Lesson)
    requires Sourced(lesson.audio)
    ensures j.cards.order <= Scraper(j, lesson).value.0.cards.order
  {
    var s1 := Extract(KanjiExtractor, j.cards, lesson.kanji);
    var s2 := Extract(KanaExtractor, s1, lesson.kana);
    var s3 := Extract(EnglishExtractor, s2, lesson.english);
    ExtractOrder(KanjiExtractor, j.cards, lesson.kanji);
    ExtractOrder(KanaExtractor, s1, lesson.kana);
    ExtractOrder(EnglishExtractor, s2, lesson.english);
    GetAudioOrder(s3, j.audioFiles, lesson.audio);
    var st := GetAudio(s3, j.audioFiles, lesson.audio).value.store;
    assert Scraper(j, lesson).value.0.cards.order == st.order;
    PrefixTrans(j.cards.order, s1.order, s2.order);
    PrefixTrans(j.cards.order, s2.order, s3.order);
    PrefixTrans(j.cards.order, s3.order, st.order);
  }

  /** `Scraper` keeps a valid store valid. */
  lemma ScraperValid(j: Japanese, lesson: Lesson)
    requires Sourced(lesson.audio) && j.cards.Valid()
    ensures Scraper(j, lesson).value.0.cards.Valid()
  {
    var s1 := Extract(KanjiExtractor, j.cards, lesson.kanji);
    var s2 := Extract(KanaExtractor, s1, lesson.kana);
    var s3 := Extract(EnglishExtractor, s2, lesson.english);
    ExtractOrder(KanjiExtractor, j.cards, lesson.kanji);
    ExtractOrder(KanaExtractor, s1, lesson.kana);
    ExtractOrder(EnglishExtractor, s2, lesson.english);
    GetAudioOrder(s3, j.audioFiles, lesson.audio);
  }

  /** What `CreateDeck` hands to the packager: the output file name, one note
      per record, and the media files. */
  datatype Deck = Deck(fileName: string, notes: seq<seq<Option<string>>>, mediaFiles: seq<string>)

  /** `"".join(title.split()) + ".apkg"`: the title without its whitespace,
      then the package extension. */
  function DeckFileName(title: string): (r: string)
    ensures EndsWith(r, ".apkg")
    ensures forall i :: 0 <= i < |r| - 5 ==> !IsSpace(r[i])
    ensures forall c :: c in r[..|r| - 5] <==> c in title && !IsSpace(c)
    ensures r[..|r| - 5] == FilterOut(title, SpaceChars)
  {
    var body := RemoveWhitespace(title);
    var r := body + ".apkg";
    assert r[..|r| - 5] == body;
    r
  }

  /** The finalised records in store iteration order. */
  function Notes(order: seq<Key>, cards: map<Key, Record>): (r: seq<seq<Option<string>>>)
    ensures (forall i :: 0 <= i < |order| ==> order[i] in cards) ==>
      |r| == |order| && forall i :: 0 <= i < |order| ==> r[i] == FinalizeCard(cards[order[i]])
    decreases |order|
  {
    if order == [] then []
    else
      var init := order[..|order| - 1];
      var k := order[|order| - 1];
      var rest := Notes(init, cards);
      if k in cards then
        assert (forall i :: 0 <= i < |order| ==> order[i] in cards) ==> forall i :: 0 <= i < |init| ==> init[i] in cards;
        rest + [FinalizeCard(cards[k])]
      else rest
  }

  /** `CreateDeck`: the media files are `audio_files` as they stand, and in a
      valid store there is one note per record, in insertion order. */
  function CreateDeck(j: Japanese, title: string): (d: Deck)
    ensures d.fileName == DeckFileName(title)
    ensures d.mediaFiles == j.audioFiles
    ensures j.cards.Valid() ==> |d.notes| == |j.cards.order|
    ensures j.cards.Valid() ==> forall i :: 0 <= i < |d.notes| ==> d.notes[i] == FinalizeCard(j.cards.cards[j.cards.order[i]])
  {
    Deck(DeckFileName(title), Notes(j.cards.order, j.cards.cards), j.audioFiles)
  }
}
