/** The `cards` dictionary of the exporter: parent key to record, a record
    being a dictionary from field name to text. Entries are created on first
    touch and never deleted. */
module RecordStore {

  /** The grouping key of a fragment: Python's `hash` of its nearest `tr`
      ancestor, or `hash(None)` when it has none. Opaque to the model. */
  type Key = int

  /** The keys a record ever holds: the eleven entries of `japanese_fields`
      and the extra `audio_files` key written by the audio extractor. */
  datatype FieldName =
    | Kana | English | Kanji | JapaneseAudio | EnglishAudio | Image
    | ExampleKanji | ExampleKana | ExampleEnglish | ExampleJapaneseAudio | ExampleEnglishAudio
    | AudioFiles
  {
    /** The Python string the field is stored under. */
    function Name(): string {
      match this
      case Kana => "Kana"
      case English => "English"
      case Kanji => "Kanji"
      case JapaneseAudio => "Japanese_Audio"
      case EnglishAudio => "English_Audio"
      case Image => "Image"
      case ExampleKanji => "Example_Kanji"
      case ExampleKana => "Example_Kana"
      case ExampleEnglish => "Example_English"
      case ExampleJapaneseAudio => "Example_Japanese_Audio"
      case ExampleEnglishAudio => "Example_English_Audio"
      case AudioFiles => "audio_files"
    }
  }

  /** Distinct fields have distinct Python names, so keying a record by
      `FieldName` instead of by its string loses nothing. */
  lemma NameInjective(f: FieldName, g: FieldName)
    requires f != g
    ensures f.Name() != g.Name()
  {
  }

  /** One vocabulary entry: field to value. */
  type Record = map<FieldName, string>

  /** `a` and `b` hold the same fields with the same values, except possibly
      for the fields in `fs`. */
  ghost predicate AgreeOutside(a: Record, b: Record, fs: set<FieldName>) {
    forall g :: g !in fs ==> (g in a <==> g in b) && (g in a ==> a[g] == b[g])
  }

  lemma AgreeOutsideTrans(a: Record, b: Record, c: Record, fs: set<FieldName>)
    requires AgreeOutside(a, b, fs) && AgreeOutside(b, c, fs)
    ensures AgreeOutside(a, c, fs)
  {
  }

  /** The store. A Python `dict` iterates in insertion order, so beside the
      map the store keeps its keys in the order they were first touched. */
  datatype Store = Store(order: seq<Key>, cards: map<Key, Record>) {

    /** The order lists every key of the map exactly once. */
    ghost predicate Valid() {
      && (forall i, j :: 0 <= i < j < |order| ==> order[i] != order[j])
      && (forall k :: k in cards <==> k in order)
    }
  }

  lemma PrefixTrans(a: seq<Key>, b: seq<Key>, c: seq<Key>)
    requires a <= b && b <= c
    ensures a <= c
  {
    assert c[..|a|] == b[..|a|];
  }

  const EmptyStore: Store := Store([], map[])

  lemma EmptyStoreValid()
    ensures EmptyStore.Valid() && EmptyStore.cards == map[]
  {
  }

  /** `createKeyIfNeeded(parent, cards)`: add an empty record under `k` when
      `k` is absent; otherwise leave the store as it is. */
  function CreateKeyIfNeeded(s: Store, k: Key): (r: Store)
    ensures k in r.cards
    ensures k !in s.cards ==> r.cards[k] == map[] && r.order == s.order + [k]
    ensures k in s.cards ==> r == s
    ensures forall k' :: k' != k ==> (k' in r.cards <==> k' in s.cards)
    ensures forall k' :: k' != k && k' in s.cards ==> r.cards[k'] == s.cards[k']
    ensures s.Valid() ==> r.Valid()
  {
    if k in s.cards then s else Store(s.order + [k], s.cards[k := map[]])
  }

  /** `cards[k][field] = v` after `createKeyIfNeeded(k, cards)`: the record
      under `k` exists afterwards and holds `v` in `field`; its other fields
      and every other record are as before. */
  function Upsert(s: Store, k: Key, field: FieldName, v: string): (r: Store)
    ensures r.cards.Keys == s.cards.Keys + {k}
    ensures field in r.cards[k] && r.cards[k][field] == v
    ensures k in s.cards ==> AgreeOutside(r.cards[k], s.cards[k], {field})
    ensures k !in s.cards ==> r.cards[k].Keys == {field}
    ensures k in s.cards ==> r.cards[k].Keys == s.cards[k].Keys + {field}
    ensures forall k' :: k' in s.cards && k' != k ==> r.cards[k'] == s.cards[k']
    ensures k in s.cards ==> r.order == s.order
    ensures k !in s.cards ==> r.order == s.order + [k]
    ensures s.Valid() ==> r.Valid()
  {
    var t := CreateKeyIfNeeded(s, k);
    Store(t.order, t.cards[k := t.cards[k][field := v]])
  }
}
