/** The IPADIC token formatters: a dictionary entry's ten positional features become a token
    record. IpadicFormatter.ts, formatIpadicKnownEntry.ts and format-ipadic-known-entry.ts
    build the known-entry token by the same mapping, and IpadicFormatter.ts and
    formatIpadicUnknownEntry.ts the unknown-entry token, so each mapping is one function. */
module IpadicFormatting {
  /** The word type tags; "KOWN" is the tag known words carry. */
  datatype WordType = BOS | EOS | KOWN | UNKNOWN

  /** The ten features of an entry: surface form, part of speech, its three subdivisions,
      conjugated type, conjugated form, basic form, reading, pronunciation. */
  type Features = f: seq<string> | |f| == 10 witness ["", "", "", "", "", "", "", "", "", ""]

  datatype KnownEntryToken = KnownEntryToken(
    wordId: int,
    wordType: WordType,
    wordPosition: int,
    surfaceForm: string,
    partOfSpeech: string,
    partOfSpeechSubdivision1: string,
    partOfSpeechSubdivision2: string,
    partOfSpeechSubdivision3: string,
    conjugatedType: string,
    conjugatedForm: string,
    basicForm: string,
    howToRead: string,
    pronunciation: string)

  /** The known-entry token without the reading and the pronunciation. */
  datatype UnknownEntryToken = UnknownEntryToken(
    wordId: int,
    wordType: WordType,
    wordPosition: int,
    surfaceForm: string,
    partOfSpeech: string,
    partOfSpeechSubdivision1: string,
    partOfSpeechSubdivision2: string,
    partOfSpeechSubdivision3: string,
    conjugatedType: string,
    conjugatedForm: string,
    basicForm: string)

  /** A known-entry token's fields back in feature order. */
  function KnownFeatures(t: KnownEntryToken): Features {
    [t.surfaceForm, t.partOfSpeech, t.partOfSpeechSubdivision1, t.partOfSpeechSubdivision2,
     t.partOfSpeechSubdivision3, t.conjugatedType, t.conjugatedForm, t.basicForm, t.howToRead,
     t.pronunciation]
  }

  /** `formatKnownEntry`: the ids pass through and the features fill the token in order. */
  function FormatKnownEntry(wordId: int, wordType: WordType, wordPosition: int, features: Features): (t: KnownEntryToken)
    ensures t.wordId == wordId && t.wordType == wordType && t.wordPosition == wordPosition
    ensures KnownFeatures(t) == features
  {
    KnownEntryToken(wordId, wordType, wordPosition, features[0], features[1], features[2], features[3],
                    features[4], features[5], features[6], features[7], features[8], features[9])
  }

  /** `formatUnknownEntry`: the surface form is the argument, not features[0]; features 1 to 7
      fill the token in order and the reading and pronunciation are dropped. */
  function FormatUnknownEntry(wordId: int, wordType: WordType, wordPosition: int, features: Features, surfaceForm: string): (t: UnknownEntryToken)
    ensures t.wordId == wordId && t.wordType == wordType && t.wordPosition == wordPosition
    ensures t.surfaceForm == surfaceForm
  {
    UnknownEntryToken(wordId, wordType, wordPosition, surfaceForm, features[1], features[2], features[3],
                      features[4], features[5], features[6], features[7])
  }

  /** Forget the reading and the pronunciation. */
  function WithoutReadings(t: KnownEntryToken): UnknownEntryToken {
    UnknownEntryToken(t.wordId, t.wordType, t.wordPosition, t.surfaceForm, t.partOfSpeech,
                      t.partOfSpeechSubdivision1, t.partOfSpeechSubdivision2, t.partOfSpeechSubdivision3,
                      t.conjugatedType, t.conjugatedForm, t.basicForm)
  }

  /** Every known-entry token is the formatting of its own ids and features, so formatting
      loses nothing and the features can be read back. */
  lemma KnownEntryRoundTrip(t: KnownEntryToken)
    ensures FormatKnownEntry(t.wordId, t.wordType, t.wordPosition, KnownFeatures(t)) == t
  {
  }

  /** Different features give different known-entry tokens. */
  lemma KnownEntryInjective(wordId: int, wordType: WordType, wordPosition: int, f1: Features, f2: Features)
    requires FormatKnownEntry(wordId, wordType, wordPosition, f1) == FormatKnownEntry(wordId, wordType, wordPosition, f2)
    ensures f1 == f2
  {
    assert KnownFeatures(FormatKnownEntry(wordId, wordType, wordPosition, f1)) == f1;
  }

  /** The unknown-entry token is the known-entry token of the same features with the surface
      form replaced by the argument, less the reading and the pronunciation. */
  lemma UnknownIsKnownWithoutReadings(wordId: int, wordType: WordType, wordPosition: int, features: Features, surfaceForm: string)
    ensures FormatUnknownEntry(wordId, wordType, wordPosition, features, surfaceForm)
            == WithoutReadings(FormatKnownEntry(wordId, wordType, wordPosition, features[0 := surfaceForm]))
  {
  }

  /** features[0], [8] and [9] do not reach the unknown-entry token; features 1 to 7 all do. */
  lemma UnknownEntryReadsFeaturesOneToSeven(wordId: int, wordType: WordType, wordPosition: int, f1: Features, f2: Features, surfaceForm: string)
    ensures FormatUnknownEntry(wordId, wordType, wordPosition, f1, surfaceForm) == FormatUnknownEntry(wordId, wordType, wordPosition, f2, surfaceForm)
            <==> f1[1..8] == f2[1..8]
  {
    if f1[1..8] == f2[1..8] {
      assert forall k :: 1 <= k < 8 ==> f1[k] == f1[1..8][k - 1] == f2[1..8][k - 1] == f2[k];
    }
  }
}
