/** A slang-term record as the JSON document holds it. */
module Terms {
  import opened Basics
  import opened Text
  import opened Dicts

  /** Generation label to translated string, in the order the JSON object lists them. */
  type Translations = Dict<string>

  /**
   * One record of the `terms` array. `word` is required; the other fields
   * the scripts read may be absent. `extras` holds every other field of the
   * record (as JSON text), which the scripts only copy.
   */
  datatype Term = Term(
    word: string,
    generation: Option<string>,
    definition: Option<string>,
    example: Option<string>,
    translations: Option<Translations>,
    extras: map<string, string>)

  /** The grouping key: `term['word'].lower()`. */
  function Normalized(t: Term): string {
    Lower(t.word)
  }

  /** The translations of a record; a record without the field contributes none. */
  function TranslationsOf(t: Term): Translations {
    if t.translations.Some? then t.translations.value else Empty()
  }

  /** Every normalized word is already lower case. */
  lemma NormalizedIsLower(t: Term)
    ensures Lower(Normalized(t)) == Normalized(t)
  {
    LowerIdempotent(t.word);
  }
}
