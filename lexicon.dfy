/** The vocabulary shared by the knowledge-base builder and the annotation rules. */
module Lexicon {
  import opened Wrappers

  /** The grammatical categories a headword is classified into ('m', 'f', 'n', 'p'). */
  datatype Gender = Masculine | Feminine | Neuter | Plural

  /**
    The persisted knowledge base: headword to category, where `None` records a
    noun whose first sense carried none of the four category tags.
  */
  type KnowledgeBase = map<string, Option<Gender>>
}
