/**
 * The flashcard record of the vocabulary trainer (src/type-schema/common.ts)
 * and its three learning states.
 */
module Flashcards {
  import opened Wrappers

  /** The learning state of a card. */
  datatype CardStatus = New | Learning | Mastered

  /** The string each state is stored and compared as. */
  function StatusText(s: CardStatus): string
  {
    match s
    case New => "NEW"
    case Learning => "LEARNING"
    case Mastered => "MASTERED"
  }

  /** Distinct states are stored as distinct strings. */
  lemma StatusTextInjective(a: CardStatus, b: CardStatus)
    ensures StatusText(a) == StatusText(b) <==> a == b
  {
    assert StatusText(New)[0] == 'N' && StatusText(Learning)[0] == 'L' && StatusText(Mastered)[0] == 'M';
  }

  /** A stored card; the optional fields of the record are `Option`s, times are milliseconds. */
  datatype Flashcard = Flashcard(
    id: string,
    word: string,
    phonetic: Option<string>,
    definition: string,
    example: string,
    translation: string,
    status: CardStatus,
    createdAt: int,
    lastReviewedAt: Option<int>)
}
