/**
 * The sort comparator of the vocabulary table (src/utils/getComparator.ts):
 * a three-way comparison of one field of two cards, flipped for ascending
 * order.  Field values are compared with JavaScript's relational operators.
 */
module Comparator {
  import opened Wrappers
  import opened Flashcards

  datatype Order = Asc | Desc

  /** The fields of a card a table column can sort by. */
  datatype Key = Id | Word | Phonetic | Definition | Example | Translation | Status | CreatedAt | LastReviewedAt

  /** A field's value: a string, a number, or `undefined` for an absent optional field. */
  datatype FieldValue = Text(s: string) | Number(n: int) | Undefined

  /** `card[key]`; the status is its stored string. */
  function FieldOf(card: Flashcard, key: Key): FieldValue
  {
    match key
    case Id => Text(card.id)
    case Word => Text(card.word)
    case Phonetic => if card.phonetic.Some? then Text(card.phonetic.value) else Undefined
    case Definition => Text(card.definition)
    case Example => Text(card.example)
    case Translation => Text(card.translation)
    case Status => Text(StatusText(card.status))
    case CreatedAt => Number(card.createdAt)
    case LastReviewedAt => if card.lastReviewedAt.Some? then Number(card.lastReviewedAt.value) else Undefined
  }

  /** String `<`: the first differing character decides, and a proper prefix is smaller. */
  predicate TextLess(a: string, b: string)
  {
    if a == [] then b != []
    else if b == [] then false
    else if a[0] != b[0] then a[0] < b[0]
    else TextLess(a[1..], b[1..])
  }

  /** `x < y` for two values of one field; `x > y` is `y < x`. A comparison involving `undefined` is false. */
  predicate JsLess(x: FieldValue, y: FieldValue)
  {
    match (x, y)
    case (Text(a), Text(b)) => TextLess(a, b)
    case (Number(a), Number(b)) => a < b
    case _ => false
  }

  /** `descendingComparator`: -1 when b's field is smaller, 1 when it is greater, 0 otherwise or with no key. */
  function DescendingComparator(a: Flashcard, b: Flashcard, orderBy: Option<Key>): int
  {
    if orderBy.None? then 0
    else if JsLess(FieldOf(b, orderBy.value), FieldOf(a, orderBy.value)) then -1
    else if JsLess(FieldOf(a, orderBy.value), FieldOf(b, orderBy.value)) then 1
    else 0
  }

  /**
   * `getComparator`: the descending comparator for `desc`, and its negation
   * for every other order, including none. The comparator is antisymmetric
   * and puts every card level with itself, whatever the key.
   */
  function GetComparator(order: Option<Order>, orderBy: Option<Key>): (cmp: (Flashcard, Flashcard) -> int)
    ensures forall a, b :: cmp(a, b) == -cmp(b, a)
    ensures forall a :: cmp(a, a) == 0
    ensures forall a, b :: -1 <= cmp(a, b) <= 1
  {
    JsLessStrictOrder();
    if order == Some(Desc) then (a, b) => DescendingComparator(a, b, orderBy)
    else (a, b) => -DescendingComparator(a, b, orderBy)
  }

  lemma {:induction false} TextLessIrreflexive(a: string)
    ensures !TextLess(a, a)
    decreases |a|
  {
    if a != [] {
      TextLessIrreflexive(a[1..]);
    }
  }

  lemma {:induction false} TextLessAsymmetric(a: string, b: string)
    requires TextLess(a, b)
    ensures !TextLess(b, a)
    decreases |a|
  {
    if a != [] && b != [] && a[0] == b[0] {
      TextLessAsymmetric(a[1..], b[1..]);
    }
  }

  /** JavaScript's `<` on the values of one field is irreflexive and asymmetric. */
  lemma JsLessStrictOrder()
    ensures forall x :: !JsLess(x, x)
    ensures forall x, y :: JsLess(x, y) ==> !JsLess(y, x)
  {
    forall x ensures !JsLess(x, x) {
      if x.Text? {
        TextLessIrreflexive(x.s);
      }
    }
    forall x, y | JsLess(x, y) ensures !JsLess(y, x) {
      if x.Text? {
        TextLessAsymmetric(x.s, y.s);
      }
    }
  }

  /**
   * The descending comparator gives -1 exactly when b's field is smaller than
   * a's, 1 exactly when it is greater, and 0 otherwise, always 0 with no key.
   */
  lemma DescendingComparatorMeaning(a: Flashcard, b: Flashcard, orderBy: Option<Key>)
    ensures var r := DescendingComparator(a, b, orderBy);
      && (r == -1 || r == 0 || r == 1)
      && (orderBy.None? ==> r == 0)
      && (orderBy.Some? ==>
            (r == -1 <==> JsLess(FieldOf(b, orderBy.value), FieldOf(a, orderBy.value)))
            && (r == 1 <==> JsLess(FieldOf(a, orderBy.value), FieldOf(b, orderBy.value))))
  {
    JsLessStrictOrder();
  }

  /** Without a key every pair of cards compares equal, in either order. */
  lemma NoKeyKeepsOrder(order: Option<Order>, a: Flashcard, b: Flashcard)
    ensures GetComparator(order, None)(a, b) == 0
  {
  }

  /** The `desc` comparator is the ascending one negated; no order at all sorts ascending. */
  lemma DescIsNegatedAsc(orderBy: Option<Key>, a: Flashcard, b: Flashcard)
    ensures GetComparator(Some(Desc), orderBy)(a, b) == -GetComparator(Some(Asc), orderBy)(a, b)
    ensures GetComparator(None, orderBy)(a, b) == GetComparator(Some(Asc), orderBy)(a, b)
  {
  }

  /** In ascending order a card whose field is smaller comes first, and one whose field is greater comes last. */
  lemma AscendingPutsSmallerFirst(key: Key, a: Flashcard, b: Flashcard)
    ensures JsLess(FieldOf(a, key), FieldOf(b, key)) <==> GetComparator(Some(Asc), Some(key))(a, b) < 0
    ensures JsLess(FieldOf(b, key), FieldOf(a, key)) <==> GetComparator(Some(Asc), Some(key))(a, b) > 0
  {
    DescendingComparatorMeaning(a, b, Some(key));
  }

  /** Distinct strings are ordered one way or the other. */
  lemma {:induction false} TextLessTotal(a: string, b: string)
    requires a != b
    ensures TextLess(a, b) || TextLess(b, a)
    decreases |a|
  {
    if a != [] && b != [] && a[0] == b[0] {
      assert a == [a[0]] + a[1..] && b == [b[0]] + b[1..];
      TextLessTotal(a[1..], b[1..]);
    }
  }

  lemma {:induction false} TextLessTransitive(a: string, b: string, c: string)
    requires TextLess(a, b) && TextLess(b, c)
    ensures TextLess(a, c)
    decreases |a|
  {
    if a != [] && b != [] && c != [] && a[0] == b[0] && b[0] == c[0] {
      TextLessTransitive(a[1..], b[1..], c[1..]);
    }
  }

  /** A key every card has: its values are a string or a number, never `undefined`. */
  predicate AlwaysDefined(key: Key)
  {
    key != Phonetic && key != LastReviewedAt
  }

  /**
   * On a key every card has, the ascending comparator is a consistent
   * ordering: it is 0 exactly for equal fields and it is transitive.
   */
  lemma AscendingConsistent(key: Key, a: Flashcard, b: Flashcard, c: Flashcard)
    requires AlwaysDefined(key)
    ensures GetComparator(Some(Asc), Some(key))(a, b) == 0 <==> FieldOf(a, key) == FieldOf(b, key)
    ensures GetComparator(Some(Asc), Some(key))(a, b) <= 0 && GetComparator(Some(Asc), Some(key))(b, c) <= 0
         ==> GetComparator(Some(Asc), Some(key))(a, c) <= 0
  {
    var x, y, z := FieldOf(a, key), FieldOf(b, key), FieldOf(c, key);
    DescendingComparatorMeaning(a, b, Some(key));
    DescendingComparatorMeaning(b, c, Some(key));
    DescendingComparatorMeaning(a, c, Some(key));
    JsLessStrictOrder();
    if x.Text? {
      if x != y { TextLessTotal(x.s, y.s); }
      if y != z { TextLessTotal(y.s, z.s); }
      if x != z { TextLessTotal(x.s, z.s); }
      if TextLess(x.s, y.s) && TextLess(y.s, z.s) { TextLessTransitive(x.s, y.s, z.s); }
    }
  }

  /**
   * Sorting by status compares the stored strings, so the ascending order is
   * learning, then mastered, then new.
   */
  lemma StatusSortOrder(a: Flashcard, b: Flashcard)
    ensures GetComparator(Some(Asc), Some(Status))(a, b) < 0 <==> SortPosition(a.status) < SortPosition(b.status)
  {
    DescendingComparatorMeaning(a, b, Some(Status));
    assert "LEARNING"[0] == 'L' && "MASTERED"[0] == 'M' && "NEW"[0] == 'N';
  }

  /** The position of a status in the ascending status order. */
  function SortPosition(s: CardStatus): nat
  {
    match s
    case Learning => 0
    case Mastered => 1
    case New => 2
  }

  /** A card without a phonetic compares equal to every card when sorting by phonetic. */
  lemma UndefinedComparesEqual(order: Option<Order>, a: Flashcard, b: Flashcard)
    requires a.phonetic.None?
    ensures GetComparator(order, Some(Phonetic))(a, b) == 0
  {
  }
}
