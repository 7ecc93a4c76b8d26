/**
 * The study order of src/utils/setStudyQueue.ts: the cards being learned,
 * then the new ones, then the mastered ones, each group shuffled.  The
 * shuffle is `array.sort` with a random comparator; the model lets it be any
 * permutation of the group.
 */
module StudyQueue {
  import opened Flashcards

  /** `cards.filter((c) => c.status === status)`. */
  function Filter(cards: seq<Flashcard>, status: CardStatus): (r: seq<Flashcard>)
    ensures |r| <= |cards|
    ensures forall k :: 0 <= k < |r| ==> r[k].status == status
  {
    if cards == [] then []
    else (if cards[0].status == status then [cards[0]] else []) + Filter(cards[1..], status)
  }

  /** The filter keeps every card of the status as often as it occurs, and nothing else. */
  lemma {:induction false} FilterMultiset(cards: seq<Flashcard>, status: CardStatus, c: Flashcard)
    ensures multiset(Filter(cards, status))[c] == if c.status == status then multiset(cards)[c] else 0
    decreases |cards|
  {
    if cards != [] {
      FilterMultiset(cards[1..], status, c);
      assert cards == [cards[0]] + cards[1..];
    }
  }

  /** The three groups share the cards out: each card is in the group of its status. */
  lemma Partition(cards: seq<Flashcard>)
    ensures multiset(Filter(cards, Learning)) + multiset(Filter(cards, New)) + multiset(Filter(cards, Mastered))
         == multiset(cards)
  {
    var m := multiset(Filter(cards, Learning)) + multiset(Filter(cards, New)) + multiset(Filter(cards, Mastered));
    forall c ensures m[c] == multiset(cards)[c] {
      FilterMultiset(cards, Learning, c);
      FilterMultiset(cards, New, c);
      FilterMultiset(cards, Mastered, c);
    }
  }

  /** The position of a status in the queue: learning first, then new, then mastered. */
  function Rank(s: CardStatus): nat
  {
    match s
    case Learning => 0
    case New => 1
    case Mastered => 2
  }

  /** The shuffle, as an arbitrary permutation of the array in place. */
  method Shuffle(a: array<Flashcard>)
    modifies a
    ensures multiset(a[..]) == old(multiset(a[..]))
  {
    var i := 0;
    while i < a.Length
      invariant 0 <= i <= a.Length
      invariant multiset(a[..]) == old(multiset(a[..]))
    {
      var j :| i <= j < a.Length;
      a[i], a[j] := a[j], a[i];
      i := i + 1;
    }
  }

  /** A fresh array holding `s`, as `filter` returns a new array. */
  method NewArray(s: seq<Flashcard>) returns (a: array<Flashcard>)
    ensures fresh(a) && a[..] == s
  {
    a := new Flashcard[|s|](k requires 0 <= k < |s| => s[k]);
  }

  /** Every card of `cards` has status `s`. */
  predicate AllStatus(cards: seq<Flashcard>, s: CardStatus)
  {
    forall k :: 0 <= k < |cards| ==> cards[k].status == s
  }

  /** A permutation of a group of one status is still of that status. */
  lemma AllStatusOfMultiset(group: seq<Flashcard>, shuffled: seq<Flashcard>, s: CardStatus)
    requires AllStatus(group, s) && multiset(shuffled) == multiset(group)
    ensures AllStatus(shuffled, s)
  {
    forall k | 0 <= k < |shuffled| ensures shuffled[k].status == s {
      assert shuffled[k] in multiset(group);
    }
  }

  /**
   * `setStudyQueue`: the queue holds exactly the input cards (every status is
   * one of the three), the learning cards first, then the new ones, then the
   * mastered ones, each segment holding exactly the cards of its status.
   * The input array is left as it is: only the fresh group arrays are shuffled.
   */
  method SetStudyQueue(cards: array<Flashcard>) returns (queue: seq<Flashcard>)
    ensures multiset(queue) == multiset(cards[..])
    ensures |queue| == cards.Length
    ensures var l, n := |Filter(cards[..], Learning)|, |Filter(cards[..], New)|;
      && l + n <= |queue|
      && multiset(queue[..l]) == multiset(Filter(cards[..], Learning))
      && multiset(queue[l..l + n]) == multiset(Filter(cards[..], New))
      && multiset(queue[l + n..]) == multiset(Filter(cards[..], Mastered))
    ensures forall i, j :: 0 <= i < j < |queue| ==> Rank(queue[i].status) <= Rank(queue[j].status)
  {
    var learning := NewArray(Filter(cards[..], Learning));
    var newCards := NewArray(Filter(cards[..], New));
    var mastered := NewArray(Filter(cards[..], Mastered));

    Shuffle(learning);
    Shuffle(newCards);
    Shuffle(mastered);

    queue := learning[..] + newCards[..] + mastered[..];
    QueueFacts(cards[..], learning[..], newCards[..], mastered[..], queue);
  }

  /** Three shuffled groups concatenated make a queue with the promised shape. */
  lemma QueueFacts(cards: seq<Flashcard>, l: seq<Flashcard>, n: seq<Flashcard>, m: seq<Flashcard>, queue: seq<Flashcard>)
    requires multiset(l) == multiset(Filter(cards, Learning))
    requires multiset(n) == multiset(Filter(cards, New))
    requires multiset(m) == multiset(Filter(cards, Mastered))
    requires queue == l + n + m
    ensures multiset(queue) == multiset(cards)
    ensures |queue| == |cards|
    ensures |l| == |Filter(cards, Learning)| && |n| == |Filter(cards, New)|
    ensures multiset(queue[..|l|]) == multiset(l) && multiset(queue[|l|..|l| + |n|]) == multiset(n)
    ensures multiset(queue[|l| + |n|..]) == multiset(m)
    ensures forall i, j :: 0 <= i < j < |queue| ==> Rank(queue[i].status) <= Rank(queue[j].status)
  {
    Partition(cards);
    QueueCounts(cards, l, n, m, queue);
    assert queue[..|l|] == l && queue[|l|..|l| + |n|] == n && queue[|l| + |n|..] == m;
    AllStatusOfMultiset(Filter(cards, Learning), l, Learning);
    AllStatusOfMultiset(Filter(cards, New), n, New);
    AllStatusOfMultiset(Filter(cards, Mastered), m, Mastered);
    QueueOrder(l, n, m, queue);
  }

  lemma QueueCounts(cards: seq<Flashcard>, l: seq<Flashcard>, n: seq<Flashcard>, m: seq<Flashcard>, queue: seq<Flashcard>)
    requires multiset(l) + multiset(n) + multiset(m) == multiset(cards)
    requires multiset(l) == multiset(Filter(cards, Learning))
    requires multiset(n) == multiset(Filter(cards, New))
    requires queue == l + n + m
    ensures multiset(queue) == multiset(cards)
    ensures |queue| == |cards|
    ensures |l| == |Filter(cards, Learning)| && |n| == |Filter(cards, New)|
  {
    assert |l| == |multiset(l)| && |Filter(cards, Learning)| == |multiset(Filter(cards, Learning))|;
    assert |n| == |multiset(n)| && |Filter(cards, New)| == |multiset(Filter(cards, New))|;
    assert |queue| == |multiset(queue)|;
    assert |cards| == |multiset(cards)|;
  }

  /** Groups of learning, new and mastered cards, one after another, are in rank order. */
  lemma QueueOrder(l: seq<Flashcard>, n: seq<Flashcard>, m: seq<Flashcard>, queue: seq<Flashcard>)
    requires AllStatus(l, Learning) && AllStatus(n, New) && AllStatus(m, Mastered)
    requires queue == l + n + m
    ensures forall i, j :: 0 <= i < j < |queue| ==> Rank(queue[i].status) <= Rank(queue[j].status)
  {
    forall i | 0 <= i < |queue|
      ensures Rank(queue[i].status) == if i < |l| then 0 else if i < |l| + |n| then 1 else 2
    {
      if i < |l| {
        assert queue[i] == l[i];
      } else if i < |l| + |n| {
        assert queue[i] == n[i - |l|];
      } else {
        assert queue[i] == m[i - |l| - |n|];
      }
    }
  }
}
