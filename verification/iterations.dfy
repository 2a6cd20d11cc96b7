/** The iteration list kept by the iterations sidebar
    (app/components/iterations-sidebar.tsx): a list of content snapshots of
    one game, extended with each iteration the creation request returns,
    shown newest first, every entry compared with the next older one. */
module Iterations {
  import opened Outcomes
  import opened Lines
  import opened Diff

  /** One generated version of a game. `createdAt` stands for the parsed
      creation timestamp in milliseconds. */
  datatype Iteration = Iteration(id: int, content: string, prompt: Option<string>, createdAt: int)

  /** What one list entry shows: the iteration, the text of its preview and
      its line count. */
  datatype Card = Card(iteration: Iteration, shown: string, lineCount: nat)

  /** The effect run when the creation request answers: an iteration in the
      answer is put in front of the list; any other answer leaves it alone. */
  function OnFetcherData(iterations: seq<Iteration>, returned: Option<Iteration>): (r: seq<Iteration>)
    ensures returned.None? ==> r == iterations
    ensures returned.Some? ==> |r| == |iterations| + 1 && r[0] == returned.value && r[1..] == iterations
    ensures returned.Some? ==> multiset(r) == multiset(iterations) + multiset{returned.value}
  {
    match returned
    case None => iterations
    case Some(it) => [it] + iterations
  }

  /** Display order: creation time never increases along the list. */
  predicate NewestFirst(xs: seq<Iteration>)
  {
    forall i, j :: 0 <= i < j < |xs| ==> xs[i].createdAt >= xs[j].createdAt
  }

  /** The entries of `xs` created at time `t`, in their order in `xs`. */
  function CreatedAt(xs: seq<Iteration>, t: int): seq<Iteration>
  {
    if |xs| == 0 then []
    else (if xs[0].createdAt == t then [xs[0]] else []) + CreatedAt(xs[1..], t)
  }

  /** Puts `x` in front of the first entry strictly older than it, so that it
      stays in front of the entries it ties with. */
  function Insert(x: Iteration, ys: seq<Iteration>): (r: seq<Iteration>)
    ensures multiset(r) == multiset(ys) + multiset{x}
    ensures |r| > 0 && (r[0] == x || (|ys| > 0 && r[0] == ys[0]))
  {
    if |ys| == 0 || x.createdAt >= ys[0].createdAt then [x] + ys
    else
      assert ys == [ys[0]] + ys[1..];
      [ys[0]] + Insert(x, ys[1..])
  }

  /** Inserting into a list that is newest first keeps it newest first. */
  lemma {:induction false} InsertOrdered(x: Iteration, ys: seq<Iteration>)
    requires NewestFirst(ys)
    ensures NewestFirst(Insert(x, ys))
  {
    if |ys| > 0 && x.createdAt < ys[0].createdAt {
      var rest := Insert(x, ys[1..]);
      InsertOrdered(x, ys[1..]);
      var r := [ys[0]] + rest;
      assert r == Insert(x, ys);
      assert rest[0].createdAt <= ys[0].createdAt;
      forall i, j | 0 <= i < j < |r|
        ensures r[i].createdAt >= r[j].createdAt
      {
        if i == 0 {
          assert r[j] == rest[j - 1];
          assert rest[0].createdAt >= rest[j - 1].createdAt;
        } else {
          assert r[i] == rest[i - 1] && r[j] == rest[j - 1];
        }
      }
    }
  }

  /** `[...iterations].sort((a, b) => b.created_at - a.created_at)`: a stable
      sort by creation time, most recent first. The result is ordered, is a
      permutation of the input, and keeps entries with equal creation times
      in their original relative order. */
  function SortNewestFirst(xs: seq<Iteration>): (r: seq<Iteration>)
    ensures NewestFirst(r)
    ensures multiset(r) == multiset(xs)
    ensures forall t :: CreatedAt(r, t) == CreatedAt(xs, t)
  {
    if |xs| == 0 then []
    else
      var rest := SortNewestFirst(xs[1..]);
      assert xs == [xs[0]] + xs[1..];
      InsertOrdered(xs[0], rest);
      forall t ensures CreatedAt(Insert(xs[0], rest), t) == CreatedAt(xs, t) {
        InsertKeepsTies(xs[0], rest, t);
      }
      Insert(xs[0], rest)
  }

  lemma {:induction false} InsertKeepsTies(x: Iteration, ys: seq<Iteration>, t: int)
    requires NewestFirst(ys)
    ensures CreatedAt(Insert(x, ys), t) == (if x.createdAt == t then [x] else []) + CreatedAt(ys, t)
  {
    if |ys| == 0 || x.createdAt >= ys[0].createdAt {
      assert ([x] + ys)[1..] == ys;
    } else {
      InsertKeepsTies(x, ys[1..], t);
      var r := Insert(x, ys);
      assert r[1..] == Insert(x, ys[1..]);
      if x.createdAt == t {
        assert ys[0].createdAt != t;
      }
    }
  }

  /** Sorting a list that is already newest first changes nothing. */
  lemma {:induction false} SortedUnchanged(xs: seq<Iteration>)
    requires NewestFirst(xs)
    ensures SortNewestFirst(xs) == xs
  {
    if |xs| > 0 {
      SortedUnchanged(xs[1..]);
      if |xs| > 1 {
        assert xs[0].createdAt >= xs[1].createdAt;
      }
    }
  }

  /** `content.split("\n").length`, the line count of an entry. */
  function LineCount(content: string): (n: nat)
    ensures n >= 1
    ensures n == Count(content, NewLine) + 1
  {
    SplitLength(content);
    |Split(content)|
  }

  /** Entry `i` of the sorted list: compared with the next older entry, or
      shown raw when it is the oldest. */
  function CardAt(sorted: seq<Iteration>, i: nat): Card
    requires i < |sorted|
  {
    var it := sorted[i];
    var shown := if i < |sorted| - 1 then DiffText(sorted[i + 1].content, it.content) else it.content;
    Card(it, shown, LineCount(it.content))
  }

  /** The cards of a sorted list: each compared with the next older entry,
      the oldest shown raw, every line count at least one. */
  function Cards(sorted: seq<Iteration>): (cards: seq<Card>)
    ensures |cards| == |sorted|
    ensures forall i :: 0 <= i < |cards| ==> cards[i].iteration == sorted[i] && cards[i].lineCount >= 1
    ensures forall i :: 0 <= i < |cards| - 1 ==>
      cards[i].shown == DiffText(sorted[i + 1].content, sorted[i].content)
    ensures |cards| > 0 ==> cards[|cards| - 1].shown == sorted[|cards| - 1].content
  {
    seq(|sorted|, i requires 0 <= i < |sorted| => CardAt(sorted, i))
  }

  /** The rendered list: the cards of the newest-first order. It holds every
      stored iteration exactly once, newest first; each card but the last is
      compared with the card below it, the last shows its raw content, and
      every line count is at least one. */
  function View(iterations: seq<Iteration>): (cards: seq<Card>)
    ensures multiset(Shown(cards)) == multiset(iterations)
    ensures NewestFirst(Shown(cards))
    ensures forall i :: 0 <= i < |cards| - 1 ==>
      cards[i].shown == DiffText(cards[i + 1].iteration.content, cards[i].iteration.content)
    ensures |cards| > 0 ==> cards[|cards| - 1].shown == cards[|cards| - 1].iteration.content
    ensures forall i :: 0 <= i < |cards| ==> cards[i].lineCount >= 1
  {
    var sorted := SortNewestFirst(iterations);
    var cards := Cards(sorted);
    assert Shown(cards) == sorted;
    cards
  }

  /** The iterations the cards show, top to bottom. */
  function Shown(cards: seq<Card>): (its: seq<Iteration>)
    ensures |its| == |cards|
    ensures forall i :: 0 <= i < |cards| ==> its[i] == cards[i].iteration
  {
    seq(|cards|, i requires 0 <= i < |cards| => cards[i].iteration)
  }

  /** An iteration returned by the creation request that is at least as new
      as every stored one shows up as the first card, compared with the
      previously first iteration, and every other card stays as it was. */
  lemma NewestPrependedOnTop(iterations: seq<Iteration>, it: Iteration)
    requires |iterations| > 0
    requires forall k :: 0 <= k < |iterations| ==> iterations[k].createdAt <= it.createdAt
    ensures var before := View(iterations);
            var after := View(OnFetcherData(iterations, Some(it)));
            && after[0].iteration == it
            && after[0].shown == DiffText(before[0].iteration.content, it.content)
            && after[1..] == before
  {
    var sorted := SortNewestFirst(iterations);
    SortPrependNewest(iterations, it);
    CardsTail(it, sorted);
  }

  lemma SortPrependNewest(iterations: seq<Iteration>, it: Iteration)
    requires |iterations| > 0
    requires forall k :: 0 <= k < |iterations| ==> iterations[k].createdAt <= it.createdAt
    ensures SortNewestFirst([it] + iterations) == [it] + SortNewestFirst(iterations)
  {
    var sorted := SortNewestFirst(iterations);
    var list := [it] + iterations;
    assert list[1..] == iterations;
    assert sorted[0] in multiset(iterations);
    assert sorted[0].createdAt <= it.createdAt;
  }

  lemma CardsTail(it: Iteration, sorted: seq<Iteration>)
    requires |sorted| > 0
    ensures Cards([it] + sorted)[0].shown == DiffText(sorted[0].content, it.content)
    ensures Cards([it] + sorted)[1..] == Cards(sorted)
  {
    var after := Cards([it] + sorted);
    var before := Cards(sorted);
    forall i | 0 <= i < |before|
      ensures after[1..][i] == before[i]
    {
      assert CardAt([it] + sorted, i + 1) == CardAt(sorted, i);
    }
  }
}
