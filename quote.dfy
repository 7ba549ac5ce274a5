/** The quote service: a read-only corpus, the category and author filters,
    and the record of quotes already shown that keeps a draw from repeating
    a quote until its pool is used up. */
module QuoteServices {
  import opened Builtins

  datatype Quote = Quote(id: string, number: int, content: string, author: string, categories: seq<string>)

  /** What a draw hands back: the error thrown on an empty corpus, or a quote. */
  datatype DrawResult = NoQuotesAvailable | Picked(quote: Quote)

  /** A draw's result together with the shown-set it leaves behind. */
  datatype Step = Step(result: DrawResult, shown: set<string>)

  /** JavaScript truthiness of a `string | null`: null and "" are falsy. */
  predicate Truthy(s: Option<string>)
  {
    s.Some? && s.value != ""
  }

  /** `quotes.find(q => q.id === id)`. */
  function FindById(quotes: seq<Quote>, id: string): (r: Option<Quote>)
    ensures r.None? <==> forall q :: q in quotes ==> q.id != id
    ensures r.Some? ==> exists i :: 0 <= i < |quotes| && quotes[i] == r.value && r.value.id == id
                                    && forall j :: 0 <= j < i ==> quotes[j].id != id
  {
    if |quotes| == 0 then None
    else if quotes[0].id == id then Some(quotes[0])
    else
      var r := FindById(quotes[1..], id);
      assert r.Some? ==> exists i :: 1 <= i < |quotes| && quotes[i] == r.value && r.value.id == id
                                     && forall j :: 0 <= j < i ==> quotes[j].id != id by {
        if r.Some? {
          var i :| 0 <= i < |quotes| - 1 && quotes[1..][i] == r.value && r.value.id == id
                   && forall j :: 0 <= j < i ==> quotes[1..][j].id != id;
          assert forall j :: 1 <= j < i + 1 ==> quotes[j].id != id by {
            forall j | 1 <= j < i + 1 ensures quotes[j].id != id { assert quotes[j] == quotes[1..][j - 1]; }
          }
        }
      }
      r
  }

  /** Every category label of the corpus, in corpus order, repeats included. */
  function CategoryEntries(quotes: seq<Quote>): seq<string>
  {
    if |quotes| == 0 then []
    else CategoryEntries(quotes[..|quotes| - 1]) + quotes[|quotes| - 1].categories
  }

  /** Every quote's author, in corpus order, repeats included. */
  function AuthorEntries(quotes: seq<Quote>): (r: seq<string>)
    ensures |r| == |quotes|
  {
    if |quotes| == 0 then []
    else AuthorEntries(quotes[..|quotes| - 1]) + [quotes[|quotes| - 1].author]
  }

  /** The quotes the active filter selects, before the fallback to the
      corpus: the category filter when it is truthy, else the author filter
      when it is truthy, else the whole corpus. */
  function Filtered(quotes: seq<Quote>, category: Option<string>, author: Option<string>): seq<Quote>
  {
    if Truthy(category) then Filter(quotes, (q: Quote) => category.value in q.categories)
    else if Truthy(author) then Filter(quotes, (q: Quote) => q.author == author.value)
    else quotes
  }

  /** The quotes a draw chooses among under the given filters. */
  function CandidatePool(quotes: seq<Quote>, category: Option<string>, author: Option<string>): (pool: seq<Quote>)
    ensures forall q :: q in pool ==> q in quotes
    ensures |quotes| > 0 ==> |pool| > 0
  {
    var filtered := Filtered(quotes, category, author);
    if |filtered| == 0 then quotes else filtered
  }

  /** Pool resolution: an active category that some quote carries selects the
      quotes carrying it; failing that, an active author that some quote has
      selects that author's quotes; otherwise the pool is the whole corpus.
      A category that matches nothing falls back to the corpus without
      consulting the author. */
  lemma CandidatePoolResolution(quotes: seq<Quote>, category: Option<string>, author: Option<string>)
    ensures var pool := CandidatePool(quotes, category, author);
      && (Truthy(category) && (exists q :: q in quotes && category.value in q.categories) ==>
            forall q :: q in pool <==> q in quotes && category.value in q.categories)
      && (Truthy(category) && (forall q :: q in quotes ==> category.value !in q.categories) ==>
            pool == quotes)
      && (!Truthy(category) && Truthy(author) && (exists q :: q in quotes && q.author == author.value) ==>
            forall q :: q in pool <==> q in quotes && q.author == author.value)
      && (!Truthy(category) && Truthy(author) && (forall q :: q in quotes ==> q.author != author.value) ==>
            pool == quotes)
      && (!Truthy(category) && !Truthy(author) ==> pool == quotes)
  {
    var filtered := Filtered(quotes, category, author);
    assert |filtered| > 0 ==> filtered[0] in filtered;
  }

  /** The pool quotes whose ids have not been shown. */
  function Available(pool: seq<Quote>, shown: set<string>): (r: seq<Quote>)
  {
    Filter(pool, (q: Quote) => q.id !in shown)
  }

  function Ids(pool: seq<Quote>): set<string>
  {
    set q | q in pool :: q.id
  }

  /** The sequence the random index ranges over: the unseen pool quotes or,
      once there are none, the whole pool. */
  function Choices(pool: seq<Quote>, shown: set<string>): seq<Quote>
  {
    var available := Available(pool, shown);
    if |available| == 0 then pool else available
  }

  /** One draw from a non-empty pool, with `choice` standing for
      `Math.floor(Math.random() * n)`. */
  function DrawFrom(pool: seq<Quote>, shown: set<string>, choice: nat): (s: Step)
    requires |pool| > 0 && choice < |Choices(pool, shown)|
    ensures s.result.Picked? && s.result.quote in pool
    ensures (exists q :: q in pool && q.id !in shown) ==>
              s.result.quote.id !in shown && s.shown == shown + {s.result.quote.id}
    ensures Ids(pool) <= shown ==> s.shown == shown - Ids(pool)
    ensures shown <= Ids(pool) ==> s.shown <= Ids(pool)
  {
    var available := Available(pool, shown);
    if |available| == 0 then
      assert forall q :: q in pool ==> q.id in shown;
      Step(Picked(pool[choice]), shown - Ids(pool))
    else
      assert available[choice] in available;
      Step(Picked(available[choice]), shown + {available[choice].id})
  }

  /** `getRandomQuote` as a function of the corpus, the filters and the
      shown-set: it fails exactly on an empty corpus, changing nothing, and
      otherwise draws from the candidate pool. */
  function Draw(quotes: seq<Quote>, category: Option<string>, author: Option<string>, shown: set<string>, choice: nat): (s: Step)
    requires |quotes| > 0 ==> choice < |Choices(CandidatePool(quotes, category, author), shown)|
    ensures s.result.NoQuotesAvailable? <==> |quotes| == 0
    ensures s.result.NoQuotesAvailable? ==> s.shown == shown
  {
    if |quotes| == 0 then Step(NoQuotesAvailable, shown)
    else DrawFrom(CandidatePool(quotes, category, author), shown, choice)
  }

  /** A successful draw returns a corpus quote that honours the filter that
      resolved the pool: the active category when some quote carries it,
      otherwise the active author when some quote has that author. */
  lemma DrawHonoursFilter(quotes: seq<Quote>, category: Option<string>, author: Option<string>, shown: set<string>, choice: nat)
    requires |quotes| > 0 && choice < |Choices(CandidatePool(quotes, category, author), shown)|
    ensures var s := Draw(quotes, category, author, shown, choice);
      && s.result.Picked? && s.result.quote in quotes
      && (Truthy(category) && (exists q :: q in quotes && category.value in q.categories) ==>
            category.value in s.result.quote.categories)
      && (!Truthy(category) && Truthy(author) && (exists q :: q in quotes && q.author == author.value) ==>
            s.result.quote.author == author.value)
  {
    CandidatePoolResolution(quotes, category, author);
  }

  // ---------------------------------------------------------------------
  // Runs of draws under one unchanged filter, hence from one fixed pool.

  /** Every choice of the run is in range for the state it is made in. */
  ghost predicate Feasible(pool: seq<Quote>, shown: set<string>, choices: seq<nat>)
    decreases |choices|
  {
    |choices| == 0 ||
    (|pool| > 0 && choices[0] < |Choices(pool, shown)| &&
     Feasible(pool, DrawFrom(pool, shown, choices[0]).shown, choices[1..]))
  }

  /** The steps of consecutive draws made with `choices`. */
  ghost function Run(pool: seq<Quote>, shown: set<string>, choices: seq<nat>): (steps: seq<Step>)
    requires Feasible(pool, shown, choices)
    ensures |steps| == |choices|
    decreases |choices|
  {
    if |choices| == 0 then []
    else
      var first := DrawFrom(pool, shown, choices[0]);
      [first] + Run(pool, first.shown, choices[1..])
  }

  /** The shown-set after `steps`, which started from `shown`. */
  ghost function After(shown: set<string>, steps: seq<Step>): set<string>
  {
    if |steps| == 0 then shown else steps[|steps| - 1].shown
  }

  /** The ids of the quotes the steps returned. */
  ghost function PickedIds(steps: seq<Step>): set<string>
  {
    if |steps| == 0 then {}
    else (if steps[0].result.Picked? then {steps[0].result.quote.id} else {}) + PickedIds(steps[1..])
  }

  lemma {:induction false} SubsetCardinality(a: set<string>, b: set<string>)
    requires a <= b
    ensures |a| <= |b|
    ensures |a| == |b| ==> a == b
  {
    if a != {} {
      var x :| x in a;
      SubsetCardinality(a - {x}, b - {x});
    } else if |b| == 0 {
      assert b == {};
    }
  }

  /** `steps`, made from `shown`, all returned quotes not shown before, no
      two of them with the same id, and left behind `shown` plus exactly
      their ids, one more id per step. */
  ghost predicate FreshRun(shown: set<string>, steps: seq<Step>)
  {
    && (forall i :: 0 <= i < |steps| ==> steps[i].result.Picked? && steps[i].result.quote.id !in shown)
    && (forall i, j :: 0 <= i < j < |steps| ==> steps[i].result.quote.id != steps[j].result.quote.id)
    && After(shown, steps) == shown + PickedIds(steps)
    && |After(shown, steps)| == |shown| + |steps|
  }

  /** No repeat until exhausted: starting from a shown-set scoped to the pool,
      as long as the pool still holds an unshown id for every draw, each draw
      returns a quote not shown before, no id comes back twice, and the
      shown-set grows by exactly the ids returned. */
  lemma {:induction false} NoRepeatUntilExhausted(pool: seq<Quote>, shown: set<string>, choices: seq<nat>)
    requires shown <= Ids(pool)
    requires |shown| + |choices| <= |Ids(pool)|
    requires Feasible(pool, shown, choices)
    ensures FreshRun(shown, Run(pool, shown, choices))
    decreases |choices|
  {
    if |choices| > 0 {
      var first := DrawFrom(pool, shown, choices[0]);
      DrawFresh(pool, shown, choices[0]);
      NoRepeatUntilExhausted(pool, first.shown, choices[1..]);
      FreshRunCons(shown, first, Run(pool, first.shown, choices[1..]));
    }
  }

  /** A fresh draw in front of a fresh run from the state it leaves is a
      fresh run. */
  lemma FreshRunCons(shown: set<string>, first: Step, rest: seq<Step>)
    requires first.result.Picked? && first.result.quote.id !in shown
    requires first.shown == shown + {first.result.quote.id}
    requires FreshRun(first.shown, rest)
    ensures FreshRun(shown, [first] + rest)
  {
    var steps := [first] + rest;
    assert steps[1..] == rest;
    forall i | 0 <= i < |steps|
      ensures steps[i].result.Picked? && steps[i].result.quote.id !in shown
    {
      if i > 0 { assert steps[i] == rest[i - 1]; }
    }
    forall i, j | 0 <= i < j < |steps|
      ensures steps[i].result.quote.id != steps[j].result.quote.id
    {
      assert steps[j] == rest[j - 1];
      if i > 0 { assert steps[i] == rest[i - 1]; }
    }
    assert After(shown, steps) == After(first.shown, rest);
  }

  /** A draw while some pool id is unshown returns such a quote and records it. */
  lemma DrawFresh(pool: seq<Quote>, shown: set<string>, choice: nat)
    requires shown <= Ids(pool) && |shown| < |Ids(pool)|
    requires |pool| > 0 && choice < |Choices(pool, shown)|
    ensures var s := DrawFrom(pool, shown, choice);
      && s.result.quote.id !in shown
      && s.shown == shown + {s.result.quote.id}
      && |s.shown| == |shown| + 1
      && s.shown <= Ids(pool)
  {
    assert exists q :: q in pool && q.id !in shown by {
      if Ids(pool) <= shown {
        SubsetCardinality(Ids(pool), shown);
      }
      var id :| id in Ids(pool) && id !in shown;
      var q :| q in pool && q.id == id;
    }
  }

  /** Exhaustion: once a run has shown every id of the pool, the shown-set
      holds exactly the pool's ids, and the next draw returns a pool quote and
      empties the shown-set without recording what it returned. */
  lemma CycleCompletes(pool: seq<Quote>, shown: set<string>, choices: seq<nat>, choice: nat)
    requires |pool| > 0
    requires shown <= Ids(pool)
    requires |shown| + |choices| == |Ids(pool)|
    requires Feasible(pool, shown, choices)
    requires choice < |Choices(pool, After(shown, Run(pool, shown, choices)))|
    ensures var last := After(shown, Run(pool, shown, choices));
      && last == Ids(pool)
      && DrawFrom(pool, last, choice).result.quote in pool
      && DrawFrom(pool, last, choice).shown == {}
  {
    NoRepeatUntilExhausted(pool, shown, choices);
    var steps := Run(pool, shown, choices);
    PickedIdsInPool(pool, shown, choices);
    SubsetCardinality(After(shown, steps), Ids(pool));
  }

  lemma {:induction false} PickedIdsInPool(pool: seq<Quote>, shown: set<string>, choices: seq<nat>)
    requires Feasible(pool, shown, choices)
    ensures PickedIds(Run(pool, shown, choices)) <= Ids(pool)
    decreases |choices|
  {
    if |choices| > 0 {
      var first := DrawFrom(pool, shown, choices[0]);
      PickedIdsInPool(pool, first.shown, choices[1..]);
      var steps := Run(pool, shown, choices);
      assert steps[1..] == Run(pool, first.shown, choices[1..]);
      assert first.result.quote.id in Ids(pool);
    }
  }

  /** A one-quote corpus: a draw from the empty shown-set records the quote,
      and the draw after it returns the same quote and leaves the set empty,
      so the shown-set alternates between {id} and {}. */
  lemma SingleQuoteAlternates(q: Quote, category: Option<string>, author: Option<string>)
    ensures var first := Draw([q], category, author, {}, 0);
      && first == Step(Picked(q), {q.id})
      && Draw([q], category, author, first.shown, 0) == Step(Picked(q), {})
  {
    var pool := CandidatePool([q], category, author);
    assert pool == [q] by {
      var filtered := Filtered([q], category, author);
      assert |filtered| <= 1;
      assert forall x :: x in pool ==> x == q;
    }
    assert Ids(pool) == {q.id};
    assert Available(pool, {q.id}) == [];
    assert Available(pool, {}) == [q];
  }
  /** The draw that resets the shown-set does not record the quote it
      returns, so that quote may come straight back: over a pool of two
      quotes, index 0 each time returns a, b, a and then a again, before b is
      shown a second time. */
  lemma ResetDrawNotRecorded(a: Quote, b: Quote)
    requires a.id != b.id
    ensures var s1 := DrawFrom([a, b], {}, 0);
      && s1 == Step(Picked(a), {a.id})
      && var s2 := DrawFrom([a, b], s1.shown, 0);
      && s2 == Step(Picked(b), {a.id, b.id})
      && var s3 := DrawFrom([a, b], s2.shown, 0);
      && s3 == Step(Picked(a), {})
      && DrawFrom([a, b], s3.shown, 0) == Step(Picked(a), {a.id})
  {
    var pool := [a, b];
    assert Ids(pool) == {a.id, b.id};
    assert Available(pool, {}) == pool;
    assert Available(pool, {a.id}) == [b];
    assert Available(pool, {a.id, b.id}) == [];
  }

  // ---------------------------------------------------------------------

  class QuoteService {
    const quotes: seq<Quote>
    var activeCategory: Option<string>
    var activeAuthor: Option<string>
    var shownQuoteIds: set<string>

    /** The shown-set only ever names quotes of the current pool. */
    ghost predicate HistoryScoped()
      reads this
    {
      shownQuoteIds <= Ids(CandidatePool(quotes, activeCategory, activeAuthor))
    }

    constructor (quotes: seq<Quote>)
      ensures this.quotes == quotes
      ensures activeCategory == None && activeAuthor == None && shownQuoteIds == {}
      ensures HistoryScoped()
    {
      this.quotes := quotes;
      activeCategory := None;
      activeAuthor := None;
      shownQuoteIds := {};
    }

    /** `quotes.find(q => q.id === id)`: the first corpus quote with the id. */
    function GetQuoteById(id: string): (r: Option<Quote>)
      ensures r.None? <==> forall q :: q in quotes ==> q.id != id
      ensures r.Some? ==> r.value in quotes && r.value.id == id
    {
      FindById(quotes, id)
    }

    /** The distinct category labels, sorted ascending. */
    method GetUniqueCategories() returns (r: seq<string>)
      ensures StrictlySorted(r)
      ensures forall c :: c in r <==> exists q :: q in quotes && c in q.categories
    {
      var categories: set<string> := {};
      for i := 0 to |quotes|
        invariant categories == Elements(CategoryEntries(quotes[..i]))
      {
        var cs := quotes[i].categories;
        for j := 0 to |cs|
          invariant categories == Elements(CategoryEntries(quotes[..i]) + cs[..j])
        {
          assert cs[..j + 1] == cs[..j] + [cs[j]];
          ElementsSnoc(CategoryEntries(quotes[..i]) + cs[..j], cs[j]);
          categories := categories + {cs[j]};
        }
        assert quotes[..i + 1][..i] == quotes[..i];
        assert cs[..|cs|] == cs;
      }
      assert quotes[..|quotes|] == quotes;
      r := SortLabels(categories);
      CategoryEntriesMembers(quotes);
      assert forall c :: c in r <==> c in Elements(r);
    }

    /** The number of occurrences of each category label. */
    method GetCategoryCounts() returns (counts: map<string, nat>)
      ensures Tallies(counts, CategoryEntries(quotes))
    {
      counts := map[];
      for i := 0 to |quotes|
        invariant Tallies(counts, CategoryEntries(quotes[..i]))
      {
        var cs := quotes[i].categories;
        assert CategoryEntries(quotes[..i]) + cs[..0] == CategoryEntries(quotes[..i]);
        for j := 0 to |cs|
          invariant Tallies(counts, CategoryEntries(quotes[..i]) + cs[..j])
        {
          assert CategoryEntries(quotes[..i]) + cs[..j + 1] == (CategoryEntries(quotes[..i]) + cs[..j]) + [cs[j]];
          TalliesSnoc(counts, CategoryEntries(quotes[..i]) + cs[..j], cs[j]);
          counts := counts[cs[j] := (if cs[j] in counts then counts[cs[j]] else 0) + 1];
        }
        assert quotes[..i + 1][..i] == quotes[..i];
        assert cs[..|cs|] == cs;
      }
      assert quotes[..|quotes|] == quotes;
    }

    /** The distinct authors, sorted ascending. */
    method GetUniqueAuthors() returns (r: seq<string>)
      ensures StrictlySorted(r)
      ensures forall a :: a in r <==> exists q :: q in quotes && q.author == a
    {
      var authors: set<string> := {};
      for i := 0 to |quotes|
        invariant authors == Elements(AuthorEntries(quotes[..i]))
      {
        assert quotes[..i + 1][..i] == quotes[..i];
        ElementsSnoc(AuthorEntries(quotes[..i]), quotes[i].author);
        authors := authors + {quotes[i].author};
      }
      assert quotes[..|quotes|] == quotes;
      r := SortLabels(authors);
      AuthorEntriesMembers(quotes);
      assert forall a :: a in r <==> a in Elements(r);
    }

    /** The number of quotes by each author. */
    method GetAuthorCounts() returns (counts: map<string, nat>)
      ensures Tallies(counts, AuthorEntries(quotes))
    {
      counts := map[];
      for i := 0 to |quotes|
        invariant Tallies(counts, AuthorEntries(quotes[..i]))
      {
        var a := quotes[i].author;
        assert quotes[..i + 1][..i] == quotes[..i];
        TalliesSnoc(counts, AuthorEntries(quotes[..i]), a);
        counts := counts[a := (if a in counts then counts[a] else 0) + 1];
      }
      assert quotes[..|quotes|] == quotes;
    }

    method SetCategory(category: Option<string>)
      modifies this
      ensures activeCategory == category && GetActiveCategory() == category
      ensures activeAuthor == if Truthy(category) then None else old(activeAuthor)
      ensures shownQuoteIds == {}
      ensures HistoryScoped()
    {
      activeCategory := category;
      if Truthy(category) {
        activeAuthor := None;
      }
      shownQuoteIds := {};
    }

    method SetAuthor(author: Option<string>)
      modifies this
      ensures activeAuthor == author && GetActiveAuthor() == author
      ensures activeCategory == if Truthy(author) then None else old(activeCategory)
      ensures shownQuoteIds == {}
      ensures HistoryScoped()
    {
      activeAuthor := author;
      if Truthy(author) {
        activeCategory := None;
      }
      shownQuoteIds := {};
    }

    /** The category filter the setters last stored. */
    function GetActiveCategory(): (r: Option<string>)
      reads this
      ensures r == activeCategory
    {
      activeCategory
    }

    /** The author filter the setters last stored. */
    function GetActiveAuthor(): (r: Option<string>)
      reads this
      ensures r == activeAuthor
    {
      activeAuthor
    }

    /** Draws a quote from the current pool, preferring one not shown yet;
        `choice` stands for the random index. */
    method GetRandomQuote(choice: nat) returns (r: DrawResult)
      requires |quotes| > 0 ==> choice < |Choices(CandidatePool(quotes, activeCategory, activeAuthor), shownQuoteIds)|
      modifies this`shownQuoteIds
      ensures Step(r, shownQuoteIds) == Draw(quotes, activeCategory, activeAuthor, old(shownQuoteIds), choice)
      ensures old(HistoryScoped()) ==> HistoryScoped()
    {
      if |quotes| == 0 {
        return NoQuotesAvailable;
      }
      var candidateQuotes := CandidatePool(quotes, activeCategory, activeAuthor);
      var availableQuotes := Available(candidateQuotes, shownQuoteIds);
      if |availableQuotes| == 0 {
        ForgetAll(candidateQuotes);
        return Picked(candidateQuotes[choice]);
      }
      var selectedQuote := availableQuotes[choice];
      shownQuoteIds := shownQuoteIds + {selectedQuote.id};
      r := Picked(selectedQuote);
    }

    /** `candidateQuotes.forEach(q => this.shownQuoteIds.delete(q.id))`. */
    method ForgetAll(pool: seq<Quote>)
      modifies this`shownQuoteIds
      ensures shownQuoteIds == old(shownQuoteIds) - Ids(pool)
    {
      var i := 0;
      while i < |pool|
        invariant 0 <= i <= |pool|
        invariant shownQuoteIds == old(shownQuoteIds) - Ids(pool[..i])
      {
        assert Ids(pool[..i + 1]) == Ids(pool[..i]) + {pool[i].id} by {
          assert pool[..i + 1] == pool[..i] + [pool[i]];
        }
        shownQuoteIds := shownQuoteIds - {pool[i].id};
        i := i + 1;
      }
      assert pool[..|pool|] == pool;
    }
  }

  lemma {:induction false} CategoryEntriesMembers(quotes: seq<Quote>)
    ensures forall c :: c in Elements(CategoryEntries(quotes)) <==> exists q :: q in quotes && c in q.categories
  {
    if |quotes| > 0 {
      var n := |quotes| - 1;
      CategoryEntriesMembers(quotes[..n]);
      assert quotes == quotes[..n] + [quotes[n]];
      forall c ensures c in Elements(CategoryEntries(quotes)) <==> exists q :: q in quotes && c in q.categories {
        assert c in Elements(CategoryEntries(quotes)) <==> c in Elements(CategoryEntries(quotes[..n])) || c in quotes[n].categories;
        if c in quotes[n].categories { assert quotes[n] in quotes; }
      }
    }
  }

  lemma {:induction false} AuthorEntriesMembers(quotes: seq<Quote>)
    ensures forall a :: a in Elements(AuthorEntries(quotes)) <==> exists q :: q in quotes && q.author == a
  {
    if |quotes| > 0 {
      var n := |quotes| - 1;
      AuthorEntriesMembers(quotes[..n]);
      assert quotes == quotes[..n] + [quotes[n]];
      forall a ensures a in Elements(AuthorEntries(quotes)) <==> exists q :: q in quotes && q.author == a {
        assert a in Elements(AuthorEntries(quotes)) <==> a in Elements(AuthorEntries(quotes[..n])) || a == quotes[n].author;
        if a == quotes[n].author { assert quotes[n] in quotes; }
      }
    }
  }

  /** The category counts, summed over the unique categories, add up to the
      total number of category entries in the corpus. */
  lemma CategoryCountsSum(quotes: seq<Quote>, counts: map<string, nat>, labels: seq<string>)
    requires Tallies(counts, CategoryEntries(quotes))
    requires StrictlySorted(labels) && Elements(labels) == counts.Keys
    ensures forall c :: c in labels ==> c in counts
    ensures SumAt(counts, labels) == |CategoryEntries(quotes)|
  {
    StrictlySortedNoDuplicates(labels);
    TalliesSum(counts, CategoryEntries(quotes), labels);
  }

  /** The author counts, summed over the unique authors, add up to the
      number of quotes. */
  lemma AuthorCountsSum(quotes: seq<Quote>, counts: map<string, nat>, labels: seq<string>)
    requires Tallies(counts, AuthorEntries(quotes))
    requires StrictlySorted(labels) && Elements(labels) == counts.Keys
    ensures forall a :: a in labels ==> a in counts
    ensures SumAt(counts, labels) == |quotes|
  {
    StrictlySortedNoDuplicates(labels);
    TalliesSum(counts, AuthorEntries(quotes), labels);
  }
}
