/** The quote display component: the category toggle and filter menu, the
    choice made on first load between a deep-linked quote and a random
    draw, and the greedy word wrap used to lay a quote out on a wallpaper. */
module QuoteDisplay {
  import opened Builtins
  import opened QuoteServices

  /** The active category after clicking `clicked`: the active one is
      cleared, any other becomes active. */
  function ToggledCategory(active: Option<string>, clicked: string): Option<string>
  {
    if active == Some(clicked) then None else Some(clicked)
  }

  /** The author filter left behind by `setCategory(category)`. */
  function AuthorAfterSetCategory(category: Option<string>, author: Option<string>): Option<string>
  {
    if Truthy(category) then None else author
  }

  /** What the first load of the page does. */
  datatype InitialLoad = ShowQuote(quote: Quote) | DrawRandom

  /** A truthy `id` in the address that names a corpus quote shows that
      quote; anything else draws a random quote. */
  function InitialLoadPlan(quotes: seq<Quote>, urlId: Option<string>): (plan: InitialLoad)
    ensures plan.ShowQuote? <==> Truthy(urlId) && exists q :: q in quotes && q.id == urlId.value
    ensures plan.ShowQuote? ==> plan.quote in quotes && plan.quote.id == urlId.value
    ensures plan.ShowQuote? ==> exists i :: 0 <= i < |quotes| && quotes[i] == plan.quote
                                            && forall j :: 0 <= j < i ==> quotes[j].id != urlId.value
  {
    if Truthy(urlId) then
      match FindById(quotes, urlId.value)
      case Some(q) => ShowQuote(q)
      case None => DrawRandom
    else DrawRandom
  }

  class QuoteDisplayComponent {
    const quoteService: QuoteService
    var quote: Option<Quote>
    var isFilterOpen: bool

    constructor (quoteService: QuoteService)
      ensures this.quoteService == quoteService
      ensures quote == None && !isFilterOpen
    {
      this.quoteService := quoteService;
      quote := None;
      isFilterOpen := false;
    }

    method ToggleFilter()
      modifies this`isFilterOpen
      ensures isFilterOpen == !old(isFilterOpen)
    {
      isFilterOpen := !isFilterOpen;
    }

    method CloseFilter()
      modifies this`isFilterOpen
      ensures !isFilterOpen
    {
      isFilterOpen := false;
    }

    /** Shows a fresh random quote; on an empty corpus the draw fails and the
        shown quote stays as it was. */
    method LoadNewQuote(choice: nat)
      requires |quoteService.quotes| > 0 ==>
        choice < |Choices(CandidatePool(quoteService.quotes, quoteService.activeCategory, quoteService.activeAuthor), quoteService.shownQuoteIds)|
      modifies this`quote, quoteService`shownQuoteIds
      ensures var s := Draw(quoteService.quotes, quoteService.activeCategory, quoteService.activeAuthor, old(quoteService.shownQuoteIds), choice);
        && quoteService.shownQuoteIds == s.shown
        && quote == (if s.result.Picked? then Some(s.result.quote) else old(quote))
    {
      var r := quoteService.GetRandomQuote(choice);
      if r.Picked? {
        quote := Some(r.quote);
      }
    }

    /** Clicking a category: the active category is cleared or set, the shown
        history is cleared either way, and a quote is drawn under the new
        filter. */
    method ToggleCategory(category: string, choice: nat)
      requires |quoteService.quotes| > 0 ==>
        choice < |CandidatePool(quoteService.quotes, ToggledCategory(quoteService.activeCategory, category),
                                AuthorAfterSetCategory(ToggledCategory(quoteService.activeCategory, category), quoteService.activeAuthor))|
      modifies this`quote, quoteService
      ensures quoteService.activeCategory == ToggledCategory(old(quoteService.activeCategory), category)
      ensures old(quoteService.activeCategory) == Some(category) ==> quoteService.activeCategory == None
      ensures old(quoteService.activeCategory) != Some(category) ==> quoteService.activeCategory == Some(category)
      ensures quoteService.activeAuthor == AuthorAfterSetCategory(quoteService.activeCategory, old(quoteService.activeAuthor))
      ensures var s := Draw(quoteService.quotes, quoteService.activeCategory, quoteService.activeAuthor, {}, choice);
        && quoteService.shownQuoteIds == s.shown
        && quote == (if s.result.Picked? then Some(s.result.quote) else old(quote))
      ensures quoteService.HistoryScoped()
    {
      var currentActive := quoteService.GetActiveCategory();
      if currentActive == Some(category) {
        quoteService.SetCategory(None);
      } else {
        quoteService.SetCategory(Some(category));
      }
      var pool := CandidatePool(quoteService.quotes, quoteService.activeCategory, quoteService.activeAuthor);
      assert Available(pool, {}) == pool;
      LoadNewQuote(choice);
    }

    /** Picking a category from the menu toggles it and closes the menu. */
    method SelectCategory(category: string, choice: nat)
      requires |quoteService.quotes| > 0 ==>
        choice < |CandidatePool(quoteService.quotes, ToggledCategory(quoteService.activeCategory, category),
                                AuthorAfterSetCategory(ToggledCategory(quoteService.activeCategory, category), quoteService.activeAuthor))|
      modifies this`quote, this`isFilterOpen, quoteService
      ensures !isFilterOpen
      ensures quoteService.activeCategory == ToggledCategory(old(quoteService.activeCategory), category)
      ensures quoteService.activeAuthor == AuthorAfterSetCategory(quoteService.activeCategory, old(quoteService.activeAuthor))
      ensures var s := Draw(quoteService.quotes, quoteService.activeCategory, quoteService.activeAuthor, {}, choice);
        && quoteService.shownQuoteIds == s.shown
        && quote == (if s.result.Picked? then Some(s.result.quote) else old(quote))
    {
      ToggleCategory(category, choice);
      CloseFilter();
    }

    /** First load: show the deep-linked quote without drawing, or draw. */
    method HandleInitialLoad(urlId: Option<string>, choice: nat)
      requires InitialLoadPlan(quoteService.quotes, urlId).DrawRandom? && |quoteService.quotes| > 0 ==>
        choice < |Choices(CandidatePool(quoteService.quotes, quoteService.activeCategory, quoteService.activeAuthor), quoteService.shownQuoteIds)|
      modifies this`quote, quoteService`shownQuoteIds
      ensures InitialLoadPlan(quoteService.quotes, urlId).ShowQuote? ==>
        quote == Some(InitialLoadPlan(quoteService.quotes, urlId).quote) && quoteService.shownQuoteIds == old(quoteService.shownQuoteIds)
      ensures InitialLoadPlan(quoteService.quotes, urlId).DrawRandom? ==>
        var s := Draw(quoteService.quotes, quoteService.activeCategory, quoteService.activeAuthor, old(quoteService.shownQuoteIds), choice);
        && quoteService.shownQuoteIds == s.shown
        && quote == (if s.result.Picked? then Some(s.result.quote) else old(quote))
    {
      if Truthy(urlId) {
        var q := quoteService.GetQuoteById(urlId.value);
        if q.Some? {
          quote := q;
        } else {
          LoadNewQuote(choice);
        }
      } else {
        LoadNewQuote(choice);
      }
    }
  }

  /** `lines` is a greedy wrap of `words`: `groups` cuts the words, in order,
      into non-empty runs, each line is its run joined by spaces, every word
      after the first of a line passed the fit test when it was appended (so a
      line of more than one word measures less than `maxWidth`), and each line
      break was forced: the line with the next run's first word added does not
      measure less than `maxWidth`. */
  ghost predicate Wrapped(words: seq<string>, lines: seq<string>, groups: seq<seq<string>>, maxWidth: int, width: string -> int)
  {
    && |groups| == |lines|
    && Flatten(groups) == words
    && (forall k :: 0 <= k < |lines| ==> |groups[k]| > 0 && lines[k] == Join(groups[k]))
    && (forall k :: 0 <= k < |lines| ==> AppendsFit(groups[k], maxWidth, width))
    && (forall k :: 0 <= k < |lines| && |groups[k]| > 1 ==> width(lines[k]) < maxWidth)
    && (forall k :: 0 <= k < |lines| - 1 ==> BreakForced(lines, groups, k, maxWidth, width))
  }

  /** Each word of `group` after the first fitted: the words before it, joined
      by spaces, followed by a space and the word, measure less than `maxWidth`. */
  ghost predicate AppendsFit(group: seq<string>, maxWidth: int, width: string -> int)
  {
    forall j :: 0 < j < |group| ==> width(Join(group[..j]) + " " + group[j]) < maxWidth
  }

  /** Appending a word that fits to a group whose appends all fitted. */
  lemma AppendsFitSnoc(group: seq<string>, word: string, maxWidth: int, width: string -> int)
    requires AppendsFit(group, maxWidth, width)
    requires width(Join(group) + " " + word) < maxWidth
    ensures AppendsFit(group + [word], maxWidth, width)
  {
    var g := group + [word];
    forall j | 0 < j < |g|
      ensures width(Join(g[..j]) + " " + g[j]) < maxWidth
    {
      if j < |group| {
        assert g[..j] == group[..j];
        assert g[j] == group[j];
      } else {
        assert g[..j] == group;
      }
    }
  }

  /** Line `k` was ended because the first word of line `k + 1` did not fit. */
  ghost predicate BreakForced(lines: seq<string>, groups: seq<seq<string>>, k: int, maxWidth: int, width: string -> int)
  {
    0 <= k < |lines| - 1 && k + 1 < |groups| && |groups[k + 1]| > 0 ==>
      width(lines[k] + " " + groups[k + 1][0]) >= maxWidth
  }

  /** Greedy wrap of `text.split(' ')`: a word joins the current line only
      when the line with it measures less than `maxWidth`. `width` stands for
      `ctx.measureText(..).width`. The ghost `groups` are the words of each
      line. */
  method GetWrappedLines(text: string, maxWidth: int, width: string -> int)
    returns (lines: seq<string>, ghost groups: seq<seq<string>>)
    ensures |lines| >= 1
    ensures Join(lines) == text
    ensures Wrapped(Split(text), lines, groups, maxWidth, width)
  {
    var words := Split(text);
    lines := [];
    groups := [];
    var currentLine := words[0];
    ghost var currentGroup := [words[0]];
    WrapStart(words, maxWidth, width);
    for i := 1 to |words|
      invariant WrapState(words[..i], lines, currentLine, groups, currentGroup, maxWidth, width)
    {
      var word := words[i];
      if width(currentLine + " " + word) < maxWidth {
        ExtendStep(words, i, lines, currentLine, groups, currentGroup, maxWidth, width);
        currentLine := currentLine + " " + word;
        currentGroup := currentGroup + [word];
      } else {
        BreakStep(words, i, lines, currentLine, groups, currentGroup, maxWidth, width);
        lines := lines + [currentLine];
        groups := groups + [currentGroup];
        currentLine := word;
        currentGroup := [word];
      }
    }
    WrapFinish(words, lines, currentLine, groups, currentGroup, maxWidth, width);
    JoinSplit(text);
    lines := lines + [currentLine];
    groups := groups + [currentGroup];
  }

  /** The state of the wrapping loop after the words `prefix`: the finished
      `lines` followed by `line` wrap `prefix` greedily and join back to it. */
  ghost predicate WrapState(prefix: seq<string>, lines: seq<string>, line: string,
                            groups: seq<seq<string>>, group: seq<string>, maxWidth: int, width: string -> int)
  {
    && Wrapped(prefix, lines + [line], groups + [group], maxWidth, width)
    && Join(lines + [line]) == Join(prefix)
  }

  /** Before the loop: the first word alone on the current line. */
  lemma WrapStart(words: seq<string>, maxWidth: int, width: string -> int)
    requires |words| > 0
    ensures WrapState(words[..1], [], words[0], [], [words[0]], maxWidth, width)
  {
    var w := words[0];
    assert words[..1] == [w];
    assert [] + [w] == [w];
    assert [] + [[w]] == [[w]];
    WrapSingle(w, maxWidth, width);
  }

  /** One word alone on one line is a wrap of that word. */
  lemma WrapSingle(w: string, maxWidth: int, width: string -> int)
    ensures Wrapped([w], [w], [[w]], maxWidth, width)
    ensures Join([w]) == w
  {
    assert Flatten([[w]]) == [w] by {
      assert [[w]][..0] == [];
    }
    assert AppendsFit([w], maxWidth, width);
  }

  /** After the loop: the state for all the words is the wrap of the words. */
  lemma WrapFinish(words: seq<string>, lines: seq<string>, line: string,
                   groups: seq<seq<string>>, group: seq<string>, maxWidth: int, width: string -> int)
    requires WrapState(words[..|words|], lines, line, groups, group, maxWidth, width)
    ensures Wrapped(words, lines + [line], groups + [group], maxWidth, width)
    ensures Join(lines + [line]) == Join(words)
  {
    assert words[..|words|] == words;
  }

  /** One loop step that appends `word` to the current line. */
  lemma ExtendStep(words: seq<string>, i: int, lines: seq<string>, line: string,
                   groups: seq<seq<string>>, group: seq<string>, maxWidth: int, width: string -> int)
    requires 0 < i < |words|
    requires WrapState(words[..i], lines, line, groups, group, maxWidth, width)
    requires width(line + " " + words[i]) < maxWidth
    ensures WrapState(words[..i + 1], lines, line + " " + words[i], groups, group + [words[i]], maxWidth, width)
  {
    var prefix, word := words[..i], words[i];
    assert words[..i + 1] == prefix + [word];
    JoinSnoc(prefix, word);
    JoinSnocLast(lines, line, word);
    WrapExtend(prefix, lines, groups, line, group, word, maxWidth, width);
  }

  /** One loop step that ends the current line and starts a new one with `word`. */
  lemma BreakStep(words: seq<string>, i: int, lines: seq<string>, line: string,
                  groups: seq<seq<string>>, group: seq<string>, maxWidth: int, width: string -> int)
    requires 0 < i < |words|
    requires WrapState(words[..i], lines, line, groups, group, maxWidth, width)
    requires width(line + " " + words[i]) >= maxWidth
    ensures WrapState(words[..i + 1], lines + [line], words[i], groups + [group], [words[i]], maxWidth, width)
  {
    var prefix, word := words[..i], words[i];
    assert words[..i + 1] == prefix + [word];
    JoinSnoc(prefix, word);
    JoinSnoc(lines + [line], word);
    WrapBreak(prefix, lines + [line], groups + [group], word, maxWidth, width);
  }

  /** Adding a word that fits to the last line keeps the wrap greedy. */
  lemma WrapExtend(words: seq<string>, lines: seq<string>, groups: seq<seq<string>>,
                   line: string, group: seq<string>, word: string, maxWidth: int, width: string -> int)
    requires Wrapped(words, lines + [line], groups + [group], maxWidth, width)
    requires width(line + " " + word) < maxWidth
    ensures Wrapped(words + [word], lines + [line + " " + word], groups + [group + [word]], maxWidth, width)
  {
    var n := |lines|;
    var oldLines, oldGroups := lines + [line], groups + [group];
    var newLines, newGroups := lines + [line + " " + word], groups + [group + [word]];
    assert newGroups[..n] == groups && oldGroups[..n] == groups;
    assert group == oldGroups[n];
    JoinSnoc(group, word);
    AppendsFitSnoc(group, word, maxWidth, width);
    forall k | 0 <= k < n
      ensures newLines[k] == oldLines[k] && newGroups[k] == oldGroups[k]
    {
    }
    forall k | 0 <= k < |newLines| - 1
      ensures BreakForced(newLines, newGroups, k, maxWidth, width)
    {
      assert BreakForced(oldLines, oldGroups, k, maxWidth, width);
      assert newGroups[k + 1][0] == oldGroups[k + 1][0];
    }
  }

  /** Starting a new line with a word that does not fit keeps the wrap greedy. */
  lemma WrapBreak(words: seq<string>, lines: seq<string>, groups: seq<seq<string>>,
                  word: string, maxWidth: int, width: string -> int)
    requires |lines| > 0
    requires Wrapped(words, lines, groups, maxWidth, width)
    requires width(lines[|lines| - 1] + " " + word) >= maxWidth
    ensures Wrapped(words + [word], lines + [word], groups + [[word]], maxWidth, width)
  {
    var newLines, newGroups := lines + [word], groups + [[word]];
    assert newGroups[..|groups|] == groups;
    assert Join([word]) == word;
    forall k | 0 <= k < |newLines| - 1
      ensures BreakForced(newLines, newGroups, k, maxWidth, width)
    {
      if k < |lines| - 1 {
        assert BreakForced(lines, groups, k, maxWidth, width);
      }
    }
  }

  /** Dropping the first line of a wrap leaves a wrap of the remaining words. */
  lemma WrappedTail(words: seq<string>, lines: seq<string>, groups: seq<seq<string>>, maxWidth: int, width: string -> int)
    requires |lines| > 0
    requires Wrapped(words, lines, groups, maxWidth, width)
    ensures |groups[0]| <= |words| && words[..|groups[0]|] == groups[0]
    ensures Wrapped(words[|groups[0]|..], lines[1..], groups[1..], maxWidth, width)
  {
    FlattenCons(groups);
    var n := |groups[0]|;
    assert words[..n] == groups[0] && words[n..] == Flatten(groups[1..]);
    var ls, gs := lines[1..], groups[1..];
    forall k | 0 <= k < |ls|
      ensures |gs[k]| > 0 && ls[k] == Join(gs[k]) && AppendsFit(gs[k], maxWidth, width)
      ensures |gs[k]| > 1 ==> width(ls[k]) < maxWidth
    {
      assert ls[k] == lines[k + 1] && gs[k] == groups[k + 1];
    }
    forall k | 0 <= k < |ls| - 1
      ensures BreakForced(ls, gs, k, maxWidth, width)
    {
      assert BreakForced(lines, groups, k + 1, maxWidth, width);
      assert ls[k] == lines[k + 1] && gs[k + 1] == groups[k + 2];
    }
  }

  /** A wrap of no words has no lines; a wrap of some words has some line. */
  lemma WrappedEmpty(words: seq<string>, lines: seq<string>, groups: seq<seq<string>>, maxWidth: int, width: string -> int)
    requires Wrapped(words, lines, groups, maxWidth, width)
    ensures |lines| == 0 <==> |words| == 0
  {
    if |lines| > 0 {
      FlattenCons(groups);
    }
  }

  /** The greedy wrap is unique: two wraps of the same words under the same
      width and limit are the same lines with the same runs. So the contract
      of GetWrappedLines fixes its result. */
  lemma {:induction false} WrappedUnique(words: seq<string>, lines1: seq<string>, groups1: seq<seq<string>>,
                                         lines2: seq<string>, groups2: seq<seq<string>>, maxWidth: int, width: string -> int)
    requires Wrapped(words, lines1, groups1, maxWidth, width)
    requires Wrapped(words, lines2, groups2, maxWidth, width)
    ensures lines1 == lines2 && groups1 == groups2
    decreases |words|
  {
    WrappedEmpty(words, lines1, groups1, maxWidth, width);
    WrappedEmpty(words, lines2, groups2, maxWidth, width);
    if |words| > 0 {
      WrappedTail(words, lines1, groups1, maxWidth, width);
      WrappedTail(words, lines2, groups2, maxWidth, width);
      FirstRunsAgree(words, lines1, groups1, lines2, groups2, maxWidth, width);
      FirstRunsAgree(words, lines2, groups2, lines1, groups1, maxWidth, width);
      var n := |groups1[0]|;
      assert groups1[0] == groups2[0];
      WrappedUnique(words[n..], lines1[1..], groups1[1..], lines2[1..], groups2[1..], maxWidth, width);
      assert lines1 == [lines1[0]] + lines1[1..] && lines2 == [lines2[0]] + lines2[1..];
      assert groups1 == [groups1[0]] + groups1[1..] && groups2 == [groups2[0]] + groups2[1..];
    }
  }

  /** The first run of one wrap is no shorter than the first run of another:
      a break before it would contradict the fit test the other run passed. */
  lemma FirstRunsAgree(words: seq<string>, lines1: seq<string>, groups1: seq<seq<string>>,
                       lines2: seq<string>, groups2: seq<seq<string>>, maxWidth: int, width: string -> int)
    requires |lines1| > 0 && |lines2| > 0
    requires Wrapped(words, lines1, groups1, maxWidth, width)
    requires Wrapped(words, lines2, groups2, maxWidth, width)
    ensures |groups1[0]| >= |groups2[0]|
  {
    WrappedTail(words, lines1, groups1, maxWidth, width);
    WrappedTail(words, lines2, groups2, maxWidth, width);
    var m := |groups1[0]|;
    if m < |groups2[0]| {
      WrappedEmpty(words[m..], lines1[1..], groups1[1..], maxWidth, width);
      BreakAfterFirst(words, lines1, groups1, maxWidth, width);
      FitInFirst(words, lines2, groups2, m, maxWidth, width);
    }
  }

  /** A wrap of more than one line broke after its first run because the
      next word did not fit. */
  lemma BreakAfterFirst(words: seq<string>, lines: seq<string>, groups: seq<seq<string>>, maxWidth: int, width: string -> int)
    requires |lines| > 1
    requires Wrapped(words, lines, groups, maxWidth, width)
    ensures |groups[0]| < |words|
    ensures width(Join(words[..|groups[0]|]) + " " + words[|groups[0]|]) >= maxWidth
  {
    WrappedTail(words, lines, groups, maxWidth, width);
    var m := |groups[0]|;
    FlattenCons(groups[1..]);
    assert words[m..] == Flatten(groups[1..]);
    assert groups[1][0] == words[m];
    assert BreakForced(lines, groups, 0, maxWidth, width);
  }

  /** Every word after the first of the first run passed the fit test. */
  lemma FitInFirst(words: seq<string>, lines: seq<string>, groups: seq<seq<string>>, m: int, maxWidth: int, width: string -> int)
    requires |lines| > 0
    requires Wrapped(words, lines, groups, maxWidth, width)
    requires 0 < m < |groups[0]|
    ensures m < |words|
    ensures width(Join(words[..m]) + " " + words[m]) < maxWidth
  {
    WrappedTail(words, lines, groups, maxWidth, width);
    var b := groups[0];
    assert b[..m] == words[..m] && b[m] == words[m];
    assert AppendsFit(b, maxWidth, width);
  }

  lemma JoinSnocLast(lines: seq<string>, line: string, word: string)
    ensures Join(lines + [line + " " + word]) == Join(lines + [line]) + " " + word
  {
    if |lines| > 0 {
      JoinSnoc(lines, line + " " + word);
      JoinSnoc(lines, line);
    }
  }
}
