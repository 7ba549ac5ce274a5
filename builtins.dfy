/** The JavaScript built-ins the quote engine calls, stated over sequences:
    Array.prototype.filter, String.prototype.split on a single space and the
    default (lexicographic) Array.prototype.sort of strings. Beside them are
    specification functions the engine never calls: Join (joining with
    single spaces, the inverse of the split), Flatten, and the occurrence
    count Occurrences that the tally maps are checked against. */
module Builtins {

  datatype Option<T> = None | Some(value: T)

  /** `s.filter(p)`: the elements of `s` that satisfy `p`, in order. */
  function Filter<T(!new)>(s: seq<T>, p: T -> bool): (r: seq<T>)
    ensures |r| <= |s|
    ensures forall x :: x in r <==> x in s && p(x)
    ensures (forall x :: x in s ==> p(x)) ==> r == s
    ensures (forall x :: x in s ==> !p(x)) ==> r == []
  {
    if |s| == 0 then []
    else if p(s[0]) then [s[0]] + Filter(s[1..], p)
    else Filter(s[1..], p)
  }

  /** The set of elements of a sequence (what `new Set(xs)` holds). */
  function Elements<T(!new)>(xs: seq<T>): set<T>
  {
    set x | x in xs
  }

  lemma ElementsSnoc<T(!new)>(xs: seq<T>, x: T)
    ensures Elements(xs + [x]) == Elements(xs) + {x}
  {
    assert forall y :: y in xs + [x] <==> y in xs || y == x;
  }

  /** How many entries of `xs` equal `x`. */
  function Occurrences<T(==)>(xs: seq<T>, x: T): (n: nat)
    ensures n > 0 <==> x in xs
    ensures n <= |xs|
  {
    if |xs| == 0 then 0
    else Occurrences(xs[..|xs| - 1], x) + (if xs[|xs| - 1] == x then 1 else 0)
  }

  lemma OccurrencesSnoc<T>(xs: seq<T>, y: T, x: T)
    ensures Occurrences(xs + [y], x) == Occurrences(xs, x) + (if y == x then 1 else 0)
  {
    assert (xs + [y])[..|xs|] == xs;
  }

  ghost predicate NoDuplicates<T>(xs: seq<T>)
  {
    forall i, j :: 0 <= i < j < |xs| ==> xs[i] != xs[j]
  }

  lemma {:induction false} OccursOnce<T>(keys: seq<T>, x: T)
    requires NoDuplicates(keys) && x in keys
    ensures Occurrences(keys, x) == 1
  {
    var n := |keys| - 1;
    var init := keys[..n];
    assert keys == init + [keys[n]];
    OccurrencesSnoc(init, keys[n], x);
    if keys[n] == x {
      forall i | 0 <= i < n ensures init[i] != x {
        assert init[i] == keys[i];
      }
    } else {
      assert x in init;
      OccursOnce(init, x);
    }
  }

  /** `m` is what a `counts[x] = (counts[x] || 0) + 1` loop over `xs` builds:
      one key per distinct entry, mapped to the number of its occurrences. */
  ghost predicate Tallies(m: map<string, nat>, xs: seq<string>)
  {
    && m.Keys == Elements(xs)
    && forall k :: k in m ==> m[k] == Occurrences(xs, k)
  }

  /** One more entry `x` tallied into `m`. */
  lemma TalliesSnoc(m: map<string, nat>, xs: seq<string>, x: string)
    requires Tallies(m, xs)
    ensures Tallies(m[x := (if x in m then m[x] else 0) + 1], xs + [x])
  {
    ElementsSnoc(xs, x);
    forall k ensures Occurrences(xs + [x], k) == Occurrences(xs, k) + (if x == k then 1 else 0) {
      OccurrencesSnoc(xs, x, k);
    }
  }

  /** The sum of the values that `m` gives to `keys`. */
  function SumAt(m: map<string, nat>, keys: seq<string>): nat
    requires forall k :: k in keys ==> k in m
  {
    if |keys| == 0 then 0
    else SumAt(m, keys[..|keys| - 1]) + m[keys[|keys| - 1]]
  }

  /** The sum of the occurrences in `xs` of every element of `keys`. */
  function SumOccurrences(xs: seq<string>, keys: seq<string>): nat
  {
    if |keys| == 0 then 0
    else SumOccurrences(xs, keys[..|keys| - 1]) + Occurrences(xs, keys[|keys| - 1])
  }

  lemma {:induction false} SumOccurrencesSnoc(xs: seq<string>, y: string, keys: seq<string>)
    ensures SumOccurrences(xs + [y], keys) == SumOccurrences(xs, keys) + Occurrences(keys, y)
  {
    if |keys| > 0 {
      var n := |keys| - 1;
      SumOccurrencesSnoc(xs, y, keys[..n]);
      OccurrencesSnoc(xs, y, keys[n]);
      assert keys == keys[..n] + [keys[n]];
      OccurrencesSnoc(keys[..n], keys[n], y);
    }
  }

  /** Counting every distinct entry once accounts for every entry. */
  lemma {:induction false} SumOccurrencesCovers(xs: seq<string>, keys: seq<string>)
    requires NoDuplicates(keys)
    requires Elements(xs) <= Elements(keys)
    ensures SumOccurrences(xs, keys) == |xs|
  {
    if |xs| == 0 {
      SumOccurrencesOfNothing(keys);
    } else {
      var n := |xs| - 1;
      assert xs == xs[..n] + [xs[n]];
      assert Elements(xs[..n]) <= Elements(xs);
      SumOccurrencesCovers(xs[..n], keys);
      SumOccurrencesSnoc(xs[..n], xs[n], keys);
      assert xs[n] in Elements(xs);
      OccursOnce(keys, xs[n]);
    }
  }

  lemma {:induction false} SumOccurrencesOfNothing(keys: seq<string>)
    ensures SumOccurrences([], keys) == 0
  {
    if |keys| > 0 {
      SumOccurrencesOfNothing(keys[..|keys| - 1]);
    }
  }

  /** A tally map's values, summed over its keys in any duplicate-free order,
      add up to the number of entries tallied. */
  lemma {:induction false} TalliesSum(m: map<string, nat>, xs: seq<string>, keys: seq<string>)
    requires Tallies(m, xs)
    requires NoDuplicates(keys) && Elements(keys) == m.Keys
    ensures forall k :: k in keys ==> k in m
    ensures SumAt(m, keys) == |xs|
  {
    assert forall k :: k in keys ==> k in Elements(keys);
    SumAtIsSumOccurrences(m, xs, keys);
    SumOccurrencesCovers(xs, keys);
  }

  lemma {:induction false} SumAtIsSumOccurrences(m: map<string, nat>, xs: seq<string>, keys: seq<string>)
    requires Tallies(m, xs)
    requires forall k :: k in keys ==> k in m
    ensures SumAt(m, keys) == SumOccurrences(xs, keys)
  {
    if |keys| > 0 {
      SumAtIsSumOccurrences(m, xs, keys[..|keys| - 1]);
    }
  }

  // ---------------------------------------------------------------------
  // String order: the default `sort()` compares strings code unit by code
  // unit, and a proper prefix comes first.

  predicate LexLess(a: string, b: string)
  {
    |b| > 0 && (|a| == 0 || a[0] < b[0] || (a[0] == b[0] && LexLess(a[1..], b[1..])))
  }

  lemma {:induction false} LexLessIrreflexive(a: string)
    ensures !LexLess(a, a)
  {
    if |a| > 0 {
      LexLessIrreflexive(a[1..]);
    }
  }

  lemma {:induction false} LexLessTransitive(a: string, b: string, c: string)
    requires LexLess(a, b) && LexLess(b, c)
    ensures LexLess(a, c)
  {
    if |a| > 0 && a[0] == b[0] && b[0] == c[0] {
      LexLessTransitive(a[1..], b[1..], c[1..]);
    }
  }

  lemma {:induction false} LexLessTotal(a: string, b: string)
    requires a != b
    ensures LexLess(a, b) || LexLess(b, a)
  {
    if |a| > 0 && |b| > 0 && a[0] == b[0] {
      assert a == [a[0]] + a[1..] && b == [b[0]] + b[1..];
      LexLessTotal(a[1..], b[1..]);
    }
  }

  /** Sorted ascending with no label twice. */
  ghost predicate StrictlySorted(xs: seq<string>)
  {
    forall i, j :: 0 <= i < j < |xs| ==> LexLess(xs[i], xs[j])
  }

  lemma StrictlySortedNoDuplicates(xs: seq<string>)
    requires StrictlySorted(xs)
    ensures NoDuplicates(xs)
  {
    forall i, j | 0 <= i < j < |xs| ensures xs[i] != xs[j] {
      LexLessIrreflexive(xs[i]);
    }
  }

  /** Every non-empty finite set of strings has a least element. */
  lemma {:induction false} LeastExists(s: set<string>)
    requires s != {}
    ensures exists m :: m in s && forall y :: y in s && y != m ==> LexLess(m, y)
  {
    var x :| x in s;
    if s != {x} {
      LeastExists(s - {x});
      var m :| m in s - {x} && forall y :: y in s - {x} && y != m ==> LexLess(m, y);
      if LexLess(x, m) {
        forall y | y in s && y != x ensures LexLess(x, y) {
          if y != m { LexLessTransitive(x, m, y); }
        }
      } else {
        LexLessTotal(x, m);
        assert forall y :: y in s && y != m ==> LexLess(m, y);
      }
    }
  }

  /** `Array.from(s).sort()`: the labels of `s`, ascending. */
  method SortLabels(s: set<string>) returns (r: seq<string>)
    ensures StrictlySorted(r)
    ensures Elements(r) == s
  {
    r := [];
    var rest := s;
    while rest != {}
      invariant Elements(r) + rest == s
      invariant Elements(r) !! rest
      invariant StrictlySorted(r)
      invariant forall i, y :: 0 <= i < |r| && y in rest ==> LexLess(r[i], y)
      decreases rest
    {
      LeastExists(rest);
      var m :| m in rest && forall y :: y in rest && y != m ==> LexLess(m, y);
      ElementsSnoc(r, m);
      r := r + [m];
      rest := rest - {m};
    }
  }

  // ---------------------------------------------------------------------
  // `text.split(' ')` and `lines.join(' ')`.

  /** `s.split(' ')`: the pieces of `s` between single spaces; the empty
      string gives one empty piece and adjacent spaces give empty pieces. */
  function Split(s: string): (r: seq<string>)
    ensures |r| >= 1
    ensures forall k :: 0 <= k < |r| ==> ' ' !in r[k]
  {
    if |s| == 0 then [""]
    else
      var rest := Split(s[1..]);
      if s[0] == ' ' then [""] + rest
      else [[s[0]] + rest[0]] + rest[1..]
  }

  /** `xs.join(' ')`. */
  function Join(xs: seq<string>): string
  {
    if |xs| == 0 then ""
    else if |xs| == 1 then xs[0]
    else xs[0] + " " + Join(xs[1..])
  }

  lemma {:induction false} JoinSnoc(xs: seq<string>, a: string)
    requires |xs| >= 1
    ensures Join(xs + [a]) == Join(xs) + " " + a
  {
    if |xs| > 1 {
      assert (xs + [a])[1..] == xs[1..] + [a];
      JoinSnoc(xs[1..], a);
    }
  }

  /** Joining the pieces of a split gives back the text. */
  lemma {:induction false} JoinSplit(s: string)
    ensures Join(Split(s)) == s
  {
    if |s| > 0 {
      var rest := Split(s[1..]);
      JoinSplit(s[1..]);
      if s[0] == ' ' {
        assert Split(s) == [""] + rest;
        assert ([""] + rest)[1..] == rest;
      } else {
        var r := [[s[0]] + rest[0]] + rest[1..];
        assert Split(s) == r;
        if |rest| == 1 {
          assert Join(r) == [s[0]] + rest[0];
        } else {
          assert r[1..] == rest[1..];
          assert Join(r) == [s[0]] + rest[0] + " " + Join(rest[1..]);
        }
        assert s == [s[0]] + s[1..];
      }
    }
  }

  lemma {:induction false} SplitWordPrefix(w: string, t: string)
    requires ' ' !in w
    ensures Split(w + t) == [w + Split(t)[0]] + Split(t)[1..]
  {
    if |w| > 0 {
      assert (w + t)[1..] == w[1..] + t;
      assert (w + t)[0] == w[0];
      SplitWordPrefix(w[1..], t);
      var S, R := Split(t), Split(w[1..] + t);
      assert R[0] == w[1..] + S[0] && R[1..] == S[1..];
      assert Split(w + t) == [[w[0]] + R[0]] + R[1..];
      assert [w[0]] + (w[1..] + S[0]) == w + S[0];
    } else {
      assert w + t == t;
      assert w + Split(t)[0] == Split(t)[0];
      assert Split(t) == [Split(t)[0]] + Split(t)[1..];
    }
  }

  /** Splitting the join of space-free words gives back the words. */
  lemma {:induction false} SplitJoin(ws: seq<string>)
    requires |ws| >= 1
    requires forall k :: 0 <= k < |ws| ==> ' ' !in ws[k]
    ensures Split(Join(ws)) == ws
  {
    if |ws| == 1 {
      SplitWordPrefix(ws[0], "");
      assert ws[0] + "" == ws[0];
      assert Split("") == [""];
    } else {
      var t := Join(ws[1..]);
      SplitJoin(ws[1..]);
      assert " " + t == [' '] + t;
      assert Split(" " + t) == [""] + ws[1..] by {
        assert (" " + t)[1..] == t;
      }
      assert Join(ws) == ws[0] + (" " + t);
      SplitWordPrefix(ws[0], " " + t);
      var S := Split(" " + t);
      assert S[0] == "" && S[1..] == ws[1..];
      assert ws[0] + S[0] == ws[0];
      assert ws == [ws[0]] + ws[1..];
    }
  }

  /** The words of consecutive groups, in order. */
  function Flatten(groups: seq<seq<string>>): seq<string>
  {
    if |groups| == 0 then []
    else Flatten(groups[..|groups| - 1]) + groups[|groups| - 1]
  }

  /** Flattening peels the first group off the front as well. */
  lemma {:induction false} FlattenCons(groups: seq<seq<string>>)
    requires |groups| > 0
    ensures Flatten(groups) == groups[0] + Flatten(groups[1..])
    decreases |groups|
  {
    if |groups| > 1 {
      var n := |groups|;
      FlattenCons(groups[..n - 1]);
      assert groups[..n - 1][0] == groups[0];
      assert groups[..n - 1][1..] == groups[1..][..n - 2];
      assert groups[1..][n - 2] == groups[n - 1];
    } else {
      assert groups[..0] == [];
      assert groups[1..] == [];
    }
  }
}
