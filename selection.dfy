/**
 * The main block: the answer to "Enter numbers (e.g. 1,3) or press Enter
 * for all" chooses which algorithms of the list are benchmarked, and the
 * chosen ones are benchmarked in list order.
 */
module Selection {
  import opened Wrappers
  import opened Text
  import opened Numerals
  import opened SpeedParser
  import opened Benchmark

  /** Every comma-separated entry of the answer, once stripped, is a
      number `int` reads. */
  predicate WellFormedChoice(choice: string) {
    var entries := Split(choice, ',');
    forall k :: 0 <= k < |entries| ==> IsIntToken(Strip(entries[k]))
  }

  /** `int(i.strip())` for each comma-separated entry `i` of the answer,
      in the order typed. */
  function Values(choice: string): (values: seq<int>)
    requires WellFormedChoice(choice)
    ensures |values| == |Split(choice, ',')|
  {
    var entries := Split(choice, ',');
    seq(|entries|, k requires 0 <= k < |entries| => ParseInt(Strip(entries[k])))
  }

  /** The zero-based positions the typed numbers name: `v - 1` for each
      value `v`, as a set. */
  function Named(values: seq<int>): (positions: set<int>)
    ensures forall i :: i in positions <==> i + 1 in values
  {
    set k | 0 <= k < |values| :: values[k] - 1
  }

  /** `{int(i.strip()) - 1 for i in choice.split(",")}`. */
  function Indices(choice: string): set<int>
    requires WellFormedChoice(choice)
  {
    Named(Values(choice))
  }

  /** `[x for i, x in enumerate(xs) if i in indices]`. */
  function Pick<T>(xs: seq<T>, indices: set<int>): (ys: seq<T>)
    ensures |ys| <= |xs|
    decreases |xs|
  {
    if xs == [] then []
    else
      var n := |xs| - 1;
      Pick(xs[..n], indices) + (if n in indices then [xs[n]] else [])
  }

  /** The positions below `n` that are in `indices`, in increasing order:
      the positions `Pick` keeps. */
  function Positions(n: nat, indices: set<int>): seq<nat>
    decreases n
  {
    if n == 0 then []
    else Positions(n - 1, indices) + (if n - 1 in indices then [n - 1] else [])
  }

  /** An answer the program accepts: blank, or numbers separated by commas. */
  predicate AcceptedAnswer(answer: string) {
    var choice := Strip(answer);
    choice == [] || WellFormedChoice(choice)
  }

  /** The algorithms the answer chooses: all of them for a blank answer,
      otherwise those at the positions it names. */
  function Select(algos: seq<Algorithm>, answer: string): (chosen: seq<Algorithm>)
    requires AcceptedAnswer(answer)
    ensures |chosen| <= |algos|
  {
    var choice := Strip(answer);
    if choice == [] then algos else Pick(algos, Indices(choice))
  }

  /** The main block after the list is loaded: read the choice, narrow the
      list, benchmark every chosen algorithm. */
  method Session(algos: seq<Algorithm>, answer: string, tool: Tool, ops: FloatOps) returns (allResults: seq<Record>)
    requires AcceptedAnswer(answer)
    ensures allResults == Suite(Select(algos, answer), tool, ops)
    ensures |allResults| == |Select(algos, answer)| * REPEATS
  {
    var chosen := algos;
    var choice := Strip(answer);
    if choice != [] {
      var indices := Indices(choice);
      chosen := Pick(algos, indices);
    }
    allResults := RunAll(chosen, tool, ops);
  }

  // -----------------------------------------------------------------------
  // Properties of the filter

  /** The kept positions are below `n`, strictly increasing (list order,
      each at most once) and exactly those in `indices`. */
  lemma {:induction false} PositionsSpec(n: nat, indices: set<int>)
    ensures var ps := Positions(n, indices);
      && (forall j :: 0 <= j < |ps| ==> ps[j] < n)
      && (forall j, j' :: 0 <= j < j' < |ps| ==> ps[j] < ps[j'])
      && (forall i :: 0 <= i < n ==> (i in indices <==> i in ps))
    decreases n
  {
    if n > 0 {
      PositionsSpec(n - 1, indices);
    }
  }

  /** The filter keeps the elements at `Positions`, in that order. */
  lemma {:induction false} PickPositions<T>(xs: seq<T>, indices: set<int>)
    ensures var ps := Positions(|xs|, indices);
      && |Pick(xs, indices)| == |ps|
      && forall j :: 0 <= j < |ps| ==> ps[j] < |xs| && Pick(xs, indices)[j] == xs[ps[j]]
    decreases |xs|
  {
    PositionsSpec(|xs|, indices);
    if xs != [] {
      var n := |xs| - 1;
      PickPositions(xs[..n], indices);
    }
  }

  /** Only the positions of the list matter: out-of-range and negative
      indices select nothing. */
  lemma {:induction false} PickInRange<T>(xs: seq<T>, indices: set<int>, others: set<int>)
    requires forall i :: 0 <= i < |xs| ==> (i in indices <==> i in others)
    ensures Pick(xs, indices) == Pick(xs, others)
    decreases |xs|
  {
    if xs != [] {
      PickInRange(xs[..|xs| - 1], indices, others);
    }
  }

  /** Naming every position keeps the whole list. */
  lemma {:induction false} PickAll<T>(xs: seq<T>, indices: set<int>)
    requires forall i :: 0 <= i < |xs| ==> i in indices
    ensures Pick(xs, indices) == xs
    decreases |xs|
  {
    if xs != [] {
      PickAll(xs[..|xs| - 1], indices);
    }
  }

  /** Naming no position of the list keeps nothing. */
  lemma {:induction false} PickNone<T>(xs: seq<T>, indices: set<int>)
    requires forall i :: 0 <= i < |xs| ==> i !in indices
    ensures Pick(xs, indices) == []
    decreases |xs|
  {
    if xs != [] {
      PickNone(xs[..|xs| - 1], indices);
    }
  }

  // -----------------------------------------------------------------------
  // Properties of the answer

  /** The empty answer is not a list of numbers. */
  lemma EmptyChoiceRejected()
    ensures !WellFormedChoice([])
  {
    SplitWhole([], ',');
    assert Strip([]) == [];
    assert !IsIntToken(Strip(Split([], ',')[0]));
  }

  /** Answers whose entries strip to the same texts read as the same
      numbers. */
  lemma SameEntries(a: string, b: string)
    requires |Split(a, ',')| == |Split(b, ',')|
    requires forall k :: 0 <= k < |Split(a, ',')| ==> Strip(Split(a, ',')[k]) == Strip(Split(b, ',')[k])
    ensures WellFormedChoice(a) <==> WellFormedChoice(b)
    ensures WellFormedChoice(a) ==> Values(a) == Values(b)
  {
    var ps := Split(a, ',');
    var rs := Split(b, ',');
    if WellFormedChoice(a) {
      forall k | 0 <= k < |rs|
        ensures IsIntToken(Strip(rs[k]))
      {
        assert Strip(ps[k]) == Strip(rs[k]);
      }
      assert WellFormedChoice(b);
      forall k | 0 <= k < |ps|
        ensures Values(a)[k] == Values(b)[k]
      {
        assert Strip(ps[k]) == Strip(rs[k]);
      }
    } else {
      var k :| 0 <= k < |ps| && !IsIntToken(Strip(ps[k]));
      assert Strip(ps[k]) == Strip(rs[k]);
    }
  }

  /** Stripping the whole answer first changes neither which answers are
      read as numbers nor the numbers read, since every entry is stripped
      again; and an answer of numbers is never blank. */
  lemma StripAnswer(answer: string)
    ensures WellFormedChoice(Strip(answer)) <==> WellFormedChoice(answer)
    ensures WellFormedChoice(answer) ==> Strip(answer) != [] && Values(Strip(answer)) == Values(answer)
  {
    SplitStrip(answer, ',');
    SameEntries(Strip(answer), answer);
    EmptyChoiceRejected();
  }

  /** An answer of numbers chooses the algorithms at positions `v - 1` for
      the numbers `v` it lists. */
  lemma SelectByValues(algos: seq<Algorithm>, answer: string)
    requires WellFormedChoice(answer)
    ensures AcceptedAnswer(answer)
    ensures Select(algos, answer) == Pick(algos, Named(Values(answer)))
  {
    StripAnswer(answer);
  }

  /** A blank answer benchmarks every algorithm. */
  lemma BlankKeepsAll(algos: seq<Algorithm>, answer: string)
    requires IsBlank(answer)
    ensures AcceptedAnswer(answer) && Select(algos, answer) == algos
  {
    assert answer + [] + [] == answer;
    StripPadded(answer, [], []);
  }

  /** Listing every number from 1 to the length of the list, in any order
      and with any repeats, benchmarks every algorithm. */
  lemma CoveringAllKeepsAll(algos: seq<Algorithm>, answer: string)
    requires WellFormedChoice(answer)
    requires forall i :: 1 <= i <= |algos| ==> i in Values(answer)
    ensures AcceptedAnswer(answer) && Select(algos, answer) == algos
  {
    SelectByValues(algos, answer);
    PickAll(algos, Named(Values(answer)));
  }

  /** The chosen algorithms depend only on which numbers the answer lists:
      another order, repeats or other spacing choose the same algorithms. */
  lemma SameNumbersSameChoice(algos: seq<Algorithm>, answer: string, other: string)
    requires WellFormedChoice(answer) && WellFormedChoice(other)
    requires forall v :: v in Values(answer) <==> v in Values(other)
    ensures AcceptedAnswer(answer) && AcceptedAnswer(other)
    ensures Select(algos, answer) == Select(algos, other)
  {
    SelectByValues(algos, answer);
    SelectByValues(algos, other);
    assert Named(Values(answer)) == Named(Values(other));
  }

  /** Numbers outside `1..len(algos)` choose nothing: `0` and negative
      numbers name negative positions, which `enumerate` never yields, and
      larger numbers name positions past the end. */
  lemma OutOfRangeNumbersChooseNothing(algos: seq<Algorithm>, answer: string)
    requires WellFormedChoice(answer)
    requires forall k :: 0 <= k < |Values(answer)| ==> Values(answer)[k] < 1 || Values(answer)[k] > |algos|
    ensures AcceptedAnswer(answer) && Select(algos, answer) == []
  {
    SelectByValues(algos, answer);
    PickNone(algos, Named(Values(answer)));
  }

  // -----------------------------------------------------------------------
  // Answers as typed

  /** An entry as typed: the number `v` with blank text around it. */
  function Entry(pre: string, v: int, post: string): string {
    pre + IntToString(v) + post
  }

  /** The answer `e1,e2,...` for the entries `pres[k] + str(vs[k]) + posts[k]`. */
  function Typed(pres: seq<string>, vs: seq<int>, posts: seq<string>): string
    requires |pres| == |vs| == |posts|
  {
    Join(seq(|vs|, k requires 0 <= k < |vs| => Entry(pres[k], vs[k], posts[k])), ',')
  }

  /** `str(v)` has no comma and no white space at either end. */
  lemma NumeralShape(v: int)
    ensures IntToString(v) != []
    ensures !IsSpace(IntToString(v)[0]) && !IsSpace(IntToString(v)[|IntToString(v)| - 1])
    ensures ',' !in IntToString(v)
  {
    var t := IntToString(v);
    var ds := NatToDigits(if v < 0 then -v else v);
    assert forall k :: 0 <= k < |ds| ==> IsDigit(ds[k]);
    assert forall k :: 0 <= k < |t| ==> t[k] == '-' || IsDigit(t[k]);
  }

  /** A typed entry has no comma and reads back, once stripped, as its number. */
  lemma EntryReadsBack(pre: string, v: int, post: string)
    requires IsBlank(pre) && IsBlank(post)
    ensures ',' !in Entry(pre, v, post)
    ensures IsIntToken(Strip(Entry(pre, v, post))) && ParseInt(Strip(Entry(pre, v, post))) == v
  {
    var t := IntToString(v);
    var e := Entry(pre, v, post);
    NumeralShape(v);
    forall k | 0 <= k < |e|
      ensures e[k] != ','
    {
      if k < |pre| {
        assert e[k] == pre[k];
      } else if k < |pre| + |t| {
        assert e[k] == t[k - |pre|];
      } else {
        assert e[k] == post[k - |pre| - |t|];
      }
    }
    StripPadded(pre, t, post);
    IntRoundTrip(v);
  }

  /** An answer whose entries read, once stripped, as `vs` is a list of
      numbers, and its numbers are `vs`. */
  lemma ValuesOfEntries(choice: string, vs: seq<int>)
    requires |Split(choice, ',')| == |vs|
    requires forall k :: 0 <= k < |vs| ==>
      IsIntToken(Strip(Split(choice, ',')[k])) && ParseInt(Strip(Split(choice, ',')[k])) == vs[k]
    ensures WellFormedChoice(choice)
    ensures Values(choice) == vs
  {
  }

  /** A typed answer such as `"1, 3"` or `" -1 ,2"` is a list of numbers,
      and its numbers are the ones typed, in order. */
  lemma TypedReadsBack(pres: seq<string>, vs: seq<int>, posts: seq<string>)
    requires |pres| == |vs| == |posts| && |vs| >= 1
    requires forall k :: 0 <= k < |vs| ==> IsBlank(pres[k]) && IsBlank(posts[k])
    ensures WellFormedChoice(Typed(pres, vs, posts))
    ensures Values(Typed(pres, vs, posts)) == vs
  {
    var entries := seq(|vs|, k requires 0 <= k < |vs| => Entry(pres[k], vs[k], posts[k]));
    forall k | 0 <= k < |vs|
      ensures ',' !in entries[k]
      ensures IsIntToken(Strip(entries[k])) && ParseInt(Strip(entries[k])) == vs[k]
    {
      EntryReadsBack(pres[k], vs[k], posts[k]);
    }
    SplitJoin(entries, ',');
    ValuesOfEntries(Typed(pres, vs, posts), vs);
  }

  /** A typed answer chooses the algorithms at positions `v - 1` for the
      numbers `v` typed, whatever their sign and spacing. */
  lemma SelectTyped(algos: seq<Algorithm>, pres: seq<string>, vs: seq<int>, posts: seq<string>)
    requires |pres| == |vs| == |posts| && |vs| >= 1
    requires forall k :: 0 <= k < |vs| ==> IsBlank(pres[k]) && IsBlank(posts[k])
    ensures AcceptedAnswer(Typed(pres, vs, posts))
    ensures Select(algos, Typed(pres, vs, posts)) == Pick(algos, Named(vs))
  {
    TypedReadsBack(pres, vs, posts);
    SelectByValues(algos, Typed(pres, vs, posts));
  }
}
