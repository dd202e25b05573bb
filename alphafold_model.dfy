/** An AlphaFold model: the parsed structure and its predicted-aligned-error
    matrix held side by side, with the confidence and pairwise-error queries
    built on them. */
module Alphafold {
  import opened Wrappers
  import opened Stats
  import opened ModelPdb
  import opened ModelPae

  const DefaultThreshold: real := 70.0
  const DefaultWindow: int := 5

  datatype QueryError =
    | OutOfRange(residue: int, length: nat)  // the range check of both pLDDT queries
    | BadWindow(window: int)                 // a window that is even or not positive
    | EmptyResidueList                       // `residues[0]` on an empty list (IndexError)
    | EmptyMean                              // the mean of no pair errors (numpy gives NaN)

  /** What the window query returns: the comparison, or the average itself. */
  datatype WindowOutcome = Verdict(meetsThreshold: bool) | Average(value: real)

  /** One entry of `get_PAEs`: the pair (whose label is a function of the two
      positions) and its symmetrised error. */
  datatype PairPae = PairPae(first: int, second: int, pae: real)

  // ---------------------------------------------------------------------
  // The pLDDT window

  /** The 1-based window [left, right) around a residue: `window / 2`
      positions on each side, clipped to [1, length]. */
  function WindowBounds(residue: int, window: int, length: int): (bounds: (int, int))
    requires 1 <= residue <= length
    requires window > 0 && window % 2 == 1
    ensures 1 <= bounds.0 <= residue < bounds.1 <= length + 1
    ensures bounds.1 - bounds.0 <= window
    ensures residue - bounds.0 <= window / 2 && bounds.1 - 1 - residue <= window / 2
    ensures bounds.0 > 1 ==> residue - bounds.0 == window / 2
    ensures bounds.1 <= length ==> bounds.1 - 1 - residue == window / 2
  {
    var half := window / 2;
    var left := if residue - half > 1 then residue - half else 1;
    var right := if residue + half <= length then residue + half + 1 else length + 1;
    (left, right)
  }

  // ---------------------------------------------------------------------
  // Residue pairs

  /** Index pairs (i, j) with lo <= i < j < n, row by row. */
  function IndexPairsFrom(lo: nat, n: nat): (ps: seq<(nat, nat)>)
    ensures forall k :: 0 <= k < |ps| ==> lo <= ps[k].0 < ps[k].1 < n
    decreases n - lo
  {
    if lo >= n then []
    else RowIndices(lo, n) + IndexPairsFrom(lo + 1, n)
  }

  /** Row lo of the index pairs: lo with every later index. */
  function RowIndices(lo: nat, n: nat): seq<(nat, nat)>
    requires lo < n
  {
    seq(n - lo - 1, k requires 0 <= k < n - lo - 1 => (lo, lo + 1 + k))
  }

  function IndexPairs(n: nat): seq<(nat, nat)>
  {
    IndexPairsFrom(0, n)
  }

  predicate LexLess(p: (nat, nat), q: (nat, nat))
  {
    p.0 < q.0 || (p.0 == q.0 && p.1 < q.1)
  }

  lemma {:induction false} IndexPairsCount(lo: nat, n: nat)
    requires lo <= n
    ensures 2 * |IndexPairsFrom(lo, n)| == (n - lo) * (n - lo - 1)
    decreases n - lo
  {
    if lo < n {
      IndexPairsCount(lo + 1, n);
      var m := n - lo;
      assert 2 * |IndexPairsFrom(lo, n)| == 2 * (m - 1) + (m - 1) * (m - 2);
      assert 2 * (m - 1) + (m - 1) * (m - 2) == m * (m - 1);
    }
  }

  /** The pair (i, j) occurs in `ps`. */
  predicate Lists(ps: seq<(nat, nat)>, i: nat, j: nat)
  {
    exists k :: 0 <= k < |ps| && ps[k] == (i, j)
  }

  lemma {:induction false} IndexPairsComplete(lo: nat, n: nat, i: nat, j: nat)
    requires lo <= i < j < n
    ensures Lists(IndexPairsFrom(lo, n), i, j)
    decreases n - lo
  {
    var row := RowIndices(lo, n);
    var rest := IndexPairsFrom(lo + 1, n);
    assert IndexPairsFrom(lo, n) == row + rest;
    if i == lo {
      assert (row + rest)[j - lo - 1] == (i, j);
    } else {
      IndexPairsComplete(lo + 1, n, i, j);
      var k :| 0 <= k < |rest| && rest[k] == (i, j);
      assert (row + rest)[|row| + k] == (i, j);
    }
  }

  lemma {:induction false} IndexPairsSorted(lo: nat, n: nat)
    ensures forall a, b :: 0 <= a < b < |IndexPairsFrom(lo, n)| ==>
              LexLess(IndexPairsFrom(lo, n)[a], IndexPairsFrom(lo, n)[b])
    decreases n - lo
  {
    if lo < n {
      var row := RowIndices(lo, n);
      var rest := IndexPairsFrom(lo + 1, n);
      var ps := row + rest;
      assert IndexPairsFrom(lo, n) == ps;
      IndexPairsSorted(lo + 1, n);
      forall a, b | 0 <= a < b < |ps| ensures LexLess(ps[a], ps[b]) {
        if b < |row| {
          assert ps[a] == row[a] && ps[b] == row[b];
        } else if a < |row| {
          assert ps[a] == row[a] && ps[b] == rest[b - |row|];
          assert ps[a].0 == lo < lo + 1 <= rest[b - |row|].0;
        } else {
          assert ps[a] == rest[a - |row|] && ps[b] == rest[b - |row|];
          assert LexLess(rest[a - |row|], rest[b - |row|]);
        }
      }
    }
  }

  /** `itertools.combinations(residues, 2)`: the elements at index pairs
      i < j, in lexicographic order of (i, j). */
  function Combinations(residues: seq<int>): (pairs: seq<(int, int)>)
    ensures |pairs| == |IndexPairs(|residues|)|
  {
    PairsAt(residues, IndexPairs(|residues|))
  }

  /** The elements at the given index pairs. */
  function PairsAt(residues: seq<int>, ps: seq<(nat, nat)>): (pairs: seq<(int, int)>)
    requires forall k :: 0 <= k < |ps| ==> ps[k].0 < |residues| && ps[k].1 < |residues|
    ensures |pairs| == |ps|
  {
    seq(|ps|, k requires 0 <= k < |ps| => (residues[ps[k].0], residues[ps[k].1]))
  }

  /** The pairs of `combinations` are every (residues[i], residues[j]) with
      i < j, each once, in lexicographic order of (i, j): n (n - 1) / 2 of them. */
  lemma CombinationsEnumerate(residues: seq<int>)
    ensures |Combinations(residues)| == |residues| * (|residues| - 1) / 2
    ensures var ps, cs := IndexPairs(|residues|), Combinations(residues);
            forall k :: 0 <= k < |cs| ==> ps[k].0 < ps[k].1 < |residues| && cs[k] == (residues[ps[k].0], residues[ps[k].1])
    ensures forall i: nat, j: nat :: i < j < |residues| ==> Lists(IndexPairs(|residues|), i, j)
    ensures forall a, b :: 0 <= a < b < |IndexPairs(|residues|)| ==>
              LexLess(IndexPairs(|residues|)[a], IndexPairs(|residues|)[b])
  {
    var n := |residues|;
    IndexPairsCount(0, n);
    IndexPairsSorted(0, n);
    forall i: nat, j: nat | i < j < n ensures Lists(IndexPairs(n), i, j) {
      IndexPairsComplete(0, n, i, j);
      assert IndexPairs(n) == IndexPairsFrom(0, n);
    }
  }

  /** The query-only pairs: the first residue against each of the others. */
  function QueryPairs(residues: seq<int>): (pairs: seq<(int, int)>)
    requires |residues| > 0
    ensures |pairs| == |residues| - 1
    ensures forall k :: 0 <= k < |pairs| ==> pairs[k] == (residues[0], residues[k + 1])
  {
    seq(|residues| - 1, k requires 0 <= k < |residues| - 1 => (residues[0], residues[k + 1]))
  }

  /** The pairs `get_PAEs` evaluates under each mode. */
  function ResiduePairs(residues: seq<int>, withQueryOnly: bool): (pairs: seq<(int, int)>)
    requires withQueryOnly ==> |residues| > 0
    ensures forall k :: 0 <= k < |pairs| ==> pairs[k].0 in residues && pairs[k].1 in residues
  {
    if withQueryOnly then QueryPairs(residues)
    else
      CombinationsEnumerate(residues);
      Combinations(residues)
  }

  /** Every pair lies inside the matrix. */
  predicate Covered(pae: Pae, pairs: seq<(int, int)>)
  {
    forall k :: 0 <= k < |pairs| ==> pae.Covers(pairs[k].0) && pae.Covers(pairs[k].1)
  }

  /** The symmetrised error of each pair, in order: the values `get_PAEs`
      reports. */
  function PairErrors(pae: Pae, pairs: seq<(int, int)>): (errors: seq<real>)
    requires pae.Square() && Covered(pae, pairs)
    ensures |errors| == |pairs|
  {
    seq(|pairs|, k requires 0 <= k < |pairs| => pae.PairwisePae(pairs[k].0, pairs[k].1))
  }

  /** `get_avg_PAE` over the given pairs: the mean of their errors, failing
      when there are none. */
  function AveragePae(pae: Pae, pairs: seq<(int, int)>): Result<real, QueryError>
    requires pae.Square() && Covered(pae, pairs)
  {
    if pairs == [] then Err(EmptyMean) else Ok(Mean(PairErrors(pae, pairs)))
  }

  // ---------------------------------------------------------------------
  // The model

  class AlphafoldModel {
    const pdb: Pdb
    const pae: Pae

    predicate Valid()
    {
      pdb.Valid()
    }

    constructor (pdb: Pdb, pae: Pae)
      requires pdb.Valid()
      ensures Valid() && this.pdb == pdb && this.pae == pae
    {
      this.pdb := pdb;
      this.pae := pae;
    }

    /** `AlphafoldModel.__init__`: parse the structure, then take the matrix
        as loaded from its file. */
    static method Load(pdbLines: seq<Line>, conv: Conversions, matrix: seq<seq<real>>)
      returns (r: Result<AlphafoldModel, ParseError>)
      ensures r.Err? <==> Parse(pdbLines, conv).Err?
      ensures r.Err? ==> r.error == Parse(pdbLines, conv).error
      ensures r.Ok? ==> fresh(r.value) && r.value.Valid() &&
                        r.value.pdb == Parse(pdbLines, conv).value && r.value.pae == Pae(matrix)
    {
      var parsed := ParseModel(pdbLines, conv);
      if parsed.Err? {
        return Err(parsed.error);
      }
      var model := new AlphafoldModel(parsed.value, Pae(matrix));
      r := Ok(model);
    }

    /** `evaluate_plddt`: the residue's score and whether it reaches the
        threshold; positions outside [1, length] fail. */
    function EvaluatePlddt(residue: int, threshold: real := DefaultThreshold): (r: Result<(real, bool), QueryError>)
      requires Valid()
      ensures r.Err? <==> residue <= 0 || residue > pdb.length
      ensures r.Err? ==> r.error == OutOfRange(residue, pdb.length)
      ensures r.Ok? ==> r.value.0 == pdb.plddt[residue - 1] && (r.value.1 <==> r.value.0 >= threshold)
    {
      if residue > pdb.length || residue <= 0 then Err(OutOfRange(residue, pdb.length))
      else
        var score := pdb.Plddt(residue);
        Ok((score, score >= threshold))
    }

    /** The scores of the residues in the window around `residue`, in order. */
    function WindowScores(residue: int, window: int): (scores: seq<real>)
      requires Valid() && 1 <= residue <= pdb.length && window > 0 && window % 2 == 1
      ensures var bounds := WindowBounds(residue, window, pdb.length);
              |scores| == bounds.1 - bounds.0 &&
              forall k :: 0 <= k < |scores| ==> scores[k] == pdb.Plddt(bounds.0 + k)
    {
      var bounds := WindowBounds(residue, window, pdb.length);
      pdb.plddt[bounds.0 - 1 .. bounds.1 - 1]
    }

    /** `evaluate_plddt_window`: the mean score over the clipped window, or
        whether that mean reaches the threshold; the window is checked first,
        then the position. */
    function EvaluatePlddtWindow(residue: int, window: int := DefaultWindow, threshold: real := DefaultThreshold,
                                 returnVal: bool := false): (r: Result<WindowOutcome, QueryError>)
      requires Valid()
      ensures window % 2 == 0 || window <= 0 ==> r == Err(BadWindow(window))
      ensures window % 2 == 1 && window > 0 && (residue <= 0 || residue > pdb.length) ==>
                r == Err(OutOfRange(residue, pdb.length))
      ensures r.Ok? <==> window > 0 && window % 2 == 1 && 1 <= residue <= pdb.length
      ensures r.Ok? ==> var mean := Mean(WindowScores(residue, window));
                        r.value == if returnVal then Average(mean) else Verdict(mean >= threshold)
    {
      if window % 2 == 0 || window <= 0 then Err(BadWindow(window))
      else if residue > pdb.length || residue <= 0 then Err(OutOfRange(residue, pdb.length))
      else
        var average := Mean(WindowScores(residue, window));
        if returnVal then Ok(Average(average)) else Ok(Verdict(average >= threshold))
    }

    /** `get_PAEs`: one entry per residue pair of the chosen mode, carrying the
        pair's symmetrised error. In query-only mode the first residue is
        removed from the caller's list, which `neighbours` returns. */
    method GetPaes(residues: seq<int>, withQueryOnly: bool := false)
      returns (r: Result<seq<PairPae>, QueryError>, neighbours: seq<int>)
      requires pae.Square()
      requires !(withQueryOnly && residues == []) ==> Covered(pae, ResiduePairs(residues, withQueryOnly))
      ensures withQueryOnly && residues == [] ==> r == Err(EmptyResidueList) && neighbours == residues
      ensures withQueryOnly && residues != [] ==> neighbours == residues[1..]
      ensures !withQueryOnly ==> neighbours == residues
      ensures !(withQueryOnly && residues == []) ==>
                var pairs := ResiduePairs(residues, withQueryOnly);
                r.Ok? && |r.value| == |pairs| &&
                forall k :: 0 <= k < |pairs| ==>
                  r.value[k] == PairPae(pairs[k].0, pairs[k].1, pae.PairwisePae(pairs[k].0, pairs[k].1))
    {
      var pairs: seq<(int, int)> := [];
      if !withQueryOnly {
        pairs := Combinations(residues);
        neighbours := residues;
      } else {
        if |residues| == 0 {
          return Err(EmptyResidueList), residues;
        }
        var query := residues[0];
        neighbours := residues[1..];
        var i := 0;
        while i < |neighbours|
          invariant 0 <= i <= |neighbours|
          invariant |pairs| == i
          invariant forall k :: 0 <= k < i ==> pairs[k] == (query, neighbours[k])
        {
          pairs := pairs + [(query, neighbours[i])];
          i := i + 1;
        }
      }
      assert pairs == ResiduePairs(residues, withQueryOnly);
      var entries: seq<PairPae> := [];
      var i := 0;
      while i < |pairs|
        invariant 0 <= i <= |pairs|
        invariant |entries| == i
        invariant forall k :: 0 <= k < i ==>
                    entries[k] == PairPae(pairs[k].0, pairs[k].1, pae.PairwisePae(pairs[k].0, pairs[k].1))
      {
        entries := entries + [PairPae(pairs[i].0, pairs[i].1, pae.PairwisePae(pairs[i].0, pairs[i].1))];
        i := i + 1;
      }
      r := Ok(entries);
    }

    /** `get_avg_PAE`: the mean of the pair errors `get_PAEs` reports. */
    method AvgPae(residues: seq<int>, withQueryOnly: bool := false)
      returns (r: Result<real, QueryError>, neighbours: seq<int>)
      requires pae.Square()
      requires !(withQueryOnly && residues == []) ==> Covered(pae, ResiduePairs(residues, withQueryOnly))
      ensures withQueryOnly && residues == [] ==> r == Err(EmptyResidueList) && neighbours == residues
      ensures withQueryOnly && residues != [] ==> neighbours == residues[1..]
      ensures !withQueryOnly ==> neighbours == residues
      ensures !(withQueryOnly && residues == []) ==>
                var pairs := ResiduePairs(residues, withQueryOnly);
                r == AveragePae(pae, pairs)
    {
      var entries;
      entries, neighbours := GetPaes(residues, withQueryOnly);
      if entries.Err? {
        return Err(entries.error), neighbours;
      }
      var values := seq(|entries.value|, k requires 0 <= k < |entries.value| => entries.value[k].pae);
      assert values == PairErrors(pae, ResiduePairs(residues, withQueryOnly));
      if |values| == 0 {
        r := Err(EmptyMean);
      } else {
        r := Ok(Mean(values));
      }
    }
  }

  // ---------------------------------------------------------------------
  // Properties of the queries

  /** A window of one is the residue's own score, and its verdict is the
      single-residue verdict. */
  lemma WindowOfOne(m: AlphafoldModel, residue: int, threshold: real)
    requires m.Valid() && 1 <= residue <= m.pdb.length
    ensures m.EvaluatePlddtWindow(residue, 1, threshold, true) == Ok(Average(m.pdb.Plddt(residue)))
    ensures m.EvaluatePlddtWindow(residue, 1, threshold, false) ==
              Ok(Verdict(m.EvaluatePlddt(residue, threshold).value.1))
  {
    var scores := m.WindowScores(residue, 1);
    assert scores == [m.pdb.Plddt(residue)];
    MeanSingleton(m.pdb.Plddt(residue));
  }

  /** Scores bounded over the whole structure keep the window average
      within the same bounds. */
  lemma WindowAverageBounded(m: AlphafoldModel, residue: int, window: int, threshold: real, lo: real, hi: real)
    requires m.Valid()
    requires forall i :: 0 <= i < |m.pdb.plddt| ==> lo <= m.pdb.plddt[i] <= hi
    ensures var r := m.EvaluatePlddtWindow(residue, window, threshold, true);
            r.Ok? ==> lo <= r.value.value <= hi
  {
    if window > 0 && window % 2 == 1 && 1 <= residue <= m.pdb.length {
      var scores := m.WindowScores(residue, window);
      var bounds := WindowBounds(residue, window, m.pdb.length);
      forall k | 0 <= k < |scores| ensures lo <= scores[k] <= hi {
        assert scores[k] == m.pdb.plddt[bounds.0 + k - 1];
      }
      MeanBounds(scores, lo, hi);
    }
  }

  /** When every residue reaches the threshold, so does every window. */
  lemma WindowVerdictOfConfidentModel(m: AlphafoldModel, residue: int, window: int, threshold: real)
    requires m.Valid()
    requires forall i :: 0 <= i < |m.pdb.plddt| ==> m.pdb.plddt[i] >= threshold
    ensures var r := m.EvaluatePlddtWindow(residue, window, threshold, false);
            r.Ok? ==> r.value == Verdict(true)
  {
    if window > 0 && window % 2 == 1 && 1 <= residue <= m.pdb.length {
      var scores := m.WindowScores(residue, window);
      forall k | 0 <= k < |scores| ensures threshold <= scores[k] {
        var bounds := WindowBounds(residue, window, m.pdb.length);
        assert scores[k] == m.pdb.plddt[bounds.0 + k - 1];
      }
      MeanAtLeast(scores, threshold);
    }
  }

  /** In query-only mode on [a, b, c] the pairs are (a, b) and (a, c). */
  lemma QueryPairsOfThree(a: int, b: int, c: int)
    ensures ResiduePairs([a, b, c], true) == [(a, b), (a, c)]
  {
  }

  /** All pairs of [a, b, c]: (a, b), (a, c), (b, c). */
  lemma CombinationsOfThree(a: int, b: int, c: int)
    ensures Combinations([a, b, c]) == [(a, b), (a, c), (b, c)]
  {
    assert RowIndices(2, 3) == [] && RowIndices(1, 3) == [(1, 2)] && RowIndices(0, 3) == [(0, 1), (0, 2)];
    assert IndexPairsFrom(2, 3) == [];
    assert IndexPairsFrom(1, 3) == [(1, 2)];
    assert IndexPairsFrom(0, 3) == [(0, 1), (0, 2), (1, 2)];
    var pairs := PairsAt([a, b, c], [(0, 1), (0, 2), (1, 2)]);
    assert Combinations([a, b, c]) == pairs;
    assert pairs[0] == (a, b) && pairs[1] == (a, c) && pairs[2] == (b, c);
  }

  /** Every pair error lies within the bounds of the matrix entries, and so
      does their mean. */
  lemma AveragePaeBounded(m: AlphafoldModel, pairs: seq<(int, int)>, lo: real, hi: real)
    requires m.pae.Square() && Covered(m.pae, pairs) && |pairs| > 0
    requires forall i, j :: 0 <= i < |m.pae.matrix| && 0 <= j < |m.pae.matrix| ==> lo <= m.pae.matrix[i][j] <= hi
    ensures lo <= Mean(PairErrors(m.pae, pairs)) <= hi
  {
    var errors := PairErrors(m.pae, pairs);
    forall k | 0 <= k < |errors| ensures lo <= errors[k] <= hi {
      PairwiseBounded(m.pae, pairs[k].0, pairs[k].1, lo, hi);
    }
    MeanBounds(errors, lo, hi);
  }

  /** A five-residue model with scores 90, 40, 85, 30, 95: residue 1
      passes alone, residue 2 fails, residue 6 is out of range, and the
      default windows at both ends are clipped. */
  lemma FiveResidueScores(m: AlphafoldModel)
    requires m.Valid() && m.pdb.plddt == [90.0, 40.0, 85.0, 30.0, 95.0]
    ensures WindowBounds(1, 5, 5) == (1, 4) && WindowBounds(5, 5, 5) == (3, 6)
    ensures m.EvaluatePlddt(1) == Ok((90.0, true)) && m.EvaluatePlddt(2) == Ok((40.0, false))
    ensures m.EvaluatePlddt(6) == Err(OutOfRange(6, 5))
  {
  }

  /** In the same model the default window of residue 1, clipped to
      residues 1..3, averages 215/3 and passes. */
  lemma FiveResidueScenario(m: AlphafoldModel)
    requires m.Valid() && m.pdb.plddt == [90.0, 40.0, 85.0, 30.0, 95.0]
    ensures m.EvaluatePlddtWindow(1, returnVal := true) == Ok(Average(215.0 / 3.0))
    ensures m.EvaluatePlddtWindow(1) == Ok(Verdict(true))
  {
    assert WindowBounds(1, 5, 5) == (1, 4);
    var scores := m.WindowScores(1, 5);
    assert scores == [90.0, 40.0, 85.0];
    assert Sum([90.0, 40.0, 85.0]) == 215.0;
    assert Mean(scores) == 215.0 / 3.0;
    assert 215.0 / 3.0 >= DefaultThreshold;
  }

  /** The three-residue window around residue 3 of the same model, and an
      even window size it rejects. */
  lemma FiveResidueMiddleWindow(m: AlphafoldModel)
    requires m.Valid() && m.pdb.plddt == [90.0, 40.0, 85.0, 30.0, 95.0]
    ensures m.EvaluatePlddtWindow(3, 3, 70.0, true) == Ok(Average(155.0 / 3.0))
    ensures m.EvaluatePlddtWindow(3, 3) == Ok(Verdict(false))
    ensures m.EvaluatePlddtWindow(3, 4) == Err(BadWindow(4))
  {
    assert WindowBounds(3, 3, 5) == (2, 5);
    var scores := m.WindowScores(3, 3);
    assert scores == [40.0, 85.0, 30.0];
    assert Sum([40.0, 85.0, 30.0]) == 155.0;
    assert Mean(scores) == 155.0 / 3.0;
    assert 155.0 / 3.0 < DefaultThreshold;
  }

  // ---------------------------------------------------------------------
  // The all-pairs average does not depend on the order of the residues

  predicate AllCovered(pae: Pae, residues: seq<int>)
  {
    forall k :: 0 <= k < |residues| ==> pae.Covers(residues[k])
  }

  /** The list without its element at index k. */
  function Remove(s: seq<int>, k: nat): (t: seq<int>)
    requires k < |s|
    ensures |t| == |s| - 1
    ensures forall i :: 0 <= i < |t| ==> t[i] == if i < k then s[i] else s[i + 1]
  {
    s[..k] + s[k + 1..]
  }

  lemma RemoveMultiset(s: seq<int>, k: nat)
    requires k < |s|
    ensures multiset(Remove(s, k)) == multiset(s) - multiset{s[k]}
  {
    assert s == s[..k] + [s[k]] + s[k + 1..];
  }

  /** Where an element of a list sits in it. */
  lemma IndexOf(s: seq<int>, x: int) returns (k: nat)
    requires x in multiset(s)
    ensures k < |s| && s[k] == x
  {
    assert x in s;
    k :| 0 <= k < |s| && s[k] == x;
  }

  lemma TailMultiset(s: seq<int>)
    requires s != []
    ensures multiset(s[1..]) == multiset(s) - multiset{s[0]}
  {
    assert s == [s[0]] + s[1..];
  }

  /** The pairs of x with each of ys, in order. */
  function Row(x: int, ys: seq<int>): (pairs: seq<(int, int)>)
    ensures |pairs| == |ys|
  {
    seq(|ys|, k requires 0 <= k < |ys| => (x, ys[k]))
  }

  /** The total error of x paired with each of ys. */
  function RowSum(pae: Pae, x: int, ys: seq<int>): real
    requires pae.Square() && pae.Covers(x) && AllCovered(pae, ys)
  {
    if ys == [] then 0.0 else pae.PairwisePae(x, ys[0]) + RowSum(pae, x, ys[1..])
  }

  /** The total error of the pairs i < j of a list, row by row. */
  function PairSum(pae: Pae, residues: seq<int>): real
    requires pae.Square() && AllCovered(pae, residues)
  {
    if residues == [] then 0.0 else RowSum(pae, residues[0], residues[1..]) + PairSum(pae, residues[1..])
  }

  lemma {:induction false} RowSumAsSum(pae: Pae, x: int, ys: seq<int>)
    requires pae.Square() && pae.Covers(x) && AllCovered(pae, ys)
    ensures Covered(pae, Row(x, ys))
    ensures RowSum(pae, x, ys) == Sum(PairErrors(pae, Row(x, ys)))
    decreases |ys|
  {
    if ys != [] {
      RowSumAsSum(pae, x, ys[1..]);
      var errors := PairErrors(pae, Row(x, ys));
      assert errors[1..] == PairErrors(pae, Row(x, ys[1..]));
    }
  }

  /** Taking one element out of a row takes out its error. */
  lemma {:induction false} RowSumRemove(pae: Pae, x: int, ys: seq<int>, k: nat)
    requires pae.Square() && pae.Covers(x) && AllCovered(pae, ys) && k < |ys|
    ensures RowSum(pae, x, ys) == pae.PairwisePae(x, ys[k]) + RowSum(pae, x, Remove(ys, k))
    decreases |ys|
  {
    if k == 0 {
      assert Remove(ys, 0) == ys[1..];
    } else {
      var t := ys[1..];
      RowSumRemove(pae, x, t, k - 1);
      var r := Remove(ys, k);
      assert r[0] == ys[0] && r[1..] == Remove(t, k - 1);
    }
  }

  lemma {:induction false} RowSumPermutation(pae: Pae, x: int, ys: seq<int>, zs: seq<int>)
    requires pae.Square() && pae.Covers(x) && AllCovered(pae, ys) && AllCovered(pae, zs)
    requires multiset(ys) == multiset(zs)
    ensures RowSum(pae, x, ys) == RowSum(pae, x, zs)
    decreases |ys|
  {
    if ys == [] {
      assert |zs| == |multiset(zs)| == 0;
    } else {
      var k := IndexOf(zs, ys[0]);
      RowSumRemove(pae, x, zs, k);
      TailMultiset(ys);
      RemoveMultiset(zs, k);
      assert multiset(ys[1..]) == multiset(Remove(zs, k));
      RowSumPermutation(pae, x, ys[1..], Remove(zs, k));
    }
  }

  /** Taking one element out of the list takes out its row; this uses the
      symmetry of the lookup for the pairs it formed with earlier elements. */
  lemma {:induction false} PairSumRemove(pae: Pae, residues: seq<int>, k: nat)
    requires pae.Square() && AllCovered(pae, residues) && k < |residues|
    ensures PairSum(pae, residues) ==
              RowSum(pae, residues[k], Remove(residues, k)) + PairSum(pae, Remove(residues, k))
    decreases |residues|
  {
    if k == 0 {
      assert Remove(residues, 0) == residues[1..];
    } else {
      var a := residues[0];
      var t := residues[1..];
      var x := residues[k];
      assert x == t[k - 1];
      var r := Remove(residues, k);
      var t' := Remove(t, k - 1);
      assert r[0] == a && r[1..] == t';
      PairSumRemove(pae, t, k - 1);
      RowSumRemove(pae, a, t, k - 1);
      PairwiseSymmetric(pae, a, x);
      assert RowSum(pae, x, r) == pae.PairwisePae(x, a) + RowSum(pae, x, t');
      assert PairSum(pae, r) == RowSum(pae, a, t') + PairSum(pae, t');
    }
  }

  lemma {:induction false} PairSumPermutation(pae: Pae, r1: seq<int>, r2: seq<int>)
    requires pae.Square() && AllCovered(pae, r1) && AllCovered(pae, r2)
    requires multiset(r1) == multiset(r2)
    ensures PairSum(pae, r1) == PairSum(pae, r2)
    decreases |r1|
  {
    if r1 == [] {
      assert |r2| == |multiset(r2)| == 0;
    } else {
      var a := r1[0];
      var k := IndexOf(r2, a);
      PairSumRemove(pae, r2, k);
      var rest := Remove(r2, k);
      RemoveMultiset(r2, k);
      TailMultiset(r1);
      assert multiset(r1[1..]) == multiset(rest);
      PairSumPermutation(pae, r1[1..], rest);
      RowSumPermutation(pae, a, r1[1..], rest);
    }
  }

  lemma PairsAtAppend(residues: seq<int>, p: seq<(nat, nat)>, q: seq<(nat, nat)>)
    requires forall k :: 0 <= k < |p| ==> p[k].0 < |residues| && p[k].1 < |residues|
    requires forall k :: 0 <= k < |q| ==> q[k].0 < |residues| && q[k].1 < |residues|
    ensures PairsAt(residues, p + q) == PairsAt(residues, p) + PairsAt(residues, q)
  {
  }

  lemma PairsAtCovered(pae: Pae, residues: seq<int>, ps: seq<(nat, nat)>)
    requires AllCovered(pae, residues)
    requires forall k :: 0 <= k < |ps| ==> ps[k].0 < |residues| && ps[k].1 < |residues|
    ensures Covered(pae, PairsAt(residues, ps))
  {
  }

  lemma PairErrorsAppend(pae: Pae, p: seq<(int, int)>, q: seq<(int, int)>)
    requires pae.Square() && Covered(pae, p) && Covered(pae, q)
    ensures Covered(pae, p + q)
    ensures PairErrors(pae, p + q) == PairErrors(pae, p) + PairErrors(pae, q)
  {
  }

  /** Row lo of the index pairs picks element lo with each later one. */
  lemma FirstRow(residues: seq<int>, lo: nat)
    requires lo < |residues|
    ensures var n := |residues|;
      PairsAt(residues, RowIndices(lo, n))
        == Row(residues[lo], residues[lo + 1..])
  {
  }

  /** One row of the pairs: its errors add up to the row sum of element lo. */
  lemma CombinationsStep(pae: Pae, residues: seq<int>, lo: nat)
    requires pae.Square() && AllCovered(pae, residues) && lo < |residues|
    ensures Covered(pae, PairsAt(residues, IndexPairsFrom(lo, |residues|)))
    ensures Covered(pae, PairsAt(residues, IndexPairsFrom(lo + 1, |residues|)))
    ensures Sum(PairErrors(pae, PairsAt(residues, IndexPairsFrom(lo, |residues|)))) ==
              RowSum(pae, residues[lo], residues[lo + 1..]) +
              Sum(PairErrors(pae, PairsAt(residues, IndexPairsFrom(lo + 1, |residues|))))
  {
    var n := |residues|;
    var row := RowIndices(lo, n);
    var rest := IndexPairsFrom(lo + 1, n);
    assert IndexPairsFrom(lo, n) == row + rest;
    PairsAtCovered(pae, residues, row + rest);
    PairsAtCovered(pae, residues, rest);
    var x := residues[lo];
    var ys := residues[lo + 1..];
    RowSumAsSum(pae, x, ys);
    FirstRow(residues, lo);
    PairsAtAppend(residues, row, rest);
    var first := Row(x, ys);
    var others := PairsAt(residues, rest);
    PairErrorsAppend(pae, first, others);
    SumAppend(PairErrors(pae, first), PairErrors(pae, others));
  }

  lemma PairSumFrom(pae: Pae, residues: seq<int>, lo: nat)
    requires pae.Square() && AllCovered(pae, residues) && lo < |residues|
    ensures PairSum(pae, residues[lo..]) ==
              RowSum(pae, residues[lo], residues[lo + 1..]) + PairSum(pae, residues[lo + 1..])
  {
    assert residues[lo..][0] == residues[lo] && residues[lo..][1..] == residues[lo + 1..];
  }

  /** The errors of `combinations` from row lo on add up to PairSum of the
      list from lo on. */
  lemma {:induction false} CombinationsSum(pae: Pae, residues: seq<int>, lo: nat)
    requires pae.Square() && AllCovered(pae, residues) && lo <= |residues|
    ensures Covered(pae, PairsAt(residues, IndexPairsFrom(lo, |residues|)))
    ensures Sum(PairErrors(pae, PairsAt(residues, IndexPairsFrom(lo, |residues|)))) == PairSum(pae, residues[lo..])
    decreases |residues| - lo
  {
    if lo == |residues| {
      assert residues[lo..] == [];
    } else {
      CombinationsSum(pae, residues, lo + 1);
      CombinationsStep(pae, residues, lo);
      PairSumFrom(pae, residues, lo);
    }
  }

  /** In all-pairs mode `get_avg_PAE` gives the same result for any
      reordering of the residue list, duplicates included. */
  lemma AveragePaePermutation(pae: Pae, r1: seq<int>, r2: seq<int>)
    requires pae.Square() && AllCovered(pae, r1) && multiset(r1) == multiset(r2)
    ensures Covered(pae, Combinations(r1)) && Covered(pae, Combinations(r2))
    ensures AveragePae(pae, Combinations(r1)) == AveragePae(pae, Combinations(r2))
  {
    assert |r1| == |multiset(r1)| == |r2|;
    forall k | 0 <= k < |r2| ensures pae.Covers(r2[k]) {
      assert r2[k] in multiset(r1);
      assert r2[k] in r1;
    }
    CombinationsSum(pae, r1, 0);
    CombinationsSum(pae, r2, 0);
    assert r1[0..] == r1 && r2[0..] == r2;
    PairSumPermutation(pae, r1, r2);
  }
}
