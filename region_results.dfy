/// `compute_referendum_result_by_regions`: group the merged rows by `code_reg`,
/// keep the `name_reg` of each group's first row and sum the five count
/// columns over the group. The result is keyed by region code; the key order
/// of the grouped table is not modelled.

module RegionResults {
  import opened Tables

  /** One row of the per-region result table (its index is the region code). */
  datatype RegionResult = RegionResult(
    nameReg: string,
    registered: nat,
    abstentions: nat,
    nullVotes: nat,
    choiceA: nat,
    choiceB: nat)
  {
    /** The value of one count column. */
    function Count(t: Tally): nat
    {
      match t
      case Registered => registered
      case Abstentions => abstentions
      case Null => nullVotes
      case ChoiceA => choiceA
      case ChoiceB => choiceB
    }
  }

  /** The region codes present in a table. */
  function Codes(rows: seq<AreaBallot>): set<string>
  {
    set row | row in rows :: row.codeReg
  }

  /** Specification: the sum of column `t` over exactly the rows of region `code`. */
  function SumWhere(rows: seq<AreaBallot>, code: string, t: Tally): nat
  {
    if rows == [] then 0
    else (if rows[0].codeReg == code then Tables.Count(rows[0], t) else 0) + SumWhere(rows[1..], code, t)
  }

  /** Specification: the `name_reg` of the first row, in table order, of region `code`. */
  function FirstName(rows: seq<AreaBallot>, code: string): string
    requires code in Codes(rows)
  {
    if rows[0].codeReg == code then rows[0].nameReg
    else
      assert forall row :: row in rows[1..] ==> row in rows;
      assert rows[0] in rows;
      FirstName(rows[1..], code)
  }

  /** The result of a group made of `row` alone. */
  function Single(row: AreaBallot): (r: RegionResult)
    ensures forall t :: r.Count(t) == Tables.Count(row, t)
  {
    RegionResult(row.nameReg, row.registered, row.abstentions, row.nullVotes, row.choiceA, row.choiceB)
  }

  /** The result of a group with `row` placed in front of the rows summed in `acc`. */
  function Prepend(row: AreaBallot, acc: RegionResult): (r: RegionResult)
    ensures forall t :: r.Count(t) == Tables.Count(row, t) + acc.Count(t)
  {
    RegionResult(row.nameReg,
                 row.registered + acc.registered,
                 row.abstentions + acc.abstentions,
                 row.nullVotes + acc.nullVotes,
                 row.choiceA + acc.choiceA,
                 row.choiceB + acc.choiceB)
  }

  /** The per-region table: one entry per region code of the input (see
      `ResultByRegionsSums` for what each entry holds). */
  function ComputeResultByRegions(rows: seq<AreaBallot>): (m: map<string, RegionResult>)
    ensures m.Keys == Codes(rows)
  {
    if rows == [] then map[]
    else
      var row := rows[0];
      var rest := ComputeResultByRegions(rows[1..]);
      assert Codes(rows) == Codes(rows[1..]) + {row.codeReg} by {
        assert forall r :: r in rows <==> r == row || r in rows[1..];
      }
      rest[row.codeReg := if row.codeReg in rest then Prepend(row, rest[row.codeReg]) else Single(row)]
  }

  /** A region with no row sums to zero. */
  lemma {:induction false} SumWhereAbsent(rows: seq<AreaBallot>, code: string, t: Tally)
    requires code !in Codes(rows)
    ensures SumWhere(rows, code, t) == 0
  {
    if rows != [] {
      assert rows[0] in rows;
      assert Codes(rows[1..]) <= Codes(rows) by {
        assert forall r :: r in rows[1..] ==> r in rows;
      }
      SumWhereAbsent(rows[1..], code, t);
    }
  }

  /** The entry of region `code` sums column `t` over exactly the region's rows. */
  lemma {:induction false} ResultCount(rows: seq<AreaBallot>, code: string, t: Tally)
    requires code in Codes(rows)
    ensures ComputeResultByRegions(rows)[code].Count(t) == SumWhere(rows, code, t)
  {
    var row := rows[0];
    var rest := ComputeResultByRegions(rows[1..]);
    var m := ComputeResultByRegions(rows);
    if code != row.codeReg {
      assert code in rest && m[code] == rest[code];
      ResultCount(rows[1..], code, t);
    } else if code in rest {
      assert m[code] == Prepend(row, rest[code]);
      ResultCount(rows[1..], code, t);
    } else {
      assert m[code] == Single(row);
      SumWhereAbsent(rows[1..], code, t);
    }
  }

  /** The entry of region `code` is named after the region's first row. */
  lemma {:induction false} ResultName(rows: seq<AreaBallot>, code: string)
    requires code in Codes(rows)
    ensures ComputeResultByRegions(rows)[code].nameReg == FirstName(rows, code)
  {
    if code != rows[0].codeReg {
      ResultName(rows[1..], code);
    }
  }

  /** Each entry of the per-region table carries the `name_reg` of the
      region's first row and, for every count column, the sum of that column
      over exactly the region's rows. */
  lemma ResultByRegionsSums(rows: seq<AreaBallot>)
    ensures
      var m := ComputeResultByRegions(rows);
      && (forall code, t :: code in m ==> m[code].Count(t) == SumWhere(rows, code, t))
      && (forall code :: code in m ==> m[code].nameReg == FirstName(rows, code))
  {
    var m := ComputeResultByRegions(rows);
    forall code, t | code in m
      ensures m[code].Count(t) == SumWhere(rows, code, t)
    {
      ResultCount(rows, code, t);
    }
    forall code | code in m
      ensures m[code].nameReg == FirstName(rows, code)
    {
      ResultName(rows, code);
    }
  }

  /** Specification: the sum of column `t` over the whole table. */
  function Total(rows: seq<AreaBallot>, t: Tally): nat
  {
    if rows == [] then 0 else Tables.Count(rows[0], t) + Total(rows[1..], t)
  }

  /** The sum of column `t` over the rows whose region is in `codes`. */
  function SumIn(rows: seq<AreaBallot>, codes: set<string>, t: Tally): nat
  {
    if rows == [] then 0
    else (if rows[0].codeReg in codes then Tables.Count(rows[0], t) else 0) + SumIn(rows[1..], codes, t)
  }

  /** No key is listed twice. */
  predicate Distinct(codes: seq<string>)
  {
    forall i, j :: 0 <= i < j < |codes| ==> codes[i] != codes[j]
  }

  /** The sum of column `t` over the entries of `m` listed in `codes`. */
  function SumResults(m: map<string, RegionResult>, codes: seq<string>, t: Tally): nat
    requires forall code :: code in codes ==> code in m
  {
    if codes == [] then 0 else m[codes[0]].Count(t) + SumResults(m, codes[1..], t)
  }

  /** Splitting one region off a set of regions splits its sum. */
  lemma {:induction false} SumInSplit(rows: seq<AreaBallot>, codes: set<string>, code: string, t: Tally)
    requires code in codes
    ensures SumIn(rows, codes, t) == SumWhere(rows, code, t) + SumIn(rows, codes - {code}, t)
  {
    if rows != [] {
      SumInSplit(rows[1..], codes, code, t);
    }
  }

  /** Summing over every region that occurs gives the whole table's sum. */
  lemma {:induction false} SumInAll(rows: seq<AreaBallot>, codes: set<string>, t: Tally)
    requires Codes(rows) <= codes
    ensures SumIn(rows, codes, t) == Total(rows, t)
  {
    if rows != [] {
      assert rows[0] in rows;
      assert Codes(rows[1..]) <= Codes(rows) by {
        assert forall r :: r in rows[1..] ==> r in rows;
      }
      SumInAll(rows[1..], codes, t);
    }
  }

  /** The codes listed after the first of a duplicate-free list are the
      listed codes without the first. */
  lemma DistinctTail(codes: seq<string>)
    requires Distinct(codes) && codes != []
    ensures Distinct(codes[1..])
    ensures (set code | code in codes[1..]) == (set code | code in codes) - {codes[0]}
  {
    var tail := codes[1..];
    assert forall code :: code in codes <==> code == codes[0] || code in tail;
    forall code | code in tail
      ensures code != codes[0]
    {
      var k :| 0 <= k < |tail| && tail[k] == code;
      assert codes[k + 1] == code;
    }
  }

  /** Summing the per-region sums over a duplicate-free list of regions gives
      the sum over the rows of those regions. */
  lemma {:induction false} SumResultsIsSumIn(rows: seq<AreaBallot>, codes: seq<string>, t: Tally)
    requires Distinct(codes)
    requires forall code :: code in codes ==> code in Codes(rows)
    ensures
      var m := ComputeResultByRegions(rows);
      SumResults(m, codes, t) == SumIn(rows, (set code | code in codes), t)
  {
    if codes == [] {
      SumInNone(rows, t);
      assert (set code | code in codes) == {};
    } else {
      DistinctTail(codes);
      SumResultsIsSumIn(rows, codes[1..], t);
      ResultCount(rows, codes[0], t);
      SumInSplit(rows, (set code | code in codes), codes[0], t);
    }
  }

  /** With no regions selected, nothing is summed. */
  lemma {:induction false} SumInNone(rows: seq<AreaBallot>, t: Tally)
    ensures SumIn(rows, {}, t) == 0
  {
    if rows != [] {
      SumInNone(rows[1..], t);
    }
  }

  /** Conservation: for every count column, adding up the per-region results
      over the regions of the table (each listed once) gives the column's
      total over the input rows. */
  lemma GrandTotal(rows: seq<AreaBallot>, codes: seq<string>, t: Tally)
    requires Distinct(codes)
    requires forall code :: code in codes <==> code in Codes(rows)
    ensures
      var m := ComputeResultByRegions(rows);
      SumResults(m, codes, t) == Total(rows, t)
  {
    SumResultsIsSumIn(rows, codes, t);
    SumInAll(rows, (set code | code in codes), t);
  }
}
