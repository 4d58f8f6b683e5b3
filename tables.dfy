/// Record types of the referendum pipeline.
///
/// Each table of the pipeline is a `seq` of one of these records, holding only
/// the columns that some stage reads or produces. Codes and names are non-null
/// strings; vote counts are natural numbers.

module Tables {

  /** A row of the region reference table (columns `code`, `name`). */
  datatype Region = Region(code: string, name: string)

  /** A row of the department reference table (columns `code`, `name`, `region_code`). */
  datatype Department = Department(code: string, name: string, regionCode: string)

  /** A row of the merged region/department table: exactly the columns
      `code_reg`, `name_reg`, `code_dep`, `name_dep`. */
  datatype GeoDep = GeoDep(codeReg: string, nameReg: string, codeDep: string, nameDep: string)

  /** A row of the referendum table: the `Department code` column and the five counts. */
  datatype Ballot = Ballot(
    departmentCode: string,
    registered: nat,
    abstentions: nat,
    nullVotes: nat,
    choiceA: nat,
    choiceB: nat)

  /** A row of the referendum table joined to its geography row: the four
      geography columns followed by the ballot columns. */
  datatype AreaBallot = AreaBallot(
    codeReg: string,
    nameReg: string,
    codeDep: string,
    nameDep: string,
    departmentCode: string,
    registered: nat,
    abstentions: nat,
    nullVotes: nat,
    choiceA: nat,
    choiceB: nat)

  /** The five count columns that are summed per region. */
  datatype Tally = Registered | Abstentions | Null | ChoiceA | ChoiceB

  /** The value of one count column of a joined row. */
  function Count(row: AreaBallot, t: Tally): nat
  {
    match t
    case Registered => row.registered
    case Abstentions => row.abstentions
    case Null => row.nullVotes
    case ChoiceA => row.choiceA
    case ChoiceB => row.choiceB
  }

  /** Multiplication distributes over a sum of counts. */
  lemma Distribute(x: nat, y: nat, k: nat)
    ensures (x + y) * k == x * k + y * k
  {
  }

  /** How often `x` occurs in a non-empty sequence: in its head, then in its tail. */
  lemma CountCons<T>(s: seq<T>, x: T)
    requires s != []
    ensures multiset(s)[x] == (if s[0] == x then 1 else 0) + multiset(s[1..])[x]
  {
    assert s == [s[0]] + s[1..];
  }
}
