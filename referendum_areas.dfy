/// `merge_referendum_and_areas`: drop the ballots of French people living abroad
/// (a `Z` in the department code), zero-pad the remaining department codes to
/// two characters (Corsica's `2A` and `2B` excepted), drop the overseas regions
/// from the geography table, and inner-join the two on the department code.

module ReferendumAreas {
  import opened Tables

  /** Region codes of the overseas departments and collectivities. */
  const OVERSEAS_REGIONS: set<string> := {"01", "02", "03", "04", "06", "COM"}

  /** Department codes that are never padded. */
  const CORSICA: set<string> := {"2A", "2B"}

  /** `n` copies of the padding character. */
  function Zeros(n: nat): (z: string)
    ensures |z| == n && forall i :: 0 <= i < n ==> z[i] == '0'
  {
    seq(n, _ => '0')
  }

  /** Python's `str.zfill`: a string at least `width` long is returned as is;
      a shorter one is left-padded with `'0'` up to `width`, the padding going
      after a leading `'+'` or `'-'`. */
  function ZFill(s: string, width: nat): (r: string)
    ensures |s| >= width ==> r == s
    ensures |s| < width ==> |r| == width
    ensures multiset(r) == multiset(s) + multiset(Zeros(|r| - |s|))
    ensures |s| < width && (|s| == 0 || (s[0] != '+' && s[0] != '-')) ==>
              && r[width - |s|..] == s
              && (forall i :: 0 <= i < width - |s| ==> r[i] == '0')
    ensures |s| < width && |s| > 0 && (s[0] == '+' || s[0] == '-') ==>
              && r[0] == s[0]
              && r[width - |s| + 1..] == s[1..]
              && (forall i :: 1 <= i <= width - |s| ==> r[i] == '0')
  {
    if |s| >= width then s
    else if |s| > 0 && (s[0] == '+' || s[0] == '-') then
      assert s == [s[0]] + s[1..];
      [s[0]] + Zeros(width - |s|) + s[1..]
    else Zeros(width - |s|) + s
  }

  /** The normaliser applied to every kept department code. */
  function NormalizeCode(code: string): (r: string)
    ensures |r| >= 2
    ensures code in CORSICA ==> r == code
    ensures |code| >= 2 ==> r == code
    ensures |code| == 1 && code != "+" && code != "-" ==> r == "0" + code
    ensures 'Z' in r <==> 'Z' in code
  {
    if code in CORSICA then code else ZFill(code, 2)
  }

  /** Normalising an already normalised code changes nothing. */
  lemma NormalizeIdempotent(code: string)
    ensures NormalizeCode(NormalizeCode(code)) == NormalizeCode(code)
  {
  }

  /** The ballots whose department code has no `Z`, in table order. */
  function DropAbroad(ballots: seq<Ballot>): (kept: seq<Ballot>)
    ensures forall b :: multiset(kept)[b] == if 'Z' in b.departmentCode then 0 else multiset(ballots)[b]
  {
    if ballots == [] then []
    else
      var rest := DropAbroad(ballots[1..]);
      assert ballots == [ballots[0]] + ballots[1..];
      if 'Z' in ballots[0].departmentCode then rest else [ballots[0]] + rest
  }

  /** A ballot with its department code normalised. */
  function Normalized(b: Ballot): Ballot
  {
    b.(departmentCode := NormalizeCode(b.departmentCode))
  }

  /** The normaliser applied to the department code of every row. */
  function NormalizeCodes(ballots: seq<Ballot>): (out: seq<Ballot>)
    ensures |out| == |ballots|
    ensures forall i :: 0 <= i < |ballots| ==> out[i] == Normalized(ballots[i])
  {
    if ballots == [] then [] else [Normalized(ballots[0])] + NormalizeCodes(ballots[1..])
  }

  /** The geography rows whose region is not an overseas one, in table order. */
  function DropOverseas(geo: seq<GeoDep>): (kept: seq<GeoDep>)
    ensures forall g :: multiset(kept)[g] == if g.codeReg in OVERSEAS_REGIONS then 0 else multiset(geo)[g]
  {
    if geo == [] then []
    else
      var rest := DropOverseas(geo[1..]);
      assert geo == [geo[0]] + geo[1..];
      if geo[0].codeReg in OVERSEAS_REGIONS then rest else [geo[0]] + rest
  }

  /** The joined row of a geography row and a ballot. */
  function Combine(g: GeoDep, b: Ballot): AreaBallot
  {
    AreaBallot(g.codeReg, g.nameReg, g.codeDep, g.nameDep,
               b.departmentCode, b.registered, b.abstentions, b.nullVotes, b.choiceA, b.choiceB)
  }

  /** The rows one geography row contributes: one per ballot of its department. */
  function JoinDepartment(g: GeoDep, ballots: seq<Ballot>): (rows: seq<AreaBallot>)
    ensures forall row :: row in rows <==> exists b :: b in ballots && b.departmentCode == g.codeDep && row == Combine(g, b)
  {
    if ballots == [] then []
    else
      var head := if ballots[0].departmentCode == g.codeDep then [Combine(g, ballots[0])] else [];
      assert forall b :: b in ballots <==> b == ballots[0] || b in ballots[1..];
      head + JoinDepartment(g, ballots[1..])
  }

  /** Inner join of geography rows and ballots on `code_dep == Department code`. */
  function JoinOnDepartment(geo: seq<GeoDep>, ballots: seq<Ballot>): (rows: seq<AreaBallot>)
    ensures forall row :: row in rows <==>
      exists g, b :: g in geo && b in ballots && b.departmentCode == g.codeDep && row == Combine(g, b)
  {
    if geo == [] then []
    else
      var rest := JoinOnDepartment(geo[1..], ballots);
      assert forall g :: g in geo <==> g == geo[0] || g in geo[1..];
      JoinDepartment(geo[0], ballots) + rest
  }

  /** A joined row of `g` holds `b` exactly as many times as `g` meets `b`:
      once per occurrence of `b` in the ballots when the codes match. */
  lemma {:induction false} JoinDepartmentCount(h: GeoDep, ballots: seq<Ballot>, g: GeoDep, b: Ballot)
    ensures multiset(JoinDepartment(h, ballots))[Combine(g, b)]
            == if h == g && b.departmentCode == g.codeDep then multiset(ballots)[b] else 0
  {
    if ballots != [] {
      assert ballots == [ballots[0]] + ballots[1..];
      JoinDepartmentCount(h, ballots[1..], g, b);
    }
  }

  /** Join cardinality: a matching pair occurs as many times as its geography
      row times its ballot, and a non-matching pair not at all. */
  lemma {:induction false} JoinOnDepartmentCount(geo: seq<GeoDep>, ballots: seq<Ballot>, g: GeoDep, b: Ballot)
    ensures multiset(JoinOnDepartment(geo, ballots))[Combine(g, b)]
            == if b.departmentCode == g.codeDep then multiset(geo)[g] * multiset(ballots)[b] else 0
  {
    if geo != [] {
      var row := Combine(g, b);
      var head := JoinDepartment(geo[0], ballots);
      var rest := JoinOnDepartment(geo[1..], ballots);
      assert JoinOnDepartment(geo, ballots) == head + rest;
      assert multiset(head + rest)[row] == multiset(head)[row] + multiset(rest)[row];
      JoinDepartmentCount(geo[0], ballots, g, b);
      JoinOnDepartmentCount(geo[1..], ballots, g, b);
      if b.departmentCode == g.codeDep {
        CountCons(geo, g);
        Distribute(if geo[0] == g then 1 else 0, multiset(geo[1..])[g], multiset(ballots)[b]);
      }
    }
  }

  /** Specification: how many ballots of the referendum table survive the `Z`
      filter and, once their code is normalised, are `b`. */
  function KeptAs(referendum: seq<Ballot>, b: Ballot): nat
  {
    if referendum == [] then 0
    else
      (if 'Z' !in referendum[0].departmentCode && Normalized(referendum[0]) == b then 1 else 0)
      + KeptAs(referendum[1..], b)
  }

  /** The filtered, normalised ballot table holds `b` as often as `KeptAs` counts. */
  lemma {:induction false} KeptBallotsCount(referendum: seq<Ballot>, b: Ballot)
    ensures multiset(NormalizeCodes(DropAbroad(referendum)))[b] == KeptAs(referendum, b)
  {
    if referendum != [] {
      var c := referendum[0];
      var rest := NormalizeCodes(DropAbroad(referendum[1..]));
      KeptBallotsCount(referendum[1..], b);
      if 'Z' !in c.departmentCode {
        var kept := DropAbroad(referendum);
        assert kept == [c] + DropAbroad(referendum[1..]);
        assert NormalizeCodes(kept) == [Normalized(c)] + rest;
      }
    }
  }

  /** The referendum table joined to the metropolitan geography table. Each
      row's department code is the `code_dep` it was joined on. */
  function MergeReferendumAndAreas(referendum: seq<Ballot>, regionsAndDepartments: seq<GeoDep>): (rows: seq<AreaBallot>)
    ensures forall row :: row in rows ==> row.departmentCode == row.codeDep
  {
    JoinOnDepartment(DropOverseas(regionsAndDepartments), NormalizeCodes(DropAbroad(referendum)))
  }

  /** A ballot that survives the `Z` filter, with its normalised code. */
  ghost predicate FromKeptPair(referendum: seq<Ballot>, regionsAndDepartments: seq<GeoDep>, row: AreaBallot)
  {
    exists g, b ::
      && g in regionsAndDepartments && g.codeReg !in OVERSEAS_REGIONS
      && b in referendum && 'Z' !in b.departmentCode
      && NormalizeCode(b.departmentCode) == g.codeDep
      && row == Combine(g, Normalized(b))
  }

  /** The ballots kept by the `Z` filter. */
  lemma DropAbroadMembers(referendum: seq<Ballot>)
    ensures forall b :: b in DropAbroad(referendum) <==> b in referendum && 'Z' !in b.departmentCode
  {
    var kept := DropAbroad(referendum);
    forall b ensures b in kept <==> b in referendum && 'Z' !in b.departmentCode {
      assert b in kept <==> multiset(kept)[b] > 0;
    }
  }

  /** The geography rows kept by the overseas filter. */
  lemma DropOverseasMembers(geo: seq<GeoDep>)
    ensures forall g :: g in DropOverseas(geo) <==> g in geo && g.codeReg !in OVERSEAS_REGIONS
  {
    var kept := DropOverseas(geo);
    forall g ensures g in kept <==> g in geo && g.codeReg !in OVERSEAS_REGIONS {
      assert g in kept <==> multiset(kept)[g] > 0;
    }
  }

  /** Every merged row joins a kept geography row to a kept, normalised ballot. */
  lemma MergeReferendumSound(referendum: seq<Ballot>, regionsAndDepartments: seq<GeoDep>)
    ensures forall row ::
              row in MergeReferendumAndAreas(referendum, regionsAndDepartments)
              ==> FromKeptPair(referendum, regionsAndDepartments, row)
  {
    var geo := DropOverseas(regionsAndDepartments);
    var kept := DropAbroad(referendum);
    var ballots := NormalizeCodes(kept);
    DropOverseasMembers(regionsAndDepartments);
    DropAbroadMembers(referendum);
    forall row | row in MergeReferendumAndAreas(referendum, regionsAndDepartments)
      ensures FromKeptPair(referendum, regionsAndDepartments, row)
    {
      var g, b :| g in geo && b in ballots && b.departmentCode == g.codeDep && row == Combine(g, b);
      var i :| 0 <= i < |ballots| && ballots[i] == b;
      var c := kept[i];
      assert c in kept && b == Normalized(c);
      assert g in regionsAndDepartments && g.codeReg !in OVERSEAS_REGIONS;
      assert c in referendum && 'Z' !in c.departmentCode;
    }
  }

  /** Every kept geography row and kept ballot with matching normalised code yield a merged row. */
  lemma MergeReferendumComplete(referendum: seq<Ballot>, regionsAndDepartments: seq<GeoDep>, g: GeoDep, c: Ballot)
    requires g in regionsAndDepartments && g.codeReg !in OVERSEAS_REGIONS
    requires c in referendum && 'Z' !in c.departmentCode
    requires NormalizeCode(c.departmentCode) == g.codeDep
    ensures Combine(g, Normalized(c)) in MergeReferendumAndAreas(referendum, regionsAndDepartments)
  {
    var geo := DropOverseas(regionsAndDepartments);
    var kept := DropAbroad(referendum);
    var ballots := NormalizeCodes(kept);
    DropOverseasMembers(regionsAndDepartments);
    DropAbroadMembers(referendum);
    var i :| 0 <= i < |kept| && kept[i] == c;
    assert ballots[i] == Normalized(c);
    assert g in geo && Normalized(c) in ballots;
  }

  /** A row is in the merged table exactly when it joins a metropolitan
      geography row to a ballot without `Z` whose normalised code is that
      row's department code. */
  lemma MergeReferendumRows(referendum: seq<Ballot>, regionsAndDepartments: seq<GeoDep>)
    ensures forall row ::
              row in MergeReferendumAndAreas(referendum, regionsAndDepartments)
              <==> FromKeptPair(referendum, regionsAndDepartments, row)
  {
    MergeReferendumSound(referendum, regionsAndDepartments);
    forall row | FromKeptPair(referendum, regionsAndDepartments, row)
      ensures row in MergeReferendumAndAreas(referendum, regionsAndDepartments)
    {
      var g, c :|
        && g in regionsAndDepartments && g.codeReg !in OVERSEAS_REGIONS
        && c in referendum && 'Z' !in c.departmentCode
        && NormalizeCode(c.departmentCode) == g.codeDep
        && row == Combine(g, Normalized(c));
      MergeReferendumComplete(referendum, regionsAndDepartments, g, c);
    }
  }

  /** The region columns of a merged row are those of some geography row. */
  lemma MergedRowFromGeo(referendum: seq<Ballot>, regionsAndDepartments: seq<GeoDep>)
    ensures forall row ::
              row in MergeReferendumAndAreas(referendum, regionsAndDepartments)
              ==> exists g :: g in regionsAndDepartments && g.codeReg == row.codeReg && g.nameReg == row.nameReg
  {
    MergeReferendumSound(referendum, regionsAndDepartments);
    forall row | row in MergeReferendumAndAreas(referendum, regionsAndDepartments)
      ensures exists g :: g in regionsAndDepartments && g.codeReg == row.codeReg && g.nameReg == row.nameReg
    {
      var g, b :| g in regionsAndDepartments && row == Combine(g, Normalized(b));
    }
  }

  /** No merged row belongs to an overseas region, and no merged row has a `Z`
      in its department code; its department code is the normalised ballot code
      that it was joined on, so it is at least two characters long. */
  lemma MergeReferendumExcludes(referendum: seq<Ballot>, regionsAndDepartments: seq<GeoDep>)
    ensures forall row :: row in MergeReferendumAndAreas(referendum, regionsAndDepartments) ==> (
              && row.codeReg !in OVERSEAS_REGIONS
              && 'Z' !in row.departmentCode
              && row.departmentCode == row.codeDep
              && |row.codeDep| >= 2)
  {
    MergeReferendumSound(referendum, regionsAndDepartments);
  }

  /** Row multiplicities of the merged table: a metropolitan geography row
      and a ballot with matching codes meet once for each copy of the
      geography row times each referendum row that survives the `Z` filter
      and normalises to that ballot; every other pair never occurs. */
  lemma MergeReferendumCount(referendum: seq<Ballot>, regionsAndDepartments: seq<GeoDep>, g: GeoDep, b: Ballot)
    ensures multiset(MergeReferendumAndAreas(referendum, regionsAndDepartments))[Combine(g, b)]
            == if b.departmentCode == g.codeDep && g.codeReg !in OVERSEAS_REGIONS
               then multiset(regionsAndDepartments)[g] * KeptAs(referendum, b)
               else 0
  {
    JoinOnDepartmentCount(DropOverseas(regionsAndDepartments), NormalizeCodes(DropAbroad(referendum)), g, b);
    KeptBallotsCount(referendum, b);
  }
}
