/// The three stages wired together as the script's entry point does, with the
/// worked examples of the pipeline and the property that a region's result
/// carries the region's own name.

module Pipeline {
  import opened Tables
  import opened RegionsDepartments
  import opened ReferendumAreas
  import opened RegionResults

  /** Per-region results of a referendum table, given the two geography
      tables. Every key is the code of a region of the region table, and no
      overseas region has a result. */
  function ReferendumResultByRegions(referendum: seq<Ballot>, regions: seq<Region>, departments: seq<Department>): (m: map<string, RegionResult>)
    ensures forall code :: code in m ==> code !in OVERSEAS_REGIONS && code in RegionCodes(regions)
  {
    var geo := MergeRegionsAndDepartments(regions, departments);
    var rows := MergeReferendumAndAreas(referendum, geo);
    MergeReferendumExcludes(referendum, geo);
    MergedRowFromGeo(referendum, geo);
    assert forall code :: code in Codes(rows) ==> code !in OVERSEAS_REGIONS && code in RegionCodes(regions);
    ComputeResultByRegions(rows)
  }

  /** `FirstName` is the name of some row of the region. */
  lemma {:induction false} FirstNameOfSomeRow(rows: seq<AreaBallot>, code: string)
    requires code in Codes(rows)
    ensures exists row :: row in rows && row.codeReg == code && row.nameReg == FirstName(rows, code)
  {
    if rows[0].codeReg != code {
      assert code in Codes(rows[1..]) by {
        var row :| row in rows && row.codeReg == code;
        assert row != rows[0];
        assert row in rows[1..];
      }
      FirstNameOfSomeRow(rows[1..], code);
      var row :| row in rows[1..] && row.codeReg == code && row.nameReg == FirstName(rows[1..], code);
      assert row in rows;
    }
  }

  /** With unique region codes, every geography row of region `r` carries `r`'s name. */
  lemma GeoRowNamed(regions: seq<Region>, departments: seq<Department>, r: Region)
    requires UniqueCodes(regions) && r in regions
    ensures forall g ::
              g in MergeRegionsAndDepartments(regions, departments) && g.codeReg == r.code
              ==> g.nameReg == r.name
  {
    forall g | g in MergeRegionsAndDepartments(regions, departments) && g.codeReg == r.code
      ensures g.nameReg == r.name
    {
      var r', d :| r' in regions && d in departments && d.regionCode == r'.code && g == Pair(r', d);
      var i :| 0 <= i < |regions| && regions[i] == r;
      var j :| 0 <= j < |regions| && regions[j] == r';
      assert regions[i].code == regions[j].code;
    }
  }

  /** With unique region codes, every merged referendum row of region `r` carries `r`'s name. */
  lemma MergedRowNamed(referendum: seq<Ballot>, regions: seq<Region>, departments: seq<Department>, r: Region)
    requires UniqueCodes(regions) && r in regions
    ensures forall row ::
              row in MergeReferendumAndAreas(referendum, MergeRegionsAndDepartments(regions, departments))
              && row.codeReg == r.code
              ==> row.nameReg == r.name
  {
    var geo := MergeRegionsAndDepartments(regions, departments);
    MergedRowFromGeo(referendum, geo);
    GeoRowNamed(regions, departments, r);
  }

  /** When region codes are unique, the result of a region is named after
      that region: every merged row of a region carries the same `name_reg`,
      so taking the first one loses nothing. */
  lemma ResultNamedAfterRegion(referendum: seq<Ballot>, regions: seq<Region>, departments: seq<Department>, r: Region)
    requires UniqueCodes(regions) && r in regions
    ensures
      var m := ReferendumResultByRegions(referendum, regions, departments);
      r.code in m ==> m[r.code].nameReg == r.name
  {
    var rows := MergeReferendumAndAreas(referendum, MergeRegionsAndDepartments(regions, departments));
    if r.code in ComputeResultByRegions(rows) {
      ResultName(rows, r.code);
      FirstNameOfSomeRow(rows, r.code);
      var row :| row in rows && row.codeReg == r.code && row.nameReg == FirstName(rows, r.code);
      MergedRowNamed(referendum, regions, departments, r);
    }
  }

  /** The department `01` of region `84` yields one geography row. */
  lemma GeographyExample()
    ensures
      MergeRegionsAndDepartments([Region("84", "Auvergne-Rhône-Alpes")], [Department("01", "Ain", "84")])
      == [GeoDep("84", "Auvergne-Rhône-Alpes", "01", "Ain")]
  {
  }

  /** The ballot code `1` is padded to `01` and joins the department `01`. */
  lemma PaddedJoinExample()
    ensures
      MergeReferendumAndAreas([Ballot("1", 100, 20, 5, 50, 25)], [GeoDep("84", "Auvergne-Rhône-Alpes", "01", "Ain")])
      == [AreaBallot("84", "Auvergne-Rhône-Alpes", "01", "Ain", "01", 100, 20, 5, 50, 25)]
  {
    var ballot := Ballot("1", 100, 20, 5, 50, 25);
    var padded := Ballot("01", 100, 20, 5, 50, 25);
    var g := GeoDep("84", "Auvergne-Rhône-Alpes", "01", "Ain");
    var row := AreaBallot("84", "Auvergne-Rhône-Alpes", "01", "Ain", "01", 100, 20, 5, 50, 25);
    assert DropOverseas([g]) == [g];
    assert NormalizeCodes(DropAbroad([ballot])) == [padded] by {
      assert DropAbroad([ballot]) == [ballot];
      assert NormalizeCode("1") == "01";
    }
    assert JoinOnDepartment([g], [padded]) == [row] by {
      assert JoinDepartment(g, [padded]) == [row];
    }
  }

  /** A single merged row makes a single region entry holding its counts. */
  lemma AggregateExample()
    ensures
      ComputeResultByRegions([AreaBallot("84", "Auvergne-Rhône-Alpes", "01", "Ain", "01", 100, 20, 5, 50, 25)])
      == map["84" := RegionResult("Auvergne-Rhône-Alpes", 100, 20, 5, 50, 25)]
  {
  }

  /** A one-department region: the ballot code `1` is padded to `01`, joins
      the department `01` and its counts become the region's result. */
  lemma SingleDepartmentExample()
    ensures
      ReferendumResultByRegions(
        [Ballot("1", 100, 20, 5, 50, 25)],
        [Region("84", "Auvergne-Rhône-Alpes")],
        [Department("01", "Ain", "84")])
      == map["84" := RegionResult("Auvergne-Rhône-Alpes", 100, 20, 5, 50, 25)]
  {
    GeographyExample();
    PaddedJoinExample();
    AggregateExample();
  }

  /** Corsica: the code `2A` is not padded and joins the department `2A`. */
  lemma CorsicaExample()
    ensures
      MergeReferendumAndAreas(
        [Ballot("2A", 10, 1, 1, 5, 3)],
        [GeoDep("94", "Corse", "2A", "Corse-du-Sud")])
      == [AreaBallot("94", "Corse", "2A", "Corse-du-Sud", "2A", 10, 1, 1, 5, 3)]
  {
    var ballot := Ballot("2A", 10, 1, 1, 5, 3);
    var g := GeoDep("94", "Corse", "2A", "Corse-du-Sud");
    var row := AreaBallot("94", "Corse", "2A", "Corse-du-Sud", "2A", 10, 1, 1, 5, 3);
    assert DropOverseas([g]) == [g];
    assert NormalizeCodes(DropAbroad([ballot])) == [ballot] by {
      assert DropAbroad([ballot]) == [ballot];
      assert NormalizeCode("2A") == "2A";
    }
    assert JoinOnDepartment([g], [ballot]) == [row] by {
      assert JoinDepartment(g, [ballot]) == [row];
    }
  }

  /** A ballot of French people living abroad never reaches the merged table,
      whatever geography rows are offered, even one whose code matches. */
  lemma AbroadExample(geo: seq<GeoDep>, row: AreaBallot)
    ensures row !in MergeReferendumAndAreas([Ballot("971Z", 10, 1, 1, 5, 3)], geo)
  {
  }
}
