/// `merge_regions_and_departments`: the inner join of the region table with the
/// department table on `departments.region_code == regions.code`, with the
/// clashing `code`/`name` columns renamed and the bookkeeping columns dropped.
///
/// The join emits, region by region (left table order), one row per department
/// of that region (right table order). Only membership and row counts are
/// stated about it; callers should not rely on the order.

module RegionsDepartments {
  import opened Tables

  /** The output row of one matching (region, department) pair: the region's
      `code`/`name` become `code_reg`/`name_reg`, the department's become
      `code_dep`/`name_dep`; ids, slugs and `region_code` are not carried. */
  function Pair(r: Region, d: Department): GeoDep
  {
    GeoDep(r.code, r.name, d.code, d.name)
  }

  /** `g` is the output row of some region and some department of that region. */
  ghost predicate FromMatchingPair(regions: seq<Region>, departments: seq<Department>, g: GeoDep)
  {
    exists r, d :: r in regions && d in departments && d.regionCode == r.code && g == Pair(r, d)
  }

  /** The rows one region contributes: one per department whose `region_code` is its code. */
  function JoinRegion(r: Region, departments: seq<Department>): (rows: seq<GeoDep>)
    ensures forall g :: g in rows <==> exists d :: d in departments && d.regionCode == r.code && g == Pair(r, d)
  {
    if departments == [] then []
    else
      var head := if departments[0].regionCode == r.code then [Pair(r, departments[0])] else [];
      assert forall d :: d in departments <==> d == departments[0] || d in departments[1..];
      head + JoinRegion(r, departments[1..])
  }

  /** The merged region/department table. Every row comes from a region and a
      department with `region_code` equal to the region's code, mapped field for
      field, and every such pair yields a row. */
  function MergeRegionsAndDepartments(regions: seq<Region>, departments: seq<Department>): (rows: seq<GeoDep>)
    ensures forall g :: g in rows <==> FromMatchingPair(regions, departments, g)
  {
    if regions == [] then []
    else
      var rest := MergeRegionsAndDepartments(regions[1..], departments);
      assert forall r :: r in regions <==> r == regions[0] || r in regions[1..];
      JoinRegion(regions[0], departments) + rest
  }

  /** The codes of a region table. */
  function RegionCodes(regions: seq<Region>): set<string>
  {
    set r | r in regions :: r.code
  }

  /** No two rows of the region table share a code. */
  predicate UniqueCodes(regions: seq<Region>)
  {
    forall i, j :: 0 <= i < j < |regions| ==> regions[i].code != regions[j].code
  }

  /** The departments whose `region_code` is one of `codes`, in table order. */
  function DepartmentsIn(codes: set<string>, departments: seq<Department>): (ds: seq<Department>)
    ensures forall d :: d in ds <==> d in departments && d.regionCode in codes
  {
    if departments == [] then []
    else
      var rest := DepartmentsIn(codes, departments[1..]);
      assert forall d :: d in departments <==> d == departments[0] || d in departments[1..];
      if departments[0].regionCode in codes then [departments[0]] + rest else rest
  }

  /** How many departments have `region_code == code`. */
  function CountInRegion(code: string, departments: seq<Department>): nat
  {
    if departments == [] then 0
    else (if departments[0].regionCode == code then 1 else 0) + CountInRegion(code, departments[1..])
  }

  /** A region contributes exactly as many rows as it has departments. */
  lemma {:induction false} JoinRegionSize(r: Region, departments: seq<Department>)
    ensures |JoinRegion(r, departments)| == CountInRegion(r.code, departments)
  {
    if departments != [] {
      JoinRegionSize(r, departments[1..]);
    }
  }

  /** With no codes to match, no department is kept. */
  lemma {:induction false} DepartmentsInNone(departments: seq<Department>)
    ensures DepartmentsIn({}, departments) == []
  {
    if departments != [] {
      DepartmentsInNone(departments[1..]);
    }
  }

  /** Adding one new code to the filter adds exactly that code's departments. */
  lemma {:induction false} DepartmentsInSplit(code: string, codes: set<string>, departments: seq<Department>)
    requires code !in codes
    ensures |DepartmentsIn(codes + {code}, departments)| == CountInRegion(code, departments) + |DepartmentsIn(codes, departments)|
  {
    if departments != [] {
      DepartmentsInSplit(code, codes, departments[1..]);
    }
  }

  /** Join cardinality: when region codes are unique, the merged table has
      exactly one row per department whose `region_code` matches some region. */
  lemma {:induction false} MergeSize(regions: seq<Region>, departments: seq<Department>)
    requires UniqueCodes(regions)
    ensures |MergeRegionsAndDepartments(regions, departments)| == |DepartmentsIn(RegionCodes(regions), departments)|
  {
    if regions == [] {
      assert RegionCodes(regions) == {};
      DepartmentsInNone(departments);
    } else {
      var tail := regions[1..];
      MergeSize(tail, departments);
      JoinRegionSize(regions[0], departments);
      assert RegionCodes(regions) == RegionCodes(tail) + {regions[0].code} by {
        assert forall r :: r in regions <==> r == regions[0] || r in tail;
      }
      assert regions[0].code !in RegionCodes(tail) by {
        forall r | r in tail
          ensures r.code != regions[0].code
        {
          var k :| 0 <= k < |tail| && tail[k] == r;
          assert regions[k + 1] == r;
        }
      }
      DepartmentsInSplit(regions[0].code, RegionCodes(tail), departments);
    }
  }

  /** The region row `g` was renamed from. */
  function RegionOf(g: GeoDep): Region
  {
    Region(g.codeReg, g.nameReg)
  }

  /** The department row `g` was renamed from: its `region_code` is `g`'s region code. */
  function DepartmentOf(g: GeoDep): Department
  {
    Department(g.codeDep, g.nameDep, g.codeReg)
  }

  /** The rows of one region `r` hold `g` once per department that renames to
      `g`, and only when `g` carries `r`'s code and name. */
  lemma {:induction false} JoinRegionCount(r: Region, departments: seq<Department>, g: GeoDep)
    ensures multiset(JoinRegion(r, departments))[g]
            == if RegionOf(g) == r then multiset(departments)[DepartmentOf(g)] else 0
  {
    if departments != [] {
      assert departments == [departments[0]] + departments[1..];
      JoinRegionCount(r, departments[1..], g);
    }
  }

  /** Row multiplicities of the merged table: a row occurs once for each
      copy of the region it names times each copy of the department it names
      (whose `region_code` is then the region's code). */
  lemma {:induction false} MergeCount(regions: seq<Region>, departments: seq<Department>, g: GeoDep)
    ensures multiset(MergeRegionsAndDepartments(regions, departments))[g]
            == multiset(regions)[RegionOf(g)] * multiset(departments)[DepartmentOf(g)]
  {
    if regions != [] {
      var head := JoinRegion(regions[0], departments);
      var rest := MergeRegionsAndDepartments(regions[1..], departments);
      assert MergeRegionsAndDepartments(regions, departments) == head + rest;
      assert multiset(head + rest)[g] == multiset(head)[g] + multiset(rest)[g];
      JoinRegionCount(regions[0], departments, g);
      MergeCount(regions[1..], departments, g);
      CountCons(regions, RegionOf(g));
      Distribute(if regions[0] == RegionOf(g) then 1 else 0, multiset(regions[1..])[RegionOf(g)],
                 multiset(departments)[DepartmentOf(g)]);
    }
  }
}
