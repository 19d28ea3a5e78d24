/**
  The `calculateRate` closure of hooks/use-custom-resource-calculator.ts:
  resolve a region, a role and a seniority level by id, then apply the
  custom-resource formula; an incomplete selection prices at 0.
 */
module CustomResourceCalculator {
  import opened Tables
  import Calculations
  import JsMath

  /** The regions used when the table cannot be fetched. */
  const FallbackRegions: seq<Region> := [
    Region("euro-asia", "Euro Asia", 1.0),
    Region("middle-east", "Middle East", 1.15),
    Region("europe", "Europe", 1.3),
    Region("north-america", "North America", 1.4)
  ]

  /** The roles used when the table cannot be fetched. */
  const FallbackRoles: seq<Role> := [
    Role("database-developer", "Database Developer", 8000.0),
    Role("full-stack-developer", "Full Stack Developer", 10000.0),
    Role("frontend-developer", "Frontend Developer", 9000.0),
    Role("backend-developer", "Backend Developer", 9500.0),
    Role("mobile-developer", "Mobile Developer", 9500.0),
    Role("devops-engineer", "DevOps Engineer", 11000.0),
    Role("quality-assurance", "Quality Assurance", 7000.0),
    Role("ui-ux-designer", "UI/UX Designer", 8500.0),
    Role("project-manager", "Project Manager", 12000.0),
    Role("business-analyst", "Business Analyst", 9000.0)
  ]

  /** The seniority levels used when the table cannot be fetched. */
  const FallbackSeniorityLevels: seq<SeniorityLevel> := [
    SeniorityLevel("intermediate", "Intermediate", 1.0),
    SeniorityLevel("advanced", "Advanced", 1.25),
    SeniorityLevel("expert", "Expert", 1.6)
  ]

  /** `calculateRate(regionId, roleId, seniorityId)` over the loaded tables.
      An empty id or an id missing from its table gives 0; otherwise the
      rate is the standalone custom-resource formula applied to the entries
      `find` returns. */
  function CalculateRate(regions: seq<Region>, roles: seq<Role>, seniorityLevels: seq<SeniorityLevel>,
                         regionId: string, roleId: string, seniorityId: string): (rate: int)
    ensures regionId == [] || roleId == [] || seniorityId == [] ==> rate == 0
    ensures (forall i :: 0 <= i < |regions| ==> regions[i].id != regionId) ==> rate == 0
    ensures (forall i :: 0 <= i < |roles| ==> roles[i].id != roleId) ==> rate == 0
    ensures (forall i :: 0 <= i < |seniorityLevels| ==> seniorityLevels[i].id != seniorityId) ==> rate == 0
    ensures regionId != [] && roleId != [] && seniorityId != [] ==>
              var region := Find(regions, RegionId, regionId);
              var role := Find(roles, RoleId, roleId);
              var seniority := Find(seniorityLevels, SeniorityId, seniorityId);
              region.Some? && role.Some? && seniority.Some? ==>
                rate == Calculations.CustomResourceRate(role.value.baseRate, region.value.multiplier,
                                                        seniority.value.multiplier)
  {
    if regionId == [] || roleId == [] || seniorityId == [] then 0
    else
      var region := Find(regions, RegionId, regionId);
      var role := Find(roles, RoleId, roleId);
      var seniority := Find(seniorityLevels, SeniorityId, seniorityId);
      if region.None? || role.None? || seniority.None? then 0
      else
        PriceSelection(region.value, role.value, seniority.value)
  }

  /** The closure's formula on resolved entries (it repeats the arithmetic
      rather than calling the standalone function): the same value as the
      standalone custom-resource formula. */
  function PriceSelection(region: Region, role: Role, seniority: SeniorityLevel): (rate: int)
    ensures rate == Calculations.CustomResourceRate(role.baseRate, region.multiplier, seniority.multiplier)
  {
    JsMath.Round(role.baseRate * region.multiplier * seniority.multiplier)
  }

  /** The entries that price a selection are the FIRST ones with the chosen
      ids: with duplicate ids, the earliest entry of each table wins. */
  lemma CalculateRateUsesFirstMatches(regions: seq<Region>, roles: seq<Role>,
                                      seniorityLevels: seq<SeniorityLevel>,
                                      regionId: string, roleId: string, seniorityId: string,
                                      i: int, j: int, k: int)
    requires regionId != [] && roleId != [] && seniorityId != []
    requires FirstMatch(regions, RegionId, regionId, i)
    requires FirstMatch(roles, RoleId, roleId, j)
    requires FirstMatch(seniorityLevels, SeniorityId, seniorityId, k)
    ensures CalculateRate(regions, roles, seniorityLevels, regionId, roleId, seniorityId)
         == Calculations.CustomResourceRate(roles[j].baseRate, regions[i].multiplier,
                                            seniorityLevels[k].multiplier)
  {
    FindReturnsFirst(regions, RegionId, regionId, i);
    FindReturnsFirst(roles, RoleId, roleId, j);
    FindReturnsFirst(seniorityLevels, SeniorityId, seniorityId, k);
  }

  /** A non-zero rate is only ever produced for a complete selection. */
  lemma NonZeroRateMeansResolved(regions: seq<Region>, roles: seq<Role>,
                                 seniorityLevels: seq<SeniorityLevel>,
                                 regionId: string, roleId: string, seniorityId: string)
    requires CalculateRate(regions, roles, seniorityLevels, regionId, roleId, seniorityId) != 0
    ensures regionId != [] && roleId != [] && seniorityId != []
    ensures exists i :: 0 <= i < |regions| && regions[i].id == regionId
    ensures exists j :: 0 <= j < |roles| && roles[j].id == roleId
    ensures exists k :: 0 <= k < |seniorityLevels| && seniorityLevels[k].id == seniorityId
  {
  }

  /** The fallback tables have distinct ids and multipliers of at least 1. */
  lemma FallbackTablesWellFormed()
    ensures DistinctBy(FallbackRegions, RegionId)
    ensures DistinctBy(FallbackRoles, RoleId)
    ensures DistinctBy(FallbackSeniorityLevels, SeniorityId)
    ensures forall i :: 0 <= i < |FallbackRegions| ==> FallbackRegions[i].multiplier >= 1.0
    ensures forall i :: 0 <= i < |FallbackSeniorityLevels| ==> FallbackSeniorityLevels[i].multiplier >= 1.0
  {
    FallbackRolesDistinct();
  }

  lemma FallbackRolesDistinct()
    ensures DistinctBy(FallbackRoles, RoleId)
  {
  }

  /** Middle East, full-stack developer, advanced: 10000 × 1.15 × 1.25 = 14375. */
  lemma FallbackWorkedExample()
    ensures CalculateRate(FallbackRegions, FallbackRoles, FallbackSeniorityLevels,
                          "middle-east", "full-stack-developer", "advanced") == 14375
  {
    CalculateRateUsesFirstMatches(FallbackRegions, FallbackRoles, FallbackSeniorityLevels,
                                  "middle-east", "full-stack-developer", "advanced", 1, 1, 1);
  }
}
