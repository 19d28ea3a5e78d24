/**
  The `calculateRate` closure of hooks/use-swat-team-calculator.ts: resolve
  a role, a seniority level, a workload option and a duration option by id,
  then apply the SWAT-team formula with its fixed 20% team discount; an
  incomplete selection prices at 0.
 */
module SwatTeamCalculator {
  import opened Tables
  import Calculations
  import JsMath

  /** The roles used when the table cannot be fetched. */
  const FallbackRoles: seq<Role> := [
    Role("database-developer", "Database Developer", 8000.0),
    Role("full-stack-developer", "Full Stack Developer", 10000.0),
    Role("frontend-developer", "Frontend Developer", 9000.0),
    Role("backend-developer", "Backend Developer", 9500.0),
    Role("quality-assurance", "Quality Assurance", 7000.0)
  ]

  /** The seniority levels used when the table cannot be fetched. */
  const FallbackSeniorityLevels: seq<SeniorityLevel> := [
    SeniorityLevel("intermediate", "Intermediate", 1.0),
    SeniorityLevel("advanced", "Advanced", 1.25),
    SeniorityLevel("expert", "Expert", 1.6)
  ]

  /** The workload options used when the table cannot be fetched. */
  const FallbackWorkloadOptions: seq<WorkloadOption> := [
    WorkloadOption("2-days", "2 days/week (40%)", 40.0),
    WorkloadOption("3-days", "3 days/week (60%)", 60.0),
    WorkloadOption("4-days", "4 days/week (80%)", 80.0),
    WorkloadOption("full-time", "Full-time (100%)", 100.0)
  ]

  /** The duration options used when the table cannot be fetched. */
  const FallbackDurationOptions: seq<DurationOption> := [
    DurationOption("1-month", "1 month", 1.0, 0.0),
    DurationOption("2-months", "2 months", 2.0, 5.0),
    DurationOption("3-months", "3 months", 3.0, 10.0),
    DurationOption("4-months", "4 months", 4.0, 15.0),
    DurationOption("6-months", "6 months", 6.0, 15.0),
    DurationOption("12-months", "12 months", 12.0, 15.0)
  ]

  /** `calculateRate(roleId, seniorityId, workloadId, durationId)` over the
      loaded tables. An empty id or an id missing from its table gives 0;
      otherwise the rate is the standalone SWAT-team formula, with its
      default 20% team discount, applied to the entries `find` returns. */
  function CalculateRate(roles: seq<Role>, seniorityLevels: seq<SeniorityLevel>,
                         workloadOptions: seq<WorkloadOption>, durationOptions: seq<DurationOption>,
                         roleId: string, seniorityId: string, workloadId: string, durationId: string): (rate: int)
    ensures roleId == [] || seniorityId == [] || workloadId == [] || durationId == [] ==> rate == 0
    ensures (forall i :: 0 <= i < |roles| ==> roles[i].id != roleId) ==> rate == 0
    ensures (forall i :: 0 <= i < |seniorityLevels| ==> seniorityLevels[i].id != seniorityId) ==> rate == 0
    ensures (forall i :: 0 <= i < |workloadOptions| ==> workloadOptions[i].id != workloadId) ==> rate == 0
    ensures (forall i :: 0 <= i < |durationOptions| ==> durationOptions[i].id != durationId) ==> rate == 0
    ensures roleId != [] && seniorityId != [] && workloadId != [] && durationId != [] ==>
              var role := Find(roles, RoleId, roleId);
              var seniority := Find(seniorityLevels, SeniorityId, seniorityId);
              var workload := Find(workloadOptions, WorkloadId, workloadId);
              var duration := Find(durationOptions, DurationId, durationId);
              role.Some? && seniority.Some? && workload.Some? && duration.Some? ==>
                rate == Calculations.SwatTeamRate(role.value.baseRate, seniority.value.multiplier,
                                                  workload.value.percentage, duration.value.discount)
  {
    if roleId == [] || seniorityId == [] || workloadId == [] || durationId == [] then 0
    else
      var role := Find(roles, RoleId, roleId);
      var seniority := Find(seniorityLevels, SeniorityId, seniorityId);
      var workload := Find(workloadOptions, WorkloadId, workloadId);
      var duration := Find(durationOptions, DurationId, durationId);
      if role.None? || seniority.None? || workload.None? || duration.None? then 0
      else
        PriceSelection(role.value, seniority.value, workload.value, duration.value)
  }

  /** The closure's formula on resolved entries: seniority, workload
      fraction, duration discount and the literal 20% team discount (a factor
      of 0.8), rounded once. It is the standalone SWAT-team formula at its
      default team discount. */
  function PriceSelection(role: Role, seniority: SeniorityLevel, workload: WorkloadOption,
                          duration: DurationOption): (rate: int)
    ensures rate == Calculations.SwatTeamRate(role.baseRate, seniority.multiplier,
                                              workload.percentage, duration.discount)
  {
    var baseWithSeniority := role.baseRate * seniority.multiplier;
    var withWorkload := baseWithSeniority * (workload.percentage / 100.0);
    var withDurationDiscount := withWorkload * (1.0 - duration.discount / 100.0);
    var withSwatDiscount := withDurationDiscount * 0.8;
    FixedDiscountIsDefault(role.baseRate, seniority.multiplier, workload.percentage, duration.discount);
    JsMath.Round(withSwatDiscount)
  }

  /** The closure's literal factor 0.8 is the standalone formula's default
      team discount. */
  lemma FixedDiscountIsDefault(baseRate: real, seniorityMultiplier: real,
                               workloadPercentage: real, durationDiscount: real)
    ensures Calculations.SwatTeamRate(baseRate, seniorityMultiplier, workloadPercentage, durationDiscount)
         == JsMath.Round(baseRate * seniorityMultiplier * (workloadPercentage / 100.0)
                         * (1.0 - durationDiscount / 100.0) * 0.8)
  {
    var x := baseRate * seniorityMultiplier * (workloadPercentage / 100.0) * (1.0 - durationDiscount / 100.0);
    assert x * (1.0 - Calculations.SWAT_TEAM_DISCOUNT) == x * 0.8;
  }

  /** The entries that price a selection are the FIRST ones with the chosen
      ids: with duplicate ids, the earliest entry of each table wins. */
  lemma CalculateRateUsesFirstMatches(roles: seq<Role>, seniorityLevels: seq<SeniorityLevel>,
                                      workloadOptions: seq<WorkloadOption>,
                                      durationOptions: seq<DurationOption>,
                                      roleId: string, seniorityId: string, workloadId: string,
                                      durationId: string, i: int, j: int, k: int, l: int)
    requires roleId != [] && seniorityId != [] && workloadId != [] && durationId != []
    requires FirstMatch(roles, RoleId, roleId, i)
    requires FirstMatch(seniorityLevels, SeniorityId, seniorityId, j)
    requires FirstMatch(workloadOptions, WorkloadId, workloadId, k)
    requires FirstMatch(durationOptions, DurationId, durationId, l)
    ensures CalculateRate(roles, seniorityLevels, workloadOptions, durationOptions,
                          roleId, seniorityId, workloadId, durationId)
         == Calculations.SwatTeamRate(roles[i].baseRate, seniorityLevels[j].multiplier,
                                      workloadOptions[k].percentage, durationOptions[l].discount)
  {
    FindReturnsFirst(roles, RoleId, roleId, i);
    FindReturnsFirst(seniorityLevels, SeniorityId, seniorityId, j);
    FindReturnsFirst(workloadOptions, WorkloadId, workloadId, k);
    FindReturnsFirst(durationOptions, DurationId, durationId, l);
  }

  /** With non-negative factors, at most full time and a non-negative
      duration discount, a SWAT quote never exceeds the undiscounted
      full-time rate `round(base × seniority)` of the same role and level. */
  lemma CalculateRateAtMostFullRate(roles: seq<Role>, seniorityLevels: seq<SeniorityLevel>,
                                    workloadOptions: seq<WorkloadOption>,
                                    durationOptions: seq<DurationOption>,
                                    roleId: string, seniorityId: string, workloadId: string,
                                    durationId: string, i: int, j: int, k: int, l: int)
    requires roleId != [] && seniorityId != [] && workloadId != [] && durationId != []
    requires FirstMatch(roles, RoleId, roleId, i)
    requires FirstMatch(seniorityLevels, SeniorityId, seniorityId, j)
    requires FirstMatch(workloadOptions, WorkloadId, workloadId, k)
    requires FirstMatch(durationOptions, DurationId, durationId, l)
    requires roles[i].baseRate >= 0.0 && seniorityLevels[j].multiplier >= 0.0
    requires 0.0 <= workloadOptions[k].percentage <= 100.0
    requires durationOptions[l].discount >= 0.0
    ensures CalculateRate(roles, seniorityLevels, workloadOptions, durationOptions,
                          roleId, seniorityId, workloadId, durationId)
         <= JsMath.Round(roles[i].baseRate * seniorityLevels[j].multiplier)
  {
    CalculateRateUsesFirstMatches(roles, seniorityLevels, workloadOptions, durationOptions,
                                  roleId, seniorityId, workloadId, durationId, i, j, k, l);
    Calculations.SwatRateAtMostFullRate(roles[i].baseRate, seniorityLevels[j].multiplier,
                                        workloadOptions[k].percentage, durationOptions[l].discount,
                                        Calculations.SWAT_TEAM_DISCOUNT);
  }

  /** The fallback tables have distinct ids, workloads in (0, 100] and
      duration discounts that never shrink as the engagement gets longer. */
  lemma FallbackTablesWellFormed()
    ensures DistinctBy(FallbackRoles, RoleId)
    ensures DistinctBy(FallbackSeniorityLevels, SeniorityId)
    ensures DistinctBy(FallbackWorkloadOptions, WorkloadId)
    ensures DistinctBy(FallbackDurationOptions, DurationId)
    ensures forall i :: 0 <= i < |FallbackWorkloadOptions| ==>
              0.0 < FallbackWorkloadOptions[i].percentage <= 100.0
    ensures forall i, j ::
              (0 <= i < |FallbackDurationOptions| && 0 <= j < |FallbackDurationOptions| &&
               FallbackDurationOptions[i].months <= FallbackDurationOptions[j].months) ==>
              FallbackDurationOptions[i].discount <= FallbackDurationOptions[j].discount
  {
    FallbackIdsDistinct();
    FallbackDiscountsMonotone();
  }

  lemma FallbackIdsDistinct()
    ensures DistinctBy(FallbackRoles, RoleId)
    ensures DistinctBy(FallbackSeniorityLevels, SeniorityId)
    ensures DistinctBy(FallbackWorkloadOptions, WorkloadId)
    ensures DistinctBy(FallbackDurationOptions, DurationId)
  {
  }

  lemma FallbackDiscountsMonotone()
    ensures forall i, j ::
              (0 <= i < |FallbackDurationOptions| && 0 <= j < |FallbackDurationOptions| &&
               FallbackDurationOptions[i].months <= FallbackDurationOptions[j].months) ==>
              FallbackDurationOptions[i].discount <= FallbackDurationOptions[j].discount
  {
  }

  /** Backend developer, advanced, four days a week, three months:
      9500 × 1.25 × 0.8 × 0.9 × 0.8 = 6840. */
  lemma FallbackWorkedExample()
    ensures CalculateRate(FallbackRoles, FallbackSeniorityLevels, FallbackWorkloadOptions,
                          FallbackDurationOptions, "backend-developer", "advanced", "4-days", "3-months")
         == 6840
  {
    CalculateRateUsesFirstMatches(FallbackRoles, FallbackSeniorityLevels, FallbackWorkloadOptions,
                                  FallbackDurationOptions, "backend-developer", "advanced", "4-days",
                                  "3-months", 3, 1, 2, 2);
  }
}
