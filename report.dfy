/** The mutation-testing report the dashboard reads, and what its summary page
    and mutant table compute from it: per-contract status tallies, the
    mutation score or "N/A", the overall counters, and the row filter. */
module Report {
  import opened Strings
  import opened Wrappers

  /** A field of a mutant record: its text, or None when it is null or missing. */
  type Field = Option<string>

  /** One mutant of the report, with the fields the dashboard reads. */
  datatype Mutant = Mutant(
    id: Field, file: Field, functionName: Field, start: Field, end: Field,
    startLine: Field, endLine: Field, original: Field, replace: Field,
    operator: Field, status: Field, testingTime: Field)

  /** The report's mutants of one contract, under the contract's name. */
  datatype Contract = Contract(name: string, mutants: seq<Mutant>)

  /** A status JavaScript treats as false: missing, null or empty. */
  predicate IsUntested(status: Field)
  {
    status == None || status == Some("")
  }

  /** `m.status || "untested"`, the text of a mutant's status cell. */
  function StatusLabel(status: Field): (shown: string)
    ensures shown != []
    ensures IsUntested(status) <==> shown == "untested" && status != Some("untested")
    ensures !IsUntested(status) ==> shown == status.value
  {
    if IsUntested(status) then "untested" else status.value
  }

  /** The number of mutants whose status is exactly `name`. */
  function CountStatus(ms: seq<Mutant>, name: string): nat
  {
    if ms == [] then 0 else (if ms[0].status == Some(name) then 1 else 0) + CountStatus(ms[1..], name)
  }

  /** The number of mutants whose status is falsy. */
  function CountUntested(ms: seq<Mutant>): nat
  {
    if ms == [] then 0 else (if IsUntested(ms[0].status) then 1 else 0) + CountUntested(ms[1..])
  }

  datatype Tally = Tally(killed: nat, live: nat, stillborn: nat, timedout: nat, untested: nat)

  /** The five counts a contract's row shows. */
  function TallyOf(ms: seq<Mutant>): Tally
  {
    Tally(CountStatus(ms, "killed"), CountStatus(ms, "live"), CountStatus(ms, "stillborn"),
          CountStatus(ms, "timedout"), CountUntested(ms))
  }

  function TallySum(t: Tally): nat
  {
    t.killed + t.live + t.stillborn + t.timedout + t.untested
  }

  /** One of the five statuses the summary counts. */
  predicate IsCounted(status: Field)
  {
    status in {Some("killed"), Some("live"), Some("stillborn"), Some("timedout")} || IsUntested(status)
  }

  /** The five counts never exceed the number of mutants, each mutant is
      counted at most once, and exactly the mutants with another status
      are counted nowhere. */
  lemma {:induction false} TallyBound(ms: seq<Mutant>)
    ensures TallySum(TallyOf(ms)) <= |ms|
    ensures TallySum(TallyOf(ms)) == |ms| <==> forall i :: 0 <= i < |ms| ==> IsCounted(ms[i].status)
  {
    if ms != [] {
      TallyBound(ms[1..]);
      assert forall i :: 1 <= i < |ms| ==> ms[i] == ms[1..][i - 1];
      if !IsCounted(ms[0].status) {
        assert TallySum(TallyOf(ms)) == TallySum(TallyOf(ms[1..]));
      }
    }
  }

  /** The mutation score: killed over killed plus live, or "N/A" when no
      mutant was killed or survived. The percentage itself is left to the
      caller's number formatting. */
  datatype Score = NotApplicable | Percentage(killed: nat, base: nat)

  function MutationScore(killed: nat, live: nat): (s: Score)
    ensures s.NotApplicable? <==> killed + live == 0
    ensures s.Percentage? ==> s.killed == killed && s.base == killed + live && s.base > 0 && s.killed <= s.base
  {
    if live + killed > 0 then Percentage(killed, live + killed) else NotApplicable
  }

  /** A row of the summary table. */
  datatype Row = Row(name: string, total: nat, tally: Tally, score: Score)

  function SummaryRow(c: Contract): Row
  {
    var t := TallyOf(c.mutants);
    Row(c.name, |c.mutants|, t, MutationScore(t.killed, t.live))
  }

  /** The totals the summary accumulates, contract by contract in report order. */
  function TotalMutants(data: seq<Contract>): nat
  {
    if data == [] then 0 else TotalMutants(data[..|data| - 1]) + |data[|data| - 1].mutants|
  }

  function TotalKilled(data: seq<Contract>): nat
  {
    if data == [] then 0 else TotalKilled(data[..|data| - 1]) + TallyOf(data[|data| - 1].mutants).killed
  }

  function TotalLive(data: seq<Contract>): nat
  {
    if data == [] then 0 else TotalLive(data[..|data| - 1]) + TallyOf(data[|data| - 1].mutants).live
  }

  lemma {:induction false} TotalsBound(data: seq<Contract>)
    ensures TotalKilled(data) + TotalLive(data) <= TotalMutants(data)
  {
    if data != [] {
      TotalsBound(data[..|data| - 1]);
      TallyBound(data[|data| - 1].mutants);
    }
  }

  /** The overall score is "N/A" exactly when every contract's score is. */
  lemma {:induction false} OverallNotApplicable(data: seq<Contract>)
    ensures MutationScore(TotalKilled(data), TotalLive(data)).NotApplicable?
        <==> forall i :: 0 <= i < |data| ==> SummaryRow(data[i]).score.NotApplicable?
  {
    if data != [] {
      var init := data[..|data| - 1];
      OverallNotApplicable(init);
      assert forall i :: 0 <= i < |init| ==> init[i] == data[i];
    }
  }

  datatype Summary = Summary(contracts: nat, totalMutants: nat, overallKilled: nat, overallLive: nat)

  /** `loadSummary`'s pass over the contracts: one table row per contract and
      the running counters of contracts, mutants, killed and live. */
  method Summarize(data: seq<Contract>) returns (rows: seq<Row>, s: Summary)
    ensures |rows| == |data|
    ensures forall i :: 0 <= i < |data| ==> rows[i] == SummaryRow(data[i])
    ensures s == Summary(|data|, TotalMutants(data), TotalKilled(data), TotalLive(data))
    ensures s.overallKilled + s.overallLive <= s.totalMutants
  {
    var overallKilled, overallLive, totalMutantsCount, contractsCount := 0, 0, 0, 0;
    rows := [];
    for i := 0 to |data|
      invariant contractsCount == i && |rows| == i
      invariant forall j :: 0 <= j < i ==> rows[j] == SummaryRow(data[j])
      invariant totalMutantsCount == TotalMutants(data[..i])
      invariant overallKilled == TotalKilled(data[..i])
      invariant overallLive == TotalLive(data[..i])
    {
      assert data[..i + 1][..i] == data[..i];
      contractsCount := contractsCount + 1;
      var mutants := data[i].mutants;
      totalMutantsCount := totalMutantsCount + |mutants|;
      var row := SummaryRow(data[i]);
      overallKilled := overallKilled + row.tally.killed;
      overallLive := overallLive + row.tally.live;
      rows := rows + [row];
    }
    assert data[..|data|] == data;
    TotalsBound(data);
    s := Summary(contractsCount, totalMutantsCount, overallKilled, overallLive);
  }

  /** `filterMutants`' test for one table row: the operator and function
      cells contain their filters and the status cell equals the status
      filter unless that is empty, all compared in lower case. */
  predicate RowShown(operatorCell: string, functionCell: string, statusCell: string,
                     operatorFilter: string, functionFilter: string, statusFilter: string)
  {
    var operatorText := Lower(operatorFilter);
    var functionText := Lower(functionFilter);
    var status := Lower(statusFilter);
    && Contains(Lower(functionCell), functionText)
    && (status == [] || Lower(statusCell) == status)
    && Contains(Lower(operatorCell), operatorText)
  }

  /** With every filter empty, every row is shown. */
  lemma EmptyFiltersShowEveryRow(operatorCell: string, functionCell: string, statusCell: string)
    ensures RowShown(operatorCell, functionCell, statusCell, "", "", "")
  {
    ContainsEmpty(Lower(operatorCell));
    ContainsEmpty(Lower(functionCell));
  }

  /** A non-empty status filter shows only rows whose status equals it,
      ignoring case, and an empty text filter never hides a row. */
  lemma StatusFilterIsExact(operatorCell: string, functionCell: string, statusCell: string,
                            functionFilter: string, statusFilter: string)
    requires statusFilter != []
    ensures RowShown(operatorCell, functionCell, statusCell, "", functionFilter, statusFilter)
        <==> Contains(Lower(functionCell), Lower(functionFilter)) && Lower(statusCell) == Lower(statusFilter)
  {
    ContainsEmpty(Lower(operatorCell));
  }

  /** Filtering ignores case: lower-casing the filters first changes nothing. */
  lemma FiltersIgnoreCase(operatorCell: string, functionCell: string, statusCell: string,
                          operatorFilter: string, functionFilter: string, statusFilter: string)
    ensures RowShown(operatorCell, functionCell, statusCell, operatorFilter, functionFilter, statusFilter)
        == RowShown(operatorCell, functionCell, statusCell,
                    Lower(operatorFilter), Lower(functionFilter), Lower(statusFilter))
  {
    LowerIdempotent(operatorFilter);
    LowerIdempotent(functionFilter);
    LowerIdempotent(statusFilter);
  }

  /** A mutant with a falsy status is listed as "untested", so the status
      filter "untested" shows it. */
  lemma UntestedMutantMatchesUntested(m: Mutant, operatorCell: string, functionCell: string)
    requires IsUntested(m.status)
    ensures RowShown(operatorCell, functionCell, StatusLabel(m.status), "", "", "untested")
  {
    ContainsEmpty(Lower(operatorCell));
    ContainsEmpty(Lower(functionCell));
    assert Lower("untested") == "untested";
  }
}
