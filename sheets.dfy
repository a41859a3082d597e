/** The worksheet helpers of commands.js that do not talk to Excel:
    choosing a sheet name that is not taken (`getUniqueSheetName`) and
    choosing which sheet to rename and activate after every sheet of the
    template was inserted (`insertAllSheetsFromBase64`). The workbook's sheet
    names, which the source loads from Excel, are parameters here. */
module Sheets {
  import opened Text

  /** The name tried on attempt `i`: `${desired} (${i})`. */
  function Candidate(desired: string, i: nat): string
  {
    desired + " (" + NatToString(i) + ")"
  }

  lemma CandidateInjective(desired: string, i: nat, j: nat)
    requires Candidate(desired, i) == Candidate(desired, j)
    ensures i == j
  {
    LabelInjective(desired + " (", ")", i, j);
  }

  /** The names attempts 2 .. i - 1 tried. */
  ghost function Passed(desired: string, i: nat): set<string>
  {
    if i <= 2 then {} else Passed(desired, i - 1) + {Candidate(desired, i - 1)}
  }

  lemma {:induction false} NotYetPassed(desired: string, i: nat, k: nat)
    requires k <= i
    ensures Candidate(desired, i) !in Passed(desired, k)
  {
    if k > 2 {
      NotYetPassed(desired, i, k - 1);
      if Candidate(desired, i) == Candidate(desired, k - 1) {
        CandidateInjective(desired, i, k - 1);
      }
    }
  }

  /** getUniqueSheetName: `desired` itself when no sheet has that name,
      otherwise `desired (i)` for the least i >= 2 whose name is free. The
      loop ends because every name it passes over belongs to the finite set of
      existing names, and distinct i give distinct names. */
  method UniqueSheetName(names: seq<string>, desired: string) returns (name: string)
    ensures name !in names
    ensures desired !in names ==> name == desired
    ensures desired in names ==>
      exists i :: 2 <= i && name == Candidate(desired, i) &&
        forall j :: 2 <= j < i ==> Candidate(desired, j) in names
  {
    var existing := set n | n in names;
    if desired !in existing {
      return desired;
    }
    var i := 2;
    while Candidate(desired, i) in existing
      invariant 2 <= i
      invariant Passed(desired, i) <= existing
      invariant forall j :: 2 <= j < i ==> Candidate(desired, j) in existing
      decreases |existing - Passed(desired, i)|
    {
      NotYetPassed(desired, i, i);
      var c := Candidate(desired, i);
      assert Passed(desired, i + 1) == Passed(desired, i) + {c};
      assert existing - Passed(desired, i + 1) == (existing - Passed(desired, i)) - {c};
      i := i + 1;
    }
    name := Candidate(desired, i);
  }

  /** No name occurs twice (Excel keeps sheet names distinct). */
  predicate Distinct(names: seq<string>)
  {
    forall i, j :: 0 <= i < j < |names| ==> names[i] != names[j]
  }

  /** The sheet that insertAllSheetsFromBase64 ends with: its position, its
      final name and the workbook's sheet names afterwards. */
  datatype Activation = Activation(index: nat, name: string, sheets: seq<string>)

  const NothingInserted := "No sheets were inserted (unexpected)."

  /** insertAllSheetsFromBase64 after the insertion: `countBefore` sheets
      existed before, `after` are the names now. When the count did not grow
      it fails; otherwise the first inserted sheet, at index `countBefore`, is
      renamed to a free name derived from `renameTo` (kept as is when
      `renameTo` is empty) and is the only sheet with its final name, so
      activating that name activates it. */
  method InsertAllSheets(countBefore: nat, after: seq<string>, renameTo: string)
    returns (r: Result<Activation, string>)
    ensures r.Failure? <==> |after| <= countBefore
    ensures r.Failure? ==> r.error == NothingInserted
    ensures r.Success? ==> r.value.index == countBefore < |r.value.sheets| == |after|
    ensures r.Success? ==> r.value.sheets[countBefore] == r.value.name
    ensures r.Success? ==> forall k :: 0 <= k < |after| && k != countBefore ==> r.value.sheets[k] == after[k]
    ensures r.Success? && renameTo == "" ==> r.value.name == after[countBefore]
    ensures r.Success? && renameTo != "" ==> r.value.name !in after
    ensures r.Success? && renameTo != "" && renameTo !in after ==> r.value.name == renameTo
    ensures r.Success? && (renameTo != "" || Distinct(after)) ==>
      forall k :: 0 <= k < |r.value.sheets| && r.value.sheets[k] == r.value.name ==> k == countBefore
  {
    if |after| <= countBefore {
      return Failure(NothingInserted);
    }
    var finalName := after[countBefore];
    var sheets := after;
    if renameTo != "" {
      finalName := UniqueSheetName(after, renameTo);
      sheets := after[countBefore := finalName];
    }
    r := Success(Activation(countBefore, finalName, sheets));
  }
}
