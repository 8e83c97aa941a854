/** The source selector of ui/src/components/SourceSelector.tsx: a dropdown checklist of
    the two sources. Every change of the selection is reported to the parent
    (`onSourcesChange`); a method's result is the list it reports. */
module SourceSelectorModel {
  import opened Text
  import opened PostTypes
  import opened Toggle

  datatype SourceOption = SourceOption(id: string, name: string)

  /** The `sources` offered, in order. */
  const SourceOptions: seq<SourceOption> := [
    SourceOption("HNEWS", "Hacker News"),
    SourceOption("REDDIT", "Reddit")
  ]

  /** The button text for `n` selected sources. */
  function SourceLabel(n: nat): string {
    if n > 0 then NatToString(n) + " selected" else "Sources"
  }

  class SourceSelector {
    var isOpen: bool
    var selectedSources: seq<string>

    constructor (initialSelected: seq<string>)
      ensures selectedSources == initialSelected && !isOpen
    {
      isOpen := false;
      selectedSources := initialSelected;
    }

    function Label(): string
      reads this
    {
      SourceLabel(|selectedSources|)
    }

    method ToggleDropdown()
      modifies this
      ensures isOpen == !old(isOpen) && selectedSources == old(selectedSources)
    {
      isOpen := !isOpen;
    }

    method ToggleSource(sourceId: string) returns (reported: seq<string>)
      modifies this
      ensures selectedSources == Toggled(old(selectedSources), sourceId) && reported == selectedSources
      ensures isOpen == old(isOpen)
    {
      var newSources := if sourceId in selectedSources then Without(selectedSources, sourceId)
                        else selectedSources + [sourceId];
      selectedSources := newSources;
      reported := newSources;
    }
  }

  /** The offered ids are the values of the source enumeration, in its order. */
  lemma SourceOptionsAreSources()
    ensures |SourceOptions| == |AllSources|
    ensures forall i :: 0 <= i < |SourceOptions| ==> SourceOptions[i].id == SourceValue(AllSources[i])
  {
  }

  /** Toggling offered ids keeps the selection among the offered ids. */
  lemma OfferedStaysOffered(list: seq<string>, id: string)
    requires forall x :: x in list ==> x in {"HNEWS", "REDDIT"}
    requires id in {"HNEWS", "REDDIT"}
    ensures forall x :: x in Toggled(list, id) ==> x in {"HNEWS", "REDDIT"}
  {
    ToggledSpec(list, id);
  }

  lemma SourceLabelLeadingDigit(n: nat)
    ensures SourceLabel(n) != [] && (IsDigit(SourceLabel(n)[0]) <==> n > 0)
  {
    if n > 0 {
      assert SourceLabel(n)[0] == NatToString(n)[0];
    }
  }

  /** "Sources" for none, "n selected" otherwise; different counts give different labels. */
  lemma SourceLabelSpec(n: nat, m: nat)
    ensures SourceLabel(0) == "Sources"
    ensures n > 0 ==> SourceLabel(n) == NatToString(n) + " selected"
    ensures SourceLabel(n) == SourceLabel(m) ==> n == m
  {
    SourceLabelLeadingDigit(n);
    SourceLabelLeadingDigit(m);
    if SourceLabel(n) == SourceLabel(m) && n > 0 && m > 0 {
      NumberPrefixUnique(n, " selected", m, " selected");
    }
  }
}
