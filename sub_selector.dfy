/** The sub-category selector of ui/src/components/SubSelector.tsx: a checklist of five
    subreddits, enabled only while Reddit is among the selected sources. Every change of
    the selection is reported to the parent (`onSubsChange`); a method's result is the
    list it reports. */
module SubSelectorModel {
  import opened Wrappers
  import opened Text
  import opened PostTypes
  import opened Toggle
  import opened Multisets

  /** One entry of `SUB_OPTIONS`; `optionLabel` is its `label` (a reserved word here). */
  datatype SubOption = SubOption(optionLabel: string, value: string)

  /** `SUB_OPTIONS`, in declared order. */
  const SubOptions: seq<SubOption> := [
    SubOption("React.js", "reactjs"),
    SubOption("Python", "Python"),
    SubOption("ArtificialInteligence", "ArtificialInteligence"),
    SubOption("ChatGPT Pro", "ChatGPTPro"),
    SubOption("Local LLaMA", "LocalLLaMA")
  ]

  /** `SUB_OPTIONS.map(option => option.value)`. */
  function OptionValues(): (vs: seq<string>)
    ensures |vs| == |SubOptions|
    ensures forall i :: 0 <= i < |vs| ==> vs[i] == SubOptions[i].value
  {
    seq(|SubOptions|, i requires 0 <= i < |SubOptions| => SubOptions[i].value)
  }

  /** The button text for `n` selected subs. */
  function SubLabel(n: nat): string {
    if n > 0 then NatToString(n) + " Sub" + (if n > 1 then "s" else "") else "Sub-category"
  }

  class SubSelector {
    var selectedSubs: seq<string>
    var isOpen: bool
    var isRedditSelected: bool

    /** The first render; the effect on `selectedSources` then runs as `SourcesChanged`. */
    constructor (initialSelected: seq<string>)
      ensures selectedSubs == initialSelected && !isOpen && !isRedditSelected
    {
      selectedSubs := initialSelected;
      isOpen := false;
      isRedditSelected := false;
    }

    /** `isDisabled`. */
    predicate Disabled()
      reads this
    {
      !isRedditSelected
    }

    function Label(): string
      reads this
    {
      SubLabel(|selectedSubs|)
    }

    /** The effect on `selectedSources`: remember whether Reddit is selected; without
        it, clear the selection and report the empty list. */
    method SourcesChanged(selectedSources: seq<string>) returns (reported: Option<seq<string>>)
      modifies this
      ensures isRedditSelected <==> "REDDIT" in selectedSources
      ensures "REDDIT" in selectedSources ==> selectedSubs == old(selectedSubs) && reported.None?
      ensures "REDDIT" !in selectedSources ==> selectedSubs == [] && reported == Some([])
      ensures isOpen == old(isOpen)
    {
      var hasRedditSource := "REDDIT" in selectedSources;
      isRedditSelected := hasRedditSource;
      reported := None;
      if !hasRedditSource {
        selectedSubs := [];
        reported := Some([]);
      }
    }

    method ToggleSub(sub: string) returns (reported: seq<string>)
      modifies this
      ensures selectedSubs == Toggled(old(selectedSubs), sub) && reported == selectedSubs
      ensures isOpen == old(isOpen) && isRedditSelected == old(isRedditSelected)
    {
      var updatedSubs := if sub in selectedSubs then Without(selectedSubs, sub) else selectedSubs + [sub];
      selectedSubs := updatedSubs;
      reported := updatedSubs;
    }

    method SelectAllSubs() returns (reported: seq<string>)
      modifies this
      ensures selectedSubs == OptionValues() && reported == selectedSubs
      ensures isOpen == old(isOpen) && isRedditSelected == old(isRedditSelected)
    {
      var allSubs := OptionValues();
      selectedSubs := allSubs;
      reported := allSubs;
    }

    method ClearAllSubs() returns (reported: seq<string>)
      modifies this
      ensures selectedSubs == [] && reported == []
      ensures isOpen == old(isOpen) && isRedditSelected == old(isRedditSelected)
    {
      selectedSubs := [];
      reported := [];
    }

    method ToggleDropdown()
      modifies this
      ensures isOpen == !old(isOpen)
      ensures selectedSubs == old(selectedSubs) && isRedditSelected == old(isRedditSelected)
    {
      isOpen := !isOpen;
    }

    /** A click on the button: a disabled button ignores it. */
    method ClickButton()
      modifies this
      ensures isOpen == if old(Disabled()) then old(isOpen) else !old(isOpen)
      ensures selectedSubs == old(selectedSubs) && isRedditSelected == old(isRedditSelected)
    {
      if !Disabled() {
        ToggleDropdown();
      }
    }
  }

  /** Select-all gives the five option values in declared order, without repeats, and
      among them the value of every `SubEnum` member. */
  lemma OptionValuesSpec(s: SubEnum)
    ensures OptionValues() == ["reactjs", "Python", "ArtificialInteligence", "ChatGPTPro", "LocalLLaMA"]
    ensures Distinct(OptionValues())
    ensures SubValue(s) in OptionValues()
  {
    var vs := OptionValues();
    assert vs[2] == "ArtificialInteligence";
  }

  lemma SubLabelLeadingDigit(n: nat)
    ensures SubLabel(n) != [] && (IsDigit(SubLabel(n)[0]) <==> n > 0)
  {
    if n > 0 {
      assert SubLabel(n)[0] == NatToString(n)[0];
    }
  }

  /** "Sub-category" for none, "1 Sub" for one, "n Subs" above one; different counts give
      different labels. */
  lemma SubLabelSpec(n: nat, m: nat)
    ensures SubLabel(0) == "Sub-category" && SubLabel(1) == "1 Sub"
    ensures n > 1 ==> SubLabel(n) == NatToString(n) + " Subs"
    ensures SubLabel(n) == SubLabel(m) ==> n == m
  {
    SubLabelOne();
    if SubLabel(n) == SubLabel(m) {
      SubLabelInjective(n, m);
    }
  }

  lemma SubLabelOne()
    ensures SubLabel(1) == "1 Sub"
  {
    assert NatToString(1) == "1";
  }

  lemma SubLabelInjective(n: nat, m: nat)
    requires SubLabel(n) == SubLabel(m)
    ensures n == m
  {
    SubLabelLeadingDigit(n);
    SubLabelLeadingDigit(m);
    if n > 0 && m > 0 {
      var r1 := " Sub" + (if n > 1 then "s" else "");
      var r2 := " Sub" + (if m > 1 then "s" else "");
      assert SubLabel(n) == NatToString(n) + r1 && SubLabel(m) == NatToString(m) + r2;
      NumberPrefixUnique(n, r1, m, r2);
    }
  }
}
