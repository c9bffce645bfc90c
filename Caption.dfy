/**
 * `extract_case_name` and `extract_case_citation`: the caption of the case,
 * taken from the first of two patterns that matches. The searches are
 * inputs: for the name, each pattern's two groups (the parties either side
 * of "v.") or nothing; for the citation, each pattern's one group or nothing.
 */
module Caption {
  import opened Wrappers
  import opened Strings

  /** The two sides of the caption, stripped and joined by " v. "; empty when no pattern matches. */
  function CaseName(matches: seq<Option<(string, string)>>): string {
    var m := FirstMatch(matches);
    if m.Some? then Strip(m.value.0) + " v. " + Strip(m.value.1) else ""
  }

  /** The citation after the caption, stripped; empty when no pattern matches. */
  function CaseCitation(matches: seq<Option<string>>): string {
    var m := FirstMatch(matches);
    if m.Some? then Strip(m.value) else ""
  }

  /**
   * The name is empty exactly when no pattern matches; otherwise it is the
   * first matching pattern's two sides, stripped, around " v. ".
   */
  lemma CaseNameMeaning(matches: seq<Option<(string, string)>>)
    ensures CaseName(matches) == "" <==> forall i :: 0 <= i < |matches| ==> matches[i].None?
    ensures forall i :: 0 <= i < |matches| && matches[i].Some? && (forall j :: 0 <= j < i ==> matches[j].None?) ==>
              CaseName(matches) == Strip(matches[i].value.0) + " v. " + Strip(matches[i].value.1)
  {
    FirstMatchMeaning(matches);
  }

  /** The sides of a caption read back from it: what precedes and what follows the " v. ". */
  lemma CaseNameSides(matches: seq<Option<(string, string)>>)
    requires FirstMatch(matches).Some?
    ensures var a, b := Strip(FirstMatch(matches).value.0), Strip(FirstMatch(matches).value.1);
      var r := CaseName(matches);
      && r[..|a|] == a && r[|a|..|a| + 4] == " v. " && r[|a| + 4..] == b
  {
  }

  /**
   * The citation is the first matching pattern's group, stripped: no
   * whitespace at either end. It is empty when no pattern matches, and
   * also when the group holds only whitespace.
   */
  lemma CaseCitationMeaning(matches: seq<Option<string>>)
    ensures var r := CaseCitation(matches);
      && (r != [] ==> !IsSpace(r[0]) && !IsSpace(r[|r| - 1]))
      && ((forall i :: 0 <= i < |matches| ==> matches[i].None?) ==> r == "")
      && (forall i :: 0 <= i < |matches| && matches[i].Some? && (forall j :: 0 <= j < i ==> matches[j].None?) ==>
            r == Strip(matches[i].value))
  {
    FirstMatchMeaning(matches);
    if FirstMatch(matches).Some? {
      StripShape(FirstMatch(matches).value);
    }
  }
}
