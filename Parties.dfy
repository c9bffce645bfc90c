/**
 * `extract_parties`: the appellant and the appellee named by the first of
 * four party patterns that matches the text. The searches are inputs: for
 * each pattern in order, its groups or nothing. Three of the patterns have
 * two groups (appellant, appellee); the "Ex parte … (In re … v. …)" one has
 * three. Each party is then cleaned up, and one whose name starts with
 * "state" becomes "State of" and its last word.
 */
module Parties {
  import opened Wrappers
  import opened Strings

  datatype Groups = TwoGroups(first: string, second: string) | ThreeGroups(petitioner: string, inReFirst: string, inReSecond: string)

  /** Appellant first, appellee second. */
  datatype PartyPair = PartyPair(appellant: string, appellee: string)

  /** A party as matched, cleaned: stripped, trailing commas dropped, every "v." and then every "vs." deleted, stripped again. */
  function Cleanup(p: string): string {
    Strip(RemoveAll(RemoveAll(RStripChar(Strip(p), ','), "v."), "vs."))
  }

  function LastWord(s: string): string {
    var ws := Words(s);
    if ws == [] then "" else ws[|ws| - 1]
  }

  predicate NamesState(p: string) {
    StartsWith(Lower(p), "state")
  }

  /** A party whose cleaned name starts with "state", in any case, is renamed "State of" its last word. */
  function StateForm(p: string): string {
    if NamesState(p) then "State of " + LastWord(p) else p
  }

  function Party(p: string): string {
    StateForm(Cleanup(p))
  }

  /** The parties of one match; with three groups, "ex parte" in the first swaps the roles. */
  function PartiesOf(g: Groups): PartyPair {
    match g
    case TwoGroups(a, b) => PartyPair(Party(a), Party(b))
    case ThreeGroups(g1, g2, g3) =>
      if Contains(Lower(g1), "ex parte") then PartyPair(Party(g3), Party(g1)) else PartyPair(Party(g2), Party(g3))
  }

  /** The parties of the first pattern that matches, or nothing (`None, None`) when none does. */
  function ExtractParties(matches: seq<Option<Groups>>): Option<PartyPair> {
    var m := FirstMatch(matches);
    if m.Some? then Some(PartiesOf(m.value)) else None
  }

  /** The first pattern that matches decides the parties; no match gives nothing. */
  lemma FirstPatternWins(matches: seq<Option<Groups>>)
    ensures ExtractParties(matches).None? <==> forall i :: 0 <= i < |matches| ==> matches[i].None?
    ensures forall i :: 0 <= i < |matches| && matches[i].Some? && (forall j :: 0 <= j < i ==> matches[j].None?) ==>
              ExtractParties(matches) == Some(PartiesOf(matches[i].value))
  {
    FirstMatchMeaning(matches);
  }

  /** With three groups, "ex parte" in the first group makes it the appellee and the in-re second party the appellant. */
  lemma ExParteRoles(g1: string, g2: string, g3: string)
    ensures var r := PartiesOf(ThreeGroups(g1, g2, g3));
      && (Contains(Lower(g1), "ex parte") ==> r.appellant == Party(g3) && r.appellee == Party(g1))
      && (!Contains(Lower(g1), "ex parte") ==> r.appellant == Party(g2) && r.appellee == Party(g3))
  {
  }

  lemma LastWordShape(s: string)
    requires |s| > 0 && !IsSpace(s[0])
    ensures LastWord(s) != [] && NoSpace(LastWord(s)) && LastWord(s) in Words(s)
  {
    WordsShape(s);
  }

  /** A name that starts with "state" starts with a letter, so it has a last word. */
  lemma StateNameHasWord(p: string)
    requires NamesState(p)
    ensures |p| > 0 && !IsSpace(p[0])
  {
    assert Lower(p)[0] == 's';
  }

  /** "State of" and a word splits into those three words. */
  lemma StateWords(w: string)
    requires w != [] && NoSpace(w)
    ensures Words("State of " + w) == ["State", "of", w]
  {
    var ws := ["State", "of", w];
    assert Join(ws[2..], " ") == w;
    assert Join(ws[1..], " ") == "of" + " " + w;
    assert Join(ws, " ") == "State" + " " + ("of" + " " + w);
    assert "State" + " " + ("of" + " " + w) == "State of " + w;
    assert NoSpace("State") && NoSpace("of");
    WordsJoin(ws);
  }

  /** A "State of" name stays as it is: renaming is idempotent. */
  lemma StateFormIdempotent(p: string)
    ensures StateForm(StateForm(p)) == StateForm(p)
  {
    if NamesState(p) {
      StateNameHasWord(p);
      LastWordShape(p);
      var w := LastWord(p);
      var q := "State of " + w;
      StateWords(w);
      assert Lower(q)[..5] == "state";
    }
  }

  /**
   * A cleaned party has no whitespace at either end; one renamed for a state
   * reads "State of" and one more word, the last word of the cleaned name.
   */
  lemma PartyShape(p: string)
    ensures var r := Party(p);
      && (r != [] ==> !IsSpace(r[0]) && !IsSpace(r[|r| - 1]))
      && (NamesState(Cleanup(p)) ==> Words(r) == ["State", "of", LastWord(Cleanup(p))])
      && (!NamesState(Cleanup(p)) ==> r == Cleanup(p))
  {
    var c := Cleanup(p);
    StripShape(RemoveAll(RemoveAll(RStripChar(Strip(p), ','), "v."), "vs."));
    if NamesState(c) {
      StateNameHasWord(c);
      LastWordShape(c);
      StateWords(LastWord(c));
    }
  }
}
