/**
 * The two vote stages.
 *
 * `extract_votes_original` gives each roster justice a raw stance by testing
 * an ordered list of cue patterns against the "Judges:" text (1 dissent,
 * 3 concur in part and dissent in part, 4 recused, 5 did not participate,
 * 2 concur, and 2 when no cue is found).
 *
 * `extract_votes_appellant_appellee` reads that list back and re-expresses
 * every stance as a vote for the appellant (1) or the appellee (2), with
 * 3, 4 and 5 kept; a mixed court decision (3) forces 3 for everybody.
 *
 * The cue search is a parameter: `search(c, justice)` stands for
 * `re.search(<pattern of c with the justice's name>, judges_text, re.IGNORECASE)`.
 */
module Votes {
  import opened Wrappers
  import opened Strings
  import opened OrderedRules
  import opened VoteText

  /** The cue patterns, one constructor per test, in test order. */
  datatype Cue =
    | Dissents                     // NAME, J., dissents
    | ConcursInPartDissentsInPart  // NAME, J., concurs in part and dissents in part
    | Recused                      // NAME, J., recused
    | DidNotParticipate            // NAME, J., did not participate
    | Concurs                      // NAME ... concurs

  /** The ordered cue table with the stance code each cue yields. */
  const Cues: seq<(Cue, int)> := [
    (Dissents, 1),
    (ConcursInPartDissentsInPart, 3),
    (Recused, 4),
    (DidNotParticipate, 5),
    (Concurs, 2)
  ]

  /** The stance assumed when no cue is found: concurrence. */
  const AssumedConcur := 2

  type CueSearch = (Cue, string) -> bool

  /** The cues found for one justice, as a test on table rows. */
  function Said(justice: string, search: CueSearch): Cue -> bool {
    c => search(c, justice)
  }

  /** The raw stance of one justice: the code of the first cue found, else 2. */
  function RawVote(justice: string, search: CueSearch): (v: nat)
    ensures 1 <= v <= 5
  {
    var code := FirstCode(Cues, Said(justice, search), AssumedConcur);
    assert code == AssumedConcur || exists i :: 0 <= i < |Cues| && Cues[i].1 == code;
    code
  }

  /**
   * First cue wins: each stance code is given exactly when its cue is found
   * and no cue tested before it is.
   */
  lemma RawVoteCases(justice: string, search: CueSearch)
    ensures RawVote(justice, search) == 1 <==> search(Dissents, justice)
    ensures RawVote(justice, search) == 3 <==>
      !search(Dissents, justice) && search(ConcursInPartDissentsInPart, justice)
    ensures RawVote(justice, search) == 4 <==>
      !search(Dissents, justice) && !search(ConcursInPartDissentsInPart, justice) && search(Recused, justice)
    ensures RawVote(justice, search) == 5 <==>
      && !search(Dissents, justice) && !search(ConcursInPartDissentsInPart, justice)
      && !search(Recused, justice) && search(DidNotParticipate, justice)
    ensures RawVote(justice, search) == 2 <==>
      && !search(Dissents, justice) && !search(ConcursInPartDissentsInPart, justice)
      && !search(Recused, justice) && !search(DidNotParticipate, justice)
  {
    RawVoteChain(justice, search);
  }

  /** The if-chain of the original loop body computes the table lookup. */
  lemma RawVoteChain(justice: string, search: CueSearch)
    ensures RawVote(justice, search) ==
      if search(Dissents, justice) then 1
      else if search(ConcursInPartDissentsInPart, justice) then 3
      else if search(Recused, justice) then 4
      else if search(DidNotParticipate, justice) then 5
      else 2
  {
    var f := Said(justice, search);
    assert Cues[1..][1..][1..][1..][1..] == [];
    calc {
      FirstCode(Cues, f, AssumedConcur);
      if f(Dissents) then 1 else FirstCode(Cues[1..], f, AssumedConcur);
    }
  }

  /** Each justice of the roster, in roster order, with the raw stance. */
  function RawVotes(roster: seq<string>, search: CueSearch): (vs: seq<(string, nat)>)
    ensures |vs| == |roster|
  {
    if roster == [] then []
    else RawVotes(roster[..|roster| - 1], search) + [(roster[|roster| - 1], RawVote(roster[|roster| - 1], search))]
  }

  lemma {:induction false} RawVotesAt(roster: seq<string>, search: CueSearch, i: nat)
    requires i < |roster|
    ensures RawVotes(roster, search)[i] == (roster[i], RawVote(roster[i], search))
    decreases |roster|
  {
    if i < |roster| - 1 {
      RawVotesAt(roster[..|roster| - 1], search, i);
    }
  }

  /** `extract_votes_original`, given the roster and the cue search. */
  method ExtractVotesOriginal(roster: seq<string>, search: CueSearch) returns (s: string)
    ensures s == Format(RawVotes(roster, search))
  {
    if roster == [] {
      return "";
    }
    var votes: seq<string> := [];
    for k := 0 to |roster|
      invariant votes == Entries(RawVotes(roster[..k], search))
    {
      var justice := roster[k];
      RawVoteChain(justice, search);
      assert roster[..k + 1][..k] == roster[..k];
      EntriesSnoc(RawVotes(roster[..k], search), (justice, RawVote(justice, search)));
      if search(Dissents, justice) {
        votes := votes + [Entry(justice, 1)];
      } else if search(ConcursInPartDissentsInPart, justice) {
        votes := votes + [Entry(justice, 3)];
      } else if search(Recused, justice) {
        votes := votes + [Entry(justice, 4)];
      } else if search(DidNotParticipate, justice) {
        votes := votes + [Entry(justice, 5)];
      } else if search(Concurs, justice) {
        votes := votes + [Entry(justice, 2)];
      } else {
        votes := votes + [Entry(justice, 2)];
      }
    }
    assert roster[..|roster|] == roster;
    s := Join(votes, "; ");
  }

  /** The original vote list is empty exactly when the roster is. */
  lemma VotesOriginalEmpty(roster: seq<string>, search: CueSearch)
    ensures Format(RawVotes(roster, search)) == "" <==> roster == []
  {
    FormatEmpty(RawVotes(roster, search));
  }

  /**
   * The original vote list of a roster of safe names reads back, through the
   * parsing the next stage does, as one entry per distinct justice; when the
   * names are distinct it is exactly the roster, in order, each with its
   * raw stance as text.
   */
  lemma VotesOriginalReadsBack(roster: seq<string>, search: CueSearch)
    requires roster != [] && forall n :: n in roster ==> SafeName(n)
    ensures Parse(Format(RawVotes(roster, search))) == Ok(DictOf(Stringified(RawVotes(roster, search))))
    ensures Distinct(roster) ==> Parse(Format(RawVotes(roster, search))) == Ok(Stringified(RawVotes(roster, search)))
  {
    var vs := RawVotes(roster, search);
    forall i | 0 <= i < |vs| ensures SafeName(vs[i].0) {
      RawVotesAt(roster, search, i);
      assert roster[i] in roster;
    }
    ParseFormat(vs);
    if Distinct(roster) {
      var ps := Stringified(vs);
      forall i, j | 0 <= i < j < |ps| ensures ps[i].0 != ps[j].0 {
        StringifiedAt(vs, i);
        StringifiedAt(vs, j);
        RawVotesAt(roster, search, i);
        RawVotesAt(roster, search, j);
      }
      DictOfDistinct(ps);
    }
  }

  lemma {:induction false} StringifiedAt(votes: seq<(string, nat)>, i: nat)
    requires i < |votes|
    ensures Stringified(votes)[i] == (votes[i].0, Show(votes[i].1))
    decreases i
  {
    if i > 0 {
      StringifiedAt(votes[1..], i - 1);
    }
  }

  // ---- appellant / appellee ----

  /** The majority's side in this stage: 2 (appellee) when the court decision is 2, else 1. */
  function Majority(courtDecision: int): (m: int)
    ensures m == 1 || m == 2
  {
    if courtDecision == 2 then 2 else 1
  }

  /** The re-expression of one raw stance, given the majority's side. */
  function Adjust(raw: int, majority: int): (v: int)
    ensures (majority == 1 || majority == 2) ==> 1 <= v <= 5
  {
    if raw == 1 then 3 - majority
    else if raw == 2 then majority
    else if raw == 3 then 3
    else if raw == 4 then 4
    else if raw == 5 then 5
    else majority
  }

  /**
   * A dissent votes against the majority's side and a concurrence with it;
   * 3, 4 and 5 are kept; anything else counts as a vote with the majority.
   */
  lemma AdjustCases(raw: int, majority: int)
    requires majority == 1 || majority == 2
    ensures raw == 1 ==> Adjust(raw, majority) != majority && Adjust(raw, majority) in {1, 2}
    ensures raw == 2 ==> Adjust(raw, majority) == majority
    ensures raw in {3, 4, 5} ==> Adjust(raw, majority) == raw
    ensures raw !in {1, 2, 3, 4, 5} ==> Adjust(raw, majority) == majority
  {
  }

  /** Every justice of the list with vote 3: the mixed-decision rule. */
  function AllMixed(justices: seq<string>): (vs: seq<(string, nat)>)
    ensures |vs| == |justices|
  {
    if justices == [] then [] else [(justices[0], 3)] + AllMixed(justices[1..])
  }

  /** Re-express each stance of a parsed list, in its order; the first `int()` that fails makes it fail. */
  function AdjustedVotes(d: Dict, majority: int): Result<seq<(string, nat)>, ParseError>
    requires majority == 1 || majority == 2
  {
    if d == [] then Ok([])
    else
      var done :- AdjustedVotes(d[..|d| - 1], majority);
      var (justice, text) := d[|d| - 1];
      var vote :- ReadInt(text);
      Ok(done + [(justice, Adjust(vote, majority) as nat)])
  }

  /** `extract_votes_appellant_appellee` on its inputs. */
  function AppellantAppellee(roster: seq<string>, courtDecision: int, votesOriginal: string): Result<string, ParseError> {
    if roster == [] || votesOriginal == "" then Ok("")
    else
      var originalVotes :- Parse(votesOriginal);
      if courtDecision == 3 then Ok(Format(AllMixed(Keys(originalVotes))))
      else
        var votes :- AdjustedVotes(originalVotes, Majority(courtDecision));
        Ok(Format(votes))
  }

  /** Once a prefix fails, the whole list fails with the same error. */
  lemma {:induction false} AdjustedPrefixFails(d: Dict, k: nat, majority: int)
    requires majority == 1 || majority == 2
    requires k <= |d| && AdjustedVotes(d[..k], majority).Err?
    ensures AdjustedVotes(d, majority) == AdjustedVotes(d[..k], majority)
    decreases |d| - k
  {
    if k < |d| {
      assert d[..|d| - 1][..k] == d[..k];
      AdjustedPrefixFails(d[..|d| - 1], k, majority);
    } else {
      assert d[..k] == d;
    }
  }

  /** One more item: its value is read and re-expressed, or its failure is the result. */
  lemma AdjustedStep(d: Dict, k: nat, majority: int)
    requires majority == 1 || majority == 2
    requires k < |d| && AdjustedVotes(d[..k], majority).Ok?
    ensures ReadInt(d[k].1).Err? ==> AdjustedVotes(d[..k + 1], majority) == Err(ReadInt(d[k].1).error)
    ensures ReadInt(d[k].1).Ok? ==>
              AdjustedVotes(d[..k + 1], majority) ==
              Ok(AdjustedVotes(d[..k], majority).value + [(d[k].0, Adjust(ReadInt(d[k].1).value, majority) as nat)])
  {
    assert d[..k + 1][..k] == d[..k];
  }

  /** `extract_votes_appellant_appellee` with its loop over the parsed items. */
  method ExtractVotesAppellantAppellee(roster: seq<string>, courtDecision: int, votesOriginal: string)
    returns (r: Result<string, ParseError>)
    ensures r == AppellantAppellee(roster, courtDecision, votesOriginal)
  {
    if roster == [] || votesOriginal == "" {
      return Ok("");
    }
    var parsed := Parse(votesOriginal);
    if parsed.Err? {
      return Err(parsed.error);
    }
    var originalVotes := parsed.value;
    if courtDecision == 3 {
      return Ok(Format(AllMixed(Keys(originalVotes))));
    }
    var majority := Majority(courtDecision);
    var votes: seq<string> := [];
    ghost var done: seq<(string, nat)> := [];
    for k := 0 to |originalVotes|
      invariant AdjustedVotes(originalVotes[..k], majority) == Ok(done)
      invariant votes == Entries(done)
    {
      var (justice, text) := originalVotes[k];
      var read := ReadInt(text);
      AdjustedStep(originalVotes, k, majority);
      if read.Err? {
        AdjustedPrefixFails(originalVotes, k + 1, majority);
        return Err(read.error);
      }
      var vote := read.value;
      var v: nat;
      if vote == 1 {
        v := 3 - majority;
      } else if vote == 2 {
        v := majority;
      } else if vote == 3 {
        v := 3;
      } else if vote == 4 {
        v := 4;
      } else if vote == 5 {
        v := 5;
      } else {
        v := majority;
      }
      assert v == Adjust(vote, majority);
      EntriesSnoc(done, (justice, v));
      votes := votes + [Entry(justice, v)];
      done := done + [(justice, v)];
    }
    assert originalVotes[..|originalVotes|] == originalVotes;
    r := Ok(Join(votes, "; "));
  }

  // ---- what the second stage computes ----

  /**
   * Reading a list back fails exactly when some value is not an integer, and
   * then with the error of the first such value.
   */
  lemma {:induction false} AdjustedVotesFailure(d: Dict, majority: int)
    requires majority == 1 || majority == 2
    ensures AdjustedVotes(d, majority).Err? <==> exists i :: 0 <= i < |d| && ReadInt(d[i].1).Err?
    ensures AdjustedVotes(d, majority).Err? ==>
      exists i :: 0 <= i < |d| && ReadInt(d[i].1).Err? && AdjustedVotes(d, majority) == Err(ReadInt(d[i].1).error) &&
        forall j :: 0 <= j < i ==> ReadInt(d[j].1).Ok?
    decreases |d|
  {
    if d != [] {
      var p := d[..|d| - 1];
      AdjustedVotesFailure(p, majority);
      assert forall i :: 0 <= i < |p| ==> p[i] == d[i];
    }
  }

  /**
   * A list read back without error keeps every justice in order, each with
   * its value re-expressed for the majority's side.
   */
  lemma {:induction false} AdjustedVotesValues(d: Dict, majority: int)
    requires majority == 1 || majority == 2
    ensures AdjustedVotes(d, majority).Ok? ==>
      var vs := AdjustedVotes(d, majority).value;
      |vs| == |d| &&
      forall i :: 0 <= i < |d| ==>
        ReadInt(d[i].1).Ok? && vs[i] == (d[i].0, Adjust(ReadInt(d[i].1).value, majority) as nat)
    decreases |d|
  {
    if d != [] {
      var p := d[..|d| - 1];
      AdjustedVotesValues(p, majority);
      assert forall i :: 0 <= i < |p| ==> p[i] == d[i];
    }
  }

  /** Every stance of an already-read list, re-expressed for the majority's side. */
  function AdjustAll(vs: seq<(string, nat)>, majority: int): (r: seq<(string, nat)>)
    requires majority == 1 || majority == 2
    ensures |r| == |vs|
  {
    seq(|vs|, i requires 0 <= i < |vs| => (vs[i].0, Adjust(vs[i].1, majority) as nat))
  }

  /**
   * The votes the two stages give a roster: every justice with 3 when the
   * court decision is mixed, else the raw stance re-expressed for the
   * majority's side.
   */
  function FinalVotes(roster: seq<string>, search: CueSearch, courtDecision: int): seq<(string, nat)> {
    if courtDecision == 3 then AllMixed(roster)
    else AdjustAll(RawVotes(roster, search), Majority(courtDecision))
  }

  lemma {:induction false} AllMixedAt(justices: seq<string>, i: nat)
    requires i < |justices|
    ensures AllMixed(justices)[i] == (justices[i], 3)
    decreases i
  {
    if i > 0 {
      AllMixedAt(justices[1..], i - 1);
    }
  }

  /** Each justice of the roster, in order, with a code from 1 to 5 as the rules give it. */
  lemma FinalVotesAt(roster: seq<string>, search: CueSearch, courtDecision: int, i: nat)
    requires i < |roster|
    ensures |FinalVotes(roster, search, courtDecision)| == |roster|
    ensures FinalVotes(roster, search, courtDecision)[i] ==
      (roster[i], if courtDecision == 3 then 3 else Adjust(RawVote(roster[i], search), Majority(courtDecision)) as nat)
    ensures 1 <= FinalVotes(roster, search, courtDecision)[i].1 <= 5
  {
    if courtDecision == 3 {
      AllMixedAt(roster, i);
    } else {
      RawVotesAt(roster, search, i);
    }
  }

  /**
   * The two stages end to end: for a roster of distinct safe names, the
   * second stage reads the first stage's text back without error and
   * writes the final votes of every justice, in roster order.
   */
  lemma Pipeline(roster: seq<string>, search: CueSearch, courtDecision: int)
    requires roster != [] && Distinct(roster) && forall n :: n in roster ==> SafeName(n)
    ensures AppellantAppellee(roster, courtDecision, Format(RawVotes(roster, search))) ==
      Ok(Format(FinalVotes(roster, search, courtDecision)))
  {
    var raw := RawVotes(roster, search);
    var d := Stringified(raw);
    VotesOriginalEmpty(roster, search);
    VotesOriginalReadsBack(roster, search);
    if courtDecision == 3 {
      forall i | 0 <= i < |roster| ensures Keys(d)[i] == roster[i] {
        KeysAt(d, i);
        StringifiedAt(raw, i);
        RawVotesAt(roster, search, i);
      }
      assert Keys(d) == roster;
    } else {
      var m := Majority(courtDecision);
      forall i | 0 <= i < |d| ensures ReadInt(d[i].1) == Ok(raw[i].1 as int) && d[i].0 == raw[i].0 {
        StringifiedAt(raw, i);
        ShowParses(raw[i].1);
      }
      AdjustedVotesFailure(d, m);
      AdjustedVotesValues(d, m);
      assert AdjustedVotes(d, m).Ok?;
      assert AdjustedVotes(d, m).value == AdjustAll(raw, m);
    }
  }
}
