/**
 * `extract_justice_info`: one record per justice, holding a vote (1 for
 * the appellant, 2 for the appellee, 3 to 5 as in the vote list) and an
 * opinion code:
 *
 *   1 writes the majority opinion     2 joins the majority opinion
 *   3 writes a concurrence            4 joins a concurrence
 *   5 per curiam                      6 writes a dissent
 *   7 joins a dissent                 9 concurs in part and dissents in part
 *
 * The regular-expression searches of the opinion text become inputs: whether
 * "PER CURIAM" occurs, the match of the majority-opinion sentence, and the
 * matches of the separate-opinion pattern, in text order.
 */
module Opinions {
  import opened Wrappers
  import opened Strings
  import opened VoteText
  import Votes

  /** `{'name': …, 'vote': …, 'opinion': …}` */
  datatype Info = Info(name: string, vote: int, opinion: int)

  const WritesMajority := 1
  const JoinsMajority := 2
  const PerCuriam := 5

  /** At most this many records are returned. */
  const MaxJustices := 9

  /** The vote text assumed for a separate opinion's writer missing from the vote list. */
  const UnlistedSeparateVote := "3"

  /** The three alternatives of the separate-opinion pattern's second group. */
  datatype Alternative = Concurring | Dissenting | ConcurringInPartAndDissentingInPart

  /** One separate-opinion match: the justice, the alternative, and the parenthesised joiners ("" when absent). */
  datatype SeparateOpinion = SeparateOpinion(justice: string, kind: Alternative, joined: string)

  /** The majority-opinion match: its author and the text naming those who joined. */
  datatype MajorityOpinion = MajorityOpinion(author: string, joinedText: string)

  /** The majority's side in this stage: 2 (appellee) when the court decision is 1, else 1. */
  function InfoMajority(courtDecision: int): (m: nat)
    ensures m == 1 || m == 2
  {
    if courtDecision == 1 then 2 else 1
  }

  /**
   * The two stages name the majority's side differently: they disagree
   * exactly for court decisions 1 and 2, and then they are opposite.
   */
  lemma MajorityConventions(courtDecision: int)
    ensures InfoMajority(courtDecision) != Votes.Majority(courtDecision) <==> courtDecision == 1 || courtDecision == 2
    ensures courtDecision == 1 || courtDecision == 2 ==> InfoMajority(courtDecision) == 3 - Votes.Majority(courtDecision)
  {
  }

  /** `int(votes.get(name, default))`. */
  function VoteOf(votes: Dict, name: string, default: string): Result<int, ParseError> {
    ReadInt(Get(votes, name, default))
  }

  /** The record of one listed justice with a fixed opinion code. */
  function Listing(votes: Dict, default: string, opinion: int): string -> Result<Info, ParseError> {
    (name: string) => var v :- VoteOf(votes, name, default); Ok(Info(name, v, opinion))
  }

  /** The opinion code of a separate opinion: the mixed alternative first, then dissent, then concurrence. */
  function SeparateCode(kind: Alternative, joined: string): (c: int)
    ensures c in {3, 4, 6, 7, 9}
  {
    if kind == ConcurringInPartAndDissentingInPart then 9
    else if kind == Dissenting then (if joined == "" then 6 else 7)
    else (if joined == "" then 3 else 4)
  }

  /** A writer is recorded when the match names nobody joining; a mixed opinion has one code either way. */
  lemma SeparateCodeMeaning(kind: Alternative, joined: string)
    ensures SeparateCode(kind, joined) == 9 <==> kind == ConcurringInPartAndDissentingInPart
    ensures SeparateCode(kind, joined) in {6, 7} <==> kind == Dissenting
    ensures SeparateCode(kind, joined) in {3, 4} <==> kind == Concurring
    ensures SeparateCode(kind, joined) in {3, 6} <==> kind != ConcurringInPartAndDissentingInPart && joined == ""
  {
  }

  /** The record of one separate opinion; its writer's vote defaults to 3. */
  function SeparateRecord(votes: Dict): SeparateOpinion -> Result<Info, ParseError> {
    (op: SeparateOpinion) => var v :- VoteOf(votes, op.justice, UnlistedSeparateVote); Ok(Info(op.justice, v, SeparateCode(op.kind, op.joined)))
  }

  // ---- which alternative the separate-opinion pattern captures ----

  function AlternativeText(a: Alternative): string {
    match a
    case Concurring => "concurring"
    case Dissenting => "dissenting"
    case ConcurringInPartAndDissentingInPart => "concurring in part and dissenting in part"
  }

  /** `rest` begins with `p`, ASCII letters compared without case. */
  predicate StartsWithIgnoreCase(rest: string, p: string) {
    StartsWith(Lower(rest), Lower(p))
  }

  /**
   * The alternative an ordered regular-expression alternation captures on
   * the text `rest` that follows "JUSTICE name, ": the first one in `order`
   * that `rest` begins with. Everything after the group in the pattern is
   * optional, so the first alternative that matches is never given up for
   * a later one.
   */
  function FirstAlternative(order: seq<Alternative>, rest: string): (r: Option<Alternative>)
    ensures r.Some? ==> r.value in order && StartsWithIgnoreCase(rest, AlternativeText(r.value))
    ensures r.None? <==> forall a :: a in order ==> !StartsWithIgnoreCase(rest, AlternativeText(a))
  {
    if order == [] then None
    else if StartsWithIgnoreCase(rest, AlternativeText(order[0])) then Some(order[0])
    else FirstAlternative(order[1..], rest)
  }

  /** The alternation as the pattern writes it. */
  const WrittenOrder := [Concurring, Dissenting, ConcurringInPartAndDissentingInPart]

  /** The alternation with the longest alternative tried first, as the opinion codes intend. */
  const LongestFirst := [ConcurringInPartAndDissentingInPart, Concurring, Dissenting]

  lemma StartsItself(s: string)
    ensures StartsWithIgnoreCase(s, s)
  {
    assert Lower(s)[..|Lower(s)|] == Lower(s);
  }

  /** Text cannot begin with both "concurring" and "dissenting". */
  lemma ConcurringOrDissenting(rest: string)
    ensures StartsWithIgnoreCase(rest, AlternativeText(Concurring)) ==> !StartsWithIgnoreCase(rest, AlternativeText(Dissenting))
  {
    if StartsWithIgnoreCase(rest, AlternativeText(Concurring)) {
      assert Lower(rest)[0] == Lower("concurring")[0] == 'c';
    }
  }

  /** Text that begins with the mixed alternative begins with "concurring", and never with "dissenting". */
  lemma MixedBeginsConcurring(rest: string)
    requires StartsWithIgnoreCase(rest, AlternativeText(ConcurringInPartAndDissentingInPart))
    ensures StartsWithIgnoreCase(rest, AlternativeText(Concurring))
    ensures !StartsWithIgnoreCase(rest, AlternativeText(Dissenting))
  {
    var mixed := AlternativeText(ConcurringInPartAndDissentingInPart);
    var l := Lower(rest);
    assert mixed[..10] == "concurring";
    assert l[..|mixed|] == Lower(mixed);
    assert l[..10] == Lower(mixed)[..10];
    assert Lower(mixed)[..10] == Lower(mixed[..10]);
    ConcurringOrDissenting(rest);
  }

  /** As written, the mixed alternative is never captured: text that begins with it is read as a concurrence. */
  lemma WrittenOrderNeverMixed(rest: string)
    ensures FirstAlternative(WrittenOrder, rest) != Some(ConcurringInPartAndDissentingInPart)
    ensures StartsWithIgnoreCase(rest, AlternativeText(ConcurringInPartAndDissentingInPart)) ==>
              FirstAlternative(WrittenOrder, rest) == Some(Concurring)
  {
    if StartsWithIgnoreCase(rest, AlternativeText(ConcurringInPartAndDissentingInPart)) {
      MixedBeginsConcurring(rest);
    }
  }

  /**
   * "JUSTICE X, concurring in part and dissenting in part" is recorded with
   * code 3, a concurrence written alone, instead of 9.
   */
  lemma WrittenOrderMisreadsMixed()
    ensures var rest := AlternativeText(ConcurringInPartAndDissentingInPart);
      && FirstAlternative(WrittenOrder, rest) == Some(Concurring)
      && SeparateCode(Concurring, "") == 3
      && SeparateCode(ConcurringInPartAndDissentingInPart, "") == 9
  {
    var rest := AlternativeText(ConcurringInPartAndDissentingInPart);
    StartsItself(rest);
    WrittenOrderNeverMixed(rest);
  }

  /** Tried longest first, the mixed alternative is captured exactly when the text begins with it. */
  lemma LongestFirstCapturesMixed(rest: string)
    ensures FirstAlternative(LongestFirst, rest) == Some(ConcurringInPartAndDissentingInPart) <==>
              StartsWithIgnoreCase(rest, AlternativeText(ConcurringInPartAndDissentingInPart))
  {
    ConcurringOrDissenting(rest);
  }

  /** On every other text the two orders capture the same alternative. */
  lemma LongestFirstAgrees(rest: string)
    requires !StartsWithIgnoreCase(rest, AlternativeText(ConcurringInPartAndDissentingInPart))
    ensures FirstAlternative(LongestFirst, rest) == FirstAlternative(WrittenOrder, rest)
  {
    ConcurringOrDissenting(rest);
  }

  /**
   * One match of the separate-opinion pattern, with the alternation tried
   * longest first: the justice, the text after "JUSTICE name, " and the
   * parenthesised joiners ("" when absent); nothing when the text begins
   * with none of the alternatives.
   */
  function SeparateMatch(justice: string, rest: string, joined: string): (r: Option<SeparateOpinion>)
    ensures r.Some? ==> r.value.justice == justice && r.value.joined == joined
  {
    var kind := FirstAlternative(LongestFirst, rest);
    if kind.Some? then Some(SeparateOpinion(justice, kind.value, joined)) else None
  }

  /** A match is coded 9 exactly when its text begins with the mixed alternative. */
  lemma SeparateMatchCode(justice: string, rest: string, joined: string)
    requires SeparateMatch(justice, rest, joined).Some?
    ensures var op := SeparateMatch(justice, rest, joined).value;
      SeparateCode(op.kind, op.joined) == 9 <==> StartsWithIgnoreCase(rest, AlternativeText(ConcurringInPartAndDissentingInPart))
  {
    var op := SeparateMatch(justice, rest, joined).value;
    assert Some(op.kind) == FirstAlternative(LongestFirst, rest);
    SeparateCodeMeaning(op.kind, op.joined);
    LongestFirstCapturesMixed(rest);
  }

  // ---- the joiners of the majority opinion ----

  /** The last word of each non-blank piece. */
  function LastWords(pieces: seq<string>): seq<string> {
    if pieces == [] then []
    else
      var p := Strip(pieces[0]);
      var rest := LastWords(pieces[1..]);
      if p == "" then rest
      else
        var words := Words(p);
        [words[|words| - 1]] + rest
  }

  /** `[j.strip().split()[-1] for j in text.split(',') if j.strip()]`. */
  function Joiners(text: string): seq<string> {
    LastWords(SplitOn(text, ","))
  }

  /** A single name, alone or after a blank, is its own last word. */
  lemma LastWordOfName(n: string)
    requires n != [] && NoSpace(n)
    ensures Strip(n) == n && Strip(" " + n) == n && Words(n) == [n]
  {
    assert n[0] in n && n[|n| - 1] in n;
    StripUnchanged(n);
    assert " " + n == [' '] + n;
    StripLeadingSpace(' ', n);
    WordsAfterWord(n, []);
    assert n + [] == n;
  }

  /** A name list written "A, B, C" and split on ',' gives its names back. */
  lemma {:induction false} LastWordsOfNames(names: seq<string>)
    requires forall i :: 0 <= i < |names| ==> names[i] != [] && NoSpace(names[i])
    ensures LastWords(Spaced(names)) == names
    decreases |names|
  {
    if names != [] {
      var n, pieces := names[0], Spaced(names);
      LastWordOfName(n);
      LastWordsOfNames(names[1..]);
      assert pieces[0] == " " + n && pieces[1..] == Spaced(names[1..]);
      assert Strip(pieces[0]) == n && Words(n)[|Words(n)| - 1] == n;
    }
  }

  lemma LastWordsOfList(names: seq<string>)
    requires |names| > 0
    requires forall i :: 0 <= i < |names| ==> names[i] != [] && NoSpace(names[i])
    ensures LastWords([names[0]] + Spaced(names[1..])) == names
  {
    LastWordOfName(names[0]);
    LastWordsOfNames(names[1..]);
    assert ([names[0]] + Spaced(names[1..]))[1..] == Spaced(names[1..]);
  }

  lemma JoinersOfNames(names: seq<string>)
    requires |names| > 0
    requires forall i :: 0 <= i < |names| ==> names[i] != [] && NoSpace(names[i]) && ',' !in names[i]
    ensures Joiners(Join(names, ", ")) == names
  {
    SplitJoined(names, ',');
    assert [',', ' '] == ", " && [','] == ",";
    LastWordsOfList(names);
  }

  // ---- the stages ----

  /** The majority author and the joiners read from the match. */
  datatype MajorityList = MajorityList(author: string, joiners: seq<string>)

  function ListedMajority(majority: Option<MajorityOpinion>): Option<MajorityList> {
    match majority
    case None => None
    case Some(MajorityOpinion(author, joinedText)) => Some(MajorityList(author, Joiners(joinedText)))
  }

  /** The majority author with code 1, then each joiner with code 2; none without a match. */
  function MajorityRecords(majority: Option<MajorityList>, votes: Dict, m: nat): Result<seq<Info>, ParseError> {
    match majority
    case None => Ok([])
    case Some(MajorityList(author, joiners)) =>
      var v :- VoteOf(votes, author, Show(m));
      var rest :- Each(joiners, Listing(votes, Show(m), JoinsMajority));
      Ok([Info(author, v, WritesMajority)] + rest)
  }

  /** Some record of `info` is about `name`. */
  predicate Named(info: seq<Info>, name: string) {
    exists i :: 0 <= i < |info| && info[i].name == name
  }

  /**
   * After the earlier records, every roster justice not yet named, in roster
   * order, with code 2; each test sees the records added before it.
   */
  function WithRemaining(roster: seq<string>, info: seq<Info>, votes: Dict, m: nat): Result<seq<Info>, ParseError> {
    if roster == [] then Ok(info)
    else
      var acc :- WithRemaining(roster[..|roster| - 1], info, votes, m);
      var justice := roster[|roster| - 1];
      if Named(acc, justice) then Ok(acc)
      else
        var v :- VoteOf(votes, justice, Show(m));
        Ok(acc + [Info(justice, v, JoinsMajority)])
  }

  /** `info[:9]`. */
  function Truncate(info: seq<Info>): (r: seq<Info>)
    ensures |r| <= MaxJustices && |r| <= |info|
    ensures |info| <= MaxJustices ==> r == info
    ensures |info| > MaxJustices ==> |r| == MaxJustices
  {
    if |info| <= MaxJustices then info else info[..MaxJustices]
  }

  /** The records built from the parsed vote list, before the cut at nine. */
  function Records(roster: seq<string>, votes: Dict, m: nat, perCuriam: bool,
                   majority: Option<MajorityList>, separate: seq<SeparateOpinion>): Result<seq<Info>, ParseError> {
    if perCuriam then Each(roster, Listing(votes, Show(m), PerCuriam))
    else
      var first :- MajorityRecords(majority, votes, m);
      var second :- Each(separate, SeparateRecord(votes));
      WithRemaining(roster, first + second, votes, m)
  }

  /** `extract_justice_info` on the roster, the court decision, both vote lists and the matches. */
  function JusticeInfo(roster: seq<string>, courtDecision: int, votesOriginal: string, votesAppellantAppellee: string,
                       perCuriam: bool, majority: Option<MajorityOpinion>, separate: seq<SeparateOpinion>)
    : (r: Result<seq<Info>, ParseError>)
    ensures r.Ok? ==> |r.value| <= MaxJustices
    ensures roster == [] ==> r == Ok([])
  {
    if roster == [] then Ok([])
    else
      var original :- Parse(votesOriginal);
      var votes :- Parse(votesAppellantAppellee);
      var all :- Records(roster, votes, InfoMajority(courtDecision), perCuriam, ListedMajority(majority), separate);
      Ok(Truncate(all))
  }

  /**
   * A non-empty roster: either vote list failing to parse is the failure, the
   * original list first; otherwise the records of the parsed list, cut at nine.
   */
  lemma JusticeInfoStages(roster: seq<string>, courtDecision: int, votesOriginal: string, votesAppellantAppellee: string,
                          perCuriam: bool, majority: Option<MajorityOpinion>, separate: seq<SeparateOpinion>)
    requires roster != []
    ensures var r := JusticeInfo(roster, courtDecision, votesOriginal, votesAppellantAppellee, perCuriam, majority, separate);
      && (Parse(votesOriginal).Err? ==> r == Err(Parse(votesOriginal).error))
      && (Parse(votesOriginal).Ok? && Parse(votesAppellantAppellee).Err? ==> r == Err(Parse(votesAppellantAppellee).error))
      && (Parse(votesOriginal).Ok? && Parse(votesAppellantAppellee).Ok? ==>
            var all := Records(roster, Parse(votesAppellantAppellee).value, InfoMajority(courtDecision), perCuriam,
                               ListedMajority(majority), separate);
            r == if all.Ok? then Ok(Truncate(all.value)) else Err(all.error))
  {
  }

  // ---- the remaining justices ----

  /** One more roster justice: skipped when already named, else read and appended, or its failure is the result. */
  lemma RemainingStep(roster: seq<string>, k: nat, info: seq<Info>, votes: Dict, m: nat)
    requires k < |roster| && WithRemaining(roster[..k], info, votes, m).Ok?
    ensures var acc := WithRemaining(roster[..k], info, votes, m).value;
      var v := VoteOf(votes, roster[k], Show(m));
      WithRemaining(roster[..k + 1], info, votes, m) ==
        if Named(acc, roster[k]) then Ok(acc)
        else if v.Err? then Err(v.error)
        else Ok(acc + [Info(roster[k], v.value, JoinsMajority)])
  {
    assert roster[..k + 1][..k] == roster[..k];
  }

  lemma {:induction false} RemainingPrefixFails(roster: seq<string>, k: nat, info: seq<Info>, votes: Dict, m: nat)
    requires k <= |roster| && WithRemaining(roster[..k], info, votes, m).Err?
    ensures WithRemaining(roster, info, votes, m) == WithRemaining(roster[..k], info, votes, m)
    decreases |roster| - k
  {
    if k < |roster| {
      assert roster[..|roster| - 1][..k] == roster[..k];
      RemainingPrefixFails(roster[..|roster| - 1], k, info, votes, m);
    } else {
      assert roster[..k] == roster;
    }
  }

  /**
   * The remaining-justices loop keeps the earlier records, leaves every
   * roster justice named, and adds only roster justices with code 2, each
   * named by no record before it.
   */
  lemma {:induction false} RemainingMeaning(roster: seq<string>, info: seq<Info>, votes: Dict, m: nat)
    ensures WithRemaining(roster, info, votes, m).Ok? ==>
      var acc := WithRemaining(roster, info, votes, m).value;
      && |info| <= |acc| && acc[..|info|] == info
      && (forall j :: j in roster ==> Named(acc, j))
      && (forall i :: |info| <= i < |acc| ==>
            acc[i].opinion == JoinsMajority && acc[i].name in roster && !Named(acc[..i], acc[i].name))
    decreases |roster|
  {
    if roster != [] && WithRemaining(roster, info, votes, m).Ok? {
      var prefix, justice := roster[..|roster| - 1], roster[|roster| - 1];
      RemainingMeaning(prefix, info, votes, m);
      var acc := WithRemaining(prefix, info, votes, m).value;
      var next := WithRemaining(roster, info, votes, m).value;
      assert forall j :: j in prefix ==> j in roster;
      assert forall j :: j in roster ==> j in prefix || j == justice;
      if !Named(acc, justice) {
        assert next == acc + [Info(justice, VoteOf(votes, justice, Show(m)).value, JoinsMajority)];
        assert next[..|acc|] == acc;
        assert next[..|info|] == acc[..|info|];
        forall j | j in roster ensures Named(next, j) {
          if j != justice {
            var i :| 0 <= i < |acc| && acc[i].name == j;
            assert next[i] == acc[i];
          } else {
            assert next[|acc|].name == j;
          }
        }
        forall i | |info| <= i < |next|
          ensures next[i].opinion == JoinsMajority && next[i].name in roster && !Named(next[..i], next[i].name)
        {
          if i < |acc| {
            assert next[..i] == acc[..i];
          } else {
            assert next[..i] == acc;
          }
        }
      }
    }
  }

  // ---- the whole stage ----

  /** The loop giving each listed justice a record with a fixed opinion code. */
  method ListRecords(names: seq<string>, votes: Dict, default: string, opinion: int)
    returns (r: Result<seq<Info>, ParseError>)
    ensures r == Each(names, Listing(votes, default, opinion))
  {
    ghost var f := Listing(votes, default, opinion);
    var info: seq<Info> := [];
    for k := 0 to |names|
      invariant Each(names[..k], f) == Ok(info)
    {
      var vote := VoteOf(votes, names[k], default);
      EachStep(names, f, k);
      if vote.Err? {
        EachPrefixFails(names, f, k + 1);
        return Err(vote.error);
      }
      info := info + [Info(names[k], vote.value, opinion)];
    }
    assert names[..|names|] == names;
    r := Ok(info);
  }

  /** The loop over the separate-opinion matches. */
  method SeparateRecords(separate: seq<SeparateOpinion>, votes: Dict) returns (r: Result<seq<Info>, ParseError>)
    ensures r == Each(separate, SeparateRecord(votes))
  {
    ghost var g := SeparateRecord(votes);
    var info: seq<Info> := [];
    for k := 0 to |separate|
      invariant Each(separate[..k], g) == Ok(info)
    {
      var op := separate[k];
      var vote := VoteOf(votes, op.justice, UnlistedSeparateVote);
      EachStep(separate, g, k);
      if vote.Err? {
        EachPrefixFails(separate, g, k + 1);
        return Err(vote.error);
      }
      var opinion: int;
      if op.kind == ConcurringInPartAndDissentingInPart {
        opinion := 9;
      } else if op.kind == Dissenting {
        opinion := if op.joined == "" then 6 else 7;
      } else {
        opinion := if op.joined == "" then 3 else 4;
      }
      info := info + [Info(op.justice, vote.value, opinion)];
    }
    assert separate[..|separate|] == separate;
    r := Ok(info);
  }

  /** The loop adding the roster justices no record names yet. */
  method AddRemaining(roster: seq<string>, info: seq<Info>, votes: Dict, m: nat) returns (r: Result<seq<Info>, ParseError>)
    ensures r == WithRemaining(roster, info, votes, m)
  {
    var all := info;
    for k := 0 to |roster|
      invariant WithRemaining(roster[..k], info, votes, m) == Ok(all)
    {
      var justice := roster[k];
      RemainingStep(roster, k, info, votes, m);
      if !(exists i :: 0 <= i < |all| && all[i].name == justice) {
        var vote := VoteOf(votes, justice, Show(m));
        if vote.Err? {
          RemainingPrefixFails(roster, k + 1, info, votes, m);
          return Err(vote.error);
        }
        all := all + [Info(justice, vote.value, JoinsMajority)];
      }
    }
    assert roster[..|roster|] == roster;
    r := Ok(all);
  }

  /** `extract_justice_info`. */
  method ExtractJusticeInfo(roster: seq<string>, courtDecision: int, votesOriginal: string, votesAppellantAppellee: string,
                            perCuriam: bool, majority: Option<MajorityOpinion>, separate: seq<SeparateOpinion>)
    returns (r: Result<seq<Info>, ParseError>)
    ensures r == JusticeInfo(roster, courtDecision, votesOriginal, votesAppellantAppellee, perCuriam, majority, separate)
  {
    if roster == [] {
      return Ok([]);
    }
    var original := Parse(votesOriginal);
    if original.Err? {
      return Err(original.error);
    }
    var parsed := Parse(votesAppellantAppellee);
    if parsed.Err? {
      return Err(parsed.error);
    }
    var votes := parsed.value;
    var m := InfoMajority(courtDecision);
    if perCuriam {
      var listed := ListRecords(roster, votes, Show(m), PerCuriam);
      if listed.Err? {
        return Err(listed.error);
      }
      return Ok(Truncate(listed.value));
    }
    var info: seq<Info> := [];
    if majority.Some? {
      var author := majority.value.author;
      var vote := VoteOf(votes, author, Show(m));
      if vote.Err? {
        return Err(vote.error);
      }
      var joined := ListRecords(Joiners(majority.value.joinedText), votes, Show(m), JoinsMajority);
      if joined.Err? {
        return Err(joined.error);
      }
      info := [Info(author, vote.value, WritesMajority)] + joined.value;
    }
    var second := SeparateRecords(separate, votes);
    if second.Err? {
      return Err(second.error);
    }
    var all := AddRemaining(roster, info + second.value, votes, m);
    if all.Err? {
      return Err(all.error);
    }
    r := Ok(Truncate(all.value));
  }

  // ---- what the stage gives ----

  lemma ListingAt(votes: Dict, default: string, opinion: int, name: string)
    ensures VoteOf(votes, name, default).Err? ==> Listing(votes, default, opinion)(name) == Err(VoteOf(votes, name, default).error)
    ensures VoteOf(votes, name, default).Ok? ==>
              Listing(votes, default, opinion)(name) == Ok(Info(name, VoteOf(votes, name, default).value, opinion))
  {
  }

  /**
   * Listing justices with one code succeeds exactly when every vote reads as
   * an integer, and then gives one record per justice, in order.
   */
  lemma ListedMeaning(names: seq<string>, votes: Dict, default: string, opinion: int)
    ensures Each(names, Listing(votes, default, opinion)).Ok? <==>
      forall i :: 0 <= i < |names| ==> VoteOf(votes, names[i], default).Ok?
    ensures Each(names, Listing(votes, default, opinion)).Ok? ==>
      var rs := Each(names, Listing(votes, default, opinion)).value;
      |rs| == |names| &&
      forall i :: 0 <= i < |names| ==>
        rs[i].name == names[i] && rs[i].opinion == opinion && VoteOf(votes, names[i], default) == Ok(rs[i].vote)
  {
    var f := Listing(votes, default, opinion);
    forall i | 0 <= i < |names| {
      ListingAt(votes, default, opinion, names[i]);
    }
    EachValues(names, f);
  }

  /** The separate-opinion records: one per match, in order, with the match's code. */
  lemma SeparateMeaning(separate: seq<SeparateOpinion>, votes: Dict)
    ensures Each(separate, SeparateRecord(votes)).Ok? ==>
      var rs := Each(separate, SeparateRecord(votes)).value;
      |rs| == |separate| &&
      forall i :: 0 <= i < |separate| ==>
        && rs[i].name == separate[i].justice
        && rs[i].opinion == SeparateCode(separate[i].kind, separate[i].joined)
        && VoteOf(votes, separate[i].justice, UnlistedSeparateVote) == Ok(rs[i].vote)
  {
    EachValues(separate, SeparateRecord(votes));
  }

  /** The majority records: the author with code 1, then each joiner with code 2. */
  lemma MajorityRecordsMeaning(mo: MajorityList, votes: Dict, m: nat, first: seq<Info>)
    requires MajorityRecords(Some(mo), votes, m) == Ok(first)
    ensures var joiners := mo.joiners;
      && |first| == 1 + |joiners|
      && first[0].name == mo.author && first[0].opinion == WritesMajority
      && VoteOf(votes, mo.author, Show(m)) == Ok(first[0].vote)
      && forall i :: 1 <= i < |first| ==> first[i].name == joiners[i - 1] && first[i].opinion == JoinsMajority
  {
    var v, rs := MajorityStages(mo, votes, m, first);
    ListedMeaning(mo.joiners, votes, Show(m), JoinsMajority);
    forall i | 1 <= i < |first| ensures first[i].name == mo.joiners[i - 1] && first[i].opinion == JoinsMajority {
      assert first[i] == rs[i - 1];
    }
  }

  lemma MajorityStages(mo: MajorityList, votes: Dict, m: nat, first: seq<Info>) returns (v: int, rs: seq<Info>)
    requires MajorityRecords(Some(mo), votes, m) == Ok(first)
    ensures VoteOf(votes, mo.author, Show(m)) == Ok(v)
    ensures Each(mo.joiners, Listing(votes, Show(m), JoinsMajority)) == Ok(rs)
    ensures first == [Info(mo.author, v, WritesMajority)] + rs
  {
    v := VoteOf(votes, mo.author, Show(m)).value;
    rs := Each(mo.joiners, Listing(votes, Show(m), JoinsMajority)).value;
  }

  /**
   * A per curiam opinion lists the roster in order, each justice with code 5
   * and the vote the list gives (the majority's side when unlisted); it fails
   * exactly when some justice's vote is not an integer.
   */
  lemma PerCuriamRecords(roster: seq<string>, votes: Dict, m: nat,
                         majority: Option<MajorityList>, separate: seq<SeparateOpinion>)
    ensures var r := Records(roster, votes, m, true, majority, separate);
      && (r.Ok? <==> forall i :: 0 <= i < |roster| ==> VoteOf(votes, roster[i], Show(m)).Ok?)
      && (r.Ok? ==>
            && |r.value| == |roster|
            && forall i :: 0 <= i < |roster| ==>
                 r.value[i].name == roster[i] && r.value[i].opinion == PerCuriam &&
                 VoteOf(votes, roster[i], Show(m)) == Ok(r.value[i].vote))
  {
    ListedMeaning(roster, votes, Show(m), PerCuriam);
  }

  predicate IsCode(c: int) {
    c == 1 || c == 2 || c == 3 || c == 4 || c == 6 || c == 7 || c == 9
  }

  /** Every record carries one of the codes used when there is no per curiam opinion. */
  predicate Codes(info: seq<Info>) {
    forall i :: 0 <= i < |info| ==> IsCode(info[i].opinion)
  }

  lemma MajorityCodes(majority: Option<MajorityList>, votes: Dict, m: nat, first: seq<Info>)
    requires MajorityRecords(majority, votes, m) == Ok(first)
    ensures Codes(first)
    ensures majority.Some? ==> |first| > 0 && first[0].name == majority.value.author && first[0].opinion == WritesMajority
  {
    if majority.Some? {
      MajorityRecordsMeaning(majority.value, votes, m, first);
      forall i | 0 <= i < |first| ensures IsCode(first[i].opinion) {
        if i > 0 {
          assert first[i].opinion == JoinsMajority;
        }
      }
    }
  }

  lemma SeparateCodes(separate: seq<SeparateOpinion>, votes: Dict, second: seq<Info>)
    requires Each(separate, SeparateRecord(votes)) == Ok(second)
    ensures Codes(second)
  {
    SeparateMeaning(separate, votes);
    forall i | 0 <= i < |second| ensures IsCode(second[i].opinion) {
      assert second[i].opinion == SeparateCode(separate[i].kind, separate[i].joined);
    }
  }

  lemma RemainingCodes(roster: seq<string>, info: seq<Info>, votes: Dict, m: nat)
    requires Codes(info)
    ensures WithRemaining(roster, info, votes, m).Ok? ==>
      var acc := WithRemaining(roster, info, votes, m).value;
      && Codes(acc) && |info| <= |acc| && acc[..|info|] == info
      && forall j :: j in roster ==> Named(acc, j)
  {
    RemainingMeaning(roster, info, votes, m);
    if WithRemaining(roster, info, votes, m).Ok? {
      var acc := WithRemaining(roster, info, votes, m).value;
      forall i | 0 <= i < |acc| ensures IsCode(acc[i].opinion) {
        if i < |info| {
          assert acc[i] == acc[..|info|][i];
        }
      }
    }
  }

  /**
   * Without a per curiam opinion every code is one of 1, 2, 3, 4, 6, 7 and 9,
   * the majority author, when matched, comes first with code 1, and every
   * roster justice has a record.
   */
  lemma RecordsWithoutPerCuriam(roster: seq<string>, votes: Dict, m: nat,
                                majority: Option<MajorityList>, separate: seq<SeparateOpinion>)
    ensures var r := Records(roster, votes, m, false, majority, separate);
      r.Ok? ==>
        && Codes(r.value)
        && (majority.Some? ==> |r.value| > 0 && r.value[0].name == majority.value.author && r.value[0].opinion == WritesMajority)
        && (forall j :: j in roster ==> Named(r.value, j))
  {
    var r := Records(roster, votes, m, false, majority, separate);
    if r.Ok? {
      var first, second := RecordsStages(roster, votes, m, majority, separate);
      MajorityCodes(majority, votes, m, first);
      SeparateCodes(separate, votes, second);
      CodesAppend(first, second);
      RemainingCodes(roster, first + second, votes, m);
      if majority.Some? {
        assert r.value[0] == r.value[..|first + second|][0] == first[0];
      }
    }
  }

  /** Records without a per curiam opinion that succeed are the remaining justices added to the two matched stages. */
  lemma RecordsStages(roster: seq<string>, votes: Dict, m: nat, majority: Option<MajorityList>, separate: seq<SeparateOpinion>)
      returns (first: seq<Info>, second: seq<Info>)
    requires Records(roster, votes, m, false, majority, separate).Ok?
    ensures MajorityRecords(majority, votes, m) == Ok(first)
    ensures Each(separate, SeparateRecord(votes)) == Ok(second)
    ensures Records(roster, votes, m, false, majority, separate) == WithRemaining(roster, first + second, votes, m)
  {
    first := MajorityRecords(majority, votes, m).value;
    second := Each(separate, SeparateRecord(votes)).value;
  }

  lemma CodesAppend(a: seq<Info>, b: seq<Info>)
    requires Codes(a) && Codes(b)
    ensures Codes(a + b)
  {
    forall i | 0 <= i < |a + b| ensures IsCode((a + b)[i].opinion) {
      if i >= |a| {
        assert (a + b)[i] == b[i - |a|];
      }
    }
  }

  /** The cut at nine keeps the first records as they are. */
  lemma TruncateKeeps(info: seq<Info>)
    ensures forall i :: 0 <= i < |Truncate(info)| ==> Truncate(info)[i] == info[i]
  {
  }

  /**
   * The whole stage without a per curiam opinion: every code is one of 1, 2,
   * 3, 4, 6, 7 and 9, the majority author, when matched, comes first with
   * code 1, and unless the list was cut at nine every roster justice has a
   * record.
   */
  lemma InfoWithoutPerCuriam(roster: seq<string>, courtDecision: int, votesOriginal: string, votesAppellantAppellee: string,
                             majority: Option<MajorityOpinion>, separate: seq<SeparateOpinion>)
    ensures var r := JusticeInfo(roster, courtDecision, votesOriginal, votesAppellantAppellee, false, majority, separate);
      r.Ok? ==>
        && Codes(r.value)
        && (roster != [] && majority.Some? ==>
              |r.value| > 0 && r.value[0].name == majority.value.author && r.value[0].opinion == WritesMajority)
        && (|r.value| < MaxJustices ==> forall j :: j in roster ==> Named(r.value, j))
  {
    var r := JusticeInfo(roster, courtDecision, votesOriginal, votesAppellantAppellee, false, majority, separate);
    if roster != [] && r.Ok? {
      JusticeInfoStages(roster, courtDecision, votesOriginal, votesAppellantAppellee, false, majority, separate);
      var votes, m := Parse(votesAppellantAppellee).value, InfoMajority(courtDecision);
      var listed := ListedMajority(majority);
      RecordsWithoutPerCuriam(roster, votes, m, listed, separate);
      var all := Records(roster, votes, m, false, listed, separate).value;
      assert r == Ok(Truncate(all));
      TruncateKeeps(all);
      forall i | 0 <= i < |r.value| ensures IsCode(r.value[i].opinion) {
        assert r.value[i] == all[i];
      }
      if majority.Some? {
        assert listed.value.author == majority.value.author;
        assert r.value[0] == all[0];
      }
    }
  }

  /**
   * The three vote stages together, for a per curiam opinion and a roster of
   * distinct safe names: each justice's record carries the final vote of the
   * vote stages.
   */
  lemma PerCuriamPipeline(roster: seq<string>, search: Votes.CueSearch, courtDecision: int,
                          majority: Option<MajorityOpinion>, separate: seq<SeparateOpinion>)
    requires roster != [] && Distinct(roster) && forall n :: n in roster ==> SafeName(n)
    ensures var final := Votes.FinalVotes(roster, search, courtDecision);
      var r := JusticeInfo(roster, courtDecision, Format(Votes.RawVotes(roster, search)), Format(final), true, majority, separate);
      && r.Ok?
      && |r.value| == (if |roster| <= MaxJustices then |roster| else MaxJustices)
      && forall i :: 0 <= i < |r.value| ==> r.value[i] == Info(roster[i], final[i].1, PerCuriam)
  {
    var final := Votes.FinalVotes(roster, search, courtDecision);
    FinalVotesRead(roster, search, courtDecision);
    Votes.VotesOriginalReadsBack(roster, search);
    PerCuriamOfVotes(roster, courtDecision, Format(Votes.RawVotes(roster, search)), Format(final), majority, separate, final);
  }

  /** The per curiam stage over vote lists that parse, the second one back to the given votes in roster order. */
  lemma PerCuriamOfVotes(roster: seq<string>, courtDecision: int, votesOriginal: string, votesAppellantAppellee: string,
                         majority: Option<MajorityOpinion>, separate: seq<SeparateOpinion>, final: seq<(string, nat)>)
    requires roster != [] && |final| == |roster|
    requires Parse(votesOriginal).Ok? && Parse(votesAppellantAppellee) == Ok(Stringified(final))
    requires DistinctKeys(Stringified(final))
    requires forall i :: 0 <= i < |roster| ==> Stringified(final)[i] == (roster[i], Show(final[i].1))
    ensures var r := JusticeInfo(roster, courtDecision, votesOriginal, votesAppellantAppellee, true, majority, separate);
      && r.Ok?
      && |r.value| == (if |roster| <= MaxJustices then |roster| else MaxJustices)
      && forall i :: 0 <= i < |r.value| ==> r.value[i] == Info(roster[i], final[i].1, PerCuriam)
  {
    var d := Stringified(final);
    var m := InfoMajority(courtDecision);
    StringifiedVotes(roster, final, Show(m));
    JusticeInfoStages(roster, courtDecision, votesOriginal, votesAppellantAppellee, true, majority, separate);
    PerCuriamListed(roster, d, m, ListedMajority(majority), separate, final);
    TruncateKeeps(Records(roster, d, m, true, ListedMajority(majority), separate).value);
  }

  /** Each roster justice reads back its own vote from the stringified list, whatever the default. */
  lemma StringifiedVotes(roster: seq<string>, final: seq<(string, nat)>, default: string)
    requires |final| == |roster| && DistinctKeys(Stringified(final))
    requires forall i :: 0 <= i < |roster| ==> Stringified(final)[i] == (roster[i], Show(final[i].1))
    ensures forall i :: 0 <= i < |roster| ==> VoteOf(Stringified(final), roster[i], default) == Ok(final[i].1 as int)
  {
    var d := Stringified(final);
    forall i | 0 <= i < |roster| ensures VoteOf(d, roster[i], default) == Ok(final[i].1 as int) {
      LookupAt(d, i);
      ShowParses(final[i].1);
    }
  }

  /** Per curiam records carry, justice by justice, the votes that the list gives them. */
  lemma PerCuriamListed(roster: seq<string>, votes: Dict, m: nat, majority: Option<MajorityList>,
                        separate: seq<SeparateOpinion>, final: seq<(string, nat)>)
    requires |final| == |roster|
    requires forall i :: 0 <= i < |roster| ==> VoteOf(votes, roster[i], Show(m)) == Ok(final[i].1 as int)
    ensures var r := Records(roster, votes, m, true, majority, separate);
      && r.Ok? && |r.value| == |roster|
      && forall i :: 0 <= i < |roster| ==> r.value[i] == Info(roster[i], final[i].1, PerCuriam)
  {
    PerCuriamRecords(roster, votes, m, majority, separate);
  }

  /** The final vote list of a roster of distinct safe names reads back as its pairs, in order. */
  lemma FinalVotesRead(roster: seq<string>, search: Votes.CueSearch, courtDecision: int)
    requires roster != [] && Distinct(roster) && forall n :: n in roster ==> SafeName(n)
    ensures var final := Votes.FinalVotes(roster, search, courtDecision);
      && |final| == |roster|
      && Parse(Format(final)) == Ok(Stringified(final))
      && DistinctKeys(Stringified(final))
      && forall i :: 0 <= i < |roster| ==> Stringified(final)[i] == (roster[i], Show(final[i].1))
  {
    var final := Votes.FinalVotes(roster, search, courtDecision);
    Votes.FinalVotesAt(roster, search, courtDecision, 0);
    forall i | 0 <= i < |roster| ensures final[i].0 == roster[i] && SafeName(final[i].0) {
      Votes.FinalVotesAt(roster, search, courtDecision, i);
      assert roster[i] in roster;
    }
    ParseFormat(final);
    var d := Stringified(final);
    forall i | 0 <= i < |d| ensures d[i] == (roster[i], Show(final[i].1)) {
      Votes.StringifiedAt(final, i);
    }
    DictOfDistinct(d);
  }
}
