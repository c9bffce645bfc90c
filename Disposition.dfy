/**
 * The disposition classifier of `extract_disposition`: the outcome line is
 * tested against an ordered table of phrase patterns, the first pattern that
 * is found gives the disposition code (13, "No disposition", when none is),
 * and the court-decision direction is a fixed function of that code.
 *
 * The regular-expression search itself is a parameter: `search(p, outcome)`
 * stands for `re.search(<pattern of p>, outcome, re.IGNORECASE)`.
 */
module Disposition {
  import opened Wrappers
  import opened OrderedRules

  /** The patterns of the phrase table, one constructor per row, in table order. */
  datatype Phrase =
    | AffirmedInPartReversedInPartRemanded  // affirmed in part, reversed in part, and remanded
    | AffirmedReversedInPartRemanded        // affirmed and reversed in part and remanded
    | AffirmedVacatedInPartRemanded         // affirmed and vacated in part and remanded
    | AffirmedReversedInPart                // affirmed and reversed in part, not followed by "and remanded"
    | AffirmedVacatedInPart                 // affirmed and vacated in part, not followed by "and remanded"
    | ReversedRemanded                      // reversed and remanded
    | VacatedRemanded                       // vacated and remanded
    | Reversed                              // reversed, not followed by "and"
    | Vacated                               // vacated, not followed by "and"
    | AffirmedRemanded                      // affirmed and remanded
    | Affirmed                              // affirmed
    | Granted                               // stay ... granted | petition ... granted | motion ... granted
    | DeniedOrDismissed                     // petition denied | appeal dismissed
    | Certification                         // certification to a lower court

  /** The ordered phrase table with the code each phrase yields. */
  const Phrases: seq<(Phrase, int)> := [
    (AffirmedInPartReversedInPartRemanded, 8),
    (AffirmedReversedInPartRemanded, 8),
    (AffirmedVacatedInPartRemanded, 9),
    (AffirmedReversedInPart, 6),
    (AffirmedVacatedInPart, 7),
    (ReversedRemanded, 4),
    (VacatedRemanded, 5),
    (Reversed, 3),
    (Vacated, 10),
    (AffirmedRemanded, 14),
    (Affirmed, 2),
    (Granted, 1),
    (DeniedOrDismissed, 11),
    (Certification, 12)
  ]

  const NoDisposition := 13

  /** `re.search` of a phrase's pattern in an outcome text. */
  type PhraseSearch = (Phrase, string) -> bool

  /** The position of a phrase in the table. */
  function Rank(p: Phrase): (i: nat)
    ensures i < |Phrases| && Phrases[i].0 == p
  {
    match p
    case AffirmedInPartReversedInPartRemanded => 0
    case AffirmedReversedInPartRemanded => 1
    case AffirmedVacatedInPartRemanded => 2
    case AffirmedReversedInPart => 3
    case AffirmedVacatedInPart => 4
    case ReversedRemanded => 5
    case VacatedRemanded => 6
    case Reversed => 7
    case Vacated => 8
    case AffirmedRemanded => 9
    case Affirmed => 10
    case Granted => 11
    case DeniedOrDismissed => 12
    case Certification => 13
  }

  /** The code each phrase yields. */
  function CodeOf(p: Phrase): (code: int)
    ensures 1 <= code <= 14 && code != NoDisposition
  {
    match p
    case AffirmedInPartReversedInPartRemanded => 8
    case AffirmedReversedInPartRemanded => 8
    case AffirmedVacatedInPartRemanded => 9
    case AffirmedReversedInPart => 6
    case AffirmedVacatedInPart => 7
    case ReversedRemanded => 4
    case VacatedRemanded => 5
    case Reversed => 3
    case Vacated => 10
    case AffirmedRemanded => 14
    case Affirmed => 2
    case Granted => 1
    case DeniedOrDismissed => 11
    case Certification => 12
  }

  /** Row `i` of the table holds the phrase of rank `i` with that phrase's code. */
  lemma TableShape()
    ensures forall i :: 0 <= i < |Phrases| ==> Rank(Phrases[i].0) == i && Phrases[i].1 == CodeOf(Phrases[i].0)
  {
    forall i | 0 <= i < |Phrases|
      ensures Rank(Phrases[i].0) == i && Phrases[i].1 == CodeOf(Phrases[i].0)
    {
      if i < 7 {
        assert i in {0, 1, 2, 3, 4, 5, 6};
      } else {
        assert i in {7, 8, 9, 10, 11, 12, 13};
      }
    }
  }

  /** The phrases found in `outcome`, as a test on table rows. */
  function Found(outcome: string, search: PhraseSearch): Phrase -> bool {
    p => search(p, outcome)
  }

  /** The disposition code of an outcome text. */
  function Classify(outcome: string, search: PhraseSearch): (code: int)
    ensures 1 <= code <= 14
  {
    TableShape();
    FirstCode(Phrases, Found(outcome, search), NoDisposition)
  }

  /** The court-decision direction: 2 appellant, 1 appellee, 3 mixed or unknown, 0 indeterminate. */
  function CourtDecision(code: int): (d: int)
    ensures 0 <= d <= 3
    ensures d == 0 <==> code < 1 || code > 14 || code == NoDisposition
  {
    if code in [1, 3, 4, 5] then 2
    else if code in [2, 11, 14] then 1
    else if code in [6, 7, 8, 9, 10, 12] then 3
    else 0
  }

  /**
   * `extract_disposition`: take the outcome line (empty when the "outcome"
   * header is absent), scan the phrase table in order and stop at the first
   * phrase found, then derive the direction from the code.
   */
  method ExtractDisposition(outcomeLine: Option<string>, search: PhraseSearch)
    returns (code: int, decision: int, outcome: string)
    ensures outcome == (if outcomeLine.Some? then outcomeLine.value else "")
    ensures code == Classify(outcome, search)
    ensures decision == CourtDecision(code)
  {
    outcome := if outcomeLine.Some? then outcomeLine.value else "";
    code := NoDisposition;
    var i := 0;
    while i < |Phrases|
      invariant 0 <= i <= |Phrases|
      invariant forall j :: 0 <= j < i ==> !Found(outcome, search)(Phrases[j].0)
      invariant code == NoDisposition
    {
      var (pattern, c) := Phrases[i];
      if search(pattern, outcome) {
        code := c;
        FirstHitWins(Phrases, Found(outcome, search), NoDisposition, i);
        break;
      }
      i := i + 1;
    }
    if i == |Phrases| {
      NoHitDefault(Phrases, Found(outcome, search), NoDisposition);
    }
    decision := CourtDecision(code);
  }

  /** The first phrase of the table that is found in `outcome`, if any. */
  function Winner(outcome: string, search: PhraseSearch): Option<Phrase> {
    var i := FirstHit(Phrases, Found(outcome, search));
    if i < |Phrases| then Some(Phrases[i].0) else None
  }

  /**
   * First match wins: the code is that of the first phrase found, no phrase
   * ranked before it is found, and the code is 13 when nothing is found.
   */
  lemma ClassifyFirstMatch(outcome: string, search: PhraseSearch)
    ensures Winner(outcome, search).None? ==>
      Classify(outcome, search) == NoDisposition && forall q :: !search(q, outcome)
    ensures Winner(outcome, search).Some? ==>
      var p := Winner(outcome, search).value;
      && search(p, outcome)
      && Classify(outcome, search) == CodeOf(p)
      && forall q :: Rank(q) < Rank(p) ==> !search(q, outcome)
  {
    TableShape();
    FirstCodeIsFirstHit(Phrases, Found(outcome, search), NoDisposition);
    var i := FirstHit(Phrases, Found(outcome, search));
    forall q | Rank(q) < i ensures !search(q, outcome) {
      assert !Found(outcome, search)(Phrases[Rank(q)].0);
    }
  }

  /** The code is 13 exactly when no phrase of the table is found. */
  lemma NoDispositionIffNothingFound(outcome: string, search: PhraseSearch)
    ensures Classify(outcome, search) == NoDisposition <==> forall p :: !search(p, outcome)
  {
    ClassifyFirstMatch(outcome, search);
    var w := Winner(outcome, search);
    if w.Some? {
      assert search(w.value, outcome) && Classify(outcome, search) == CodeOf(w.value);
    }
  }

  /** The direction is 0 (indeterminate) exactly when no phrase is found. */
  lemma IndeterminateIffNothingFound(outcome: string, search: PhraseSearch)
    ensures CourtDecision(Classify(outcome, search)) == 0 <==> forall p :: !search(p, outcome)
  {
    NoDispositionIffNothingFound(outcome, search);
  }

  /** A phrase that is found bounds the winner: only it or a phrase ranked before it can win. */
  lemma FoundBoundsWinner(outcome: string, search: PhraseSearch, p: Phrase)
    requires search(p, outcome)
    ensures Winner(outcome, search).Some? && Rank(Winner(outcome, search).value) <= Rank(p)
  {
    ClassifyFirstMatch(outcome, search);
  }

  /**
   * Compound phrases shadow their parts: once "affirmed and reversed in part
   * and remanded" is found the code is 8, never 2, 3 or 6.
   */
  lemma CompoundReversedRemandedGivesEight(outcome: string, search: PhraseSearch)
    requires search(AffirmedReversedInPartRemanded, outcome)
    ensures Classify(outcome, search) == 8
  {
    FoundBoundsWinner(outcome, search, AffirmedReversedInPartRemanded);
    ClassifyFirstMatch(outcome, search);
  }

  /** "Reversed and remanded" found: the code is 4 or that of a compound listed before it. */
  lemma ReversedRemandedShadowsReversed(outcome: string, search: PhraseSearch)
    requires search(ReversedRemanded, outcome)
    ensures Classify(outcome, search) in {8, 9, 6, 7, 4}
  {
    FoundBoundsWinner(outcome, search, ReversedRemanded);
    ClassifyFirstMatch(outcome, search);
  }

  lemma RankInjective(p: Phrase, q: Phrase)
    ensures Rank(p) == Rank(q) ==> p == q
  {
  }

  lemma CodeThreeOnlyReversed(p: Phrase)
    ensures CodeOf(p) == 3 <==> p == Reversed
  {
  }

  lemma CodeTwoOnlyAffirmed(p: Phrase)
    ensures CodeOf(p) == 2 <==> p == Affirmed
  {
  }

  /** "Reversed" alone yields 3 exactly when no phrase listed before it is found. */
  lemma ReversedAloneIffNoCompound(outcome: string, search: PhraseSearch)
    ensures Classify(outcome, search) == 3 <==>
      search(Reversed, outcome) && forall q :: Rank(q) < Rank(Reversed) ==> !search(q, outcome)
  {
    ClassifyFirstMatch(outcome, search);
    var w := Winner(outcome, search);
    if w.Some? {
      CodeThreeOnlyReversed(w.value);
    }
    if search(Reversed, outcome) && forall q :: Rank(q) < Rank(Reversed) ==> !search(q, outcome) {
      FoundBoundsWinner(outcome, search, Reversed);
      RankInjective(w.value, Reversed);
    }
  }

  /** "Affirmed" alone yields 2 exactly when none of the ten phrases before it is found. */
  lemma AffirmedAloneIffNothingEarlier(outcome: string, search: PhraseSearch)
    ensures Classify(outcome, search) == 2 <==>
      search(Affirmed, outcome) && forall q :: Rank(q) < Rank(Affirmed) ==> !search(q, outcome)
  {
    ClassifyFirstMatch(outcome, search);
    var w := Winner(outcome, search);
    if w.Some? {
      CodeTwoOnlyAffirmed(w.value);
    }
    if search(Affirmed, outcome) && forall q :: Rank(q) < Rank(Affirmed) ==> !search(q, outcome) {
      FoundBoundsWinner(outcome, search, Affirmed);
      RankInjective(w.value, Affirmed);
    }
  }

  /**
   * The direction by the phrase that wins: a reversal, a vacatur with remand
   * and a granted stay, petition or motion favour the appellant; an
   * affirmance, an affirmance with remand and a denial or dismissal favour the
   * appellee; split rulings, a bare vacatur and a certification are mixed.
   */
  lemma DirectionOfWinningPhrase(outcome: string, search: PhraseSearch)
    ensures var w := Winner(outcome, search);
      var d := CourtDecision(Classify(outcome, search));
      && (w.None? ==> d == 0)
      && (w.Some? && w.value in {ReversedRemanded, VacatedRemanded, Reversed, Granted} ==> d == 2)
      && (w.Some? && w.value in {AffirmedRemanded, Affirmed, DeniedOrDismissed} ==> d == 1)
      && (w.Some? && w.value in {AffirmedInPartReversedInPartRemanded, AffirmedReversedInPartRemanded,
                                 AffirmedVacatedInPartRemanded, AffirmedReversedInPart, AffirmedVacatedInPart,
                                 Vacated, Certification}
          ==> d == 3)
  {
    ClassifyFirstMatch(outcome, search);
    var w := Winner(outcome, search);
    if w.Some? {
      DirectionOfPhrase(w.value);
    }
  }

  /** The direction each phrase's code yields. */
  lemma DirectionOfPhrase(p: Phrase)
    ensures p in {ReversedRemanded, VacatedRemanded, Reversed, Granted} ==> CourtDecision(CodeOf(p)) == 2
    ensures p in {AffirmedRemanded, Affirmed, DeniedOrDismissed} ==> CourtDecision(CodeOf(p)) == 1
    ensures p in {AffirmedInPartReversedInPartRemanded, AffirmedReversedInPartRemanded,
                  AffirmedVacatedInPartRemanded, AffirmedReversedInPart, AffirmedVacatedInPart,
                  Vacated, Certification}
      ==> CourtDecision(CodeOf(p)) == 3
  {
  }
}
