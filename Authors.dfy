/**
 * `extract_opinion_concur_dissent_authors`: the author of the opinion and
 * the lists of concurring and dissenting authors. The searches are inputs:
 * the name after "Opinion by", whether "PER CURIAM" occurs in the upper-cased
 * text, the name before "authored the opinion", and every name after
 * "Concur by" and "Dissent by", in text order.
 */
module Authors {
  import opened Wrappers
  import opened Strings

  const PerCuriam := "PER CURIAM"

  // ---- the concurring and dissenting lists ----

  /** The non-blank matches, stripped: the members of the `set(...)` the source builds. */
  function Listed(found: seq<string>): set<string> {
    set a | a in found && Strip(a) != "" :: Strip(a)
  }

  /** `order` holds each member of `names` once, in some order: what `list(set(...))` returns. */
  predicate Enumerates(order: seq<string>, names: set<string>) {
    Distinct(order) && (forall x :: x in order ==> x in names) && (forall x :: x in names ==> x in order)
  }

  /** As written: each name of the enumerated set cut at its first newline. */
  function CutEach(order: seq<string>): seq<string> {
    seq(|order|, i requires 0 <= i < |order| => CutAtNewline(order[i]))
  }

  /** The cut names of the non-blank matches, in text order. */
  function CutNames(found: seq<string>): seq<string>
    decreases |found|
  {
    if found == [] then []
    else
      var rest := CutNames(found[1..]);
      if Strip(found[0]) == "" then rest else [CutAtNewline(Strip(found[0]))] + rest
  }

  /** Each name kept at its first occurrence. */
  function Dedupe(s: seq<string>): seq<string>
    decreases |s|
  {
    if s == [] then []
    else
      var d := Dedupe(s[..|s| - 1]);
      if s[|s| - 1] in d then d else d + [s[|s| - 1]]
  }

  /** Corrected: the cut names without repeats, in the order they first occur. */
  function AuthorList(found: seq<string>): seq<string> {
    Dedupe(CutNames(found))
  }

  lemma {:induction false} DedupeMeaning(s: seq<string>)
    ensures Distinct(Dedupe(s))
    ensures forall x :: x in Dedupe(s) <==> x in s
    decreases |s|
  {
    if s != [] {
      var init := s[..|s| - 1];
      DedupeMeaning(init);
      assert s == init + [s[|s| - 1]];
    }
  }

  /** The name a non-blank match contributes: a non-empty first line starting with a non-space. */
  lemma CutShape(a: string)
    requires Strip(a) != ""
    ensures var x := CutAtNewline(Strip(a));
      x != "" && !IsSpace(x[0]) && '\n' !in x
  {
    StripShape(a);
    assert IsSpace('\n');
  }

  lemma {:induction false} CutNamesMembers(found: seq<string>)
    ensures forall x :: x in CutNames(found) <==> exists a :: a in found && Strip(a) != "" && x == CutAtNewline(Strip(a))
    decreases |found|
  {
    if found != [] {
      CutNamesMembers(found[1..]);
      assert forall a :: a in found <==> a == found[0] || a in found[1..];
    }
  }

  /**
   * The corrected list names each author once, holds exactly the names the
   * non-blank matches contribute, and each of them is a non-empty line.
   */
  lemma AuthorListMeaning(found: seq<string>)
    ensures var r := AuthorList(found);
      && Distinct(r)
      && (forall x :: x in r <==> exists a :: a in found && Strip(a) != "" && x == CutAtNewline(Strip(a)))
      && (forall x :: x in r ==> x != "" && !IsSpace(x[0]) && '\n' !in x)
      && (r == [] <==> forall a :: a in found ==> Strip(a) == "")
  {
    DedupeMeaning(CutNames(found));
    CutNamesMembers(found);
    forall a | a in found && Strip(a) != "" ensures CutAtNewline(Strip(a)) in AuthorList(found) {
      CutShape(a);
    }
    forall x | x in AuthorList(found) ensures x != "" && !IsSpace(x[0]) && '\n' !in x {
      var a :| a in found && Strip(a) != "" && x == CutAtNewline(Strip(a));
      CutShape(a);
    }
    if AuthorList(found) != [] {
      assert AuthorList(found)[0] in AuthorList(found);
    }
  }

  /** Whatever order the set is listed in, the list as written names the same authors as the corrected one. */
  lemma CutEachSameNames(found: seq<string>, order: seq<string>)
    requires Enumerates(order, Listed(found))
    ensures forall x :: x in CutEach(order) <==> x in AuthorList(found)
    ensures CutEach(order) == [] <==> AuthorList(found) == []
  {
    AuthorListMeaning(found);
    CutNamesMembers(found);
    forall x ensures x in CutEach(order) <==> x in AuthorList(found) {
      if x in CutEach(order) {
        var i :| 0 <= i < |order| && CutEach(order)[i] == x;
        assert order[i] in Listed(found);
      }
      if x in AuthorList(found) {
        var a :| a in found && Strip(a) != "" && x == CutAtNewline(Strip(a));
        assert Strip(a) in Listed(found);
        var i :| 0 <= i < |order| && order[i] == Strip(a);
        assert CutEach(order)[i] == x;
      }
    }
    if CutEach(order) != [] {
      assert CutEach(order)[0] in CutEach(order);
    }
    if AuthorList(found) != [] {
      assert AuthorList(found)[0] in AuthorList(found);
    }
  }

  /** Two different members of the set with the same first line become a repeated name. */
  lemma CutEachCollides(found: seq<string>, order: seq<string>, a: string, b: string)
    requires Enumerates(order, Listed(found))
    requires a in found && b in found && Strip(a) != "" && Strip(b) != ""
    requires Strip(a) != Strip(b) && CutAtNewline(Strip(a)) == CutAtNewline(Strip(b))
    ensures !Distinct(CutEach(order))
  {
    assert Strip(a) in Listed(found) && Strip(b) in Listed(found);
    var i :| 0 <= i < |order| && order[i] == Strip(a);
    var j :| 0 <= j < |order| && order[j] == Strip(b);
    assert CutEach(order)[i] == CutEach(order)[j] && i != j;
  }

  lemma TwoLineNames(a: string, b: string)
    requires a == "AB\nC" && b == "AB\nD"
    ensures Strip(a) == a && Strip(b) == b && a != b && CutAtNewline(a) == CutAtNewline(b) == "AB"
  {
    StripUnchanged(a);
    StripUnchanged(b);
    assert a[1..] == "B\nC" && b[1..] == "B\nD";
  }

  /**
   * As written, two matches that differ only after their first line, such
   * as "AB\nC" and "AB\nD", are two members of the set and then the
   * same name twice in the returned list, in either order.
   */
  lemma CutEachRepeats(order: seq<string>)
    requires Enumerates(order, Listed(["AB\nC", "AB\nD"]))
    ensures !Distinct(CutEach(order))
  {
    var found := ["AB\nC", "AB\nD"];
    TwoLineNames(found[0], found[1]);
    CutEachCollides(found, order, found[0], found[1]);
  }

  // ---- the opinion author ----

  /** The author the searches name: "authored the opinion" over "Opinion by", which is over "PER CURIAM". */
  function StatedAuthor(opinionBy: Option<string>, perCuriamInText: bool, authored: Option<string>): string {
    var first := if opinionBy.Some? then Strip(opinionBy.value) else if perCuriamInText then PerCuriam else "";
    if authored.Some? then Strip(authored.value) else first
  }

  datatype OpinionAuthors = OpinionAuthors(author: string, concurring: seq<string>, dissenting: seq<string>)

  /**
   * Corrected: the three results, each author of a concurrence or dissent
   * listed once; an opinion with no author and no separate writers is per
   * curiam.
   */
  function ExtractAuthors(opinionBy: Option<string>, perCuriamInText: bool, authored: Option<string>,
                          concurBy: seq<string>, dissentBy: seq<string>): (r: OpinionAuthors)
    ensures Distinct(r.concurring) && Distinct(r.dissenting)
  {
    AuthorListMeaning(concurBy);
    AuthorListMeaning(dissentBy);
    var concurring := AuthorList(concurBy);
    var dissenting := AuthorList(dissentBy);
    var stated := StatedAuthor(opinionBy, perCuriamInText, authored);
    OpinionAuthors(if stated == "" && concurring == [] && dissenting == [] then PerCuriam else stated, concurring, dissenting)
  }

  /**
   * As written: the lists are the sets of stripped non-blank matches, listed
   * in `concurOrder` and `dissentOrder`, each name then cut at its first
   * newline.
   */
  function ExtractAuthorsAsWritten(opinionBy: Option<string>, perCuriamInText: bool, authored: Option<string>,
                                   concurOrder: seq<string>, dissentOrder: seq<string>): (r: OpinionAuthors)
    ensures |r.concurring| == |concurOrder| && |r.dissenting| == |dissentOrder|
    ensures forall i :: 0 <= i < |concurOrder| ==> r.concurring[i] == CutAtNewline(concurOrder[i])
    ensures forall i :: 0 <= i < |dissentOrder| ==> r.dissenting[i] == CutAtNewline(dissentOrder[i])
    ensures var stated := StatedAuthor(opinionBy, perCuriamInText, authored);
      r.author == if stated == "" && concurOrder == [] && dissentOrder == [] then PerCuriam else stated
  {
    var concurring := CutEach(concurOrder);
    var dissenting := CutEach(dissentOrder);
    var stated := StatedAuthor(opinionBy, perCuriamInText, authored);
    OpinionAuthors(if stated == "" && concurring == [] && dissenting == [] then PerCuriam else stated, concurring, dissenting)
  }

  /**
   * Whatever order the sets are listed in, the code as written chooses the
   * same author as the corrected one and names the same concurring and
   * dissenting authors; only repeats and order can differ.
   */
  lemma AsWrittenAgrees(opinionBy: Option<string>, perCuriamInText: bool, authored: Option<string>,
                        concurBy: seq<string>, dissentBy: seq<string>, concurOrder: seq<string>, dissentOrder: seq<string>)
    requires Enumerates(concurOrder, Listed(concurBy)) && Enumerates(dissentOrder, Listed(dissentBy))
    ensures var w := ExtractAuthorsAsWritten(opinionBy, perCuriamInText, authored, concurOrder, dissentOrder);
      var c := ExtractAuthors(opinionBy, perCuriamInText, authored, concurBy, dissentBy);
      && w.author == c.author
      && (forall x :: x in w.concurring <==> x in c.concurring)
      && (forall x :: x in w.dissenting <==> x in c.dissenting)
  {
    CutEachSameNames(concurBy, concurOrder);
    CutEachSameNames(dissentBy, dissentOrder);
  }

  /**
   * The author: a named author is kept, the "authored the opinion" one
   * first; "PER CURIAM" when the text says so and no author is named; and
   * the author is left empty only when nobody is named but someone concurs
   * or dissents.
   */
  lemma AuthorChoice(opinionBy: Option<string>, perCuriamInText: bool, authored: Option<string>,
                     concurBy: seq<string>, dissentBy: seq<string>)
    ensures var r := ExtractAuthors(opinionBy, perCuriamInText, authored, concurBy, dissentBy);
      && (authored.Some? && Strip(authored.value) != "" ==> r.author == Strip(authored.value))
      && (authored.None? && opinionBy.Some? && Strip(opinionBy.value) != "" ==> r.author == Strip(opinionBy.value))
      && (authored.None? && opinionBy.None? && perCuriamInText ==> r.author == PerCuriam)
      && ((forall a :: a in concurBy ==> Strip(a) == "") && (forall a :: a in dissentBy ==> Strip(a) == "") ==> r.author != "")
      && (r.author == if StatedAuthor(opinionBy, perCuriamInText, authored) == "" &&
                         (forall a :: a in concurBy ==> Strip(a) == "") && (forall a :: a in dissentBy ==> Strip(a) == "")
                      then PerCuriam else StatedAuthor(opinionBy, perCuriamInText, authored))
      && (r.author == "" <==>
            StatedAuthor(opinionBy, perCuriamInText, authored) == "" &&
            ((exists a :: a in concurBy && Strip(a) != "") || (exists a :: a in dissentBy && Strip(a) != "")))
  {
    AuthorListMeaning(concurBy);
    AuthorListMeaning(dissentBy);
  }

  /** The same choice holds for the code as written, whatever order its sets are listed in. */
  lemma AuthorChoiceAsWritten(opinionBy: Option<string>, perCuriamInText: bool, authored: Option<string>,
                              concurBy: seq<string>, dissentBy: seq<string>, concurOrder: seq<string>, dissentOrder: seq<string>)
    requires Enumerates(concurOrder, Listed(concurBy)) && Enumerates(dissentOrder, Listed(dissentBy))
    ensures var r := ExtractAuthorsAsWritten(opinionBy, perCuriamInText, authored, concurOrder, dissentOrder);
      && (authored.Some? && Strip(authored.value) != "" ==> r.author == Strip(authored.value))
      && (authored.None? && opinionBy.Some? && Strip(opinionBy.value) != "" ==> r.author == Strip(opinionBy.value))
      && (authored.None? && opinionBy.None? && perCuriamInText ==> r.author == PerCuriam)
      && ((forall a :: a in concurBy ==> Strip(a) == "") && (forall a :: a in dissentBy ==> Strip(a) == "") ==> r.author != "")
      && (r.author == if StatedAuthor(opinionBy, perCuriamInText, authored) == "" &&
                         (forall a :: a in concurBy ==> Strip(a) == "") && (forall a :: a in dissentBy ==> Strip(a) == "")
                      then PerCuriam else StatedAuthor(opinionBy, perCuriamInText, authored))
      && (r.author == "" <==>
            StatedAuthor(opinionBy, perCuriamInText, authored) == "" &&
            ((exists a :: a in concurBy && Strip(a) != "") || (exists a :: a in dissentBy && Strip(a) != "")))
  {
    AsWrittenAgrees(opinionBy, perCuriamInText, authored, concurBy, dissentBy, concurOrder, dissentOrder);
    AuthorChoice(opinionBy, perCuriamInText, authored, concurBy, dissentBy);
  }
}
