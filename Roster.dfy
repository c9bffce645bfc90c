/**
 * The list-processing half of `extract_justices`: the names found in the
 * "Judges:" section are cleaned, de-duplicated and filtered, adjacent short
 * fragments are recombined, and the authoring justice, when the section
 * names one, is moved to the front.
 *
 * The regular expressions are inputs: `names` is what `re.findall` returns
 * for the judge-name pattern, and `authorSurname` is group 2 of the
 * "JUSTICE <first> <last> authored" search, if that search succeeds.
 */
module Roster {
  import opened Wrappers
  import opened Strings
  import opened VoteText

  /** The matches of one "Judges:" section; the section itself may be missing. */
  datatype JudgesSection = JudgesSection(names: seq<string>, authorSurname: Option<string>)

  /** `re.sub(r'\s+', '', name)`: delete every whitespace character. */
  function RemoveSpaces(s: string): (r: string)
    ensures |r| <= |s| && NoSpace(r)
    ensures forall c :: c in r ==> c in s
    ensures forall c :: c in s && !IsSpace(c) ==> c in r
    ensures NoSpace(s) ==> r == s
  {
    if s == [] then []
    else if IsSpace(s[0]) then RemoveSpaces(s[1..])
    else [s[0]] + RemoveSpaces(s[1..])
  }

  /** Whitespace is deleted piece by piece: the rest keeps its order. */
  lemma {:induction false} RemoveSpacesAppend(a: string, b: string)
    ensures RemoveSpaces(a + b) == RemoveSpaces(a) + RemoveSpaces(b)
    decreases |a|
  {
    if a == [] {
      assert a + b == b;
    } else {
      assert (a + b)[0] == a[0] && (a + b)[1..] == a[1..] + b;
      RemoveSpacesAppend(a[1..], b);
    }
  }

  /** One character: a whitespace character goes, any other stays. */
  lemma RemoveSpacesChar(c: char)
    ensures RemoveSpaces([c]) == if IsSpace(c) then [] else [c]
  {
    assert [c][1..] == [];
  }

  /**
   * `re.sub(r'^(?:VICE)?(?:CHIEF)?(?:ASSOCIATE)?JUSTICE', '', s)`. The three
   * optional words start with different letters, none of them "J", so taking
   * each one that is present is the only way the pattern can match; when
   * "JUSTICE" does not follow, nothing is removed.
   */
  function DropTitle(s: string): string {
    var c := Skip(Skip(Skip(s, Vice), Chief), Associate);
    if StartsWith(c, Justice) then c[|Justice|..] else s
  }

  /** The four words of the title pattern. */
  const Vice := "VICE"
  const Chief := "CHIEF"
  const Associate := "ASSOCIATE"
  const Justice := "JUSTICE"

  /** One optional word of the title pattern: taken when it is there. */
  function Skip(s: string, w: string): string {
    if StartsWith(s, w) then s[|w|..] else s
  }

  /** Removing the title only takes characters away from the front. */
  lemma DropTitleSuffix(s: string)
    ensures exists k :: 0 <= k <= |s| && DropTitle(s) == s[k..]
  {
    var a := Skip(s, Vice);
    var b := Skip(a, Chief);
    var c := Skip(b, Associate);
    var i := if StartsWith(s, Vice) then 4 else 0;
    var j := if StartsWith(a, Chief) then i + 5 else i;
    var k := if StartsWith(b, Associate) then j + 9 else j;
    assert a == s[i..] && b == s[j..] && c == s[k..];
    if StartsWith(c, Justice) {
      assert DropTitle(s) == s[k + 7..];
    } else {
      assert DropTitle(s) == s[0..];
    }
  }

  /** The prefixes the title pattern matches: optional "VICE", "CHIEF", "ASSOCIATE", in that order, then "JUSTICE". */
  const TitlePrefixes := [Justice, Associate + Justice, Chief + Justice, Chief + Associate + Justice,
                          Vice + Justice, Vice + Associate + Justice, Vice + Chief + Justice,
                          Vice + Chief + Associate + Justice]

  lemma Leads(w: string, x: string)
    ensures StartsWith(w + x, w) && (w + x)[|w|..] == x
  {
  }

  /** An optional word, present or absent, in front of text that cannot begin it. */
  lemma SkipOptional(v: string, w: string, y: string)
    requires v == [] || v == w
    requires w != [] && y != [] && y[0] != w[0]
    ensures Skip(v + y, w) == y
  {
    if v == [] {
      assert v + y == y;
    } else {
      Leads(w, y);
    }
  }

  /** One optional word in front of `y`: after `Skip`, `y` is left, and the text begins with `w` or with `y`. */
  lemma OptionalStep(v: string, w: string, y: string) returns (s: string)
    requires v == [] || v == w
    requires w != [] && y != [] && y[0] != w[0]
    ensures s == v + y && Skip(s, w) == y && s != [] && (s[0] == w[0] || s[0] == y[0])
  {
    s := v + y;
    SkipOptional(v, w, y);
  }

  /** Each optional word is taken exactly when it is there. */
  lemma DropTitleParts(v: string, c: string, a: string, x: string)
    requires v == [] || v == Vice
    requires c == [] || c == Chief
    requires a == [] || a == Associate
    ensures DropTitle(v + c + a + Justice + x) == x
  {
    var s3 := Justice + x;
    Leads(Justice, x);
    assert s3[0] == 'J';
    var s2 := OptionalStep(a, Associate, s3);
    var s1 := OptionalStep(c, Chief, s2);
    var s0 := OptionalStep(v, Vice, s1);
    Regroup(v, c, a, Justice, x);
  }

  lemma Regroup(v: string, c: string, a: string, j: string, x: string)
    ensures v + c + a + j + x == v + (c + (a + (j + x)))
  {
  }

  /** A title prefix at the start of a cleaned name is removed, and only it. */
  lemma DropTitlePrefix(p: string, x: string)
    requires p in TitlePrefixes
    ensures DropTitle(p + x) == x
  {
    var i :| 0 <= i < |TitlePrefixes| && TitlePrefixes[i] == p;
    var v := if i >= 4 then Vice else [];
    var c := if i % 4 >= 2 then Chief else [];
    var a := if i % 2 == 1 then Associate else [];
    assert p == v + c + a + Justice;
    DropTitleParts(v, c, a, x);
  }

  /** The word `Skip` took, empty when it took none. */
  lemma SkipTaken(s: string, w: string) returns (v: string)
    ensures (v == [] || v == w) && s == v + Skip(s, w)
  {
    v := if StartsWith(s, w) then w else [];
    if StartsWith(s, w) {
      assert s == s[..|w|] + s[|w|..];
    }
  }

  /** The title prefix formed by the optional words that were taken. */
  lemma TitleFrom(v: string, h: string, t: string) returns (p: string)
    requires v == [] || v == Vice
    requires h == [] || h == Chief
    requires t == [] || t == Associate
    ensures p == v + h + t + Justice && p in TitlePrefixes
  {
    p := v + h + t + Justice;
    var i := (if v == [] then 0 else 4) + (if h == [] then 0 else 2) + (if t == [] then 0 else 1);
    assert TitlePrefixes[i] == p;
  }

  /** When "JUSTICE" follows the optional words, the name begins with a title prefix. */
  lemma TitleSplit(s: string) returns (p: string, x: string)
    requires StartsWith(Skip(Skip(Skip(s, Vice), Chief), Associate), Justice)
    ensures p in TitlePrefixes && s == p + x
  {
    var a := Skip(s, Vice);
    var b := Skip(a, Chief);
    var c := Skip(b, Associate);
    var v := SkipTaken(s, Vice);
    var h := SkipTaken(a, Chief);
    var t := SkipTaken(b, Associate);
    p := TitleFrom(v, h, t);
    x := c[|Justice|..];
    assert c == Justice + x;
    Rebuild(s, a, b, c, v, h, t, Justice, x);
  }

  /** A name that begins with no title prefix is kept as it is. */
  lemma DropTitleNone(s: string)
    requires forall p :: p in TitlePrefixes ==> !StartsWith(s, p)
    ensures DropTitle(s) == s
  {
    if StartsWith(Skip(Skip(Skip(s, Vice), Chief), Associate), Justice) {
      var p, x := TitleSplit(s);
      Leads(p, x);
      assert false;
    }
  }

  lemma Rebuild(s: string, a: string, b: string, c: string, v: string, h: string, t: string, j: string, x: string)
    requires s == v + a && a == h + b && b == t + c && c == j + x
    ensures s == v + h + t + j + x
  {
  }

  /** The cleaned form of one matched name. */
  function CleanName(m: string): (r: string)
    ensures NoSpace(r)
    ensures forall c :: c in r ==> c in m
  {
    var t := RemoveSpaces(m);
    DropTitleSuffix(t);
    var r := DropTitle(t);
    assert forall c :: c in r ==> c in t;
    r
  }

  function Cleaned(names: seq<string>): (r: seq<string>)
    ensures |r| == |names|
  {
    if names == [] then [] else Cleaned(names[..|names| - 1]) + [CleanName(names[|names| - 1])]
  }

  /** What the filter keeps: longer than one character and not the token "JJ". */
  predicate Qualifies(name: string) {
    |name| > 1 && name != "JJ"
  }

  /**
   * The cleaned names, each kept at its first occurrence when it qualifies.
   * The result has no duplicate, no "JJ" and no name of length 0 or 1, and a
   * name is in it exactly when it is a qualifying cleaned match.
   */
  function Admitted(names: seq<string>): (js: seq<string>)
    ensures Distinct(js)
    ensures forall j :: j in js ==> Qualifies(j)
  {
    if names == [] then []
    else
      var prev := Admitted(names[..|names| - 1]);
      var c := CleanName(names[|names| - 1]);
      if Qualifies(c) && c !in prev then prev + [c] else prev
  }

  /** A name is admitted exactly when it is a qualifying cleaned match. */
  lemma {:induction false} AdmittedMembers(names: seq<string>)
    ensures forall j :: j in Admitted(names) <==> j in Cleaned(names) && Qualifies(j)
  {
    if names != [] {
      var prefix := names[..|names| - 1];
      AdmittedMembers(prefix);
      var c := CleanName(names[|names| - 1]);
      var prev, before := Admitted(prefix), Cleaned(prefix);
      assert Admitted(names) == if Qualifies(c) && c !in prev then prev + [c] else prev;
      assert Cleaned(names) == before + [c];
      forall j ensures j in Admitted(names) <==> j in before + [c] && Qualifies(j) {
        assert j in before + [c] <==> j in before || j == c;
      }
    }
  }

  /** Admitting one more match: the step the clean-up loop takes. */
  lemma AdmittedSnoc(names: seq<string>, m: string)
    ensures var prev, c := Admitted(names), CleanName(m);
      Admitted(names + [m]) == if Qualifies(c) && c !in prev then prev + [c] else prev
  {
    assert (names + [m])[..|names|] == names;
  }

  /** The clean-up loop: append each cleaned name that qualifies and is not yet listed. */
  method CleanRoster(names: seq<string>) returns (justices: seq<string>)
    ensures justices == Admitted(names)
  {
    justices := [];
    for k := 0 to |names|
      invariant justices == Admitted(names[..k])
    {
      var cleaned := CleanName(names[k]);
      AdmittedSnoc(names[..k], names[k]);
      assert names[..k + 1] == names[..k] + [names[k]];
      if |cleaned| > 1 && cleaned !in justices && cleaned != "JJ" {
        justices := justices + [cleaned];
      }
    }
    assert names[..|names|] == names;
  }

  /** The concatenation of all names of a list, in order. */
  function Concat(s: seq<string>): string {
    if s == [] then "" else s[0] + Concat(s[1..])
  }

  /**
   * Recombination of split names from position `i` on: a name of at most two
   * characters followed by one of at most three is merged with it. The list
   * never grows.
   */
  function CombineFrom(js: seq<string>, i: nat): (r: seq<string>)
    requires i <= |js|
    ensures |r| <= |js| - i
    decreases |js| - i
  {
    if i == |js| then []
    else if i + 1 < |js| && |js[i]| <= 2 && |js[i + 1]| <= 3 then [js[i] + js[i + 1]] + CombineFrom(js, i + 2)
    else [js[i]] + CombineFrom(js, i + 1)
  }

  function Combine(js: seq<string>): (r: seq<string>)
    ensures |r| <= |js|
  {
    CombineFrom(js, 0)
  }

  lemma ConcatPrepend(x: string, s: seq<string>)
    ensures Concat([x] + s) == x + Concat(s)
  {
    assert ([x] + s)[1..] == s;
  }

  lemma ConcatAt(js: seq<string>, i: nat)
    requires i < |js|
    ensures Concat(js[i..]) == js[i] + Concat(js[i + 1..])
  {
    assert js[i..][1..] == js[i + 1..];
  }

  /** Recombination neither loses, adds nor reorders a character. */
  lemma {:induction false} CombineKeepsText(js: seq<string>, i: nat)
    requires i <= |js|
    ensures Concat(CombineFrom(js, i)) == Concat(js[i..])
    decreases |js| - i
  {
    if i < |js| {
      ConcatAt(js, i);
      if i + 1 < |js| && |js[i]| <= 2 && |js[i + 1]| <= 3 {
        CombineKeepsText(js, i + 2);
        ConcatPrepend(js[i] + js[i + 1], CombineFrom(js, i + 2));
        ConcatAt(js, i + 1);
        assert (js[i] + js[i + 1]) + Concat(js[i + 2..]) == js[i] + (js[i + 1] + Concat(js[i + 2..]));
      } else {
        CombineKeepsText(js, i + 1);
        ConcatPrepend(js[i], CombineFrom(js, i + 1));
      }
    }
  }

  /** The recombination loop with its `skip_next` flag. */
  method CombineFragments(justices: seq<string>) returns (combined: seq<string>)
    ensures combined == Combine(justices)
  {
    combined := [];
    var skipNext := false;
    for i := 0 to |justices|
      invariant skipNext ==> i < |justices|
      invariant !skipNext ==> combined + CombineFrom(justices, i) == Combine(justices)
      invariant skipNext ==> combined + CombineFrom(justices, i + 1) == Combine(justices)
    {
      if skipNext {
        skipNext := false;
      } else {
        var justice := justices[i];
        if i < |justices| - 1 && |justice| <= 2 && |justices[i + 1]| <= 3 {
          var merged := [justice + justices[i + 1]];
          assert CombineFrom(justices, i) == merged + CombineFrom(justices, i + 2);
          assert combined + merged + CombineFrom(justices, i + 2) == combined + (merged + CombineFrom(justices, i + 2));
          combined := combined + merged;
          skipNext := true;
        } else {
          assert CombineFrom(justices, i) == [justice] + CombineFrom(justices, i + 1);
          assert combined + [justice] + CombineFrom(justices, i + 1) == combined + ([justice] + CombineFrom(justices, i + 1));
          combined := combined + [justice];
        }
      }
    }
  }

  /** Position of the first occurrence of `x`. */
  function IndexOf<T(==)>(l: seq<T>, x: T): (i: nat)
    requires x in l
    ensures i < |l| && l[i] == x && x !in l[..i]
  {
    if l[0] == x then 0 else 1 + IndexOf(l[1..], x)
  }

  /** `list.remove(x)`: drop the first occurrence of `x`, if there is one. */
  function RemoveFirst<T(==)>(l: seq<T>, x: T): (r: seq<T>)
    ensures x !in l ==> r == l
    ensures x in l ==> |r| == |l| - 1
  {
    if l == [] then []
    else if l[0] == x then l[1..]
    else [l[0]] + RemoveFirst(l[1..], x)
  }

  /** What is removed is exactly the first occurrence; the rest keep their order. */
  lemma {:induction false} RemoveFirstSplices<T>(l: seq<T>, x: T)
    requires x in l
    ensures RemoveFirst(l, x) == l[..IndexOf(l, x)] + l[IndexOf(l, x) + 1..]
  {
    if l[0] != x {
      RemoveFirstSplices(l[1..], x);
      var i := IndexOf(l[1..], x);
      assert l[1..][..i] == l[1..i + 1];
      assert l[1..][i + 1..] == l[i + 2..];
    }
  }

  /** `list.remove` takes exactly one copy out of the multiset, when there is one. */
  lemma {:induction false} RemoveFirstMultiset<T>(l: seq<T>, x: T)
    ensures x in l ==> multiset(RemoveFirst(l, x)) == multiset(l) - multiset{x}
    ensures x !in l ==> multiset(RemoveFirst(l, x)) == multiset(l)
  {
    if l != [] {
      RemoveFirstMultiset(l[1..], x);
      assert l == [l[0]] + l[1..];
      if l[0] != x {
        assert multiset(RemoveFirst(l, x)) == multiset{l[0]} + multiset(RemoveFirst(l[1..], x));
      }
    }
  }

  /** Remove the author if listed, then insert the author at position 0. */
  function MoveToFront(l: seq<string>, author: string): seq<string> {
    [author] + RemoveFirst(l, author)
  }

  /**
   * After the move the author is first; the other names follow in their old
   * order; no other name is gained or lost; and an author listed at most
   * once before is listed exactly once after.
   */
  lemma MoveToFrontPlacesAuthor(l: seq<string>, author: string)
    ensures var r := MoveToFront(l, author);
      && r[0] == author
      && r[1..] == RemoveFirst(l, author)
      && multiset(r) == (if author in l then multiset(l) else multiset(l) + multiset{author})
      && (multiset(l)[author] <= 1 ==> multiset(r)[author] == 1)
  {
    var r := MoveToFront(l, author);
    assert r[1..] == RemoveFirst(l, author);
    RemoveFirstMultiset(l, author);
    assert multiset(r) == multiset{author} + multiset(RemoveFirst(l, author));
  }

  /** The roster `extract_justices` returns. */
  function Justices(section: Option<JudgesSection>): seq<string> {
    match section
    case None => []
    case Some(JudgesSection(names, author)) =>
      var combined := Combine(Admitted(names));
      if author.Some? then MoveToFront(combined, author.value) else combined
  }

  /** `extract_justices`, given the matches of its regular expressions. */
  method ExtractJustices(section: Option<JudgesSection>) returns (roster: seq<string>)
    ensures roster == Justices(section)
  {
    if section.None? {
      return [];
    }
    var justices := CleanRoster(section.value.names);
    var combined := CombineFragments(justices);
    if section.value.authorSurname.Some? {
      var authorLastName := section.value.authorSurname.value;
      if authorLastName in combined {
        combined := RemoveFirst(combined, authorLastName);
      }
      combined := [authorLastName] + combined;
    }
    roster := combined;
  }

  /** Without a "Judges:" section the roster is empty. */
  lemma NoSectionNoJustices()
    ensures Justices(None) == []
  {
  }

  // ---- names that the vote strings can carry ----

  /** What the judge-name pattern guarantees of each match: no comma and no semicolon. */
  predicate SeparatorFree(m: string) {
    ',' !in m && ';' !in m
  }

  /** What the author pattern `\w+` guarantees: a non-empty run of word characters. */
  predicate WellFormedSection(section: Option<JudgesSection>) {
    section.Some? ==>
      && (forall m :: m in section.value.names ==> SeparatorFree(m))
      && (section.value.authorSurname.Some? ==> SafeName(section.value.authorSurname.value))
  }

  /** A qualifying cleaned match of a separator-free name is a safe name. */
  lemma {:induction false} CleanedSafe(names: seq<string>)
    requires forall m :: m in names ==> SeparatorFree(m)
    ensures forall j :: j in Cleaned(names) && Qualifies(j) ==> SafeName(j)
  {
    if names != [] {
      var prefix, m := names[..|names| - 1], names[|names| - 1];
      assert forall x :: x in prefix ==> x in names;
      CleanedSafe(prefix);
      assert m in names;
      assert Cleaned(names) == Cleaned(prefix) + [CleanName(m)];
    }
  }

  lemma {:induction false} CombineKeepsSafe(js: seq<string>, i: nat)
    requires i <= |js|
    requires forall j :: j in js ==> SafeName(j)
    ensures forall j :: j in CombineFrom(js, i) ==> SafeName(j)
    decreases |js| - i
  {
    if i < |js| {
      assert js[i] in js;
      if i + 1 < |js| && |js[i]| <= 2 && |js[i + 1]| <= 3 {
        assert js[i + 1] in js;
        CombineKeepsSafe(js, i + 2);
        var m := js[i] + js[i + 1];
        assert forall c :: c in m ==> c in js[i] || c in js[i + 1];
      } else {
        CombineKeepsSafe(js, i + 1);
      }
    }
  }

  /** Every roster name of a well-formed section is non-empty and free of whitespace, ',' and ';'. */
  lemma JusticesAreSafe(section: Option<JudgesSection>)
    requires WellFormedSection(section)
    ensures forall n :: n in Justices(section) ==> SafeName(n)
  {
    if section.Some? {
      var names := section.value.names;
      var admitted := Admitted(names);
      AdmittedMembers(names);
      CleanedSafe(names);
      assert forall j :: j in admitted ==> SafeName(j);
      CombineKeepsSafe(admitted, 0);
      var combined := Combine(admitted);
      if section.value.authorSurname.Some? {
        var a := section.value.authorSurname.value;
        RemoveFirstMultiset(combined, a);
        var rest := RemoveFirst(combined, a);
        assert forall n :: n in rest ==> n in multiset(rest);
        assert Justices(section) == [a] + rest;
      } else {
        assert Justices(section) == combined;
      }
    }
  }
}
