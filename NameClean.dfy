/**
 * `clean_single_name`: a name normalised for matching. Titles followed by
 * whitespace and one trailing suffix are deleted, without regard to case;
 * the name is lowered; then it is rearranged into "last, first" form: the
 * text before the first comma is the last name, and with no comma the last
 * whitespace-separated word is moved to the front.
 */
module NameClean {
  import opened Wrappers
  import opened Strings

  /** `\w` on ASCII: a letter, a digit or the underscore. */
  predicate IsWordChar(c: char) {
    ('a' <= c <= 'z') || ('A' <= c <= 'Z') || ('0' <= c <= '9') || c == '_'
  }

  /** The title alternatives in the order the pattern tries them, lowered. */
  const Titles := ["mr.", "mrs.", "ms.", "dr.", "prof.", "rev.", "hon."]

  /** The suffix alternatives, lowered. */
  const Suffixes := ["jr.", "sr.", "i", "ii", "iii", "iv", "v", "esq."]

  /** `s` begins with the lowered word `t`, letters compared without case. */
  predicate BeginsWith(s: string, t: string) {
    |t| <= |s| && Lower(s[..|t|]) == t
  }

  /** The length of the first title in `ts` that `s` begins with, followed by a whitespace character. */
  function TitleIn(ts: seq<string>, s: string): (r: Option<nat>)
    ensures r.Some? ==> r.value < |s| && IsSpace(s[r.value])
    decreases |ts|
  {
    if ts == [] then None
    else if TitleMatch(s, ts[0]) then Some(|ts[0]|)
    else TitleIn(ts[1..], s)
  }

  /**
   * `re.sub(titles, '', s)` from a position whose preceding character is
   * (`afterWord`) or is not a word character: a title is removed with the
   * whitespace after it where a word boundary precedes it, and scanning
   * goes on after the removed text.
   */
  function Untitled(s: string, afterWord: bool): string
    decreases |s|
  {
    if s == [] then []
    else
      var t := TitleIn(Titles, s);
      if !afterWord && t.Some? then Untitled(s[t.value + 1..], false)
      else [s[0]] + Untitled(s[1..], IsWordChar(s[0]))
  }

  function RemoveTitles(s: string): string {
    Untitled(s, false)
  }

  /** How many non-whitespace characters `s` ends with. */
  function LastToken(s: string): (n: nat)
    ensures n <= |s| && (n < |s| ==> IsSpace(s[|s| - 1 - n]))
    ensures forall k :: |s| - n <= k < |s| ==> !IsSpace(s[k])
  {
    if |s| > 0 && !IsSpace(s[|s| - 1]) then 1 + LastToken(s[..|s| - 1]) else 0
  }

  predicate IsSuffix(token: string) {
    Lower(token) in Suffixes
  }

  /** A whitespace character and a suffix at the very end of `body` removed. */
  function WithoutSuffix(body: string): string {
    var n := LastToken(body);
    if n < |body| && IsSuffix(body[|body| - n..]) then body[..|body| - n - 1] else body
  }

  /**
   * `re.sub(suffixes, '', s)`: a whitespace character and a suffix at the
   * end of `s`, or just before a final newline, are removed.
   */
  function RemoveSuffix(s: string): string {
    if |s| > 0 && s[|s| - 1] == '\n' then WithoutSuffix(s[..|s| - 1]) + "\n" else WithoutSuffix(s)
  }

  /** The name after titles and suffix are removed, lowered. */
  function Lowered(name: string): string {
    Lower(RemoveSuffix(RemoveTitles(name)))
  }

  /** `clean_single_name`; a missing name (`NaN`) is `None`. */
  function CleanName(name: Option<string>): string {
    if name.None? then "" else Arrange(Lowered(name.value))
  }

  /** The "last, first" rearrangement of the lowered name. */
  function Arrange(n: string): string {
    var parts := SplitOn(n, ",");
    if |parts| > 1 then Strip(parts[0]) + ", " + Strip(Join(parts[1..], " "))
    else
      var ws := Words(n);
      if |ws| > 1 then ws[|ws| - 1] + ", " + Join(ws[..|ws| - 1], " ")
      else Strip(n)
  }

  // ---- titles and suffixes ----

  /** A title in any case, then whitespace, at the start of a name is removed with that whitespace. */
  lemma LeadingTitle(t: string, w: char, rest: string)
    requires Lower(t) in Titles && IsSpace(w)
    ensures RemoveTitles(t + [w] + rest) == RemoveTitles(rest)
  {
    var s := t + [w] + rest;
    assert s[..|t|] == t && s[|t|] == w;
    assert TitleIn(Titles, s) == Some(|t|) by {
      TitleFirst(t, w, rest);
    }
    assert s[|t| + 1..] == rest;
  }

  /** `u` is the word at the start of `s`, followed by whitespace. */
  predicate TitleMatch(s: string, u: string) {
    |u| < |s| && BeginsWith(s, u) && IsSpace(s[|u|])
  }

  /** Two words without whitespace that both match at the start of `s` are the same word. */
  lemma MatchUnique(s: string, u: string, l: string)
    requires NoSpace(u) && NoSpace(l) && TitleMatch(s, u) && TitleMatch(s, l)
    ensures u == l
  {
    if |u| == |l| {
      assert Lower(s[..|u|]) == u;
    }
  }

  /** Whichever alternative of `ts` matches, the first match found has its length. */
  lemma {:induction false} TitleInFinds(ts: seq<string>, s: string, l: string)
    requires forall k :: 0 <= k < |ts| ==> NoSpace(ts[k])
    requires l in ts && TitleMatch(s, l)
    ensures TitleIn(ts, s) == Some(|l|)
    decreases |ts|
  {
    if TitleMatch(s, ts[0]) {
      MatchUnique(s, ts[0], l);
    } else {
      assert l in ts[1..];
      TitleInFinds(ts[1..], s, l);
    }
  }

  /** No title alternative tried before the one `t` spells out matches: none has whitespace in it. */
  lemma TitleFirst(t: string, w: char, rest: string)
    requires Lower(t) in Titles && IsSpace(w)
    ensures TitleIn(Titles, t + [w] + rest) == Some(|t|)
  {
    var s := t + [w] + rest;
    assert s[..|t|] == t && s[|t|] == w;
    assert forall k :: 0 <= k < |Titles| ==> NoSpace(Titles[k]);
    TitleInFinds(Titles, s, Lower(t));
  }

  /** A name with no period has no title to remove. */
  lemma {:induction false} NoPeriodKeepsTitles(s: string, afterWord: bool)
    requires '.' !in s
    ensures Untitled(s, afterWord) == s
    decreases |s|
  {
    if s != [] {
      if TitleIn(Titles, s).Some? {
        TitleHasPeriod(Titles, s);
      }
      NoPeriodKeepsTitles(s[1..], IsWordChar(s[0]));
    }
  }

  lemma {:induction false} TitleHasPeriod(ts: seq<string>, s: string)
    requires forall k :: 0 <= k < |ts| ==> |ts[k]| > 0 && ts[k][|ts[k]| - 1] == '.'
    requires TitleIn(ts, s).Some?
    ensures '.' in s
    decreases |ts|
  {
    if !TitleMatch(s, ts[0]) {
      TitleHasPeriod(ts[1..], s);
    } else {
      var n := |ts[0]|;
      assert Lower(s[..n])[n - 1] == '.';
      assert s[n - 1] in s;
    }
  }

  /** Lowering leaves a whitespace character as it is. */
  lemma LowerKeepsSpace(s: string, k: nat)
    requires k < |s| && IsSpace(s[k])
    ensures Lower(s)[k] == s[k]
  {
  }

  /** A word without whitespace that matches at the start ends before the first whitespace character `w0`. */
  lemma MatchBeforeSpace(q: string, w0: char, x: string, u: string)
    requires IsSpace(w0) && NoSpace(u)
    ensures TitleMatch(q + [w0] + x, u) <==> TitleMatch(q + [w0], u)
  {
    var s, s' := q + [w0] + x, q + [w0];
    if |q| < |u| <= |s| {
      LowerKeepsSpace(s[..|u|], |q|);
      assert Lower(s[..|u|])[|q|] == w0;
      assert !IsSpace(u[|q|]) by {
        assert u[|q|] in u;
      }
    }
    if |u| <= |q| {
      assert s[..|u|] == s'[..|u|] && s[|u|] == s'[|u|];
    }
  }

  lemma TitlesNoSpace()
    ensures forall k :: 0 <= k < |Titles| ==> NoSpace(Titles[k])
  {
  }

  /** What follows the first whitespace character does not change which title is found. */
  lemma {:induction false} TitleInBeforeSpace(ts: seq<string>, q: string, w0: char, x: string)
    requires IsSpace(w0) && forall k :: 0 <= k < |ts| ==> NoSpace(ts[k])
    ensures TitleIn(ts, q + [w0] + x) == TitleIn(ts, q + [w0])
    decreases |ts|
  {
    if ts != [] {
      MatchBeforeSpace(q, w0, x, ts[0]);
      TitleInBeforeSpace(ts[1..], q, w0, x);
    }
  }

  /** A title found where no word character precedes it is dropped with the whitespace after it. */
  lemma UntitledDrop(s: string, t: Option<nat>, b: bool)
    requires s != [] && t == TitleIn(Titles, s) && !b && t.Some?
    ensures Untitled(s, b) == Untitled(s[t.value + 1..], false)
  {
  }

  /** Otherwise the first character is kept and the scan goes on after it. */
  lemma UntitledKeep(s: string, t: Option<nat>, b: bool)
    requires s != [] && t == TitleIn(Titles, s) && (b || t.None?)
    ensures Untitled(s, b) == [s[0]] + Untitled(s[1..], IsWordChar(s[0]))
  {
  }

  /** A finder of titles: a found title and the whitespace after it lie within the text. */
  ghost predicate Finds(f: string -> Option<nat>) {
    forall z :: f(z).Some? ==> f(z).value < |z|
  }

  /** The text up to and including its first whitespace character (all of it when there is none). */
  function Head(s: string): (r: string)
    ensures |r| <= |s|
    decreases |s|
  {
    if s == [] then []
    else if IsSpace(s[0]) then [s[0]]
    else [s[0]] + Head(s[1..])
  }

  /** `Head` stops at the whitespace character `w0`. */
  lemma {:induction false} HeadSplit(p: string, w0: char, x: string)
    requires IsSpace(w0)
    ensures Head(p + [w0] + x) == Head(p + [w0])
    decreases |p|
  {
    FirstAndRest(p, w0, x);
    if p == [] {
      assert ([w0] + x)[0] == w0 && [w0][0] == w0;
    } else {
      HeadSplit(p[1..], w0, x);
      var y, z := p[1..] + [w0] + x, p[1..] + [w0];
      assert ([p[0]] + y)[0] == p[0] && ([p[0]] + y)[1..] == y;
      assert ([p[0]] + z)[0] == p[0] && ([p[0]] + z)[1..] == z;
    }
  }

  /** `Head(s)` begins `s`, and it is all of `s` or ends in a whitespace character. */
  lemma {:induction false} HeadParts(s: string)
    ensures s == Head(s) + s[|Head(s)|..]
    ensures Head(s) == s || (Head(s) != [] && IsSpace(Head(s)[|Head(s)| - 1]))
    decreases |s|
  {
    if s != [] && !IsSpace(s[0]) {
      HeadParts(s[1..]);
      assert s == [s[0]] + s[1..];
    }
  }

  /** The title search of the pattern looks no further than `Head`. */
  lemma TitleInHead(s: string)
    ensures TitleIn(Titles, s) == TitleIn(Titles, Head(s))
  {
    HeadParts(s);
    var h := Head(s);
    if h != s {
      var q, w0, rest := h[..|h| - 1], h[|h| - 1], s[|h|..];
      assert h == q + [w0];
      assert s == q + [w0] + rest;
      TitlesNoSpace();
      TitleInBeforeSpace(Titles, q, w0, rest);
    }
  }

  /** The scan of `Untitled` with the title search `f`, which is shown only the `Head` of the text. */
  function Scan(f: string -> Option<nat>, s: string, b: bool): string
    requires Finds(f)
    decreases |s|
  {
    if s == [] then []
    else
      var t := f(Head(s));
      if !b && t.Some? then Scan(f, s[t.value + 1..], false)
      else [s[0]] + Scan(f, s[1..], IsWordChar(s[0]))
  }

  const FindTitle := (z: string) => TitleIn(Titles, z)

  /** `Untitled` is the scan with the title search of the pattern. */
  lemma {:induction false} UntitledIsScan(s: string, b: bool)
    ensures Finds(FindTitle) && Untitled(s, b) == Scan(FindTitle, s, b)
    decreases |s|
  {
    if s != [] {
      var t := TitleIn(Titles, s);
      TitleInHead(s);
      assert FindTitle(Head(s)) == t;
      if !b && t.Some? {
        UntitledDrop(s, t, b);
        UntitledIsScan(s[t.value + 1..], false);
      } else {
        UntitledKeep(s, t, b);
        UntitledIsScan(s[1..], IsWordChar(s[0]));
      }
    }
  }

  /** The scan splits just after a whitespace character. */
  lemma {:induction false} ScanSplit(f: string -> Option<nat>, p: string, w0: char, x: string, b: bool)
    requires Finds(f) && IsSpace(w0)
    ensures Scan(f, p + [w0] + x, b) == Scan(f, p + [w0], b) + Scan(f, x, false)
    decreases |p|
  {
    HeadSplit(p, w0, x);
    var t := f(Head(p + [w0]));
    if !b && t.Some? {
      var n := t.value;
      if n < |p| {
        ScanSplit(f, p[n + 1..], w0, x, false);
      }
      ScanSplitDrop(f, p, w0, x, b);
    } else {
      if p != [] {
        ScanSplit(f, p[1..], w0, x, IsWordChar(p[0]));
      }
      ScanSplitKeep(f, p, w0, x, b);
    }
  }

  /** The split where a title is dropped, given the split of what follows it. */
  lemma ScanSplitDrop(f: string -> Option<nat>, p: string, w0: char, x: string, b: bool)
    requires Finds(f) && IsSpace(w0) && !b
    requires Head(p + [w0] + x) == Head(p + [w0]) && f(Head(p + [w0])).Some?
    requires var n := f(Head(p + [w0])).value;
      n < |p| ==> Scan(f, p[n + 1..] + [w0] + x, false) == Scan(f, p[n + 1..] + [w0], false) + Scan(f, x, false)
    ensures Scan(f, p + [w0] + x, b) == Scan(f, p + [w0], b) + Scan(f, x, false)
  {
    var n := f(Head(p + [w0])).value;
    SliceAfter(p, w0, x, n + 1);
  }

  /** The split where the first character is kept, given the split of the rest. */
  lemma ScanSplitKeep(f: string -> Option<nat>, p: string, w0: char, x: string, b: bool)
    requires Finds(f) && IsSpace(w0)
    requires Head(p + [w0] + x) == Head(p + [w0]) && (b || f(Head(p + [w0])).None?)
    requires p != [] ==>
      Scan(f, p[1..] + [w0] + x, IsWordChar(p[0])) == Scan(f, p[1..] + [w0], IsWordChar(p[0])) + Scan(f, x, false)
    ensures Scan(f, p + [w0] + x, b) == Scan(f, p + [w0], b) + Scan(f, x, false)
  {
    FirstAndRest(p, w0, x);
    if p == [] {
      assert !IsWordChar(w0) && [w0] == [w0] + [];
      ScanKeepFront(f, w0, x, [], Scan(f, x, false), b);
    } else {
      ScanKeepFront(f, p[0], p[1..] + [w0] + x, p[1..] + [w0], Scan(f, x, false), b);
    }
  }

  /** `p + [w0] + x` and `p + [w0]` taken apart at their first character. */
  lemma FirstAndRest(p: string, w0: char, x: string)
    ensures p == [] ==> p + [w0] + x == [w0] + x && p + [w0] == [w0]
    ensures p != [] ==> p + [w0] + x == [p[0]] + (p[1..] + [w0] + x) && p + [w0] == [p[0]] + (p[1..] + [w0])
  {
    if p != [] {
      assert p == [p[0]] + p[1..];
    }
  }

  /** A kept first character goes in front of both sides of a split of what follows it. */
  lemma ScanKeepFront(f: string -> Option<nat>, c: char, y: string, z: string, tail: string, b: bool)
    requires Finds(f)
    requires Head([c] + y) == Head([c] + z) && (b || f(Head([c] + z)).None?)
    requires Scan(f, y, IsWordChar(c)) == Scan(f, z, IsWordChar(c)) + tail
    ensures Scan(f, [c] + y, b) == Scan(f, [c] + z, b) + tail
  {
    ScanKeepChar(f, c, y, b);
    ScanKeepChar(f, c, z, b);
    Associate([c], Scan(f, z, IsWordChar(c)), tail);
  }

  /** Concatenation regrouped, for three pieces of text. */
  lemma Associate(u: string, t: string, v: string)
    ensures u + (t + v) == u + t + v
  {
  }

  /** A kept character goes in front of the scan of the rest. */
  lemma ScanKeepChar(f: string -> Option<nat>, c: char, y: string, b: bool)
    requires Finds(f) && (b || f(Head([c] + y)).None?)
    ensures Scan(f, [c] + y, b) == [c] + Scan(f, y, IsWordChar(c))
  {
    assert ([c] + y)[0] == c && ([c] + y)[1..] == y;
  }

  /** Dropping `k` characters from the front, up to just past `w0`. */
  lemma SliceAfter(p: string, w0: char, x: string, k: nat)
    requires k <= |p| + 1
    ensures k <= |p| ==> (p + [w0] + x)[k..] == p[k..] + [w0] + x && (p + [w0])[k..] == p[k..] + [w0]
    ensures k == |p| + 1 ==> (p + [w0] + x)[k..] == x && (p + [w0])[k..] == []
  {
  }

  /**
   * Title removal splits at a whitespace character: the text after it is
   * scanned afresh, a whitespace character being no word character.
   */
  lemma UntitledSplit(p: string, w0: char, x: string, b: bool)
    requires IsSpace(w0)
    ensures Untitled(p + [w0] + x, b) == Untitled(p + [w0], b) + Untitled(x, false)
  {
    UntitledIsScan(p + [w0] + x, b);
    UntitledIsScan(p + [w0], b);
    UntitledIsScan(x, false);
    ScanSplit(FindTitle, p, w0, x, b);
  }

  /**
   * A title in any case between two whitespace characters, anywhere in the
   * name, is removed with the whitespace after it; the text on either side
   * is cleaned on its own.
   */
  lemma MidTitle(a: string, w0: char, t: string, w: char, rest: string)
    requires IsSpace(w0) && Lower(t) in Titles && IsSpace(w)
    ensures RemoveTitles(a + [w0] + t + [w] + rest) == RemoveTitles(a + [w0]) + RemoveTitles(rest)
  {
    Regroup(a + [w0], t, [w], rest);
    UntitledSplit(a, w0, t + [w] + rest, false);
    LeadingTitle(t, w, rest);
  }

  lemma Regroup(u: string, t: string, v: string, r: string)
    ensures u + t + v + r == u + (t + v + r)
  {
  }

  /** The whitespace character and the suffix that end `x + [w] + t` are cut off. */
  lemma SuffixCut(x: string, w: char, t: string)
    requires IsSpace(w) && IsSuffix(t)
    ensures WithoutSuffix(x + [w] + t) == x
  {
    SuffixShape(t);
    var s := x + [w] + t;
    assert s[..|s| - |t|] == x + [w];
    TokenOf(x + [w], t);
    assert s[|s| - |t|..] == t;
    assert s[..|s| - |t| - 1] == x;
  }

  /** A suffix after a whitespace character at the end of a name is removed with that character. */
  lemma SuffixAtEnd(x: string, w: char, t: string)
    requires IsSpace(w) && IsSuffix(t)
    ensures RemoveSuffix(x + [w] + t) == x
  {
    SuffixShape(t);
    SuffixCut(x, w, t);
  }

  /** Before a final newline the same holds, and the newline stays. */
  lemma SuffixBeforeNewline(x: string, w: char, t: string)
    requires IsSpace(w) && IsSuffix(t)
    ensures RemoveSuffix(x + [w] + t + "\n") == x + "\n"
  {
    var body := x + [w] + t;
    var s := body + "\n";
    assert s[..|s| - 1] == body;
    SuffixCut(x, w, t);
  }

  /** A suffix has no whitespace and does not end with a newline. */
  lemma SuffixShape(t: string)
    requires IsSuffix(t)
    ensures t != [] && NoSpace(t) && t[|t| - 1] != '\n'
  {
    var l := Lower(t);
    forall c | c in t ensures !IsSpace(c) {
      var k :| 0 <= k < |t| && t[k] == c;
      assert l[k] in l;
    }
    assert l[|t| - 1] in l;
  }

  /** The last token of `a + t` is `t` when `t` has no whitespace and `a` ends with some. */
  lemma {:induction false} TokenOf(a: string, t: string)
    requires NoSpace(t) && |a| > 0 && IsSpace(a[|a| - 1])
    ensures LastToken(a + t) == |t|
    decreases |t|
  {
    if t == [] {
      assert a + t == a;
    } else {
      var s := a + t;
      assert t[|t| - 1] in t;
      assert s[..|s| - 1] == a + t[..|t| - 1];
      assert forall c :: c in t[..|t| - 1] ==> c in t;
      TokenOf(a, t[..|t| - 1]);
    }
  }

  // ---- the rearrangement ----

  /** The name keeps none of its upper-case letters: lowering comes before any rearrangement. */
  lemma CleanNameNoUpper(name: Option<string>)
    ensures NoUpper(CleanName(name))
  {
    if name.Some? {
      LowerHasNoUpper(RemoveSuffix(RemoveTitles(name.value)));
      ArrangeNoUpper(Lowered(name.value));
    }
  }

  lemma ArrangeNoUpper(n: string)
    requires NoUpper(n)
    ensures NoUpper(Arrange(n))
  {
    if |SplitOn(n, ",")| > 1 {
      CommaNoUpper(n);
    } else if |Words(n)| > 1 {
      WordsNoUpper(n);
    } else {
      StripShape(n);
    }
  }

  lemma CommaNoUpper(n: string)
    requires NoUpper(n) && |SplitOn(n, ",")| > 1
    ensures var parts := SplitOn(n, ",");
      NoUpper(Strip(parts[0]) + ", " + Strip(Join(parts[1..], " ")))
  {
    var parts := SplitOn(n, ",");
    var joined := Join(parts[1..], " ");
    assert NoUpper(Strip(parts[0])) by {
      SplitChars(n, ",");
      assert parts[0] in parts;
      StripShape(parts[0]);
    }
    assert NoUpper(Strip(joined)) by {
      SplitChars(n, ",");
      JoinChars(parts[1..], " ");
      assert forall p :: p in parts[1..] ==> p in parts;
      assert NoUpper(joined);
      StripShape(joined);
    }
    CommaJoinNoUpper(Strip(parts[0]), Strip(joined));
  }

  lemma CommaJoinNoUpper(a: string, b: string)
    requires NoUpper(a) && NoUpper(b)
    ensures NoUpper(a + ", " + b)
  {
  }

  lemma WordsNoUpper(n: string)
    requires NoUpper(n) && |Words(n)| > 1
    ensures var ws := Words(n);
      NoUpper(ws[|ws| - 1] + ", " + Join(ws[..|ws| - 1], " "))
  {
    var ws := Words(n);
    WordsShape(n);
    assert ws[|ws| - 1] in ws;
    JoinChars(ws[..|ws| - 1], " ");
    assert forall w :: w in ws[..|ws| - 1] ==> w in ws;
  }

  /** A missing name is the empty string. */
  lemma MissingName()
    ensures CleanName(None) == ""
  {
  }

  /**
   * With a comma, the last name is the text before the first comma and the
   * given names are the rest, later commas read as blanks, each stripped.
   */
  lemma CommaForm(name: string, i: nat)
    requires var n := Lowered(name); i < |n| && n[i] == ',' && ',' !in n[..i]
    ensures var n := Lowered(name);
      CleanName(Some(name)) == Strip(n[..i]) + ", " + Strip(ReplaceChar(n[i + 1..], ',', ' '))
  {
    var n := Lowered(name);
    assert n == n[..i] + "," + n[i + 1..];
    SplitAt(n[..i], ",", n[i + 1..]);
    var parts := SplitOn(n, ",");
    assert parts[1..] == SplitOn(n[i + 1..], ",");
    JoinSplitReplace(n[i + 1..], ',', ' ');
  }

  /**
   * With no comma and at least two words, the last word comes first: the
   * words of the result are the name's words rotated, the first one marked
   * with a comma.
   */
  lemma WordsRotated(name: string)
    requires var n := Lowered(name); ',' !in n && |Words(n)| > 1
    ensures var ws := Words(Lowered(name));
      && CleanName(Some(name)) == ws[|ws| - 1] + ", " + Join(ws[..|ws| - 1], " ")
      && Words(CleanName(Some(name))) == [ws[|ws| - 1] + ","] + ws[..|ws| - 1]
  {
    var n := Lowered(name);
    SplitFree(n, ",");
    WordsShape(n);
    Rotated(Words(n));
  }

  /** The words of the last word, a comma, a blank and the others joined with blanks. */
  lemma Rotated(ws: seq<string>)
    requires |ws| > 1 && forall w :: w in ws ==> w != [] && NoSpace(w)
    ensures Words(ws[|ws| - 1] + ", " + Join(ws[..|ws| - 1], " ")) == [ws[|ws| - 1] + ","] + ws[..|ws| - 1]
  {
    var last := ws[|ws| - 1];
    var init := ws[..|ws| - 1];
    assert last in ws;
    assert forall w :: w in init ==> w in ws;
    WordsJoin(init);
    var j := Join(init, " ");
    assert last + ", " + j == (last + ",") + (" " + j);
    WordsAfterWord(last + ",", " " + j);
    assert Words(" " + j) == Words(j);
  }

  /** With no comma and at most one word, the name is only stripped and gains no comma. */
  lemma SingleWord(name: string)
    requires var n := Lowered(name); ',' !in n && |Words(n)| <= 1
    ensures CleanName(Some(name)) == Strip(Lowered(name)) && ',' !in CleanName(Some(name))
  {
    var n := Lowered(name);
    SplitFree(n, ",");
    StripShape(n);
  }
}
