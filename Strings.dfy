/**
 * The handful of Python string built-ins the core relies on, stated over
 * `seq<char>`: whitespace per `str.isspace` (which is also what `\s`, `strip()`
 * and `split()` use), ASCII lowering, `strip`, `split(sep)`, `split()`,
 * `join`, `in`, `replace(pat, '')`, `rstrip(c)`, `int()` and `str()` on
 * naturals.
 */
module Strings {
  import opened Wrappers

  /** Unicode whitespace as CPython's `Py_UNICODE_ISSPACE` defines it. */
  predicate IsSpace(c: char) {
    || ('\t' <= c <= '\r')
    || ('\U{1c}' <= c <= ' ')
    || c == '\U{85}' || c == '\U{a0}' || c == '\U{1680}'
    || ('\U{2000}' <= c <= '\U{200a}')
    || c == '\U{2028}' || c == '\U{2029}' || c == '\U{202f}' || c == '\U{205f}'
    || c == '\U{3000}'
  }

  predicate NoSpace(s: string) {
    forall c :: c in s ==> !IsSpace(c)
  }

  predicate IsAsciiUpper(c: char) {
    'A' <= c <= 'Z'
  }

  /** No character of `s` is an upper-case (ASCII) letter. */
  predicate NoUpper(s: string) {
    forall c :: c in s ==> !IsAsciiUpper(c)
  }

  function LowerChar(c: char): (d: char)
    ensures !IsAsciiUpper(d)
    ensures !IsAsciiUpper(c) ==> d == c
  {
    if IsAsciiUpper(c) then (c as int + 32) as char else c
  }

  /** `str.lower()` on the ASCII letters. */
  function Lower(s: string): (r: string)
    ensures |r| == |s|
    ensures forall k :: 0 <= k < |s| ==> r[k] == LowerChar(s[k])
  {
    seq(|s|, k requires 0 <= k < |s| => LowerChar(s[k]))
  }

  lemma LowerHasNoUpper(s: string)
    ensures NoUpper(Lower(s))
  {
    var r := Lower(s);
    forall c | c in r ensures !IsAsciiUpper(c) {
      var k :| 0 <= k < |r| && r[k] == c;
    }
  }

  predicate EqualsIgnoreCase(a: string, b: string) {
    Lower(a) == Lower(b)
  }

  /** No element occurs twice. */
  predicate Distinct(s: seq<string>) {
    forall i, j :: 0 <= i < j < |s| ==> s[i] != s[j]
  }

  // ---- strip ----

  /** How many whitespace characters `s` starts with. */
  function Leading(s: string): (n: nat)
    ensures n <= |s| && (n < |s| ==> !IsSpace(s[n]))
    ensures forall k :: 0 <= k < n ==> IsSpace(s[k])
  {
    if |s| > 0 && IsSpace(s[0]) then 1 + Leading(s[1..]) else 0
  }

  /** How many whitespace characters `s` ends with. */
  function Trailing(s: string): (n: nat)
    ensures n <= |s| && (n < |s| ==> !IsSpace(s[|s| - 1 - n]))
    ensures forall k :: |s| - n <= k < |s| ==> IsSpace(s[k])
  {
    if |s| > 0 && IsSpace(s[|s| - 1]) then 1 + Trailing(s[..|s| - 1]) else 0
  }

  /** `str.strip()`: remove leading and trailing whitespace. */
  function Strip(s: string): string {
    var t := s[Leading(s)..];
    t[..|t| - Trailing(t)]
  }

  /** The stripped text is a piece of `s` that starts and ends with non-whitespace. */
  lemma StripShape(s: string)
    ensures var r := Strip(s);
      && (r != [] ==> !IsSpace(r[0]) && !IsSpace(r[|r| - 1]))
      && (forall c :: c in r ==> c in s)
      && (r == [] <==> forall k :: 0 <= k < |s| ==> IsSpace(s[k]))
  {
    var a := Leading(s);
    var t := s[a..];
    var r := Strip(s);
    assert forall k :: 0 <= k < |r| ==> r[k] == s[a + k];
  }

  lemma StripUnchanged(s: string)
    requires s == [] || (!IsSpace(s[0]) && !IsSpace(s[|s| - 1]))
    ensures Strip(s) == s
  {
    assert s[0..] == s;
  }

  lemma StripLeadingSpace(c: char, s: string)
    requires IsSpace(c)
    ensures Strip([c] + s) == Strip(s)
  {
    assert ([c] + s)[1..] == s;
    assert Leading([c] + s) == 1 + Leading(s);
    assert ([c] + s)[1 + Leading(s)..] == s[Leading(s)..];
  }

  /** `str.rstrip(c)` for a single character `c`. */
  function RStripChar(s: string, c: char): (r: string)
    ensures |r| <= |s| && r == s[..|r|]
    ensures r != [] ==> r[|r| - 1] != c
    ensures forall k :: |r| <= k < |s| ==> s[k] == c
  {
    if |s| > 0 && s[|s| - 1] == c then RStripChar(s[..|s| - 1], c) else s
  }

  // ---- substrings ----

  predicate StartsWith(s: string, p: string) {
    |p| <= |s| && s[..|p|] == p
  }

  /** Python's `p in s` for strings. */
  predicate Contains(s: string, p: string)
    decreases |s|
  {
    StartsWith(s, p) || (|s| > 0 && Contains(s[1..], p))
  }

  lemma {:induction false} ContainsAround(a: string, p: string, b: string)
    ensures Contains(a + p + b, p)
    decreases |a|
  {
    if a == [] {
      assert (a + p + b)[..|p|] == p;
    } else {
      assert (a + p + b)[1..] == a[1..] + p + b;
      ContainsAround(a[1..], p, b);
    }
  }

  lemma {:induction false} ContainsFirstChar(s: string, p: string)
    requires |p| > 0 && Contains(s, p)
    ensures p[0] in s
    decreases |s|
  {
    if StartsWith(s, p) {
      assert s[0] == p[0];
    } else {
      ContainsFirstChar(s[1..], p);
    }
  }

  /** `s.replace(pat, '')`: delete the non-overlapping occurrences of `pat`, left to right. */
  function RemoveAll(s: string, pat: string): (r: string)
    requires |pat| > 0
    ensures |r| <= |s|
    decreases |s|
  {
    if |s| < |pat| then s
    else if s[..|pat|] == pat then RemoveAll(s[|pat|..], pat)
    else [s[0]] + RemoveAll(s[1..], pat)
  }

  // ---- split and join ----

  /** `sep.join(parts)`. */
  function Join(parts: seq<string>, sep: string): string
    decreases |parts|
  {
    if |parts| == 0 then ""
    else if |parts| == 1 then parts[0]
    else parts[0] + sep + Join(parts[1..], sep)
  }

  /** `s.split(sep)` for a non-empty separator: leftmost, non-overlapping occurrences. */
  function SplitOn(s: string, sep: string): (r: seq<string>)
    requires |sep| > 0
    ensures |r| >= 1
    decreases |s|
  {
    if |s| < |sep| then [s]
    else if s[..|sep|] == sep then [""] + SplitOn(s[|sep|..], sep)
    else
      var rest := SplitOn(s[1..], sep);
      [[s[0]] + rest[0]] + rest[1..]
  }

  lemma JoinPrepend(x: string, y: string, z: seq<string>, sep: string)
    ensures Join([x + y] + z, sep) == x + Join([y] + z, sep)
  {
    if |z| > 0 {
      assert ([x + y] + z)[1..] == z;
      assert ([y] + z)[1..] == z;
    }
  }

  /** Joining the pieces of a split with the same separator gives the string back. */
  lemma {:induction false} JoinSplit(s: string, sep: string)
    requires |sep| > 0
    ensures Join(SplitOn(s, sep), sep) == s
    decreases |s|
  {
    if |s| < |sep| {
    } else if s[..|sep|] == sep {
      JoinSplit(s[|sep|..], sep);
      var rest := SplitOn(s[|sep|..], sep);
      assert ([""] + rest)[1..] == rest;
      assert Join([""] + rest, sep) == "" + sep + Join(rest, sep);
      assert s == sep + s[|sep|..];
    } else {
      JoinSplit(s[1..], sep);
      var rest := SplitOn(s[1..], sep);
      assert SplitOn(s, sep) == [[s[0]] + rest[0]] + rest[1..];
      JoinPrepend([s[0]], rest[0], rest[1..], sep);
      assert [rest[0]] + rest[1..] == rest;
      assert s == [s[0]] + s[1..];
    }
  }

  /** `s` with every `c` replaced by `d`. */
  function ReplaceChar(s: string, c: char, d: char): string {
    seq(|s|, k requires 0 <= k < |s| => if s[k] == c then d else s[k])
  }

  /** Splitting on one character and joining with another replaces the one by the other. */
  lemma {:induction false} JoinSplitReplace(s: string, c: char, d: char)
    ensures Join(SplitOn(s, [c]), [d]) == ReplaceChar(s, c, d)
    decreases |s|
  {
    if s != [] {
      JoinSplitReplace(s[1..], c, d);
      var rest := SplitOn(s[1..], [c]);
      assert ReplaceChar(s, c, d) == [if s[0] == c then d else s[0]] + ReplaceChar(s[1..], c, d);
      if s[0] == c {
        assert s[..1] == [c];
        assert SplitOn(s, [c]) == [""] + rest;
        assert ([""] + rest)[1..] == rest;
        assert Join([""] + rest, [d]) == "" + [d] + Join(rest, [d]);
      } else {
        SplitCons(s[0], s[1..], [c]);
        assert [s[0]] + s[1..] == s;
        JoinPrepend([s[0]], rest[0], rest[1..], [d]);
        assert [rest[0]] + rest[1..] == rest;
      }
    }
  }

  /** Every character of a piece of a split is a character of the string. */
  lemma {:induction false} SplitChars(s: string, sep: string)
    requires |sep| > 0
    ensures forall p, c :: p in SplitOn(s, sep) && c in p ==> c in s
    decreases |s|
  {
    if |s| >= |sep| {
      if s[..|sep|] == sep {
        SplitChars(s[|sep|..], sep);
        assert forall c :: c in s[|sep|..] ==> c in s;
      } else {
        SplitChars(s[1..], sep);
        assert forall c :: c in s[1..] ==> c in s;
        var rest := SplitOn(s[1..], sep);
        assert forall p :: p in SplitOn(s, sep) ==> p == [s[0]] + rest[0] || p in rest;
      }
    }
  }

  /** Every character of a join is one of a part or of the separator. */
  lemma {:induction false} JoinChars(ps: seq<string>, sep: string)
    ensures forall c :: c in Join(ps, sep) ==> c in sep || exists p :: p in ps && c in p
    decreases |ps|
  {
    if |ps| > 1 {
      JoinChars(ps[1..], sep);
      assert forall p :: p in ps[1..] ==> p in ps;
    }
  }

  /** A string without the separator's first character is a single piece. */
  lemma {:induction false} SplitFree(a: string, sep: string)
    requires |sep| > 0 && sep[0] !in a
    ensures SplitOn(a, sep) == [a]
    decreases |a|
  {
    if |a| >= |sep| {
      assert a[0] != sep[0];
      SplitFree(a[1..], sep);
      assert [a[0]] + a[1..] == a;
    }
  }

  /** The first piece ends at the first separator when nothing before it can start one. */
  lemma {:induction false} SplitAt(a: string, sep: string, b: string)
    requires |sep| > 0 && sep[0] !in a
    ensures SplitOn(a + sep + b, sep) == [a] + SplitOn(b, sep)
    decreases |a|
  {
    var s := a + sep + b;
    if a == [] {
      assert s[..|sep|] == sep;
      assert s[|sep|..] == b;
    } else {
      assert s[0] == a[0] != sep[0];
      assert s[1..] == a[1..] + sep + b;
      SplitAt(a[1..], sep, b);
      assert [a[0]] + a[1..] == a;
    }
  }

  /** `s` with a blank in front of every element. */
  function Spaced(s: seq<string>): (r: seq<string>)
    ensures |r| == |s|
  {
    if s == [] then [] else [" " + s[0]] + Spaced(s[1..])
  }

  /** Splitting on a one-character separator after a different first character. */
  lemma SplitCons(c: char, x: string, sep: string)
    requires |sep| == 1 && c != sep[0]
    ensures SplitOn([c] + x, sep) == [[c] + SplitOn(x, sep)[0]] + SplitOn(x, sep)[1..]
  {
    var s := [c] + x;
    assert s[..1] == [c];
    assert s[1..] == x;
  }

  /**
   * The pieces of a list joined with `c` and a blank, split on `c`: the first
   * element, then each later one after a blank.
   */
  lemma {:induction false} SplitJoined(es: seq<string>, c: char)
    requires |es| >= 1 && c != ' '
    requires forall i :: 0 <= i < |es| ==> c !in es[i]
    ensures SplitOn(Join(es, [c, ' ']), [c]) == [es[0]] + Spaced(es[1..])
    decreases |es|
  {
    if |es| == 1 {
      SplitFree(es[0], [c]);
      assert Spaced(es[1..]) == [];
    } else {
      var tail := es[1..];
      var j := Join(tail, [c, ' ']);
      assert Join(es, [c, ' ']) == es[0] + [c, ' '] + j;
      assert es[0] + [c, ' '] + j == es[0] + [c] + (" " + j);
      SplitAt(es[0], [c], " " + j);
      SplitJoined(tail, c);
      assert " " + j == [' '] + j;
      SplitCons(' ', j, [c]);
      assert SplitOn(j, [c]) == [tail[0]] + Spaced(tail[1..]);
      assert Spaced(tail) == [" " + tail[0]] + Spaced(tail[1..]);
    }
  }

  /** `s.split()`: the maximal runs of non-whitespace characters. */
  function Words(s: string): (r: seq<string>)
    ensures |s| > 0 && !IsSpace(s[0]) ==> |r| > 0 && r[0] != [] && r[0][0] == s[0]
    decreases |s|
  {
    if s == [] then []
    else if IsSpace(s[0]) then Words(s[1..])
    else
      var rest := Words(s[1..]);
      if |s| > 1 && !IsSpace(s[1]) then [[s[0]] + rest[0]] + rest[1..]
      else [[s[0]]] + rest
  }

  /** Every word is a non-empty run of non-whitespace characters of `s`. */
  lemma {:induction false} WordsShape(s: string)
    ensures forall w :: w in Words(s) ==> w != [] && NoSpace(w)
    ensures forall w, c :: w in Words(s) && c in w ==> c in s
    decreases |s|
  {
    if s != [] {
      WordsShape(s[1..]);
      assert forall c :: c in s[1..] ==> c in s;
      if !IsSpace(s[0]) {
        var rest := Words(s[1..]);
        if |s| > 1 && !IsSpace(s[1]) {
          assert rest[0] in rest;
          var r := [[s[0]] + rest[0]] + rest[1..];
          assert forall w :: w in r ==> w == r[0] || w in rest;
        }
      }
    }
  }

  lemma {:induction false} WordsAfterWord(a: string, b: string)
    requires a != [] && NoSpace(a)
    requires b == [] || IsSpace(b[0])
    ensures Words(a + b) == [a] + Words(b)
    decreases |a|
  {
    var s := a + b;
    assert s[0] == a[0];
    assert s[1..] == a[1..] + b;
    assert a[0] in a;
    if |a| > 1 {
      assert forall c :: c in a[1..] ==> c in a;
      WordsAfterWord(a[1..], b);
      assert s[1] == a[1];
      assert [a[0]] + a[1..] == a;
    } else {
      assert a == [a[0]];
      assert s[1..] == b;
    }
  }

  /** Splitting a space-joined list of words gives the words back. */
  lemma {:induction false} WordsJoin(ws: seq<string>)
    requires forall w :: w in ws ==> w != [] && NoSpace(w)
    ensures Words(Join(ws, " ")) == ws
    decreases |ws|
  {
    if |ws| > 0 {
      assert ws[0] in ws;
      assert forall w :: w in ws[1..] ==> w in ws;
    }
    if |ws| == 1 {
      WordsAfterWord(ws[0], []);
      assert ws[0] + [] == ws[0];
    } else if |ws| > 1 {
      var tail := Join(ws[1..], " ");
      WordsJoin(ws[1..]);
      WordsAfterWord(ws[0], " " + tail);
      assert ws[0] + " " + tail == ws[0] + (" " + tail);
      assert (" " + tail)[1..] == tail;
      assert [ws[0]] + ws[1..] == ws;
    }
  }

  /** The text before the first newline: what `re.sub(r'\n.*', '', s)` leaves. */
  function CutAtNewline(s: string): (r: string)
    ensures |r| <= |s| && r == s[..|r|] && '\n' !in r
    ensures |r| < |s| ==> s[|r|] == '\n'
  {
    if s == [] then ""
    else if s[0] == '\n' then ""
    else [s[0]] + CutAtNewline(s[1..])
  }

  // ---- integers ----

  predicate IsDigit(c: char) {
    '0' <= c <= '9'
  }

  predicate AllDigits(s: string) {
    forall c :: c in s ==> IsDigit(c)
  }

  /** The value of a non-empty run of ASCII digits; `None` for anything else. */
  function DecimalValue(s: string): (v: Option<nat>)
    ensures v.Some? ==> s != [] && AllDigits(s)
  {
    if s == [] || !IsDigit(s[|s| - 1]) then None
    else
      var d := s[|s| - 1] as int - '0' as int;
      if |s| == 1 then Some(d)
      else match DecimalValue(s[..|s| - 1])
        case None => None
        case Some(v) =>
          assert forall c :: c in s ==> c in s[..|s| - 1] || c == s[|s| - 1];
          Some(v * 10 + d)
  }

  /**
   * `int(s)` for decimal strings: surrounding whitespace is ignored, then one
   * optional sign and one or more ASCII digits; anything else is a failure
   * (`ValueError`).
   */
  function ParseInt(s: string): Option<int>
    decreases |s|
  {
    if s != [] && IsSpace(s[0]) then ParseInt(s[1..])
    else if s != [] && IsSpace(s[|s| - 1]) then ParseInt(s[..|s| - 1])
    else if s != [] && (s[0] == '+' || s[0] == '-') then
      match DecimalValue(s[1..])
      case None => None
      case Some(v) => var n: int := v; Some(if s[0] == '-' then -n else n)
    else
      match DecimalValue(s)
      case None => None
      case Some(v) => Some(v)
  }

  function DigitChar(d: nat): (c: char)
    requires d < 10
    ensures IsDigit(c) && c as int - '0' as int == d
  {
    ('0' as int + d) as char
  }

  /** `str(n)` for a natural number. */
  function Show(n: nat): (r: string)
    ensures r != [] && AllDigits(r) && DecimalValue(r) == Some(n)
  {
    if n < 10 then [DigitChar(n)]
    else
      var r := Show(n / 10) + [DigitChar(n % 10)];
      assert r[..|r| - 1] == Show(n / 10);
      assert forall c :: c in r ==> c in Show(n / 10) || c == r[|r| - 1];
      r
  }

  /** `int(str(n)) == n`. */
  lemma ShowParses(n: nat)
    ensures ParseInt(Show(n)) == Some(n)
  {
    var s := Show(n);
    assert s[0] in s && IsDigit(s[0]) && !IsSpace(s[0]);
    assert s[|s| - 1] in s && IsDigit(s[|s| - 1]) && !IsSpace(s[|s| - 1]);
    assert s[0] != '+' && s[0] != '-';
    assert ParseInt(s) == match DecimalValue(s) case None => None case Some(v) => Some(v);
  }
}
