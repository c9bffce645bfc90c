/**
 * The textual vote lists passed between the vote and opinion stages:
 * "NAME, code; NAME, code; ...". They are written by joining entries
 * `f"{justice}, {code}"` with "; " and read back with
 * `dict(vote.strip().split(', ') for vote in s.split(';'))`.
 *
 * A Python dict built from pairs is an insertion-ordered map in which a
 * repeated key keeps its first position and takes its last value; `Dict`
 * models it as a sequence of pairs with distinct keys.
 */
module VoteText {
  import opened Wrappers
  import opened Strings

  /** Why reading a vote list raises `ValueError` in the original program. */
  datatype ParseError =
    | MalformedEntry(piece: string)   // a piece does not split into exactly two parts
    | NotAnInteger(text: string)      // `int()` of a vote value fails

  /** An insertion-ordered dictionary from names to values. */
  type Dict = seq<(string, string)>

  function Keys(d: Dict): (ks: seq<string>)
    ensures |ks| == |d|
  {
    if d == [] then [] else [d[0].0] + Keys(d[1..])
  }

  predicate DistinctKeys(d: Dict) {
    forall i, j :: 0 <= i < j < |d| ==> d[i].0 != d[j].0
  }

  lemma {:induction false} KeysAt(d: Dict, i: nat)
    requires i < |d|
    ensures Keys(d)[i] == d[i].0
    decreases i
  {
    if i > 0 {
      KeysAt(d[1..], i - 1);
    }
  }

  /** `d.get(k)`: the value stored under `k`, if any. */
  function Lookup(d: Dict, k: string): Option<string> {
    if d == [] then None
    else if d[0].0 == k then Some(d[0].1)
    else Lookup(d[1..], k)
  }

  /** In a dictionary with distinct keys, each key finds its own value. */
  lemma {:induction false} LookupAt(d: Dict, i: nat)
    requires DistinctKeys(d) && i < |d|
    ensures Lookup(d, d[i].0) == Some(d[i].1)
    decreases i
  {
    if i > 0 {
      assert d[0].0 != d[i].0;
      assert d[1..][i - 1] == d[i];
      LookupAt(d[1..], i - 1);
    }
  }

  /** `d.get(k, default)`. */
  function Get(d: Dict, k: string, default: string): string {
    match Lookup(d, k)
    case Some(v) => v
    case None => default
  }

  /** `d[k] = v`: overwrite in place when `k` is present, else append. */
  function Put(d: Dict, k: string, v: string): (r: Dict)
    ensures |r| == |d| || |r| == |d| + 1
  {
    if d == [] then [(k, v)]
    else if d[0].0 == k then [(k, v)] + d[1..]
    else [d[0]] + Put(d[1..], k, v)
  }

  /** `d[k] = v` stores `v` under `k` and leaves every other key as it was. */
  lemma {:induction false} PutLookup(d: Dict, k: string, v: string, q: string)
    ensures Lookup(Put(d, k, v), q) == if q == k then Some(v) else Lookup(d, q)
    decreases |d|
  {
    if d != [] && d[0].0 != k {
      PutLookup(d[1..], k, v, q);
      assert Put(d, k, v)[1..] == Put(d[1..], k, v);
    }
  }

  /** An existing key keeps its position; a new key goes last. */
  lemma {:induction false} PutKeys(d: Dict, k: string, v: string)
    ensures Keys(Put(d, k, v)) == if k in Keys(d) then Keys(d) else Keys(d) + [k]
    decreases |d|
  {
    if d != [] && d[0].0 != k {
      PutKeys(d[1..], k, v);
      assert Put(d, k, v)[1..] == Put(d[1..], k, v);
      assert Keys(d) == [d[0].0] + Keys(d[1..]);
    }
  }

  /** `dict(pairs)`: insert the pairs in order. */
  function DictOf(pairs: seq<(string, string)>): Dict {
    if pairs == [] then []
    else
      var last := pairs[|pairs| - 1];
      Put(DictOf(pairs[..|pairs| - 1]), last.0, last.1)
  }

  /** A dictionary's key sequence never repeats a key. */
  lemma {:induction false} DictOfDistinctKeys(pairs: seq<(string, string)>)
    ensures DistinctKeys(DictOf(pairs))
    decreases |pairs|
  {
    if pairs != [] {
      var prev := pairs[..|pairs| - 1];
      var last := pairs[|pairs| - 1];
      DictOfDistinctKeys(prev);
      PutKeepsDistinct(DictOf(prev), last.0, last.1);
    }
  }

  lemma {:induction false} PutKeepsDistinct(d: Dict, k: string, v: string)
    requires DistinctKeys(d)
    ensures DistinctKeys(Put(d, k, v))
    decreases |d|
  {
    if d != [] && d[0].0 != k {
      var rest := Put(d[1..], k, v);
      PutKeepsDistinct(d[1..], k, v);
      PutKeys(d[1..], k, v);
      assert d[0].0 !in Keys(d[1..]) by {
        forall i | 0 <= i < |d| - 1 ensures Keys(d[1..])[i] != d[0].0 {
          KeysAt(d[1..], i);
        }
      }
      forall j | 0 <= j < |rest| ensures rest[j].0 != d[0].0 {
        KeysAt(rest, j);
        assert Keys(rest)[j] in Keys(rest);
      }
      assert Put(d, k, v) == [d[0]] + rest;
    } else if d != [] {
      assert Put(d, k, v) == [(k, v)] + d[1..];
    }
  }

  /** With distinct names the dictionary is the pair list itself, order included. */
  lemma {:induction false} DictOfDistinct(pairs: seq<(string, string)>)
    requires DistinctKeys(pairs)
    ensures DictOf(pairs) == pairs
    decreases |pairs|
  {
    if pairs != [] {
      var prev := pairs[..|pairs| - 1];
      var last := pairs[|pairs| - 1];
      DictOfDistinct(prev);
      PutFresh(prev, last.0, last.1);
      assert prev + [last] == pairs;
    }
  }

  lemma {:induction false} PutFresh(d: Dict, k: string, v: string)
    requires forall i :: 0 <= i < |d| ==> d[i].0 != k
    ensures Put(d, k, v) == d + [(k, v)]
    decreases |d|
  {
    if d != [] {
      PutFresh(d[1..], k, v);
      assert d == [d[0]] + d[1..];
    }
  }

  // ---- writing ----

  /** `f"{justice}, {code}"`. */
  function Entry(name: string, code: nat): string {
    name + ", " + Show(code)
  }

  function Entries(votes: seq<(string, nat)>): (es: seq<string>)
    ensures |es| == |votes|
  {
    if votes == [] then [] else [Entry(votes[0].0, votes[0].1)] + Entries(votes[1..])
  }

  /** `'; '.join(votes)`. */
  function Format(votes: seq<(string, nat)>): string {
    Join(Entries(votes), "; ")
  }

  /** The pairs a reader gets back: the codes as text. */
  function Stringified(votes: seq<(string, nat)>): (ps: seq<(string, string)>)
    ensures |ps| == |votes|
  {
    if votes == [] then [] else [(votes[0].0, Show(votes[0].1))] + Stringified(votes[1..])
  }

  // ---- reading ----

  /** One piece of `s.split(';')`, stripped and split on ", ". */
  function ParsePair(piece: string): Result<(string, string), ParseError> {
    var parts := SplitOn(Strip(piece), ", ");
    if |parts| == 2 then Ok((parts[0], parts[1])) else Err(MalformedEntry(piece))
  }

  /** The pairs of all pieces; the first malformed one makes `dict()` raise. */
  function ParsePairs(pieces: seq<string>): Result<seq<(string, string)>, ParseError> {
    if pieces == [] then Ok([])
    else
      var p :- ParsePair(pieces[0]);
      var rest :- ParsePairs(pieces[1..]);
      Ok([p] + rest)
  }

  /** `dict(vote.strip().split(', ') for vote in s.split(';'))`. */
  function Parse(s: string): Result<Dict, ParseError> {
    var pairs :- ParsePairs(SplitOn(s, ";"));
    Ok(DictOf(pairs))
  }

  /** The empty string is not a vote list: its single piece has one part. */
  lemma ParseEmptyFails()
    ensures Parse("").Err?
  {
    assert SplitOn("", ";") == [""];
    assert Strip("") == "";
    assert SplitOn("", ", ") == [""];
  }

  // ---- the round trip ----

  /** A name that cannot break the encoding: non-empty, no whitespace, no ',' and no ';'. */
  predicate SafeName(n: string) {
    n != [] && NoSpace(n) && ',' !in n && ';' !in n
  }

  predicate AllSafe(votes: seq<(string, nat)>) {
    forall i :: 0 <= i < |votes| ==> SafeName(votes[i].0)
  }

  lemma EntryShape(name: string, code: nat)
    requires SafeName(name)
    ensures var e := Entry(name, code);
      && e != [] && !IsSpace(e[0]) && !IsSpace(e[|e| - 1]) && ';' !in e
  {
    var e := Entry(name, code);
    var digits := Show(code);
    assert e == name + ", " + digits;
    assert e[0] == name[0] && name[0] in name;
    assert e[|e| - 1] == digits[|digits| - 1] && digits[|digits| - 1] in digits;
    assert forall c :: c in digits ==> IsDigit(c);
    assert forall c :: c in e ==> c in name || c in ", " || c in digits;
  }

  /** An entry, with or without the blank after the previous ';', reads back as its pair. */
  lemma ParseEntry(name: string, code: nat, piece: string)
    requires SafeName(name)
    requires piece == Entry(name, code) || piece == " " + Entry(name, code)
    ensures ParsePair(piece) == Ok((name, Show(code)))
  {
    var e := Entry(name, code);
    EntryShape(name, code);
    StripUnchanged(e);
    if piece != e {
      assert piece == [' '] + e;
      StripLeadingSpace(' ', e);
    }
    var digits := Show(code);
    assert forall c :: c in digits ==> IsDigit(c);
    assert ',' !in digits;
    SplitAt(name, ", ", digits);
    SplitFree(digits, ", ");
  }

  /** Every piece of a formatted list parses back to its pair. */
  lemma {:induction false} ParsePieces(votes: seq<(string, nat)>)
    requires AllSafe(votes)
    ensures ParsePairs(Spaced(Entries(votes))) == Ok(Stringified(votes))
    decreases |votes|
  {
    if votes != [] {
      var es := Entries(votes);
      ParseEntry(votes[0].0, votes[0].1, " " + es[0]);
      assert Spaced(es)[0] == " " + es[0];
      assert Spaced(es)[1..] == Spaced(Entries(votes[1..]));
      ParsePieces(votes[1..]);
    }
  }

  /**
   * Reading a formatted vote list gives back the dictionary of its pairs,
   * the codes now as text. An empty list is the exception: it formats to ""
   * and "" does not parse.
   */
  lemma ParseFormat(votes: seq<(string, nat)>)
    requires |votes| > 0 && AllSafe(votes)
    ensures Parse(Format(votes)) == Ok(DictOf(Stringified(votes)))
  {
    var es := Entries(votes);
    forall i | 0 <= i < |es| ensures ';' !in es[i] {
      EntriesAt(votes, i);
      EntryShape(votes[i].0, votes[i].1);
    }
    SplitJoined(es, ';');
    ParseEntry(votes[0].0, votes[0].1, es[0]);
    assert es[1..] == Entries(votes[1..]);
    ParsePieces(votes[1..]);
  }

  lemma {:induction false} EntriesAt(votes: seq<(string, nat)>, i: nat)
    requires i < |votes|
    ensures Entries(votes)[i] == Entry(votes[i].0, votes[i].1)
    decreases i
  {
    if i > 0 {
      EntriesAt(votes[1..], i - 1);
    }
  }

  /** Appending one vote appends its entry. */
  lemma {:induction false} EntriesSnoc(votes: seq<(string, nat)>, v: (string, nat))
    ensures Entries(votes + [v]) == Entries(votes) + [Entry(v.0, v.1)]
    decreases |votes|
  {
    if votes != [] {
      EntriesSnoc(votes[1..], v);
      assert (votes + [v])[1..] == votes[1..] + [v];
    } else {
      assert [] + [v] == [v];
    }
  }

  /** `int(text)`, failing with `ValueError` as a `NotAnInteger` error. */
  function ReadInt(text: string): Result<int, ParseError> {
    match ParseInt(text)
    case Some(n) => Ok(n)
    case None => Err(NotAnInteger(text))
  }

  /** A formatted list is empty exactly when it has no entry. */
  lemma FormatEmpty(votes: seq<(string, nat)>)
    ensures Format(votes) == "" <==> votes == []
  {
    if votes != [] {
      var es := Entries(votes);
      assert es[0] == Entry(votes[0].0, votes[0].1);
      assert |Show(votes[0].1)| > 0;
      if |es| == 1 {
        assert Format(votes) == es[0];
      } else {
        assert Format(votes) == es[0] + "; " + Join(es[1..], "; ");
      }
    }
  }
}
