/**
 * The fixed-width justice table that `process_rtf_file` fills from the
 * justice records: nine slots, each with a name, a vote and an opinion
 * column. A slot with a record copies its vote and opinion; a slot past the
 * last record holds 88, "not relevant", in both. The name column is always
 * left empty as a placeholder.
 */
module Table {
  import opened Strings
  import Opinions

  datatype Cell = Text(text: string) | Number(n: int)

  datatype Field = Name | Vote | Opinion

  const Slots := 9

  /** The value of a vote or opinion column with no record behind it. */
  const NotRelevant := 88

  function FieldSuffix(f: Field): string {
    match f
    case Name => "_name"
    case Vote => "_vote"
    case Opinion => "_opin"
  }

  /** The column `j{i}_name`, `j{i}_vote` or `j{i}_opin`. */
  function Key(i: nat, f: Field): string {
    "j" + Show(i) + FieldSuffix(f)
  }

  /** What slot `i` (1-based) holds in column `f`. */
  function CellOf(info: seq<Opinions.Info>, i: nat, f: Field): Cell {
    match f
    case Name => Text("")
    case Vote => if 1 <= i <= |info| then Number(info[i - 1].vote) else Number(NotRelevant)
    case Opinion => if 1 <= i <= |info| then Number(info[i - 1].opinion) else Number(NotRelevant)
  }

  /** The table after slots 1 to `n` are written. */
  function Fill(info: seq<Opinions.Info>, n: nat): map<string, Cell>
    requires n <= Slots
  {
    if n == 0 then map[]
    else Fill(info, n - 1)[Key(n, Name) := CellOf(info, n, Name)]
                          [Key(n, Vote) := CellOf(info, n, Vote)]
                          [Key(n, Opinion) := CellOf(info, n, Opinion)]
  }

  /** The loop over `range(1, 10)` that fills the table. */
  method FillJusticeTable(info: seq<Opinions.Info>) returns (data: map<string, Cell>)
    ensures data == Fill(info, Slots)
  {
    data := map[];
    for i := 1 to Slots + 1
      invariant data == Fill(info, i - 1)
    {
      if i <= |info| {
        data := data[Key(i, Name) := Text("")];
        data := data[Key(i, Vote) := Number(info[i - 1].vote)];
        data := data[Key(i, Opinion) := Number(info[i - 1].opinion)];
      } else {
        data := data[Key(i, Name) := Text("")];
        data := data[Key(i, Vote) := Number(NotRelevant)];
        data := data[Key(i, Opinion) := Number(NotRelevant)];
      }
    }
  }

  /** Slot numbers 1 to 9 are one digit, so two columns share a name only when slot and field agree. */
  lemma KeysDistinct(i: nat, f: Field, j: nat, g: Field)
    requires 1 <= i <= Slots && 1 <= j <= Slots
    requires Key(i, f) == Key(j, g)
    ensures i == j && f == g
  {
    assert Key(i, f)[1] == DigitChar(i);
    assert Key(j, g)[1] == DigitChar(j);
    assert Key(i, f)[2..] == FieldSuffix(f);
    assert Key(j, g)[2..] == FieldSuffix(g);
  }

  /** After slots 1 to `n` are written, each of their columns holds what the slot should. */
  lemma {:induction false} FillAt(info: seq<Opinions.Info>, n: nat, i: nat, f: Field)
    requires 1 <= i <= n <= Slots
    ensures Key(i, f) in Fill(info, n) && Fill(info, n)[Key(i, f)] == CellOf(info, i, f)
  {
    var k := Key(i, f);
    var later := {Key(n, Name), Key(n, Vote), Key(n, Opinion)} - {Key(n, f)};
    if i < n {
      FillAt(info, n - 1, i, f);
      KeysDiffer(n, i, f);
      assert k !in {Key(n, Name), Key(n, Vote), Key(n, Opinion)};
    } else {
      KeysDiffer(n, n, f);
      assert k !in later;
    }
  }

  /** A column of slot `i` is written by no field of slot `n` but its own. */
  lemma KeysDiffer(n: nat, i: nat, f: Field)
    requires 1 <= i <= Slots && 1 <= n <= Slots
    ensures forall g :: Key(n, g) == Key(i, f) ==> n == i && g == f
  {
    forall g | Key(n, g) == Key(i, f) ensures n == i && g == f {
      KeysDistinct(n, g, i, f);
    }
  }

  /** Every column of the table belongs to one of slots 1 to `n`. */
  lemma {:induction false} FillKeys(info: seq<Opinions.Info>, n: nat, k: string)
    requires n <= Slots && k in Fill(info, n)
    ensures exists i, f :: 1 <= i <= n && k == Key(i, f)
  {
    if k == Key(n, Name) {
      assert 1 <= n && k == Key(n, Name);
    } else if k == Key(n, Vote) {
      assert 1 <= n && k == Key(n, Vote);
    } else if k == Key(n, Opinion) {
      assert 1 <= n && k == Key(n, Opinion);
    } else {
      FillKeys(info, n - 1, k);
      var i, f :| 1 <= i <= n - 1 && k == Key(i, f);
      assert 1 <= i <= n && k == Key(i, f);
    }
  }

  /**
   * The 9-slot table: 27 columns, the name left empty, the vote and opinion
   * copied for slots up to the number of records, and 88 in both after.
   */
  lemma TableSlots(info: seq<Opinions.Info>, i: nat)
    requires 1 <= i <= Slots
    ensures var t := Fill(info, Slots);
      && Key(i, Name) in t && Key(i, Vote) in t && Key(i, Opinion) in t
      && t[Key(i, Name)] == Text("")
      && (i <= |info| ==> t[Key(i, Vote)] == Number(info[i - 1].vote) && t[Key(i, Opinion)] == Number(info[i - 1].opinion))
      && (i > |info| ==> t[Key(i, Vote)] == Number(NotRelevant) && t[Key(i, Opinion)] == Number(NotRelevant))
  {
    FillAt(info, Slots, i, Name);
    FillAt(info, Slots, i, Vote);
    FillAt(info, Slots, i, Opinion);
  }

  /** The table has no column besides the 27 of its nine slots. */
  lemma TableColumns(info: seq<Opinions.Info>, k: string)
    ensures k in Fill(info, Slots) <==> exists i, f :: 1 <= i <= Slots && k == Key(i, f)
  {
    if k in Fill(info, Slots) {
      FillKeys(info, Slots, k);
    }
    if exists i, f :: 1 <= i <= Slots && k == Key(i, f) {
      var i, f :| 1 <= i <= Slots && k == Key(i, f);
      FillAt(info, Slots, i, f);
    }
  }
}
