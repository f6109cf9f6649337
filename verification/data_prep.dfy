/** Ingestion of the decision spreadsheet into case records: every cell is
    cleaned, rows repeating an earlier (providencia, fecha, sintesis) are
    dropped, each record gets its document text from a fixed template, and
    three keyword flags are computed. */
module DataPrep {
  import opened Wrappers
  import opened Text
  import opened Normalize

  /** A spreadsheet row as read; `None` stands for an empty cell or a missing column. */
  datatype RawRow = RawRow(
    providencia: Option<string>,
    fecha: Option<string>,
    tema: Option<string>,
    sintesis: Option<string>,
    resuelve: Option<string>)

  /** A row after cell normalisation. */
  datatype CaseRow = CaseRow(providencia: string, fecha: string, tema: string, sintesis: string, resuelve: string)

  /** A row with its derived document text and keyword flags. */
  datatype CaseRecord = CaseRecord(
    row: CaseRow,
    doc: string,
    flagRedesSociales: bool,
    flagAcosoEscolar: bool,
    flagPiar: bool)

  datatype PrepError = FileNotFound

  // ---------------------------------------------------------------------
  // Cell normalisation

  /** One raw row cleaned: empty cells become "", every text cell goes through
      `StripAndFix`, and the date cell is cleaned and then handed to the date
      parser `isoDate`, which this model leaves abstract. */
  function NormalizeRow(raw: RawRow, isoDate: string -> string): (row: CaseRow)
    ensures CleanedFrom(row.providencia, raw.providencia)
    ensures CleanedFrom(row.tema, raw.tema)
    ensures CleanedFrom(row.sintesis, raw.sintesis)
    ensures CleanedFrom(row.resuelve, raw.resuelve)
  {
    EmptyCellCleansToEmpty();
    CaseRow(
      StripAndFix(raw.providencia.GetOr("")),
      isoDate(StripAndFix(raw.fecha.GetOr(""))),
      StripAndFix(raw.tema.GetOr("")),
      StripAndFix(raw.sintesis.GetOr("")),
      StripAndFix(raw.resuelve.GetOr("")))
  }

  /** The shape every cleaned cell has. */
  predicate Clean(s: string) {
    NoLineBreak(s) && NoOuterSpace(s) && NoDoubleSpace(s)
  }

  /** `cell` is a faithful cleaning of the raw cell: it has the clean shape,
      the same words and the same non-whitespace characters as the raw text,
      every character it adds is a space, a raw text whose whitespace is
      spaces and line breaks gives its words separated by single spaces, and
      a missing cell gives "". */
  ghost predicate CleanedFrom(cell: string, raw: Option<string>) {
    && Clean(cell)
    && Words(cell) == Words(raw.GetOr(""))
    && NonSpace(cell) == NonSpace(raw.GetOr(""))
    && (forall i :: 0 <= i < |cell| ==> cell[i] == ' ' || cell[i] in raw.GetOr(""))
    && (PlainWhitespace(raw.GetOr("")) ==> cell == Join(Words(raw.GetOr("")), " "))
    && (raw.None? ==> cell == "")
  }

  lemma EmptyCellCleansToEmpty()
    ensures StripAndFix("") == ""
  {
    CleanTextEmptyIff(StripAndFix(""));
  }

  // ---------------------------------------------------------------------
  // De-duplication on (providencia, fecha, sintesis), keeping the first row

  type Key = (string, string, string)

  function KeyOf(row: CaseRow): Key {
    (row.providencia, row.fecha, row.sintesis)
  }

  function KeySet(rows: seq<CaseRow>): set<Key> {
    set i | 0 <= i < |rows| :: KeyOf(rows[i])
  }

  /** No row before position `i` has the key of row `i`. */
  ghost predicate FirstOfKey(rows: seq<CaseRow>, i: nat)
    requires i < |rows|
  {
    forall j :: 0 <= j < i ==> KeyOf(rows[j]) != KeyOf(rows[i])
  }

  /** `rows.drop_duplicates(subset=[providencia, fecha, sintesis])`: walks the
      rows in order and keeps a row unless its key was already seen. Also
      returns the original positions of the kept rows (the index labels that
      `reset_index(drop=True)` then discards). */
  method DropDuplicates(rows: seq<CaseRow>) returns (kept: seq<CaseRow>, positions: seq<nat>)
    ensures |positions| == |kept|
    ensures forall j :: 0 <= j < |kept| ==> positions[j] < |rows| && kept[j] == rows[positions[j]]
    ensures forall a, b :: 0 <= a < b < |positions| ==> positions[a] < positions[b]
    ensures forall j :: 0 <= j < |positions| ==> FirstOfKey(rows, positions[j])
    ensures forall i :: 0 <= i < |rows| && FirstOfKey(rows, i) ==> i in positions
    ensures forall a, b :: 0 <= a < b < |kept| ==> KeyOf(kept[a]) != KeyOf(kept[b])
    ensures KeySet(kept) == KeySet(rows)
  {
    kept := [];
    positions := [];
    var seen: set<Key> := {};
    for i := 0 to |rows|
      invariant |positions| == |kept|
      invariant forall j :: 0 <= j < |kept| ==> positions[j] < i && kept[j] == rows[positions[j]]
      invariant forall a, b :: 0 <= a < b < |positions| ==> positions[a] < positions[b]
      invariant forall j :: 0 <= j < |positions| ==> FirstOfKey(rows, positions[j])
      invariant forall j :: 0 <= j < i && FirstOfKey(rows, j) ==> j in positions
      invariant seen == KeySet(rows[..i])
    {
      var key := KeyOf(rows[i]);
      SeenAfterRow(rows, i);
      if key !in seen {
        kept := kept + [rows[i]];
        positions := positions + [i];
      }
      seen := seen + {key};
    }
    assert rows[..|rows|] == rows;
    DistinctKeys(rows, kept, positions);
    AllKeysKept(rows, kept, positions);
  }

  /** The keys seen after row `i` are those seen before it plus its own, and
      row `i` is the first of its key exactly when its key was not seen before. */
  lemma SeenAfterRow(rows: seq<CaseRow>, i: nat)
    requires i < |rows|
    ensures KeySet(rows[..i + 1]) == KeySet(rows[..i]) + {KeyOf(rows[i])}
    ensures FirstOfKey(rows, i) <==> KeyOf(rows[i]) !in KeySet(rows[..i])
  {
    assert forall j :: 0 <= j < i ==> rows[..i + 1][j] == rows[..i][j] == rows[j];
    assert rows[..i + 1][i] == rows[i];
    if !FirstOfKey(rows, i) {
      var j :| 0 <= j < i && KeyOf(rows[j]) == KeyOf(rows[i]);
      assert KeyOf(rows[..i][j]) == KeyOf(rows[i]);
    }
  }

  lemma DistinctKeys(rows: seq<CaseRow>, kept: seq<CaseRow>, positions: seq<nat>)
    requires |positions| == |kept|
    requires forall j :: 0 <= j < |kept| ==> positions[j] < |rows| && kept[j] == rows[positions[j]]
    requires forall a, b :: 0 <= a < b < |positions| ==> positions[a] < positions[b]
    requires forall j :: 0 <= j < |positions| ==> FirstOfKey(rows, positions[j])
    ensures forall a, b :: 0 <= a < b < |kept| ==> KeyOf(kept[a]) != KeyOf(kept[b])
  {
    forall a, b | 0 <= a < b < |kept|
      ensures KeyOf(kept[a]) != KeyOf(kept[b])
    {
      assert FirstOfKey(rows, positions[b]);
    }
  }

  /** Every key of the input has a first occurrence at or before any row carrying it. */
  lemma {:induction false} FirstOccurrence(rows: seq<CaseRow>, i: nat) returns (f: nat)
    requires i < |rows|
    ensures f <= i && KeyOf(rows[f]) == KeyOf(rows[i]) && FirstOfKey(rows, f)
    decreases i
  {
    if FirstOfKey(rows, i) {
      f := i;
    } else {
      var j :| 0 <= j < i && KeyOf(rows[j]) == KeyOf(rows[i]);
      f := FirstOccurrence(rows, j);
    }
  }

  lemma AllKeysKept(rows: seq<CaseRow>, kept: seq<CaseRow>, positions: seq<nat>)
    requires |positions| == |kept|
    requires forall j :: 0 <= j < |kept| ==> positions[j] < |rows| && kept[j] == rows[positions[j]]
    requires forall i :: 0 <= i < |rows| && FirstOfKey(rows, i) ==> i in positions
    ensures KeySet(kept) == KeySet(rows)
  {
    forall k | k in KeySet(rows)
      ensures k in KeySet(kept)
    {
      var i :| 0 <= i < |rows| && KeyOf(rows[i]) == k;
      var f := FirstOccurrence(rows, i);
      var j :| 0 <= j < |positions| && positions[j] == f;
      assert KeyOf(kept[j]) == k;
    }
  }

  // ---------------------------------------------------------------------
  // The document template and its inverse

  /** The document text of a row, one field per labelled block. */
  function BuildDoc(row: CaseRow): string {
    "PROVIDENCIA: " + row.providencia + "\nFECHA: " + row.fecha + "\nTEMA: " + row.tema
    + "\n\nSINTESIS:\n" + row.sintesis + "\n\nRESUELVE:\n" + row.resuelve
  }

  /** The nine lines of a document. */
  function DocLines(row: CaseRow): seq<string> {
    ["PROVIDENCIA: " + row.providencia, "FECHA: " + row.fecha, "TEMA: " + row.tema,
     "", "SINTESIS:", row.sintesis, "", "RESUELVE:", row.resuelve]
  }

  lemma BuildDocIsLines(row: CaseRow)
    ensures BuildDoc(row) == Join(DocLines(row), "\n")
  {
    var ls := DocLines(row);
    JoinNine(ls);
    TemplateRegrouped(row.providencia, row.fecha, row.tema, row.sintesis, row.resuelve);
  }

  lemma JoinNine(ls: seq<string>)
    requires |ls| == 9
    ensures Join(ls, "\n") == ls[0] + "\n" + (ls[1] + "\n" + (ls[2] + "\n" + (ls[3] + "\n" + (ls[4] + "\n"
                            + (ls[5] + "\n" + (ls[6] + "\n" + (ls[7] + "\n" + ls[8])))))))
  {
    JoinCons(ls[7..], "\n");
    assert ls[7..][1..] == ls[8..];
    JoinCons(ls[6..], "\n");
    assert ls[6..][1..] == ls[7..];
    JoinCons(ls[5..], "\n");
    assert ls[5..][1..] == ls[6..];
    JoinCons(ls[4..], "\n");
    assert ls[4..][1..] == ls[5..];
    JoinCons(ls[3..], "\n");
    assert ls[3..][1..] == ls[4..];
    JoinCons(ls[2..], "\n");
    assert ls[2..][1..] == ls[3..];
    JoinCons(ls[1..], "\n");
    assert ls[1..][1..] == ls[2..];
    JoinCons(ls, "\n");
  }

  lemma TemplateRegrouped(p: string, f: string, t: string, s: string, r: string)
    ensures "PROVIDENCIA: " + p + "\nFECHA: " + f + "\nTEMA: " + t + "\n\nSINTESIS:\n" + s + "\n\nRESUELVE:\n" + r
         == ("PROVIDENCIA: " + p) + "\n" + (("FECHA: " + f) + "\n" + (("TEMA: " + t) + "\n" + ("" + "\n"
            + ("SINTESIS:" + "\n" + (s + "\n" + ("" + "\n" + ("RESUELVE:" + "\n" + r)))))))
  {
    assert "\nFECHA: " == "\n" + "FECHA: ";
    assert "\nTEMA: " == "\n" + "TEMA: ";
    assert "\n\nSINTESIS:\n" == "\n" + "\n" + "SINTESIS:" + "\n";
    assert "\n\nRESUELVE:\n" == "\n" + "\n" + "RESUELVE:" + "\n";
    Regroup("\n", "PROVIDENCIA: ", "FECHA: ", "TEMA: ", "SINTESIS:", "RESUELVE:", p, f, t, s, r);
  }

  /** The template's concatenation regrouped line by line, for any labels and separator. */
  lemma Regroup(nl: string, lp: string, lf: string, lt: string, ls: string, lr: string,
                p: string, f: string, t: string, s: string, r: string)
    ensures lp + p + (nl + lf) + f + (nl + lt) + t + (nl + nl + ls + nl) + s + (nl + nl + lr + nl) + r
         == (lp + p) + nl + ((lf + f) + nl + ((lt + t) + nl + ("" + nl
            + (ls + nl + (s + nl + ("" + nl + (lr + nl + r)))))))
  {
  }

  predicate HasPrefix(s: string, p: string) {
    |p| <= |s| && s[..|p|] == p
  }

  /** Reads the fields back out of a document built by `BuildDoc`. */
  function ParseDoc(doc: string): Option<CaseRow> {
    var ls := Split(doc, '\n');
    if |ls| == 9
       && HasPrefix(ls[0], "PROVIDENCIA: ") && HasPrefix(ls[1], "FECHA: ") && HasPrefix(ls[2], "TEMA: ")
       && ls[3] == "" && ls[4] == "SINTESIS:" && ls[6] == "" && ls[7] == "RESUELVE:"
    then Some(CaseRow(ls[0][13..], ls[1][7..], ls[2][6..], ls[5], ls[8]))
    else None
  }

  /** The document template loses nothing: from a document whose fields hold
      no line break every field can be read back. */
  lemma ParseBuildDoc(row: CaseRow)
    requires '\n' !in row.providencia && '\n' !in row.fecha && '\n' !in row.tema
    requires '\n' !in row.sintesis && '\n' !in row.resuelve
    ensures ParseDoc(BuildDoc(row)) == Some(row)
  {
    var ls := DocLines(row);
    BuildDocIsLines(row);
    forall i | 0 <= i < |ls|
      ensures '\n' !in ls[i]
    {
      if i == 0 { NoBreakInLabelled("PROVIDENCIA: ", row.providencia); }
      if i == 1 { NoBreakInLabelled("FECHA: ", row.fecha); }
      if i == 2 { NoBreakInLabelled("TEMA: ", row.tema); }
    }
    SplitJoin(ls, '\n');
    assert Split(BuildDoc(row), '\n') == ls;
    assert ls[0][13..] == row.providencia;
    assert ls[1][7..] == row.fecha;
    assert ls[2][6..] == row.tema;
  }

  lemma NoBreakInLabelled(tag: string, value: string)
    requires '\n' !in tag && '\n' !in value
    ensures '\n' !in tag + value
  {
    assert forall c :: c in tag + value ==> c in tag || c in value;
  }

  /** A document is never empty, so every record yields at least one chunk. */
  lemma BuildDocNonEmpty(row: CaseRow)
    ensures |BuildDoc(row)| >= |"PROVIDENCIA: "|
  {
  }

  // ---------------------------------------------------------------------
  // Keyword flags

  /** Case folding for the letters of ASCII and Latin-1, used by the
      case-insensitive keyword search. */
  function Lower(c: char): char {
    if 'A' <= c <= 'Z' || ('\U{C0}' <= c <= '\U{DE}' && c != '\U{D7}') then (c as int + 32) as char else c
  }

  /** `word` occurs in `text` at position `i`, ignoring case. */
  predicate MatchAt(text: string, word: string, i: nat)
    requires i + |word| <= |text|
  {
    forall j :: 0 <= j < |word| ==> Lower(text[i + j]) == Lower(word[j])
  }

  /** A search for `word` from position `i` onwards. */
  function ContainsFrom(text: string, word: string, i: nat): (b: bool)
    ensures b <==> exists p :: i <= p && p + |word| <= |text| && MatchAt(text, word, p)
    decreases |text| - i
  {
    if i + |word| > |text| then false
    else if MatchAt(text, word, i) then true
    else ContainsFrom(text, word, i + 1)
  }

  /** `text` contains `word` as a substring, ignoring case (a search with the
      escaped word as pattern and the IGNORECASE flag). */
  function ContainsIgnoringCase(text: string, word: string): (b: bool)
    ensures b <==> exists p :: 0 <= p && p + |word| <= |text| && MatchAt(text, word, p)
  {
    ContainsFrom(text, word, 0)
  }

  /** The keyword flag of a row: the word occurs in the tema, sintesis or resuelve cell. */
  function Has(word: string, row: CaseRow): bool {
    ContainsIgnoringCase(row.tema, word) || ContainsIgnoringCase(row.sintesis, word) || ContainsIgnoringCase(row.resuelve, word)
  }

  /** A flag is set exactly when the word occurs, ignoring case, at some
      position of one of the three text cells. */
  lemma HasIffOccurs(word: string, row: CaseRow)
    ensures Has(word, row) <==>
      || (exists p :: 0 <= p && p + |word| <= |row.tema| && MatchAt(row.tema, word, p))
      || (exists p :: 0 <= p && p + |word| <= |row.sintesis| && MatchAt(row.sintesis, word, p))
      || (exists p :: 0 <= p && p + |word| <= |row.resuelve| && MatchAt(row.resuelve, word, p))
  {
  }

  /** The record of a cleaned row: its document text and its three keyword flags. */
  function MakeRecord(row: CaseRow): CaseRecord {
    CaseRecord(row, BuildDoc(row), Has("redes sociales", row), Has("acoso escolar", row), Has("PIAR", row))
  }

  // ---------------------------------------------------------------------
  // The whole ingestion

  /** Every raw row cleaned, in spreadsheet order. */
  function NormalizeRows(raw: seq<RawRow>, isoDate: string -> string): (rows: seq<CaseRow>)
    ensures |rows| == |raw|
  {
    seq(|raw|, i requires 0 <= i < |raw| => NormalizeRow(raw[i], isoDate))
  }

  /** `records` are the records of exactly the rows that come first with
      their key, in row order, and `positions` says where each came from. */
  ghost predicate KeepsFirstRows(rows: seq<CaseRow>, positions: seq<nat>, records: seq<CaseRecord>) {
    && |positions| == |records| <= |rows|
    && (forall j :: 0 <= j < |records| ==> positions[j] < |rows| && records[j] == MakeRecord(rows[positions[j]]))
    && (forall a, b :: 0 <= a < b < |positions| ==> positions[a] < positions[b])
    && (forall j :: 0 <= j < |positions| ==> positions[j] < |rows| && FirstOfKey(rows, positions[j]))
    && (forall i :: 0 <= i < |rows| && FirstOfKey(rows, i) ==> i in positions)
  }

  /** `load_cases`: fails when the spreadsheet is missing; otherwise cleans
      every row, drops repeated keys keeping the first row, and builds each
      record's document and flags. `sheetExists` stands for the file check and
      `raw` for the rows the spreadsheet reader returns; `positions` are the
      spreadsheet rows the records come from. */
  method LoadCases(sheetExists: bool, raw: seq<RawRow>, isoDate: string -> string)
    returns (r: Result<seq<CaseRecord>, PrepError>, positions: seq<nat>)
    ensures r.Failure? <==> !sheetExists
    ensures r.Failure? ==> r.error == FileNotFound && positions == []
    ensures r.Success? ==> KeepsFirstRows(NormalizeRows(raw, isoDate), positions, r.value)
    ensures r.Success? ==>
              && (forall a, b :: 0 <= a < b < |r.value| ==> KeyOf(r.value[a].row) != KeyOf(r.value[b].row))
              && KeySet(seq(|r.value|, j requires 0 <= j < |r.value| => r.value[j].row)) == KeySet(NormalizeRows(raw, isoDate))
              && (forall j :: 0 <= j < |r.value| ==>
                    && ('\n' !in r.value[j].row.fecha ==> ParseDoc(r.value[j].doc) == Some(r.value[j].row))
                    && |r.value[j].doc| > 0)
  {
    if !sheetExists {
      return Failure(FileNotFound), [];
    }
    var normalized := NormalizeRows(raw, isoDate);
    var rows;
    rows, positions := DropDuplicates(normalized);
    var records := seq(|rows|, j requires 0 <= j < |rows| => MakeRecord(rows[j]));
    assert seq(|records|, j requires 0 <= j < |records| => records[j].row) == rows;
    forall j | 0 <= j < |records|
      ensures '\n' !in records[j].row.fecha ==> ParseDoc(records[j].doc) == Some(records[j].row)
      ensures |records[j].doc| > 0
    {
      BuildDocNonEmpty(rows[j]);
      if '\n' !in rows[j].fecha {
        ParseBuildDoc(rows[j]);
      }
    }
    assert |rows| <= |normalized| by {
      PositionsBound(positions, |normalized|);
    }
    return Success(records), positions;
  }

  /** Strictly increasing positions below `n` are at most `n` many. */
  lemma {:induction false} PositionsBound(positions: seq<nat>, n: nat)
    requires forall j :: 0 <= j < |positions| ==> positions[j] < n
    requires forall a, b :: 0 <= a < b < |positions| ==> positions[a] < positions[b]
    ensures |positions| <= n
    decreases n
  {
    if |positions| > 0 {
      var last := positions[|positions| - 1];
      var init := positions[..|positions| - 1];
      assert forall j :: 0 <= j < |init| ==> init[j] < last;
      PositionsBound(init, last);
    }
  }
}
