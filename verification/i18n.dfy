/** The translation layer: the CSV reader for the translation file, the
    table of locale -> key -> text built from its rows, and the lookup of a
    key with its fallbacks and `{name}` placeholder substitution. The locale
    and the table are explicit inputs here. */
module I18n {
  import opened Common

  // ------------------------------------------------------------ CSV reader

  type Row = seq<string>

  const QUOTE: char := '"'
  const COMMA: char := ','
  const LF: char := '\n'
  const CR: char := '\r'

  /** The reader's variables between two characters: the rows emitted so
      far, the fields of the current row, the current field, and whether a
      quoted section is open. */
  datatype Reader = Reader(rows: seq<Row>, row: Row, field: string, inQuotes: bool)

  const START: Reader := Reader([], [], "", false)

  /** A finished row is kept unless it is one empty field, i.e. a blank
      line. */
  predicate Kept(row: Row)
  {
    |row| > 1 || (|row| == 1 && row[0] != "")
  }

  /** A line break outside quotes: the field ends the row, the row is kept
      unless blank, and a new row starts. */
  function EndRow(p: Reader): (r: Reader)
    ensures r.row == [] && r.field == "" && r.inQuotes == p.inQuotes
    ensures Kept(p.row + [p.field]) ==> r.rows == p.rows + [p.row + [p.field]]
    ensures !Kept(p.row + [p.field]) ==> r.rows == p.rows
  {
    var row := p.row + [p.field];
    Reader(if Kept(row) then p.rows + [row] else p.rows, [], "", p.inQuotes)
  }

  /** After the last character: pending content becomes a final row. */
  function Finish(p: Reader): seq<Row>
  {
    if |p.field| > 0 || |p.row| > 0 then p.rows + [p.row + [p.field]] else p.rows
  }

  /** The character loop of `parseCsv` on the text still to read, `s`. A
      doubled quote inside quotes is one literal quote; `\r\n` is one line
      break, as are a lone `\r` and a lone `\n`. */
  function ReadRest(s: string, p: Reader): seq<Row>
    decreases |s|
  {
    if |s| == 0 then Finish(p)
    else
      var ch := s[0];
      if p.inQuotes then
        if ch == QUOTE then
          if |s| > 1 && s[1] == QUOTE then ReadRest(s[2..], p.(field := p.field + [QUOTE]))
          else ReadRest(s[1..], p.(inQuotes := false))
        else ReadRest(s[1..], p.(field := p.field + [ch]))
      else if ch == QUOTE then ReadRest(s[1..], p.(inQuotes := true))
      else if ch == COMMA then ReadRest(s[1..], p.(row := p.row + [p.field], field := ""))
      else if ch == LF || ch == CR then
        var skip := if ch == CR && |s| > 1 && s[1] == LF then 2 else 1;
        ReadRest(s[skip..], EndRow(p))
      else ReadRest(s[1..], p.(field := p.field + [ch]))
  }

  /** No row is blank. */
  predicate AllKept(rows: seq<Row>)
  {
    forall k | 0 <= k < |rows| :: Kept(rows[k])
  }

  /** Reading never drops a row already emitted, and every row it emits is
      kept: neither a line break nor the end of the text emits a blank
      row. */
  lemma {:induction false} ReadRestKeeps(s: string, p: Reader)
    requires AllKept(p.rows)
    ensures |p.rows| <= |ReadRest(s, p)| && ReadRest(s, p)[..|p.rows|] == p.rows
    ensures AllKept(ReadRest(s, p))
    decreases |s|
  {
    if |s| > 0 {
      var ch := s[0];
      if p.inQuotes {
        if ch == QUOTE {
          if |s| > 1 && s[1] == QUOTE {
            ReadRestKeeps(s[2..], p.(field := p.field + [QUOTE]));
          } else {
            ReadRestKeeps(s[1..], p.(inQuotes := false));
          }
        } else {
          ReadRestKeeps(s[1..], p.(field := p.field + [ch]));
        }
      } else if ch == QUOTE {
        ReadRestKeeps(s[1..], p.(inQuotes := true));
      } else if ch == COMMA {
        ReadRestKeeps(s[1..], p.(row := p.row + [p.field], field := ""));
      } else if ch == LF || ch == CR {
        var skip := if ch == CR && |s| > 1 && s[1] == LF then 2 else 1;
        var q := EndRow(p);
        assert q.rows[..|p.rows|] == p.rows;
        ReadRestKeeps(s[skip..], q);
      } else {
        ReadRestKeeps(s[1..], p.(field := p.field + [ch]));
      }
    }
  }

  /** `parseCsv`: the rows of `text`, none of them blank. */
  function ParseCsv(text: string): (rows: seq<Row>)
    ensures AllKept(rows)
  {
    ReadRestKeeps(text, START);
    ReadRest(text, START)
  }

  predicate Special(c: char)
  {
    c == QUOTE || c == COMMA || c == LF || c == CR
  }

  lemma {:induction false} ReadPlain(s: string, p: Reader)
    requires !p.inQuotes && forall k | 0 <= k < |s| :: !Special(s[k])
    ensures ReadRest(s, p) == Finish(p.(field := p.field + s))
    decreases |s|
  {
    if |s| == 0 {
      assert p.field + s == p.field;
    } else {
      ReadPlain(s[1..], p.(field := p.field + [s[0]]));
      assert p.field + [s[0]] + s[1..] == p.field + s;
    }
  }

  /** Text without quotes, commas or line breaks is one row of one field,
      and the empty text has no rows. */
  lemma PlainText(text: string)
    requires forall k | 0 <= k < |text| :: !Special(text[k])
    ensures ParseCsv(text) == if |text| == 0 then [] else [[text]]
  {
    ReadPlain(text, START);
    assert START.field + text == text;
    var none: seq<Row>, empty: Row := [], [];
    assert empty + [text] == [text];
    assert none + [[text]] == [[text]];
  }

  // A writer for the same format, every field quoted.

  /** Every quote doubled. */
  function Escape(f: string): (r: string)
    ensures |r| >= |f|
  {
    if |f| == 0 then ""
    else (if f[0] == QUOTE then [QUOTE, QUOTE] else [f[0]]) + Escape(f[1..])
  }

  function EncodeField(f: string): (r: string)
    ensures |r| >= 2 && r[0] == QUOTE
  {
    [QUOTE] + Escape(f) + [QUOTE]
  }

  /** The fields of a row, quoted and separated by commas. */
  function EncodeRow(row: Row): (r: string)
    requires |row| >= 1
    ensures |r| >= 2 && r[0] == QUOTE
  {
    if |row| == 1 then EncodeField(row[0])
    else EncodeField(row[0]) + [COMMA] + EncodeRow(row[1..])
  }

  /** The three line breaks the reader accepts. */
  datatype LineBreak = Lf | Cr | CrLf

  function BreakText(b: LineBreak): (r: string)
    ensures |r| >= 1 && (r[0] == LF || r[0] == CR)
  {
    match b
    case Lf => [LF]
    case Cr => [CR]
    case CrLf => [CR, LF]
  }

  /** Every row followed by a line break. */
  function EncodeCsv(rows: seq<Row>, b: LineBreak): (r: string)
    requires AllKept(rows)
    ensures |rows| > 0 ==> |r| > 0 && r[0] == QUOTE
  {
    if |rows| == 0 then ""
    else
      assert Kept(rows[0]);
      assert AllKept(rows[1..]) by {
        assert forall k | 0 <= k < |rows[1..]| :: rows[1..][k] == rows[k + 1];
      }
      EncodeRow(rows[0]) + BreakText(b) + EncodeCsv(rows[1..], b)
  }

  // One step of the reader on a known first character.

  lemma OpenQuote(t: string, p: Reader)
    requires !p.inQuotes
    ensures ReadRest([QUOTE] + t, p) == ReadRest(t, p.(inQuotes := true))
  {
    assert ([QUOTE] + t)[1..] == t;
  }

  lemma CommaStep(t: string, p: Reader)
    requires !p.inQuotes
    ensures ReadRest([COMMA] + t, p) == ReadRest(t, p.(row := p.row + [p.field], field := ""))
  {
    assert ([COMMA] + t)[1..] == t;
  }

  lemma DoubledQuote(t: string, p: Reader)
    requires p.inQuotes
    ensures ReadRest([QUOTE, QUOTE] + t, p) == ReadRest(t, p.(field := p.field + [QUOTE]))
  {
    assert ([QUOTE, QUOTE] + t)[2..] == t;
  }

  lemma QuotedChar(c: char, t: string, p: Reader)
    requires p.inQuotes && c != QUOTE
    ensures ReadRest([c] + t, p) == ReadRest(t, p.(field := p.field + [c]))
  {
    assert ([c] + t)[1..] == t;
  }

  lemma CloseQuote(t: string, p: Reader)
    requires p.inQuotes && (|t| == 0 || t[0] != QUOTE)
    ensures ReadRest([QUOTE] + t, p) == ReadRest(t, p.(inQuotes := false))
  {
    assert ([QUOTE] + t)[1..] == t;
  }

  /** Inside quotes, an escaped field and its closing quote read back as the
      field, whatever it holds: quotes, commas and line breaks included. */
  lemma {:induction false} ReadQuoted(f: string, q: string, p: Reader)
    requires p.inQuotes && (|q| == 0 || q[0] != QUOTE)
    ensures ReadRest(Escape(f) + [QUOTE] + q, p)
            == ReadRest(q, p.(field := p.field + f, inQuotes := false))
    decreases |f|
  {
    if |f| == 0 {
      assert Escape(f) + [QUOTE] + q == [QUOTE] + q;
      CloseQuote(q, p);
      assert p.field + f == p.field;
    } else {
      var t := Escape(f[1..]) + [QUOTE] + q;
      var c := f[0];
      var p1 := p.(field := p.field + [c]);
      if c == QUOTE {
        Assoc4([QUOTE, QUOTE], Escape(f[1..]), [QUOTE], q);
        DoubledQuote(t, p);
      } else {
        Assoc4([c], Escape(f[1..]), [QUOTE], q);
        QuotedChar(c, t, p);
      }
      ReadQuoted(f[1..], q, p1);
      Assoc(p.field, [c], f[1..]);
      ConsSplit(f);
    }
  }

  lemma ReadField(f: string, q: string, p: Reader)
    requires !p.inQuotes && (|q| == 0 || q[0] != QUOTE)
    ensures ReadRest(EncodeField(f) + q, p) == ReadRest(q, p.(field := p.field + f))
  {
    var t := Escape(f) + [QUOTE] + q;
    Assoc4([QUOTE], Escape(f), [QUOTE], q);
    OpenQuote(t, p);
    ReadQuoted(f, q, p.(inQuotes := true));
  }

  /** A written row reads back as its fields, the last one still open. */
  lemma {:induction false} ReadRow(row: Row, q: string, p: Reader)
    requires |row| >= 1 && !p.inQuotes && p.field == ""
    requires |q| == 0 || q[0] != QUOTE
    ensures ReadRest(EncodeRow(row) + q, p)
            == ReadRest(q, p.(row := p.row + row[..|row| - 1], field := row[|row| - 1]))
    decreases |row|
  {
    if |row| == 1 {
      ReadField(row[0], q, p);
      assert p.row + row[..0] == p.row;
      assert p.field + row[0] == row[0];
    } else {
      var rest := EncodeRow(row[1..]) + q;
      Assoc4(EncodeField(row[0]), [COMMA], EncodeRow(row[1..]), q);
      ReadField(row[0], [COMMA] + rest, p);
      var p1 := p.(field := row[0]);
      assert p.(field := p.field + row[0]) == p1;
      CommaStep(rest, p1);
      var p2 := p1.(row := p1.row + [row[0]], field := "");
      ReadRow(row[1..], q, p2);
      ConsPrefix(p.row, row);
    }
  }

  /** Any of the three line breaks ends exactly one row. */
  lemma ReadBreak(b: LineBreak, q: string, p: Reader)
    requires !p.inQuotes && (|q| == 0 || q[0] != LF)
    ensures ReadRest(BreakText(b) + q, p) == ReadRest(q, EndRow(p))
  {
    var s := BreakText(b) + q;
    if b == CrLf {
      assert s[2..] == q;
    } else {
      assert s[1..] == q;
    }
  }

  /** A written row and its line break read back as that row. */
  lemma ReadLine(row: Row, b: LineBreak, tail: string, acc: seq<Row>)
    requires Kept(row) && (|tail| == 0 || tail[0] == QUOTE)
    ensures ReadRest(EncodeRow(row) + BreakText(b) + tail, Reader(acc, [], "", false))
            == ReadRest(tail, Reader(acc + [row], [], "", false))
  {
    var n := |row|;
    var p1 := Reader(acc, row[..n - 1], row[n - 1], false);
    Assoc(EncodeRow(row), BreakText(b), tail);
    BreakFirst(b, tail);
    ReadOpenRow(row, BreakText(b) + tail, acc);
    ReadBreak(b, tail, p1);
    CloseRow(acc, row);
  }

  lemma BreakFirst(b: LineBreak, tail: string)
    ensures (BreakText(b) + tail)[0] != QUOTE
  {
  }

  /** A written row at the start of a line: its fields are read, the last
      one still open. */
  lemma ReadOpenRow(row: Row, q: string, acc: seq<Row>)
    requires |row| >= 1 && (|q| == 0 || q[0] != QUOTE)
    ensures ReadRest(EncodeRow(row) + q, Reader(acc, [], "", false))
            == ReadRest(q, Reader(acc, row[..|row| - 1], row[|row| - 1], false))
  {
    var p := Reader(acc, [], "", false);
    ReadRow(row, q, p);
    assert p.row + row[..|row| - 1] == row[..|row| - 1];
  }

  /** The line break after a row that is not blank emits it. */
  lemma CloseRow(acc: seq<Row>, row: Row)
    requires Kept(row)
    ensures EndRow(Reader(acc, row[..|row| - 1], row[|row| - 1], false))
            == Reader(acc + [row], [], "", false)
  {
    assert row[..|row| - 1] + [row[|row| - 1]] == row;
  }

  /** The text of some rows starts with a quote, unless there are none. */
  lemma StartsQuoted(rows: seq<Row>, b: LineBreak, q: string)
    requires AllKept(rows) && (|q| == 0 || q[0] == QUOTE)
    ensures var t := EncodeCsv(rows, b) + q; |t| == 0 || t[0] == QUOTE
  {
    if |rows| > 0 {
      assert (EncodeCsv(rows, b) + q)[0] == EncodeCsv(rows, b)[0];
    } else {
      assert EncodeCsv(rows, b) + q == q;
    }
  }

  lemma AllKeptTail(rows: seq<Row>)
    requires |rows| > 0 && AllKept(rows)
    ensures Kept(rows[0]) && AllKept(rows[1..])
  {
    assert forall k | 0 <= k < |rows[1..]| :: rows[1..][k] == rows[k + 1];
  }

  /** The first written row comes off the front of the text. */
  lemma ReadFirstLine(rows: seq<Row>, b: LineBreak, q: string, acc: seq<Row>)
    requires |rows| > 0 && AllKept(rows)
    requires |q| == 0 || q[0] == QUOTE
    ensures AllKept(rows[1..])
    ensures ReadRest(EncodeCsv(rows, b) + q, Reader(acc, [], "", false))
            == ReadRest(EncodeCsv(rows[1..], b) + q, Reader(acc + [rows[0]], [], "", false))
  {
    AllKeptTail(rows);
    var tail := EncodeCsv(rows[1..], b) + q;
    StartsQuoted(rows[1..], b, q);
    assert EncodeCsv(rows, b) == EncodeRow(rows[0]) + BreakText(b) + EncodeCsv(rows[1..], b);
    Assoc(EncodeRow(rows[0]) + BreakText(b), EncodeCsv(rows[1..], b), q);
    ReadLine(rows[0], b, tail, acc);
  }

  lemma {:induction false} ReadRows(rows: seq<Row>, b: LineBreak, q: string, acc: seq<Row>)
    requires AllKept(rows)
    requires |q| == 0 || q[0] == QUOTE
    ensures ReadRest(EncodeCsv(rows, b) + q, Reader(acc, [], "", false))
            == ReadRest(q, Reader(acc + rows, [], "", false))
    decreases |rows|
  {
    if |rows| == 0 {
      assert acc + rows == acc;
      assert EncodeCsv(rows, b) + q == q;
    } else {
      ReadFirstLine(rows, b, q, acc);
      ReadRows(rows[1..], b, q, acc + [rows[0]]);
      Assoc(acc, [rows[0]], rows[1..]);
      ConsSplit(rows);
    }
  }

  /** Writing rows that are not blank, with any of the three line breaks,
      and reading them back gives the same rows. */
  lemma CsvRoundTrip(rows: seq<Row>, b: LineBreak)
    requires AllKept(rows)
    ensures ParseCsv(EncodeCsv(rows, b)) == rows
  {
    ReadRows(rows, b, "", []);
    assert EncodeCsv(rows, b) + "" == EncodeCsv(rows, b);
    assert [] + rows == rows;
  }

  /** The end of the text closes a pending row that is not blank. */
  lemma FinishRow(acc: seq<Row>, row: Row)
    requires Kept(row)
    ensures ReadRest("", Reader(acc, row[..|row| - 1], row[|row| - 1], false)) == acc + [row]
  {
    assert row[..|row| - 1] + [row[|row| - 1]] == row;
  }

  /** Without the line break after the last row, that row is still read:
      the trailing break adds no row and its absence loses none. */
  lemma CsvRoundTripUnterminated(rows: seq<Row>, b: LineBreak)
    requires |rows| > 0 && AllKept(rows)
    ensures ParseCsv(EncodeCsv(rows[..|rows| - 1], b) + EncodeRow(rows[|rows| - 1]))
            == rows
  {
    var init, last := rows[..|rows| - 1], rows[|rows| - 1];
    assert Kept(last);
    assert AllKept(init) by {
      assert forall k | 0 <= k < |init| :: init[k] == rows[k];
    }
    ReadRows(init, b, EncodeRow(last), []);
    assert [] + init == init;
    ReadRow(last, "", Reader(init, [], "", false));
    assert EncodeRow(last) + "" == EncodeRow(last);
    assert [] + last[..|last| - 1] == last[..|last| - 1];
    FinishRow(init, last);
    assert init + [last] == rows;
  }

  /** A blank line, with any line break, adds no row. */
  lemma BlankLineSkipped(b: LineBreak, text: string)
    requires |text| == 0 || text[0] != LF
    ensures ParseCsv(BreakText(b) + text) == ParseCsv(text)
  {
    ReadBreak(b, text, START);
    assert EndRow(START) == START;
  }

  // ------------------------------------------------------ translation table

  /** locale -> key -> text. */
  type Table = map<string, map<string, string>>

  /** `table?.[locale]?.[key]`, `None` where the source gets `undefined`. */
  function Lookup(t: Table, locale: string, key: string): (r: Option<string>)
    ensures r.Some? <==> locale in t && key in t[locale]
  {
    if locale in t && key in t[locale] then Some(t[locale][key]) else None
  }

  /** The byte order mark a file may start with. */
  const BOM: char := '\U{FEFF}'

  /** The first header loses a leading byte order mark; the others are kept. */
  function Headers(first: Row): (h: Row)
    ensures |h| == |first|
    ensures forall k | 1 <= k < |h| :: h[k] == first[k]
    ensures |h| > 0 && |first[0]| > 0 && first[0][0] == BOM ==> [BOM] + h[0] == first[0]
  {
    if |first| == 0 then []
    else if |first[0]| > 0 && first[0][0] == BOM then [first[0][1..]] + first[1..]
    else first
  }

  /** `row[j] ?? ""`. */
  function Cell(row: Row, j: nat): string
  {
    if j < |row| then row[j] else ""
  }

  /** The inner loop of `buildTranslations` over columns `1 .. n-1`: each
      named column stores its cell under `key`. */
  function AddCells(m: Table, headers: Row, key: string, row: Row, n: nat): Table
    requires n <= |headers|
  {
    if n <= 1 then m
    else
      var prev := AddCells(m, headers, key, row, n - 1);
      var locale := headers[n - 1];
      if locale == "" then prev
      else
        var entries := if locale in prev then prev[locale] else map[];
        prev[locale := entries[key := Cell(row, n - 1)]]
  }

  /** The outer loop over rows `1 .. n-1`, skipping rows without a key. */
  function AddRows(headers: Row, rows: seq<Row>, n: nat): Table
    requires n <= |rows|
  {
    if n <= 1 then map[]
    else
      var prev := AddRows(headers, rows, n - 1);
      var row := rows[n - 1];
      if |row| == 0 || row[0] == "" then prev
      else AddCells(prev, headers, row[0], row, |headers|)
  }

  /** `buildTranslations`: no rows give the empty table. */
  function BuildTranslations(rows: seq<Row>): (t: Table)
    ensures |rows| == 0 ==> t == map[]
  {
    if |rows| == 0 then map[] else AddRows(Headers(rows[0]), rows, |rows|)
  }

  /** The last column among `1 .. n-1` headed `locale`. */
  function LastCol(headers: Row, locale: string, n: nat): (r: Option<nat>)
    requires n <= |headers|
    ensures r.Some? ==> 1 <= r.value < n && headers[r.value] == locale
    ensures r.Some? ==> forall k | r.value < k < n :: headers[k] != locale
    ensures r.None? <==> forall k | 1 <= k < n :: headers[k] != locale
  {
    if n <= 1 then None
    else if headers[n - 1] == locale then Some(n - 1)
    else LastCol(headers, locale, n - 1)
  }

  /** The last row among `1 .. n-1` whose key is `key`. */
  function LastRow(rows: seq<Row>, key: string, n: nat): (r: Option<nat>)
    requires n <= |rows|
    ensures r.Some? ==> 1 <= r.value < n && |rows[r.value]| > 0 && rows[r.value][0] == key
    ensures r.Some? ==> forall k | r.value < k < n :: |rows[k]| == 0 || rows[k][0] != key
    ensures r.None? <==> forall k | 1 <= k < n :: |rows[k]| == 0 || rows[k][0] != key
  {
    if n <= 1 then None
    else if |rows[n - 1]| > 0 && rows[n - 1][0] == key then Some(n - 1)
    else LastRow(rows, key, n - 1)
  }

  lemma {:induction false} AddCellsLookup(m: Table, headers: Row, key: string, row: Row, n: nat,
                                          locale: string, k: string)
    requires n <= |headers|
    ensures Lookup(AddCells(m, headers, key, row, n), locale, k)
            == if k == key && locale != "" && LastCol(headers, locale, n).Some?
               then Some(Cell(row, LastCol(headers, locale, n).value))
               else Lookup(m, locale, k)
    decreases n
  {
    if n > 1 {
      AddCellsLookup(m, headers, key, row, n - 1, locale, k);
    }
  }

  lemma {:induction false} AddRowsLookup(headers: Row, rows: seq<Row>, n: nat,
                                         locale: string, key: string)
    requires n <= |rows|
    ensures Lookup(AddRows(headers, rows, n), locale, key)
            == if key != "" && locale != "" && LastRow(rows, key, n).Some?
                  && LastCol(headers, locale, |headers|).Some?
               then Some(Cell(rows[LastRow(rows, key, n).value], LastCol(headers, locale, |headers|).value))
               else None
    decreases n
  {
    if n > 1 {
      AddRowsLookup(headers, rows, n - 1, locale, key);
      var row := rows[n - 1];
      if |row| > 0 && row[0] != "" {
        AddCellsLookup(AddRows(headers, rows, n - 1), headers, row[0], row, |headers|, locale, key);
      }
    }
  }

  /** What the table holds: the entry for `locale` and `key` is the cell of
      the last row with that key in the last column headed `locale`, "" when
      that row is short; there is none for an empty key or locale, or when
      no row or column matches. */
  lemma TranslationsSpec(rows: seq<Row>, locale: string, key: string)
    requires |rows| > 0
    ensures var h := Headers(rows[0]);
            Lookup(BuildTranslations(rows), locale, key)
            == if key != "" && locale != "" && LastRow(rows, key, |rows|).Some?
                  && LastCol(h, locale, |h|).Some?
               then Some(Cell(rows[LastRow(rows, key, |rows|).value], LastCol(h, locale, |h|).value))
               else None
  {
    AddRowsLookup(Headers(rows[0]), rows, |rows|, locale, key);
  }

  lemma {:induction false} LastColAgree(h1: Row, h2: Row, locale: string, n: nat)
    requires n <= |h1| == |h2| && forall k | 1 <= k < |h1| :: h1[k] == h2[k]
    ensures LastCol(h1, locale, n) == LastCol(h2, locale, n)
    decreases n
  {
    if n > 1 {
      LastColAgree(h1, h2, locale, n - 1);
    }
  }

  /** The first header names the key column and is never a locale, so what
      it says (with or without a byte order mark) does not change the
      table's entries. */
  lemma FirstHeaderIgnored(rows: seq<Row>, header: string, locale: string, key: string)
    requires |rows| > 0 && |rows[0]| > 0
    ensures Lookup(BuildTranslations(rows[0 := rows[0][0 := header]]), locale, key)
            == Lookup(BuildTranslations(rows), locale, key)
  {
    var rows2 := rows[0 := rows[0][0 := header]];
    var h1, h2 := Headers(rows[0]), Headers(rows2[0]);
    TranslationsSpec(rows, locale, key);
    TranslationsSpec(rows2, locale, key);
    LastColAgree(h1, h2, locale, |h1|);
    assert LastRow(rows, key, |rows|) == LastRow(rows2, key, |rows|) by {
      LastRowAgree(rows, rows2, key, |rows|);
    }
  }

  lemma {:induction false} LastRowAgree(r1: seq<Row>, r2: seq<Row>, key: string, n: nat)
    requires n <= |r1| == |r2| && forall k | 1 <= k < |r1| :: r1[k] == r2[k]
    ensures LastRow(r1, key, n) == LastRow(r2, key, n)
    decreases n
  {
    if n > 1 {
      LastRowAgree(r1, r2, key, n - 1);
    }
  }

  // ---------------------------------------------------------- placeholders

  /** A character of the regular-expression class `\w`. */
  predicate IsWordChar(c: char)
  {
    ('a' <= c <= 'z') || ('A' <= c <= 'Z') || ('0' <= c <= '9') || c == '_'
  }

  /** The length of the run of word characters `s` starts with. */
  function WordRun(s: string): (n: nat)
    ensures n <= |s|
    ensures forall k | 0 <= k < n :: IsWordChar(s[k])
    ensures n < |s| ==> !IsWordChar(s[n])
  {
    if |s| == 0 || !IsWordChar(s[0]) then 0 else 1 + WordRun(s[1..])
  }

  /** Where `/\{(\w+)\}/` matches at the front of `s`: the name's length. */
  function PlaceholderAt(s: string): (r: Option<nat>)
    ensures r.Some? ==> 0 < r.value && r.value + 2 <= |s|
  {
    if |s| > 0 && s[0] == '{' then
      var n := WordRun(s[1..]);
      if n > 0 && n + 1 < |s| && s[n + 1] == '}' then Some(n) else None
    else None
  }

  /** `value.replace(/\{(\w+)\}/g, ...)`: left to right, each `{name}` whose
      name is a parameter becomes the parameter's text, any other stays as
      written, and replaced text is not scanned again. Text without `{`
      comes back unchanged. */
  function Substitute(s: string, params: map<string, string>): (r: string)
    ensures (forall k | 0 <= k < |s| :: s[k] != '{') ==> r == s
    decreases |s|
  {
    if |s| == 0 then ""
    else match PlaceholderAt(s)
      case Some(n) =>
        var name := s[1..n + 1];
        (if name in params then params[name] else s[..n + 2]) + Substitute(s[n + 2..], params)
      case None =>
        assert s == [s[0]] + s[1..];
        [s[0]] + Substitute(s[1..], params)
  }

  /** With no parameters every placeholder stays as written. */
  lemma {:induction false} NoParamsIdentity(s: string)
    ensures Substitute(s, map[]) == s
    decreases |s|
  {
    if |s| > 0 {
      match PlaceholderAt(s)
      case Some(n) =>
        NoParamsIdentity(s[n + 2..]);
        assert s[..n + 2] + s[n + 2..] == s;
      case None =>
        NoParamsIdentity(s[1..]);
        assert [s[0]] + s[1..] == s;
    }
  }

  /** A message template: literal text and named slots. */
  datatype Piece = Text(text: string) | Slot(name: string)

  /** Literal text holds no `{`, and slot names are non-empty words. */
  predicate WellFormed(t: seq<Piece>)
  {
    forall i | 0 <= i < |t| ::
      match t[i]
      case Text(x) => forall k | 0 <= k < |x| :: x[k] != '{'
      case Slot(name) => |name| > 0 && forall k | 0 <= k < |name| :: IsWordChar(name[k])
  }

  /** The template written out, each slot as `{name}`. */
  function TemplateText(t: seq<Piece>): string
  {
    if |t| == 0 then ""
    else
      (match t[0]
       case Text(x) => x
       case Slot(name) => "{" + name + "}") + TemplateText(t[1..])
  }

  /** The reference meaning of a template: each slot filled from the
      parameters when named there, kept as `{name}` otherwise. */
  function Render(t: seq<Piece>, params: map<string, string>): string
  {
    if |t| == 0 then ""
    else
      (match t[0]
       case Text(x) => x
       case Slot(name) => if name in params then params[name] else "{" + name + "}")
      + Render(t[1..], params)
  }

  lemma {:induction false} LiteralPrefix(a: string, b: string, params: map<string, string>)
    requires forall k | 0 <= k < |a| :: a[k] != '{'
    ensures Substitute(a + b, params) == a + Substitute(b, params)
    decreases |a|
  {
    if |a| == 0 {
      assert a + b == b;
    } else {
      ConsAppend(a, b);
      PlainChar(a + b, params);
      LiteralPrefix(a[1..], b, params);
      var x := Substitute(b, params);
      Assoc([a[0]], a[1..], x);
      ConsSplit(a);
    }
  }

  /** A character that does not open a placeholder is copied. */
  lemma PlainChar(s: string, params: map<string, string>)
    requires |s| > 0 && s[0] != '{'
    ensures Substitute(s, params) == [s[0]] + Substitute(s[1..], params)
  {
    assert PlaceholderAt(s) == None;
  }

  lemma SlotPrefix(name: string, b: string, params: map<string, string>)
    requires |name| > 0 && forall k | 0 <= k < |name| :: IsWordChar(name[k])
    ensures Substitute("{" + name + "}" + b, params)
            == (if name in params then params[name] else "{" + name + "}") + Substitute(b, params)
  {
    var s := "{" + name + "}" + b;
    var n := |name|;
    WordRunOf(name, "}" + b);
    assert s[1..] == name + ("}" + b);
    assert PlaceholderAt(s) == Some(n);
    assert s[1..n + 1] == name;
    assert s[..n + 2] == "{" + name + "}";
    assert s[n + 2..] == b;
  }

  lemma {:induction false} WordRunOf(w: string, rest: string)
    requires forall k | 0 <= k < |w| :: IsWordChar(w[k])
    requires |rest| > 0 && !IsWordChar(rest[0])
    ensures WordRun(w + rest) == |w|
    decreases |w|
  {
    if |w| > 0 {
      assert (w + rest)[1..] == w[1..] + rest;
      WordRunOf(w[1..], rest);
    } else {
      assert w + rest == rest;
    }
  }

  /** Substitution renders every well-formed template as the reference
      does. */
  lemma {:induction false} SubstituteRenders(t: seq<Piece>, params: map<string, string>)
    requires WellFormed(t)
    ensures Substitute(TemplateText(t), params) == Render(t, params)
    decreases |t|
  {
    if |t| > 0 {
      assert WellFormed(t[1..]) by {
        forall i | 0 <= i < |t[1..]| ensures t[1..][i] == t[i + 1] {}
      }
      SubstituteRenders(t[1..], params);
      match t[0]
      case Text(x) =>
        LiteralPrefix(x, TemplateText(t[1..]), params);
      case Slot(name) =>
        SlotPrefix(name, TemplateText(t[1..]), params);
    }
  }

  // ---------------------------------------------------------------- lookup

  /** `t(key, params)` with the locale given: "" for an empty key; else the
      locale's entry, else the English one, else the key itself (an entry
      that is "" is used as it is), with its placeholders substituted. */
  function Translate(table: Table, locale: string, key: string, params: map<string, string>): (r: string)
    ensures key == "" ==> r == ""
  {
    if key == "" then ""
    else
      var value := match Lookup(table, locale, key)
        case Some(v) => v
        case None => match Lookup(table, "en", key)
          case Some(v) => v
          case None => key;
      Substitute(value, params)
  }

  /** An entry that exists is used even when it is empty: no fallback to
      English or to the key. */
  lemma EmptyEntryKept(table: Table, locale: string, key: string, params: map<string, string>)
    requires key != "" && Lookup(table, locale, key) == Some("")
    ensures Translate(table, locale, key, params) == ""
  {
  }

  /** With a table read from rows and no parameters, a key the locale's
      column has an entry for gives that entry. */
  lemma TranslateReadsTable(rows: seq<Row>, locale: string, key: string)
    requires |rows| > 0 && key != "" && locale != ""
    requires LastRow(rows, key, |rows|).Some?
    requires LastCol(Headers(rows[0]), locale, |rows[0]|).Some?
    ensures Translate(BuildTranslations(rows), locale, key, map[])
            == Cell(rows[LastRow(rows, key, |rows|).value],
                    LastCol(Headers(rows[0]), locale, |rows[0]|).value)
  {
    TranslationsSpec(rows, locale, key);
    var v := Cell(rows[LastRow(rows, key, |rows|).value],
                  LastCol(Headers(rows[0]), locale, |rows[0]|).value);
    NoParamsIdentity(v);
  }

  /** Without a column for the locale, the English entry is used. */
  lemma TranslateFallsBackToEnglish(rows: seq<Row>, locale: string, key: string)
    requires |rows| > 0 && key != ""
    requires LastCol(Headers(rows[0]), locale, |rows[0]|).None?
    requires LastRow(rows, key, |rows|).Some?
    requires LastCol(Headers(rows[0]), "en", |rows[0]|).Some?
    ensures Translate(BuildTranslations(rows), locale, key, map[])
            == Cell(rows[LastRow(rows, key, |rows|).value],
                    LastCol(Headers(rows[0]), "en", |rows[0]|).value)
  {
    TranslationsSpec(rows, locale, key);
    TranslationsSpec(rows, "en", key);
    var v := Cell(rows[LastRow(rows, key, |rows|).value],
                  LastCol(Headers(rows[0]), "en", |rows[0]|).value);
    NoParamsIdentity(v);
  }

  /** A key no row defines is shown as itself, placeholders filled. */
  lemma TranslateEchoesKey(rows: seq<Row>, locale: string, key: string, params: map<string, string>)
    requires |rows| > 0 && key != ""
    requires LastRow(rows, key, |rows|).None?
    ensures Translate(BuildTranslations(rows), locale, key, params) == Substitute(key, params)
  {
    TranslationsSpec(rows, locale, key);
    TranslationsSpec(rows, "en", key);
  }
}
