/** The board's text form: the side n in decimal, then each row on a line
    of its own, every value followed by a space, with no final newline.
    A parser for that form is given as a reference the rendering is proved
    against: reading the text back yields the board. */
module Text {
  import opened Grids

  datatype Option<T> = None | Some(value: T)

  predicate IsDigit(ch: char) {
    '0' <= ch <= '9'
  }

  function DigitChar(d: int): (ch: char)
    requires 0 <= d < 10
    ensures IsDigit(ch)
  {
    ('0' as int + d) as char
  }

  function DigitValue(ch: char): int
    requires IsDigit(ch)
  {
    ch as int - '0' as int
  }

  predicate AllDigits(s: string) {
    forall k :: 0 <= k < |s| ==> IsDigit(s[k])
  }

  /** The decimal digits of x, most significant first. */
  function NatStr(x: nat): (s: string)
    ensures |s| >= 1 && AllDigits(s)
  {
    if x < 10 then [DigitChar(x)] else NatStr(x / 10) + [DigitChar(x % 10)]
  }

  /** The decimal form of an integer, with a minus sign before a negative one. */
  function IntStr(x: int): string {
    if x < 0 then "-" + NatStr(-x) else NatStr(x)
  }

  /** One row: every value followed by a space. */
  function RowText(row: seq<int>): string {
    if row == [] then "" else IntStr(row[0]) + " " + RowText(row[1..])
  }

  /** The rows, each after a newline. */
  function RowsText(rows: Grid): string {
    if rows == [] then "" else "\n" + RowText(rows[0]) + RowsText(rows[1..])
  }

  /** The text of a board of side n; empty when n is 0. */
  function Render(g: Grid, n: nat): string {
    if n == 0 then "" else NatStr(n) + RowsText(g)
  }

  /** Appending a value to a row appends its text. */
  lemma {:induction false} RowTextSnoc(row: seq<int>, v: int)
    ensures RowText(row + [v]) == RowText(row) + (IntStr(v) + " ")
  {
    if row == [] {
      assert [v][1..] == [];
    } else {
      assert (row + [v])[1..] == row[1..] + [v];
      RowTextSnoc(row[1..], v);
    }
  }

  /** Appending a row appends a newline and the row's text. */
  lemma {:induction false} RowsTextSnoc(rows: Grid, r: seq<int>)
    ensures RowsText(rows + [r]) == RowsText(rows) + ("\n" + RowText(r))
  {
    if rows == [] {
      assert [r][1..] == [];
    } else {
      assert (rows + [r])[1..] == rows[1..] + [r];
      RowsTextSnoc(rows[1..], r);
    }
  }

  /** Appending the text of row[j] to the text of row[..j]. */
  lemma RowTextStep(head: string, row: seq<int>, j: int)
    requires 0 <= j < |row|
    ensures head + RowText(row[..j]) + (IntStr(row[j]) + " ") == head + RowText(row[..j + 1])
  {
    assert row[..j + 1] == row[..j] + [row[j]];
    RowTextSnoc(row[..j], row[j]);
  }

  /** Appending row i, after a newline, to the text of rows 0 .. i-1. */
  lemma RenderStep(n: nat, g: Grid, i: int)
    requires 0 <= i < |g|
    ensures NatStr(n) + RowsText(g[..i]) + "\n" + RowText(g[i]) == NatStr(n) + RowsText(g[..i + 1])
  {
    assert g[..i + 1] == g[..i] + [g[i]];
    RowsTextSnoc(g[..i], g[i]);
  }

  // The reference parser.

  /** The length of the run of digits s starts with. */
  function DigitSpan(s: string): (k: nat)
    ensures k <= |s| && AllDigits(s[..k])
    ensures k < |s| ==> !IsDigit(s[k])
  {
    if s != [] && IsDigit(s[0]) then
      var k := 1 + DigitSpan(s[1..]);
      assert s[..k] == [s[0]] + s[1..][..k - 1];
      k
    else 0
  }

  /** The number a string of digits denotes. */
  function DigitsValue(ds: string): nat
    requires AllDigits(ds)
  {
    if ds == [] then 0 else DigitsValue(ds[..|ds| - 1]) * 10 + DigitValue(ds[|ds| - 1])
  }

  /** A natural number at the front of s, and the rest of s. */
  function ParseNat(s: string): Option<(nat, string)> {
    var k := DigitSpan(s);
    if k == 0 then None else Some((DigitsValue(s[..k]), s[k..]))
  }

  /** An integer, possibly negative, at the front of s, and the rest of s. */
  function ParseInt(s: string): Option<(int, string)> {
    if s != [] && s[0] == '-' then
      var r := ParseNat(s[1..]);
      if r.None? then None else Some((-(r.value.0 as int), r.value.1))
    else
      var r := ParseNat(s);
      if r.None? then None else Some((r.value.0 as int, r.value.1))
  }

  /** k values, each followed by a space, at the front of s. */
  function ParseRow(s: string, k: nat): Option<(seq<int>, string)> {
    if k == 0 then Some(([], s))
    else
      var v := ParseInt(s);
      if v.None? then None
      else
        var rest := v.value.1;
        if rest == [] || rest[0] != ' ' then None
        else
          var vs := ParseRow(rest[1..], k - 1);
          if vs.None? then None else Some(([v.value.0] + vs.value.0, vs.value.1))
  }

  /** k rows of n values, each after a newline, at the front of s. */
  function ParseRows(s: string, n: nat, k: nat): Option<(Grid, string)>
    decreases k
  {
    if k == 0 then Some(([], s))
    else if s == [] || s[0] != '\n' then None
    else
      var row := ParseRow(s[1..], n);
      if row.None? then None
      else
        var rows := ParseRows(row.value.1, n, k - 1);
        if rows.None? then None else Some(([row.value.0] + rows.value.0, rows.value.1))
  }

  /** A whole board text: the side n >= 1, then n rows of n values. */
  function ParseBoard(s: string): Option<(nat, Grid)> {
    var side := ParseNat(s);
    if side.None? || side.value.0 == 0 then None
    else
      var n := side.value.0;
      var rows := ParseRows(side.value.1, n, n);
      if rows.None? || rows.value.1 != [] then None else Some((n, rows.value.0))
  }

  // The round trip.

  lemma {:induction false} NatStrValue(x: nat)
    ensures DigitsValue(NatStr(x)) == x
  {
    if x >= 10 {
      var s := NatStr(x);
      assert s[..|s| - 1] == NatStr(x / 10);
      NatStrValue(x / 10);
    }
  }

  lemma {:induction false} DigitSpanOf(ds: string, t: string)
    requires AllDigits(ds) && (t == [] || !IsDigit(t[0]))
    ensures DigitSpan(ds + t) == |ds|
  {
    if ds != [] {
      assert (ds + t)[1..] == ds[1..] + t;
      DigitSpanOf(ds[1..], t);
    }
  }

  /** A number's digits read back as that number when what follows is not a digit. */
  lemma ParseNatRoundTrip(x: nat, t: string)
    requires t == [] || !IsDigit(t[0])
    ensures ParseNat(NatStr(x) + t) == Some((x, t))
  {
    var s := NatStr(x);
    DigitSpanOf(s, t);
    assert (s + t)[..|s|] == s && (s + t)[|s|..] == t;
    NatStrValue(x);
  }

  /** Regrouping a concatenation of four strings to the right. */
  lemma Regroup(a: string, b: string, c: string, d: string)
    ensures a + b + c + d == a + (b + (c + d))
  {
  }

  lemma ParseIntRoundTrip(x: int, t: string)
    requires t == [] || !IsDigit(t[0])
    ensures ParseInt(IntStr(x) + t) == Some((x, t))
  {
    var s := IntStr(x) + t;
    if x < 0 {
      var digits := NatStr(-x) + t;
      assert s == "-" + digits;
      assert s[0] == '-' && s[1..] == digits;
      ParseNatRoundTrip(-x, t);
    } else {
      assert s == NatStr(x) + t;
      assert IsDigit(s[0]);
      ParseNatRoundTrip(x, t);
    }
  }

  /** A row's text reads back as the row. */
  lemma {:induction false} ParseRowRoundTrip(row: seq<int>, t: string)
    ensures ParseRow(RowText(row) + t, |row|) == Some((row, t))
  {
    if row != [] {
      var tail := RowText(row[1..]) + t;
      var rest := " " + tail;
      Regroup(IntStr(row[0]), " ", RowText(row[1..]), t);
      ParseIntRoundTrip(row[0], rest);
      assert rest[1..] == tail;
      ParseRowRoundTrip(row[1..], t);
      assert [row[0]] + row[1..] == row;
    } else {
      assert RowText(row) + t == t;
    }
  }

  /** The rows' text reads back as the rows. */
  lemma {:induction false} ParseRowsRoundTrip(rows: Grid, n: nat, t: string)
    requires forall i :: 0 <= i < |rows| ==> |rows[i]| == n
    ensures ParseRows(RowsText(rows) + t, n, |rows|) == Some((rows, t))
  {
    if rows != [] {
      var s := RowsText(rows) + t;
      var after := RowsText(rows[1..]) + t;
      Regroup("\n", RowText(rows[0]), RowsText(rows[1..]), t);
      assert s[1..] == RowText(rows[0]) + after;
      ParseRowRoundTrip(rows[0], after);
      ParseRowsRoundTrip(rows[1..], n, t);
      assert [rows[0]] + rows[1..] == rows;
    } else {
      assert RowsText(rows) + t == t;
    }
  }

  /** Reading a board's text back yields its side and its grid. */
  lemma RenderRoundTrip(g: Grid, n: nat)
    requires n >= 1 && IsSquare(g, n)
    ensures ParseBoard(Render(g, n)) == Some((n, g))
  {
    var rows := RowsText(g);
    assert rows == [] || rows[0] == '\n';
    ParseNatRoundTrip(n, rows);
    assert rows == rows + [];
    ParseRowsRoundTrip(g, n, []);
  }

  /** Different boards of the same side have different texts. */
  lemma RenderInjective(g: Grid, h: Grid, n: nat)
    requires n >= 1 && IsSquare(g, n) && IsSquare(h, n)
    requires Render(g, n) == Render(h, n)
    ensures g == h
  {
    RenderRoundTrip(g, n);
    RenderRoundTrip(h, n);
  }
}
