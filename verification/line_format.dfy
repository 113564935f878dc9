/**
 * The line-oriented text form of a sparse matrix: a header line holding the
 * row count, one holding the column count, then one "(row, col, value)" line
 * per entry. Reading takes the first run of digits of each header line and
 * matches every later line against the entry pattern, skipping lines that
 * do not match; writing emits "rows=N", "cols=M" and the entries in
 * ascending (row, col) order.
 */
module LineFormat {
  import opened Numerals
  import opened EntryMaps

  datatype Option<T> = None | Some(value: T)

  /** The three numbers an entry line carries. */
  datatype Entry = Entry(row: nat, col: nat, value: int)

  function CoordOf(e: Entry): Coord {
    (e.row, e.col)
  }

  // ------------------------------------------------------------ header lines

  /** The value of the first maximal run of digits anywhere in `line`, if there is one. */
  function FirstDigitRun(line: string): (r: Option<nat>)
    ensures r.None? <==> NoDigits(line)
  {
    var i := SpanNonDigits(line);
    if i == |line| then None
    else Some(LeadingNumber(line[i..]))
  }

  /** Whatever text without digits comes first, the first digit run is read whole. */
  lemma FirstDigitRunOf(p: string, d: string, t: string)
    requires NoDigits(p)
    requires |d| > 0 && AllDigits(d)
    requires t == [] || !IsDigit(t[0])
    ensures FirstDigitRun(p + (d + t)) == Some(DigitsValue(d))
  {
    SpanNonDigitsOf(p, d + t);
    assert (p + (d + t))[|p|..] == d + t;
    SpanDigitsOf(d, t);
  }

  // ------------------------------------------------------------- entry lines

  lemma DigitIsNotSpace(c: char)
    requires IsDigit(c)
    ensures !IsSpace(c) && c != '-'
  {
  }

  /** Leading digits of `s` followed by `sep`: their value and what follows `sep`. */
  function NumberThen(s: string, sep: char): (r: Option<(nat, string)>)
    ensures r.Some? ==> |r.value.1| < |s|
  {
    var n := SpanDigits(s);
    if n == 0 || n == |s| || s[n] != sep then None
    else Some((LeadingNumber(s), s[n + 1..]))
  }

  function SkipSpaces(s: string): (t: string)
    ensures |t| <= |s|
  {
    s[SpanSpaces(s)..]
  }

  /**
   * Anchored match of `(\d+),\s*(\d+),\s*(-?\d+)\)` at the start of `line`;
   * anything may follow the closing parenthesis.
   */
  function MatchEntry(line: string): Option<Entry> {
    if |line| == 0 || line[0] != '(' then None else MatchRow(line[1..])
  }

  /** The rest of the pattern after `(`: `(\d+),\s*` then the column. */
  function MatchRow(s: string): Option<Entry> {
    var r := NumberThen(s, ',');
    if r.None? then None else MatchColumn(r.value.0, SkipSpaces(r.value.1))
  }

  /** The rest after the row: `(\d+),\s*` then the value. */
  function MatchColumn(row: nat, s: string): Option<Entry> {
    var r := NumberThen(s, ',');
    if r.None? then None else MatchValue(row, r.value.0, SkipSpaces(r.value.1))
  }

  /** The rest after the column: `(-?\d+)\)`. */
  function MatchValue(row: nat, col: nat, s: string): Option<Entry> {
    var negative := |s| > 0 && s[0] == '-';
    var r := NumberThen(if negative then s[1..] else s, ')');
    if r.None? then None
    else
      var magnitude: int := r.value.0;
      Some(Entry(row, col, if negative then -magnitude else magnitude))
  }

  /**
   * A text the entry pattern matches (digits, comma, spaces, digits, comma,
   * spaces, optional '-', digits, closing parenthesis), followed by `rest`.
   */
  function EntryText(d1: string, w1: string, d2: string, w2: string, negative: bool, d3: string, rest: string): string {
    "(" + RowText(d1, w1, d2, w2, negative, d3, rest)
  }

  /** The entry text after `(`. */
  function RowText(d1: string, w1: string, d2: string, w2: string, negative: bool, d3: string, rest: string): string {
    d1 + ("," + (w1 + ColumnText(d2, w2, negative, d3, rest)))
  }

  /** The entry text after the row and its comma and spaces. */
  function ColumnText(d2: string, w2: string, negative: bool, d3: string, rest: string): string {
    d2 + ("," + (w2 + ValueText(negative, d3, rest)))
  }

  /** The entry text after the column and its comma and spaces. */
  function ValueText(negative: bool, d3: string, rest: string): string {
    (if negative then "-" else "") + (d3 + (")" + rest))
  }

  predicate EntryParts(d1: string, w1: string, d2: string, w2: string, d3: string) {
    && |d1| > 0 && AllDigits(d1) && AllSpaces(w1)
    && |d2| > 0 && AllDigits(d2) && AllSpaces(w2)
    && |d3| > 0 && AllDigits(d3)
  }

  /** The value written as an optional '-' and the digits `d3`. */
  function SignedValue(negative: bool, d3: string): int
    requires AllDigits(d3)
  {
    var magnitude: int := DigitsValue(d3);
    if negative then -magnitude else magnitude
  }

  function PartsEntry(d1: string, d2: string, negative: bool, d3: string): Entry
    requires AllDigits(d1) && AllDigits(d2) && AllDigits(d3)
  {
    Entry(DigitsValue(d1), DigitsValue(d2), SignedValue(negative, d3))
  }

  lemma NumberThenOf(d: string, sep: char, t: string)
    requires |d| > 0 && AllDigits(d) && !IsDigit(sep)
    ensures NumberThen(d + ([sep] + t), sep) == Some((DigitsValue(d), t))
  {
    var u := [sep] + t;
    assert u[0] == sep && u[1..] == t;
    SpanDigitsOf(d, u);
    AfterPrefix(d, u);
  }

  lemma AfterPrefix(d: string, u: string)
    requires |u| > 0
    ensures (d + u)[|d|] == u[0] && (d + u)[|d| + 1..] == u[1..]
  {
    assert (d + u)[|d|..] == u;
  }

  lemma NumberThenSound(s: string, sep: char) returns (d: string)
    requires NumberThen(s, sep).Some?
    ensures |d| > 0 && AllDigits(d)
    ensures s == d + ([sep] + NumberThen(s, sep).value.1)
    ensures NumberThen(s, sep).value.0 == DigitsValue(d)
  {
    var n := SpanDigits(s);
    d := s[..n];
    assert s == s[..n] + ([s[n]] + s[n + 1..]);
  }

  lemma SkipSpacesOf(w: string, t: string)
    requires AllSpaces(w) && (t == [] || !IsSpace(t[0]))
    ensures SkipSpaces(w + t) == t
  {
    SpanSpacesOf(w, t);
    assert (w + t)[|w|..] == t;
  }

  lemma SkipSpacesSound(s: string) returns (w: string)
    ensures AllSpaces(w) && s == w + SkipSpaces(s)
  {
    var n := SpanSpaces(s);
    w := s[..n];
    assert s == s[..n] + s[n..];
  }

  lemma MatchValueComplete(row: nat, col: nat, negative: bool, d3: string, rest: string)
    requires |d3| > 0 && AllDigits(d3)
    ensures MatchValue(row, col, ValueText(negative, d3, rest)) == Some(Entry(row, col, SignedValue(negative, d3)))
  {
    var s := ValueText(negative, d3, rest);
    DigitIsNotSpace(d3[0]);
    assert (if negative then s[1..] else s) == d3 + (")" + rest);
    NumberThenOf(d3, ')', rest);
  }

  lemma ValueTextStart(negative: bool, d3: string, rest: string)
    requires |d3| > 0 && AllDigits(d3)
    ensures var t := ValueText(negative, d3, rest); |t| > 0 && (IsDigit(t[0]) || t[0] == '-')
  {
    assert ValueText(negative, d3, rest)[0] == if negative then '-' else d3[0];
  }

  lemma MatchColumnComplete(row: nat, d2: string, w2: string, negative: bool, d3: string, rest: string)
    requires |d2| > 0 && AllDigits(d2) && AllSpaces(w2) && |d3| > 0 && AllDigits(d3)
    ensures MatchColumn(row, ColumnText(d2, w2, negative, d3, rest)) == Some(Entry(row, DigitsValue(d2), SignedValue(negative, d3)))
  {
    ValueTextStart(negative, d3, rest);
    MatchColumnStep(row, ColumnText(d2, w2, negative, d3, rest), d2, w2, ValueText(negative, d3, rest));
    MatchValueComplete(row, DigitsValue(d2), negative, d3, rest);
  }

  lemma MatchRowComplete(d1: string, w1: string, d2: string, w2: string, negative: bool, d3: string, rest: string)
    requires EntryParts(d1, w1, d2, w2, d3)
    ensures MatchRow(RowText(d1, w1, d2, w2, negative, d3, rest)) == Some(PartsEntry(d1, d2, negative, d3))
  {
    var t := ColumnText(d2, w2, negative, d3, rest);
    assert t[0] == d2[0];
    DigitIsNotSpace(d2[0]);
    MatchRowStep(RowText(d1, w1, d2, w2, negative, d3, rest), d1, w1, t);
    MatchColumnComplete(DigitsValue(d1), d2, w2, negative, d3, rest);
  }

  /** After `(`, a digit run, a comma and spaces, matching goes on with the column at `t`. */
  lemma MatchRowStep(s: string, d1: string, w1: string, t: string)
    requires |d1| > 0 && AllDigits(d1) && AllSpaces(w1)
    requires |t| > 0 && !IsSpace(t[0])
    requires s == d1 + ("," + (w1 + t))
    ensures MatchRow(s) == MatchColumn(DigitsValue(d1), t)
  {
    NumberThenOf(d1, ',', w1 + t);
    SkipSpacesOf(w1, t);
  }

  /** After the column's digit run, a comma and spaces, matching goes on with the value at `t`. */
  lemma MatchColumnStep(row: nat, s: string, d2: string, w2: string, t: string)
    requires |d2| > 0 && AllDigits(d2) && AllSpaces(w2)
    requires |t| > 0 && (IsDigit(t[0]) || t[0] == '-')
    requires s == d2 + ("," + (w2 + t))
    ensures MatchColumn(row, s) == MatchValue(row, DigitsValue(d2), t)
  {
    NumberThenOf(d2, ',', w2 + t);
    SkipSpacesOf(w2, t);
  }

  /** A line made of '(' and then `s` matches exactly as `s` matches the rest of the pattern. */
  lemma OpenParenOf(s: string)
    ensures MatchEntry("(" + s) == MatchRow(s)
  {
    assert ("(" + s)[1..] == s;
  }

  /** Every line that starts with a text of the entry pattern matches, with its numbers captured. */
  lemma MatchEntryComplete(d1: string, w1: string, d2: string, w2: string, negative: bool, d3: string, rest: string)
    requires EntryParts(d1, w1, d2, w2, d3)
    ensures MatchEntry(EntryText(d1, w1, d2, w2, negative, d3, rest)) == Some(PartsEntry(d1, d2, negative, d3))
  {
    OpenParenOf(RowText(d1, w1, d2, w2, negative, d3, rest));
    MatchRowComplete(d1, w1, d2, w2, negative, d3, rest);
  }

  lemma MatchValueSound(row: nat, col: nat, s: string) returns (negative: bool, d3: string, rest: string)
    requires MatchValue(row, col, s).Some?
    ensures |d3| > 0 && AllDigits(d3)
    ensures s == ValueText(negative, d3, rest)
    ensures MatchValue(row, col, s) == Some(Entry(row, col, SignedValue(negative, d3)))
  {
    negative := |s| > 0 && s[0] == '-';
    var t := if negative then s[1..] else s;
    rest := NumberThen(t, ')').value.1;
    d3 := NumberThenSound(t, ')');
    SignThen(s, negative, t);
  }

  /** Dropping a leading '-' when there is one, and putting it back, gives the text again. */
  lemma SignThen(s: string, negative: bool, t: string)
    requires negative == (|s| > 0 && s[0] == '-')
    requires t == if negative then s[1..] else s
    ensures s == (if negative then "-" else "") + t
  {
    if negative {
      assert s == [s[0]] + s[1..];
    }
  }

  lemma MatchColumnSound(row: nat, s: string) returns (d2: string, w2: string, negative: bool, d3: string, rest: string)
    requires MatchColumn(row, s).Some?
    ensures |d2| > 0 && AllDigits(d2) && AllSpaces(w2) && |d3| > 0 && AllDigits(d3)
    ensures s == ColumnText(d2, w2, negative, d3, rest)
    ensures MatchColumn(row, s) == Some(Entry(row, DigitsValue(d2), SignedValue(negative, d3)))
  {
    var after := NumberThen(s, ',').value.1;
    d2 := NumberThenSound(s, ',');
    w2 := SkipSpacesSound(after);
    negative, d3, rest := MatchValueSound(row, DigitsValue(d2), SkipSpaces(after));
  }

  lemma MatchRowSound(s: string) returns (d1: string, w1: string, d2: string, w2: string, negative: bool, d3: string, rest: string)
    requires MatchRow(s).Some?
    ensures EntryParts(d1, w1, d2, w2, d3)
    ensures s == RowText(d1, w1, d2, w2, negative, d3, rest)
    ensures MatchRow(s) == Some(PartsEntry(d1, d2, negative, d3))
  {
    var after := NumberThen(s, ',').value.1;
    d1 := NumberThenSound(s, ',');
    w1 := SkipSpacesSound(after);
    d2, w2, negative, d3, rest := MatchColumnSound(DigitsValue(d1), SkipSpaces(after));
  }

  lemma OpenParenThen(line: string)
    requires |line| > 0 && line[0] == '('
    ensures line == "(" + line[1..]
  {
  }

  /** Every line that matches starts with a text of the entry pattern, and the captured numbers are its numbers. */
  lemma MatchEntrySound(line: string) returns (d1: string, w1: string, d2: string, w2: string, negative: bool, d3: string, rest: string)
    requires MatchEntry(line).Some?
    ensures EntryParts(d1, w1, d2, w2, d3)
    ensures line == EntryText(d1, w1, d2, w2, negative, d3, rest)
    ensures MatchEntry(line) == Some(PartsEntry(d1, d2, negative, d3))
  {
    var s := line[1..];
    assert MatchEntry(line) == MatchRow(s);
    OpenParenThen(line);
    d1, w1, d2, w2, negative, d3, rest := MatchRowSound(s);
  }

  // --------------------------------------------------------- reading entries

  /** What the entry pattern captures on each line: an entry, or None where the line does not match. */
  function Matches(lines: seq<string>): seq<Option<Entry>> {
    seq(|lines|, i requires 0 <= i < |lines| => MatchEntry(lines[i]))
  }

  /** Stores a captured entry, overwriting the key's value; no entry changes nothing. */
  function ApplyEntry(m: map<Coord, int>, e: Option<Entry>): map<Coord, int> {
    match e
    case Some(x) => m[CoordOf(x) := x.value]
    case None => m
  }

  /** The map after storing each captured entry in turn. */
  function ApplyEntries(m: map<Coord, int>, entries: seq<Option<Entry>>): (r: map<Coord, int>)
    ensures m.Keys <= r.Keys
  {
    if entries == [] then m
    else ApplyEntry(ApplyEntries(m, entries[..|entries| - 1]), entries[|entries| - 1])
  }

  /** The map after reading each line in turn: a matching line stores its entry, any other line is skipped. */
  function ApplyEntryLines(m: map<Coord, int>, lines: seq<string>): (r: map<Coord, int>)
    ensures m.Keys <= r.Keys
  {
    ApplyEntries(m, Matches(lines))
  }

  /** Reading one more line stores its entry, if it has one, over what the lines before it gave. */
  lemma ApplyNextLine(m: map<Coord, int>, lines: seq<string>, line: string)
    ensures ApplyEntryLines(m, lines + [line]) == ApplyEntry(ApplyEntryLines(m, lines), MatchEntry(line))
  {
    var s := Matches(lines + [line]);
    assert s[..|lines|] == Matches(lines);
  }

  /** Whether the captured entry `e` is one for coordinate c. */
  predicate NamesCoord(e: Option<Entry>, c: Coord) {
    e.Some? && CoordOf(e.value) == c
  }

  lemma {:induction false} LastEntryWins(m: map<Coord, int>, entries: seq<Option<Entry>>, i: nat)
    requires i < |entries| && entries[i].Some?
    requires forall j :: i < j < |entries| ==> !NamesCoord(entries[j], CoordOf(entries[i].value))
    ensures CoordOf(entries[i].value) in ApplyEntries(m, entries)
    ensures ApplyEntries(m, entries)[CoordOf(entries[i].value)] == entries[i].value.value
    decreases |entries|
  {
    var n := |entries| - 1;
    if i < n {
      var init := entries[..n];
      assert forall j :: i <= j < n ==> init[j] == entries[j];
      LastEntryWins(m, init, i);
      assert !NamesCoord(entries[n], CoordOf(entries[i].value));
    }
  }

  lemma {:induction false} UnmatchedEntryKept(m: map<Coord, int>, entries: seq<Option<Entry>>, c: Coord)
    requires forall j :: 0 <= j < |entries| ==> !NamesCoord(entries[j], c)
    ensures c in ApplyEntries(m, entries) <==> c in m
    ensures c in m ==> ApplyEntries(m, entries)[c] == m[c]
    decreases |entries|
  {
    if entries != [] {
      var n := |entries| - 1;
      var init := entries[..n];
      assert forall j :: 0 <= j < n ==> init[j] == entries[j];
      UnmatchedEntryKept(m, init, c);
      assert !NamesCoord(entries[n], c);
    }
  }

  /** The last line that matches a coordinate decides its value. */
  lemma LastLineWins(m: map<Coord, int>, lines: seq<string>, i: nat)
    requires i < |lines| && MatchEntry(lines[i]).Some?
    requires forall j :: i < j < |lines| ==> !NamesCoord(MatchEntry(lines[j]), CoordOf(MatchEntry(lines[i]).value))
    ensures CoordOf(MatchEntry(lines[i]).value) in ApplyEntryLines(m, lines)
    ensures ApplyEntryLines(m, lines)[CoordOf(MatchEntry(lines[i]).value)] == MatchEntry(lines[i]).value.value
  {
    LastEntryWins(m, Matches(lines), i);
  }

  /** A coordinate no line matches keeps what it had before reading. */
  lemma UnmatchedCoordKept(m: map<Coord, int>, lines: seq<string>, c: Coord)
    requires forall j :: 0 <= j < |lines| ==> !NamesCoord(MatchEntry(lines[j]), c)
    ensures c in ApplyEntryLines(m, lines) <==> c in m
    ensures c in m ==> ApplyEntryLines(m, lines)[c] == m[c]
  {
    UnmatchedEntryKept(m, Matches(lines), c);
  }

  // ---------------------------------------------------------- writing entries

  /** Row-major order on coordinates: by row, then by column. */
  predicate Precedes(a: Coord, b: Coord) {
    a.0 < b.0 || (a.0 == b.0 && a.1 < b.1)
  }

  predicate StrictlyAscending(keys: seq<Coord>) {
    forall i, j :: 0 <= i < j < |keys| ==> Precedes(keys[i], keys[j])
  }

  predicate IsLeast(m: Coord, s: set<Coord>) {
    m in s && forall x :: x in s && x != m ==> Precedes(m, x)
  }

  lemma {:induction false} LeastExists(s: set<Coord>)
    requires s != {}
    ensures exists m :: IsLeast(m, s)
    decreases s
  {
    var y :| y in s;
    if s == {y} {
      assert IsLeast(y, s);
    } else {
      LeastExists(s - {y});
      var m :| IsLeast(m, s - {y});
      if Precedes(y, m) {
        forall x | x in s && x != y
          ensures Precedes(y, x)
        {
          if x != m {
            assert x in s - {y};
          }
        }
        assert IsLeast(y, s);
      } else {
        assert IsLeast(m, s);
      }
    }
  }

  lemma LeastIsUnique(a: Coord, b: Coord, s: set<Coord>)
    requires IsLeast(a, s) && IsLeast(b, s)
    ensures a == b
  {
  }

  ghost function Least(s: set<Coord>): (m: Coord)
    requires s != {}
    ensures IsLeast(m, s)
  {
    LeastExists(s);
    var m :| IsLeast(m, s); m
  }

  /** Finds the first key of a non-empty set in row-major order, by one pass over the set. */
  method LeastKey(s: set<Coord>) returns (m: Coord)
    requires s != {}
    ensures IsLeast(m, s)
  {
    m :| m in s;
    var remaining := s - {m};
    while remaining != {}
      invariant remaining <= s && m in s && m !in remaining
      invariant forall x :: x in s && x !in remaining && x != m ==> Precedes(m, x)
      decreases remaining
    {
      var x :| x in remaining;
      if Precedes(x, m) {
        m := x;
      }
      remaining := remaining - {x};
    }
  }

  /** The keys of `s`, each once, in row-major order: what sorting the items yields. */
  ghost function SortedKeys(s: set<Coord>): (keys: seq<Coord>)
    ensures |keys| == |s|
    ensures forall c :: c in s <==> c in keys
    ensures StrictlyAscending(keys)
    decreases s
  {
    if s == {} then []
    else
      var m := Least(s);
      [m] + SortedKeys(s - {m})
  }

  /** Sorting starts with the least key and goes on with the sorted rest. */
  lemma SortedKeysStep(s: set<Coord>, key: Coord)
    requires IsLeast(key, s)
    ensures SortedKeys(s) == [key] + SortedKeys(s - {key})
  {
    LeastIsUnique(key, Least(s), s);
  }

  /** The text written for one entry. */
  function EntryLine(c: Coord, v: int): string {
    "(" + (IntToString(c.0) + (", " + (IntToString(c.1) + (", " + (IntToString(v) + ")\n")))))
  }

  /** The entry lines for `keys`, in the order of `keys`. */
  function EntryLines(m: map<Coord, int>, keys: seq<Coord>): seq<string>
    requires forall c :: c in keys ==> c in m
  {
    seq(|keys|, i requires 0 <= i < |keys| => EntryLine(keys[i], m[keys[i]]))
  }

  lemma EntryLinesSnoc(m: map<Coord, int>, keys: seq<Coord>, key: Coord)
    requires forall c :: c in keys ==> c in m
    requires key in m
    ensures EntryLines(m, keys + [key]) == EntryLines(m, keys) + [EntryLine(key, m[key])]
  {
  }

  function Header(numRows: int, numCols: int): seq<string> {
    ["rows=" + (IntToString(numRows) + "\n"), "cols=" + (IntToString(numCols) + "\n")]
  }

  /** Everything written for a matrix, one string per line, each ending in its newline. */
  ghost function SavedLines(numRows: int, numCols: int, m: map<Coord, int>): seq<string> {
    Header(numRows, numCols) + EntryLines(m, SortedKeys(m.Keys))
  }

  /** The written text: two header lines, then one line per stored key in strictly ascending (row, col) order. */
  lemma SavedLinesShape(numRows: int, numCols: int, m: map<Coord, int>) returns (keys: seq<Coord>)
    ensures StrictlyAscending(keys)
    ensures forall c :: c in m <==> c in keys
    ensures var lines := SavedLines(numRows, numCols, m);
      && |lines| == 2 + |keys|
      && lines[0] == "rows=" + (IntToString(numRows) + "\n")
      && lines[1] == "cols=" + (IntToString(numCols) + "\n")
      && forall i :: 0 <= i < |keys| ==> lines[2 + i] == EntryLine(keys[i], m[keys[i]])
  {
    keys := SortedKeys(m.Keys);
    var body := EntryLines(m, keys);
    HeaderThen(numRows, numCols, body);
    forall i | 0 <= i < |keys|
      ensures body[i] == EntryLine(keys[i], m[keys[i]])
    {
      EntryLinesAt(m, keys, i);
    }
  }

  lemma EntryLinesAt(m: map<Coord, int>, keys: seq<Coord>, i: nat)
    requires forall c :: c in keys ==> c in m
    requires i < |keys|
    ensures |EntryLines(m, keys)| == |keys|
    ensures EntryLines(m, keys)[i] == EntryLine(keys[i], m[keys[i]])
  {
  }

  /** The header lines come first, whatever lines follow them. */
  lemma HeaderThen(numRows: int, numCols: int, body: seq<string>)
    ensures var lines := Header(numRows, numCols) + body;
      && |lines| == 2 + |body|
      && lines[0] == "rows=" + (IntToString(numRows) + "\n")
      && lines[1] == "cols=" + (IntToString(numCols) + "\n")
      && forall i :: 0 <= i < |body| ==> lines[2 + i] == body[i]
  {
  }

  // -------------------------------------------------------------- round trip

  lemma CommaSpace(x: string)
    ensures ", " + x == "," + (" " + x)
  {
  }

  /** The written entry line is a text of the entry pattern, with one space after each comma. */
  lemma EntryLineIsEntryText(c: Coord, v: int)
    requires c.0 >= 0 && c.1 >= 0
    ensures var negative := v < 0;
      EntryLine(c, v) == EntryText(NatToString(c.0), " ", NatToString(c.1), " ", negative, NatToString(if negative then -v else v), "\n")
  {
    var negative := v < 0;
    var d3 := NatToString(if negative then -v else v);
    var tail := (if negative then "-" else "") + (d3 + (")" + "\n"));
    assert IntToString(v) + ")\n" == tail;
    CommaSpace(tail);
    CommaSpace(NatToString(c.1) + (", " + tail));
  }

  /** An entry with non-negative coordinates reads back as written. */
  lemma EntryLineRoundTrip(c: Coord, v: int)
    requires c.0 >= 0 && c.1 >= 0
    ensures MatchEntry(EntryLine(c, v)) == Some(Entry(c.0, c.1, v))
  {
    var negative := v < 0;
    var d3 := NatToString(if negative then -v else v);
    EntryLineIsEntryText(c, v);
    MatchEntryComplete(NatToString(c.0), " ", NatToString(c.1), " ", negative, d3, "\n");
    NatToStringRoundTrip(c.0);
    NatToStringRoundTrip(c.1);
    NatToStringRoundTrip(if negative then -v else v);
  }

  /** Entries that each carry the key at the same position, with its value, store exactly those keys. */
  lemma {:induction false} ApplyMatchingEntries(m: map<Coord, int>, keys: seq<Coord>, entries: seq<Option<Entry>>)
    requires |entries| == |keys|
    requires forall i :: 0 <= i < |keys| ==> keys[i] in m && Carries(entries[i], keys[i], m[keys[i]])
    ensures forall c :: c in ApplyEntries(map[], entries) <==> c in keys
    ensures forall c :: c in ApplyEntries(map[], entries) ==> c in m && ApplyEntries(map[], entries)[c] == m[c]
    decreases |keys|
  {
    if keys != [] {
      var n := |keys| - 1;
      var init := keys[..n];
      assert forall i :: 0 <= i < n ==> init[i] == keys[i] && entries[..n][i] == entries[i];
      ApplyMatchingEntries(m, init, entries[..n]);
      UpdateAgrees(m, ApplyEntries(map[], entries[..n]), keys);
    }
  }

  predicate Carries(e: Option<Entry>, c: Coord, v: int) {
    e.Some? && CoordOf(e.value) == c && e.value.value == v
  }

  lemma UpdateAgrees(m: map<Coord, int>, before: map<Coord, int>, keys: seq<Coord>)
    requires keys != [] && keys[|keys| - 1] in m
    requires forall c :: c in before <==> c in keys[..|keys| - 1]
    requires forall c :: c in before ==> c in m && before[c] == m[c]
    ensures var last := keys[|keys| - 1];
      && (forall c :: c in before[last := m[last]] <==> c in keys)
      && (forall c :: c in before[last := m[last]] ==> c in m && before[last := m[last]][c] == m[c])
  {
    assert keys == keys[..|keys| - 1] + [keys[|keys| - 1]];
  }

  /** The entry lines written for keys with non-negative coordinates read back as the entries of those keys. */
  lemma EntryLinesRoundTrip(m: map<Coord, int>, keys: seq<Coord>)
    requires forall c :: c in keys ==> c in m && c.0 >= 0 && c.1 >= 0
    ensures forall c :: c in ApplyEntryLines(map[], EntryLines(m, keys)) <==> c in keys
    ensures forall c :: c in ApplyEntryLines(map[], EntryLines(m, keys)) ==> c in m && ApplyEntryLines(map[], EntryLines(m, keys))[c] == m[c]
  {
    var entries := Matches(EntryLines(m, keys));
    forall i | 0 <= i < |keys|
      ensures keys[i] in m && Carries(entries[i], keys[i], m[keys[i]])
    {
      EntryLineRoundTrip(keys[i], m[keys[i]]);
    }
    ApplyMatchingEntries(m, keys, entries);
  }

  /** The header lines written for a non-negative shape read back as that shape. */
  lemma HeaderRoundTrip(numRows: int, numCols: int)
    requires numRows >= 0 && numCols >= 0
    ensures FirstDigitRun(Header(numRows, numCols)[0]) == Some(numRows)
    ensures FirstDigitRun(Header(numRows, numCols)[1]) == Some(numCols)
  {
    var rows, cols := NatToString(numRows), NatToString(numCols);
    FirstDigitRunOf("rows=", rows, "\n");
    FirstDigitRunOf("cols=", cols, "\n");
    NatToStringRoundTrip(numRows);
    NatToStringRoundTrip(numCols);
  }

  /**
   * A header line holds its count after a digit-free prefix; a negative count
   * is written with a '-' that the digit scan skips, so it reads back as its
   * magnitude.
   */
  lemma CountLineRead(prefix: string, n: int)
    requires NoDigits(prefix) && NoDigits(prefix + "-")
    ensures FirstDigitRun(prefix + (IntToString(n) + "\n")) == Some(if n < 0 then -n else n)
  {
    if n < 0 {
      var d := NatToString(-n);
      var line := prefix + (IntToString(n) + "\n");
      assert line == (prefix + "-") + (d + "\n") by {
        assert IntToString(n) == "-" + d;
        MinusRegroup(prefix, d, "\n");
      }
      FirstDigitRunOf(prefix + "-", d, "\n");
      NatToStringRoundTrip(-n);
      assert FirstDigitRun(line) == Some(-n);
    } else {
      FirstDigitRunOf(prefix, NatToString(n), "\n");
      NatToStringRoundTrip(n);
    }
  }

  lemma MinusRegroup(p: string, d: string, t: string)
    ensures p + (("-" + d) + t) == (p + "-") + (d + t)
  {
  }

  /** The header lines written for any shape read back as the magnitudes of its counts. */
  lemma HeaderReadsMagnitude(numRows: int, numCols: int)
    ensures FirstDigitRun(Header(numRows, numCols)[0]) == Some(if numRows < 0 then -numRows else numRows)
    ensures FirstDigitRun(Header(numRows, numCols)[1]) == Some(if numCols < 0 then -numCols else numCols)
  {
    LabelsHaveNoDigits();
    var h := Header(numRows, numCols);
    assert h[0] == "rows=" + (IntToString(numRows) + "\n");
    CountLineRead("rows=", numRows);
    assert h[1] == "cols=" + (IntToString(numCols) + "\n");
    CountLineRead("cols=", numCols);
  }

  lemma LabelsHaveNoDigits()
    ensures NoDigits("rows=") && NoDigits("rows=" + "-")
    ensures NoDigits("cols=") && NoDigits("cols=" + "-")
  {
  }

  lemma DropHeader(header: seq<string>, body: seq<string>)
    requires |header| == 2
    ensures (header + body)[2..] == body
  {
  }

  /** The entry lines written for a map whose keys have non-negative coordinates read back as that map. */
  lemma EntriesRoundTrip(m: map<Coord, int>)
    requires forall c :: c in m ==> c.0 >= 0 && c.1 >= 0
    ensures ApplyEntryLines(map[], EntryLines(m, SortedKeys(m.Keys))) == m
  {
    var keys := SortedKeys(m.Keys);
    EntryLinesRoundTrip(m, keys);
    SameEntries(ApplyEntryLines(map[], EntryLines(m, keys)), m, keys);
  }

  lemma SameEntries(r: map<Coord, int>, m: map<Coord, int>, keys: seq<Coord>)
    requires forall c :: c in r <==> c in keys
    requires forall c :: c in m <==> c in keys
    requires forall c :: c in r ==> c in m && r[c] == m[c]
    ensures r == m
  {
    assert r.Keys == m.Keys;
  }

  /** Reading back what was written for a matrix with non-negative shape and coordinates gives that matrix. */
  lemma SaveLoadRoundTrip(numRows: int, numCols: int, m: map<Coord, int>)
    requires numRows >= 0 && numCols >= 0
    requires forall c :: c in m ==> c.0 >= 0 && c.1 >= 0
    ensures var lines := SavedLines(numRows, numCols, m);
      && |lines| >= 2
      && FirstDigitRun(lines[0]) == Some(numRows)
      && FirstDigitRun(lines[1]) == Some(numCols)
      && ApplyEntryLines(map[], lines[2..]) == m
  {
    HeaderRoundTrip(numRows, numCols);
    DropHeader(Header(numRows, numCols), EntryLines(m, SortedKeys(m.Keys)));
    EntriesRoundTrip(m);
  }

  /** The line "(0, 1, 5)\n" is the entry 5 at (0, 1); "garbage\n" is no entry. */
  lemma ExampleLines()
    ensures MatchEntry("(0, 1, 5)\n") == Some(Entry(0, 1, 5))
    ensures MatchEntry("garbage\n") == None
  {
    assert EntryLine((0, 1), 5) == "(0, 1, 5)\n";
    EntryLineRoundTrip((0, 1), 5);
  }

  /** Text starting with '-' holds no leading number. */
  lemma MinusNoNumber(s: string, sep: char)
    requires |s| > 0 && s[0] == '-'
    ensures NumberThen(s, sep).None?
  {
    assert SpanDigits(s) == 0;
  }

  lemma MinusNoColumn(row: nat, y: string)
    requires |y| > 0 && y[0] == '-'
    ensures MatchColumn(row, y).None?
  {
    MinusNoNumber(y, ',');
  }

  /** A line written for a negative row or column does not match the entry pattern, so reading skips it. */
  lemma NegativeCoordNotRead(c: Coord, v: int)
    requires c.0 < 0 || c.1 < 0
    ensures MatchEntry(EntryLine(c, v)).None?
  {
    var row := IntToString(c.0);
    var y := IntToString(c.1) + (", " + (IntToString(v) + ")\n"));
    assert EntryLine(c, v) == "(" + (row + (", " + y));
    if c.0 < 0 {
      NegativeRowText(row + (", " + y));
    } else {
      CommaSpace(y);
      NegativeColumnText(row, y);
    }
  }

  lemma NegativeRowText(x: string)
    requires |x| > 0 && x[0] == '-'
    ensures MatchEntry("(" + x).None?
  {
    OpenParenOf(x);
    MinusNoNumber(x, ',');
  }

  lemma NegativeColumnText(d1: string, y: string)
    requires |d1| > 0 && AllDigits(d1)
    requires |y| > 0 && y[0] == '-'
    ensures MatchEntry("(" + (d1 + ("," + (" " + y)))).None?
  {
    var s := d1 + ("," + (" " + y));
    OpenParenOf(s);
    RowThenMinus(s, d1, y);
  }

  lemma RowThenMinus(s: string, d1: string, y: string)
    requires |d1| > 0 && AllDigits(d1)
    requires |y| > 0 && y[0] == '-'
    requires s == d1 + ("," + (" " + y))
    ensures MatchRow(s).None?
  {
    MatchRowStep(s, d1, " ", y);
    MinusNoColumn(DigitsValue(d1), y);
  }

  /** An entry line followed by a line of other text reads as the one entry. */
  lemma GarbageLineSkipped()
    ensures ApplyEntryLines(map[], ["(0, 1, 5)\n", "garbage\n"]) == map[(0, 1) := 5]
  {
    ExampleLines();
    ReadTwoLines("(0, 1, 5)\n", "garbage\n");
  }

  lemma ReadTwoLines(first: string, second: string)
    ensures ApplyEntryLines(map[], [first, second]) == ApplyEntry(ApplyEntry(map[], MatchEntry(first)), MatchEntry(second))
  {
    ApplyNextLine(map[], [], first);
    assert [] + [first] == [first];
    ApplyNextLine(map[], [first], second);
    assert [first] + [second] == [first, second];
  }
}
