/**
 * A console tic-tac-toe game: the validation of a typed "row,column" move,
 * its conversion to board indices, and the board's state machine (marking a
 * cell, then looking for a winning line).
 */
module TicTacToe {
  import opened Wrappers

  /** Rust's `u8`. */
  type Byte = b: int | 0 <= b < 256

  // ---------------------------------------------------------------------
  // Text primitives: `str::trim`, `str::split(",")`, `u8::from_str`
  // ---------------------------------------------------------------------

  /** The Unicode White_Space property, which is what `str::trim` strips. */
  predicate IsWhitespace(c: char) {
    var n := c as int;
    || 0x09 <= n <= 0x0D || n == 0x20 || n == 0x85 || n == 0xA0 || n == 0x1680
    || 0x2000 <= n <= 0x200A || n == 0x2028 || n == 0x2029 || n == 0x202F
    || n == 0x205F || n == 0x3000
  }

  predicate AllWhitespace(s: string) {
    forall i :: 0 <= i < |s| ==> IsWhitespace(s[i])
  }

  /** The first position at or after `i` that does not hold whitespace, or `|s|`. */
  function SkipLeading(s: string, i: nat): (r: nat)
    requires i <= |s|
    ensures i <= r <= |s|
    ensures forall k :: i <= k < r ==> IsWhitespace(s[k])
    ensures r < |s| ==> !IsWhitespace(s[r])
    decreases |s| - i
  {
    if i < |s| && IsWhitespace(s[i]) then SkipLeading(s, i + 1) else i
  }

  /** The position just past the last character before `j` (and at or after `lo`) that is not whitespace, or `lo`. */
  function SkipTrailing(s: string, lo: nat, j: nat): (r: nat)
    requires lo <= j <= |s|
    ensures lo <= r <= j
    ensures forall k :: r <= k < j ==> IsWhitespace(s[k])
    ensures r > lo ==> !IsWhitespace(s[r - 1])
  {
    if j > lo && IsWhitespace(s[j - 1]) then SkipTrailing(s, lo, j - 1) else j
  }

  /**
   * `str::trim`: `s` less its leading whitespace, then less its trailing
   * whitespace. What remains neither starts nor ends with whitespace, and
   * it is empty only when `s` is all whitespace.
   */
  function Trim(s: string): (r: string)
    ensures |r| <= |s|
    ensures r == [] || (!IsWhitespace(r[0]) && !IsWhitespace(r[|r| - 1]))
    ensures r == [] <==> AllWhitespace(s)
  {
    var a := SkipLeading(s, 0);
    var b := SkipTrailing(s, a, |s|);
    s[a..b]
  }

  /** Padding a text that neither starts nor ends with whitespace is undone by `Trim`. */
  lemma TrimPadded(pre: string, s: string, post: string)
    requires AllWhitespace(pre) && AllWhitespace(post)
    requires s != [] && !IsWhitespace(s[0]) && !IsWhitespace(s[|s| - 1])
    ensures Trim(pre + s + post) == s
  {
    var x := pre + s + post;
    var a := SkipLeading(x, 0);
    assert x[|pre|] == s[0];
    assert forall k :: 0 <= k < |pre| ==> x[k] == pre[k];
    assert a == |pre|;
    var b := SkipTrailing(x, a, |x|);
    var e := |pre| + |s|;
    assert x[e - 1] == s[|s| - 1];
    assert forall k :: e <= k < |x| ==> x[k] == post[k - e];
    assert b == e;
    assert x[a..b] == s;
  }

  function Occurrences(s: string, c: char): nat {
    if s == [] then 0 else (if s[0] == c then 1 else 0) + Occurrences(s[1..], c)
  }

  /** The fields of `s` between occurrences of `sep`, as `str::split` yields them. */
  function Split(s: string, sep: char): (r: seq<string>)
    ensures |r| >= 1
  {
    if s == [] then [[]]
    else
      var rest := Split(s[1..], sep);
      if s[0] == sep then [[]] + rest
      else [[s[0]] + rest[0]] + rest[1..]
  }

  /** The fields of `parts` separated by `sep`: the inverse of `Split`. */
  function Join(parts: seq<string>, sep: char): string
    requires |parts| >= 1
  {
    if |parts| == 1 then parts[0] else parts[0] + [sep] + Join(parts[1..], sep)
  }

  /** There is one more field than there are separators, and no field holds a separator. */
  lemma {:induction false} SplitCount(s: string, sep: char)
    ensures |Split(s, sep)| == Occurrences(s, sep) + 1
    ensures forall i :: 0 <= i < |Split(s, sep)| ==> sep !in Split(s, sep)[i]
  {
    if s != [] {
      SplitCount(s[1..], sep);
    }
  }

  lemma {:induction false} JoinSplit(s: string, sep: char)
    ensures Join(Split(s, sep), sep) == s
  {
    if s != [] {
      var rest := Split(s[1..], sep);
      JoinSplit(s[1..], sep);
      assert Join(rest, sep) == s[1..];
      assert s == [s[0]] + s[1..];
      if s[0] == sep {
        var r := [[]] + rest;
        assert Split(s, sep) == r && r[1..] == rest;
        assert Join(r, sep) == [] + [sep] + Join(rest, sep);
      } else {
        var r := [[s[0]] + rest[0]] + rest[1..];
        assert Split(s, sep) == r;
        if |rest| == 1 {
          assert Join(r, sep) == [s[0]] + rest[0];
        } else {
          assert r[1..] == rest[1..];
          calc {
            Join(r, sep);
            r[0] + [sep] + Join(rest[1..], sep);
            [s[0]] + (rest[0] + [sep] + Join(rest[1..], sep));
            [s[0]] + Join(rest, sep);
          }
        }
      }
    }
  }

  lemma {:induction false} SplitJoin(parts: seq<string>, sep: char)
    requires |parts| >= 1
    requires forall i :: 0 <= i < |parts| ==> sep !in parts[i]
    ensures Split(Join(parts, sep), sep) == parts
  {
    if |parts| == 1 {
      SplitField(parts[0], sep);
    } else {
      SplitJoin(parts[1..], sep);
      SplitPrefix(parts[0], Join(parts[1..], sep), sep);
      assert [parts[0]] + parts[1..] == parts;
    }
  }

  lemma {:induction false} SplitField(s: string, sep: char)
    requires sep !in s
    ensures Split(s, sep) == [s]
  {
    if s != [] {
      SplitField(s[1..], sep);
      assert [s[0]] + s[1..] == s;
    }
  }

  /** A field with no separator, then a separator, splits off as the first field. */
  lemma {:induction false} SplitPrefix(w: string, rest: string, sep: char)
    requires sep !in w
    ensures Split(w + [sep] + rest, sep) == [w] + Split(rest, sep)
  {
    if w == [] {
      assert ([sep] + rest)[1..] == rest;
    } else {
      assert (w + [sep] + rest)[1..] == w[1..] + [sep] + rest;
      SplitPrefix(w[1..], rest, sep);
      assert [w[0]] + w[1..] == w;
    }
  }

  predicate IsDigit(c: char) {
    '0' <= c <= '9'
  }

  predicate AllDigits(s: string) {
    forall i :: 0 <= i < |s| ==> IsDigit(s[i])
  }

  /** The value of a string of decimal digits, most significant first. */
  function DecimalValue(s: string): nat
    requires AllDigits(s)
  {
    if s == [] then 0 else DecimalValue(s[..|s| - 1]) * 10 + (s[|s| - 1] as int - '0' as int)
  }

  /** `s` less its optional leading `+`. */
  function Digits(s: string): string
    requires s != []
  {
    if s[0] == '+' then s[1..] else s
  }

  /** `u8::from_str`: an optional `+`, then at least one decimal digit, the value at most 255. */
  function ParseByte(s: string): (r: Option<Byte>)
    ensures r.Some? ==> s != [] && Digits(s) != [] && AllDigits(Digits(s)) && DecimalValue(Digits(s)) == r.value
    ensures s != [] && AllDigits(s) && DecimalValue(s) <= 255 ==> r == Some(DecimalValue(s))
    ensures s != [] && s[0] == '+' && s[1..] != [] && AllDigits(s[1..]) ==> r == ParseByte(s[1..])
  {
    if s == [] then None
    else
      var digits := Digits(s);
      if digits == [] || !AllDigits(digits) then None
      else
        var n := DecimalValue(digits);
        if n <= 255 then Some(n) else None
  }

  /** The decimal rendering of `n`, without leading zeros. */
  function Decimal(n: nat): (r: string)
    ensures r != [] && AllDigits(r)
  {
    if n < 10 then [('0' as int + n) as char]
    else Decimal(n / 10) + [('0' as int + n % 10) as char]
  }

  lemma {:induction false} DecimalRoundTrip(n: nat)
    ensures DecimalValue(Decimal(n)) == n
  {
    var d := Decimal(n);
    if n >= 10 {
      DecimalRoundTrip(n / 10);
      assert d[..|d| - 1] == Decimal(n / 10);
    }
  }

  /** Every byte written in decimal parses back to itself. */
  lemma ParseDecimal(b: Byte)
    ensures ParseByte(Decimal(b)) == Some(b)
  {
    DecimalRoundTrip(b);
  }

  // ---------------------------------------------------------------------
  // Input validation and coordinate conversion
  // ---------------------------------------------------------------------

  datatype InputError =
    | FieldCount           // not exactly two comma-separated fields
    | NotAByte(field: string)  // a field that does not parse as a `u8`
    | OutOfRange           // a number outside the accepted digits

  /** One field: a `u8` that must lie in 1..=hi. */
  function CheckField(c: string, hi: Byte): (r: Result<Byte, InputError>)
    ensures r.Ok? ==> 1 <= r.value <= hi && ParseByte(c) == Some(r.value)
    ensures ParseByte(c).Some? && 1 <= ParseByte(c).value <= hi ==> r == Ok(ParseByte(c).value)
    ensures ParseByte(c).None? ==> r == Err(NotAByte(c))
    ensures r.Err? ==> r.error != FieldCount
  {
    match ParseByte(c)
    case None => Err(NotAByte(c))
    case Some(p) => if p > hi || p < 1 then Err(OutOfRange) else Ok(p)
  }

  /** Both fields in input order; the first failing field decides the error. */
  function ValidateFields(point: string, hi: Byte): (r: Result<seq<Byte>, InputError>)
    ensures r.Ok? ==> |r.value| == 2 && 1 <= r.value[0] <= hi && 1 <= r.value[1] <= hi
    ensures r.Ok? ==> var f := Split(Trim(point), ',');
      |f| == 2 && ParseByte(f[0]) == Some(r.value[0]) && ParseByte(f[1]) == Some(r.value[1])
  {
    var coord := Split(Trim(point), ',');
    if |coord| != 2 then Err(FieldCount)
    else
      match CheckField(coord[0], hi)
      case Err(e) => Err(e)
      case Ok(a) =>
        match CheckField(coord[1], hi)
        case Err(e) => Err(e)
        case Ok(b) => Ok([a, b])
  }

  /** `Board::validate_input` as written: each number must lie in 1..=9. */
  function ValidateInput(point: string): (r: Result<seq<Byte>, InputError>)
    ensures r.Ok? ==> |r.value| == 2 && 1 <= r.value[0] <= 9 && 1 <= r.value[1] <= 9
    ensures r.Ok? ==> var f := Split(Trim(point), ',');
      |f| == 2 && ParseByte(f[0]) == Some(r.value[0]) && ParseByte(f[1]) == Some(r.value[1])
  {
    ValidateFields(point, 9)
  }

  /** The range check the 3-by-3 board needs: each number must lie in 1..=3. */
  function ValidateCell(point: string): (r: Result<seq<Byte>, InputError>)
    ensures r.Ok? ==> |r.value| == 2 && 1 <= r.value[0] <= 3 && 1 <= r.value[1] <= 3
    ensures r.Ok? ==> OnBoard(ConvertCoord(r.value))
  {
    ValidateFields(point, 3)
  }

  /** Unless the trimmed input holds exactly one comma, it is rejected for its field count. */
  lemma FieldCountError(point: string)
    requires Occurrences(Trim(point), ',') != 1
    ensures ValidateInput(point) == Err(FieldCount)
  {
    SplitCount(Trim(point), ',');
  }

  /**
   * With two fields, a first field that is not a `u8` is reported, and
   * otherwise a second one; a `u8` out of range is rejected as such.
   */
  lemma RejectsBadField(point: string)
    requires |Split(Trim(point), ',')| == 2
    ensures var f := Split(Trim(point), ',');
      && (ParseByte(f[0]).None? ==> ValidateInput(point) == Err(NotAByte(f[0])))
      && (ParseByte(f[0]).Some? && 1 <= ParseByte(f[0]).value <= 9 && ParseByte(f[1]).None? ==>
            ValidateInput(point) == Err(NotAByte(f[1])))
      && (ParseByte(f[0]).Some? && !(1 <= ParseByte(f[0]).value <= 9) ==>
            ValidateInput(point) == Err(OutOfRange))
  {
  }

  /** Two numbers in 1..=9 typed as "a,b", with any surrounding whitespace, are accepted as [a, b]. */
  lemma AcceptsTypedMove(pre: string, a: Byte, b: Byte, post: string)
    requires AllWhitespace(pre) && AllWhitespace(post)
    requires 1 <= a <= 9 && 1 <= b <= 9
    ensures ValidateInput(pre + Decimal(a) + "," + Decimal(b) + post) == Ok([a, b])
  {
    var da, db := Decimal(a), Decimal(b);
    var core := da + "," + db;
    var point := pre + da + "," + db + post;
    assert point == pre + core + post;
    DigitsHaveNoPadding(da);
    DigitsHaveNoPadding(db);
    assert core[0] == da[0] && core[|core| - 1] == db[|db| - 1];
    TrimPadded(pre, core, post);
    assert Trim(point) == core;
    SplitTwoFields(da, db, ',');
    CheckDecimal(a, 9);
    CheckDecimal(b, 9);
    AcceptsFields(point, 9, da, db);
  }

  /** A number in range, written in decimal, passes `CheckField` as itself. */
  lemma CheckDecimal(n: Byte, hi: Byte)
    requires 1 <= n <= hi
    ensures CheckField(Decimal(n), hi) == Ok(n)
  {
    ParseDecimal(n);
  }

  /** Decimal digits are neither whitespace nor commas. */
  lemma DigitsHaveNoPadding(d: string)
    requires d != [] && AllDigits(d)
    ensures !IsWhitespace(d[0]) && !IsWhitespace(d[|d| - 1]) && ',' !in d
  {
    assert forall i :: 0 <= i < |d| ==> d[i] != ',';
  }

  /** Two fields without the separator, joined by it, split back into those two fields. */
  lemma SplitTwoFields(x: string, y: string, sep: char)
    requires sep !in x && sep !in y
    ensures Split(x + [sep] + y, sep) == [x, y]
  {
    SplitPrefix(x, y, sep);
    SplitField(y, sep);
  }

  /** Two fields that each pass `CheckField` are accepted in order. */
  lemma AcceptsFields(point: string, hi: Byte, x: string, y: string)
    requires Split(Trim(point), ',') == [x, y]
    requires CheckField(x, hi).Ok? && CheckField(y, hi).Ok?
    ensures ValidateFields(point, hi) == Ok([CheckField(x, hi).value, CheckField(y, hi).value])
  {
  }

  /** `Board::convert_coord`: one-based numbers to zero-based indices. */
  function ConvertCoord(v: seq<Byte>): (r: (nat, nat))
    requires |v| >= 2 && v[0] >= 1 && v[1] >= 1
    ensures r.0 + 1 == v[0] && r.1 + 1 == v[1]
  {
    (v[0] - 1, v[1] - 1)
  }

  predicate OnBoard(coord: (nat, nat)) {
    coord.0 < 3 && coord.1 < 3
  }

  /** `g` with `sign` written into the cell at `coord`. */
  function WithMark(g: Grid, coord: (nat, nat), sign: char): Grid
    requires OnBoard(coord)
  {
    g[coord.0 := g[coord.0][coord.1 := sign]]
  }

  /** Marking a cell writes the mark there and leaves the other eight cells as they were. */
  lemma WithMarkChangesOneCell(g: Grid, coord: (nat, nat), sign: char)
    requires OnBoard(coord)
    ensures CellAt(WithMark(g, coord, sign), coord) == sign
    ensures forall i, j :: 0 <= i < 3 && 0 <= j < 3 && (i, j) != coord ==> WithMark(g, coord, sign)[i][j] == g[i][j]
  {
  }

  /** The cell of `g` at `coord`. */
  function CellAt(g: Grid, coord: (nat, nat)): char
    requires OnBoard(coord)
  {
    g[coord.0][coord.1]
  }

  /** Validated input always meets `ConvertCoord`'s precondition, and yields indices below 9. */
  lemma ValidatedInputConverts(point: string)
    requires ValidateInput(point).Ok?
    ensures var v := ValidateInput(point).value;
      |v| >= 2 && v[0] >= 1 && v[1] >= 1 && ConvertCoord(v).0 < 9 && ConvertCoord(v).1 < 9
  {
  }

  /** As written, validation lets through moves that lie off the 3-by-3 board. */
  lemma ValidatedMoveOffBoard()
    ensures ValidateInput("4,4") == Ok([4, 4])
    ensures !OnBoard(ConvertCoord([4, 4]))
  {
    assert Decimal(4) == "4";
    assert "" + Decimal(4) + "," + Decimal(4) + "" == "4,4";
    AcceptsTypedMove("", 4, 4, "");
  }

  // ---------------------------------------------------------------------
  // The board
  // ---------------------------------------------------------------------

  /** A 3-by-3 grid, row by row. */
  type Grid = g: seq<seq<char>> | |g| == 3 && |g[0]| == 3 && |g[1]| == 3 && |g[2]| == 3
    witness [['-', '-', '-'], ['-', '-', '-'], ['-', '-', '-']]

  /** 1 for a line of 'O', 2 for a line of any other mark, nothing if the line is not full of one mark. */
  function LineWinner(vals: seq<char>): (r: Option<Byte>)
    ensures r.Some? ==> r.value == 1 || r.value == 2
  {
    if AllSame(vals) && vals[0] != '-' then Some(if vals[0] == 'O' then 1 else 2) else None
  }

  predicate AllSame(vals: seq<char>) {
    |vals| > 0 && forall i :: 0 <= i < |vals| ==> vals[i] == vals[0]
  }

  /** A sequence holds one distinct value exactly when it is non-empty and all its values are equal. */
  lemma {:induction false} OneDistinct(vals: seq<char>)
    ensures |(set c | c in vals)| == 1 <==> AllSame(vals)
  {
    var s := set c | c in vals;
    if AllSame(vals) {
      assert s == {vals[0]};
    }
    if |s| == 1 {
      var x :| x in s;
      assert |s - {x}| == 0;
      assert s - {x} == {};
      assert s == {x};
      assert vals[0] in s;
      forall i | 0 <= i < |vals| ensures vals[i] == vals[0] {
        assert vals[i] in s;
      }
    }
  }

  function Diagonal(g: Grid): seq<char> {
    [g[0][0], g[1][1], g[2][2]]
  }

  function AntiDiagonal(g: Grid): seq<char> {
    [g[0][2], g[1][1], g[2][0]]
  }

  /** The lines `iterate_board` hands to `find_winner`, in order: row 0 before each row, then both diagonals. */
  function CheckedLines(g: Grid): (r: seq<seq<char>>)
    ensures |r| == 8
  {
    [g[0], g[0], g[0], g[1], g[0], g[2], Diagonal(g), AntiDiagonal(g)]
  }

  /** The winner given by the first winning line. */
  function FirstWinner(lines: seq<seq<char>>): (r: Option<Byte>)
    ensures r.Some? ==> r.value == 1 || r.value == 2
    ensures lines != [] && LineWinner(lines[0]).Some? ==> r == LineWinner(lines[0])
  {
    if lines == [] then None
    else if LineWinner(lines[0]).Some? then LineWinner(lines[0])
    else FirstWinner(lines[1..])
  }

  lemma {:induction false} FirstWinnerAt(lines: seq<seq<char>>, k: nat)
    requires k < |lines| && LineWinner(lines[k]).Some?
    requires forall j :: 0 <= j < k ==> LineWinner(lines[j]).None?
    ensures FirstWinner(lines) == LineWinner(lines[k])
  {
    if k > 0 {
      FirstWinnerAt(lines[1..], k - 1);
    }
  }

  lemma {:induction false} FirstWinnerNone(lines: seq<seq<char>>)
    requires forall j :: 0 <= j < |lines| ==> LineWinner(lines[j]).None?
    ensures FirstWinner(lines) == None
  {
    if lines != [] {
      FirstWinnerNone(lines[1..]);
    }
  }

  /** A winner is found exactly when a row or a diagonal is full of one mark; columns play no part. */
  lemma WinnerFromRowsAndDiagonals(g: Grid)
    ensures FirstWinner(CheckedLines(g)).Some? <==>
      (exists r :: 0 <= r < 3 && LineWinner(g[r]).Some?) ||
      LineWinner(Diagonal(g)).Some? || LineWinner(AntiDiagonal(g)).Some?
  {
    var lines := CheckedLines(g);
    FirstWinnerSome(lines);
    assert g[0] == lines[0] && g[1] == lines[3] && g[2] == lines[5];
    assert Diagonal(g) == lines[6] && AntiDiagonal(g) == lines[7];
    assert forall j :: 0 <= j < 8 ==> lines[j] in [g[0], g[1], g[2], Diagonal(g), AntiDiagonal(g)];
  }

  /** Some line wins exactly when `FirstWinner` reports a winner. */
  lemma {:induction false} FirstWinnerSome(lines: seq<seq<char>>)
    ensures FirstWinner(lines).Some? <==> exists j :: 0 <= j < |lines| && LineWinner(lines[j]).Some?
  {
    if lines != [] {
      FirstWinnerSome(lines[1..]);
      if LineWinner(lines[0]).None? {
        forall j | 0 < j < |lines| && LineWinner(lines[j]).Some?
          ensures exists i :: 0 <= i < |lines[1..]| && LineWinner(lines[1..][i]).Some?
        {
          assert lines[1..][j - 1] == lines[j];
        }
      }
    }
  }

  /**
   * The scan of `CheckedLines` reports the first full line among row 0,
   * row 1, row 2, the diagonal and the anti-diagonal, in that order.
   */
  lemma ScanOutcome(g: Grid)
    ensures LineWinner(g[0]).Some? ==> FirstWinner(CheckedLines(g)) == LineWinner(g[0])
    ensures LineWinner(g[0]).None? && LineWinner(g[1]).Some? ==> FirstWinner(CheckedLines(g)) == LineWinner(g[1])
    ensures LineWinner(g[0]).None? && LineWinner(g[1]).None? && LineWinner(g[2]).Some? ==>
      FirstWinner(CheckedLines(g)) == LineWinner(g[2])
    ensures LineWinner(g[0]).None? && LineWinner(g[1]).None? && LineWinner(g[2]).None? ==>
      FirstWinner(CheckedLines(g)) ==
        if LineWinner(Diagonal(g)).Some? then LineWinner(Diagonal(g)) else LineWinner(AntiDiagonal(g))
  {
    var lines := CheckedLines(g);
    if LineWinner(g[0]).Some? {
      FirstWinnerAt(lines, 0);
    } else if LineWinner(g[1]).Some? {
      FirstWinnerAt(lines, 3);
    } else if LineWinner(g[2]).Some? {
      FirstWinnerAt(lines, 5);
    } else if LineWinner(Diagonal(g)).Some? {
      FirstWinnerAt(lines, 6);
    } else if LineWinner(AntiDiagonal(g)).Some? {
      FirstWinnerAt(lines, 7);
    } else {
      FirstWinnerNone(lines);
    }
  }

  /** No line that still holds a blank can win. */
  lemma NoWinnerWhileBlank(g: Grid)
    requires '-' in g[0] && '-' in g[1] && '-' in g[2]
    requires '-' in Diagonal(g) && '-' in AntiDiagonal(g)
    ensures FirstWinner(CheckedLines(g)) == None
  {
    var lines := CheckedLines(g);
    forall j | 0 <= j < 8 ensures LineWinner(lines[j]).None? {
      var k :| 0 <= k < |lines[j]| && lines[j][k] == '-';
    }
    FirstWinnerNone(lines);
  }

  /** A column full of 'O' with no full row or diagonal: no winner is found. */
  lemma FullColumnIsMissed()
    ensures var g: Grid := [['O', '-', '-'], ['O', 'X', '-'], ['O', 'X', '-']];
      AllSame([g[0][0], g[1][0], g[2][0]]) && FirstWinner(CheckedLines(g)) == None
  {
    var g: Grid := [['O', '-', '-'], ['O', 'X', '-'], ['O', 'X', '-']];
    assert g[0][1] == g[1][2] == g[2][2] == '-';
    assert Diagonal(g)[2] == AntiDiagonal(g)[0] == '-';
    NoWinnerWhileBlank(g);
  }

  function Column(g: Grid, c: nat): seq<char>
    requires c < 3
  {
    [g[0][c], g[1][c], g[2][c]]
  }

  /** The eight lines of the board a player can complete: every row, every column, both diagonals. */
  function AllLines(g: Grid): (r: seq<seq<char>>)
    ensures |r| == 8
  {
    [g[0], g[1], g[2], Column(g, 0), Column(g, 1), Column(g, 2), Diagonal(g), AntiDiagonal(g)]
  }

  /**
   * Scanning all eight lines finds a winner exactly when the scan of
   * `CheckedLines` does or some column is full of one mark.
   */
  lemma AllLinesAddColumns(g: Grid)
    ensures FirstWinner(AllLines(g)).Some? <==>
      FirstWinner(CheckedLines(g)).Some? || exists c :: 0 <= c < 3 && LineWinner(Column(g, c)).Some?
  {
    var all := AllLines(g);
    FirstWinnerSome(all);
    WinnerFromRowsAndDiagonals(g);
    if exists c :: 0 <= c < 3 && LineWinner(Column(g, c)).Some? {
      var c :| 0 <= c < 3 && LineWinner(Column(g, c)).Some?;
      assert all[3 + c] == Column(g, c);
    }
    if exists r :: 0 <= r < 3 && LineWinner(g[r]).Some? {
      var r :| 0 <= r < 3 && LineWinner(g[r]).Some?;
      assert all[r] == g[r];
    }
    assert all[6] == Diagonal(g) && all[7] == AntiDiagonal(g);
    if FirstWinner(all).Some? {
      var j :| 0 <= j < 8 && LineWinner(all[j]).Some?;
      if j < 3 {
        assert all[j] == g[j];
      } else if j < 6 {
        assert all[j] == Column(g, j - 3);
      }
    }
  }

  function Marked(c: char): nat {
    if c == '-' then 0 else 1
  }

  /** The number of marked cells. */
  function MarkCount(g: Grid): nat {
    Marked(g[0][0]) + Marked(g[0][1]) + Marked(g[0][2]) +
    Marked(g[1][0]) + Marked(g[1][1]) + Marked(g[1][2]) +
    Marked(g[2][0]) + Marked(g[2][1]) + Marked(g[2][2])
  }

  /** Marking a blank cell adds one to the number of marked cells. */
  lemma MarkCountGrows(g: Grid, r: nat, c: nat, sign: char)
    requires r < 3 && c < 3 && g[r][c] == '-' && sign != '-'
    ensures var g': Grid := g[r := g[r][c := sign]]; MarkCount(g') == MarkCount(g) + 1
  {
  }

  /** The mark of the player whose turn `round` is: 'O' on even rounds, 'X' on odd ones. */
  function Sign(round: int): char {
    if round % 2 == 0 then 'O' else 'X'
  }

  /** The contents a cell can hold: blank, or a player's mark. */
  predicate IsCell(c: char) {
    c == '-' || c == 'O' || c == 'X'
  }

  predicate CellsValid(g: Grid) {
    forall r, c :: 0 <= r < 3 && 0 <= c < 3 ==> IsCell(g[r][c])
  }

  /** Placing a mark on a blank cell keeps every cell valid and adds one to the number of marked cells. */
  lemma PlaceMark(g: Grid, r: nat, c: nat, sign: char)
    requires CellsValid(g) && r < 3 && c < 3 && g[r][c] == '-' && (sign == 'O' || sign == 'X')
    ensures var g': Grid := g[r := g[r][c := sign]];
      CellsValid(g') && MarkCount(g') == MarkCount(g) + 1
  {
    MarkCountGrows(g, r, c, sign);
  }

  class Board {
    var round: int
    const state: array2<char>
    var winner: Option<Byte>

    // public view: the grid row by row
    ghost var Cells: Grid

    /**
     * `state` is a 3-by-3 array that holds `Cells`, whose cells are blank or
     * marked; `round` counts the marked cells (so it never exceeds 9); a
     * winner is player 1 or 2.
     */
    ghost predicate Valid()
      reads this, state
    {
      && state.Length0 == 3 && state.Length1 == 3
      && (forall r, c :: 0 <= r < 3 && 0 <= c < 3 ==> state[r, c] == Cells[r][c])
      && CellsValid(Cells)
      && round == MarkCount(Cells)
      && (winner.Some? ==> winner.value == 1 || winner.value == 2)
    }

    constructor ()
      ensures Valid() && fresh(state)
      ensures round == 0 && winner == None
      ensures Cells == [['-', '-', '-'], ['-', '-', '-'], ['-', '-', '-']]
    {
      round := 0;
      state := new char[3, 3]((r, c) => '-');
      winner := None;
      Cells := [['-', '-', '-'], ['-', '-', '-'], ['-', '-', '-']];
    }

    function Winner(): (r: Option<Byte>)
      reads this, state
      requires Valid()
      ensures r.Some? ==> r.value == 1 || r.value == 2
    {
      winner
    }

    function IsMarked(coord: (nat, nat)): (r: bool)
      reads this, state
      requires Valid() && OnBoard(coord)
      ensures r <==> Cells[coord.0][coord.1] == 'O' || Cells[coord.0][coord.1] == 'X'
    {
      state[coord.0, coord.1] != '-'
    }

    /**
     * Places the current player's mark on an empty cell while there is no
     * winner, then looks for a winning line; otherwise changes nothing.
     */
    method Mark(coord: (nat, nat))
      requires Valid() && OnBoard(coord)
      modifies this, state
      ensures Valid()
      ensures old(winner).Some? || old(Cells)[coord.0][coord.1] != '-' ==>
        round == old(round) && winner == old(winner) && Cells == old(Cells)
      ensures old(winner).None? && old(Cells)[coord.0][coord.1] == '-' ==>
        && round == old(round) + 1
        && Cells == old(Cells)[coord.0 := old(Cells)[coord.0][coord.1 := Sign(old(round))]]
        && winner == FirstWinner(CheckedLines(Cells))
    {
      if winner.Some? {
        return;
      }
      if IsMarked(coord) {
        return;
      }
      var sign := if round % 2 == 0 then 'O' else 'X';
      PlaceMark(Cells, coord.0, coord.1, sign);
      Place(coord, sign);
      round := round + 1;
      IterateBoard();
    }

    /** Writes `sign` into one cell; the other eight cells keep their contents. */
    method Place(coord: (nat, nat), sign: char)
      requires state.Length0 == 3 && state.Length1 == 3 && OnBoard(coord)
      requires forall r, c :: 0 <= r < 3 && 0 <= c < 3 ==> state[r, c] == Cells[r][c]
      modifies this`Cells, state
      ensures forall r, c :: 0 <= r < 3 && 0 <= c < 3 ==> state[r, c] == Cells[r][c]
      ensures Cells == old(Cells)[coord.0 := old(Cells)[coord.0][coord.1 := sign]]
    {
      state[coord.0, coord.1] := sign;
      Cells := Cells[coord.0 := Cells[coord.0][coord.1 := sign]];
    }

    /** Hands row 0 and each row to `FindWinner`, then the two diagonals, stopping at the first winning line. */
    method IterateBoard()
      requires Valid()
      modifies this`winner
      ensures Valid()
      ensures winner == if FirstWinner(CheckedLines(Cells)).Some? then FirstWinner(CheckedLines(Cells)) else old(winner)
    {
      ScanOutcome(Cells);
      for row := 0 to 3
        invariant Valid() && winner == old(winner)
        invariant forall r :: 0 <= r < row ==> LineWinner(Cells[r]).None?
      {
        var firstRow := [state[0, 0], state[0, 1], state[0, 2]];
        assert firstRow == Cells[0];
        var found := FindWinner(firstRow);
        if found {
          return;
        }
        var line := [];
        for col := 0 to 3
          invariant line == Cells[row][..col]
        {
          line := line + [state[row, col]];
        }
        assert line == Cells[row];
        found := FindWinner(line);
        if found {
          return;
        }
      }
      var d00, d02, d11, d20, d22 := state[0, 0], state[0, 2], state[1, 1], state[2, 0], state[2, 2];
      var found := FindWinner([d00, d11, d22]);
      if found {
        return;
      }
      found := FindWinner([d02, d11, d20]);
    }

    /** Records the winner of `vals` when all its marks are one and the same player's. */
    method FindWinner(vals: seq<char>) returns (found: bool)
      requires Valid()
      modifies this`winner
      ensures Valid()
      ensures found <==> LineWinner(vals).Some?
      ensures winner == if found then LineWinner(vals) else old(winner)
    {
      OneDistinct(vals);
      if |(set c | c in vals)| == 1 && vals[0] != '-' {
        var w: Byte := if vals[0] == 'O' then 1 else 2;
        winner := Some(w);
        return true;
      }
      return false;
    }
  }

  /**
   * The validation step of the game loop: a typed move is accepted exactly
   * when the range check the board needs (1..=3) accepts it, and it is then
   * converted to indices on the board.
   */
  method ReadMove(point: string) returns (accepted: bool, coord: (nat, nat))
    ensures accepted <==> ValidateCell(point).Ok?
    ensures accepted ==> OnBoard(coord) && ValidateCell(point) == Ok([coord.0 + 1, coord.1 + 1])
  {
    var result := ValidateCell(point);
    if result.Err? {
      return false, (0, 0);
    }
    var v := result.value;
    coord := ConvertCoord(v);
    assert v == [coord.0 + 1, coord.1 + 1];
    accepted := true;
  }

  /**
   * One turn of the game loop: a typed move is validated, converted to
   * indices and played; a rejected move leaves the board as it was. Every
   * accepted move lands on the board.
   */
  method Turn(b: Board, point: string) returns (accepted: bool, coord: (nat, nat))
    requires b.Valid()
    modifies b, b.state
    ensures b.Valid()
    ensures accepted <==> ValidateCell(point).Ok?
    ensures accepted ==> OnBoard(coord) && ValidateCell(point) == Ok([coord.0 + 1, coord.1 + 1])
    ensures !accepted || old(b.winner).Some? || CellAt(old(b.Cells), coord) != '-' ==>
      b.round == old(b.round) && b.winner == old(b.winner) && b.Cells == old(b.Cells)
    ensures accepted && old(b.winner).None? && CellAt(old(b.Cells), coord) == '-' ==>
      && b.round == old(b.round) + 1
      && b.Cells == WithMark(old(b.Cells), coord, Sign(old(b.round)))
      && b.winner == FirstWinner(CheckedLines(b.Cells))
  {
    accepted, coord := ReadMove(point);
    if accepted {
      b.Mark(coord);
    }
  }

  /** The first two moves of `ColumnGame`: O at (0,0), then X at (1,1). */
  method OpeningMoves() returns (b: Board)
    ensures fresh(b) && fresh(b.state) && b.Valid() && b.winner == None && b.round == 2
    ensures b.Cells == [['O', '-', '-'], ['-', 'X', '-'], ['-', '-', '-']]
  {
    b := new Board();
    b.Mark((0, 0));
    assert b.Cells[0] == ['O', '-', '-'] && b.Cells[1] == ['-', '-', '-'] && b.Cells[2] == ['-', '-', '-'];
    assert b.Cells == [['O', '-', '-'], ['-', '-', '-'], ['-', '-', '-']];
    NoWinnerWhileBlank(b.Cells);
    b.Mark((1, 1));
    assert b.Cells[0] == ['O', '-', '-'] && b.Cells[1] == ['-', 'X', '-'] && b.Cells[2] == ['-', '-', '-'];
    NoWinnerWhileBlank(b.Cells);
  }

  /**
   * A game where 'O' fills the first column: O at (0,0), X at (1,1),
   * O at (1,0), X at (2,1), O at (2,0). Nobody is declared the winner.
   */
  method ColumnGame() returns (b: Board)
    ensures b.Valid() && b.Winner() == None
    ensures b.Cells[0][0] == b.Cells[1][0] == b.Cells[2][0] == 'O'
  {
    b := OpeningMoves();
    b.Mark((1, 0));
    assert b.Cells[0] == ['O', '-', '-'] && b.Cells[1] == ['O', 'X', '-'] && b.Cells[2] == ['-', '-', '-'];
    assert b.Cells == [['O', '-', '-'], ['O', 'X', '-'], ['-', '-', '-']];
    NoWinnerWhileBlank(b.Cells);
    b.Mark((2, 1));
    assert b.Cells[0] == ['O', '-', '-'] && b.Cells[1] == ['O', 'X', '-'] && b.Cells[2] == ['-', 'X', '-'];
    assert b.Cells == [['O', '-', '-'], ['O', 'X', '-'], ['-', 'X', '-']];
    NoWinnerWhileBlank(b.Cells);
    b.Mark((2, 0));
    assert b.Cells[0] == ['O', '-', '-'] && b.Cells[1] == ['O', 'X', '-'] && b.Cells[2] == ['O', 'X', '-'];
    assert b.Cells == [['O', '-', '-'], ['O', 'X', '-'], ['O', 'X', '-']];
    FullColumnIsMissed();
  }
}
