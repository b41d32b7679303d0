/**
 * The game description of a Hamilton puzzle (hamilton.c, "Game description"):
 * the clue grid written row by row as comma-separated fields, an empty
 * field for a blank square and the decimal number for a clue ("1,,3,,,6").
 * The encoder and decoder are cursor loops, as in the source; each is
 * proved against a recursive definition, and the round trip
 * decode(encode(g)) == g is proved on those definitions.
 */
module DescCodec {
  import opened Wrappers
  import opened Geometry
  import opened GameParams
  import opened Gaps

  /** The number of commas in s, that is, the number of fields less one. */
  function CommaCount(s: string): nat
  {
    if s == [] then 0 else (if s[0] == ',' then 1 else 0) + CommaCount(s[1..])
  }

  lemma {:induction false} CommaCountAppend(a: string, b: string)
    ensures CommaCount(a + b) == CommaCount(a) + CommaCount(b)
  {
    if a == [] {
      assert a + b == b;
    } else {
      assert (a + b)[1..] == a[1..] + b;
      CommaCountAppend(a[1..], b);
    }
  }

  /** Every value a square of a Hamilton grid can hold: blank (0) or 1 .. NumberMax. */
  predicate CellValues(cells: seq<int>)
  {
    forall k :: 0 <= k < |cells| ==> 0 <= cells[k] <= NumberMax
  }

  // ---------------------------------------------------------------------
  // Encoding
  // ---------------------------------------------------------------------

  /**
   * One square's field: nothing for a blank, else one or two decimal
   * digits. A square holds 0 .. NumberMax; other values get no field.
   */
  function Field(d: int): string
  {
    if 10 <= d <= NumberMax then [DigitChar(d / 10), DigitChar(d % 10)]
    else if 1 <= d <= 9 then [DigitChar(d)]
    else ""
  }

  /**
   * The fields of the squares, in order, separated by commas: at most two
   * digits and a comma per square, and no comma after the last.
   */
  function DescOf(cells: seq<int>): (r: string)
    ensures |cells| >= 1 ==> |r| <= 3 * |cells| - 1
  {
    if |cells| == 0 then ""
    else if |cells| == 1 then Field(cells[0])
    else DescOf(cells[..|cells| - 1]) + "," + Field(cells[|cells| - 1])
  }

  /** Writing square k after the description of the squares before it describes the squares up to k. */
  lemma DescOfSnoc(cells: seq<int>, k: int, comma: bool, before: string, after: string)
    requires 0 <= k < |cells| && comma == (k > 0)
    requires before == DescOf(cells[..k])
    requires after == before + (if comma then "," else "") + Field(cells[k])
    ensures after == DescOf(cells[..k + 1])
  {
    assert cells[..k + 1][..k] == cells[..k];
  }

  /**
   * encode_desc_grid: the squares row by row; the result and its
   * terminating NUL fit in the 3 * w * h characters the source allocates.
   */
  method EncodeDescGrid(grid: seq<int>, w: int, h: int) returns (desc: string)
    requires 1 <= w && 1 <= h && |grid| == w * h && CellValues(grid)
    ensures desc == DescOf(grid)
    ensures |desc| + 1 <= 3 * (w * h)
  {
    desc := "";
    var y, row := 0, 0;
    while y < h
      invariant 0 <= y <= h && row == y * w
      invariant desc == DescOf(grid[..row])
    {
      RowFits(y, w, h);
      FirstRow(y, w);
      desc := EncodeRow(grid, w, y, row, desc);
      row, y := row + w, y + 1;
    }
    SameProduct(y, h, w);
    assert grid[..row] == grid;
  }

  /** The inner loop of encode_desc_grid: the squares of row y, which start at index row. */
  method EncodeRow(grid: seq<int>, w: int, y: int, row: int, desc0: string) returns (desc: string)
    requires 1 <= w && 0 <= row && row + w <= |grid| && (row == 0 <==> y == 0) && CellValues(grid)
    requires desc0 == DescOf(grid[..row])
    ensures desc == DescOf(grid[..row + w])
  {
    desc := desc0;
    var k := row;
    while k < row + w
      invariant row <= k <= row + w
      invariant desc == DescOf(grid[..k])
    {
      desc := EncodeSquare(grid, k, k != row || y != 0, desc);
      k := k + 1;
    }
  }

  /**
   * After the last row, the rows cover the whole grid.  Kept apart from
   * EncodeDescGrid so that this product is proved outside the loop's context.
   */
  lemma SameProduct(y: int, h: int, w: int)
    requires y == h
    ensures y * w == w * h
  {
  }

  /** Only the first row starts at index 0. */
  lemma FirstRow(y: int, w: int)
    requires 0 <= y && 1 <= w
    ensures (y * w == 0) <==> (y == 0)
  {
    if y > 0 {
      assert y * w >= w;
    }
  }

  /**
   * One turn of encode_desc_grid's inner loop: a comma unless the square is
   * the first, then its digits, extending the description of the squares
   * before k.
   */
  method EncodeSquare(grid: seq<int>, k: int, comma: bool, desc0: string) returns (desc: string)
    requires 0 <= k < |grid| && comma == (k > 0) && 0 <= grid[k] <= NumberMax
    requires desc0 == DescOf(grid[..k])
    ensures desc == DescOf(grid[..k + 1])
  {
    desc := WriteSquare(desc0, comma, grid[k]);
    DescOfSnoc(grid, k, comma, desc0, desc);
  }

  method WriteSquare(desc0: string, comma: bool, d0: int) returns (desc: string)
    requires 0 <= d0 <= NumberMax
    ensures desc == desc0 + (if comma then "," else "") + Field(d0)
  {
    desc := desc0;
    if comma {
      desc := desc + ",";
    }
    var d := d0;
    if d != 0 {
      if d > 9 {
        var tens := d / 10;
        desc := desc + [DigitChar(tens)];
        d := d - tens * 10;
      }
      desc := desc + [DigitChar(d)];
    }
  }

  // ---------------------------------------------------------------------
  // Decoding
  // ---------------------------------------------------------------------

  /**
   * A square holds a number_t, an unsigned char: storing atoi's value
   * keeps it modulo 256, and leaves the values 0 .. 255 as they are.
   */
  function AsNumber(v: int): (b: int)
    ensures 0 <= b < 256
    ensures 0 <= v < 256 ==> b == v
  {
    v % 256
  }

  /** Every square holds a value of an unsigned char. */
  predicate ByteValues(cells: seq<int>)
  {
    forall k :: 0 <= k < |cells| ==> 0 <= cells[k] < 256
  }

  /**
   * Reads d into the squares read so far, the last of which is the current
   * one: a comma starts a new blank square, a digit 1 .. 9 starts a number
   * (read with atoi, stored as a number_t) that becomes the current
   * square's value, and every other character, '0' included, is skipped.
   */
  function Scan(d: string, cells: seq<int>): (r: seq<int>)
    requires |cells| >= 1
    ensures |r| >= |cells|
    ensures ByteValues(cells) ==> ByteValues(r)
    decreases |d|
  {
    if d == [] then cells
    else if d[0] == ',' then Scan(d[1..], cells + [0])
    else if '1' <= d[0] <= '9' then Scan(d[DigitRun(d)..], cells[..|cells| - 1] + [AsNumber(Atoi(d))])
    else Scan(d[1..], cells)
  }

  /**
   * The squares a description gives, starting from one blank square: one
   * per field, each a value of an unsigned char.
   */
  function DecodeDesc(d: string): (r: seq<int>)
    ensures |r| == CommaCount(d) + 1
    ensures ByteValues(r)
  {
    ScanLength(d, [0]);
    Scan(d, [0])
  }

  /** The decoder gives one square per field. */
  lemma {:induction false} ScanLength(d: string, cells: seq<int>)
    requires |cells| >= 1
    ensures |Scan(d, cells)| == |cells| + CommaCount(d)
    decreases |d|
  {
    if d != [] {
      if d[0] == ',' {
        assert d == [d[0]] + d[1..];
        ScanLength(d[1..], cells + [0]);
      } else if '1' <= d[0] <= '9' {
        ScanSkipsDigits(d);
        ScanLength(d[DigitRun(d)..], cells[..|cells| - 1] + [AsNumber(Atoi(d))]);
      } else {
        assert d == [d[0]] + d[1..];
        ScanLength(d[1..], cells);
      }
    }
  }

  /**
   * decode_desc_grid: fills the squares up to the last field of the
   * description; the source demands no more fields than squares (every
   * write is in bounds) and leaves any squares after the last field as
   * allocated.
   */
  method DecodeDescGrid(desc: string, w: int, h: int) returns (grid: array<int>)
    requires 1 <= w && 1 <= h && CommaCount(desc) < w * h
    ensures fresh(grid) && grid.Length == w * h
    ensures grid[..CommaCount(desc) + 1] == DecodeDesc(desc)
    ensures forall k :: 0 <= k <= CommaCount(desc) ==> 0 <= grid[k] < 256
  {
    grid := new int[w * h];
    var index := 0;
    grid[index] := 0;
    var i := 0;
    ghost var cells := [0];
    assert desc[i..] == desc && grid[..index + 1] == cells;
    while i < |desc|
      invariant 0 <= i <= |desc| && 0 <= index < w * h
      invariant grid[..index + 1] == cells
      invariant index + CommaCount(desc[i..]) == CommaCount(desc)
      invariant Scan(desc[i..], cells) == DecodeDesc(desc)
      decreases |desc| - i
    {
      i, index, cells := DecodeChar(desc, grid, i, index, cells);
    }
    ScanEnd(desc[i..], cells);
  }

  /** One turn of decode_desc_grid's loop: the character at i, and the digits after it when it starts a number. */
  method DecodeChar(desc: string, grid: array<int>, i0: int, index0: int, ghost cells0: seq<int>)
      returns (i: int, index: int, ghost cells: seq<int>)
    requires 0 <= i0 < |desc| && 0 <= index0 < grid.Length && grid[..index0 + 1] == cells0
    requires index0 + CommaCount(desc[i0..]) < grid.Length
    modifies grid
    ensures i0 < i <= |desc| && 0 <= index < grid.Length && grid[..index + 1] == cells
    ensures index + CommaCount(desc[i..]) == index0 + CommaCount(desc[i0..])
    ensures Scan(desc[i..], cells) == Scan(desc[i0..], cells0)
  {
    var c := desc[i0];
    if c == ',' {
      i, index, cells := DecodeComma(desc, grid, i0, index0, cells0);
    } else if '1' <= c <= '9' {
      i, index, cells := DecodeNumber(desc, grid, i0, index0, cells0);
    } else {
      i, index, cells := DecodeOther(desc, grid, i0, index0, cells0);
    }
  }

  /** Any other character is skipped. */
  method DecodeOther(desc: string, grid: array<int>, i0: int, index0: int, ghost cells0: seq<int>)
      returns (i: int, index: int, ghost cells: seq<int>)
    requires 0 <= i0 < |desc| && desc[i0] != ',' && !('1' <= desc[i0] <= '9')
    requires 0 <= index0 < grid.Length && grid[..index0 + 1] == cells0
    ensures i == i0 + 1 && index == index0 && cells == cells0
    ensures index + CommaCount(desc[i..]) == index0 + CommaCount(desc[i0..])
    ensures Scan(desc[i..], cells) == Scan(desc[i0..], cells0)
  {
    ScanOtherAt(desc, i0, cells0);
    i, index, cells := i0 + 1, index0, cells0;
  }

  /** A comma: the next square starts out blank. */
  method DecodeComma(desc: string, grid: array<int>, i0: int, index0: int, ghost cells0: seq<int>)
      returns (i: int, index: int, ghost cells: seq<int>)
    requires 0 <= i0 < |desc| && desc[i0] == ',' && 0 <= index0 < grid.Length && grid[..index0 + 1] == cells0
    requires index0 + CommaCount(desc[i0..]) < grid.Length
    modifies grid
    ensures i == i0 + 1 && 0 <= index < grid.Length && grid[..index + 1] == cells
    ensures index + CommaCount(desc[i..]) == index0 + CommaCount(desc[i0..])
    ensures Scan(desc[i..], cells) == Scan(desc[i0..], cells0)
  {
    ScanCommaAt(desc, i0, cells0);
    i := i0 + 1;
    index := index0 + 1;
    grid[index] := 0;
    cells := cells0 + [0];
    assert grid[..index + 1] == grid[..index0 + 1] + [0];
  }

  /** A digit 1 .. 9: the current square takes the number that starts there. */
  method DecodeNumber(desc: string, grid: array<int>, i0: int, index0: int, ghost cells0: seq<int>)
      returns (i: int, index: int, ghost cells: seq<int>)
    requires 0 <= i0 < |desc| && '1' <= desc[i0] <= '9' && 0 <= index0 < grid.Length && grid[..index0 + 1] == cells0
    requires index0 + CommaCount(desc[i0..]) < grid.Length
    modifies grid
    ensures i0 < i <= |desc| && index == index0 && grid[..index + 1] == cells
    ensures index + CommaCount(desc[i..]) == index0 + CommaCount(desc[i0..])
    ensures Scan(desc[i..], cells) == Scan(desc[i0..], cells0)
  {
    index := index0;
    var clue := AsNumber(Atoi(desc[i0..]));
    ghost var n := DigitRun(desc[i0..]);
    ScanNumberAt(desc, i0, cells0);
    NumberRunAt(desc, i0);
    grid[index] := clue;
    cells := cells0[..|cells0| - 1] + [clue];
    assert grid[..index + 1] == grid[..index0] + [clue];
    i := SkipDigits(desc, i0 + 1);
    assert i == i0 + n;
    assert desc[i..] == desc[i0 + DigitRun(desc[i0..])..];
    assert CommaCount(desc[i..]) == CommaCount(desc[i0..]);
    assert Scan(desc[i..], cells) == Scan(desc[i0..], cells0);
  }

  lemma ScanEnd(d: string, cells: seq<int>)
    requires d == [] && |cells| >= 1
    ensures Scan(d, cells) == cells
  {
  }

  /** A comma at i starts a new blank square. */
  lemma ScanCommaAt(desc: string, i: int, cells: seq<int>)
    requires 0 <= i < |desc| && |cells| >= 1 && desc[i] == ','
    ensures Scan(desc[i..], cells) == Scan(desc[i + 1..], cells + [0])
    ensures CommaCount(desc[i..]) == CommaCount(desc[i + 1..]) + 1
  {
    var rest := desc[i..];
    assert rest[1..] == desc[i + 1..];
  }

  /** A digit 1 .. 9 at i sets the current square to the number that starts there. */
  lemma ScanNumberAt(desc: string, i: int, cells: seq<int>)
    requires 0 <= i < |desc| && |cells| >= 1 && '1' <= desc[i] <= '9'
    ensures Scan(desc[i..], cells)
            == Scan(desc[i + DigitRun(desc[i..])..], cells[..|cells| - 1] + [AsNumber(Atoi(desc[i..]))])
  {
    var rest := desc[i..];
    var n := DigitRun(rest);
    assert rest[n..] == desc[i + n..];
    ScanNumber(rest, cells);
  }

  lemma ScanNumber(d: string, cells: seq<int>)
    requires d != [] && |cells| >= 1 && '1' <= d[0] <= '9'
    ensures Scan(d, cells) == Scan(d[DigitRun(d)..], cells[..|cells| - 1] + [AsNumber(Atoi(d))])
  {
  }

  /** The number at i takes the digit there and the run of digits after it, and holds no comma. */
  lemma NumberRunAt(desc: string, i: int)
    requires 0 <= i < |desc| && IsDigit(desc[i])
    ensures DigitRun(desc[i..]) == 1 + DigitRun(desc[i + 1..])
    ensures CommaCount(desc[i..]) == CommaCount(desc[i + DigitRun(desc[i..])..])
  {
    var rest := desc[i..];
    assert rest[1..] == desc[i + 1..];
    assert rest[DigitRun(rest)..] == desc[i + DigitRun(rest)..];
    ScanSkipsDigits(rest);
  }

  /** Any other character at i is skipped. */
  lemma ScanOtherAt(desc: string, i: int, cells: seq<int>)
    requires 0 <= i < |desc| && |cells| >= 1 && desc[i] != ',' && !('1' <= desc[i] <= '9')
    ensures Scan(desc[i..], cells) == Scan(desc[i + 1..], cells)
    ensures CommaCount(desc[i..]) == CommaCount(desc[i + 1..])
  {
    var rest := desc[i..];
    assert rest[1..] == desc[i + 1..];
  }

  /** A run of digits holds no comma. */
  lemma {:induction false} ScanSkipsDigits(d: string)
    ensures CommaCount(d) == CommaCount(d[DigitRun(d)..])
    decreases |d|
  {
    if d != [] && IsDigit(d[0]) {
      ScanSkipsDigits(d[1..]);
      assert d[DigitRun(d)..] == d[1..][DigitRun(d[1..])..];
    }
  }

  // ---------------------------------------------------------------------
  // Round trip
  // ---------------------------------------------------------------------

  /** Atoi and the digit run of a string depend only on its first part when the rest starts with a comma. */
  lemma {:induction false} ScanAppend(a: string, b: string, cells: seq<int>)
    requires |cells| >= 1
    requires b == [] || b[0] == ','
    ensures Scan(a + b, cells) == Scan(b, Scan(a, cells))
    decreases |a|
  {
    if a == [] {
      assert a + b == b;
    } else {
      var ab := a + b;
      assert ab[0] == a[0];
      if a[0] == ',' || !('1' <= a[0] <= '9') {
        assert ab[1..] == a[1..] + b;
        if a[0] == ',' {
          ScanAppend(a[1..], b, cells + [0]);
        } else {
          ScanAppend(a[1..], b, cells);
        }
      } else {
        var n := DigitRun(a);
        PrefixRun(a, b);
        ScanAppend(a[n..], b, cells[..|cells| - 1] + [AsNumber(Atoi(a))]);
      }
    }
  }

  /** A number at the front of a is read the same way when a comma-led b follows it. */
  lemma PrefixRun(a: string, b: string)
    requires a != [] && '1' <= a[0] <= '9'
    requires b == [] || b[0] == ','
    ensures DigitRun(a + b) == DigitRun(a) && Atoi(a + b) == Atoi(a)
    ensures (a + b)[DigitRun(a)..] == a[DigitRun(a)..] + b
  {
    RunAppend(a, b);
    var n := DigitRun(a);
    assert (a + b)[..n] == a[..n];
    assert (a + b)[n..] == a[n..] + b;
    AtoiOfDigit(a);
    AtoiOfDigit(a + b);
  }

  lemma {:induction false} RunAppend(a: string, b: string)
    requires b == [] || !IsDigit(b[0])
    ensures DigitRun(a + b) == DigitRun(a)
  {
    if a == [] {
      assert a + b == b;
    } else {
      assert (a + b)[0] == a[0];
      if IsDigit(a[0]) {
        assert (a + b)[1..] == a[1..] + b;
        RunAppend(a[1..], b);
      }
    }
  }

  /** atoi of a string that starts with a digit is the value of its leading digits. */
  lemma AtoiOfDigit(s: string)
    requires s != [] && IsDigit(s[0])
    ensures DigitRunIsDigitsHolds(s) && Atoi(s) == DigitsValue(s[..DigitRun(s)])
  {
    DigitRunIsDigits(s);
    assert SpaceRun(s) == 0 by {
      assert !IsSpace(s[0]);
    }
    assert s[SpaceRun(s)..] == s;
  }

  predicate DigitRunIsDigitsHolds(s: string)
  {
    forall i :: 0 <= i < DigitRun(s) ==> IsDigit(s[i])
  }

  /** A square's field, read into a fresh blank square, gives the square's value. */
  lemma ScanField(d: int, cells: seq<int>)
    requires 0 <= d <= NumberMax
    ensures Scan(Field(d), cells + [0]) == cells + [d]
  {
    var f := Field(d);
    if d > 9 {
      assert f == [DigitChar(d / 10)] + [DigitChar(d % 10)];
      DigitRunOfDigits(f, []);
      AtoiDigits(f, []);
      assert f + [] == f;
      assert f[..1] == [DigitChar(d / 10)];
      assert DigitsValue(f[..1]) == d / 10;
      assert DigitsValue(f) == 10 * (d / 10) + d % 10;
    } else if d > 0 {
      DigitRunOfDigits(f, []);
      AtoiDigits(f, []);
      assert f + [] == f;
    }
  }

  /** decode_desc_grid(encode_desc_grid(g)) == g for every grid of at least one square. */
  lemma {:induction false} DecodeEncode(cells: seq<int>)
    requires CellValues(cells) && |cells| >= 1
    ensures DecodeDesc(DescOf(cells)) == cells
  {
    if |cells| == 1 {
      DecodeSingle(cells);
    } else {
      DecodeEncode(cells[..|cells| - 1]);
      DecodeSnoc(cells);
    }
  }

  lemma DecodeSingle(cells: seq<int>)
    requires |cells| == 1 && 0 <= cells[0] <= NumberMax
    ensures DecodeDesc(DescOf(cells)) == cells
  {
    var f := Field(cells[0]);
    assert DescOf(cells) == f;
    ScanField(cells[0], []);
    assert [] + [0] == [0] && [] + [cells[0]] == cells;
    assert DecodeDesc(f) == Scan(f, [0]);
  }

  /** One more square on the encoding of the squares before it decodes as one more square. */
  lemma DecodeSnoc(cells: seq<int>)
    requires |cells| >= 2 && 0 <= cells[|cells| - 1] <= NumberMax
    requires DecodeDesc(DescOf(cells[..|cells| - 1])) == cells[..|cells| - 1]
    ensures DecodeDesc(DescOf(cells)) == cells
  {
    var init := cells[..|cells| - 1];
    var d := cells[|cells| - 1];
    var a := DescOf(init);
    var tail := "," + Field(d);
    DescSnoc(cells);
    ScanAppend(a, tail, [0]);
    assert Scan(a, [0]) == init;
    ScanComma(Field(d), init);
    ScanField(d, init);
    SnocLast(cells);
  }

  lemma SnocLast(cells: seq<int>)
    requires |cells| >= 1
    ensures cells[..|cells| - 1] + [cells[|cells| - 1]] == cells
  {
  }

  lemma DescSnoc(cells: seq<int>)
    requires |cells| >= 2
    ensures DescOf(cells) == DescOf(cells[..|cells| - 1]) + ("," + Field(cells[|cells| - 1]))
  {
  }

  lemma ScanComma(f: string, cells: seq<int>)
    requires |cells| >= 1
    ensures Scan("," + f, cells) == Scan(f, cells + [0])
  {
    assert ("," + f)[1..] == f;
  }

  // ---------------------------------------------------------------------
  // Validation
  // ---------------------------------------------------------------------

  const InvalidCharacter := "Invalid character in game description"
  const NotEnoughData := "Not enough data to fill grid"
  const TooMuchData := "Too much data to fit in grid"

  /** Every character is a digit or a comma. */
  predicate DescChars(desc: string)
  {
    forall i :: 0 <= i < |desc| ==> IsDigit(desc[i]) || desc[i] == ','
  }

  /**
   * game_validate_desc: the first problem a description of area squares
   * has, None if it has none; a description passes exactly when it holds
   * only digits and commas and decodes into area squares.
   */
  function DescError(area: int, desc: string): (r: Option<string>)
    ensures r.None? <==> DescChars(desc) && |DecodeDesc(desc)| == area
  {
    if !DescChars(desc) then Some(InvalidCharacter)
    else if CommaCount(desc) + 1 < area then Some(NotEnoughData)
    else if CommaCount(desc) + 1 > area then Some(TooMuchData)
    else None
  }

  const ClueOutOfRange := "Clue out of range in game description"

  /** Every square holds at most area. */
  predicate CluesAtMost(cells: seq<int>, area: int)
  {
    forall k :: 0 <= k < |cells| ==> cells[k] <= area
  }

  /**
   * game_validate_desc with the check it lacks: after the character and
   * square-count tests, a clue above the area is refused, since the game
   * state and the solver's number map index arrays of area + 1 entries by
   * clue.
   */
  function CheckedDescError(w: int, h: int, desc: string): (r: Option<string>)
    ensures DescError(w * h, desc).Some? ==> r == DescError(w * h, desc)
    ensures r == Some(ClueOutOfRange) <==> DescError(w * h, desc).None? && !CluesAtMost(DecodeDesc(desc), w * h)
  {
    var e := DescError(w * h, desc);
    if e.Some? then e
    else if !CluesAtMost(DecodeDesc(desc), w * h) then Some(ClueOutOfRange)
    else None
  }

  /**
   * The corrected validation accepts exactly the descriptions of digits and
   * commas that decode into a grid the solver accepts.
   */
  lemma CheckedDescIsValidGrid(w: int, h: int, desc: string)
    requires 1 <= w <= CoordMax && 1 <= h
    ensures CheckedDescError(w, h, desc) == None <==> DescChars(desc) && ValidGrid(DecodeDesc(desc), w, h)
  {
    var cells := DecodeDesc(desc);
    if CheckedDescError(w, h, desc) == None {
      assert forall k :: 0 <= k < |cells| ==> 0 <= cells[k] <= w * h;
    }
    if DescChars(desc) && ValidGrid(cells, w, h) {
      assert CluesAtMost(cells, w * h);
    }
  }

  /**
   * As written, game_validate_desc lets a clue above the area through: on a
   * 2 x 2 grid "300,0,0,0" passes and decodes into a square holding 44, a
   * grid the solver's number map cannot index.
   */
  lemma LargeClueAccepted(d: string)
    requires d == "300,0,0,0"
    ensures DescError(4, d) == None && !ValidGrid(DecodeDesc(d), 2, 2)
    ensures CheckedDescError(2, 2, d) == Some(ClueOutOfRange)
  {
    LargeNumberWraps(d);
    assert DecodeDesc(d)[0] == 44;
  }

  /** game_validate_desc, advancing a cursor through the description. */
  method ValidateDesc(params: Params, desc: string) returns (r: Option<string>)
    ensures r == DescError(params.w * params.h, desc)
  {
    var area := params.w * params.h;
    var squares := 1;
    var i := 0;
    while i < |desc|
      invariant 0 <= i <= |desc|
      invariant squares == CommaCount(desc[..i]) + 1
      invariant DescChars(desc[..i])
    {
      var c := desc[i];
      assert desc[..i + 1] == desc[..i] + [c];
      CommaCountAppend(desc[..i], [c]);
      i := i + 1;
      if c == ',' {
        squares := squares + 1;
        continue;
      } else if c < '0' || c > '9' {
        assert !DescChars(desc) by {
          assert !(IsDigit(desc[i - 1]) || desc[i - 1] == ',');
        }
        return Some(InvalidCharacter);
      }
    }
    assert desc[..i] == desc;
    if squares < area {
      return Some(NotEnoughData);
    }
    if squares > area {
      return Some(TooMuchData);
    }
    return None;
  }

  /** Every encoded grid validates against its own area. */
  lemma {:induction false} EncodedDescValid(cells: seq<int>)
    requires |cells| >= 1
    ensures DescError(|cells|, DescOf(cells)) == None
  {
    EncodedDescShape(cells);
  }

  lemma {:induction false} EncodedDescShape(cells: seq<int>)
    requires |cells| >= 1
    ensures DescChars(DescOf(cells)) && CommaCount(DescOf(cells)) + 1 == |cells|
  {
    var k := |cells| - 1;
    var f := Field(cells[k]);
    FieldShape(cells[k]);
    if k > 0 {
      EncodedDescShape(cells[..k]);
      var a := DescOf(cells[..k]);
      JoinShape(a, f);
    }
  }

  /**
   * A number above 255 passes validation but is stored modulo 256: on a
   * 2 x 2 grid "300,0,0,0" gives a square holding 44.
   */
  lemma LargeNumberWraps(d: string)
    requires d == "300,0,0,0"
    ensures DecodeDesc(d) == [44, 0, 0, 0]
    ensures DescError(4, d) == None
  {
    var ds, rest := "300", ZeroTail(3);
    ZeroTailThree(rest);
    assert d == ds + rest;
    LargeNumberScan(ds, rest);
    DescCharsAppend(ds, rest);
  }

  /** "300" then three ",0" fields: 44 and three blanks. */
  lemma LargeNumberScan(ds: string, rest: string)
    requires ds == "300" && rest == ZeroTail(3)
    ensures Scan(ds + rest, [0]) == [44, 0, 0, 0]
  {
    ThreeHundred(ds);
    ScanNumberThen(ds, rest, [0]);
    assert [0][..0] + [AsNumber(300)] == [44];
    ThreeBlanks(rest);
  }

  lemma DescCharsAppend(a: string, b: string)
    requires forall i :: 0 <= i < |a| ==> IsDigit(a[i])
    requires b == ",0,0,0"
    ensures DescChars(a + b)
  {
  }

  /** The digits "300" are the number 300. */
  lemma ThreeHundred(ds: string)
    requires ds == "300"
    ensures forall i :: 0 <= i < |ds| ==> IsDigit(ds[i])
    ensures DigitsValue(ds) == 300
  {
    var t, o := ds[..2], ds[..1];
    assert o == "3" && t == "30" && t[..1] == o;
    assert DigitsValue(o) == 3;
    assert DigitsValue(t) == 30;
  }

  /** A number followed by anything but a digit sets the current square and the scan goes on after it. */
  lemma ScanNumberThen(ds: string, rest: string, cells: seq<int>)
    requires |ds| >= 1 && forall i :: 0 <= i < |ds| ==> IsDigit(ds[i])
    requires '1' <= ds[0] <= '9'
    requires rest == [] || !IsDigit(rest[0])
    requires |cells| >= 1
    ensures Scan(ds + rest, cells) == Scan(rest, cells[..|cells| - 1] + [AsNumber(DigitsValue(ds))])
  {
    ReadNumber(ds, rest);
    ScanNumber(ds + rest, cells);
  }

  lemma ThreeBlanks(t: string)
    requires t == ZeroTail(3)
    ensures Scan(t, [44]) == [44, 0, 0, 0]
  {
    ZeroFields(3, [44]);
    assert [44] + seq(3, _ => 0) == [44, 0, 0, 0];
  }

  lemma ZeroTailThree(t: string)
    requires t == ZeroTail(3)
    ensures t == ",0,0,0"
  {
    assert ZeroTail(1) == ",0" + "";
    assert ZeroTail(2) == ",0" + ",0";
  }

  /** n fields ",0" after the current square. */
  function ZeroTail(n: nat): string
  {
    if n == 0 then "" else ",0" + ZeroTail(n - 1)
  }

  /** Each ",0" adds a blank square: the digit 0 starts no number. */
  lemma {:induction false} ZeroFields(n: nat, cells: seq<int>)
    requires |cells| >= 1
    ensures Scan(ZeroTail(n), cells) == cells + seq(n, _ => 0)
  {
    if n > 0 {
      var t := ZeroTail(n);
      assert t[1..] == "0" + ZeroTail(n - 1) && t[1..][1..] == ZeroTail(n - 1);
      ZeroFields(n - 1, cells + [0]);
      assert cells + [0] + seq(n - 1, _ => 0) == cells + seq(n, _ => 0);
    } else {
      assert cells + seq(0, _ => 0) == cells;
    }
  }

  lemma FieldShape(d: int)
    ensures DescChars(Field(d)) && CommaCount(Field(d)) == 0
  {
    var f := Field(d);
    if 10 <= d <= NumberMax {
      var t, o := DigitChar(d / 10), DigitChar(d % 10);
      assert f == [t, o];
      assert f[1..] == [o] && f[1..][1..] == [];
      assert CommaCount([o]) == 0;
    } else if 1 <= d <= 9 {
      assert f[1..] == [];
    }
  }

  lemma JoinShape(a: string, f: string)
    requires DescChars(a) && DescChars(f)
    ensures DescChars(a + "," + f) && CommaCount(a + "," + f) == CommaCount(a) + 1 + CommaCount(f)
  {
    assert a + "," + f == a + ([','] + f);
    CommaCountAppend(a, [','] + f);
  }
}
