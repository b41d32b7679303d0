/**
 * Game parameters of the Hamilton puzzle (hamilton.c, "Game parameters"):
 * the parameter record, its validation, and the parameter string codec
 * ("7x7", "5x6ok", "9x9pr" with "pa"/"p2"/"pr"/"pb" for the clue pattern and
 * "de"/"dh" for the difficulty). The decoder advances a cursor through the
 * string as the source does; it is proved against a recursive reading of the
 * same string, and the round trip decode(encode(p)) == p is proved on that.
 */
module GameParams {
  import opened Wrappers
  import opened Geometry

  /** Smallest side of a grid (SIDE_MIN). */
  const SideMin := 2

  /** Clue patterns: random, 2-way rotational symmetry, ring, border. */
  const PattNone := 0
  const PattRot2 := 1
  const PattRing := 2
  const PattBorder := 3

  /** Difficulty levels, and their count (DIFF_COUNT). */
  const DiffEasy := 0
  const DiffHard := 1
  const DiffCount := 2

  datatype Params = Params(w: int, h: int, diagonal: bool, keepEnds: bool, pattern: int, difficulty: int)

  /** default_params: 7 x 7, no diagonals, no kept ends, symmetric, easy. */
  function DefaultParams(): (p: Params)
    ensures p.w == p.h == 7 && !p.diagonal && !p.keepEnds
    ensures p.pattern == PattRot2 && p.difficulty == DiffEasy
  {
    Params(7, 7, false, false, PattRot2, DiffEasy)
  }

  // ---------------------------------------------------------------------
  // Validation
  // ---------------------------------------------------------------------

  const TooSmall := "Both dimensions must be at least 2"
  const TooLarge := "Dimensions greater than 254 are not supported"
  const TooManySymbols := "Unable to support more than 99 distinct symbols in a puzzle"
  const UnknownDifficulty := "Unknown difficulty rating"

  /** Parameters the game accepts: both sides 2 .. 254, at most NumberMax squares, a known difficulty. */
  predicate ParamsOk(p: Params)
  {
    SideMin <= p.w <= CoordMax && SideMin <= p.h <= CoordMax && p.w * p.h <= NumberMax
    && 0 <= p.difficulty < DiffCount
  }

  /** game_validate_params: the first failed check's message, None when all pass. */
  function ValidateParams(p: Params): (r: Option<string>)
    ensures r.None? <==> ParamsOk(p)
    ensures r.Some? ==> r.value in {TooSmall, TooLarge, TooManySymbols, UnknownDifficulty}
    ensures p.w < SideMin || p.h < SideMin ==> r == Some(TooSmall)
  {
    if p.w < SideMin || p.h < SideMin then Some(TooSmall)
    else if p.w > CoordMax || p.h > CoordMax then Some(TooLarge)
    else if p.w * p.h > NumberMax then Some(TooManySymbols)
    else if p.difficulty < 0 || p.difficulty >= DiffCount then Some(UnknownDifficulty)
    else None
  }

  // ---------------------------------------------------------------------
  // Decimal numbers
  // ---------------------------------------------------------------------

  predicate IsDigit(c: char)
  {
    '0' <= c <= '9'
  }

  function DigitValue(c: char): int
    requires IsDigit(c)
  {
    c as int - '0' as int
  }

  function DigitChar(d: int): (c: char)
    requires 0 <= d <= 9
    ensures IsDigit(c) && DigitValue(c) == d
  {
    ('0' as int + d) as char
  }

  /** The decimal digits of n, most significant first, without leading zeros ("0" for 0). */
  function NatDigits(n: nat): (s: string)
    ensures |s| >= 1 && forall i :: 0 <= i < |s| ==> IsDigit(s[i])
    decreases n
  {
    if n < 10 then [DigitChar(n)] else NatDigits(n / 10) + [DigitChar(n % 10)]
  }

  /** The value of a string of decimal digits. */
  function DigitsValue(s: string): (v: nat)
    requires forall i :: 0 <= i < |s| ==> IsDigit(s[i])
  {
    if s == [] then 0 else 10 * DigitsValue(s[..|s| - 1]) + DigitValue(s[|s| - 1])
  }

  lemma {:induction false} NatDigitsValue(n: nat)
    ensures DigitsValue(NatDigits(n)) == n
    decreases n
  {
    if n >= 10 {
      NatDigitsValue(n / 10);
      var s := NatDigits(n);
      assert s[..|s| - 1] == NatDigits(n / 10);
    }
  }

  /** sprintf's "%d": an optional minus sign and the digits of the magnitude. */
  function IntToString(n: int): string
  {
    if n < 0 then "-" + NatDigits(-n) else NatDigits(n)
  }

  /** The length of the run of digits at the start of s. */
  function DigitRun(s: string): (n: nat)
    ensures n <= |s| && (n < |s| ==> !IsDigit(s[n]))
  {
    if s == [] || !IsDigit(s[0]) then 0 else 1 + DigitRun(s[1..])
  }

  lemma {:induction false} DigitRunIsDigits(s: string)
    ensures forall i :: 0 <= i < DigitRun(s) ==> IsDigit(s[i])
  {
    if s != [] && IsDigit(s[0]) {
      DigitRunIsDigits(s[1..]);
    }
  }

  lemma {:induction false} DigitRunOfDigits(s: string, t: string)
    requires forall i :: 0 <= i < |s| ==> IsDigit(s[i])
    requires t == [] || !IsDigit(t[0])
    ensures DigitRun(s + t) == |s|
  {
    if s != [] {
      DigitRunOfDigits(s[1..], t);
      assert (s + t)[1..] == s[1..] + t;
    }
  }

  predicate IsSpace(c: char)
  {
    c == ' ' || c == '\t' || c == '\n' || c == 11 as char || c == 12 as char || c == '\r'
  }

  /** The length of the run of white space at the start of s. */
  function SpaceRun(s: string): (n: nat)
    ensures n <= |s| && (n < |s| ==> !IsSpace(s[n]))
  {
    if s == [] || !IsSpace(s[0]) then 0 else 1 + SpaceRun(s[1..])
  }

  /**
   * atoi: skip white space, read an optional sign and then digits; 0 when
   * no sign or digit follows the white space, and never negative without
   * a minus sign.
   */
  function Atoi(s: string): (r: int)
    ensures var t := s[SpaceRun(s)..]; (t == [] || !(IsDigit(t[0]) || t[0] == '-' || t[0] == '+')) ==> r == 0
    ensures var t := s[SpaceRun(s)..]; (t == [] || t[0] != '-') ==> r >= 0
  {
    var t := s[SpaceRun(s)..];
    if t != [] && (t[0] == '-' || t[0] == '+') then
      var n := DigitRun(t[1..]);
      DigitRunIsDigits(t[1..]);
      var v: int := DigitsValue(t[1..][..n]);
      if t[0] == '-' then -v else v
    else
      DigitRunIsDigits(t);
      DigitsValue(t[..DigitRun(t)])
  }

  /** atoi of a string that starts with its digits reads exactly those digits. */
  lemma AtoiDigits(s: string, t: string)
    requires |s| >= 1 && forall i :: 0 <= i < |s| ==> IsDigit(s[i])
    requires t == [] || !IsDigit(t[0])
    ensures Atoi(s + t) == DigitsValue(s)
  {
    assert SpaceRun(s + t) == 0 by { assert !IsSpace((s + t)[0]); }
    DigitRunOfDigits(s, t);
    assert (s + t)[..|s|] == s;
  }

  // ---------------------------------------------------------------------
  // Encoding
  // ---------------------------------------------------------------------

  function PatternCode(pattern: int): string
  {
    if pattern == PattNone then "pa"
    else if pattern == PattRing then "pr"
    else if pattern == PattBorder then "pb"
    else ""
  }

  function DifficultyCode(difficulty: int): string
  {
    if difficulty == DiffHard then "dh" else ""
  }

  /**
   * game_encode_params: "<w>x<h>", "o" for diagonal moves and, when full,
   * "k" for kept ends, the pattern code and the difficulty code; the
   * defaults (symmetric pattern, easy) are left out.
   */
  function EncodeParams(p: Params, full: bool): (r: string)
    ensures 0 <= p.w && 0 <= p.h && !full ==> forall i :: 0 <= i < |r| ==> IsDigit(r[i]) || r[i] == 'x' || r[i] == 'o'
  {
    IntToString(p.w) + "x" + IntToString(p.h) + OptionLetters(p, full)
  }

  /** The option letters after the size. */
  function OptionLetters(p: Params, full: bool): string
  {
    (if p.diagonal then "o" else "")
    + (if full then (if p.keepEnds then "k" else "") + PatternCode(p.pattern) + DifficultyCode(p.difficulty) else "")
  }

  // ---------------------------------------------------------------------
  // Decoding
  // ---------------------------------------------------------------------

  /** The pattern letter after 'p'; an unknown letter leaves the pattern as it was. */
  function WithPattern(p: Params, c: char): Params
  {
    if c == 'a' then p.(pattern := PattNone)
    else if c == '2' then p.(pattern := PattRot2)
    else if c == 'r' then p.(pattern := PattRing)
    else if c == 'b' then p.(pattern := PattBorder)
    else p
  }

  /** The difficulty letter after 'd'; an unknown letter leaves the difficulty as it was. */
  function WithDifficulty(p: Params, c: char): Params
  {
    if c == 'e' then p.(difficulty := DiffEasy)
    else if c == 'h' then p.(difficulty := DiffHard)
    else p
  }

  /**
   * The option letters after the size, read from the front: 'o' and 'k'
   * switch on diagonal moves and kept ends, 'p' and 'd' take the next
   * character as the pattern or difficulty letter, and anything else is
   * skipped. A 'p' or 'd' with nothing after it ends the reading.
   */
  function Options(s: string, p: Params): (r: Params)
    ensures r.w == p.w && r.h == p.h
    ensures p.diagonal ==> r.diagonal
    ensures p.keepEnds ==> r.keepEnds
    decreases |s|
  {
    if s == [] then p
    else if s[0] == 'o' then Options(s[1..], p.(diagonal := true))
    else if s[0] == 'k' then Options(s[1..], p.(keepEnds := true))
    else if s[0] == 'p' then (if |s| == 1 then p else Options(s[2..], WithPattern(p, s[1])))
    else if s[0] == 'd' then (if |s| == 1 then p else Options(s[2..], WithDifficulty(p, s[1])))
    else Options(s[1..], p)
  }

  /** Where the option letters begin: after the first number and, when an 'x' follows it, the second. */
  function SizeEnd(s: string): (i: nat)
    ensures i <= |s|
  {
    var i := DigitRun(s);
    if i < |s| && s[i] == 'x' then i + 1 + DigitRun(s[i + 1..]) else i
  }

  /**
   * The parameters a string describes, starting from the defaults: the
   * width is the number at the front, and the height too unless an 'x'
   * and a second number follow it.
   */
  function ReadParams(s: string): (r: Params)
    ensures r.w == Atoi(s)
    ensures (DigitRun(s) == |s| || s[DigitRun(s)] != 'x') ==> r.h == r.w
  {
    Options(s[SizeEnd(s)..], ReadSizeOf(s))
  }

  /** The defaults with the size at the front of s: one number for both sides, or "<w>x<h>". */
  function ReadSizeOf(s: string): Params
  {
    var n := Atoi(s);
    var i := DigitRun(s);
    if i < |s| && s[i] == 'x' then DefaultParams().(w := n, h := Atoi(s[i + 1..]))
    else DefaultParams().(w := n, h := n)
  }

  /** The index just past the run of digits that starts at i. */
  method SkipDigits(s: string, i: nat) returns (j: nat)
    requires i <= |s|
    ensures j == i + DigitRun(s[i..])
  {
    j := i;
    while j < |s| && IsDigit(s[j])
      invariant i <= j <= |s|
      invariant DigitRun(s[i..]) == (j - i) + DigitRun(s[j..])
    {
      assert s[j..][1..] == s[j + 1..];
      j := j + 1;
    }
  }

  /** game_decode_params, advancing a cursor through the string. */
  method DecodeParams(s: string) returns (p: Params)
    ensures p == ReadParams(s)
  {
    p := DefaultParams();
    var n := Atoi(s);
    p := p.(w := n, h := n);
    var i := SkipDigits(s, 0);
    assert s[0..] == s;
    if i < |s| && s[i] == 'x' {
      i := i + 1;
      p := p.(h := Atoi(s[i..]));
      i := SkipDigits(s, i);
      assert i == SizeEnd(s);
      assert p == ReadSizeOf(s);
    } else {
      assert i == SizeEnd(s);
      assert p == ReadSizeOf(s);
    }
    p := DecodeOptions(s, i, p);
  }

  /** The option loop of game_decode_params, from index i to the end of the string. */
  method DecodeOptions(s: string, i0: nat, p0: Params) returns (p: Params)
    requires i0 <= |s|
    ensures p == Options(s[i0..], p0)
  {
    var i := i0;
    p := p0;
    while i < |s|
      invariant i0 <= i <= |s|
      invariant Options(s[i..], p) == Options(s[i0..], p0)
      decreases |s| - i
    {
      var c := s[i];
      ghost var rest := s[i..];
      i := i + 1;
      if c == 'o' {
        assert rest[1..] == s[i..];
        p := p.(diagonal := true);
      } else if c == 'k' {
        assert rest[1..] == s[i..];
        p := p.(keepEnds := true);
      } else if c == 'p' {
        if i < |s| {
          c := s[i];
          i := i + 1;
          assert rest[2..] == s[i..];
          if c == 'a' {
            p := p.(pattern := PattNone);
          } else if c == '2' {
            p := p.(pattern := PattRot2);
          } else if c == 'r' {
            p := p.(pattern := PattRing);
          } else if c == 'b' {
            p := p.(pattern := PattBorder);
          }
        }
      } else if c == 'd' {
        if i < |s| {
          c := s[i];
          i := i + 1;
          assert rest[2..] == s[i..];
          if c == 'e' {
            p := p.(difficulty := DiffEasy);
          } else if c == 'h' {
            p := p.(difficulty := DiffHard);
          }
        }
      } else {
        assert rest[1..] == s[i..];
      }
    }
  }

  // ---------------------------------------------------------------------
  // Round trip
  // ---------------------------------------------------------------------

  /** The option letters the encoder writes read back as the fields they encode. */
  lemma OptionsOfEncoding(p: Params, full: bool, base: Params)
    requires 0 <= p.pattern <= PattBorder && 0 <= p.difficulty < DiffCount
    requires base.pattern == PattRot2 && base.difficulty == DiffEasy && !base.diagonal && !base.keepEnds
    ensures Options(OptionLetters(p, full), base)
            == if full then base.(diagonal := p.diagonal, keepEnds := p.keepEnds, pattern := p.pattern, difficulty := p.difficulty)
               else base.(diagonal := p.diagonal)
  {
    var tail := (if p.keepEnds then "k" else "") + PatternCode(p.pattern) + DifficultyCode(p.difficulty);
    var b1 := base.(diagonal := p.diagonal);
    OptionsFlag(p.diagonal, 'o', if full then tail else "", base);
    if full {
      var b2 := b1.(keepEnds := p.keepEnds);
      var b3 := b2.(pattern := p.pattern);
      assert tail == (if p.keepEnds then "k" else "") + (PatternCode(p.pattern) + DifficultyCode(p.difficulty));
      OptionsFlag(p.keepEnds, 'k', PatternCode(p.pattern) + DifficultyCode(p.difficulty), b1);
      OptionsPatternCode(p.pattern, DifficultyCode(p.difficulty), b2);
      OptionsDifficultyCode(p.difficulty, b3);
    }
  }

  /** An 'o' or 'k' in front of the rest of the letters sets its flag. */
  lemma OptionsFlag(on: bool, c: char, rest: string, base: Params)
    requires c == 'o' || c == 'k'
    ensures Options((if on then [c] else "") + rest, base)
            == Options(rest, if !on then base else if c == 'o' then base.(diagonal := true) else base.(keepEnds := true))
  {
    if on {
      assert ([c] + rest)[1..] == rest;
    } else {
      assert "" + rest == rest;
    }
  }

  /** The pattern code in front of the rest of the letters sets the pattern it encodes. */
  lemma OptionsPatternCode(pattern: int, rest: string, base: Params)
    requires 0 <= pattern <= PattBorder && base.pattern == PattRot2
    ensures Options(PatternCode(pattern) + rest, base) == Options(rest, base.(pattern := pattern))
  {
    if PatternCode(pattern) != "" {
      assert (PatternCode(pattern) + rest)[2..] == rest;
    } else {
      assert PatternCode(pattern) + rest == rest;
    }
  }

  /** The difficulty code alone sets the difficulty it encodes. */
  lemma OptionsDifficultyCode(difficulty: int, base: Params)
    requires 0 <= difficulty < DiffCount && base.difficulty == DiffEasy
    ensures Options(DifficultyCode(difficulty), base) == base.(difficulty := difficulty)
  {
    if DifficultyCode(difficulty) != "" {
      assert DifficultyCode(difficulty)[2..] == "";
    }
  }

  /**
   * Decoding the full encoding of valid parameters with a known pattern
   * gives them back; the short encoding gives back the size and diagonal
   * setting, with the defaults for the rest.
   */
  lemma DecodeEncode(p: Params, full: bool)
    requires ParamsOk(p) && 0 <= p.pattern <= PattBorder
    ensures ReadParams(EncodeParams(p, full))
            == if full then p else DefaultParams().(w := p.w, h := p.h, diagonal := p.diagonal)
  {
    var opts := OptionLetters(p, full);
    assert opts == [] || !IsDigit(opts[0]);
    NatDigitsValue(p.w);
    NatDigitsValue(p.h);
    ReadSize(NatDigits(p.w), NatDigits(p.h), opts);
    assert EncodeParams(p, full) == NatDigits(p.w) + "x" + NatDigits(p.h) + opts;
    OptionsOfEncoding(p, full, DefaultParams().(w := p.w, h := p.h));
  }

  /** A string "<digits>x<digits><options>" reads as that size followed by those options. */
  lemma ReadSize(ws: string, hs: string, opts: string)
    requires |ws| >= 1 && forall i :: 0 <= i < |ws| ==> IsDigit(ws[i])
    requires |hs| >= 1 && forall i :: 0 <= i < |hs| ==> IsDigit(hs[i])
    requires opts == [] || !IsDigit(opts[0])
    ensures var s := ws + "x" + hs + opts;
            s[SizeEnd(s)..] == opts && ReadSizeOf(s) == DefaultParams().(w := DigitsValue(ws), h := DigitsValue(hs))
  {
    var s := ws + "x" + hs + opts;
    var rest := "x" + hs + opts;
    assert s == ws + rest;
    ReadNumber(ws, rest);
    ReadSecond(ws, rest, hs, opts);
  }

  /** The second number of "<w>x<h><options>", once the first has been read. */
  lemma ReadSecond(ws: string, rest: string, hs: string, opts: string)
    requires DigitRun(ws + rest) == |ws| && (ws + rest)[|ws|..] == rest
    requires rest == "x" + hs + opts
    requires |hs| >= 1 && forall i :: 0 <= i < |hs| ==> IsDigit(hs[i])
    requires opts == [] || !IsDigit(opts[0])
    ensures SizeEnd(ws + rest) == |ws| + 1 + |hs| && (ws + rest)[|ws| + 1..] == hs + opts
    ensures Atoi((ws + rest)[|ws| + 1..]) == DigitsValue(hs)
    ensures (ws + rest)[|ws| + 1 + |hs|..] == opts
  {
    var s := ws + rest;
    var after := hs + opts;
    assert rest == ['x'] + after;
    assert s[|ws| + 1..] == after by {
      assert rest[1..] == after;
      assert s[|ws| + 1..] == rest[1..];
    }
    assert s[|ws|] == 'x' by {
      assert s[|ws|] == rest[0];
    }
    ReadNumber(hs, opts);
    assert SizeEnd(s) == |ws| + 1 + DigitRun(after);
    assert s[|ws| + 1 + |hs|..] == after[|hs|..];
  }

  /** A string that starts with a run of digits: atoi reads them and the rest follows them. */
  lemma ReadNumber(ds: string, rest: string)
    requires |ds| >= 1 && forall i :: 0 <= i < |ds| ==> IsDigit(ds[i])
    requires rest == [] || !IsDigit(rest[0])
    ensures Atoi(ds + rest) == DigitsValue(ds) && DigitRun(ds + rest) == |ds|
    ensures (ds + rest)[|ds|..] == rest
  {
    AtoiDigits(ds, rest);
    DigitRunOfDigits(ds, rest);
  }

  // ---------------------------------------------------------------------
  // Reading past the end of the string
  // ---------------------------------------------------------------------

  /**
   * Where the source's cursor stands after the option letter at i: one
   * past it, or, after 'p' and 'd', two past it even when the letter was
   * the last character, so that the loop's next test reads the byte after
   * the terminating NUL.
   */
  function CursorAfterOptionAsWritten(s: string, i: nat): nat
    requires i < |s|
  {
    if s[i] == 'p' || s[i] == 'd' then i + 2 else i + 1
  }

  /** "7p": the cursor passes the NUL at index 2 and the loop reads index 3. */
  lemma DecodeReadsPastEnd()
    ensures var s := "7p"; SizeEnd(s) == 1 && CursorAfterOptionAsWritten(s, 1) == |s| + 1
  {
    assert DigitRun("7p") == 1 by {
      assert "7p"[1..] == "p";
    }
  }
}
