/**
 * The move input of src/main.rs: `parse_move` reads two characters as two digits
 * in radix 16 (the board size plus one), and the main loop turns the 1-based
 * digits into a 0-based move, sending the digit 0 off the board.  Characters are
 * Unicode scalar values; the length check of the source counts UTF-8 bytes.
 */
module MoveInput {
  import opened Wrappers
  import opened Cells
  import opened BoardSpec

  const WIDTH: nat := 15
  const HEIGHT: nat := 15

  /** The two error messages of parse_move. */
  datatype ParseError = NotTwoCharacters | NotTwoNumbers

  /** What parse_move as written does with an input: a result, or a panic. */
  datatype Outcome = Parsed(result: Result<(nat, nat), ParseError>) | Panic

  /** The number of bytes of a character in UTF-8. */
  function Utf8Len(c: char): nat {
    if c as int < 0x80 then 1
    else if c as int < 0x800 then 2
    else if c as int < 0x1_0000 then 3
    else 4
  }

  /** `str::len`: the number of UTF-8 bytes of a string. */
  function ByteLen(s: string): nat {
    if s == [] then 0 else ByteLen(s[..|s| - 1]) + Utf8Len(s[|s| - 1])
  }

  /** A string has at least one byte per character, and exactly one per character
      only when every character is ASCII. */
  lemma {:induction false} ByteLenBounds(s: string)
    ensures |s| <= ByteLen(s)
    ensures ByteLen(s) == |s| <==> forall i :: 0 <= i < |s| ==> s[i] as int < 0x80
  {
    if s != [] {
      var init := s[..|s| - 1];
      ByteLenBounds(init);
      assert forall i :: 0 <= i < |init| ==> init[i] == s[i];
    }
  }

  /** `char::to_digit`: '0'-'9' and then the letters, in either case, stand for
      the digits 0 to 35; a digit counts only below the radix. */
  function ToDigit(c: char, radix: nat): Option<nat>
    requires 2 <= radix <= 36
  {
    var d :=
      if '0' <= c <= '9' then c as int - '0' as int
      else if 'a' <= c <= 'z' then c as int - 'a' as int + 10
      else if 'A' <= c <= 'Z' then c as int - 'A' as int + 10
      else radix;
    if d < radix then Some(d) else None
  }

  /** The character of digit d, lower case for the letters. */
  function DigitChar(d: nat): char
    requires d < 36
  {
    if d < 10 then ('0' as int + d) as char else ('a' as int + d - 10) as char
  }

  /** The upper-case character of a letter digit. */
  function UpperDigitChar(d: nat): char
    requires 10 <= d < 36
  {
    ('A' as int + d - 10) as char
  }

  /** A character is a digit of the radix exactly when it is that digit's
      character, in lower or upper case. */
  lemma ToDigitSpec(c: char, radix: nat, d: nat)
    requires 2 <= radix <= 36
    ensures ToDigit(c, radix) == Some(d) <==>
              d < radix && (c == DigitChar(d) || (10 <= d && c == UpperDigitChar(d)))
  {
  }

  /** Every digit of the radix has a character that reads back as it. */
  lemma DigitRoundTrip(d: nat, radix: nat)
    requires 2 <= radix <= 36 && d < radix
    ensures ToDigit(DigitChar(d), radix) == Some(d)
  {
    ToDigitSpec(DigitChar(d), radix, d);
  }

  /** parse_move as written: the byte-length check, then both characters read as
      digits.  A single two-byte character passes the check and has no second
      character to read. */
  function ParseMoveAsWritten(cmd: string): Outcome {
    if ByteLen(cmd) != 2 then Parsed(Err(NotTwoCharacters))
    else if |cmd| < 2 then Panic
    else
      match (ToDigit(cmd[0], WIDTH + 1), ToDigit(cmd[1], HEIGHT + 1))
      case (Some(n1), Some(n2)) => Parsed(Ok((n1, n2)))
      case _ => Parsed(Err(NotTwoNumbers))
  }

  /** The input "é", one character of two bytes, makes parse_move panic. */
  lemma ParseMoveAsWrittenPanics()
    ensures ParseMoveAsWritten(['\U{E9}']) == Panic
  {
    assert ['\U{E9}'][..0] == [];
  }

  /** It panics on exactly the inputs made of one two-byte character. */
  lemma ParseMoveAsWrittenPanicsExactly(cmd: string)
    ensures ParseMoveAsWritten(cmd) == Panic <==> |cmd| == 1 && Utf8Len(cmd[0]) == 2
  {
    ByteLenBounds(cmd);
    if |cmd| == 1 {
      assert cmd[..0] == [];
    }
  }

  /** parse_move as intended: exactly two characters, each a digit of radix 16. */
  function ParseMove(cmd: string): Result<(nat, nat), ParseError> {
    if |cmd| != 2 then Err(NotTwoCharacters)
    else
      match (ToDigit(cmd[0], WIDTH + 1), ToDigit(cmd[1], HEIGHT + 1))
      case (Some(n1), Some(n2)) => Ok((n1, n2))
      case _ => Err(NotTwoNumbers)
  }

  /** The corrected parser accepts exactly what the original accepts, with the same
      digits, and reports the wrong length exactly for inputs not of two
      characters. */
  lemma ParseMoveAgrees(cmd: string, v: (nat, nat))
    ensures ParseMove(cmd) == Ok(v) <==> ParseMoveAsWritten(cmd) == Parsed(Ok(v))
    ensures ParseMove(cmd) == Err(NotTwoCharacters) <==> |cmd| != 2
  {
    ByteLenBounds(cmd);
    if |cmd| == 2 && ToDigit(cmd[0], WIDTH + 1).Some? && ToDigit(cmd[1], HEIGHT + 1).Some? {
      ToDigitSpec(cmd[0], WIDTH + 1, ToDigit(cmd[0], WIDTH + 1).value);
      ToDigitSpec(cmd[1], HEIGHT + 1, ToDigit(cmd[1], HEIGHT + 1).value);
      assert forall i :: 0 <= i < |cmd| ==> cmd[i] as int < 0x80;
    }
  }

  /** A parsed move is two digits below 16, each read from its character. */
  lemma ParseMoveSpec(cmd: string)
    ensures ParseMove(cmd).Ok? ==>
              var (a, b) := ParseMove(cmd).value;
              && |cmd| == 2 && a <= WIDTH && b <= HEIGHT
              && (cmd[0] == DigitChar(a) || (10 <= a && cmd[0] == UpperDigitChar(a)))
              && (cmd[1] == DigitChar(b) || (10 <= b && cmd[1] == UpperDigitChar(b)))
  {
    if ParseMove(cmd).Ok? {
      var (a, b) := ParseMove(cmd).value;
      ToDigitSpec(cmd[0], WIDTH + 1, a);
      ToDigitSpec(cmd[1], HEIGHT + 1, b);
    }
  }

  /** `checked_sub(1).unwrap_or(limit)`: one less, or the limit for 0. */
  function OneBased(n: nat, limit: nat): nat {
    if n >= 1 then n - 1 else limit
  }

  /** The move the main loop makes of the two parsed digits. */
  function ToMove(digits: (nat, nat)): Move {
    Move(OneBased(digits.0, WIDTH), OneBased(digits.1, HEIGHT))
  }

  /** Every cell of the 15 by 15 board can be typed: its 1-based digits parse and
      convert back to it. */
  lemma EveryCellTypable(x: nat, y: nat)
    requires x < WIDTH && y < HEIGHT
    ensures ParseMove([DigitChar(x + 1), DigitChar(y + 1)]) == Ok((x + 1, y + 1))
    ensures ToMove((x + 1, y + 1)) == Move(x, y)
  {
    DigitRoundTrip(x + 1, WIDTH + 1);
    DigitRoundTrip(y + 1, HEIGHT + 1);
  }

  /** On the 15 by 15 board, placing a converted move is refused as out of bounds
      exactly when one of the digits is 0; every other parsed move is on the
      board. */
  lemma ZeroDigitIsOffBoard(s: BoardState, a: nat, b: nat)
    requires Shaped(s) && s.width == WIDTH && s.height == HEIGHT
    requires a <= WIDTH && b <= HEIGHT
    ensures TryPlace(s, ToMove((a, b))) == Err(OutOfBounds) <==> a == 0 || b == 0
  {
    PlaceSpec(s, ToMove((a, b)));
  }
}
