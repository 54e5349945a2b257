/** What quoted pathnames look like and what they stand for, character by character (git_paths.py:112-182). */
module GitPathMeaning {
  import opened Wrappers
  import opened Bytes
  import opened GitPaths

  predicate Is(b: Byte, c: char) {
    b == c as int
  }

  // ------------------------------------------------------------------ the printer

  /** The number that octal digits write. */
  function OctalOf(digits: seq<Byte>): int {
    if digits == [] then 0 else OctalOf(digits[..|digits| - 1]) * 8 + (digits[|digits| - 1] - '0' as int)
  }

  predicate OctalDigits(text: seq<Byte>) {
    forall i :: 0 <= i < |text| ==> '0' as int <= text[i] <= '7' as int
  }

  /** How one byte is written between quotes. */
  predicate WrittenAs(b: Byte, text: seq<Byte>) {
    if Is(b, '"') || Is(b, '\\') then |text| == 2 && Is(text[0], '\\') && text[1] == b
    else if Is(b, '\t') then |text| == 2 && Is(text[0], '\\') && Is(text[1], 't')
    else if Is(b, '\n') then |text| == 2 && Is(text[0], '\\') && Is(text[1], 'n')
    else if Is(b, '\r') then |text| == 2 && Is(text[0], '\\') && Is(text[1], 'r')
    else if ' ' as int <= b <= '~' as int then text == [b]
    else |text| == 4 && Is(text[0], '\\') && OctalDigits(text[1..]) && OctalOf(text[1..]) == b
  }

  lemma ThreeDigits(x: Byte, y: Byte, z: Byte)
    ensures OctalOf([x, y, z]) == (x - 48) * 64 + (y - 48) * 8 + (z - 48)
  {
    assert [x, y, z][..2] == [x, y] && [x, y][..1] == [x] && [x][..0] == [];
    assert OctalOf([x]) == x - 48;
    assert OctalOf([x, y]) == (x - 48) * 8 + (y - 48);
  }

  /** One byte has one three-digit octal number. */
  lemma DigitsAre(b: Byte, x: int, y: int, z: int)
    requires 0 <= x <= 7 && 0 <= y <= 7 && 0 <= z <= 7
    ensures x * 64 + y * 8 + z == b <==> x == b / 64 && y == (b / 8) % 8 && z == b % 8
  {
  }

  lemma OctalEscapeIs(b: Byte, text: seq<Byte>)
    requires |text| == 4
    ensures OctalDigits(text[1..]) && OctalOf(text[1..]) == b
       <==> text[1] == 48 + b / 64 && text[2] == 48 + (b / 8) % 8 && text[3] == 48 + b % 8
  {
    assert text[1..] == [text[1], text[2], text[3]];
    ThreeDigits(text[1], text[2], text[3]);
    hide OctalOf;
    if OctalDigits(text[1..]) {
      assert text[1..][0] == text[1] && text[1..][1] == text[2] && text[1..][2] == text[3];
      DigitsAre(b, text[1] - 48, text[2] - 48, text[3] - 48);
    }
  }

  /** Quotes, backslashes and three control characters get a short escape, other printing characters none, the rest three octal digits. */
  lemma EscapeIs(b: Byte, text: seq<Byte>)
    ensures Escape(b) == text <==> WrittenAs(b, text)
  {
    hide OctalOf, OctalDigits;
    if |text| == 4 {
      OctalEscapeIs(b, text);
      assert text == [text[0], text[1], text[2], text[3]];
    } else if |text| == 2 {
      assert text == [text[0], text[1]];
    }
  }

  /** A path goes without quotes exactly when it is made of printing characters other than space, quote and backslash. */
  lemma QuoteIs(path: seq<Byte>)
    ensures if path != [] && (forall i :: 0 <= i < |path| ==> ' ' as int < path[i] <= '~' as int && !Is(path[i], '"') && !Is(path[i], '\\'))
            then Quote(path) == path
            else Quote(path) == ['"' as int] + EscapeAll(path) + ['"' as int]
  {
    if path != [] && forall i :: 0 <= i < |path| ==> ' ' as int < path[i] <= '~' as int && !Is(path[i], '"') && !Is(path[i], '\\') {
      assert forall i :: 0 <= i < |path| ==> IsPlain(path[i]);
    }
  }

  // ------------------------------------------------------------------- the parser

  /** The characters that one letter behind a backslash stands for. */
  predicate Names(letter: Byte, b: Byte) {
    || (Is(letter, 'a') && b == 7) || (Is(letter, 'b') && b == 8) || (Is(letter, 't') && b == 9) || (Is(letter, 'n') && b == 10)
    || (Is(letter, 'v') && b == 11) || (Is(letter, 'f') && b == 12) || (Is(letter, 'r') && b == 13)
    || (Is(letter, '"') && Is(b, '"')) || (Is(letter, '\\') && Is(b, '\\'))
  }

  /** A piece of quoted text stands for a byte: itself, a short escape, or as many octal digits as there are, up to three. */
  predicate StandsFor(piece: seq<Byte>, b: Byte, next: Option<Byte>) {
    || (|piece| == 1 && !Is(piece[0], '\\') && b == piece[0])
    || (|piece| == 2 && Is(piece[0], '\\') && Names(piece[1], b))
    || IsOctalEscape(piece, b, next)
  }

  predicate IsOctalEscape(piece: seq<Byte>, b: Byte, next: Option<Byte>) {
    && 2 <= |piece| <= 4 && Is(piece[0], '\\') && OctalDigits(piece[1..]) && OctalOf(piece[1..]) == b
    && (|piece| == 4 || next.None? || !OctalDigits([next.value]))
  }

  /** The text up to the closing quote, piece by piece, stands for these bytes. */
  ghost predicate Reads(text: seq<Byte>, bytes: seq<Byte>)
    decreases |bytes|
  {
    if bytes == [] then text == []
    else exists n :: 1 <= n <= |text| && ReadsFirst(text, n, bytes[0]) && Reads(text[n..], bytes[1..])
  }

  predicate ReadsFirst(text: seq<Byte>, n: nat, b: Byte)
    requires n <= |text|
  {
    StandsFor(text[..n], b, if n < |text| then Some(text[n]) else None)
  }

  lemma NamesAre(letter: Byte, b: Byte)
    ensures NamedEscape(letter) == Some(b) <==> Names(letter, b)
    ensures NamedEscape(letter).Some? ==> !IsOctal(letter)
  {
  }

  lemma {:induction false} OctalEndIs(token: seq<Byte>, index: nat, limit: nat)
    requires index <= limit <= |token|
    ensures OctalEnd(token, index, limit) < limit ==> !IsOctal(token[OctalEnd(token, index, limit)])
    decreases limit - index
  {
    if index < limit && IsOctal(token[index]) {
      OctalEndIs(token, index + 1, limit);
    }
  }

  lemma {:induction false} OctalValueIs(token: seq<Byte>, from: nat, upto: nat)
    requires from <= upto <= |token| && forall i :: from <= i < upto ==> IsOctal(token[i])
    ensures OctalValue(token, from, upto) == OctalOf(token[from..upto])
    decreases upto - from
  {
    if from < upto {
      OctalValueIs(token, from, upto - 1);
      assert token[from..upto][..upto - from - 1] == token[from..upto - 1];
      assert IsOctal(token[upto - 1]);
    }
  }

  /** Where the first piece ends and what it stands for, if anything. */
  function FirstPiece(token: seq<Byte>, index: nat, end: nat): Option<(nat, int)>
    requires index < end <= |token|
  {
    if token[index] != BACKSLASH then Some((index + 1, token[index]))
    else if index + 1 == end then None
    else if NamedEscape(token[index + 1]).Some? then Some((index + 2, NamedEscape(token[index + 1]).value))
    else if IsOctal(token[index + 1]) then
      var octalEnd := OctalEnd(token, index + 1, if index + 4 < end then index + 4 else end);
      Some((octalEnd, OctalValue(token, index + 1, octalEnd)))
    else None
  }

  lemma DecodesFirst(token: seq<Byte>, index: nat, end: nat)
    requires index < end <= |token|
    ensures var first := FirstPiece(token, index, end);
      if first.None? || first.value.1 > 255 then DecodeFrom(token, index, end).Err?
      else
        && index < first.value.0 <= end && 0 <= first.value.1
        && DecodeFrom(token, index, end) == Prepend([first.value.1], DecodeFrom(token, first.value.0, end))
  {
    hide Prepend;
    if index + 1 < end && IsOctal(token[index + 1]) {
      assert OctalEnd(token, index + 1, if index + 4 < end then index + 4 else end) >= index + 2;
    }
  }

  /** A longest run of up to three octal digits behind the backslash. */
  lemma OctalPiece(token: seq<Byte>, index: nat, end: nat, n: nat, b: Byte)
    requires index + 1 < end <= |token| && token[index] == BACKSLASH && IsOctal(token[index + 1]) && 1 <= n <= end - index
    ensures var octalEnd := OctalEnd(token, index + 1, if index + 4 < end then index + 4 else end);
      IsOctalEscape(token[index..index + n], b, if index + n < end then Some(token[index + n]) else None) <==>
      index + n == octalEnd && b == OctalValue(token, index + 1, octalEnd)
  {
    var limit := if index + 4 < end then index + 4 else end;
    var octalEnd, upto := OctalEnd(token, index + 1, limit), index + n;
    assert octalEnd >= index + 2;
    OctalEndIs(token, index + 1, limit);
    assert token[index..upto][1..] == token[index + 1..upto];
    hide OctalOf, OctalValue, OctalEnd, OctalDigits;
    DigitsFrom(token, index + 1, upto);
    if upto < end {
      OneOctal(token[upto]);
    }
    if upto == octalEnd {
      OctalValueIs(token, index + 1, octalEnd);
    }
  }

  lemma DigitsFrom(token: seq<Byte>, from: nat, upto: nat)
    requires from <= upto <= |token|
    ensures OctalDigits(token[from..upto]) <==> forall i :: from <= i < upto ==> IsOctal(token[i])
  {
    forall i | from <= i < upto ensures token[i] == token[from..upto][i - from] {
    }
  }

  lemma OneOctal(b: Byte)
    ensures OctalDigits([b]) <==> IsOctal(b)
  {
    assert [b][0] == b;
  }

  /** The first piece is the one the parser takes. */
  lemma ReadsFirstPiece(token: seq<Byte>, index: nat, end: nat, n: nat, b: Byte)
    requires index < end <= |token| && 1 <= n <= end - index
    ensures ReadsFirst(token[index..end], n, b) <==> FirstPiece(token, index, end) == Some((index + n, b))
  {
    var piece, next := token[index..index + n], if index + n < end then Some(token[index + n]) else None;
    assert token[index..end][..n] == piece;
    assert piece[0] == token[index];
    if token[index] == BACKSLASH && index + 1 < end {
      NamesAre(token[index + 1], b);
      assert n >= 2 ==> piece[1] == token[index + 1];
      if IsOctal(token[index + 1]) {
        OctalPiece(token, index, end, n, b);
      } else if n >= 2 {
        assert piece[1..][0] == token[index + 1];
      }
    }
    hide OctalOf, OctalValue, OctalEnd;
  }

  /** Reading on from the one piece that the parser takes. */
  lemma ReadsOn(token: seq<Byte>, index: nat, end: nat, bytes: seq<Byte>)
    requires index < end <= |token| && bytes != []
    ensures var first := FirstPiece(token, index, end);
      Reads(token[index..end], bytes) <==>
      first.Some? && index < first.value.0 <= end && first.value.1 == bytes[0] && Reads(token[first.value.0..end], bytes[1..])
  {
    hide ReadsFirst, FirstPiece;
    var text, first := token[index..end], FirstPiece(token, index, end);
    forall n | 1 <= n <= |text|
      ensures ReadsFirst(text, n, bytes[0]) <==> first == Some((index + n, bytes[0]))
      ensures text[n..] == token[index + n..end]
    {
      ReadsFirstPiece(token, index, end, n, bytes[0]);
    }
    if first.Some? && index < first.value.0 <= end && first.value.1 == bytes[0] {
      var n := first.value.0 - index;
      assert text[n..] == token[first.value.0..end];
    }
  }

  /** The parser takes the quoted text piece by piece, and fails exactly when the pieces stand for nothing. */
  lemma {:induction false} DecodeReads(token: seq<Byte>, index: nat, end: nat, bytes: seq<Byte>)
    requires index <= end <= |token|
    ensures DecodeFrom(token, index, end) == Ok(bytes) <==> Reads(token[index..end], bytes)
    decreases |bytes|
  {
    if index == end {
      DecodeNothing(token, end);
      hide DecodeFrom, ReadsFirst;
    } else {
      hide DecodeFrom, FirstPiece, Prepend;
      DecodesFirst(token, index, end);
      var first := FirstPiece(token, index, end);
      if first.Some? && first.value.1 <= 255 {
        PrependIs(bytes, DecodeFrom(token, first.value.0, end), first.value.1);
        if bytes != [] {
          ReadsOn(token, index, end, bytes);
          DecodeReads(token, first.value.0, end, bytes[1..]);
        }
      } else if bytes != [] {
        ReadsOn(token, index, end, bytes);
      }
    }
  }

  lemma PrependIs(bytes: seq<Byte>, rest: Result<seq<Byte>, PathError>, b: Byte)
    ensures Prepend([b], rest) == Ok(bytes) <==> bytes != [] && bytes[0] == b && rest == Ok(bytes[1..])
  {
    if rest.Ok? {
      assert ([b] + rest.value)[1..] == rest.value;
    }
    if bytes != [] {
      assert bytes == [bytes[0]] + bytes[1..];
    }
  }

  /** A quoted token stands for the bytes of its pieces; other tokens stand for themselves, and an unclosed one for nothing. */
  lemma UnquoteIs(token: seq<Byte>, bytes: seq<Byte>)
    ensures if token == [] || !Is(token[0], '"') then Unquote(token) == Ok(token)
            else if |token| < 2 || !Is(token[|token| - 1], '"') then Unquote(token) == Err(Unterminated)
            else Unquote(token) == Ok(bytes) <==> Reads(token[1..|token| - 1], bytes)
  {
    if |token| >= 2 && token[0] == QUOTE && token[|token| - 1] == QUOTE {
      DecodeReads(token, 1, |token| - 1, bytes);
    }
    hide DecodeFrom, Reads;
  }
}
