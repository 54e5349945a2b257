/** Git's quoted pathnames and NUL-delimited records (git_paths.py). */
module GitPaths {
  import opened Wrappers
  import opened Bytes

  const QUOTE: Byte := 34
  const BACKSLASH: Byte := 92

  datatype PathError = Unterminated | IncompleteEscape | OctalOutsideByte | InvalidEscape | ExpectedQuote

  // ------------------------------------------------------------------- quoting

  /** A byte that stands for itself even in an unquoted token. */
  predicate IsPlain(b: Byte) {
    32 < b < 127 && b != QUOTE && b != BACKSLASH
  }

  /** How one byte is written inside quotes. */
  function Escape(b: Byte): (escaped: seq<Byte>)
    ensures escaped != []
  {
    if b == QUOTE then [BACKSLASH, QUOTE]
    else if b == BACKSLASH then [BACKSLASH, BACKSLASH]
    else if b == 9 then [BACKSLASH, 116]
    else if b == 10 then [BACKSLASH, 110]
    else if b == 13 then [BACKSLASH, 114]
    else if 32 <= b < 127 then [b]
    else [BACKSLASH, 48 + b / 64, 48 + (b / 8) % 8, 48 + b % 8]
  }

  function EscapeAll(path: seq<Byte>): seq<Byte> {
    if path == [] then [] else Escape(path[0]) + EscapeAll(path[1..])
  }

  predicate NeedsNoQuotes(path: seq<Byte>) {
    path != [] && forall i :: 0 <= i < |path| ==> IsPlain(path[i])
  }

  function Quote(path: seq<Byte>): seq<Byte> {
    if NeedsNoQuotes(path) then path else [QUOTE] + EscapeAll(path) + [QUOTE]
  }

  lemma {:induction false} EscapeNext(path: seq<Byte>, b: Byte)
    ensures EscapeAll(path + [b]) == EscapeAll(path) + Escape(b)
  {
    if path == [] {
      assert [] + [b] == [b] && [b][1..] == [];
      assert EscapeAll([b]) == Escape(b) + [];
    } else {
      EscapeNext(path[1..], b);
      assert (path + [b])[1..] == path[1..] + [b];
      assert Escape(path[0]) + (EscapeAll(path[1..]) + Escape(b)) == (Escape(path[0]) + EscapeAll(path[1..])) + Escape(b);
    }
  }

  /** Write a path byte by byte between quotes, unless it needs none. */
  method QuotePathToken(path: seq<Byte>) returns (token: seq<Byte>)
    ensures token == Quote(path)
  {
    hide EscapeAll;
    if NeedsNoQuotes(path) {
      return path;
    }
    token := [QUOTE];
    var i := 0;
    NothingEscaped();
    while i < |path|
      invariant 0 <= i <= |path| && token == [QUOTE] + EscapeAll(path[..i])
    {
      EscapeNext(path[..i], path[i]);
      assert path[..i + 1] == path[..i] + [path[i]];
      token := token + Escape(path[i]);
      i := i + 1;
    }
    assert path[..i] == path;
    token := token + [QUOTE];
  }

  lemma NothingEscaped()
    ensures [QUOTE] + EscapeAll([]) == [QUOTE]
  {
  }

  // ----------------------------------------------------------------- unquoting

  /** The byte that a one-letter escape stands for. */
  function NamedEscape(b: Byte): Option<Byte> {
    if b == 97 then Some(7)
    else if b == 98 then Some(8)
    else if b == 116 then Some(9)
    else if b == 110 then Some(10)
    else if b == 118 then Some(11)
    else if b == 102 then Some(12)
    else if b == 114 then Some(13)
    else if b == QUOTE then Some(QUOTE)
    else if b == BACKSLASH then Some(BACKSLASH)
    else None
  }

  predicate IsOctal(b: Byte) {
    48 <= b <= 55
  }

  /** The end of the octal digits that start at an index. */
  function OctalEnd(token: seq<Byte>, index: nat, limit: nat): (end: nat)
    requires index <= limit <= |token|
    ensures index <= end <= limit
    ensures forall i :: index <= i < end ==> IsOctal(token[i])
    decreases limit - index
  {
    if index < limit && IsOctal(token[index]) then OctalEnd(token, index + 1, limit) else index
  }

  function OctalValue(token: seq<Byte>, from: nat, upto: nat): nat
    requires from <= upto <= |token| && forall i :: from <= i < upto ==> IsOctal(token[i])
    decreases upto - from
  {
    if from == upto then 0 else assert IsOctal(token[upto - 1]); OctalValue(token, from, upto - 1) * 8 + (token[upto - 1] - 48)
  }

  function Prepend(bytes: seq<Byte>, rest: Result<seq<Byte>, PathError>): Result<seq<Byte>, PathError> {
    if rest.Ok? then Ok(bytes + rest.value) else rest
  }

  /** The bytes that the text from an index up to the closing quote stands for. */
  function DecodeFrom(token: seq<Byte>, index: nat, end: nat): Result<seq<Byte>, PathError>
    requires index <= end <= |token|
    decreases end - index
  {
    if index == end then Ok([])
    else if token[index] != BACKSLASH then Prepend([token[index]], DecodeFrom(token, index + 1, end))
    else if index + 1 == end then Err(IncompleteEscape)
    else if NamedEscape(token[index + 1]).Some? then
      Prepend([NamedEscape(token[index + 1]).value], DecodeFrom(token, index + 2, end))
    else if IsOctal(token[index + 1]) then
      var octalEnd := OctalEnd(token, index + 1, if index + 4 < end then index + 4 else end);
      var value := OctalValue(token, index + 1, octalEnd);
      if value > 255 then Err(OctalOutsideByte) else Prepend([value], DecodeFrom(token, octalEnd, end))
    else Err(InvalidEscape)
  }

  function Unquote(token: seq<Byte>): Result<seq<Byte>, PathError> {
    if token == [] || token[0] != QUOTE then Ok(token)
    else if |token| < 2 || token[|token| - 1] != QUOTE then Err(Unterminated)
    else DecodeFrom(token, 1, |token| - 1)
  }

  lemma PrependTwice(a: seq<Byte>, b: seq<Byte>, rest: Result<seq<Byte>, PathError>)
    ensures Prepend(a, Prepend(b, rest)) == Prepend(a + b, rest)
  {
    if rest.Ok? {
      assert a + (b + rest.value) == (a + b) + rest.value;
    }
  }

  lemma DecodeStep(token: seq<Byte>, index: nat, end: nat, done: seq<Byte>, next: seq<Byte>, after: nat)
    requires index < end <= |token| && index <= after <= end
    requires DecodeFrom(token, index, end) == Prepend(next, DecodeFrom(token, after, end))
    ensures Prepend(done, DecodeFrom(token, index, end)) == Prepend(done + next, DecodeFrom(token, after, end))
  {
    hide DecodeFrom;
    PrependTwice(done, next, DecodeFrom(token, after, end));
  }

  /** Decode a token left to right. */
  method UnquotePathToken(token: seq<Byte>) returns (path: Result<seq<Byte>, PathError>)
    ensures path == Unquote(token)
  {
    hide Prepend, OctalValue, OctalEnd;
    if token == [] || token[0] != QUOTE {
      return Ok(token);
    }
    if |token| < 2 || token[|token| - 1] != QUOTE {
      return Err(Unterminated);
    }
    var result: seq<Byte> := [];
    var index, end := 1, |token| - 1;
    PrependNothing(DecodeFrom(token, 1, end));
    while index < end
      invariant 1 <= index <= end == |token| - 1
      invariant Prepend(result, DecodeFrom(token, index, end)) == DecodeFrom(token, 1, end)
    {
      var value := token[index];
      if value != BACKSLASH {
        DecodeStep(token, index, end, result, [value], index + 1);
        result := result + [value];
        index := index + 1;
        continue;
      }
      PrependToError(result, DecodeFrom(token, index, end));
      ghost var escape := index;
      index := index + 1;
      if index >= end {
        return Err(IncompleteEscape);
      }
      var named := NamedEscape(token[index]);
      if named.Some? {
        DecodeStep(token, escape, end, result, [named.value], index + 1);
        result := result + [named.value];
        index := index + 1;
        continue;
      }
      if IsOctal(token[index]) {
        var octalEnd := ScanOctal(token, index, if index + 3 < end then index + 3 else end);
        var octal := OctalValue(token, index, octalEnd);
        if octal > 255 {
          return Err(OctalOutsideByte);
        }
        DecodeStep(token, escape, end, result, [octal], octalEnd);
        result := result + [octal];
        index := octalEnd;
        continue;
      }
      return Err(InvalidEscape);
    }
    PrependTo(result);
    path := Ok(result);
  }

  method ScanOctal(token: seq<Byte>, index: nat, limit: nat) returns (octalEnd: nat)
    requires index < limit <= |token| && IsOctal(token[index])
    ensures octalEnd == OctalEnd(token, index, limit) > index
  {
    octalEnd := index;
    while octalEnd < limit && IsOctal(token[octalEnd])
      invariant index <= octalEnd <= limit && OctalEnd(token, octalEnd, limit) == OctalEnd(token, index, limit)
    {
      octalEnd := octalEnd + 1;
    }
  }

  lemma PrependNothing(rest: Result<seq<Byte>, PathError>)
    ensures Prepend([], rest) == rest
  {
    if rest.Ok? {
      assert [] + rest.value == rest.value;
    }
  }

  lemma PrependTo(bytes: seq<Byte>)
    ensures Prepend(bytes, Ok([])) == Ok(bytes)
  {
    assert bytes + [] == bytes;
  }

  lemma PrependToError(bytes: seq<Byte>, rest: Result<seq<Byte>, PathError>)
    ensures rest.Err? ==> Prepend(bytes, rest) == rest
  {
  }

  // ---------------------------------------------------------- quote and unquote

  /** Reading back how one byte was written. */
  lemma DecodeEscape(token: seq<Byte>, index: nat, end: nat, b: Byte)
    requires index + |Escape(b)| <= end <= |token| && token[index..index + |Escape(b)|] == Escape(b)
    ensures DecodeFrom(token, index, end) == Prepend([b], DecodeFrom(token, index + |Escape(b)|, end))
  {
    var escaped := Escape(b);
    forall k | 0 <= k < |escaped| ensures token[index + k] == escaped[k] {
      assert token[index..index + |escaped|][k] == token[index + k];
    }
    if |escaped| == 4 {
      OctalDigits(token, index + 1, if index + 4 < end then index + 4 else end, b);
    } else {
      assert token[index] == escaped[0];
    }
  }

  lemma OctalDigits(token: seq<Byte>, index: nat, limit: nat, b: Byte)
    requires index + 3 == limit <= |token|
    requires token[index] == 48 + b / 64 && token[index + 1] == 48 + (b / 8) % 8 && token[index + 2] == 48 + b % 8
    ensures OctalEnd(token, index, limit) == limit && OctalValue(token, index, limit) == b
    ensures NamedEscape(token[index]).None? && IsOctal(token[index])
  {
    assert OctalEnd(token, limit, limit) == limit;
    assert OctalEnd(token, index + 2, limit) == limit;
    assert OctalEnd(token, index + 1, limit) == limit;
    assert OctalValue(token, index, index) == 0;
    assert OctalValue(token, index, index + 1) == b / 64;
    assert OctalValue(token, index, index + 2) == (b / 64) * 8 + (b / 8) % 8 == b / 8;
  }

  lemma {:induction false} DecodeEscapes(token: seq<Byte>, index: nat, end: nat, path: seq<Byte>)
    requires index + |EscapeAll(path)| == end <= |token| && token[index..end] == EscapeAll(path)
    ensures DecodeFrom(token, index, end) == Ok(path)
    decreases |path|
  {
    hide Escape, DecodeFrom;
    if path == [] {
      DecodeNothing(token, end);
    } else {
      var first, rest := Escape(path[0]), EscapeAll(path[1..]);
      assert token[index..index + |first|] == token[index..end][..|first|] == first;
      assert token[index + |first|..end] == token[index..end][|first|..] == rest;
      DecodeEscape(token, index, end, path[0]);
      DecodeEscapes(token, index + |first|, end, path[1..]);
      assert [path[0]] + path[1..] == path;
    }
  }

  lemma DecodeNothing(token: seq<Byte>, end: nat)
    requires end <= |token|
    ensures DecodeFrom(token, end, end) == Ok([])
  {
  }

  /** Unquoting the quoted form gives every path back. */
  lemma UnquoteInvertsQuote(path: seq<Byte>)
    ensures Unquote(Quote(path)) == Ok(path)
  {
    if NeedsNoQuotes(path) {
      assert IsPlain(path[0]);
    } else {
      var token := Quote(path);
      assert token[1..|token| - 1] == EscapeAll(path);
      DecodeEscapes(token, 1, |token| - 1, path);
    }
  }

  // ------------------------------------------------------------- token scanning

  /** Where a quoted token that is read from an index on ends. */
  function EndFrom(data: seq<Byte>, index: nat): Result<nat, PathError>
    decreases if index < |data| then |data| - index else 0
  {
    if index >= |data| then Err(Unterminated)
    else if data[index] == BACKSLASH then EndFrom(data, index + 2)
    else if data[index] == QUOTE then Ok(index + 1)
    else EndFrom(data, index + 1)
  }

  function TokenEnd(data: seq<Byte>, start: nat): Result<nat, PathError> {
    if start >= |data| || data[start] != QUOTE then Err(ExpectedQuote) else EndFrom(data, start + 1)
  }

  method QuotedTokenEnd(data: seq<Byte>, start: nat) returns (end: Result<nat, PathError>)
    ensures end == TokenEnd(data, start)
  {
    if start >= |data| || data[start] != QUOTE {
      return Err(ExpectedQuote);
    }
    var index := start + 1;
    while index < |data|
      invariant EndFrom(data, index) == EndFrom(data, start + 1)
      decreases |data| - index
    {
      if data[index] == BACKSLASH {
        index := index + 2;
        continue;
      }
      if data[index] == QUOTE {
        return Ok(index + 1);
      }
      index := index + 1;
    }
    end := Err(Unterminated);
  }

  lemma SkipEscape(data: seq<Byte>, index: nat, b: Byte)
    requires index + |Escape(b)| <= |data| && data[index..index + |Escape(b)|] == Escape(b)
    ensures EndFrom(data, index) == EndFrom(data, index + |Escape(b)|)
  {
    var escaped := Escape(b);
    forall k | 0 <= k < |escaped| ensures data[index + k] == escaped[k] {
      assert data[index..index + |escaped|][k] == data[index + k];
    }
    if |escaped| == 4 {
      assert EndFrom(data, index + 2) == EndFrom(data, index + 3);
    } else {
      assert data[index] == escaped[0];
    }
  }

  lemma {:induction false} SkipEscapes(data: seq<Byte>, index: nat, path: seq<Byte>)
    requires index + |EscapeAll(path)| <= |data| && data[index..index + |EscapeAll(path)|] == EscapeAll(path)
    ensures EndFrom(data, index) == EndFrom(data, index + |EscapeAll(path)|)
    decreases |path|
  {
    hide Escape, EndFrom;
    if path != [] {
      var all, first, rest := EscapeAll(path), Escape(path[0]), EscapeAll(path[1..]);
      assert data[index..index + |first|] == data[index..index + |all|][..|first|] == first;
      assert data[index + |first|..index + |all|] == data[index..index + |all|][|first|..] == rest;
      SkipEscape(data, index, path[0]);
      SkipEscapes(data, index + |first|, path[1..]);
    }
  }

  lemma PartsInside(before: seq<Byte>, first: Byte, middle: seq<Byte>, last: Byte, after: seq<Byte>)
    ensures var data := before + ([first] + middle + [last]) + after;
      && data[|before|] == first && data[|before| + 1 + |middle|] == last
      && data[|before| + 1..|before| + 1 + |middle|] == middle
  {
    var data := before + ([first] + middle + [last]) + after;
    forall k | 0 <= k < |middle| ensures data[|before| + 1 + k] == middle[k] {
      assert data[|before| + 1 + k] == ([first] + middle + [last])[1 + k];
    }
  }

  /** The scan stops exactly at the end of a quoted form, whatever stands before and after it. */
  lemma ScanFindsTheEnd(before: seq<Byte>, path: seq<Byte>, after: seq<Byte>)
    requires !NeedsNoQuotes(path)
    ensures TokenEnd(before + Quote(path) + after, |before|) == Ok(|before| + |Quote(path)|)
  {
    hide EscapeAll, NeedsNoQuotes;
    var data := before + Quote(path) + after;
    PartsInside(before, QUOTE, EscapeAll(path), QUOTE, after);
    SkipEscapes(data, |before| + 1, path);
  }

  /** Quoted tokens written one after another. */
  function QuotedRun(paths: seq<Chunk>): seq<Byte> {
    if paths == [] then [] else Quote(paths[0].bytes) + QuotedRun(paths[1..])
  }

  /** Quoted tokens written side by side split in one way only. */
  lemma {:induction false} QuotedRunsSplitUniquely(a: seq<Chunk>, b: seq<Chunk>)
    requires forall i :: 0 <= i < |a| ==> !NeedsNoQuotes(a[i].bytes)
    requires forall i :: 0 <= i < |b| ==> !NeedsNoQuotes(b[i].bytes)
    requires QuotedRun(a) == QuotedRun(b)
    ensures a == b
  {
    hide Quote, TokenEnd;
    if a == [] || b == [] {
      if a != [] { QuotedIsNotEmpty(a[0].bytes); }
      if b != [] { QuotedIsNotEmpty(b[0].bytes); }
    } else {
      var x, y := Quote(a[0].bytes), Quote(b[0].bytes);
      ScanFindsTheEnd([], a[0].bytes, QuotedRun(a[1..]));
      ScanFindsTheEnd([], b[0].bytes, QuotedRun(b[1..]));
      assert [] + x == x && [] + y == y;
      SplitAtSameLength(x, QuotedRun(a[1..]), y, QuotedRun(b[1..]));
      UnquoteInvertsQuote(a[0].bytes);
      UnquoteInvertsQuote(b[0].bytes);
      QuotedRunsSplitUniquely(a[1..], b[1..]);
      assert a == [a[0]] + a[1..] && b == [b[0]] + b[1..];
    }
  }

  lemma SplitAtSameLength(a: seq<Byte>, afterA: seq<Byte>, b: seq<Byte>, afterB: seq<Byte>)
    requires |a| == |b| && a + afterA == b + afterB
    ensures a == b && afterA == afterB
  {
    assert a == (a + afterA)[..|a|] && b == (b + afterB)[..|b|];
    assert afterA == (a + afterA)[|a|..] && afterB == (b + afterB)[|b|..];
  }

  lemma QuotedIsNotEmpty(path: seq<Byte>)
    ensures Quote(path) != []
  {
  }

  // ------------------------------------------------------------- NUL records

  /** The pieces between the NUL bytes from an index on; `start` is where the open piece began. */
  function SplitFrom(output: seq<Byte>, start: nat, index: nat): (pieces: seq<Chunk>)
    requires start <= index <= |output|
    ensures pieces != []
    decreases |output| - index
  {
    if index == |output| then [Chunk(output[start..])]
    else if output[index] == 0 then [Chunk(output[start..index])] + SplitFrom(output, index + 1, index + 1)
    else SplitFrom(output, start, index + 1)
  }

  /** The records of NUL-delimited output; an empty last piece is no record. */
  function NulRecords(output: seq<Byte>): seq<Chunk> {
    var pieces := SplitFrom(output, 0, 0);
    if pieces[|pieces| - 1].bytes == [] then pieces[..|pieces| - 1] else pieces
  }

  /** Every record followed by its NUL. */
  function Terminated(records: seq<Chunk>): seq<Byte> {
    if records == [] then [] else records[0].bytes + [0] + Terminated(records[1..])
  }

  predicate HasNoNul(bytes: seq<Byte>) {
    forall i :: 0 <= i < |bytes| ==> bytes[i] != 0
  }

  lemma TerminatedFirst(first: seq<Byte>, rest: seq<Chunk>)
    ensures Terminated([Chunk(first)] + rest) == first + [0] + Terminated(rest)
  {
    assert ([Chunk(first)] + rest)[1..] == rest;
  }

  lemma TerminatedOne(only: seq<Byte>)
    ensures Terminated([Chunk(only)]) == only + [0]
  {
    TerminatedFirst(only, []);
    assert [Chunk(only)] + [] == [Chunk(only)] && only + [0] + [] == only + [0];
  }

  lemma {:induction false} PiecesHaveNoNul(output: seq<Byte>, start: nat, index: nat)
    requires start <= index <= |output| && HasNoNul(output[start..index])
    ensures forall i :: 0 <= i < |SplitFrom(output, start, index)| ==> HasNoNul(SplitFrom(output, start, index)[i].bytes)
    decreases |output| - index
  {
    if index == |output| {
      assert output[start..] == output[start..index];
    } else if output[index] == 0 {
      PiecesHaveNoNul(output, index + 1, index + 1);
    } else {
      NoNulYet(output, start, index);
      hide HasNoNul;
      PiecesHaveNoNul(output, start, index + 1);
    }
  }

  lemma NoNulYet(output: seq<Byte>, start: nat, index: nat)
    requires start <= index < |output| && HasNoNul(output[start..index]) && output[index] != 0
    ensures HasNoNul(output[start..index + 1])
  {
    assert output[start..index + 1] == output[start..index] + [output[index]];
  }

  /** The pieces, each followed by a NUL, are the text and one NUL more. */
  lemma {:induction false} PiecesRebuild(output: seq<Byte>, start: nat, index: nat)
    requires start <= index <= |output|
    ensures Terminated(SplitFrom(output, start, index)) == output[start..] + [0]
    decreases |output| - index
  {
    hide Terminated;
    if index == |output| {
      TerminatedOne(output[start..]);
    } else if output[index] == 0 {
      PiecesRebuild(output, index + 1, index + 1);
      TerminatedFirst(output[start..index], SplitFrom(output, index + 1, index + 1));
      assert output[start..] == output[start..index] + [0] + output[index + 1..];
    } else {
      PiecesRebuild(output, start, index + 1);
    }
  }

  /** The last piece is empty exactly when nothing follows the last NUL. */
  lemma {:induction false} LastPiece(output: seq<Byte>, start: nat, index: nat)
    requires start <= index <= |output| && HasNoNul(output[start..index])
    ensures var pieces := SplitFrom(output, start, index);
      pieces[|pieces| - 1].bytes == [] <==> start == |output| || output[|output| - 1] == 0
    decreases |output| - index
  {
    if index == |output| {
      LastByte(output, start);
    } else if output[index] == 0 {
      LastPiece(output, index + 1, index + 1);
    } else {
      NoNulYet(output, start, index);
      LastPiece(output, start, index + 1);
    }
  }

  lemma LastByte(output: seq<Byte>, start: nat)
    requires start <= |output| && HasNoNul(output[start..|output|])
    ensures start < |output| ==> output[|output| - 1] != 0
  {
    if start < |output| {
      assert output[start..|output|][|output| - 1 - start] == output[|output| - 1];
    }
  }

  lemma {:induction false} TerminatedInit(pieces: seq<Chunk>)
    requires pieces != []
    ensures Terminated(pieces) == Terminated(pieces[..|pieces| - 1]) + pieces[|pieces| - 1].bytes + [0]
  {
    if |pieces| == 1 {
      assert pieces[1..] == [] && pieces[..0] == [];
      assert pieces[0].bytes + [0] + [] == [] + pieces[0].bytes + [0];
    } else {
      TerminatedInit(pieces[1..]);
      assert pieces[1..][..|pieces| - 2] == pieces[..|pieces| - 1][1..];
    }
  }

  /** Splitting loses nothing: the records rebuild the output, with its final NUL made explicit. */
  lemma RecordsRebuildOutput(output: seq<Byte>)
    ensures forall i :: 0 <= i < |NulRecords(output)| ==> HasNoNul(NulRecords(output)[i].bytes)
    ensures Terminated(NulRecords(output)) == if output == [] || output[|output| - 1] == 0 then output else output + [0]
  {
    PiecesHaveNoNul(output, 0, 0);
    PiecesRebuild(output, 0, 0);
    LastPiece(output, 0, 0);
    var pieces := SplitFrom(output, 0, 0);
    TerminatedInit(pieces);
    assert output[0..] == output;
    if pieces[|pieces| - 1].bytes == [] {
      var init := Terminated(pieces[..|pieces| - 1]);
      assert init + [] + [0] == init + [0];
      assert (init + [0])[..|init|] == (output + [0])[..|output|];
    }
  }

  lemma FirstNul(a: seq<Byte>, afterA: seq<Byte>, b: seq<Byte>, afterB: seq<Byte>)
    requires HasNoNul(a) && HasNoNul(b) && a + [0] + afterA == b + [0] + afterB
    ensures |a| == |b|
  {
    NulNotBefore(a, afterA, b, afterB);
    NulNotBefore(b, afterB, a, afterA);
  }

  lemma NulNotBefore(a: seq<Byte>, afterA: seq<Byte>, b: seq<Byte>, afterB: seq<Byte>)
    requires HasNoNul(b) && a + [0] + afterA == b + [0] + afterB
    ensures |b| <= |a|
  {
    var all := b + [0] + afterB;
    assert (a + [0] + afterA)[|a|] == 0;
    forall k | 0 <= k < |b| ensures all[k] != 0 {
      assert all[k] == b[k];
    }
  }

  lemma {:induction false} TerminatedSplits(a: seq<Chunk>, b: seq<Chunk>)
    requires (forall i :: 0 <= i < |a| ==> HasNoNul(a[i].bytes)) && (forall i :: 0 <= i < |b| ==> HasNoNul(b[i].bytes))
    requires Terminated(a) == Terminated(b)
    ensures a == b
  {
    if a != [] && b != [] {
      var x, y := a[0].bytes, b[0].bytes;
      FirstNul(x, Terminated(a[1..]), y, Terminated(b[1..]));
      SplitAtSameLength(x + [0], Terminated(a[1..]), y + [0], Terminated(b[1..]));
      SplitAtSameLength(x, [0], y, [0]);
      TerminatedSplits(a[1..], b[1..]);
      assert a == [a[0]] + a[1..] && b == [b[0]] + b[1..];
    }
  }

  lemma {:induction false} TerminatedEndsInNul(records: seq<Chunk>)
    ensures Terminated(records) == [] || Terminated(records)[|Terminated(records)| - 1] == 0
  {
    if records != [] {
      TerminatedEndsInNul(records[1..]);
    }
  }

  /** Records without NUL bytes come back from the output that terminates each of them. */
  lemma TerminatedRecordsComeBack(records: seq<Chunk>)
    requires forall i :: 0 <= i < |records| ==> HasNoNul(records[i].bytes)
    ensures NulRecords(Terminated(records)) == records
  {
    TerminatedEndsInNul(records);
    RecordsRebuildOutput(Terminated(records));
    TerminatedSplits(NulRecords(Terminated(records)), records);
  }
}
