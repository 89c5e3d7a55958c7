// The binary PPM reader and writer of draw_ppm_boxes.py, over bytes.
module Ppm {
  import opened Buffers

  type Bytes = seq<byte>

  /** The reader's failures, all ValueError in the script. */
  datatype Error = MalformedHeader | NotAscii | NotP6 | BadInteger | NotEightBit | SizeMismatch

  datatype Result<+T> = Ok(value: T) | Err(error: Error)

  datatype Image = Image(width: int, height: int, raster: Bytes)

  const SPACE: byte := 32
  const TAB: byte := 9
  const LF: byte := 10
  const CR: byte := 13
  const HASH: byte := 35
  const MINUS: byte := 45
  const PLUS: byte := 43
  const UNDERSCORE: byte := 95

  predicate IsWs(b: byte) { b == SPACE || b == TAB || b == CR || b == LF }

  predicate IsDelimiter(b: byte) { IsWs(b) || b == HASH }

  /** What decode("ascii") accepts. */
  predicate IsAscii(s: Bytes) { s == [] || (s[0] < 128 && IsAscii(s[1..])) }

  // ---- Scanning ----

  /** The next line feed at or after i, or the end. */
  function LineEnd(data: Bytes, i: nat): (r: nat)
    requires i <= |data|
    ensures i <= r <= |data|
    ensures forall k :: i <= k < r ==> data[k] != LF
    ensures r < |data| ==> data[r] == LF
    decreases |data| - i
  {
    if i < |data| && data[i] != LF then LineEnd(data, i + 1) else i
  }

  /** Past whitespace and comments. */
  function Skip(data: Bytes, i: nat): (r: nat)
    requires i <= |data|
    ensures i <= r <= |data|
    ensures r < |data| ==> !IsDelimiter(data[r])
    decreases |data| - i
  {
    if i < |data| && IsWs(data[i]) then Skip(data, i + 1)
    else if i < |data| && data[i] == HASH then Skip(data, LineEnd(data, i))
    else i
  }

  function TokenEnd(data: Bytes, i: nat): (r: nat)
    requires i <= |data|
    ensures i <= r <= |data|
    decreases |data| - i
  {
    if i < |data| && !IsDelimiter(data[i]) then TokenEnd(data, i + 1) else i
  }

  function Token(data: Bytes, i: nat): (r: Result<(Bytes, nat)>)
    requires i <= |data|
    ensures r.Ok? ==> r.value.1 <= |data|
  {
    var start := Skip(data, i);
    var end := TokenEnd(data, start);
    if start == end then Err(MalformedHeader)
    else if !IsAscii(data[start..end]) then Err(NotAscii)
    else Ok((data[start..end], end))
  }

  method SkipWsAndComments(data: Bytes, idx0: nat) returns (idx: nat)
    requires idx0 <= |data|
    ensures idx == Skip(data, idx0)
  {
    idx := idx0;
    while idx < |data|
      invariant idx <= |data| && Skip(data, idx0) == Skip(data, idx)
      decreases |data| - idx
    {
      var b := data[idx];
      if IsWs(b) {
        idx := idx + 1;
        continue;
      }
      if b == HASH {
        ghost var start := idx;
        while idx < |data| && data[idx] != LF
          invariant start <= idx <= |data| && LineEnd(data, start) == LineEnd(data, idx)
          invariant idx == start ==> data[idx] == HASH
        {
          idx := idx + 1;
        }
        continue;
      }
      break;
    }
  }

  method ReadToken(data: Bytes, idx0: nat) returns (r: Result<(Bytes, nat)>)
    requires idx0 <= |data|
    ensures r == Token(data, idx0)
  {
    var idx := SkipWsAndComments(data, idx0);
    var start := idx;
    while idx < |data| && !IsDelimiter(data[idx])
      invariant start <= idx <= |data| && TokenEnd(data, start) == TokenEnd(data, idx)
    {
      idx := idx + 1;
    }
    if start == idx {
      return Err(MalformedHeader);
    }
    if !IsAscii(data[start..idx]) {
      return Err(NotAscii);
    }
    return Ok((data[start..idx], idx));
  }

  // ---- What is skipped ----

  /** White space is skipped, byte by byte. */
  lemma SpaceIsSkipped(data: Bytes, i: nat)
    requires i < |data| && (data[i] == 32 || data[i] == 9 || data[i] == 13 || data[i] == 10)
    ensures Skip(data, i) == Skip(data, i + 1)
  {
  }

  /** A comment is skipped from its '#' to the line feed after it, whatever it says. */
  lemma CommentIsSkipped(data: Bytes, i: nat, end: nat)
    requires i < end < |data| && data[i] == 35 && data[end] == 10
    requires forall k :: i < k < end ==> data[k] != 10
    ensures Skip(data, i) == Skip(data, end + 1)
  {
    assert LineEnd(data, i) == end;
    assert Skip(data, i) == Skip(data, end);
  }

  /** A comment without a line feed runs to the end of the data. */
  lemma LastCommentIsSkipped(data: Bytes, i: nat)
    requires i < |data| && data[i] == 35 && forall k :: i < k < |data| ==> data[k] != 10
    ensures Skip(data, i) == |data|
  {
    assert LineEnd(data, i) == |data|;
  }

  /** A token ends at the next white space or '#', or with the data. */
  lemma {:induction false} TokenEndExact(data: Bytes, i: nat)
    requires i <= |data|
    ensures forall k :: i <= k < TokenEnd(data, i) ==> data[k] !in [32, 9, 13, 10, 35]
    ensures TokenEnd(data, i) < |data| ==> data[TokenEnd(data, i)] in [32, 9, 13, 10, 35]
    decreases |data| - i
  {
    if i < |data| && !IsDelimiter(data[i]) {
      TokenEndExact(data, i + 1);
    }
  }

  lemma {:induction false} AsciiExact(s: Bytes)
    ensures IsAscii(s) <==> forall k :: 0 <= k < |s| ==> s[k] < 128
  {
    if s != [] {
      AsciiExact(s[1..]);
      assert forall k :: 1 <= k < |s| ==> s[k] == s[1..][k - 1];
    }
  }

  /** Exactly what a token is: the bytes from the first one that is not skipped up to the next
      white space or '#' or the end, at least one and all below 128. */
  lemma TokenExact(data: Bytes, i: nat, s: Bytes, end: nat)
    requires i <= |data|
    ensures Token(data, i) == Ok((s, end)) <==>
            && Skip(data, i) < end <= |data| && s == data[Skip(data, i)..end]
            && (forall k :: 0 <= k < |s| ==> s[k] < 128 && s[k] !in [32, 9, 13, 10, 35])
            && (end < |data| ==> data[end] in [32, 9, 13, 10, 35])
  {
    var start := Skip(data, i);
    var stop := TokenEnd(data, start);
    TokenEndExact(data, start);
    AsciiExact(data[start..stop]);
    if start < end <= |data| && s == data[start..end] {
      assert forall k :: start <= k < end ==> s[k - start] == data[k];
      if (forall k :: 0 <= k < |s| ==> s[k] !in [32, 9, 13, 10, 35])
         && end < |data| && data[end] in [32, 9, 13, 10, 35] {
        assert stop == end;
      }
    }
  }

  /** Anything else stops the skipping. */
  lemma SkipStops(data: Bytes, i: nat)
    requires i <= |data| && (i < |data| ==> data[i] !in [32, 9, 13, 10, 35])
    ensures Skip(data, i) == i
  {
  }

  // ---- Integers, as Python's int() reads an ASCII token ----

  predicate IsDigit(b: byte) { 48 <= b <= 57 }

  /** ASCII characters int() strips that can occur inside a token. */
  predicate IsStripped(b: byte) { IsWs(b) || 11 <= b <= 12 || 28 <= b <= 31 }

  function StripLeft(s: Bytes): Bytes {
    if s != [] && IsStripped(s[0]) then StripLeft(s[1..]) else s
  }

  function StripRight(s: Bytes): Bytes
    decreases |s|
  {
    if s != [] && IsStripped(s[|s| - 1]) then StripRight(s[..|s| - 1]) else s
  }

  /** Decimal digits, single underscores allowed between two of them. */
  function Digits(s: Bytes): Option<nat>
    decreases |s|
  {
    if s == [] || !IsDigit(s[|s| - 1]) then None
    else
      var d: nat := s[|s| - 1] - 48;
      if |s| == 1 then Some(d)
      else
        var front := if s[|s| - 2] == UNDERSCORE then s[..|s| - 2] else s[..|s| - 1];
        match Digits(front)
        case None => None
        case Some(n) => Some(10 * n + d)
  }

  function ParseInt(token: Bytes): Option<int> {
    var s := StripRight(StripLeft(token));
    if s != [] && s[0] == MINUS then
      match Digits(s[1..]) case None => None case Some(n) => var v: int := 0 - n; Some(v)
    else
      match Digits(if s != [] && s[0] == PLUS then s[1..] else s) case None => None case Some(n) => Some(n)
  }

  /** One more digit, after a single underscore or none. */
  lemma OneMoreDigit(front: Bytes, n: nat, d: nat)
    requires Digits(front) == Some(n) && d < 10
    ensures Digits(front + [48 + d]) == Some(10 * n + d)
    ensures Digits(front + [UNDERSCORE] + [48 + d]) == Some(10 * n + d)
  {
    var a, b := front + [48 + d], front + [UNDERSCORE] + [48 + d];
    assert a[..|a| - 1] == front && b[..|b| - 2] == front;
    assert IsDigit(a[|a| - 2]);
  }

  /** A digit alone is its value. */
  lemma OneDigit(d: nat)
    requires d < 10
    ensures Digits([48 + d]) == Some(d)
  {
  }

  /** A sign in front of a number without white space at its ends. */
  lemma Signed(s: Bytes, n: nat, sign: byte)
    requires Digits(s) == Some(n) && s != [] && IsDigit(s[0]) && (sign == 43 || sign == 45)
    ensures ParseInt([sign] + s).Some? && ParseInt([sign] + s).value == if sign == 45 then 0 - n else n
  {
    var p := [sign] + s;
    assert IsDigit(s[|s| - 1]) && p[|p| - 1] == s[|s| - 1];
    assert StripLeft(p) == p;
    assert StripRight(p) == p;
    assert p[1..] == s;
  }

  lemma Unsigned(s: Bytes, n: nat)
    requires Digits(s) == Some(n) && s != [] && IsDigit(s[0])
    ensures ParseInt(s) == Some(n)
  {
    assert IsDigit(s[|s| - 1]);
    assert StripLeft(s) == s;
    assert StripRight(s) == s;
  }

  // ---- Reader and writer ----

  function P6(): Bytes { [80, 54] }

  /** The four header tokens and where the last one ends. */
  function Header(data: Bytes): (r: Result<(Bytes, Bytes, Bytes, nat)>)
    ensures r.Ok? ==> r.value.3 <= |data|
  {
    match Token(data, 0)
    case Err(e) => Err(e)
    case Ok((magic, i)) =>
      if magic != P6() then Err(NotP6) else
      match Token(data, i)
      case Err(e) => Err(e)
      case Ok((ws, j)) =>
        match Token(data, j)
        case Err(e) => Err(e)
        case Ok((hs, k)) =>
          match Token(data, k)
          case Err(e) => Err(e)
          case Ok((ms, l)) => Ok((ws, hs, ms, l))
  }

  function Parse(data: Bytes): Result<Image> {
    match Header(data)
    case Err(e) => Err(e)
    case Ok((ws, hs, ms, l)) =>
      var i := Skip(data, l);
      match (ParseInt(ws), ParseInt(hs), ParseInt(ms))
      case (Some(width), Some(height), Some(maxval)) =>
        if maxval != 255 then Err(NotEightBit)
        else if |data| - i != width * height * 3 then Err(SizeMismatch)
        else Ok(Image(width, height, data[i..]))
      case _ => Err(BadInteger)
  }

  /** parse_ppm_p6. */
  method ParsePpmP6(data: Bytes) returns (r: Result<Image>)
    ensures r == Parse(data)
  {
    var magic := ReadToken(data, 0);
    if magic.Err? { return Err(magic.error); }
    if magic.value.0 != P6() { return Err(NotP6); }
    var widthS := ReadToken(data, magic.value.1);
    if widthS.Err? { return Err(widthS.error); }
    var heightS := ReadToken(data, widthS.value.1);
    if heightS.Err? { return Err(heightS.error); }
    var maxvalS := ReadToken(data, heightS.value.1);
    if maxvalS.Err? { return Err(maxvalS.error); }
    var i := SkipWsAndComments(data, maxvalS.value.1);
    var width, height, maxval := ParseInt(widthS.value.0), ParseInt(heightS.value.0), ParseInt(maxvalS.value.0);
    if width.None? || height.None? || maxval.None? { return Err(BadInteger); }
    if maxval.value != 255 { return Err(NotEightBit); }
    var raster := data[i..];
    if |raster| != width.value * height.value * 3 { return Err(SizeMismatch); }
    return Ok(Image(width.value, height.value, raster));
  }

  function Decimal(n: nat): (s: Bytes)
    ensures |s| > 0 && forall k :: 0 <= k < |s| ==> IsDigit(s[k])
  {
    if n < 10 then [48 + n] else Decimal(n / 10) + [48 + n % 10]
  }

  function DecimalInt(v: int): Bytes {
    if v >= 0 then Decimal(v) else [MINUS] + Decimal(-v)
  }

  /** write_ppm_p6. */
  function Print(img: Image): Bytes {
    P6() + AfterMagic(DecimalInt(img.width), DecimalInt(img.height), img.raster)
  }

  function AfterMagic(ws: Bytes, hs: Bytes, raster: Bytes): Bytes {
    [LF] + ws + AfterWidth(hs, raster)
  }

  function AfterWidth(hs: Bytes, raster: Bytes): Bytes {
    [SPACE] + hs + AfterHeight(raster)
  }

  function AfterHeight(raster: Bytes): Bytes {
    [LF] + [50, 53, 53] + ([LF] + raster)
  }

  /** The written bytes: P6, width and height, 255, each in its place, and the raster. */
  lemma PrintIs(img: Image)
    ensures Print(img) == [80, 54, 10] + DecimalInt(img.width) + [32] + DecimalInt(img.height)
                          + [10, 50, 53, 53, 10] + img.raster
  {
    var ws, hs := DecimalInt(img.width), DecimalInt(img.height);
    assert AfterHeight(img.raster) == [10, 50, 53, 53, 10] + img.raster;
    assert AfterWidth(hs, img.raster) == [32] + hs + ([10, 50, 53, 53, 10] + img.raster);
  }

  /** Whatever is accepted has the tokens P6, width, height and 255, in this order, and ends
      with a raster of the size they give. */
  lemma ParseSound(data: Bytes) returns (ws: Bytes, hs: Bytes, ms: Bytes, i: nat, j: nat, k: nat, l: nat)
    requires Parse(data).Ok?
    ensures IsToken(data, 0, [80, 54], i) && IsToken(data, i, ws, j)
    ensures IsToken(data, j, hs, k) && IsToken(data, k, ms, l)
    ensures var img := Parse(data).value;
            && ParseInt(ws) == Some(img.width) && ParseInt(hs) == Some(img.height) && ParseInt(ms) == Some(255)
            && |img.raster| == img.width * img.height * 3 && |img.raster| <= |data|
            && data[|data| - |img.raster|..] == img.raster
  {
    i := Token(data, 0).value.1;
    ws, j := Token(data, i).value.0, Token(data, i).value.1;
    hs, k := Token(data, j).value.0, Token(data, j).value.1;
    ms, l := Token(data, k).value.0, Token(data, k).value.1;
  }

  /** With all tokens there, the checks in their order: the magic, the integers, the maximal
      value, the size. */
  lemma ParseOfTokens(data: Bytes, magic: Bytes, i: nat, ws: Bytes, j: nat, hs: Bytes, k: nat, ms: Bytes, l: nat)
    requires IsToken(data, 0, magic, i)
    requires magic == [80, 54] ==>
               IsToken(data, i, ws, j) && IsToken(data, j, hs, k) && IsToken(data, k, ms, l) && l <= |data|
    ensures magic != [80, 54] ==> Parse(data) == Err(NotP6)
    ensures magic == [80, 54] ==>
              var at := Skip(data, l);
              var (w, h, m) := (ParseInt(ws), ParseInt(hs), ParseInt(ms));
              && (w.None? || h.None? || m.None? ==> Parse(data) == Err(BadInteger))
              && (w.Some? && h.Some? && m.Some? && m != Some(255) ==> Parse(data) == Err(NotEightBit))
              && (w.Some? && h.Some? && m == Some(255) && |data| - at != w.value * h.value * 3 ==>
                    Parse(data) == Err(SizeMismatch))
              && (w.Some? && h.Some? && m == Some(255) && |data| - at == w.value * h.value * 3 ==>
                    Parse(data) == Ok(Image(w.value, h.value, data[at..])))
  {
  }

  // ---- The round trip ----

  lemma {:induction false} DigitsOfDecimal(n: nat)
    ensures Digits(Decimal(n)) == Some(n)
  {
    if n >= 10 {
      var s := Decimal(n);
      DigitsOfDecimal(n / 10);
      assert s[..|s| - 1] == Decimal(n / 10);
      assert IsDigit(s[|s| - 2]);
    }
  }

  lemma ParseDecimalInt(v: int)
    ensures ParseInt(DecimalInt(v)) == Some(v)
    ensures forall k :: 0 <= k < |DecimalInt(v)| ==> !IsDelimiter(DecimalInt(v)[k]) && DecimalInt(v)[k] < 128
  {
    var s := DecimalInt(v);
    assert StripLeft(s) == s && StripRight(s) == s;
    if v >= 0 {
      DigitsOfDecimal(v);
    } else {
      DigitsOfDecimal(-v);
      assert s[1..] == Decimal(-v);
    }
  }

  lemma {:induction false} TokenEndAt(data: Bytes, i: nat, end: nat)
    requires i <= end < |data| && IsDelimiter(data[end])
    requires forall k :: i <= k < end ==> !IsDelimiter(data[k])
    ensures TokenEnd(data, i) == end
    decreases end - i
  {
    if i < end {
      TokenEndAt(data, i + 1, end);
    }
  }

  lemma {:induction false} AllAscii(s: Bytes)
    requires forall k :: 0 <= k < |s| ==> s[k] < 128
    ensures IsAscii(s)
    decreases |s|
  {
    if s != [] {
      AllAscii(s[1..]);
    }
  }

  /** A clean token between at most one separator and whitespace is read whole. */
  lemma TokenFront(data: Bytes, i: nat, sep: Bytes, s: Bytes, rest: Bytes)
    requires i <= |data| && data[i..] == sep + s + rest
    requires sep == [] || (|sep| == 1 && IsWs(sep[0]))
    requires s != [] && rest != [] && IsWs(rest[0])
    requires forall k :: 0 <= k < |s| ==> !IsDelimiter(s[k]) && s[k] < 128
    ensures Token(data, i) == Ok((s, i + |sep| + |s|))
    ensures data[i + |sep| + |s|..] == rest
  {
    var tail := data[i..];
    var start := i + |sep|;
    var end := start + |s|;
    assert forall k :: 0 <= k < |tail| ==> data[i + k] == tail[k];
    forall k | start <= k < end ensures data[k] == s[k - start] {
      assert data[k] == tail[k - i];
    }
    assert data[end] == tail[end - i] == rest[0];
    assert sep != [] ==> data[i] == tail[0] == sep[0];
    assert Skip(data, start) == start;
    assert Skip(data, i) == start;
    TokenEndAt(data, start, end);
    assert data[start..end] == s;
    AllAscii(s);
    assert data[end..] == tail[end - i..] == rest;
  }

  lemma {:induction false} LineEndShift(data: Bytes, o: nat, i: nat)
    requires o + i <= |data|
    ensures LineEnd(data, o + i) == o + LineEnd(data[o..], i)
    decreases |data| - i
  {
    if o + i < |data| && data[o + i] != LF {
      LineEndShift(data, o, i + 1);
    }
  }

  /** Skipping looks only ahead. */
  lemma {:induction false} SkipShift(data: Bytes, o: nat, i: nat)
    requires o + i <= |data|
    ensures Skip(data, o + i) == o + Skip(data[o..], i)
    decreases |data| - i
  {
    if o + i < |data| && IsWs(data[o + i]) {
      SkipShift(data, o, i + 1);
    } else if o + i < |data| && data[o + i] == HASH {
      LineEndShift(data, o, i);
      SkipShift(data, o, LineEnd(data[o..], i));
    }
  }

  ghost predicate Clean(s: Bytes) {
    s != [] && forall k :: 0 <= k < |s| ==> !IsDelimiter(s[k]) && s[k] < 128
  }

  ghost predicate IsToken(data: Bytes, i: nat, s: Bytes, j: nat) {
    i <= |data| && Token(data, i) == Ok((s, j))
  }

  ghost predicate StartsWs(s: Bytes) { s != [] && IsWs(s[0]) }

  lemma HeadTokens(data: Bytes, ws: Bytes, t1: Bytes, t2: Bytes, i: nat)
    requires data == P6() + t1 && t1 == [LF] + ws + t2 && Clean(ws) && StartsWs(t2) && i == 3 + |ws|
    ensures IsToken(data, 0, P6(), 2) && IsToken(data, 2, ws, i)
    ensures i <= |data| && data[i..] == t2
  {
    assert data[0..] == [] + P6() + t1;
    TokenFront(data, 0, [], P6(), t1);
    TokenFront(data, 2, [LF], ws, t2);
  }

  lemma TailTokens(data: Bytes, i: nat, hs: Bytes, d: Bytes, t2: Bytes, t3: Bytes, t4: Bytes, j: nat, l: nat)
    requires i <= |data| && data[i..] == t2 && t2 == [SPACE] + hs + t3 && t3 == [LF] + d + t4
    requires Clean(hs) && Clean(d) && StartsWs(t4) && j == i + 1 + |hs| && l == j + 1 + |d|
    ensures IsToken(data, i, hs, j) && IsToken(data, j, d, l)
    ensures l <= |data| && data[l..] == t4
  {
    TokenFront(data, i, [SPACE], hs, t3);
    TokenFront(data, j, [LF], d, t4);
  }

  lemma HeaderOfTokens(data: Bytes, ws: Bytes, hs: Bytes, d: Bytes, t1: Bytes, t2: Bytes, t3: Bytes, t4: Bytes, l: nat)
    requires data == P6() + t1 && t1 == [LF] + ws + t2 && t2 == [SPACE] + hs + t3 && t3 == [LF] + d + t4
    requires Clean(ws) && Clean(hs) && Clean(d) && StartsWs(t4) && l == 5 + |ws| + |hs| + |d|
    ensures l <= |data| && Header(data) == Ok((ws, hs, d, l)) && data[l..] == t4
  {
    var i := 3 + |ws|;
    var j := i + 1 + |hs|;
    HeadTokens(data, ws, t1, t2, i);
    TailTokens(data, i, hs, d, t2, t3, t4, j, l);
    HeaderIs(data, 2, ws, i, hs, j, d, l);
  }

  lemma HeaderIs(data: Bytes, i: nat, ws: Bytes, j: nat, hs: Bytes, k: nat, ms: Bytes, l: nat)
    requires i <= |data| && j <= |data| && k <= |data| && l <= |data|
    requires IsToken(data, 0, P6(), i) && IsToken(data, i, ws, j)
    requires IsToken(data, j, hs, k) && IsToken(data, k, ms, l)
    ensures Header(data) == Ok((ws, hs, ms, l))
  {
  }

  lemma Parse255()
    ensures ParseInt([50, 53, 53]) == Some(255)
  {
    assert Decimal(2) == [50];
    assert Decimal(25) == [50, 53];
    assert Decimal(255) == [50, 53, 53];
    ParseDecimalInt(255);
  }

  /** Reading back a written image, for any dimensions and any raster whatsoever: the
      reader also skips whitespace and comments at the start of the raster, so it returns
      the rest of the raster if that has the right size and fails otherwise. */
  lemma ParseOfPrint(img: Image)
    ensures var i := Skip(img.raster, 0);
            Parse(Print(img)) == if |img.raster| - i == img.width * img.height * 3
                                 then Ok(Image(img.width, img.height, img.raster[i..]))
                                 else Err(SizeMismatch)
  {
    var data := Print(img);
    ParseDecimalInt(img.width);
    ParseDecimalInt(img.height);
    var ws, hs := DecimalInt(img.width), DecimalInt(img.height);
    HeaderOfTokens(data, ws, hs, [50, 53, 53], AfterMagic(ws, hs, img.raster), AfterWidth(hs, img.raster),
                   AfterHeight(img.raster), [LF] + img.raster, 8 + |ws| + |hs|);
    Parse255();
    var l := Header(data).value.3;
    SkipFront(data, l, img.raster);
  }

  lemma SkipFront(data: Bytes, l: nat, raster: Bytes)
    requires l <= |data| && data[l..] == [LF] + raster
    ensures |data| == l + 1 + |raster|
    ensures Skip(data, l) == l + 1 + Skip(raster, 0)
    ensures data[Skip(data, l)..] == raster[Skip(raster, 0)..]
  {
    assert data[l] == data[l..][0] == LF;
    assert data[l + 1..] == data[l..][1..] == raster;
    SkipShift(data, l + 1, 0);
    var i := Skip(raster, 0);
    assert data[l + 1 + i..] == data[l + 1..][i..];
  }

  /** A well-formed image survives the round trip exactly when its raster is empty or does
      not begin with whitespace or '#'; otherwise it is rejected, never altered. */
  lemma RoundTrip(img: Image)
    requires |img.raster| == img.width * img.height * 3
    ensures Parse(Print(img)) == Ok(img) <==> img.raster == [] || !IsDelimiter(img.raster[0])
    ensures Parse(Print(img)) == Ok(img) || Parse(Print(img)) == Err(SizeMismatch)
  {
    ParseOfPrint(img);
    var i := Skip(img.raster, 0);
    assert i == 0 ==> img.raster[i..] == img.raster;
    assert img.raster != [] && IsDelimiter(img.raster[0]) ==> i > 0;
  }
}
