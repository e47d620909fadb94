/** Writing a byte string as a JSON string, and reading such strings by section 7 of RFC 8259. */
module Json {
  import opened Keys

  datatype Option<+T> = None | Some(value: T)

  // ---- UTF-8 ----

  predicate Continues(b: Byte) {
    0x80 <= b < 0xC0
  }

  /** The bytes allowed after a first byte that starts a longer sequence. */
  predicate SecondOk(first: Byte, second: Byte) {
    && Continues(second)
    && (first == 0xE0 ==> second >= 0xA0) && (first == 0xED ==> second < 0xA0)
    && (first == 0xF0 ==> second >= 0x90) && (first == 0xF4 ==> second < 0x90)
  }

  /** The size of the encoded character at the front, or 0 if there is no valid one. */
  function RuneSize(s: Bytes): (n: nat)
    ensures n <= |s| && n <= 4
  {
    if s == [] then 0
    else if s[0] < 0x80 then 1
    else if 0xC2 <= s[0] < 0xE0 then if |s| > 1 && Continues(s[1]) then 2 else 0
    else if 0xE0 <= s[0] < 0xF0 then
      if |s| > 2 && SecondOk(s[0], s[1]) && Continues(s[2]) then 3 else 0
    else if 0xF0 <= s[0] < 0xF5 then
      if |s| > 3 && SecondOk(s[0], s[1]) && Continues(s[2]) && Continues(s[3]) then 4 else 0
    else 0
  }

  function Low(b: Byte, mark: nat): nat
    requires b >= mark
  {
    b as int - mark
  }

  /** Its code point. */
  function Rune(s: Bytes): nat
    requires RuneSize(s) > 0
  {
    var n := RuneSize(s);
    if n == 1 then s[0]
    else if n == 2 then Low(s[0], 0xC0) * 0x40 + Low(s[1], 0x80)
    else if n == 3 then Low(s[0], 0xE0) * 0x1000 + Low(s[1], 0x80) * 0x40 + Low(s[2], 0x80)
    else Low(s[0], 0xF0) * 0x4_0000 + Low(s[1], 0x80) * 0x1000 + Low(s[2], 0x80) * 0x40 + Low(s[3], 0x80)
  }

  /** A byte with a marker in its upper bits. */
  function Bits(mark: nat, n: nat): Byte
    requires mark + n < 256
  {
    mark + n
  }

  function Utf8(c: nat): Bytes
    requires c < 0x11_0000
  {
    if c < 0x80 then [c]
    else if c < 0x800 then [Bits(0xC0, c / 0x40), Bits(0x80, c % 0x40)]
    else if c < 0x1_0000 then [Bits(0xE0, c / 0x1000), Bits(0x80, c / 0x40 % 0x40), Bits(0x80, c % 0x40)]
    else [Bits(0xF0, c / 0x4_0000), Bits(0x80, c / 0x1000 % 0x40), Bits(0x80, c / 0x40 % 0x40), Bits(0x80, c % 0x40)]
  }

  /** Only the bytes of the character matter. */
  lemma RuneFront(s: Bytes, t: Bytes)
    requires RuneSize(s) > 0
    ensures var n := RuneSize(s); RuneSize(s[..n] + t) == n && Rune(s[..n] + t) == Rune(s)
  {
  }

  lemma ShortRune(s: Bytes)
    requires RuneSize(s) == 3
    ensures 0x800 <= Rune(s) < 0x1_0000 && Utf8(Rune(s)) == s[..3]
  {
    var a: int, b: int, c: int := s[0] as int - 0xE0, s[1] as int - 0x80, s[2] as int - 0x80;
    assert Rune(s) == a * 0x1000 + b * 0x40 + c;
    assert Rune(s) / 0x40 == a * 0x40 + b;
  }

  lemma RuneRange(s: Bytes)
    requires RuneSize(s) > 0
    ensures RuneSize(s) == 2 ==> 0x80 <= Rune(s) < 0x800
    ensures RuneSize(s) == 4 ==> 0x1_0000 <= Rune(s) < 0x11_0000
  {
  }

  /** A code point that is not a surrogate. */
  predicate Scalar(c: nat) {
    c < 0x11_0000 && !(0xD800 <= c < 0xE000)
  }

  lemma LongRune(s: Bytes)
    requires RuneSize(s) == 4
    ensures Utf8(Rune(s)) == s[..4]
  {
    var a: int, b: int, c: int, d: int := s[0] as int - 0xF0, s[1] as int - 0x80, s[2] as int - 0x80, s[3] as int - 0x80;
    RuneRange(s);
    assert Rune(s) == a * 0x4_0000 + b * 0x1000 + c * 0x40 + d;
    assert Rune(s) / 0x40 == a * 0x1000 + b * 0x40 + c;
    assert Rune(s) / 0x1000 == a * 0x40 + b;
  }

  /** What is taken for a character is the encoding of one, in its shortest form. */
  lemma RuneMeaning(s: Bytes)
    requires RuneSize(s) > 0
    ensures Scalar(Rune(s)) && Utf8(Rune(s)) == s[..RuneSize(s)]
  {
    RuneRange(s);
    if RuneSize(s) == 3 { ShortRune(s); }
    if RuneSize(s) == 2 { assert Rune(s) / 0x40 == s[0] as int - 0xC0; }
    if RuneSize(s) == 4 { LongRune(s); }
  }

  /** And every character's encoding is taken for it. */
  lemma CharacterRead(c: nat, t: Bytes)
    requires Scalar(c)
    ensures RuneSize(Utf8(c) + t) == |Utf8(c)| && Rune(Utf8(c) + t) == c
  {
    if 0x800 <= c < 0x1_0000 {
      assert c == c / 0x1000 * 0x1000 + c / 0x40 % 0x40 * 0x40 + c % 0x40;
    } else if c >= 0x1_0000 {
      assert c == c / 0x4_0000 * 0x4_0000 + c / 0x1000 % 0x40 * 0x1000 + c / 0x40 % 0x40 * 0x40 + c % 0x40;
    }
  }

  const RUNE_ERROR := 0xFFFD

  /** The bytes with each byte that is not part of a valid character replaced by the encoding of
      U+FFFD. */
  function Repaired(s: Bytes): Bytes {
    if s == [] then []
    else if RuneSize(s) == 0 then Utf8(RUNE_ERROR) + Repaired(s[1..])
    else s[..RuneSize(s)] + Repaired(s[RuneSize(s)..])
  }

  predicate Valid(s: Bytes) {
    s != [] ==> RuneSize(s) > 0 && Valid(s[RuneSize(s)..])
  }

  lemma {:induction false} ValidUnchanged(s: Bytes)
    requires Valid(s)
    ensures Repaired(s) == s
  {
    if s != [] { ValidUnchanged(s[RuneSize(s)..]); }
  }

  // ---- Writing ----

  const QUOTE: Byte := 0x22

  const BACKSLASH: Byte := 0x5C

  function Hex(d: nat): Byte
    requires d < 16
  {
    if d < 10 then 0x30 + d else 0x61 + d - 10
  }

  /** ASCII characters that are written as they are: no control character, quote, backslash, or
      character with a meaning in HTML. */
  predicate Plain(b: Byte) {
    0x20 <= b < 0x80 && b != BACKSLASH && b != QUOTE && b != 0x3C && b != 0x3E && b != 0x26
  }

  /** `\u` and four hexadecimal digits. */
  function UnicodeEscape(c: nat): Bytes
    requires c < 0x1_0000
  {
    [BACKSLASH, 0x75, Hex(c / 0x1000), Hex(c / 0x100 % 16), Hex(c / 16 % 16), Hex(c % 16)]
  }

  function EscapeByte(b: Byte): Bytes
    requires b < 0x80
  {
    if Plain(b) then [b]
    else if b == BACKSLASH || b == QUOTE then [BACKSLASH, b]
    else if b == 0x0A then [BACKSLASH, 0x6E]
    else if b == 0x0D then [BACKSLASH, 0x72]
    else UnicodeEscape(b)
  }

  predicate LineSeparator(c: nat) {
    c == 0x2028 || c == 0x2029
  }

  /** What one character, or one invalid byte, is written as. */
  function EscapeFirst(s: Bytes): Bytes
    requires s != []
  {
    if s[0] < 0x80 then EscapeByte(s[0])
    else if RuneSize(s) == 0 then UnicodeEscape(RUNE_ERROR)
    else if LineSeparator(Rune(s)) then UnicodeEscape(Rune(s))
    else s[..RuneSize(s)]
  }

  /** How far one step goes. */
  function Advance(s: Bytes): (n: nat)
    requires s != []
    ensures 0 < n <= |s|
  {
    if RuneSize(s) == 0 then 1 else RuneSize(s)
  }

  function Escaped(s: Bytes): Bytes {
    if s == [] then [] else EscapeFirst(s) + Escaped(s[Advance(s)..])
  }

  function Quoted(s: Bytes): Bytes {
    [QUOTE] + Escaped(s) + [QUOTE]
  }

  lemma OneStep(s: Bytes, i: nat)
    requires i < |s|
    ensures var n := Advance(s[i..]);
      i + n <= |s| && Escaped(s[i..]) == EscapeFirst(s[i..]) + Escaped(s[i + n..])
  {
    hide EscapeFirst, RuneSize;
    var rest := s[i..];
    assert rest[Advance(rest)..] == s[i + Advance(rest)..];
  }

  lemma PlainStep(s: Bytes, i: nat)
    requires i < |s| && Plain(s[i])
    ensures Advance(s[i..]) == 1 && EscapeFirst(s[i..]) == s[i..i + 1]
  {
  }

  lemma AsciiStep(s: Bytes, i: nat)
    requires i < |s| && s[i] < 0x80 && !Plain(s[i])
    ensures Advance(s[i..]) == 1
    ensures var b := s[i];
      EscapeFirst(s[i..]) == EscapeByte(b) && EscapeByte(b) ==
        if b == BACKSLASH || b == QUOTE then [BACKSLASH] + [b]
        else if b == 0x0A then [BACKSLASH] + [0x6E]
        else if b == 0x0D then [BACKSLASH] + [0x72]
        else [BACKSLASH, 0x75, 0x30, 0x30] + [Hex(b / 16)] + [Hex(b % 16)]
  {
    assert s[i] / 0x1000 == 0 && s[i] / 0x100 == 0 && s[i] / 16 < 16;
  }

  lemma ErrorStep(s: Bytes, i: nat)
    requires i < |s| && RuneSize(s[i..]) == 0
    ensures Advance(s[i..]) == 1 && EscapeFirst(s[i..]) == [BACKSLASH, 0x75, 0x66, 0x66, 0x66, 0x64]
  {
    assert 0xFFFD / 0x1000 == 15 && 0xFFFD / 0x100 % 16 == 15 && 0xFFFD / 16 % 16 == 15 && 0xFFFD % 16 == 13;
    assert Hex(15) == 0x66 && Hex(13) == 0x64;
    assert UnicodeEscape(RUNE_ERROR) == [BACKSLASH, 0x75, Hex(15), Hex(15), Hex(15), Hex(13)];
    assert s[i..][0] >= 0x80;
  }

  lemma SeparatorStep(s: Bytes, i: nat)
    requires i < |s| && s[i] >= 0x80 && RuneSize(s[i..]) > 0 && LineSeparator(Rune(s[i..]))
    ensures Advance(s[i..]) == RuneSize(s[i..])
    ensures EscapeFirst(s[i..]) == [BACKSLASH, 0x75, 0x32, 0x30, 0x32] + [Hex(Rune(s[i..]) % 16)]
  {
    hide Rune;
  }

  lemma RuneStep(s: Bytes, i: nat)
    requires i < |s| && s[i] >= 0x80 && RuneSize(s[i..]) > 0 && !LineSeparator(Rune(s[i..]))
    ensures Advance(s[i..]) == RuneSize(s[i..]) && EscapeFirst(s[i..]) == s[i..i + RuneSize(s[i..])]
  {
    hide Rune;
    assert s[i..][..RuneSize(s[i..])] == s[i..i + RuneSize(s[i..])];
  }

  /** Everything before `i` is written, or held back from `start` on. */
  ghost predicate Progress(s: Bytes, start: nat, i: nat, done: Bytes) {
    start <= i <= |s| && done + s[start..i] + Escaped(s[i..]) == Escaped(s)
  }

  lemma AtStart(s: Bytes)
    ensures Progress(s, 0, 0, [])
  {
    hide Escaped;
    assert s[0..] == s && s[0..0] == [];
  }

  lemma AtEnd(s: Bytes, start: nat, done: Bytes)
    requires Progress(s, start, |s|, done)
    ensures Escaped(s) == done + s[start..]
  {
    assert s[|s|..] == [] && s[start..|s|] == s[start..];
  }

  lemma Hold(s: Bytes, start: nat, i: nat, j: nat)
    requires start <= i <= j <= |s|
    ensures s[start..i] + s[i..j] == s[start..j]
  {
  }

  class Buffer {
    var bytes: Bytes

    constructor ()
      ensures bytes == []
    {
      bytes := [];
    }

    method Write(s: Bytes)
      modifies this
      ensures bytes == old(bytes) + s
    {
      bytes := bytes + s;
    }
  }

  lemma Flushed(s: Bytes, start: nat, i: nat, done: Bytes, n: nat)
    requires Progress(s, start, i, done) && i < |s| && n == Advance(s[i..])
    ensures i + n <= |s| && Progress(s, i + n, i + n, done + s[start..i] + EscapeFirst(s[i..]))
  {
    hide Escaped, EscapeFirst, Advance;
    OneStep(s, i);
    assert s[i + n..i + n] == [];
  }

  lemma Held(s: Bytes, start: nat, i: nat, done: Bytes, n: nat)
    requires Progress(s, start, i, done) && i < |s| && n == Advance(s[i..]) && EscapeFirst(s[i..]) == s[i..i + n]
    ensures Progress(s, start, i + n, done)
  {
    hide Escaped, EscapeFirst, Advance;
    OneStep(s, i);
    Hold(s, start, i, i + n);
  }

  /** The escape of one ASCII character. */
  method WriteEscape(buf: Buffer, b: Byte)
    requires b < 0x80 && !Plain(b)
    modifies buf
    ensures buf.bytes == old(buf.bytes) + EscapeByte(b)
  {
    AsciiStep([b], 0);
    assert [b][0..] == [b];
    if b == BACKSLASH || b == QUOTE {
      buf.Write([BACKSLASH]);
      buf.Write([b]);
    } else if b == 0x0A {
      buf.Write([BACKSLASH]);
      buf.Write([0x6E]);
    } else if b == 0x0D {
      buf.Write([BACKSLASH]);
      buf.Write([0x72]);
    } else {
      buf.Write([BACKSLASH, 0x75, 0x30, 0x30]);
      buf.Write([Hex(b / 16)]);
      buf.Write([Hex(b % 16)]);
    }
  }

  lemma Assoc(a: Bytes, b: Bytes, c: Bytes, d: Bytes)
    ensures a + b + c + d == a + (b + c + d)
  {
  }

  /** Writes the stretch that was held back. */
  method Flush(buf: Buffer, s: Bytes, start: nat, i: nat)
    requires start <= i <= |s|
    modifies buf
    ensures buf.bytes == old(buf.bytes) + s[start..i]
  {
    if start < i {
      buf.Write(s[start..i]);
    }
  }

  method WriteSeparator(buf: Buffer, c: nat)
    modifies buf
    ensures buf.bytes == old(buf.bytes) + ([BACKSLASH, 0x75, 0x32, 0x30, 0x32] + [Hex(c % 16)])
  {
    buf.Write([BACKSLASH, 0x75, 0x32, 0x30, 0x32]);
    buf.Write([Hex(c % 16)]);
  }

  /** Appends the string. Stretches that need no escape are held back and written in one piece. */
  method WriteJsonString(buf: Buffer, s: Bytes)
    modifies buf
    ensures buf.bytes == old(buf.bytes) + Quoted(s)
  {
    hide Escaped, EscapeFirst, EscapeByte, UnicodeEscape, RuneSize, Rune, Progress, Hex, Advance;
    buf.Write([QUOTE]);
    var start: nat, i: nat := 0, 0;
    ghost var base, done: Bytes := buf.bytes, [];
    AtStart(s);
    while i < |s|
      invariant start <= i <= |s| && Progress(s, start, i, done)
      invariant buf.bytes == base + done
      decreases |s| - i
    {
      var b := s[i];
      if b < 0x80 {
        if 0x20 <= b && b != BACKSLASH && b != QUOTE && b != 0x3C && b != 0x3E && b != 0x26 {
          PlainStep(s, i);
          Held(s, start, i, done, 1);
          i := i + 1;
          continue;
        }
        Flush(buf, s, start, i);
        AsciiStep(s, i);
        WriteEscape(buf, b);
        Flushed(s, start, i, done, 1);
        Assoc(base, done, s[start..i], EscapeFirst(s[i..]));
        done := done + s[start..i] + EscapeFirst(s[i..]);
        i := i + 1;
        start := i;
        continue;
      }
      var size := RuneSize(s[i..]);
      if size == 0 {
        Flush(buf, s, start, i);
        ErrorStep(s, i);
        buf.Write([BACKSLASH, 0x75, 0x66, 0x66, 0x66, 0x64]);
        Flushed(s, start, i, done, 1);
        Assoc(base, done, s[start..i], EscapeFirst(s[i..]));
        done := done + s[start..i] + EscapeFirst(s[i..]);
        i := i + 1;
        start := i;
        continue;
      }
      var c := Rune(s[i..]);
      if c == 0x2028 || c == 0x2029 {
        Flush(buf, s, start, i);
        SeparatorStep(s, i);
        WriteSeparator(buf, c);
        Flushed(s, start, i, done, size);
        Assoc(base, done, s[start..i], EscapeFirst(s[i..]));
        done := done + s[start..i] + EscapeFirst(s[i..]);
        i := i + size;
        start := i;
        continue;
      }
      RuneStep(s, i);
      Held(s, start, i, done, size);
      i := i + size;
    }
    AtEnd(s, start, done);
    if start < |s| {
      buf.Write(s[start..]);
    }
    buf.Write([QUOTE]);
  }

  // ---- Reading ----

  function HexValue(b: Byte): (r: Option<nat>)
    ensures r.Some? ==> r.value < 16
  {
    if 0x30 <= b < 0x3A then Some(Low(b, 0x30))
    else if 0x61 <= b < 0x67 then Some(Low(b, 0x61) + 10)
    else if 0x41 <= b < 0x47 then Some(Low(b, 0x41) + 10)
    else None
  }

  function FourDigits(a: nat, b: nat, c: nat, d: nat): (n: nat)
    requires a < 16 && b < 16 && c < 16 && d < 16
    ensures n < 0x1_0000
  {
    a * 0x1000 + b * 0x100 + c * 16 + d
  }

  /** Four hexadecimal digits. */
  function FourHex(s: Bytes): (r: Option<nat>)
    ensures r.Some? ==> |s| >= 4 && r.value < 0x1_0000
  {
    if |s| < 4 then None
    else
      var a, b, c, d := HexValue(s[0]), HexValue(s[1]), HexValue(s[2]), HexValue(s[3]);
      if a.None? || b.None? || c.None? || d.None? then None
      else Some(FourDigits(a.value, b.value, c.value, d.value))
  }

  /** What a one-letter escape stands for. */
  function Letter(b: Byte): Option<Byte> {
    if b == QUOTE || b == BACKSLASH || b == 0x2F then Some(b)
    else if b == 0x62 then Some(0x08)
    else if b == 0x66 then Some(0x0C)
    else if b == 0x6E then Some(0x0A)
    else if b == 0x72 then Some(0x0D)
    else if b == 0x74 then Some(0x09)
    else None
  }

  function Prepend(a: Bytes, r: Option<Bytes>): Option<Bytes> {
    if r.None? then None else Some(a + r.value)
  }

  /** Characters up to the closing quote, which must end the text. A code point outside the basic
      plane may be written as a pair of escapes; half a pair is an error. */
  function ReadChars(t: Bytes): Option<Bytes>
    decreases |t|
  {
    if t == [] then None
    else if t[0] == QUOTE then if |t| == 1 then Some([]) else None
    else if t[0] == BACKSLASH then
      if |t| == 1 then None
      else if t[1] != 0x75 then
        var c := Letter(t[1]);
        if c.None? then None else Prepend([c.value], ReadChars(t[2..]))
      else
        var c := FourHex(t[2..]);
        if c.None? then None
        else if 0xD800 <= c.value < 0xDC00 then
          if |t| >= 12 && t[6] == BACKSLASH && t[7] == 0x75 then
            var d := FourHex(t[8..]);
            if d.Some? && 0xDC00 <= d.value < 0xE000
            then Prepend(Utf8(0x1_0000 + (c.value - 0xD800) * 0x400 + (d.value - 0xDC00)), ReadChars(t[12..]))
            else None
          else None
        else if 0xDC00 <= c.value < 0xE000 then None
        else Prepend(Utf8(c.value), ReadChars(t[6..]))
    else if t[0] < 0x20 || RuneSize(t) == 0 then None
    else Prepend(t[..RuneSize(t)], ReadChars(t[RuneSize(t)..]))
  }

  /** Reads a JSON string, giving its characters in UTF-8, or nothing if it is not one. */
  function ReadString(t: Bytes): Option<Bytes> {
    if t != [] && t[0] == QUOTE then ReadChars(t[1..]) else None
  }

  lemma HexRead(d: nat)
    requires d < 16
    ensures HexValue(Hex(d)) == Some(d)
  {
  }

  lemma Digits(c: nat)
    requires c < 0x1_0000
    ensures c == (c / 0x1000) * 0x1000 + (c / 0x100 % 16) * 0x100 + (c / 16 % 16) * 16 + c % 16
    ensures c / 0x1000 < 16
  {
    assert c / 16 / 16 == c / 0x100 && c / 0x100 / 16 == c / 0x1000;
  }

  /** A `\u` escape is read as the character it stands for. */
  lemma ReadUnicode(c: nat, t: Bytes)
    requires c < 0x1_0000 && !(0xD800 <= c < 0xE000)
    ensures ReadChars(UnicodeEscape(c) + t) == Prepend(Utf8(c), ReadChars(t))
  {
    hide Hex, HexValue, Utf8;
    HexRead(c / 0x1000);
    HexRead(c / 0x100 % 16);
    HexRead(c / 16 % 16);
    HexRead(c % 16);
    Digits(c);
    var s := UnicodeEscape(c) + t;
    assert s[6..] == t;
    assert s[2..][0] == Hex(c / 0x1000) && s[2..][1] == Hex(c / 0x100 % 16) && s[2..][2] == Hex(c / 16 % 16) && s[2..][3] == Hex(c % 16);
    assert FourHex(s[2..]) == Some(c);
  }

  lemma ReadByte(b: Byte, t: Bytes)
    requires b < 0x80
    ensures ReadChars(EscapeByte(b) + t) == Prepend([b], ReadChars(t))
  {
    if Plain(b) {
      var s := [b] + t;
      assert RuneSize(s) == 1 && s[..1] == [b] && s[1..] == t;
    } else if b == BACKSLASH || b == QUOTE {
      assert ([BACKSLASH, b] + t)[2..] == t;
    } else if b == 0x0A {
      assert ([BACKSLASH, 0x6E] + t)[2..] == t;
    } else if b == 0x0D {
      assert ([BACKSLASH, 0x72] + t)[2..] == t;
    } else {
      ReadUnicode(b, t);
    }
  }

  lemma ReadRune(s: Bytes, t: Bytes)
    requires s != [] && s[0] >= 0x80 && RuneSize(s) > 0
    ensures ReadChars(s[..RuneSize(s)] + t) == Prepend(s[..RuneSize(s)], ReadChars(t))
  {
    hide RuneSize, Rune;
    RuneFront(s, t);
    var n := RuneSize(s);
    var u := s[..n] + t;
    assert u[0] == s[0] && u[..n] == s[..n] && u[n..] == t;
  }

  /** One character written is one character read. */
  lemma ReadFirst(s: Bytes, t: Bytes)
    requires s != []
    ensures ReadChars(EscapeFirst(s) + t)
         == Prepend(if RuneSize(s) == 0 then Utf8(RUNE_ERROR) else s[..RuneSize(s)], ReadChars(t))
  {
    hide UnicodeEscape, ReadChars, EscapeByte;
    if s[0] < 0x80 {
      ReadByte(s[0], t);
      assert s[..1] == [s[0]];
    } else if RuneSize(s) == 0 {
      ReadUnicode(RUNE_ERROR, t);
    } else if LineSeparator(Rune(s)) {
      RuneRange(s);
      ShortRune(s);
      ReadUnicode(Rune(s), t);
    } else {
      ReadRune(s, t);
    }
  }

  /** What was written is read back, with each byte outside a valid character replaced by U+FFFD. */
  lemma {:induction false} RoundTripChars(s: Bytes)
    ensures ReadChars(Escaped(s) + [QUOTE]) == Some(Repaired(s))
  {
    hide EscapeFirst, RuneSize, Utf8;
    if s == [] {
      assert [] + [QUOTE] == [QUOTE];
    } else {
      var rest := s[Advance(s)..];
      RoundTripChars(rest);
      ReadFirst(s, Escaped(rest) + [QUOTE]);
      assert Escaped(s) + [QUOTE] == EscapeFirst(s) + (Escaped(rest) + [QUOTE]);
    }
  }

  lemma RoundTrip(s: Bytes)
    ensures ReadString(Quoted(s)) == Some(Repaired(s))
    ensures Valid(s) ==> ReadString(Quoted(s)) == Some(s)
  {
    hide Repaired, Escaped, ReadChars;
    RoundTripChars(s);
    assert Quoted(s)[1..] == Escaped(s) + [QUOTE];
    if Valid(s) { ValidUnchanged(s); }
  }

  /** The text can stand in an HTML page or a script: no control characters, no characters with a
      meaning in HTML, and no line separators. */
  predicate Harmless(t: Bytes) {
    forall i | 0 <= i < |t| ::
      && t[i] >= 0x20 && t[i] != 0x3C && t[i] != 0x3E && t[i] != 0x26
      && !(i + 2 < |t| && t[i] == 0xE2 && t[i + 1] == 0x80 && (t[i + 2] == 0xA8 || t[i + 2] == 0xA9))
  }

  lemma NothingHarmless()
    ensures Harmless([])
  {
  }

  lemma AsciiEscape(c: nat)
    requires c < 0x1_0000
    ensures forall i | 0 <= i < 6 :: 0x30 <= UnicodeEscape(c)[i] < 0x80 && UnicodeEscape(c)[i] != 0x3C && UnicodeEscape(c)[i] != 0x3E
  {
  }

  lemma AsciiPiece(b: Byte)
    requires b < 0x80
    ensures var e := EscapeByte(b); forall i | 0 <= i < |e| :: 0x20 <= e[i] < 0x80 && e[i] != 0x3C && e[i] != 0x3E && e[i] != 0x26
  {
    if !Plain(b) { AsciiEscape(b); }
  }

  /** In the escape of one character, the byte that starts a line separator can only be the first of
      three, and those are not a separator's. */
  lemma PieceHarmless(s: Bytes)
    requires s != []
    ensures var e := EscapeFirst(s);
      forall i | 0 <= i < |e| ::
        && e[i] >= 0x20 && e[i] != 0x3C && e[i] != 0x3E && e[i] != 0x26
        && (e[i] == 0xE2 ==> i == 0 && |e| == 3 && !(e[1] == 0x80 && (e[2] == 0xA8 || e[2] == 0xA9)))
  {
    if s[0] < 0x80 {
      AsciiPiece(s[0]);
    } else if RuneSize(s) == 0 {
      AsciiEscape(RUNE_ERROR);
    } else if LineSeparator(Rune(s)) {
      AsciiEscape(Rune(s));
    }
  }

  lemma FirstHarmless(s: Bytes, t: Bytes)
    requires s != [] && Harmless(t)
    ensures Harmless(EscapeFirst(s) + t)
  {
    hide EscapeFirst;
    var e := EscapeFirst(s);
    PieceHarmless(s);
    var u := e + t;
    forall i | 0 <= i < |u|
      ensures u[i] >= 0x20 && u[i] != 0x3C && u[i] != 0x3E && u[i] != 0x26
      ensures !(i + 2 < |u| && u[i] == 0xE2 && u[i + 1] == 0x80 && (u[i + 2] == 0xA8 || u[i + 2] == 0xA9))
    {
      if i >= |e| {
        assert u[i] == t[i - |e|];
        if i + 2 < |u| { assert u[i + 1] == t[i + 1 - |e|] && u[i + 2] == t[i + 2 - |e|]; }
      } else {
        assert u[i] == e[i];
      }
    }
  }

  lemma {:induction false} EscapedHarmless(s: Bytes)
    ensures Harmless(Escaped(s))
  {
    hide EscapeFirst, RuneSize, Harmless;
    if s == [] {
      NothingHarmless();
    } else {
      EscapedHarmless(s[Advance(s)..]);
      FirstHarmless(s, Escaped(s[Advance(s)..]));
    }
  }
}
