/** The Python string operations that the transfer protocol, the AFL framing and the FD manager rely on:
    UTF-8 encoding and strict decoding, decimal formatting, str.split() and ' '.join(). */
module Text {
  import opened Collections

  type byte = x: int | 0 <= x < 256

  // ---- UTF-8 (RFC 3629 section 3) ----

  function EncodeChar(c: char): seq<byte> {
    var v := c as int;
    var q := v / 64;
    var r := q / 64;
    if v < 0x80 then [v]
    else if v < 0x800 then [0xC0 + q, 0x80 + v % 64]
    else if v < 0x1_0000 then [0xE0 + r, 0x80 + q % 64, 0x80 + v % 64]
    else [0xF0 + r / 64, 0x80 + r % 64, 0x80 + q % 64, 0x80 + v % 64]
  }

  /** RFC 3629: the lead byte says how many there are, and the bits of the character are those of the bytes, the
      highest first. */
  lemma EncodeCharBits(c: char)
    ensures |EncodeChar(c)| ==
      if c as int < 0x80 then 1 else if c as int < 0x800 then 2 else if c as int < 0x1_0000 then 3 else 4
    ensures forall i :: 1 <= i < |EncodeChar(c)| ==> 0x80 <= EncodeChar(c)[i] < 0xC0
    ensures var b: seq<int> := EncodeChar(c);
      match |b|
      case 1 => b[0] == c as int < 0x80
      case 2 => 0xC0 <= b[0] < 0xE0 && c as int == 64 * (b[0] - 0xC0) + b[1] - 0x80
      case 3 => 0xE0 <= b[0] < 0xF0 && c as int == 4096 * (b[0] - 0xE0) + 64 * (b[1] - 0x80) + b[2] - 0x80
      case _ =>
        && 0xF0 <= b[0] < 0xF8
        && c as int == 262144 * (b[0] - 0xF0) + 4096 * (b[1] - 0x80) + 64 * (b[2] - 0x80) + b[3] - 0x80
  {
    var v := c as int;
    var q := v / 64;
    var r := q / 64;
    assert v == 64 * q + v % 64 && q == 64 * r + q % 64 && r == 64 * (r / 64) + r % 64;
  }

  function Encode(s: string): seq<byte> {
    if s == "" then [] else EncodeChar(s[0]) + Encode(s[1..])
  }

  predicate IsTail(b: seq<byte>, i: nat) {
    i < |b| && 0x80 <= b[i] < 0xC0
  }

  predicate IsScalar(v: int) {
    0 <= v < 0xD800 || 0xE000 <= v < 0x11_0000
  }

  /** Six more bits from a continuation byte. */
  function More(high: int, tail: int): int {
    high * 64 + (tail - 0x80)
  }

  function Scalar(v: int, least: int, n: nat): Option<(char, nat)> {
    if least <= v && IsScalar(v) then Some((v as char, n)) else None
  }

  /** The scalar value at the front of b with its number of bytes; None where a strict decoder raises. */
  function DecodeFirst(b: seq<byte>): Option<(char, nat)>
    requires b != []
  {
    var lead: int := b[0];
    if lead < 0x80 then Scalar(lead, 0, 1)
    else if 0xC0 <= lead < 0xE0 && IsTail(b, 1) then
      Scalar(More(lead - 0xC0, b[1]), 0x80, 2)
    else if 0xE0 <= lead < 0xF0 && IsTail(b, 1) && IsTail(b, 2) then
      Scalar(More(More(lead - 0xE0, b[1]), b[2]), 0x800, 3)
    else if 0xF0 <= lead < 0xF8 && IsTail(b, 1) && IsTail(b, 2) && IsTail(b, 3) then
      Scalar(More(More(More(lead - 0xF0, b[1]), b[2]), b[3]), 0x1_0000, 4)
    else None
  }

  function Decode(b: seq<byte>): Option<string> {
    if b == [] then Some("")
    else
      match DecodeFirst(b)
      case None => None
      case Some((c, n)) =>
        if n > |b| then None
        else
          match Decode(b[n..])
          case None => None
          case Some(s) => Some([c] + s)
  }

  lemma DivMore(high: int, low: int)
    requires 0 <= low < 64
    ensures (high * 64 + low) / 64 == high && (high * 64 + low) % 64 == low
  {
  }

  lemma DecodeEncodedChar(c: char, rest: seq<byte>)
    ensures DecodeFirst(EncodeChar(c) + rest) == Some((c, |EncodeChar(c)|))
  {
    var v := c as int;
    var q := v / 64;
    var r := q / 64;
    var b := EncodeChar(c) + rest;
    assert v == q * 64 + v % 64 && q == r * 64 + q % 64 && r == r / 64 * 64 + r % 64;
    if v < 0x80 {
    } else if v < 0x800 {
      assert More(b[0] - 0xC0, b[1]) == v;
    } else if v < 0x1_0000 {
      assert More(b[0] - 0xE0, b[1]) == q;
    } else {
      assert More(b[0] - 0xF0, b[1]) == r;
      assert More(r, b[2]) == q;
    }
  }

  /** decode() undoes encode(). */
  lemma {:induction false} DecodeEncode(s: string)
    ensures Decode(Encode(s)) == Some(s)
  {
    if s != "" {
      DecodeEncodedChar(s[0], Encode(s[1..]));
      DecodeEncode(s[1..]);
      assert [s[0]] + s[1..] == s;
      assert Encode(s)[|EncodeChar(s[0])|..] == Encode(s[1..]);
    }
  }

  lemma DecodedCharEncodes(b: seq<byte>)
    requires b != [] && DecodeFirst(b).Some?
    ensures 1 <= DecodeFirst(b).value.1 <= |b|
    ensures EncodeChar(DecodeFirst(b).value.0) == b[..DecodeFirst(b).value.1]
  {
    var lead: int := b[0];
    if lead >= 0x80 {
      if lead < 0xE0 {
        DivMore(lead - 0xC0, b[1] - 0x80);
      } else if lead < 0xF0 {
        var q := More(lead - 0xE0, b[1]);
        DivMore(lead - 0xE0, b[1] - 0x80);
        DivMore(q, b[2] - 0x80);
      } else {
        var r := More(lead - 0xF0, b[1]);
        var q := More(r, b[2]);
        DivMore(lead - 0xF0, b[1] - 0x80);
        DivMore(r, b[2] - 0x80);
        DivMore(q, b[3] - 0x80);
      }
    }
  }

  /** encode() undoes decode(): a byte string has at most one reading. */
  lemma {:induction false} EncodeDecode(b: seq<byte>)
    requires Decode(b).Some?
    ensures Encode(Decode(b).value) == b
  {
    if b != [] {
      var c, n := DecodeFirst(b).value.0, DecodeFirst(b).value.1;
      DecodedCharEncodes(b);
      EncodeDecode(b[n..]);
      assert Decode(b).value[1..] == Decode(b[n..]).value;
      assert b == b[..n] + b[n..];
    }
  }

  lemma {:induction false} EncodeAppend(s: string, t: string)
    ensures Encode(s + t) == Encode(s) + Encode(t)
  {
    if s == "" {
      assert s + t == t;
    } else {
      assert (s + t)[1..] == s[1..] + t;
      EncodeAppend(s[1..], t);
    }
  }

  /** If a decodable byte string is a prefix of an encoded one, the texts are in the same relation. */
  lemma {:induction false} PrefixDecodesToPrefix(s: string, t: string)
    requires Encode(s) <= Encode(t)
    ensures s <= t
  {
    if s != "" {
      assert t != "";
      var bs, bt := Encode(s), Encode(t);
      DecodeEncodedChar(s[0], Encode(s[1..]));
      DecodeEncodedChar(t[0], Encode(t[1..]));
      FirstOfPrefix(bs, bt);
      var n := |EncodeChar(s[0])|;
      assert Encode(s[1..]) == bs[n..] && Encode(t[1..]) == bt[n..];
      PrefixDecodesToPrefix(s[1..], t[1..]);
      assert t == [t[0]] + t[1..];
    }
  }

  lemma FirstOfPrefix(a: seq<byte>, b: seq<byte>)
    requires a != [] && a <= b && DecodeFirst(a).Some?
    ensures DecodeFirst(b) == DecodeFirst(a)
  {
  }

  // ---- Decimal ----

  predicate IsDigit(c: char) {
    '0' <= c <= '9'
  }

  function Decimal(n: nat): (s: string)
    ensures s != "" && forall i :: 0 <= i < |s| ==> IsDigit(s[i])
  {
    var d := [('0' as int + n % 10) as char];
    if n < 10 then d else Decimal(n / 10) + d
  }

  lemma {:induction false} DecimalInjective(a: nat, b: nat)
    requires Decimal(a) == Decimal(b)
    ensures a == b
  {
    var x, y := Decimal(a), Decimal(b);
    assert x[|x| - 1] == y[|y| - 1];
    if a < 10 || b < 10 {
      assert a < 10 ==> |x| == 1;
      assert b < 10 ==> |y| == 1;
    } else {
      assert x[..|x| - 1] == Decimal(a / 10) && y[..|y| - 1] == Decimal(b / 10);
      DecimalInjective(a / 10, b / 10);
    }
  }

  /** The number that digits spell in base ten. */
  function ValueOf(digits: string): int {
    if digits == "" then 0 else 10 * ValueOf(digits[..|digits| - 1]) + (digits[|digits| - 1] as int - '0' as int)
  }

  /** The decimal form spells the number, without a leading zero. */
  lemma {:induction false} DecimalSpells(n: nat)
    ensures ValueOf(Decimal(n)) == n && (Decimal(n)[0] == '0' ==> n == 0)
  {
    var d := Decimal(n);
    if n >= 10 {
      DecimalSpells(n / 10);
      assert d[..|d| - 1] == Decimal(n / 10);
    } else {
      assert d[..0] == "";
    }
  }

  /** ASCII text is encoded as it is. */
  lemma {:induction false} AsciiBytes(s: string)
    requires forall i :: 0 <= i < |s| ==> s[i] < 128 as char
    ensures |Encode(s)| == |s| && forall i :: 0 <= i < |s| ==> Encode(s)[i] == s[i] as int
  {
    if s != "" {
      AsciiBytes(s[1..]);
      assert EncodeChar(s[0]) == [s[0] as int];
    }
  }

  // ---- split and join ----

  predicate IsSpace(c: char) {
    var v := c as int;
    || 0x09 <= v <= 0x0D || 0x1C <= v <= 0x20 || v == 0x85 || v == 0xA0 || v == 0x1680
    || 0x2000 <= v <= 0x200A || v == 0x2028 || v == 0x2029 || v == 0x202F || v == 0x205F || v == 0x3000
  }

  predicate IsWord(w: string) {
    w != "" && forall i :: 0 <= i < |w| ==> !IsSpace(w[i])
  }

  /** Length of the run of non-space characters at the front. */
  function WordLength(s: string): (n: nat)
    ensures n <= |s|
    ensures forall i :: 0 <= i < n ==> !IsSpace(s[i])
    ensures n < |s| ==> IsSpace(s[n])
  {
    if s == "" || IsSpace(s[0]) then 0 else 1 + WordLength(s[1..])
  }

  /** str.split() */
  function Words(s: string): (ws: seq<string>)
    ensures forall i :: 0 <= i < |ws| ==> IsWord(ws[i])
  {
    if s == "" then []
    else if IsSpace(s[0]) then Words(s[1..])
    else [s[..WordLength(s)]] + Words(s[WordLength(s)..])
  }

  /** ' '.join(ws) */
  function Join(ws: seq<string>): string {
    if ws == [] then "" else if |ws| == 1 then ws[0] else ws[0] + " " + Join(ws[1..])
  }

  lemma WordLengthAppend(s: string, t: string)
    requires t != "" ==> IsSpace(t[0])
    ensures WordLength(s + t) == WordLength(s)
  {
    if s == "" {
      assert s + t == t;
    } else {
      assert (s + t)[1..] == s[1..] + t;
    }
  }

  /** Splitting distributes over white space of any kind. */
  lemma {:induction false} WordsAtAnySpace(s: string, c: char, t: string)
    requires IsSpace(c)
    ensures Words(s + [c] + t) == Words(s) + Words(t)
    decreases |s|
  {
    hide IsSpace;
    var u := s + [c] + t;
    if s == "" {
      assert u[1..] == t;
    } else if IsSpace(s[0]) {
      WordsAtAnySpace(s[1..], c, t);
      assert u[1..] == s[1..] + [c] + t;
    } else {
      var n := WordLength(s);
      WordLengthAppend(s, [c] + t);
      assert u == s + ([c] + t);
      assert u[..n] == s[..n] && u[n..] == s[n..] + [c] + t;
      WordsAtAnySpace(s[n..], c, t);
    }
  }

  lemma WordsAtSpace(s: string, t: string)
    ensures Words(s + " " + t) == Words(s) + Words(t)
  {
    WordsAtAnySpace(s, ' ', t);
  }

  lemma WordsOfWord(w: string)
    requires IsWord(w)
    ensures Words(w) == [w]
  {
    var n := WordLength(w);
    assert n == |w|;
    assert w[..n] == w && w[n..] == "";
  }

  /** What a name becomes on its way through split and join. */
  function Normal(s: string): string {
    Join(Words(s))
  }

  /** No space at either end, no two in a row, and none but the plain one. */
  predicate Tidy(s: string) {
    forall i :: 0 <= i < |s| && IsSpace(s[i]) ==> s[i] == ' ' && 0 < i < |s| - 1 && !IsSpace(s[i + 1])
  }

  lemma {:induction false} JoinIsTidy(ws: seq<string>)
    requires forall i :: 0 <= i < |ws| ==> IsWord(ws[i])
    ensures Tidy(Join(ws))
    ensures ws != [] ==> Join(ws) != "" && !IsSpace(Join(ws)[0])
  {
    if |ws| > 1 {
      JoinIsTidy(ws[1..]);
      var rest := Join(ws[1..]);
      var r := Join(ws);
      var n := |ws[0]|;
      assert r == ws[0] + " " + rest;
      forall i | 0 <= i < |r| && IsSpace(r[i]) ensures r[i] == ' ' && 0 < i < |r| - 1 && !IsSpace(r[i + 1]) {
        if i > n {
          assert r[i] == rest[i - n - 1];
          assert i < |r| - 1 ==> r[i + 1] == rest[i - n];
        } else if i == n {
          assert r[n + 1] == rest[0];
        }
      }
    }
  }

  lemma {:induction false} TidyIsNormal(s: string)
    requires Tidy(s)
    ensures Normal(s) == s
    decreases |s|
  {
    if s != "" {
      assert !IsSpace(s[0]);
      var n := WordLength(s);
      if n == |s| {
        WordsOfWord(s);
      } else {
        var t := s[n + 1..];
        assert s == s[..n] + " " + t;
        assert Tidy(t) by {
          forall i | 0 <= i < |t| && IsSpace(t[i]) ensures t[i] == ' ' && 0 < i < |t| - 1 && !IsSpace(t[i + 1]) {
            assert s[n + 1 + i] == t[i];
            assert !IsSpace(s[n + 1]);
          }
        }
        TidyIsNormal(t);
        assert s[n..][1..] == t;
        assert Words(s) == [s[..n]] + Words(t);
        assert Words(t) != [] by {
          assert t != "" && !IsSpace(t[0]);
        }
        assert Words(s)[1..] == Words(t);
      }
    }
  }

  /** A text survives split and join exactly when it is tidy. */
  lemma NormalIffTidy(s: string)
    ensures Normal(s) == s <==> Tidy(s)
  {
    JoinIsTidy(Words(s));
    if Tidy(s) {
      TidyIsNormal(s);
    }
  }

  // ---- Counting the characters that split keeps ----

  function Solid(s: string): nat {
    if s == "" then 0 else (if IsSpace(s[0]) then 0 else 1) + Solid(s[1..])
  }

  lemma {:induction false} SolidAppend(s: string, t: string)
    ensures Solid(s + t) == Solid(s) + Solid(t)
  {
    if s == "" {
      assert s + t == t;
    } else {
      assert (s + t)[1..] == s[1..] + t;
      SolidAppend(s[1..], t);
    }
  }

  function SolidWords(ws: seq<string>): nat {
    if ws == [] then 0 else Solid(ws[0]) + SolidWords(ws[1..])
  }

  lemma {:induction false} SolidWordsAppend(a: seq<string>, b: seq<string>)
    ensures SolidWords(a + b) == SolidWords(a) + SolidWords(b)
  {
    if a == [] {
      assert a + b == b;
    } else {
      assert (a + b)[1..] == a[1..] + b;
      SolidWordsAppend(a[1..], b);
    }
  }

  lemma {:induction false} SolidOfWords(s: string)
    ensures SolidWords(Words(s)) == Solid(s)
    decreases |s|
  {
    if s == "" {
    } else if IsSpace(s[0]) {
      SolidOfWords(s[1..]);
    } else {
      var n := WordLength(s);
      SolidOfWords(s[n..]);
      assert s == s[..n] + s[n..];
      SolidAppend(s[..n], s[n..]);
      assert Words(s)[1..] == Words(s[n..]);
    }
  }

  lemma {:induction false} SolidOfJoin(ws: seq<string>)
    ensures Solid(Join(ws)) == SolidWords(ws)
  {
    if |ws| == 1 {
      assert ws[1..] == [];
    } else if |ws| > 1 {
      SolidOfJoin(ws[1..]);
      SolidAppend(ws[0] + " ", Join(ws[1..]));
      SolidAppend(ws[0], " ");
      assert Solid(" ") == 0;
    }
  }

  // ---- Slicing ----

  function EndsWith(s: string, t: string): bool {
    |t| <= |s| && s[|s| - |t|..] == t
  }

  /** Python's s[lo:hi] for non-negative bounds. */
  function Slice<T>(s: seq<T>, lo: nat, hi: nat): seq<T> {
    var h := if hi < |s| then hi else |s|;
    if lo < h then s[lo..h] else []
  }

  /** Python's s[:-n] for positive n. */
  function ButLast<T>(s: seq<T>, n: nat): seq<T> {
    if n <= |s| then s[..|s| - n] else []
  }
}
