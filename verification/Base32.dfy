/** Base32 (section 6 of RFC 4648) as the one-time-code module writes it: two loops over a
    32-bit accumulator that is never masked.  Both are related to the number their digits
    spell, which shows that the bits the shifts push out never mattered. */
module Base32 {
  import opened Options

  type Byte = x: nat | x < 256

  type Symbol = x: nat | x < 32

  const WORD := 0x1_0000_0000

  /** The accumulator, a JavaScript 32-bit integer, by its unsigned value. */
  type Word = x: nat | x < WORD

  function Pow2(k: nat): (p: nat)
    ensures p > 0
  {
    if k == 0 then 1 else 2 * Pow2(k - 1)
  }

  /** The powers the loops meet. */
  lemma SmallPowers()
    ensures Pow2(0) == 1 && Pow2(1) == 2 && Pow2(2) == 4 && Pow2(3) == 8 && Pow2(4) == 16
    ensures Pow2(5) == 32 && Pow2(6) == 64 && Pow2(7) == 128 && Pow2(8) == 256 && Pow2(9) == 512
    ensures Pow2(10) == 1024 && Pow2(11) == 2048 && Pow2(12) == 4096
  {
    assert Pow2(4) == 16;
    assert Pow2(8) == 256;
  }

  /** `(v << n) | x` for an `x` that fits in the `n` freed bits. */
  function ShiftIn(v: Word, n: nat, x: nat): Word
    requires n in {5, 8} && x < Pow2(n)
  {
    SmallPowers();
    v * Pow2(n) % WORD + x
  }

  /** `(v >>> n) & (2 ** m - 1)` */
  function Extract(v: Word, n: nat, m: nat): nat {
    v / Pow2(n) % Pow2(m)
  }

  // ---------------------------------------------------------------- arithmetic of one step

  lemma MulMonotone(a: int, b: int, m: int)
    requires a <= b && m >= 0
    ensures a * m <= b * m
  {
    assert (b - a) * m >= 0;
  }

  lemma MulPlus(a: int, b: int, m: int)
    ensures (a + b) * m == a * m + b * m
  {
  }

  lemma MulAssoc(a: int, b: int, c: int)
    ensures a * b * c == a * (b * c)
  {
  }

  lemma MulSwap(a: int, b: int)
    ensures a * b == b * a
  {
  }

  lemma QuotientUnique(q: int, r: int, q': int, r': int, m: int)
    requires m > 0 && q * m + r == q' * m + r' && 0 <= r < m && 0 <= r' < m
    ensures q == q'
  {
    MulPlus(q, 1, m);
    MulPlus(q', 1, m);
    if q < q' { MulMonotone(q + 1, q', m); }
    if q' < q { MulMonotone(q' + 1, q, m); }
  }

  lemma DivModUnique(x: int, m: int, q: int, r: int)
    requires m > 0 && x == q * m + r && 0 <= r < m
    ensures x / m == q && x % m == r
  {
    QuotientUnique(q, r, x / m, x % m, m);
  }

  lemma PowSplit(a: nat, b: nat)
    ensures Pow2(a + b) == Pow2(a) * Pow2(b)
    decreases a
  {
    if a > 0 {
      PowSplit(a - 1, b);
      assert Pow2(a) * Pow2(b) == 2 * (Pow2(a - 1) * Pow2(b));
    }
  }

  /** Only the low bits count: shifting `v` left by a factor `s` within a word of `b * s * h`
      keeps its residue modulo `b` just above the new digits, whatever the wrap-around loses. */
  lemma ShiftLow(v: nat, b: nat, s: nat, h: nat, x: nat)
    requires b > 0 && s > 0 && h > 0 && x < s
    ensures b * s * h > 0 && b * s > 0
    ensures (v * s % (b * s * h) + x) % (b * s) == v % b * s + x
  {
    var bs := b * s;
    MulMonotone(1, b, s);
    var word := bs * h;
    MulMonotone(1, bs, h);
    var q, r := v / b, v % b;
    var t, u := v * s / word, v * s % word;
    assert v * s == q * bs + r * s by {
      MulPlus(q * b, r, s);
      MulAssoc(q, b, s);
    }
    assert t * word == t * h * bs by {
      MulSwap(bs, h);
      MulAssoc(t, h, bs);
    }
    assert (q - t * h) * bs == q * bs - t * h * bs by { MulPlus(q - t * h, t * h, bs); }
    assert r * s + x < bs by {
      MulPlus(r, 1, s);
      MulMonotone(r + 1, b, s);
    }
    DivModUnique(u + x, bs, q - t * h, r * s + x);
  }

  lemma ShiftInLow(v: Word, bits: nat, n: nat, x: nat)
    requires n in {5, 8} && x < Pow2(n) && bits + n <= 32
    ensures ShiftIn(v, n, x) % Pow2(bits + n) == v % Pow2(bits) * Pow2(n) + x
  {
    hide Pow2;
    PowSplit(bits, n);
    PowSplit(bits + n, 32 - bits - n);
    WordIsPow();
    ShiftLow(v, Pow2(bits), Pow2(n), Pow2(32 - bits - n), x);
  }

  lemma WordIsPow()
    ensures Pow2(32) == WORD
  {
    SmallPowers();
    PowSplit(8, 8);
    PowSplit(16, 16);
  }

  /** Splitting a residue: the digits above `low`, then the residue modulo `low`. */
  lemma SplitLow(v: nat, low: nat, mid: nat)
    requires low > 0 && mid > 0
    ensures low * mid > 0 && v % (low * mid) == v / low % mid * low + v % low
  {
    MulMonotone(1, low, mid);
    var q, r := v / low, v % low;
    var q2, r2 := q / mid, q % mid;
    assert q * low == q2 * (low * mid) + r2 * low by {
      MulPlus(q2 * mid, r2, low);
      MulAssoc(q2, mid, low);
      MulSwap(mid, low);
    }
    assert r2 * low + r < low * mid by {
      MulPlus(r2, 1, low);
      MulMonotone(r2 + 1, mid, low);
      MulSwap(mid, low);
    }
    DivModUnique(v, low * mid, q2, r2 * low + r);
  }

  /** Taking the top `m` of the low `bits` bits out leaves the bits below them. */
  lemma ExtractHigh(v: Word, bits: nat, m: nat)
    requires m <= bits
    ensures v % Pow2(bits) == Extract(v, bits - m, m) * Pow2(bits - m) + v % Pow2(bits - m)
  {
    hide Pow2;
    PowSplit(bits - m, m);
    SplitLow(v, Pow2(bits - m), Pow2(m));
  }

  // ---------------------------------------------------------------- digits as numbers

  /** The number the digits spell, most significant first. */
  function Num(base: nat, digits: seq<nat>): nat {
    if digits == [] then 0 else Num(base, digits[..|digits|-1]) * base + digits[|digits|-1]
  }

  lemma NumStep(base: nat, digits: seq<nat>, d: nat)
    ensures Num(base, digits + [d]) == Num(base, digits) * base + d
  {
    assert (digits + [d])[..|digits|] == digits;
  }

  lemma {:induction false} NumInjective(base: nat, x: seq<nat>, y: seq<nat>)
    requires base > 0 && |x| == |y| && Num(base, x) == Num(base, y)
    requires forall i | 0 <= i < |x| :: x[i] < base && y[i] < base
    ensures x == y
  {
    if x != [] {
      var n := |x| - 1;
      DivModUnique(Num(base, x), base, Num(base, x[..n]), x[n]);
      DivModUnique(Num(base, y), base, Num(base, y[..n]), y[n]);
      NumInjective(base, x[..n], y[..n]);
      assert x == x[..n] + [x[n]] && y == y[..n] + [y[n]];
    }
  }

  /** `symbols` spell the same number as `bytes`, filled up with zero bits to a whole symbol. */
  ghost predicate IsEncoding(bytes: seq<Byte>, symbols: seq<Symbol>) {
    var pad := 5 * |symbols| - 8 * |bytes|;
    0 <= pad < 5 && Num(32, symbols) == Num(256, bytes) * Pow2(pad)
  }

  /** The bits of `symbols` in groups of eight; what does not fill a group is thrown away. */
  ghost predicate IsDecoding(symbols: seq<Symbol>, bytes: seq<Byte>) {
    var rest := 5 * |symbols| - 8 * |bytes|;
    0 <= rest < 8 && Num(256, bytes) == Num(32, symbols) / Pow2(rest)
  }

  /** Decoding an encoding gives the bytes back. */
  lemma RoundTrip(bytes: seq<Byte>, symbols: seq<Symbol>, back: seq<Byte>)
    requires IsEncoding(bytes, symbols) && IsDecoding(symbols, back)
    ensures back == bytes
  {
    var pad := 5 * |symbols| - 8 * |bytes|;
    assert |back| == |bytes|;
    DivModUnique(Num(32, symbols), Pow2(pad), Num(256, bytes), 0);
    NumInjective(256, back, bytes);
  }

  /** What the code accepts is more than what it writes: a key text survives decoding and
      encoding exactly when fewer than five bits are thrown away and all of them are zero. */
  lemma CanonicalText(symbols: seq<Symbol>, bytes: seq<Byte>, again: seq<Symbol>)
    requires IsDecoding(symbols, bytes) && IsEncoding(bytes, again)
    ensures var rest := 5 * |symbols| - 8 * |bytes|;
            again == symbols <==> rest < 5 && Num(32, symbols) % Pow2(rest) == 0
  {
    hide Pow2, Num;
    var rest := 5 * |symbols| - 8 * |bytes|;
    var whole := Num(32, symbols);
    EuclidLaw(whole, Pow2(rest));
    if rest < 5 {
      assert |again| == |symbols|;
      if whole % Pow2(rest) == 0 {
        NumInjective(32, again, symbols);
      }
    }
  }

  lemma EuclidLaw(x: nat, m: nat)
    requires m > 0
    ensures x == x / m * m + x % m
  {
  }

  // ---------------------------------------------------------------- the loops

  method EncodeSymbols(bytes: seq<Byte>) returns (out: seq<Symbol>)
    ensures IsEncoding(bytes, out)
  {
    hide Pow2, Num;
    SmallPowers();
    NumEmpty();
    var bits := 0;
    var value: Word := 0;
    out := [];
    for k := 0 to |bytes|
      invariant bits < 5 && 5 * |out| + bits == 8 * k
      invariant Num(32, out) * Pow2(bits) + value % Pow2(bits) == Num(256, bytes[..k])
    {
      var byte := bytes[k];
      assert bytes[..k+1] == bytes[..k] + [byte];
      NumStep(256, bytes[..k], byte);
      PushStep(Num(32, out), value, bits, 8, byte);
      value := ShiftIn(value, 8, byte);
      bits := bits + 8;
      while bits >= 5
        invariant bits <= 12 && 5 * |out| + bits == 8 * (k + 1)
        invariant Num(32, out) * Pow2(bits) + value % Pow2(bits) == Num(256, bytes[..k+1])
      {
        var symbol := Extract(value, bits - 5, 5);
        NumStep(32, out, symbol);
        PopStep(Num(32, out), value, bits, 5);
        out := out + [symbol];
        bits := bits - 5;
      }
    }
    assert bytes[..|bytes|] == bytes;
    if bits > 0 {
      var symbol := LastSymbol(value, bits);
      NumStep(32, out, symbol);
      LastStep(Num(32, out), value, bits);
      out := out + [symbol];
    }
  }

  lemma NumEmpty()
    ensures Num(32, []) == 0 && Num(256, []) == 0
  {
  }

  /** `(v << (5 - bits)) & 31` */
  function LastSymbol(v: Word, bits: nat): Symbol
    requires 0 < bits < 5
  {
    v * Pow2(5 - bits) % WORD % 32
  }

  lemma LastIsLow(v: Word, bits: nat)
    requires 0 < bits < 5
    ensures LastSymbol(v, bits) == v % Pow2(bits) * Pow2(5 - bits)
  {
    hide Pow2;
    SmallPowers();
    WordIsPow();
    PowSplit(bits, 5 - bits);
    PowSplit(5, 27);
    ShiftLow(v, Pow2(bits), Pow2(5 - bits), Pow2(27), 0);
  }

  lemma LastStep(n: nat, v: Word, bits: nat)
    requires 0 < bits < 5
    ensures n * 32 + LastSymbol(v, bits) == (n * Pow2(bits) + v % Pow2(bits)) * Pow2(5 - bits)
  {
    hide Pow2, LastSymbol;
    SmallPowers();
    LastIsLow(v, bits);
    PowSplit(bits, 5 - bits);
    MulPlus(n * Pow2(bits), v % Pow2(bits), Pow2(5 - bits));
    MulAssoc(n, Pow2(bits), Pow2(5 - bits));
  }

  lemma PushStep(n: nat, v: Word, bits: nat, m: nat, x: nat)
    requires m in {5, 8} && x < Pow2(m) && bits + m <= 32
    ensures n * Pow2(bits + m) + ShiftIn(v, m, x) % Pow2(bits + m) == (n * Pow2(bits) + v % Pow2(bits)) * Pow2(m) + x
  {
    hide Pow2, ShiftIn;
    ShiftInLow(v, bits, m, x);
    PowSplit(bits, m);
    MulPlus(n * Pow2(bits), v % Pow2(bits), Pow2(m));
    MulAssoc(n, Pow2(bits), Pow2(m));
  }

  lemma PopStep(n: nat, v: Word, bits: nat, m: nat)
    requires m <= bits
    ensures (n * Pow2(m) + Extract(v, bits - m, m)) * Pow2(bits - m) + v % Pow2(bits - m)
            == n * Pow2(bits) + v % Pow2(bits)
  {
    hide Pow2, Extract;
    ExtractHigh(v, bits, m);
    PowSplit(m, bits - m);
    MulPlus(n * Pow2(m), Extract(v, bits - m, m), Pow2(bits - m));
    MulAssoc(n, Pow2(m), Pow2(bits - m));
  }

  method DecodeSymbols(symbols: seq<Symbol>) returns (out: seq<Byte>)
    ensures IsDecoding(symbols, out)
  {
    hide Pow2, Num;
    SmallPowers();
    NumEmpty();
    var bits := 0;
    var value: Word := 0;
    out := [];
    for k := 0 to |symbols|
      invariant bits < 8 && 8 * |out| + bits == 5 * k
      invariant Num(256, out) * Pow2(bits) + value % Pow2(bits) == Num(32, symbols[..k])
    {
      var idx := symbols[k];
      assert symbols[..k+1] == symbols[..k] + [idx];
      NumStep(32, symbols[..k], idx);
      PushStep(Num(256, out), value, bits, 5, idx);
      value := ShiftIn(value, 5, idx);
      bits := bits + 5;
      if bits >= 8 {
        var byte := Extract(value, bits - 8, 8);
        NumStep(256, out, byte);
        PopStep(Num(256, out), value, bits, 8);
        out := out + [byte];
        bits := bits - 8;
      }
    }
    assert symbols[..|symbols|] == symbols;
    DivModUnique(Num(32, symbols), Pow2(bits), Num(256, out), value % Pow2(bits));
  }

  // ---------------------------------------------------------------- text

  const ALPHABET := "ABCDEFGHIJKLMNOPQRSTUVWXYZ234567"

  function Letter(x: Symbol): char {
    if x < 26 then ('A' as int + x) as char else ('2' as int + x - 26) as char
  }

  predicate InAlphabet(c: char) { 'A' <= c <= 'Z' || '2' <= c <= '7' }

  /** `Letter` indexes the alphabet string. */
  lemma LetterIsAlphabet(x: Symbol)
    ensures |ALPHABET| == 32 && ALPHABET[x] == Letter(x)
  {
  }

  /** `B32_ALPHABET.indexOf(c)`, with `None` for -1. */
  function IndexOf(c: char): (r: Option<Symbol>)
    ensures r.Some? <==> InAlphabet(c)
    ensures r.Some? ==> Letter(r.value) == c
  {
    if 'A' <= c <= 'Z' then Some(c as int - 'A' as int)
    else if '2' <= c <= '7' then Some(26 + c as int - '2' as int)
    else None
  }

  datatype Decoded = Bytes(bytes: seq<Byte>) | Empty | BadCharacter(c: char)

  predicate Ignored(c: char) {
    c in " \t\n\r-_" || c as int == 0x0B || c as int == 0x0C
  }

  function Upper(c: char): char {
    if 'a' <= c <= 'z' then (c as int - 32) as char else c
  }

  /** What is left of one character. */
  function Set(c: char): string { if Ignored(c) then [] else [Upper(c)] }

  /** Upper case, without white space, dashes and underscores. */
  function Squeezed(input: string): string {
    if input == [] then []
    else Set(input[0]) + Squeezed(input[1..])
  }

  function WithoutPadding(s: string): string {
    if s != [] && s[|s|-1] == '=' then WithoutPadding(s[..|s|-1]) else s
  }

  function Normalised(input: string): string { WithoutPadding(Squeezed(input)) }

  lemma SqueezedStep(s: string)
    ensures Squeezed(s) == if s == [] then [] else Set(s[0]) + Squeezed(s[1..])
  {
  }

  lemma {:induction false} SqueezedJoin(a: string, b: string)
    ensures Squeezed(a + b) == Squeezed(a) + Squeezed(b)
  {
    hide Squeezed, Set;
    SqueezedStep(a);
    SqueezedStep(a + b);
    if a == [] {
      assert a + b == b;
    } else {
      SqueezedJoin(a[1..], b);
      assert (a + b)[1..] == a[1..] + b;
    }
  }

  lemma SqueezedAround(a: string, c: char, b: string)
    ensures Squeezed(a + [c] + b) == Squeezed(a) + Set(c) + Squeezed(b)
  {
    hide Squeezed, Set;
    SqueezedJoin(a + [c], b);
    SqueezedJoin(a, [c]);
    SqueezedStep([c]);
    SqueezedStep([]);
    assert [c][1..] == [] && Set(c) + [] == Set(c);
  }

  /** How a key is set out makes no difference: blanks, dashes and underscores anywhere, small
      letters for capitals, and any padding at the end. */
  lemma BlanksIgnored(a: string, c: char, b: string)
    requires c in " \t\n\r-_" || c as int == 0x0B || c as int == 0x0C
    ensures Normalised(a + [c] + b) == Normalised(a + b)
  {
    hide Squeezed, WithoutPadding;
    SqueezedAround(a, c, b);
    SqueezedJoin(a, b);
    assert Squeezed(a) + [] == Squeezed(a);
  }

  lemma CaseIgnored(a: string, c: char, b: string)
    requires 'a' <= c <= 'z'
    ensures Normalised(a + [c] + b) == Normalised(a + [(c as int - 'a' as int + 'A' as int) as char] + b)
  {
    hide Squeezed, WithoutPadding;
    var capital := (c as int - 'a' as int + 'A' as int) as char;
    assert Set(c) == Set(capital) == [capital];
    SqueezedAround(a, c, b);
    SqueezedAround(a, capital, b);
  }

  lemma PaddingIgnored(a: string)
    ensures Normalised(a + "=") == Normalised(a)
  {
    hide Squeezed;
    SqueezedAround(a, '=', "");
    SqueezedStep("");
    assert a + ['='] + "" == a + "=";
    assert Set('=') == "=" && Squeezed(a) + "=" + "" == Squeezed(a) + "=";
    assert (Squeezed(a) + "=")[..|Squeezed(a)|] == Squeezed(a);
  }

  /** The symbols a text spells, if every character is in the alphabet. */
  function SymbolsOf(text: string): Option<seq<Symbol>> {
    if text == [] then Some([])
    else
      var n := |text| - 1;
      var before, last := SymbolsOf(text[..n]), IndexOf(text[n]);
      if before.None? || last.None? then None else Some(before.value + [last.value])
  }

  method Base32Decode(input: string) returns (r: Decoded)
    ensures r.Empty? <==> Normalised(input) == []
    ensures r.BadCharacter? ==> r.c in Normalised(input) && !InAlphabet(r.c)
    ensures r.Bytes? <==> Normalised(input) != [] && SymbolsOf(Normalised(input)).Some?
    ensures r.Bytes? ==> IsDecoding(SymbolsOf(Normalised(input)).value, r.bytes)
  {
    var s := Normalised(input);
    if s == [] { return Empty; }
    var symbols: seq<Symbol> := [];
    for k := 0 to |s|
      invariant SymbolsOf(s[..k]) == Some(symbols)
    {
      assert s[..k+1][..k] == s[..k];
      var idx := IndexOf(s[k]);
      if idx.None? {
        SpelledByAlphabet(s, k);
        return BadCharacter(s[k]);
      }
      symbols := symbols + [idx.value];
    }
    assert s[..|s|] == s;
    var bytes := DecodeSymbols(symbols);
    return Bytes(bytes);
  }

  lemma {:induction false} SpelledByAlphabet(text: string, k: nat)
    requires k < |text| && !InAlphabet(text[k])
    ensures SymbolsOf(text).None?
  {
    if k < |text| - 1 {
      SpelledByAlphabet(text[..|text|-1], k);
    }
  }

  method Base32Encode(bytes: seq<Byte>) returns (text: string)
    ensures SymbolsOf(text).Some? && IsEncoding(bytes, SymbolsOf(text).value)
    ensures Normalised(text) == text
    ensures bytes != [] ==> text != []
  {
    hide ALPHABET;
    var symbols := EncodeSymbols(bytes);
    text := [];
    for k := 0 to |symbols|
      invariant |text| == k && SymbolsOf(text) == Some(symbols[..k])
      invariant forall c | c in text :: InAlphabet(c)
    {
      LetterIsAlphabet(symbols[k]);
      var next := text + [ALPHABET[symbols[k]]];
      assert next[..k] == text && IndexOf(next[k]) == Some(symbols[k]);
      assert symbols[..k+1] == symbols[..k] + [symbols[k]];
      text := next;
    }
    assert symbols[..|symbols|] == symbols;
    AlphabetIsNormal(text);
  }

  lemma {:induction false} SqueezeNothing(text: string)
    requires forall c | c in text :: InAlphabet(c)
    ensures Squeezed(text) == text
  {
    if text != [] {
      assert text[0] in text;
      SqueezeNothing(text[1..]);
    }
  }

  lemma AlphabetIsNormal(text: string)
    requires forall c | c in text :: InAlphabet(c)
    ensures Normalised(text) == text
  {
    SqueezeNothing(text);
    if text != [] { assert text[|text|-1] in text; }
  }

  /** `base32Decode(base32Encode(bytes))`, for every non-empty key. */
  method EncodeThenDecode(bytes: seq<Byte>) returns (r: Decoded)
    requires bytes != []
    ensures r == Bytes(bytes)
  {
    var text := Base32Encode(bytes);
    r := Base32Decode(text);
    RoundTrip(bytes, SymbolsOf(text).value, r.bytes);
  }
}
