/** The text of an integer as `number` formats it, and reading it back.
    Specification for kernel/lib/print.c. */
module NumberText {
  import opened Basics

  /** The format flags: NF_ZEROPAD, NF_SIGNED, NF_PLUS, NF_SPACE, NF_LEFT, NF_SPECIAL, NF_UPCASE. */
  datatype Format =
    Format(zeropad: bool, signed: bool, plus: bool, space: bool, left: bool, special: bool, upcase: bool)

  /** The number of values of `unsigned long`. */
  const WORD := 0x1_0000_0000
  const SIGN := 0x8000_0000

  function Max(a: int, b: int): int {
    if a < b then b else a
  }

  /** What a word stands for. */
  function Meaning(num: int, f: Format): int {
    if f.signed && num >= SIGN then num - WORD else num
  }

  function Magnitude(num: int, f: Format): int {
    if Meaning(num, f) < 0 then -Meaning(num, f) else Meaning(num, f)
  }

  function Digit(d: int, upcase: bool): char
    requires 0 <= d < 16
  {
    if upcase then "0123456789ABCDEF"[d] else "0123456789abcdef"[d]
  }

  /** The digits of a number, none for zero. */
  function Tail(num: int, base: int, upcase: bool): string
    requires 0 <= num && 2 <= base <= 16
  {
    if num == 0 then [] else Tail(num / base, base, upcase) + [Digit(num % base, upcase)]
  }

  function Digits(num: int, base: int, upcase: bool): string
    requires 0 <= num && 2 <= base <= 16
  {
    if num == 0 then "0" else Tail(num, base, upcase)
  }

  function Repeat(c: char, n: int): (s: string)
    ensures |s| == Max(n, 0) && forall i :: 0 <= i < |s| ==> s[i] == c
  {
    if n <= 0 then [] else [c] + Repeat(c, n - 1)
  }

  function SignText(num: int, f: Format): string {
    if !f.signed then "" else if num >= SIGN then "-" else if f.plus then "+" else if f.space then " " else ""
  }

  function Prefix(base: int, f: Format): string {
    if f.special && base == 16 then "0x" else if f.special && base == 8 then "0" else ""
  }

  /** The sign, the prefix, at least `precision` digits, and padding up to `size`. */
  function Formatted(num: int, base: int, size: int, precision: int, f: Format): string
    requires 0 <= num < WORD && 2 <= base <= 16
  {
    var digits := Digits(Magnitude(num, f), base, f.upcase);
    var zeros := Repeat('0', precision - |digits|);
    var head := SignText(num, f) + Prefix(base, f);
    var pad := size - |head| - Max(|digits|, precision);
    if f.left then head + zeros + digits + Repeat(' ', pad)
    else if f.zeropad then head + Repeat('0', pad) + zeros + digits
    else Repeat(' ', pad) + head + zeros + digits
  }

  lemma FormattedLength(num: int, base: int, size: int, precision: int, f: Format)
    requires 0 <= num < WORD && 2 <= base <= 16
    ensures |Formatted(num, base, size, precision, f)| ==
      Max(size, |SignText(num, f)| + |Prefix(base, f)| + Max(|Digits(Magnitude(num, f), base, f.upcase)|, precision))
  {
  }

  // ---------------------------------------------------------------- how many digits

  /** A number below 2^k has at most k digits in any base. */
  lemma {:induction false} TailLength(num: int, base: int, upcase: bool, k: nat)
    requires 0 <= num < Pow2(k) && 2 <= base <= 16
    ensures |Tail(num, base, upcase)| <= k
  {
    hide Digit;
    if num != 0 {
      Halves(num, base);
      assert k > 0 && num / base < Pow2(k - 1);
      TailLength(num / base, base, upcase, k - 1);
    }
  }

  lemma Halves(num: int, base: int)
    requires 0 <= num && 2 <= base <= 16
    ensures 0 <= 2 * (num / base) <= num
  {
    var q := num / base;
    assert num == base * q + num % base && 2 * q <= base * q;
  }

  /** The buffer of 32 characters is large enough for every word. */
  lemma DigitsFit(num: int, base: int, upcase: bool)
    requires 0 <= num < WORD && 2 <= base <= 16
    ensures 1 <= |Digits(num, base, upcase)| <= 32
  {
    assert Pow2(8) == 256;
    Pow2Sum(8, 8);
    Pow2Sum(16, 16);
    TailLength(num, base, upcase, 32);
  }

  // ---------------------------------------------------------------- reading

  /** The value of a digit of either case, or -1. */
  function ValueOf(c: char): int {
    if '0' <= c <= '9' then c as int - '0' as int
    else if 'a' <= c <= 'f' then c as int - 'a' as int + 10
    else if 'A' <= c <= 'F' then c as int - 'A' as int + 10
    else -1
  }

  predicate IsDigit(c: char, base: int) {
    0 <= ValueOf(c) < base
  }

  /** The value of the digits at the beginning of a text, after a number that has been read. */
  function ReadDigits(s: string, base: int, acc: int): int {
    if s == [] || !IsDigit(s[0], base) then acc else ReadDigits(s[1..], base, acc * base + ValueOf(s[0]))
  }

  function SkipSpaces(s: string): string {
    if s != [] && s[0] == ' ' then SkipSpaces(s[1..]) else s
  }

  function SkipHex(s: string, base: int): string {
    if base == 16 && |s| >= 2 && s[0] == '0' && s[1] == 'x' then s[2..] else s
  }

  /** The integer that a text shows: spaces, a sign, a hexadecimal prefix, digits. */
  function Read(s: string, base: int): int {
    var t := SkipSpaces(s);
    if t != [] && t[0] == '-' then -ReadDigits(SkipHex(t[1..], base), base, 0)
    else if t != [] && t[0] == '+' then ReadDigits(SkipHex(t[1..], base), base, 0)
    else ReadDigits(SkipHex(t, base), base, 0)
  }

  lemma {:induction false} SpacesSkipped(n: int, s: string)
    ensures SkipSpaces(Repeat(' ', n) + s) == SkipSpaces(s)
  {
    if n <= 0 {
      assert Repeat(' ', n) + s == s;
    } else {
      assert (Repeat(' ', n) + s)[1..] == Repeat(' ', n - 1) + s;
      SpacesSkipped(n - 1, s);
    }
  }

  lemma DigitRead(d: int, upcase: bool)
    requires 0 <= d < 16
    ensures ValueOf(Digit(d, upcase)) == d
  {
  }

  lemma {:induction false} ZerosRead(n: int, s: string, base: int)
    requires 2 <= base
    ensures ReadDigits(Repeat('0', n) + s, base, 0) == ReadDigits(s, base, 0)
  {
    if n <= 0 {
      assert Repeat('0', n) + s == s;
    } else {
      assert (Repeat('0', n) + s)[1..] == Repeat('0', n - 1) + s;
      ZerosRead(n - 1, s, base);
    }
  }

  predicate AllDigits(s: string, base: int) {
    forall i :: 0 <= i < |s| ==> IsDigit(s[i], base)
  }

  lemma {:induction false} LastRead(s: string, c: char, base: int, acc: int)
    requires AllDigits(s, base) && IsDigit(c, base)
    ensures ReadDigits(s + [c], base, acc) == ReadDigits(s, base, acc) * base + ValueOf(c)
  {
    if s == [] {
      assert (s + [c])[1..] == [];
    } else {
      assert (s + [c])[1..] == s[1..] + [c];
      LastRead(s[1..], c, base, acc * base + ValueOf(s[0]));
    }
  }

  lemma NothingRead(base: int)
    ensures ReadDigits([], base, 0) == 0
  {
  }

  lemma Quotient(num: int, base: int)
    requires 0 < num && 2 <= base <= 16
    ensures 0 <= num / base < num && 0 <= num % base < base && num / base * base + num % base == num
  {
  }

  lemma {:induction false} TailRead(num: int, base: int, upcase: bool)
    requires 0 <= num && 2 <= base <= 16
    ensures AllDigits(Tail(num, base, upcase), base)
    ensures ReadDigits(Tail(num, base, upcase), base, 0) == num
  {
    hide ReadDigits, Digit, ValueOf;
    if num == 0 {
      NothingRead(base);
    } else {
      Quotient(num, base);
      var rest, c := Tail(num / base, base, upcase), Digit(num % base, upcase);
      TailRead(num / base, base, upcase);
      DigitRead(num % base, upcase);
      LastRead(rest, c, base, 0);
    }
  }

  /** The digits evaluate to the number, and nothing else is read as a digit of it. */
  lemma DigitsRead(num: int, base: int, upcase: bool)
    requires 0 <= num && 2 <= base <= 16
    ensures AllDigits(Digits(num, base, upcase), base)
    ensures ReadDigits(Digits(num, base, upcase), base, 0) == num
  {
    TailRead(num, base, upcase);
  }

  lemma {:induction false} StopsAtSpace(s: string, n: int, base: int, acc: int)
    requires AllDigits(s, base)
    ensures ReadDigits(s + Repeat(' ', n), base, acc) == ReadDigits(s, base, acc)
  {
    if s == [] {
      assert s + Repeat(' ', n) == Repeat(' ', n);
    } else {
      assert (s + Repeat(' ', n))[1..] == s[1..] + Repeat(' ', n);
      StopsAtSpace(s[1..], n, base, acc * base + ValueOf(s[0]));
    }
  }

  /** A sign before a text that begins with a digit. */
  lemma SignRead(sign: string, body: string, base: int)
    requires sign == "" || sign == "-" || sign == "+" || sign == " "
    requires body != [] && IsDigit(body[0], 16)
    ensures Read(sign + body, base) ==
      if sign == "-" then -ReadDigits(SkipHex(body, base), base, 0) else ReadDigits(SkipHex(body, base), base, 0)
  {
    hide SkipHex, ReadDigits;
    var s := sign + body;
    if sign == "" {
      assert s == body;
    } else {
      assert s[0] == sign[0] && s[1..] == body;
      if sign == " " {
        assert SkipSpaces(s) == SkipSpaces(body) == body;
      }
    }
  }

  /** Reading a sign, a prefix, any zeros, digits and spaces. */
  lemma ReadParts(num: int, base: int, f: Format, n: int, m: int)
    requires 0 <= num < WORD && 2 <= base <= 16
    ensures var digits := Digits(Magnitude(num, f), base, f.upcase);
      Read(SignText(num, f) + Prefix(base, f) + Repeat('0', n) + digits + Repeat(' ', m), base) == Meaning(num, f)
  {
    hide Digits, Repeat, Read, ReadDigits, SkipHex, Prefix, IsDigit;
    var sign, prefix := SignText(num, f), Prefix(base, f);
    var zeros, digits, spaces := Repeat('0', n), Digits(Magnitude(num, f), base, f.upcase), Repeat(' ', m);
    BodyRead(Magnitude(num, f), base, f, n, m);
    SignRead(sign, prefix + (zeros + digits + spaces), base);
    Regroup(sign, prefix, zeros, digits, spaces);
  }

  lemma Regroup(a: string, b: string, c: string, d: string, e: string)
    ensures a + b + c + d + e == a + (b + (c + d + e))
  {
  }

  lemma BodyRead(mag: int, base: int, f: Format, n: int, m: int)
    requires 0 <= mag && 2 <= base <= 16
    ensures var digits := Digits(mag, base, f.upcase);
      var s := Prefix(base, f) + (Repeat('0', n) + digits + Repeat(' ', m));
      && s != [] && IsDigit(s[0], 16)
      && ReadDigits(SkipHex(s, base), base, 0) == mag
  {
    hide ReadDigits, Digits, Repeat;
    var digits := Digits(mag, base, f.upcase);
    var body := Repeat('0', n) + digits + Repeat(' ', m);
    var prefix := Prefix(base, f);
    PlainRead(mag, base, f.upcase, n, m);
    if prefix == "0x" {
      assert (prefix + body)[2..] == body;
    } else if prefix == "0" {
      LeadingZero(body, base);
    } else {
      assert prefix + body == body;
    }
  }

  lemma LeadingZero(s: string, base: int)
    requires 2 <= base
    ensures ReadDigits("0" + s, base, 0) == ReadDigits(s, base, 0)
  {
    assert ("0" + s)[1..] == s;
  }

  /** Digits with zeros before and spaces after them. */
  lemma PlainRead(mag: int, base: int, upcase: bool, n: int, m: int)
    requires 0 <= mag && 2 <= base <= 16
    ensures var body := Repeat('0', n) + Digits(mag, base, upcase) + Repeat(' ', m);
      && body != [] && IsDigit(body[0], base) && (|body| >= 2 ==> body[1] != 'x')
      && ReadDigits(body, base, 0) == mag
  {
    hide ReadDigits, Tail;
    var digits, spaces := Digits(mag, base, upcase), Repeat(' ', m);
    DigitsRead(mag, base, upcase);
    DigitsThere(mag, base, upcase);
    assert Repeat('0', n) + digits + spaces == Repeat('0', n) + (digits + spaces);
    ZerosRead(n, digits + spaces, base);
    StopsAtSpace(digits, m, base, 0);
  }

  lemma DigitsThere(num: int, base: int, upcase: bool)
    requires 0 <= num && 2 <= base <= 16
    ensures Digits(num, base, upcase) != []
  {
  }

  /** What is formatted reads back as the number, for every word, base, width and flags. */
  lemma RoundTrip(num: int, base: int, size: int, precision: int, f: Format)
    requires 0 <= num < WORD && 2 <= base <= 16
    ensures Read(Formatted(num, base, size, precision, f), base) == Meaning(num, f)
  {
    hide Digits, Read, SignText, Prefix, Repeat;
    var digits := Digits(Magnitude(num, f), base, f.upcase);
    var n := precision - |digits|;
    var zeros := Repeat('0', n);
    var head := SignText(num, f) + Prefix(base, f);
    var pad := size - |head| - Max(|digits|, precision);
    var none := Repeat(' ', 0);
    if f.left {
      ReadParts(num, base, f, n, pad);
    } else if f.zeropad {
      RepeatSum('0', pad, n);
      ReadParts(num, base, f, Max(pad, 0) + Max(n, 0), 0);
      assert head + Repeat('0', pad) + zeros + digits == head + (Repeat('0', pad) + zeros) + digits + none;
    } else {
      ReadParts(num, base, f, n, 0);
      SpacesBefore(pad, head + zeros + digits + none, base);
      assert Repeat(' ', pad) + head + zeros + digits == Repeat(' ', pad) + (head + zeros + digits + none);
    }
  }

  lemma SpacesBefore(n: int, s: string, base: int)
    ensures Read(Repeat(' ', n) + s, base) == Read(s, base)
  {
    SpacesSkipped(n, s);
  }

  lemma {:induction false} RepeatSum(c: char, a: int, b: int)
    ensures Repeat(c, a) + Repeat(c, b) == Repeat(c, Max(a, 0) + Max(b, 0))
  {
    if a > 0 {
      RepeatSum(c, a - 1, b);
    } else {
      assert Repeat(c, a) + Repeat(c, b) == Repeat(c, b);
    }
  }

  // ---------------------------------------------------------------- every character

  /** A digit of the base, in the case that is asked for. */
  predicate IsDigitOf(c: char, base: int, upcase: bool) {
    && IsDigit(c, base)
    && ('0' <= c <= '9' || (if upcase then 'A' <= c <= 'F' else 'a' <= c <= 'f'))
  }

  /** Digits of a number, without a superfluous zero at the front. */
  ghost predicate Numeral(s: string, num: int, base: int, upcase: bool) {
    && s != [] && (forall i :: 0 <= i < |s| ==> IsDigitOf(s[i], base, upcase))
    && (|s| > 1 ==> s[0] != '0')
    && ReadDigits(s, base, 0) == num
  }

  lemma DigitCase(d: int, base: int, upcase: bool)
    requires 0 <= d < base <= 16
    ensures IsDigitOf(Digit(d, upcase), base, upcase) && (Digit(d, upcase) == '0' <==> d == 0)
  {
  }

  lemma DigitBack(c: char, base: int, upcase: bool)
    requires IsDigitOf(c, base, upcase) && 2 <= base <= 16
    ensures 0 <= ValueOf(c) < base && Digit(ValueOf(c), upcase) == c && (ValueOf(c) == 0 <==> c == '0')
  {
  }

  lemma {:induction false} TailCase(num: int, base: int, upcase: bool)
    requires 0 <= num && 2 <= base <= 16
    ensures forall i :: 0 <= i < |Tail(num, base, upcase)| ==> IsDigitOf(Tail(num, base, upcase)[i], base, upcase)
    ensures num > 0 ==> Tail(num, base, upcase) != [] && Tail(num, base, upcase)[0] != '0'
  {
    hide Digit, IsDigitOf;
    if num != 0 {
      Quotient(num, base);
      DigitCase(num % base, base, upcase);
      TailCase(num / base, base, upcase);
    }
  }

  /** The digits are the one numeral of the number in that case. */
  lemma DigitsExact(num: int, base: int, upcase: bool, s: string)
    requires 0 <= num && 2 <= base <= 16
    ensures Numeral(s, num, base, upcase) <==> s == Digits(num, base, upcase)
  {
    DigitsRead(num, base, upcase);
    TailCase(num, base, upcase);
    hide Digit, IsDigitOf, ReadDigits, Tail;
    DigitCase(0, base, upcase);
    if Numeral(s, num, base, upcase) {
      OneNumeral(s, num, base, upcase);
    }
  }

  lemma DigitsCase(num: int, base: int, upcase: bool)
    requires 0 <= num && 2 <= base <= 16
    ensures Numeral(Digits(num, base, upcase), num, base, upcase)
    ensures forall i :: 0 <= i < |Digits(num, base, upcase)| ==> IsDigitOf(Digits(num, base, upcase)[i], base, upcase)
  {
    hide Digits, IsDigitOf, ReadDigits;
    DigitsExact(num, base, upcase, Digits(num, base, upcase));
  }

  lemma {:induction false} OneNumeral(s: string, num: int, base: int, upcase: bool)
    requires Numeral(s, num, base, upcase) && 2 <= base <= 16
    ensures num >= 0 && s == Digits(num, base, upcase)
    ensures s[0] != '0' ==> num > 0
    decreases |s|
  {
    var n := |s| - 1;
    var c, rest := s[n], s[..n];
    assert s == rest + [c];
    hide Digit, IsDigitOf;
    DigitBack(c, base, upcase);
    forall i | 0 <= i < n ensures IsDigit(rest[i], base) && IsDigitOf(rest[i], base, upcase) {
      DigitBack(s[i], base, upcase);
      assert rest[i] == s[i];
    }
    hide ReadDigits, ValueOf;
    LastRead(rest, c, base, 0);
    var q := ReadDigits(rest, base, 0);
    if n == 0 {
      NothingRead(base);
      OneDigit(num, base, upcase);
    } else {
      assert rest[0] == s[0];
      OneNumeral(rest, q, base, upcase);
      Recombined(q, ValueOf(c), base);
      LastDigit(num, base, upcase);
    }
  }

  lemma OneDigit(num: int, base: int, upcase: bool)
    requires 0 <= num < base <= 16 && 2 <= base
    ensures Digits(num, base, upcase) == [Digit(num, upcase)]
  {
    assert num / base == 0;
    assert Tail(0, base, upcase) == [];
  }

  lemma LastDigit(num: int, base: int, upcase: bool)
    requires 2 <= base <= 16 && 0 < num && 0 < num / base
    ensures Digits(num, base, upcase) == Digits(num / base, base, upcase) + [Digit(num % base, upcase)]
  {
  }

  lemma Recombined(q: int, d: int, base: int)
    requires 0 < q && 0 <= d < base && 2 <= base <= 16
    ensures (q * base + d) / base == q && (q * base + d) % base == d && 0 < q * base + d
  {
  }

  ghost predicate Only(s: string, c: char) {
    forall i :: 0 <= i < |s| ==> s[i] == c
  }

  /** How a text is filled up: spaces, the head, zeros, at least `precision` digits, and spaces. */
  ghost predicate Filled(t: string, head: string, digits: string, size: int, precision: int, f: Format,
                         lead: string, zeros: string, trail: string) {
    && t == lead + head + zeros + digits + trail
    && Only(lead, ' ') && Only(zeros, '0') && Only(trail, ' ')
    && |t| == Max(size, |head| + Max(|digits|, precision))
    && (lead != [] ==> !f.left && !f.zeropad) && (trail != [] ==> f.left)
    && (|zeros| > Max(precision - |digits|, 0) ==> f.zeropad && !f.left) && |zeros| >= precision - |digits|
  }

  /** The parts of a text: the sign and the prefix that the flags ask for, and a numeral. */
  ghost predicate HasParts(t: string, num: int, base: int, size: int, precision: int, f: Format,
                           lead: string, zeros: string, digits: string, trail: string) {
    var magnitude := if f.signed && num >= SIGN then WORD - num else num;
    var sign := if f.signed && num >= SIGN then "-" else if f.signed && f.plus then "+"
      else if f.signed && f.space then " " else "";
    var prefix := if f.special && base == 16 then "0x" else if f.special && base == 8 then "0" else "";
    && Filled(t, sign + prefix, digits, size, precision, f, lead, zeros, trail)
    && Numeral(digits, magnitude, base, f.upcase)
  }

  ghost predicate Shows(t: string, num: int, base: int, size: int, precision: int, f: Format) {
    exists lead, zeros, digits, trail :: HasParts(t, num, base, size, precision, f, lead, zeros, digits, trail)
  }

  /** The formatted text is the one text with these characters. */
  lemma FormattedExact(t: string, num: int, base: int, size: int, precision: int, f: Format)
    requires 0 <= num < WORD && 2 <= base <= 16
    ensures Shows(t, num, base, size, precision, f) <==> t == Formatted(num, base, size, precision, f)
  {
    FormattedShows(num, base, size, precision, f);
    if Shows(t, num, base, size, precision, f) {
      var lead, zeros, digits, trail :|
        HasParts(t, num, base, size, precision, f, lead, zeros, digits, trail);
      PartsFormatted(t, num, base, size, precision, f, lead, zeros, digits, trail);
    }
  }

  lemma OnlyRepeat(s: string, c: char, n: int)
    requires Only(s, c) && |s| == Max(n, 0)
    ensures s == Repeat(c, n)
  {
  }

  lemma FormattedShows(num: int, base: int, size: int, precision: int, f: Format)
    requires 0 <= num < WORD && 2 <= base <= 16
    ensures Shows(Formatted(num, base, size, precision, f), num, base, size, precision, f)
  {
    hide Numeral, Filled, Digits, Repeat, HasParts, SignText, Prefix;
    var digits := Digits(Magnitude(num, f), base, f.upcase);
    FormattedLength(num, base, size, precision, f);
    var t := Formatted(num, base, size, precision, f);
    var head := SignText(num, f) + Prefix(base, f);
    var lead, zeros, trail := Filling(t, head, digits, size, precision, f);
    hide Formatted;
    PartsOf(t, num, base, size, precision, f, lead, zeros, trail);
  }

  lemma PartsOf(t: string, num: int, base: int, size: int, precision: int, f: Format,
                lead: string, zeros: string, trail: string)
    requires 0 <= num < WORD && 2 <= base <= 16
    requires
      var digits := Digits(Magnitude(num, f), base, f.upcase);
      Filled(t, SignText(num, f) + Prefix(base, f), digits, size, precision, f, lead, zeros, trail)
    ensures HasParts(t, num, base, size, precision, f, lead, zeros, Digits(Magnitude(num, f), base, f.upcase), trail)
  {
    hide Numeral, Filled, Digits;
    DigitsExact(Magnitude(num, f), base, f.upcase, Digits(Magnitude(num, f), base, f.upcase));
  }

  lemma Filling(t: string, head: string, digits: string, size: int, precision: int, f: Format)
    returns (lead: string, zeros: string, trail: string)
    requires |t| == Max(size, |head| + Max(|digits|, precision))
    requires
      var pad, least := size - |head| - Max(|digits|, precision), Repeat('0', precision - |digits|);
      t == if f.left then head + least + digits + Repeat(' ', pad)
           else if f.zeropad then head + Repeat('0', pad) + least + digits
           else Repeat(' ', pad) + head + least + digits
    ensures Filled(t, head, digits, size, precision, f, lead, zeros, trail)
  {
    var pad := size - |head| - Max(|digits|, precision);
    lead, zeros, trail := [], Repeat('0', precision - |digits|), [];
    if f.left {
      trail := Repeat(' ', pad);
      assert [] + head == head;
    } else if f.zeropad {
      Shuffled(head, Repeat('0', pad), zeros, digits);
      zeros := Repeat('0', pad) + zeros;
    } else {
      lead := Repeat(' ', pad);
      assert t + [] == t;
    }
  }

  lemma Shuffled(a: string, b: string, c: string, d: string)
    ensures a + b + c + d == [] + a + (b + c) + d + []
  {
  }

  lemma PartsFormatted(t: string, num: int, base: int, size: int, precision: int, f: Format,
                       lead: string, zeros: string, digits: string, trail: string)
    requires 0 <= num < WORD && 2 <= base <= 16
    requires HasParts(t, num, base, size, precision, f, lead, zeros, digits, trail)
    ensures t == Formatted(num, base, size, precision, f)
  {
    hide Numeral, Filled, Digits, Repeat;
    assert Filled(t, SignText(num, f) + Prefix(base, f), digits, size, precision, f, lead, zeros, trail);
    DigitsExact(Magnitude(num, f), base, f.upcase, digits);
    hide SignText, Prefix, HasParts;
    FilledUp(t, SignText(num, f) + Prefix(base, f), digits, size, precision, f, lead, zeros, trail);
  }

  lemma FilledUp(t: string, head: string, digits: string, size: int, precision: int, f: Format,
                 lead: string, zeros: string, trail: string)
    requires Filled(t, head, digits, size, precision, f, lead, zeros, trail)
    ensures
      var pad, least := size - |head| - Max(|digits|, precision), Repeat('0', precision - |digits|);
      t == if f.left then head + least + digits + Repeat(' ', pad)
           else if f.zeropad then head + Repeat('0', pad) + least + digits
           else Repeat(' ', pad) + head + least + digits
  {
    var pad, least := size - |head| - Max(|digits|, precision), precision - |digits|;
    assert |t| == |lead| + |head| + |zeros| + |digits| + |trail|;
    hide Repeat, Only;
    if f.left {
      OnlyRepeat(zeros, '0', least);
      OnlyRepeat(trail, ' ', pad);
      assert [] + head == head;
    } else if f.zeropad {
      OnlyRepeat(zeros, '0', Max(pad, 0) + Max(least, 0));
      RepeatSum('0', pad, least);
      Shuffled(head, Repeat('0', pad), Repeat('0', least), digits);
    } else {
      OnlyRepeat(lead, ' ', pad);
      OnlyRepeat(zeros, '0', least);
      assert t + [] == t;
    }
  }
}
