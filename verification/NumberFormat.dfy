/** The formatting of a number into a bounded buffer. Models `number` of kernel/lib/print.c. */
module NumberFormat {
  import opened NumberText

  /** Memory after a text has been put at a place, as far as it is not beyond the end of the buffer. */
  function Emit(mem: seq<char>, at: int, text: string, end: int): (r: seq<char>)
    ensures |r| == |mem|
    ensures forall k :: 0 <= k < |mem| ==> r[k] == if at <= k < at + |text| && k <= end then text[k - at] else mem[k]
  {
    seq(|mem|, k requires 0 <= k < |mem| => if at <= k < at + |text| && k <= end then text[k - at] else mem[k])
  }

  lemma EmitMore(mem: seq<char>, at: int, first: string, second: string, end: int)
    ensures Emit(Emit(mem, at, first, end), at + |first|, second, end) == Emit(mem, at, first + second, end)
  {
  }

  /** One character into the buffer. */
  method Put(out: array<char>, buf: int, end: int, c: char) returns (next: int)
    requires 0 <= buf && end < out.Length
    modifies out
    ensures next == buf + 1 && out[..] == Emit(old(out[..]), buf, [c], end)
  {
    if buf <= end {
      out[buf] := c;
    }
    next := buf + 1;
  }

  /** A loop `while (size-- > 0)` that pads; `left` is what is left of the size. */
  method Pad(out: array<char>, buf: int, end: int, c: char, size: int) returns (next: int, left: int)
    requires 0 <= buf && end < out.Length
    modifies out
    ensures out[..] == Emit(old(out[..]), buf, Repeat(c, size), end)
    ensures next == buf + |Repeat(c, size)| && left < 0 && left == (if size > 0 then -1 else size - 1)
  {
    next, left := buf, size;
    ghost var text: string := [];
    assert out[..] == Emit(old(out[..]), buf, text, end);
    while left > 0
      invariant next == buf + |text| && text + Repeat(c, left) == Repeat(c, size)
      invariant left <= size && (size > 0 ==> 0 <= left) && (size <= 0 ==> left == size)
      invariant out[..] == Emit(old(out[..]), buf, text, end)
    {
      left := left - 1;
      next := Put(out, next, end, c);
      EmitMore(old(out[..]), buf, text, [c], end);
      text := text + [c];
    }
    left := left - 1;
  }

  lemma TailStep(num: int, base: int, upcase: bool)
    requires 0 < num && 2 <= base <= 16
    ensures 0 <= num / base < num && 0 <= num % base < base
    ensures Tail(num, base, upcase) == Tail(num / base, base, upcase) + [Digit(num % base, upcase)]
  {
  }

  lemma FirstStep(num: int, base: int, upcase: bool)
    requires 0 <= num && 2 <= base <= 16
    ensures 0 <= num / base <= num && 0 <= num % base < base
    ensures Digits(num, base, upcase) == Tail(num / base, base, upcase) + [Digit(num % base, upcase)]
  {
    if num == 0 {
      assert num / base == 0 && num % base == 0;
      assert Tail(0, base, upcase) == [] && Digit(0, upcase) == '0';
    } else {
      TailStep(num, base, upcase);
    }
  }

  lemma NoTail(base: int, upcase: bool)
    requires 2 <= base <= 16
    ensures Tail(0, base, upcase) == []
  {
  }

  lemma DigitSet(upcase: bool)
    ensures var set_ := if upcase then "0123456789ABCDEF" else "0123456789abcdef";
      |set_| == 16 && forall d :: 0 <= d < 16 ==> set_[d] == Digit(d, upcase)
  {
  }

  /** The digits of a number, from the last one on. */
  method Convert(value: int, base: int, upcase: bool, tmp: array<char>) returns (i: int)
    requires 0 <= value < WORD && 2 <= base <= 16 && tmp.Length == 32
    modifies tmp
    ensures i == |Digits(value, base, upcase)| <= 32
    ensures forall k :: 0 <= k < i ==> tmp[k] == Digits(value, base, upcase)[i - 1 - k]
    ensures Numeral(Digits(value, base, upcase), value, base, upcase)
    ensures forall k :: 0 <= k < i ==> IsDigitOf(tmp[k], base, upcase)
  {
    hide Tail, Digits, Digit, Numeral, IsDigitOf;
    DigitSet(upcase);
    DigitsFit(value, base, upcase);
    FirstStep(value, base, upcase);
    ghost var digits := Digits(value, base, upcase);
    var digit_set := if upcase then "0123456789ABCDEF" else "0123456789abcdef";
    var num := value;
    tmp[0] := digit_set[num % base];
    num := num / base;
    i := 1;
    NoTail(base, upcase);
    while num != 0
      invariant 0 <= num < WORD && 0 < i <= 32
      invariant |Tail(num, base, upcase)| + i == |digits| && Tail(num, base, upcase) == digits[..|digits| - i]
      invariant forall k :: 0 <= k < i ==> tmp[k] == digits[|digits| - 1 - k]
      decreases num
    {
      TailStep(num, base, upcase);
      tmp[i] := digit_set[num % base];
      i := i + 1;
      num := num / base;
    }
    DigitsCase(value, base, upcase);
  }

  /** The loop that puts out the digits. */
  method PutDigits(out: array<char>, buf: int, end: int, tmp: array<char>, count: int, ghost digits: string)
    returns (next: int)
    requires 0 <= buf && end < out.Length && 0 <= count == |digits| <= tmp.Length && tmp != out
    requires forall k :: 0 <= k < count ==> tmp[k] == digits[count - 1 - k]
    modifies out
    ensures next == buf + count && out[..] == Emit(old(out[..]), buf, digits, end)
  {
    next := buf;
    var i := count;
    assert out[..] == Emit(old(out[..]), buf, digits[..0], end);
    while i > 0
      invariant 0 <= i <= count && next == buf + count - i
      invariant out[..] == Emit(old(out[..]), buf, digits[..count - i], end)
      invariant forall k :: 0 <= k < count ==> tmp[k] == digits[count - 1 - k]
    {
      i := i - 1;
      next := Put(out, next, end, tmp[i]);
      EmitMore(old(out[..]), buf, digits[..count - i - 1], [tmp[i]], end);
      assert digits[..count - i - 1] + [tmp[i]] == digits[..count - i];
    }
    assert digits[..count] == digits;
  }

  /** The sign and the prefix. */
  method PutHead(out: array<char>, buf: int, end: int, sign: char, base: int, special: bool) returns (next: int)
    requires 0 <= buf && end < out.Length
    modifies out
    ensures var head := HeadText(sign, base, special);
      next == buf + |head| && out[..] == Emit(old(out[..]), buf, head, end)
  {
    ghost var was := out[..];
    ghost var text: string := [];
    next := buf;
    assert out[..] == Emit(was, buf, text, end);
    if sign != '\0' {
      next := Put(out, next, end, sign);
      EmitMore(was, buf, text, [sign], end);
      text := text + [sign];
    }
    if special {
      if base == 8 {
        next := Put(out, next, end, '0');
        EmitMore(was, buf, text, "0", end);
      } else if base == 16 {
        next := Put(out, next, end, '0');
        EmitMore(was, buf, text, "0", end);
        next := Put(out, next, end, 'x');
        EmitMore(was, buf, text + "0", "x", end);
        assert text + "0" + "x" == text + "0x";
      }
    }
  }

  /** The head of a number: its sign, if it is not the null character, and its prefix. */
  function HeadText(sign: char, base: int, special: bool): string {
    (if sign != '\0' then [sign] else []) +
    (if special && base == 8 then "0" else if special && base == 16 then "0x" else "")
  }

  /** The second half of `number`, which puts out the `count` digits that have been converted. */
  method Output(out: array<char>, buf: int, end: int, tmp: array<char>, count: int, ghost digits: string, sign: char,
                base: int, special: bool, left: bool, zeropad: bool, width: int, precision: int) returns (next: int)
    requires 0 <= buf && end < out.Length && 0 <= count == |digits| <= tmp.Length && tmp != out
    requires forall k :: 0 <= k < count ==> tmp[k] == digits[count - 1 - k]
    requires !(zeropad && left) && count <= precision
    modifies out
    ensures
      var body := Repeat('0', precision - count) + digits;
      var text :=
        if left then HeadText(sign, base, special) + body + Repeat(' ', width)
        else if zeropad then HeadText(sign, base, special) + Repeat('0', width) + body
        else Repeat(' ', width) + HeadText(sign, base, special) + body;
      next == buf + |text| && out[..] == Emit(old(out[..]), buf, text + ['\0'], end)
  {
    hide Emit, Repeat, HeadText;
    ghost var was := out[..];
    ghost var text: string := [];
    var size, unused := width, 0;
    next := buf;
    if !(zeropad || left) {
      next, size := Pad(out, next, end, ' ', size);
      text := Repeat(' ', width);
    } else {
      NothingPut(was, buf, end);
    }
    ghost var before := text;
    next := PutHead(out, next, end, sign, base, special);
    EmitMore(was, buf, text, HeadText(sign, base, special), end);
    text := text + HeadText(sign, base, special);
    if !left {
      ghost var padding := Repeat(if zeropad then '0' else ' ', size);
      next, size := Pad(out, next, end, if zeropad then '0' else ' ', size);
      EmitMore(was, buf, text, padding, end);
      text := text + padding;
    }
    // the loop `while (i < precision--)`
    next, unused := Pad(out, next, end, '0', precision - count);
    EmitMore(was, buf, text, Repeat('0', precision - count), end);
    text := text + Repeat('0', precision - count);
    next := PutDigits(out, next, end, tmp, count, digits);
    EmitMore(was, buf, text, digits, end);
    text := text + digits;
    ghost var padding := Repeat(' ', size);
    next, size := Pad(out, next, end, ' ', size);
    EmitMore(was, buf, text, padding, end);
    text := text + padding;
    unused := Put(out, next, end, '\0');
    EmitMore(was, buf, text, ['\0'], end);
    if left {
      assert text == HeadText(sign, base, special) + (Repeat('0', precision - count) + digits) + Repeat(' ', width);
    } else if zeropad {
      assert text == HeadText(sign, base, special) + Repeat('0', width) + (Repeat('0', precision - count) + digits);
    } else {
      assert text == Repeat(' ', width) + HeadText(sign, base, special) + (Repeat('0', precision - count) + digits);
    }
  }

  lemma NothingPut(mem: seq<char>, at: int, end: int)
    ensures Emit(mem, at, [], end) == mem
  {
  }

  /** The first half of `number`: the sign character, the magnitude, and what is left of the width. */
  method Prepare(value: int, base: int, width: int, f: Format) returns (sign: char, num: int, size: int)
    requires 0 <= value < WORD
    ensures 0 <= num < WORD && num == Magnitude(value, f)
    ensures num == if f.signed && value >= SIGN then WORD - value else value
    ensures sign == if f.signed && value >= SIGN then '-' else if f.signed && f.plus then '+'
      else if f.signed && f.space then ' ' else '\0'
    ensures HeadText(sign, base, f.special) == SignText(value, f) + Prefix(base, f)
    ensures size == width - |SignText(value, f)| - |Prefix(base, f)|
  {
    num, size, sign := value, width, '\0';
    if f.signed {
      if num >= SIGN {
        sign := '-';
        num := (WORD - num) % WORD;
        size := size - 1;
      } else if f.plus {
        sign := '+';
        size := size - 1;
      } else if f.space {
        sign := ' ';
        size := size - 1;
      }
    }
    if f.special {
      if base == 16 {
        size := size - 2;
      } else if base == 8 {
        size := size - 1;
      }
    }
  }

  /** `number`: the text and a final null character, as far as they are not beyond `end`; the
      place behind the text whether it has been written or not. It panics for other bases. */
  method Number(out: array<char>, buf: int, end: int, value: int, base: int, width: int, digits: int, f: Format)
    returns (panicked: bool, next: int)
    requires 0 <= buf && end < out.Length && 0 <= value < WORD
    modifies out
    ensures panicked <==> base < 2 || 16 < base
    ensures panicked ==> out[..] == old(out[..])
    ensures forall k :: 0 <= k < out.Length && (k < buf || end < k) ==> out[k] == old(out[k])
    ensures !panicked ==>
      var text := Formatted(value, base, width, digits, f);
      && Shows(text, value, base, width, digits, f)
      && next == buf + |text| && out[..] == Emit(old(out[..]), buf, text + ['\0'], end)
  {
    hide Emit, Digits, Repeat, Tail, Formatted, HeadText, SignText, Prefix, Magnitude, Shows, Numeral;
    if base < 2 || base > 16 {
      return true, buf;
    }
    var sign, num, size := Prepare(value, base, width, f);
    var precision := digits;
    var zeropad := f.zeropad && !f.left;
    var tmp := new char[32];
    var i := Convert(num, base, f.upcase, tmp);
    if i > precision {
      precision := i;
    }
    size := size - precision;
    Assembled(value, base, width, digits, f);
    FormattedShows(value, base, width, digits, f);
    next := Output(out, buf, end, tmp, i, Digits(num, base, f.upcase), sign, base, f.special, f.left,
                   zeropad, size, precision);
    return false, next;
  }

  lemma Assembled(num: int, base: int, size: int, precision: int, f: Format)
    requires 0 <= num < WORD && 2 <= base <= 16
    ensures
      var digits := Digits(Magnitude(num, f), base, f.upcase);
      var body := Repeat('0', Max(precision, |digits|) - |digits|) + digits;
      var head := SignText(num, f) + Prefix(base, f);
      var pad := size - |head| - Max(precision, |digits|);
      Formatted(num, base, size, precision, f) ==
        if f.left then head + body + Repeat(' ', pad)
        else if f.zeropad then head + Repeat('0', pad) + body
        else Repeat(' ', pad) + head + body
  {
    hide Digits, SignText, Prefix, Repeat;
    var digits := Digits(Magnitude(num, f), base, f.upcase);
    var zeros := Repeat('0', precision - |digits|);
    var head := SignText(num, f) + Prefix(base, f);
    var pad := size - |head| - Max(|digits|, precision);
    NoMore('0', precision - |digits|);
    assert zeros == Repeat('0', Max(precision, |digits|) - |digits|);
    if f.left {
      Group(head, zeros, digits, Repeat(' ', pad));
    } else if f.zeropad {
      Group(head + Repeat('0', pad), zeros, digits, []);
    } else {
      Group(Repeat(' ', pad) + head, zeros, digits, []);
    }
  }

  lemma NoMore(c: char, n: int)
    ensures Repeat(c, n) == Repeat(c, Max(n, 0))
  {
  }

  lemma Group(a: string, b: string, c: string, d: string)
    ensures a + b + c + d == a + (b + c) + d && a + b + c == a + (b + c)
  {
  }
}
