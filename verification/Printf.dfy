/** The printf engine of the boot loader: `format_number`, `vsnprintf_core`, `snprintf` and
`sprintf`. */
module Printf {
  import opened Words
  import opened Chunks
  import Positional

  const NUL: char := '\0'

  /** What stands before the terminator of a C string. */
  type CString = s: string | forall i :: 0 <= i < |s| ==> s[i] != '\0' witness ""

  /** One variadic argument: its word, and the string found there when it is a pointer to one. */
  datatype Arg = Arg(value: word, text: CString)

  type Args = nat -> Arg

  // ---------- numbers ----------

  function DigitChar(d: nat, upper: bool): char
    requires d < 16
  {
    if d < 10 then ('0' as int + d) as char
    else ((if upper then 'A' else 'a') as int + d - 10) as char
  }

  function DigitValue(c: char): nat {
    if '0' <= c <= '9' then c as int - '0' as int
    else if 'a' <= c <= 'f' then c as int - 'a' as int + 10
    else if 'A' <= c <= 'F' then c as int - 'A' as int + 10
    else 0
  }

  /** Quotient and remainder, by repeated subtraction. */
  function Quot(v: nat, base: nat): (q: nat)
    requires base > 0
    ensures 2 <= base <= v ==> q < v
    decreases v
  {
    if v < base then 0 else 1 + Quot(v - base, base)
  }

  function Rem(v: nat, base: nat): (r: nat)
    requires base > 0
    ensures r < base
    decreases v
  {
    if v < base then v else Rem(v - base, base)
  }

  lemma {:induction false} QuotRem(v: nat, base: nat)
    requires base > 0
    ensures v / base == Quot(v, base) && v % base == Rem(v, base)
    ensures v == Quot(v, base) * base + Rem(v, base)
    decreases v
  {
    if v < base {
      Positional.DivModUnique(v, base, 0, v);
    } else {
      QuotRem(v - base, base);
      assert (1 + Quot(v - base, base)) * base == base + Quot(v - base, base) * base;
      Positional.DivModUnique(v, base, Quot(v, base), Rem(v, base));
    }
  }

  /** The digits of `v`, most significant first, and at least one. */
  function Digits(v: nat, base: nat, upper: bool): string
    requires 2 <= base <= 16
  {
    if v < base then [DigitChar(v, upper)] else Digits(Quot(v, base), base, upper) + [DigitChar(Rem(v, base), upper)]
  }

  /** The digits are the usual ones. */
  lemma DigitTable(d: nat)
    requires d < 16
    ensures DigitChar(d, false) == "0123456789abcdef"[d] && DigitChar(d, true) == "0123456789ABCDEF"[d]
  {}

  function ParseNumber(s: string, base: nat): nat {
    if s == [] then 0 else ParseNumber(s[..|s| - 1], base) * base + DigitValue(s[|s| - 1])
  }

  lemma DigitRoundTrip(d: nat, upper: bool)
    requires d < 16
    ensures DigitValue(DigitChar(d, upper)) == d
  {}

  lemma ParseSnoc(t: string, c: char, base: nat)
    ensures ParseNumber(t + [c], base) == ParseNumber(t, base) * base + DigitValue(c)
  {
    assert (t + [c])[..|t|] == t;
  }

  /** The digits parse back to the number. */
  lemma {:induction false} DigitsParse(v: nat, base: nat, upper: bool)
    requires 2 <= base <= 16
    ensures ParseNumber(Digits(v, base, upper), base) == v
  {
    if v < base {
      DigitRoundTrip(v, upper);
      ParseSnoc("", DigitChar(v, upper), base);
      assert "" + [DigitChar(v, upper)] == [DigitChar(v, upper)];
    } else {
      var q, r := Quot(v, base), Rem(v, base);
      QuotRem(v, base);
      DigitRoundTrip(r, upper);
      DigitsParse(q, base, upper);
      ParseSnoc(Digits(q, base, upper), DigitChar(r, upper), base);
    }
  }

  /** Digits of the base, in the right case, and no leading zero. */
  predicate Canonical(digits: string, base: nat, upper: bool) {
    && |digits| > 0 && (|digits| > 1 ==> digits[0] != '0')
    && forall i :: 0 <= i < |digits| ==> IsDigitOf(digits[i], base, upper)
  }

  predicate IsDigitOf(c: char, base: nat, upper: bool) {
    DigitValue(c) < base && ('0' <= c <= '9' || (if upper then 'A' <= c <= 'F' else 'a' <= c <= 'f'))
  }

  lemma {:induction false} DigitsCanonical(v: nat, base: nat, upper: bool)
    requires 2 <= base <= 16
    ensures Canonical(Digits(v, base, upper), base, upper)
    ensures v > 0 ==> Digits(v, base, upper)[0] != '0'
  {
    if v >= base {
      DigitsCanonical(Quot(v, base), base, upper);
    }
  }

  function Repeat(c: char, n: int): (s: string)
    ensures |s| == if n > 0 then n else 0
    ensures forall i :: 0 <= i < |s| ==> s[i] == c
  {
    if n <= 0 then [] else seq(n, _ => c)
  }

  datatype Flags = Flags(zero: bool, left: bool, upper: bool)

  /** Digits and padding, in the order the alignment asks for. */
  function Padded(digits: string, pad: int, flags: Flags): string {
    if flags.left then digits + Repeat(' ', pad) else Repeat(if flags.zero then '0' else ' ', pad) + digits
  }

  /** A number in a field: padded in front with blanks or zeros, or behind with blanks. */
  function Field(v: nat, base: nat, width: int, flags: Flags): string
    requires 2 <= base <= 16
  {
    var digits := Digits(v, base, flags.upper);
    Padded(digits, width - |digits|, flags)
  }

  /** The field is as wide as asked for, or as its digits need, and holds them contiguously. */
  lemma FieldShape(v: nat, base: nat, width: int, flags: Flags)
    requires 2 <= base <= 16
    ensures var digits, f := Digits(v, base, flags.upper), Field(v, base, width, flags);
      && |f| == (if width > |digits| then width else |digits|)
      && (if flags.left then f[..|digits|] else f[|f| - |digits|..]) == digits
      && ParseNumber(digits, base) == v
  {
    DigitsParse(v, base, flags.upper);
  }

  // ---------- the format language ----------

  /** The format string as the scan reads it: the terminator follows the last character. */
  function At(fmt: string, k: nat): char { if k < |fmt| then fmt[k] else NUL }

  /** The decimal width at position `k`, and where it ends. */
  function WidthFrom(fmt: string, k: nat, w: int): (r: (int, nat))
    ensures k <= r.1 && (k <= |fmt| ==> r.1 <= |fmt|)
    decreases |fmt| - k
  {
    if k < |fmt| && '0' <= fmt[k] <= '9' then WidthFrom(fmt, k + 1, w * 10 + (fmt[k] as int - '0' as int))
    else (w, k)
  }

  /** The width is the number its digits spell. */
  lemma {:induction false} WidthValue(fmt: string, s: nat, k: nat)
    requires s <= k <= |fmt|
    ensures var r := WidthFrom(fmt, k, ParseNumber(fmt[s..k], 10));
      r.0 == ParseNumber(fmt[s..r.1], 10)
    decreases |fmt| - k
  {
    if k < |fmt| && '0' <= fmt[k] <= '9' {
      assert fmt[s..k + 1] == fmt[s..k] + [fmt[k]];
      ParseSnoc(fmt[s..k], fmt[k], 10);
      WidthValue(fmt, s, k + 1);
    }
  }

  /** A directive: flags, width, specifier, and where it ends. */
  datatype Directive = Directive(flags: Flags, width: int, spec: char, next: nat)

  /** The directive whose `%` stands before position `k`. */
  function ParseDirective(fmt: string, k: nat): (d: Directive)
    requires k <= |fmt|
    ensures k < d.next <= |fmt| + 1 && d.spec == At(fmt, d.next - 1)
  {
    var zero := At(fmt, k) == '0';
    var k1 := if zero then k + 1 else k;
    var left := At(fmt, k1) == '-';
    var k2 := if left then k1 + 1 else k1;
    var (w, k3) := WidthFrom(fmt, k2, 0);
    Directive(Flags(zero, left, false), w, At(fmt, k3), k3 + 1)
  }

  /** What a directive spells: an optional zero, an optional minus sign, and the width in decimal. */
  lemma DirectiveSpelled(fmt: string, k: nat)
    requires k <= |fmt|
    ensures var d := ParseDirective(fmt, k);
      var w := k + (if d.flags.zero then 1 else 0) + (if d.flags.left then 1 else 0);
      && w < d.next && d.width == ParseNumber(fmt[w..d.next - 1], 10)
      && d.flags.zero == (At(fmt, k) == '0') && d.flags.left == (At(fmt, if d.flags.zero then k + 1 else k) == '-')
  {
    var d := ParseDirective(fmt, k);
    var w := k + (if d.flags.zero then 1 else 0) + (if d.flags.left then 1 else 0);
    assert fmt[w..w] == [];
    WidthValue(fmt, w, w);
  }

  predicate IsNumeric(spec: char) {
    spec == 'd' || spec == 'u' || spec == 'x' || spec == 'X' || spec == 'o' || spec == 'p'
  }

  predicate TakesArg(spec: char) { IsNumeric(spec) || spec == 's' || spec == 'c' }

  /** What a directive asks for: a piece of text, or a number in a field behind a prefix. */
  datatype Item = Text(text: string) | Number(prefix: string, value: word, base: nat, flags: Flags)

  function ItemOf(spec: char, flags: Flags, arg: Arg): (item: Item)
    ensures item.Number? ==> item.base == 8 || item.base == 10 || item.base == 16
  {
    match spec
    case 'd' =>
      if arg.value >= 0x8000_0000 then Number("-", TWO32 - arg.value, 10, flags)
      else Number("", arg.value, 10, flags)
    case 'u' => Number("", arg.value, 10, flags)
    case 'x' => Number("", arg.value, 16, flags)
    case 'X' => Number("", arg.value, 16, flags.(upper := true))
    case 'o' => Number("", arg.value, 8, flags)
    case 'p' => Number("0x", arg.value, 16, flags)
    case 's' => Text(if arg.value == 0 then "(null)" else arg.text)
    case 'c' => Text([(arg.value % 256) as char])
    case '%' => Text("%")
    case _ => Text(['%', spec])
  }

  function Show(item: Item, width: int): string
    requires item.Number? ==> 2 <= item.base <= 16
  {
    match item
    case Text(text) => text
    case Number(prefix, value, base, flags) => prefix + Field(value, base, width, flags)
  }

  /** What one directive prints. A negative number is printed as a minus sign and its magnitude. */
  function Print(d: Directive, arg: Arg): string { Show(ItemOf(d.spec, d.flags, arg), d.width) }

  /** A word as a signed number. */
  function Signed(value: word): int { if value < 0x8000_0000 then value else value - TWO32 }

  function BaseOf(spec: char): nat {
    if spec == 'x' || spec == 'X' || spec == 'p' then 16 else if spec == 'o' then 8 else 10
  }

  /** The number a numeric directive prints: signed for `d`, unsigned for the others. */
  function NumberOf(spec: char, arg: Arg): int { if spec == 'd' then Signed(arg.value) else arg.value }

  function Magnitude(n: int): nat { if n < 0 then -n else n }

  function Prefix(spec: char, n: int): string { if n < 0 then "-" else if spec == 'p' then "0x" else "" }

  lemma NumericItem(spec: char, flags: Flags, arg: Arg)
    requires IsNumeric(spec) && !flags.upper
    ensures var n := NumberOf(spec, arg);
      Magnitude(n) < TWO32 &&
      ItemOf(spec, flags, arg) == Number(Prefix(spec, n), Magnitude(n), BaseOf(spec), flags.(upper := spec == 'X'))
  {}

  /** What a numeric directive means. Behind a minus sign or `0x`, its text is a field of at least
  the width, blank or zero padded on the proper side, with canonical digits that parse back to the
  magnitude of the argument. */
  lemma PrintedNumber(d: Directive, arg: Arg) returns (digits: string)
    requires IsNumeric(d.spec) && !d.flags.upper
    ensures Print(d, arg) == Prefix(d.spec, NumberOf(d.spec, arg)) + Padded(digits, d.width - |digits|, d.flags)
    ensures Canonical(digits, BaseOf(d.spec), d.spec == 'X')
    ensures ParseNumber(digits, BaseOf(d.spec)) == Magnitude(NumberOf(d.spec, arg))
  {
    NumericItem(d.spec, d.flags, arg);
    digits := FieldDigits(Magnitude(NumberOf(d.spec, arg)), BaseOf(d.spec), d.width, d.flags.(upper := d.spec == 'X'));
  }

  lemma FieldDigits(v: nat, base: nat, width: int, flags: Flags) returns (digits: string)
    requires 2 <= base <= 16
    ensures Field(v, base, width, flags) == Padded(digits, width - |digits|, flags)
    ensures Canonical(digits, base, flags.upper) && ParseNumber(digits, base) == v
  {
    digits := Digits(v, base, flags.upper);
    DigitsParse(v, base, flags.upper);
    DigitsCanonical(v, base, flags.upper);
  }

  /** The output of a format, whether the scan ran over its terminator, and the argument it got to. */
  datatype Output = Output(text: string, overrun: bool, next: nat) {
    function After(before: string): Output { this.(text := before + text) }
  }

  function Render(fmt: string, k: nat, args: Args, a: nat): Output
    decreases |fmt| + 1 - k
  {
    if k > |fmt| then Output("", true, a)
    else if At(fmt, k) == NUL then Output("", false, a)
    else if At(fmt, k) != '%' then Render(fmt, k + 1, args, a).After([At(fmt, k)])
    else
      var d := ParseDirective(fmt, k + 1);
      Render(fmt, d.next, args, if TakesArg(d.spec) then a + 1 else a).After(Print(d, args(a)))
  }

  /** The output of the format `memory[0]`, when the other strings follow it in memory: a scan that
  steps over the terminator goes on with the string behind it, and with the next argument. */
  function Whole(memory: seq<CString>, args: Args, a: nat): Output
    decreases |memory|
  {
    if memory == [] then Output("", true, a)
    else
      var r := Render(memory[0], 0, args, a);
      if r.overrun then Whole(memory[1..], args, r.next).After(r.text) else r
  }

  // ---------- output ----------

  lemma Regroup(x: string, y: string, z: string)
    ensures x + y + z == x + (y + z)
  {}

  /** The buffer context: `max` is the buffer size, and 0 stands for no limit. */
  class Sink {
    const buf: array<char>
    const max: nat
    var pos: nat
    ghost const initial: seq<char>
    ghost var out: string  // everything printed so far

    /** Characters that reach the buffer. */
    ghost function Kept(): nat
      reads this
    {
      if max == 0 || |out| <= max - 1 then |out| else max - 1
    }

    ghost predicate Valid()
      reads this, buf
    {
      && pos == |out| && max <= buf.Length && |initial| == buf.Length && Kept() <= buf.Length
      && buf[..Kept()] == out[..Kept()] && buf[Kept()..] == initial[Kept()..]
    }

    /** An unlimited context needs the room it uses. */
    ghost predicate Room(n: nat)
      reads this
    {
      max == 0 ==> |out| + n <= buf.Length
    }

    constructor (buf: array<char>, max: nat)
      requires max <= buf.Length
      ensures Valid() && out == "" && this.buf == buf && this.max == max && initial == buf[..]
    {
      this.buf, this.max, pos := buf, max, 0;
      initial, out := buf[..], "";
    }

    /** `buf_output` */
    method Put(ch: char)
      requires Valid() && Room(1)
      modifies this, buf
      ensures Valid() && out == old(out) + [ch]
    {
      ghost var k := Kept();
      if max == 0 || pos < max - 1 {
        buf[pos] := ch;
        assert buf[..k + 1] == old(buf[..k]) + [ch];
        assert buf[k + 1..] == old(buf[k..])[1..] && initial[k + 1..] == initial[k..][1..];
      }
      pos := pos + 1;
      out := out + [ch];
      assert out[..k] == old(out)[..k];
    }

    method PutAll(s: string)
      requires Valid() && Room(|s|)
      modifies this, buf
      ensures Valid() && out == old(out) + s
    {
      for i := 0 to |s|
        invariant Valid() && out == old(out) + s[..i]
      {
        Put(s[i]);
      }
      assert s[..|s|] == s;
    }

    method Pad(ch: char, n: int)
      requires Valid() && Room(if n > 0 then n else 0)
      modifies this, buf
      ensures Valid() && out == old(out) + Repeat(ch, n)
    {
      var pad := n;
      while pad > 0
        invariant (n <= 0 && pad == n) || 0 <= pad <= n
        invariant Valid() && out == old(out) + Repeat(ch, n - pad)
      {
        Put(ch);
        pad := pad - 1;
      }
    }
  }

  /** The digit loop of `format_number`: digits in reverse, in a buffer of 36 characters that is
  always large enough. */
  method ReverseDigits(value: word, base: nat, upper: bool, tmp: array<char>) returns (count: nat)
    requires (base == 8 || base == 10 || base == 16) && tmp.Length == 36
    modifies tmp
    ensures 0 < count == |Digits(value, base, upper)| <= 11
    ensures forall i :: 0 <= i < count ==> tmp[i] == Digits(value, base, upper)[count - 1 - i]
  {
    ghost var all := Digits(value, base, upper);
    AtMost11(value, base, upper);
    ghost var left := |all|;  // digits still to come
    assert all[..left] == all;
    var v := value;
    count := 0;
    var more := true;
    while more
      invariant 0 <= v && count + left == |all| && (!more ==> left == 0)
      invariant more ==> left > 0 && all[..left] == Digits(v, base, upper)
      invariant forall i :: 0 <= i < count ==> tmp[i] == all[|all| - 1 - i]
      decreases more, v
    {
      NextDigit(all, left, v, base, upper);
      tmp[count] := DigitChar(v % base, upper);
      v := v / base;
      count := count + 1;
      left := left - 1;
      more := v != 0;
    }
  }

  lemma NextDigit(all: string, left: nat, v: nat, base: nat, upper: bool)
    requires 2 <= base <= 16 && 0 < left <= |all| && all[..left] == Digits(v, base, upper)
    ensures 0 <= v / base && (v > 0 ==> v / base < v)
    ensures 0 <= v % base < 16 && all[left - 1] == DigitChar(v % base, upper)
    ensures if v / base == 0 then left == 1 else left > 1 && all[..left - 1] == Digits(v / base, base, upper)
  {
    LastDigit(v, base, upper);
    assert all[left - 1] == all[..left][left - 1];
    assert all[..left - 1] == all[..left][..left - 1];
  }

  /** The last digit is the remainder, and the others are the quotient's, if there is one. */
  lemma LastDigit(v: nat, base: nat, upper: bool)
    requires 2 <= base <= 16
    ensures var ds := Digits(v, base, upper);
      && |ds| > 0 && 0 <= v / base && (v > 0 ==> v / base < v)
      && 0 <= v % base < 16 && ds[|ds| - 1] == DigitChar(v % base, upper)
      && if v / base == 0 then |ds| == 1 else |ds| > 1 && ds[..|ds| - 1] == Digits(v / base, base, upper)
  {
    QuotRem(v, base);
  }

  lemma AtMost11(value: word, base: nat, upper: bool)
    requires 8 <= base <= 16
    ensures 0 < |Digits(value, base, upper)| <= 11
  {
    Pow8To11();
    DigitBound(value, base, upper, 11);
  }

  lemma Pow8To11()
    ensures Positional.Pow(8, 11) == 0x2_0000_0000
  {
    assert Positional.Pow(8, 1) == 8 && Positional.Pow(8, 2) == 64 && Positional.Pow(8, 3) == 512;
    Positional.PowAdd(8, 3, 3);
    Positional.PowAdd(8, 6, 3);
    Positional.PowAdd(8, 9, 2);
  }

  lemma {:induction false} DigitBound(v: nat, base: nat, upper: bool, n: nat)
    requires 8 <= base <= 16 && v < Positional.Pow(8, n) && n > 0
    ensures |Digits(v, base, upper)| <= n
    decreases n
  {
    if v >= base {
      QuotientBound(v, base, Positional.Pow(8, n - 1));
      QuotRem(v, base);
      DigitBound(Quot(v, base), base, upper, n - 1);
    }
  }

  lemma QuotientBound(v: nat, base: nat, p: nat)
    requires 8 <= base && v < 8 * p
    ensures 0 <= v / base < p
  {
    Positional.DivisionEquation(v, base);
    Positional.QuotientNonNegative(v, base);
    Positional.MulMonotone(8, base, v / base);
  }

  method FormatNumber(sink: Sink, value: word, base: nat, width: int, flags: Flags)
    requires (base == 8 || base == 10 || base == 16) && sink.Valid() && sink.Room(|Field(value, base, width, flags)|)
    modifies sink, sink.buf
    ensures sink.Valid() && sink.out == old(sink.out) + Field(value, base, width, flags)
  {
    var tmp := new char[36];
    var count := ReverseDigits(value, base, flags.upper, tmp);
    PutField(sink, tmp, count, width - count, flags, Digits(value, base, flags.upper));
  }

  method PutField(sink: Sink, tmp: array<char>, count: nat, pad: int, flags: Flags, ghost digits: string)
    requires count == |digits| <= tmp.Length && forall i :: 0 <= i < count ==> tmp[i] == digits[count - 1 - i]
    requires sink.Valid() && sink.Room(|Padded(digits, pad, flags)|) && tmp != sink.buf
    modifies sink, sink.buf
    ensures sink.Valid() && sink.out == old(sink.out) + Padded(digits, pad, flags)
  {
    ghost var before, behind := Repeat(if flags.zero then '0' else ' ', pad), Repeat(' ', pad);
    if !flags.left {
      sink.Pad(if flags.zero then '0' else ' ', pad);
      PutDigits(sink, tmp, count, digits);
      Regroup(old(sink.out), before, digits);
    } else {
      PutDigits(sink, tmp, count, digits);
      sink.Pad(' ', pad);
      Regroup(old(sink.out), digits, behind);
    }
  }

  method PutDigits(sink: Sink, tmp: array<char>, n: nat, ghost digits: string)
    requires n == |digits| <= tmp.Length && forall i :: 0 <= i < n ==> tmp[i] == digits[n - 1 - i]
    requires sink.Valid() && sink.Room(n) && tmp != sink.buf
    modifies sink, sink.buf
    ensures sink.Valid() && sink.out == old(sink.out) + digits
  {
    var count := n;
    while count > 0
      invariant 0 <= count <= n && sink.Valid() && sink.out == old(sink.out) + digits[..n - count]
    {
      count := count - 1;
      sink.Put(tmp[count]);
    }
    assert digits[..n] == digits;
  }

  /** The `switch` of `vsnprintf_core`. */
  method Dispatch(spec: char, flags: Flags, arg: Arg) returns (item: Item)
    ensures item == ItemOf(spec, flags, arg)
  {
    match spec {
      case 'd' => item := SignedItem(arg.value, flags);
      case 'u' => item := Number("", arg.value, 10, flags);
      case 'x' => item := Number("", arg.value, 16, flags);
      case 'X' => item := Number("", arg.value, 16, Flags(flags.zero, flags.left, true));
      case 'o' => item := Number("", arg.value, 8, flags);
      case 'p' => item := Number("0x", arg.value, 16, flags);
      case 's' =>
        var t := arg.text;
        if arg.value == 0 { t := "(null)"; }
        item := Text(t);
      case 'c' => item := Text([(arg.value % 256) as char]);
      case '%' => item := Text("%");
      case _ => item := Text(['%', spec]);
    }
  }

  /** A word as a signed number. The magnitude of the most negative one is 2^31, as two's complement
  negation gives it. */
  method SignedItem(value: word, flags: Flags) returns (item: Item)
    ensures item == if value >= 0x8000_0000 then Number("-", TWO32 - value, 10, flags) else Number("", value, 10, flags)
  {
    var val := if value < 0x8000_0000 then value else value - TWO32;
    if val < 0 {
      return Number("-", -val, 10, flags);
    }
    return Number("", val, 10, flags);
  }

  /** One directive. */
  method PrintDirective(sink: Sink, d: Directive, arg: Arg)
    requires sink.Valid() && sink.Room(|Print(d, arg)|)
    modifies sink, sink.buf
    ensures sink.Valid() && sink.out == old(sink.out) + Print(d, arg)
  {
    var item := Dispatch(d.spec, d.flags, arg);
    PrintItem(sink, item, d.width);
  }

  method PrintItem(sink: Sink, item: Item, width: int)
    requires item.Number? ==> item.base == 8 || item.base == 10 || item.base == 16
    requires sink.Valid() && sink.Room(|Show(item, width)|)
    modifies sink, sink.buf
    ensures sink.Valid() && sink.out == old(sink.out) + Show(item, width)
  {
    match item {
      case Text(text) => sink.PutAll(text);
      case Number(prefix, value, base, flags) =>
        sink.PutAll(prefix);
        FormatNumber(sink, value, base, width, flags);
        Regroup(old(sink.out), prefix, Field(value, base, width, flags));
    }
  }

  /** The flag and width scan, with the cursor of the source. */
  method ScanDirective(fmt: string, start: nat) returns (d: Directive)
    requires start <= |fmt|
    ensures d == ParseDirective(fmt, start)
  {
    var k := start;
    var zero, left := false, false;
    if At(fmt, k) == '0' { zero := true; k := k + 1; }
    if At(fmt, k) == '-' { left := true; k := k + 1; }
    var width := 0;
    ghost var from := k;
    while '0' <= At(fmt, k) <= '9'
      invariant from <= k <= |fmt| && WidthFrom(fmt, k, width) == WidthFrom(fmt, from, 0)
      decreases |fmt| - k
    {
      width := width * 10 + (At(fmt, k) as int - '0' as int);
      k := k + 1;
    }
    d := Directive(Flags(zero, left, false), width, At(fmt, k), k + 1);
  }

  /** One turn of the scan loop: a character or a directive, printed as `item`. */
  method PrintNext(sink: Sink, fmt: string, k: nat, args: Args, a: nat) returns (k': nat, a': nat, ghost item: string)
    requires k <= |fmt| && At(fmt, k) != NUL && sink.Valid() && sink.Room(|Render(fmt, k, args, a).text|)
    modifies sink, sink.buf
    ensures sink.Valid() && sink.out == old(sink.out) + item && k < k' <= |fmt| + 1
    ensures Render(fmt, k, args, a) == Render(fmt, k', args, a').After(item)
  {
    if At(fmt, k) != '%' {
      k', a', item := k + 1, a, [At(fmt, k)];
      sink.Put(At(fmt, k));
    } else {
      var d := ScanDirective(fmt, k + 1);
      k', a', item := d.next, if TakesArg(d.spec) then a + 1 else a, Print(d, args(a));
      PrintDirective(sink, d, args(a));
    }
  }

  /** The scan loop, up to the terminator of `fmt` or over it. */
  method PrintString(sink: Sink, fmt: CString, args: Args, from: nat) returns (overrun: bool, a: nat)
    requires sink.Valid() && sink.Room(|Render(fmt, 0, args, from).text|)
    modifies sink, sink.buf
    ensures sink.Valid() && sink.out == old(sink.out) + Render(fmt, 0, args, from).text
    ensures overrun == Render(fmt, 0, args, from).overrun && a == Render(fmt, 0, args, from).next
  {
    ghost var all := Render(fmt, 0, args, from);
    ghost var done := "";
    var k := 0;
    a := from;
    assert all == all.After("");
    while k <= |fmt| && At(fmt, k) != NUL
      invariant 0 <= k <= |fmt| + 1 && sink.Valid() && sink.out == old(sink.out) + done
      invariant all == Render(fmt, k, args, a).After(done)
      decreases |fmt| + 1 - k
    {
      ghost var item;
      k, a, item := PrintNext(sink, fmt, k, args, a);
      Regroup(old(sink.out), done, item);
      Regroup(done, item, Render(fmt, k, args, a).text);
      done := done + item;
    }
    overrun := k > |fmt|;
  }

  /** `vsnprintf_core`. The format is the first string of `memory`; the others follow it, terminator
  after terminator. `astray` reports that the scan has left the memory the model knows. */
  method Core(sink: Sink, memory: seq<CString>, args: Args) returns (astray: bool)
    requires sink.Valid() && sink.Room(|Whole(memory, args, 0).text|)
    modifies sink, sink.buf
    ensures sink.Valid() && sink.out == old(sink.out) + Whole(memory, args, 0).text
    ensures astray == Whole(memory, args, 0).overrun
  {
    ghost var all, rest := Whole(memory, args, 0), Whole(memory, args, 0);
    ghost var done := "";
    var i, a := 0, 0;
    astray := true;
    assert memory[0..] == memory && all == all.After("");
    while astray && i < |memory|
      invariant 0 <= i <= |memory| && sink.Valid() && sink.out == old(sink.out) + done
      invariant rest == if astray then Whole(memory[i..], args, a) else Output("", false, a)
      invariant all.text == done + rest.text && all.overrun == rest.overrun
    {
      ghost var r := Render(memory[i], 0, args, a);
      assert memory[i..][0] == memory[i] && memory[i..][1..] == memory[i + 1..];
      astray, a := PrintString(sink, memory[i], args, a);
      rest := if astray then Whole(memory[i + 1..], args, a) else Output("", false, a);
      Regroup(old(sink.out), done, r.text);
      Regroup(done, r.text, rest.text);
      done := done + r.text;
      i := i + 1;
    }
  }

  // ---------- formats that stay inside their string ----------

  predicate IsDigit(c: char) { '0' <= c <= '9' }

  predicate AllDigits(m: string) { forall i :: 0 <= i < |m| ==> IsDigit(m[i]) }

  /** What may stand between the percent sign and the specifier. */
  predicate FlagsAndWidth(m: string) {
    || AllDigits(m)
    || (|m| >= 1 && m[0] == '-' && AllDigits(m[1..]))
    || (|m| >= 2 && m[0] == '0' && m[1] == '-' && AllDigits(m[2..]))
  }

  /** `c` after `m` is neither another digit nor the alignment flag. */
  predicate Ends(m: string, c: char) { !IsDigit(c) && !(c == '-' && (m == "" || m == "0")) }

  /** An ordinary character, or a directive with its specifier. */
  predicate Complete(item: string) {
    || (|item| == 1 && item[0] != '%')
    || (&& |item| >= 2 && item[0] == '%'
        && FlagsAndWidth(item[1..|item| - 1]) && Ends(item[1..|item| - 1], item[|item| - 1]))
  }

  /** A directive that stops before its specifier. */
  predicate Unfinished(tail: string) { |tail| >= 1 && tail[0] == '%' && FlagsAndWidth(tail[1..]) }

  /** `fmt` consists of complete items and `tail`. */
  ghost predicate Cut(fmt: string, items: seq<string>, tail: string) { CutFrom(fmt, 0, items, tail) }

  /** The same, from position `k` on. */
  ghost predicate CutFrom(fmt: string, k: nat, items: seq<string>, tail: string)
    requires k <= |fmt|
    decreases |items|
  {
    if items == [] then fmt[k..] == tail
    else
      var e := k + |items[0]|;
      Complete(items[0]) && e <= |fmt| && fmt[k..e] == items[0] && CutFrom(fmt, e, items[1..], tail)
  }

  /** That is, the format is their concatenation. */
  lemma {:induction false} CutIsConcat(fmt: string, k: nat, items: seq<string>, tail: string)
    requires k <= |fmt|
    ensures CutFrom(fmt, k, items, tail) <==>
      fmt[k..] == Concat(items) + tail && forall i :: 0 <= i < |items| ==> Complete(items[i])
    decreases |items|
  {
    if items == [] {
      assert [] + tail == tail;
    } else {
      var item, rest, e := items[0], items[1..], k + |items[0]|;
      assert items == [item] + rest;
      ConcatCons(item, rest);
      Regroup(item, Concat(rest), tail);
      assert forall i :: 0 <= i < |rest| ==> rest[i] == items[i + 1];
      if e <= |fmt| {
        CutIsConcat(fmt, e, rest, tail);
        assert fmt[k..] == fmt[k..e] + fmt[e..];
        FrontBack(fmt[k..e], fmt[e..], item, Concat(rest) + tail);
      }
    }
  }

  lemma FrontBack(a: string, b: string, c: string, d: string)
    requires |a| == |c|
    ensures a + b == c + d <==> a == c && b == d
  {
    if a + b == c + d {
      assert a == (a + b)[..|a|] && b == (a + b)[|a|..];
      assert c == (c + d)[..|c|] && d == (c + d)[|c|..];
    }
  }

  /** The format ends in the middle of a directive. */
  ghost predicate CutShort(fmt: string) { exists items, tail :: Cut(fmt, items, tail) && Unfinished(tail) }

  lemma {:induction false} WidthEnds(fmt: string, k: nat, w: int)
    requires k <= |fmt|
    ensures var e := WidthFrom(fmt, k, w).1;
      (forall i :: k <= i < e ==> IsDigit(fmt[i])) && !IsDigit(At(fmt, e))
    decreases |fmt| - k
  {
    if k < |fmt| && IsDigit(fmt[k]) { WidthEnds(fmt, k + 1, w * 10 + (fmt[k] as int - '0' as int)); }
  }

  lemma {:induction false} WidthStops(fmt: string, k: nat, w: int, e: nat)
    requires k <= e <= |fmt| && (forall i :: k <= i < e ==> IsDigit(fmt[i])) && !IsDigit(At(fmt, e))
    ensures WidthFrom(fmt, k, w).1 == e
    decreases |fmt| - k
  {
    if k < e { WidthStops(fmt, k + 1, w * 10 + (fmt[k] as int - '0' as int), e); }
  }

  /** The scan passes over flags and width only, and stops at the first character that is neither. */
  lemma ScanStops(fmt: string, k: nat)
    requires k <= |fmt|
    ensures var e := ParseDirective(fmt, k).next - 1;
      FlagsAndWidth(fmt[k..e]) && Ends(fmt[k..e], At(fmt, e))
  {
    var e := ParseDirective(fmt, k).next - 1;
    var m := fmt[k..e];
    var zero := At(fmt, k) == '0';
    var k1 := if zero then k + 1 else k;
    var left := At(fmt, k1) == '-';
    var k2 := if left then k1 + 1 else k1;
    WidthEnds(fmt, k2, 0);
    assert forall i :: k2 <= i < e ==> m[i - k] == fmt[i];
    if left && zero {
      assert forall i :: 0 <= i < |m[2..]| ==> m[2..][i] == fmt[k2 + i];
    } else if left {
      assert forall i :: 0 <= i < |m[1..]| ==> m[1..][i] == fmt[k2 + i];
    } else {
      assert forall i :: 0 <= i < |m| ==> IsDigit(m[i]);
    }
  }

  lemma ScanFinds(fmt: string, k: nat, e: nat)
    requires k <= e <= |fmt| && FlagsAndWidth(fmt[k..e]) && Ends(fmt[k..e], At(fmt, e))
    ensures ParseDirective(fmt, k).next == e + 1
  {
    var m := fmt[k..e];
    var zero := At(fmt, k) == '0';
    var k1 := if zero then k + 1 else k;
    var left := At(fmt, k1) == '-';
    var k2 := if left then k1 + 1 else k1;
    assert forall i :: k <= i < e ==> fmt[i] == m[i - k];
    if AllDigits(m) {
      assert m == "" || m == "0" || |m| >= 2 || (|m| == 1 && m[0] != '0');
    } else if m[0] == '-' {
      assert forall i :: k + 1 <= i < e ==> fmt[i] == m[1..][i - k - 1];
    } else {
      assert forall i :: k + 2 <= i < e ==> fmt[i] == m[2..][i - k - 2];
    }
    assert k2 <= e && forall i :: k2 <= i < e ==> IsDigit(fmt[i]);
    WidthStops(fmt, k2, 0, e);
  }

  /** Where the item at position `k` ends. */
  function NextItem(fmt: string, k: nat): (e: nat)
    requires k < |fmt|
    ensures k < e <= |fmt| + 1
  {
    if fmt[k] == '%' then ParseDirective(fmt, k + 1).next else k + 1
  }

  lemma RenderNext(fmt: CString, k: nat, args: Args, a: nat) returns (a': nat)
    requires k < |fmt|
    ensures Render(fmt, k, args, a).overrun == Render(fmt, NextItem(fmt, k), args, a').overrun
  {
    a' := if fmt[k] == '%' && TakesArg(ParseDirective(fmt, k + 1).spec) then a + 1 else a;
  }

  lemma Inside(fmt: string, k: nat, e: nat)
    requires k + 2 <= e <= |fmt|
    ensures fmt[k..e][1..|fmt[k..e]| - 1] == fmt[k + 1..e - 1] && fmt[k..e][|fmt[k..e]| - 1] == fmt[e - 1]
  {
    var item := fmt[k..e];
    assert |item| == e - k;
    var x, y := item[1..e - k - 1], fmt[k + 1..e - 1];
    assert forall i :: 0 <= i < |x| ==> x[i] == fmt[k + 1 + i] == y[i];
  }

  lemma ItemFound(fmt: string, k: nat)
    requires k < |fmt|
    ensures var e := NextItem(fmt, k);
      if e <= |fmt| then Complete(fmt[k..e]) else Unfinished(fmt[k..])
  {
    var e := NextItem(fmt, k);
    if fmt[k] == '%' {
      ScanStops(fmt, k + 1);
      if e <= |fmt| {
        Inside(fmt, k, e);
      } else {
        assert fmt[k..][1..] == fmt[k + 1..e - 1];
      }
    }
  }

  lemma CompleteEnds(fmt: string, k: nat, e: nat)
    requires k < e <= |fmt| && Complete(fmt[k..e])
    ensures NextItem(fmt, k) == e
  {
    assert fmt[k..e][0] == fmt[k];
    if fmt[k] == '%' {
      Inside(fmt, k, e);
      ScanFinds(fmt, k + 1, e - 1);
    }
  }

  lemma UnfinishedEnds(fmt: string, k: nat)
    requires k < |fmt| && Unfinished(fmt[k..])
    ensures NextItem(fmt, k) == |fmt| + 1
  {
    assert fmt[k..][0] == fmt[k] && fmt[k..][1..] == fmt[k + 1..|fmt|];
    ScanFinds(fmt, k + 1, |fmt|);
  }

  /** The scan of a format that is known in items. */
  lemma {:induction false} CutScanned(fmt: CString, k: nat, items: seq<string>, tail: string, args: Args, a: nat)
    requires k <= |fmt| && CutFrom(fmt, k, items, tail) && (tail == "" || Unfinished(tail))
    ensures Render(fmt, k, args, a).overrun <==> tail != ""
    decreases |items|
  {
    if items == [] {
      if tail != "" {
        UnfinishedEnds(fmt, k);
        var a' := RenderNext(fmt, k, args, a);
      }
    } else {
      var e := k + |items[0]|;
      CompleteEnds(fmt, k, e);
      var a' := RenderNext(fmt, k, args, a);
      CutScanned(fmt, e, items[1..], tail, args, a');
    }
  }

  /** Every format is a sequence of complete items, possibly with an unfinished directive behind it. */
  lemma {:induction false} ScannedCut(fmt: string, k: nat) returns (items: seq<string>, tail: string)
    requires k <= |fmt|
    ensures CutFrom(fmt, k, items, tail) && (tail == "" || Unfinished(tail))
    decreases |fmt| - k
  {
    if k == |fmt| {
      items, tail := [], "";
    } else {
      ItemFound(fmt, k);
      var e := NextItem(fmt, k);
      if e > |fmt| {
        items, tail := [], fmt[k..];
      } else {
        var rest;
        rest, tail := ScannedCut(fmt, e);
        items := [fmt[k..e]] + rest;
        assert items[1..] == rest;
      }
    }
  }

  /** The scan leaves the string exactly when the format ends in the middle of a directive. */
  lemma OverrunIsCutShort(fmt: CString, args: Args, a: nat)
    ensures Render(fmt, 0, args, a).overrun <==> CutShort(fmt)
  {
    var items, tail := ScannedCut(fmt, 0);
    assert Cut(fmt, items, tail);
    CutScanned(fmt, 0, items, tail, args, a);
    if CutShort(fmt) {
      var items', tail' :| Cut(fmt, items', tail') && Unfinished(tail');
      CutScanned(fmt, 0, items', tail', args, a);
    }
  }

  /** The scan is lost exactly when every string it comes to is cut short; if the format itself is
  not, nothing behind it is read. */
  lemma {:induction false} WholeOutput(memory: seq<CString>, args: Args, a: nat)
    ensures Whole(memory, args, a).overrun <==> forall i :: 0 <= i < |memory| ==> CutShort(memory[i])
    ensures memory != [] && !CutShort(memory[0]) ==> Whole(memory, args, a) == Render(memory[0], 0, args, a)
    decreases |memory|
  {
    if memory != [] {
      OverrunIsCutShort(memory[0], args, a);
      WholeOutput(memory[1..], args, Render(memory[0], 0, args, a).next);
      assert forall i :: 0 < i < |memory| ==> memory[i] == memory[1..][i - 1];
    }
  }

  /** A lone percent sign is such a format; two are not. The specifier printed for it is the
  terminator, and then comes the string that lies behind the format. */
  lemma PercentIsCutShort(behind: CString, args: Args)
    ensures CutShort("%") && !CutShort("%%")
    ensures !CutShort(behind) ==> Whole(["%", behind], args, 0).text == ['%', NUL] + Render(behind, 0, args, 0).text
  {
    LonePercent(args);
    TwoPercents(args);
    OverrunIsCutShort("%", args, 0);
    OverrunIsCutShort("%%", args, 0);
    OverrunIsCutShort(behind, args, 0);
    assert ["%", behind][1..] == [behind];
  }

  lemma LonePercent(args: Args)
    ensures Render("%", 0, args, 0) == Output(['%', NUL], true, 0)
  {
    assert ParseDirective("%", 1) == Directive(Flags(false, false, false), 0, NUL, 2);
    assert ['%', NUL] + "" == ['%', NUL];
  }

  lemma TwoPercents(args: Args)
    ensures !Render("%%", 0, args, 0).overrun
  {
    assert ParseDirective("%%", 1) == Directive(Flags(false, false, false), 0, '%', 2);
  }

  // ---------- what a format prints ----------

  /** What stands between the percent sign and the specifier. */
  function Middle(item: string): string
    requires |item| >= 2
  {
    item[1..|item| - 1]
  }

  /** `digits` in a field: padded behind with blanks, or in front with zeros or blanks. */
  ghost predicate InField(field: string, digits: string, width: int, zero: bool, left: bool)
  {
    && |field| == (if width > |digits| then width else |digits|)
    && if left then
         field[..|digits|] == digits && forall i :: |digits| <= i < |field| ==> field[i] == ' '
       else
         && field[|field| - |digits|..] == digits
         && forall i :: 0 <= i < |field| - |digits| ==> field[i] == if zero then '0' else ' '
  }

  /** A directive pads with zeros when its first character is a zero, ... */
  function Zero(item: string): bool
    requires |item| >= 2
  {
    Middle(item) != "" && Middle(item)[0] == '0'
  }

  /** ... aligns to the left when a minus sign comes next, ... */
  function Left(item: string): bool
    requires |item| >= 2
  {
    var z := if Zero(item) then 1 else 0;
    z < |Middle(item)| && Middle(item)[z] == '-'
  }

  /** ... and has the width that the rest spells. */
  function Width(item: string): nat
    requires |item| >= 2
  {
    ParseNumber(Middle(item)[(if Zero(item) then 1 else 0) + (if Left(item) then 1 else 0)..], 10)
  }

  /** `text` is the number `n` in `base`: a sign or prefix, and canonical digits in the field the
  directive asks for. */
  ghost predicate NumberPrinted(item: string, n: int, base: nat, text: string, digits: string)
    requires |item| >= 2
  {
    var prefix := if n < 0 then "-" else if item[|item| - 1] == 'p' then "0x" else "";
    && Canonical(digits, base, item[|item| - 1] == 'X') && ParseNumber(digits, base) == (if n < 0 then -n else n)
    && prefix <= text && InField(text[|prefix|..], digits, Width(item), Zero(item), Left(item))
  }

  ghost predicate NumberText(item: string, n: int, base: nat, text: string)
    requires |item| >= 2
  {
    exists digits :: NumberPrinted(item, n, base, text, digits)
  }

  /** Base and number of a directive, in numbers. */
  lemma BaseAndNumber(arg: Arg)
    ensures BaseOf('d') == BaseOf('u') == 10 && BaseOf('o') == 8 && BaseOf('x') == BaseOf('X') == BaseOf('p') == 16
    ensures -0x8000_0000 <= NumberOf('d', arg) < 0x8000_0000 && (arg.value - NumberOf('d', arg)) % 0x1_0000_0000 == 0
    ensures forall c :: c != 'd' ==> NumberOf(c, arg) == arg.value
  {}

  /** What an item prints, in terms of its characters and its argument. */
  ghost predicate Prints(item: string, arg: Arg, text: string)
    requires Complete(item)
  {
    if item[0] != '%' then text == item
    else
      var c := item[|item| - 1];
      if IsNumeric(c) then NumberText(item, NumberOf(c, arg), BaseOf(c), text)
      else if c == 's' then text == if arg.value == 0 then "(null)" else arg.text
      else if c == 'c' then text == [(arg.value % 256) as char]
      else if c == '%' then text == "%"
      else text == ['%', c]
  }

  predicate Consumes(c: char) {
    c == 'd' || c == 'u' || c == 'x' || c == 'X' || c == 'o' || c == 'p' || c == 's' || c == 'c'
  }

  /** The arguments the items take. */
  function ArgsIn(items: seq<string>): nat {
    if items == [] then 0
    else
      var item := items[0];
      (if |item| >= 2 && item[0] == '%' && Consumes(item[|item| - 1]) then 1 else 0) + ArgsIn(items[1..])
  }

  lemma PaddedInField(digits: string, width: int, flags: Flags)
    ensures InField(Padded(digits, width - |digits|, flags), digits, width, flags.zero, flags.left)
  {}

  /** Flags and width as the scan finds them are those the characters spell. */
  lemma ItemSpelled(fmt: string, k: nat, e: nat)
    requires k + 2 <= e <= |fmt| && ParseDirective(fmt, k + 1).next == e && Ends(fmt[k + 1..e - 1], fmt[e - 1])
    ensures var d, item := ParseDirective(fmt, k + 1), fmt[k..e];
      d.flags.zero == Zero(item) && d.flags.left == Left(item) && d.width == Width(item)
  {
    var item, d := fmt[k..e], ParseDirective(fmt, k + 1);
    DirectiveSpelled(fmt, k + 1);
    Inside(fmt, k, e);
    var m, z := Middle(item), if d.flags.zero then 1 else 0;
    assert m == fmt[k + 1..e - 1];
    var w := z + if d.flags.left then 1 else 0;
    assert m[w..] == fmt[k + 1 + w..e - 1];
  }

  lemma NumberAssembled(item: string, n: int, base: nat, digits: string, flags: Flags, text: string)
    requires |item| >= 2 && flags.zero == Zero(item) && flags.left == Left(item)
    requires Canonical(digits, base, item[|item| - 1] == 'X') && ParseNumber(digits, base) == Magnitude(n)
    requires text == Prefix(item[|item| - 1], n) + Padded(digits, Width(item) - |digits|, flags)
    ensures NumberText(item, n, base, text)
  {
    PaddedInField(digits, Width(item), flags);
    PrefixFirst(Prefix(item[|item| - 1], n), Padded(digits, Width(item) - |digits|, flags));
    assert NumberPrinted(item, n, base, text, digits);
  }

  lemma PrefixFirst(p: string, s: string)
    ensures p <= p + s && (p + s)[|p|..] == s
  {}

  lemma ArgsInOne(item: string)
    ensures ArgsIn([item]) == if |item| >= 2 && item[0] == '%' && Consumes(item[|item| - 1]) then 1 else 0
  {
    assert [item][1..] == [];
  }

  /** A number directive prints its argument. */
  lemma NumberIsPrinted(item: string, d: Directive, arg: Arg)
    requires |item| >= 2 && item[|item| - 1] == d.spec && IsNumeric(d.spec) && !d.flags.upper
    requires d.flags.zero == Zero(item) && d.flags.left == Left(item) && d.width == Width(item)
    ensures NumberText(item, NumberOf(d.spec, arg), BaseOf(d.spec), Print(d, arg))
  {
    var digits := PrintedNumber(d, arg);
    NumberAssembled(item, NumberOf(d.spec, arg), BaseOf(d.spec), digits, d.flags, Print(d, arg));
  }

  /** What a complete item prints is what its characters say. */
  lemma ItemPrints(item: string, arg: Arg)
    requires Complete(item)
    ensures item[0] == '%' ==> Prints(item, arg, Print(ParseDirective(item, 1).(next := 0), arg))
  {
    if item[0] == '%' {
      assert item[0..|item|] == item;
      CompleteEnds(item, 0, |item|);
      var d := ParseDirective(item, 1).(next := 0);
      assert d.spec == item[|item| - 1];
      if IsNumeric(d.spec) {
        assert item[1..|item| - 1] == Middle(item);
        ItemSpelled(item, 0, |item|);
        NumberIsPrinted(item, d, arg);
      } else {
        TextPrinted(d, arg);
      }
    }
  }

  /** The specifiers that print no number. */
  lemma TextPrinted(d: Directive, arg: Arg)
    requires !IsNumeric(d.spec)
    ensures Print(d, arg)
         == if d.spec == 's' then (if arg.value == 0 then "(null)" else arg.text)
            else if d.spec == 'c' then [(arg.value % 256) as char]
            else if d.spec == '%' then "%"
            else ['%', d.spec]
  {}

  // ---------- formats in items ----------

  /** Whatever prints a directive; the format laws do not depend on it. */
  type Printer = (Directive, Arg) -> string

  function Printing(): Printer { (d, arg) => Print(d, arg) }

  /** What an item prints. */
  function ItemText(p: Printer, item: string, arg: Arg): string
    requires item != ""
  {
    if item[0] == '%' then p(ParseDirective(item, 1).(next := 0), arg) else item
  }

  /** `Render`, with whatever prints a directive. */
  function RenderWith(p: Printer, fmt: string, k: nat, args: Args, a: nat): Output
    decreases |fmt| + 1 - k
  {
    if k > |fmt| then Output("", true, a)
    else if At(fmt, k) == NUL then Output("", false, a)
    else if At(fmt, k) != '%' then RenderWith(p, fmt, k + 1, args, a).After([At(fmt, k)])
    else
      var d := ParseDirective(fmt, k + 1);
      RenderWith(p, fmt, d.next, args, if TakesArg(d.spec) then a + 1 else a).After(p(d.(next := 0), args(a)))
  }

  lemma {:induction false} RenderIsWith(fmt: string, k: nat, args: Args, a: nat)
    ensures Render(fmt, k, args, a) == RenderWith(Printing(), fmt, k, args, a)
    decreases |fmt| + 1 - k
  {
    if k <= |fmt| && At(fmt, k) != NUL {
      if At(fmt, k) != '%' {
        RenderIsWith(fmt, k + 1, args, a);
      } else {
        var d := ParseDirective(fmt, k + 1);
        RenderIsWith(fmt, d.next, args, if TakesArg(d.spec) then a + 1 else a);
        PrintIgnoresNext(d, args(a));
      }
    }
  }

  lemma PrintIgnoresNext(d: Directive, arg: Arg)
    ensures Print(d, arg) == Print(d.(next := 0), arg)
  {}

  /** A directive is the same in its item as in the format. */
  lemma SameDirective(fmt: string, k: nat, e: nat)
    requires k < e <= |fmt| && fmt[k] == '%' && Complete(fmt[k..e])
    ensures ParseDirective(fmt[k..e], 1).(next := 0) == ParseDirective(fmt, k + 1).(next := 0)
    ensures ParseDirective(fmt, k + 1).next == e && ParseDirective(fmt, k + 1).spec == fmt[e - 1]
  {
    var item := fmt[k..e];
    CompleteEnds(fmt, k, e);
    assert item[0..|item|] == item;
    CompleteEnds(item, 0, |item|);
    ItemSpelled(fmt, k, e);
    ItemSpelled(item, 0, |item|);
  }

  /** One step of the scan is one item. */
  lemma ItemRendered(p: Printer, fmt: CString, k: nat, e: nat, args: Args, a: nat)
    requires k < e <= |fmt| && Complete(fmt[k..e])
    ensures RenderWith(p, fmt, k, args, a)
         == RenderWith(p, fmt, e, args, a + ArgsIn([fmt[k..e]])).After(ItemText(p, fmt[k..e], args(a)))
  {
    var item := fmt[k..e];
    ArgsInOne(item);
    assert item[0] == fmt[k] && item[|item| - 1] == fmt[e - 1];
    if fmt[k] == '%' {
      SameDirective(fmt, k, e);
    } else {
      assert item == [fmt[k]];
    }
  }

  /** A scan, as a function of position and argument, and what it does with items. */
  type Scan = (nat, nat) -> Output
  type Texter = (string, Arg) -> string

  ghost predicate StepOk(r: Scan, t: Texter, fmt: string, args: Args, k: nat, e: nat, a: nat) {
    k < e <= |fmt| && Complete(fmt[k..e]) ==> r(k, a) == r(e, a + ArgsIn([fmt[k..e]])).After(t(fmt[k..e], args(a)))
  }

  ghost predicate Scans(r: Scan, t: Texter, fmt: string, args: Args) {
    forall k: nat, e: nat, a: nat :: StepOk(r, t, fmt, args, k, e, a)
  }

  /** The texts of items one after the other, each with the argument that is its turn. */
  function AllText(t: Texter, items: seq<string>, args: Args, a: nat): string
    decreases |items|
  {
    if items == [] then "" else t(items[0], args(a)) + AllText(t, items[1..], args, a + ArgsIn([items[0]]))
  }

  lemma ArgsInCons(items: seq<string>)
    requires items != []
    ensures ArgsIn(items) == ArgsIn([items[0]]) + ArgsIn(items[1..])
  {
    ArgsInOne(items[0]);
  }

  lemma {:induction false} ItemsScanned(
    r: Scan, t: Texter, fmt: string, k: nat, items: seq<string>, tail: string, args: Args, a: nat)
    requires Scans(r, t, fmt, args) && k <= |fmt| && CutFrom(fmt, k, items, tail)
    ensures |tail| <= |fmt| && r(k, a) == r(|fmt| - |tail|, a + ArgsIn(items)).After(AllText(t, items, args, a))
    decreases |items|
  {
    if items == [] {
      AfterNothing(r(k, a));
    } else {
      var item, rest, e := items[0], items[1..], k + |items[0]|;
      ArgsInCons(items);
      var a' := a + ArgsIn([item]);
      assert StepOk(r, t, fmt, args, k, e, a);
      ItemsScanned(r, t, fmt, e, rest, tail, args, a');
      AfterChain(r(k, a), r(e, a'), r(|fmt| - |tail|, a + ArgsIn(items)), t(item, args(a)), AllText(t, rest, args, a'));
    }
  }

  lemma AfterNothing(o: Output)
    ensures o.After("") == o
  {
    assert "" + o.text == o.text;
  }

  lemma AfterChain(r: Output, r': Output, o: Output, t: string, more: string)
    requires r == r'.After(t) && r' == o.After(more)
    ensures r == o.After(t + more)
  {
    Regroup(t, more, o.text);
  }

  function Texting(p: Printer): Texter { (item, arg) => if item == "" then "" else ItemText(p, item, arg) }

  function Scanning(p: Printer, fmt: string, args: Args): Scan { (k: nat, a: nat) => RenderWith(p, fmt, k, args, a) }

  lemma RenderScans(p: Printer, fmt: CString, args: Args)
    ensures Scans(Scanning(p, fmt, args), Texting(p), fmt, args)
  {
    var r, t := Scanning(p, fmt, args), Texting(p);
    forall k: nat, e: nat, a: nat ensures StepOk(r, t, fmt, args, k, e, a) {
      if k < e <= |fmt| && Complete(fmt[k..e]) {
        ItemRendered(p, fmt, k, e, args, a);
      }
    }
  }

  /** For an unfinished directive a percent sign and the terminator are printed. */
  function TailText(tail: string): string { if tail == "" then "" else ['%', NUL] }

  /** The terminator is treated like an unknown specifier. */
  ghost predicate PrintsNul(p: Printer) { forall d: Directive, arg: Arg :: d.spec == NUL ==> p(d, arg) == ['%', NUL] }

  lemma PrintingNul()
    ensures PrintsNul(Printing())
  {
    forall d: Directive, arg: Arg | d.spec == NUL ensures Printing()(d, arg) == ['%', NUL] {
      TextPrinted(d, arg);
    }
  }

  /** The end of a format: its terminator, or an unfinished directive, for which a percent sign and
  the terminator are printed. */
  lemma TailRendered(p: Printer, fmt: CString, tail: string, args: Args, a: nat)
    requires |tail| <= |fmt| && fmt[|fmt| - |tail|..] == tail && (tail == "" || Unfinished(tail)) && PrintsNul(p)
    ensures RenderWith(p, fmt, |fmt| - |tail|, args, a)
         == Output(TailText(tail), tail != "", a)
  {
    if tail != "" {
      var k := |fmt| - |tail|;
      UnfinishedEnds(fmt, k);
      assert fmt[k] == '%' && RenderWith(p, fmt, |fmt| + 1, args, a) == Output("", true, a);
      AfterEnd(RenderWith(p, fmt, k, args, a), Output("", true, a), ['%', NUL], "", true, a);
      assert ['%', NUL] + "" == ['%', NUL];
    }
  }

  lemma {:induction false} CutTail(fmt: string, k: nat, items: seq<string>, tail: string)
    requires k <= |fmt| && CutFrom(fmt, k, items, tail)
    ensures |tail| <= |fmt| && fmt[|fmt| - |tail|..] == tail
    decreases |items|
  {
    if items != [] { CutTail(fmt, k + |items[0]|, items[1..], tail); }
  }

  lemma ScanIs(p: Printer, fmt: string, args: Args, k: nat, a: nat)
    ensures Scanning(p, fmt, args)(k, a) == RenderWith(p, fmt, k, args, a)
  {}

  lemma ScanEnds(p: Printer, fmt: CString, tail: string, args: Args, a: nat)
    requires |tail| <= |fmt| && fmt[|fmt| - |tail|..] == tail && (tail == "" || Unfinished(tail)) && PrintsNul(p)
    ensures Scanning(p, fmt, args)(|fmt| - |tail|, a) == Output(TailText(tail), tail != "", a)
  {
    TailRendered(p, fmt, tail, args, a);
    ScanIs(p, fmt, args, |fmt| - |tail|, a);
  }

  /** From the first item to the end of the format. */
  lemma FormatScanned(
    r: Scan, t: Texter, fmt: string, items: seq<string>, tail: string, args: Args, a: nat, first: Output, last: string)
    requires Scans(r, t, fmt, args) && Cut(fmt, items, tail) && |tail| <= |fmt| && r(0, a) == first
    requires r(|fmt| - |tail|, a + ArgsIn(items)) == Output(last, tail != "", a + ArgsIn(items))
    ensures first == Output(AllText(t, items, args, a) + last, tail != "", a + ArgsIn(items))
  {
    ItemsScanned(r, t, fmt, 0, items, tail, args, a);
    var b := a + ArgsIn(items);
    AfterEnd(r(0, a), r(|fmt| - |tail|, b), AllText(t, items, args, a), last, tail != "", b);
  }

  lemma AfterEnd(r: Output, end: Output, text: string, last: string, overrun: bool, next: nat)
    requires r == end.After(text) && end == Output(last, overrun, next)
    ensures r == Output(text + last, overrun, next)
  {}

  /** A format prints the texts of its items one after the other, and a percent sign and the terminator
  for an unfinished directive. */
  lemma FormatPrinted(p: Printer, fmt: CString, items: seq<string>, tail: string, args: Args, a: nat)
    requires PrintsNul(p) && Cut(fmt, items, tail) && (tail == "" || Unfinished(tail))
    ensures RenderWith(p, fmt, 0, args, a)
         == Output(AllText(Texting(p), items, args, a) + TailText(tail), tail != "", a + ArgsIn(items))
  {
    RenderScans(p, fmt, args);
    CutTail(fmt, 0, items, tail);
    ScanEnds(p, fmt, tail, args, a + ArgsIn(items));
    ScanIs(p, fmt, args, 0, a);
    FormatScanned(Scanning(p, fmt, args), Texting(p), fmt, items, tail, args, a,
      RenderWith(p, fmt, 0, args, a), TailText(tail));
  }

  /** For what is really printed. */
  lemma RenderPrinted(fmt: CString, items: seq<string>, tail: string, args: Args, a: nat)
    requires Cut(fmt, items, tail) && (tail == "" || Unfinished(tail))
    ensures Render(fmt, 0, args, a)
         == Output(AllText(Texting(Printing()), items, args, a) + TailText(tail), tail != "", a + ArgsIn(items))
  {
    PrintingNul();
    FormatPrinted(Printing(), fmt, items, tail, args, a);
    RenderIsWith(fmt, 0, args, a);
  }

  /** Behind a format that ends inside a directive the next string in memory is printed, with the
  arguments that are left. */
  lemma PrintingGoesOn(memory: seq<CString>, args: Args, a: nat, text: string, next: nat)
    requires memory != [] && Render(memory[0], 0, args, a) == Output(text, true, next)
    ensures Whole(memory, args, a) == Whole(memory[1..], args, next).After(text)
  {}

  /** The text of the first item is what its characters say of its argument, and an item that takes an
  argument leaves the next one to the others. */
  lemma FirstPrinted(items: seq<string>, args: Args, a: nat) returns (text: string)
    requires items != [] && Complete(items[0])
    ensures Prints(items[0], args(a), text)
    ensures AllText(Texting(Printing()), items, args, a)
         == text + AllText(Texting(Printing()), items[1..], args, a + ArgsIn([items[0]]))
  {
    text := ItemText(Printing(), items[0], args(a));
    ItemPrints(items[0], args(a));
  }

  /** A format without a percent sign prints itself. */
  lemma {:induction false} PlainPrinted(fmt: CString, k: nat, args: Args, a: nat)
    requires k <= |fmt| && '%' !in fmt
    ensures Render(fmt, k, args, a) == Output(fmt[k..], false, a)
    decreases |fmt| - k
  {
    if k < |fmt| {
      PlainPrinted(fmt, k + 1, args, a);
      assert fmt[k..] == [fmt[k]] + fmt[k + 1..];
    }
  }

  /** `%s` prints the string found at its argument, and `(null)` exactly for a null pointer. */
  lemma StringPrinted(args: Args, a: nat)
    ensures Render("%s", 0, args, a) == Output(if args(a).value == 0 then "(null)" else args(a).text, false, a + 1)
  {
    var d := ParseDirective("%s", 1);
    assert d.spec == 's' && d.next == 2;
    TextPrinted(d, args(a));
    var t := Print(d, args(a));
    assert t + "" == t;
  }

  // ---------- the entry points ----------

  function Min(a: int, b: int): int { if a < b then a else b }

  /** With a size, the first `size - 1` characters of the output and a terminator, nothing else is
  touched, and the length of the whole output is returned. With size 0 the limit is off: the whole
  output is written, without a terminator. The output is that of the format alone unless it ends
  inside a directive; nothing is said of it once the scan is lost, except that it stays in bounds. */
  method Snprintf(buf: array<char>, size: nat, memory: seq<CString>, args: Args) returns (n: nat, astray: bool)
    requires memory != []
    requires size <= buf.Length && (size == 0 ==> |Whole(memory, args, 0).text| <= buf.Length)
    modifies buf
    ensures astray <==> forall i :: 0 <= i < |memory| ==> CutShort(memory[i])
    ensures !CutShort(memory[0]) ==> Whole(memory, args, 0) == Render(memory[0], 0, args, 0)
    ensures size > 0 ==> buf[size..] == old(buf[..])[size..]
    ensures var text := Whole(memory, args, 0).text;
      !astray ==>
        && n == |text|
        && (size > 0 ==> var m := Min(n, size - 1);
              buf[..m] == text[..m] && buf[m] == NUL && buf[m + 1..] == old(buf[..])[m + 1..])
        && (size == 0 ==> buf[..n] == text && buf[n..] == old(buf[..])[n..])
  {
    var sink := new Sink(buf, size);
    astray := Core(sink, memory, args);
    WholeOutput(memory, args, 0);
    ghost var text := Whole(memory, args, 0).text;
    assert sink.out == text;
    n := sink.pos;
    if size > 0 {
      var m := if n < size then n else size - 1;
      Terminated(buf[..], text, old(buf[..]), m);
      ghost var b := buf[..];
      buf[m] := NUL;
      assert buf[..] == b[m := NUL];
      assert buf[size..] == b[m := NUL][m + 1..][size - m - 1..];
    }
  }

  lemma Terminated(b: string, text: string, initial: string, m: nat)
    requires m < |b| == |initial| && m <= |text| && b[..m] == text[..m] && b[m..] == initial[m..]
    ensures var r := b[m := NUL]; r[..m] == text[..m] && r[m + 1..] == initial[m + 1..]
  {
    assert b[m + 1..] == b[m..][1..] && initial[m + 1..] == initial[m..][1..];
  }

  method Sprintf(buf: array<char>, memory: seq<CString>, args: Args) returns (n: nat, astray: bool)
    requires memory != [] && |Whole(memory, args, 0).text| < buf.Length
    modifies buf
    ensures astray <==> forall i :: 0 <= i < |memory| ==> CutShort(memory[i])
    ensures !CutShort(memory[0]) ==> Whole(memory, args, 0) == Render(memory[0], 0, args, 0)
    ensures !astray ==>
      && n == |Whole(memory, args, 0).text| && buf[..n] == Whole(memory, args, 0).text && buf[n] == NUL
      && buf[n + 1..] == old(buf[..])[n + 1..]
  {
    var sink := new Sink(buf, 0);
    astray := Core(sink, memory, args);
    WholeOutput(memory, args, 0);
    assert sink.out == Whole(memory, args, 0).text;
    n := sink.pos;
    buf[n] := NUL;
  }

  /** Size 0 does not keep the output out of the buffer. */
  method SizeZeroWrites(args: Args) returns (n: nat, buf: array<char>)
    ensures n == 1 && buf.Length == 2 && buf[..] == "a "
  {
    buf := new char[2](_ => ' ');
    PlainLetter(args);
    var astray;
    n, astray := Snprintf(buf, 0, ["a"], args);
    assert buf[..] == buf[..1] + buf[1..];
  }

  lemma PlainLetter(args: Args)
    ensures Render("a", 0, args, 0) == Output("a", false, 0) && !CutShort("a")
  {
    OverrunIsCutShort("a", args, 0);
    assert Render("a", 1, args, 0) == Output("", false, 0);
    assert "a" + "" == "a";
  }
}
