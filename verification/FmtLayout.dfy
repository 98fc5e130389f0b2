/** Integers laid out as text: sign or base prefix, zeros, digits and fill. */
module FmtLayout {
  import opened Powers
  import opened FmtDigits
  import opened FmtDecimal

  datatype Align = Default | Left | Right | Center | Numeric

  datatype Sign = NoSign | Plus | Space

  /** The base that the type character stands for; `Grouping` is 'n' with the separator of the locale. */
  datatype Form = Dec | Hex(upper: bool) | Bin(upper: bool) | Oct | Grouping(sep: string)

  /** A format specification; a negative precision is none. */
  datatype Spec = Spec(width: nat, fill: char, align: Align, precision: int, sign: Sign, hash: bool, form: Form)

  function Repeat(c: char, n: int): (s: string)
    ensures |s| == if n < 0 then 0 else n
  {
    seq(if n < 0 then 0 else n, i => c)
  }

  // ---------- the layout ----------

  /** The octal prefix counts as a digit when a precision asks for zeros. */
  function Trimmed(prefix: string): string {
    if |prefix| > 0 && prefix[|prefix| - 1] == '0' then prefix[..|prefix| - 1] else prefix
  }

  predicate ZerosAdded(digits: nat, spec: Spec) {
    spec.precision > digits
  }

  /** Prefix, zeros up to the precision, and digits. */
  function Number(prefix: string, digits: string, spec: Spec): string {
    if ZerosAdded(|digits|, spec) then Trimmed(prefix) + Repeat('0', spec.precision - |digits|) + digits
    else prefix + digits
  }

  /** What stands in front of the digits, of which there are `k`. */
  function Before(prefix: string, k: nat, spec: Spec): string {
    if ZerosAdded(k, spec) then
      var front := Trimmed(prefix) + Repeat('0', spec.precision - k);
      if spec.align == Left then front else Repeat(spec.fill, spec.width - |front| - k) + front
    else
      var pad := spec.width - |prefix| - k;
      match spec.align
      case Left => prefix
      case Center => Repeat(spec.fill, if pad < 0 then 0 else pad / 2) + prefix
      case Numeric => prefix + Repeat(spec.fill, pad)
      case _ => Repeat(spec.fill, pad) + prefix
  }

  /** What stands behind them. */
  function After(prefix: string, k: nat, spec: Spec): string {
    if ZerosAdded(k, spec) then
      Repeat(spec.fill, if spec.align == Left then spec.width - |Trimmed(prefix)| - spec.precision else 0)
    else
      var pad := spec.width - |prefix| - k;
      match spec.align
      case Left => Repeat(spec.fill, pad)
      case Center => Repeat(spec.fill, if pad < 0 then 0 else pad - pad / 2)
      case _ => ""
  }

  function Layout(prefix: string, digits: string, spec: Spec): string {
    Before(prefix, |digits|, spec) + digits + After(prefix, |digits|, spec)
  }

  /** The layout is as wide as asked for, or as the number needs. */
  lemma LayoutWidth(prefix: string, digits: string, spec: Spec)
    ensures |Layout(prefix, digits, spec)|
      == if spec.width > |Number(prefix, digits, spec)| then spec.width else |Number(prefix, digits, spec)|
  {
  }

  /** A number that fills its width stands alone. */
  lemma LayoutTight(prefix: string, digits: string, spec: Spec)
    requires spec.width <= |Number(prefix, digits, spec)|
    ensures Layout(prefix, digits, spec) == Number(prefix, digits, spec)
  {
  }

  /** Otherwise fill characters go around it; numeric alignment puts them between prefix and digits. */
  lemma LayoutLoose(prefix: string, digits: string, spec: Spec)
    requires spec.width > |Number(prefix, digits, spec)|
    ensures var number := Number(prefix, digits, spec);
      var pad := spec.width - |number|;
      Layout(prefix, digits, spec) ==
        match spec.align
        case Left => number + Repeat(spec.fill, pad)
        case Center =>
          if ZerosAdded(|digits|, spec) then Repeat(spec.fill, pad) + number
          else Repeat(spec.fill, pad / 2) + number + Repeat(spec.fill, pad - pad / 2)
        case Numeric =>
          if ZerosAdded(|digits|, spec) then Repeat(spec.fill, pad) + number
          else prefix + Repeat(spec.fill, pad) + digits
        case _ => Repeat(spec.fill, pad) + number
  {
  }

  // ---------- digits and prefixes ----------

  function BaseChar(d: nat, upper: bool): char
    requires d < 16
  {
    if d < 10 then '0' + d as char else (if upper then 'A' else 'a') + (d - 10) as char
  }

  /** `n >> shift` for a base that is a power of two */
  function Quotient(n: nat, base: nat): (q: nat)
    requires 2 <= base <= 16
    ensures n > 0 ==> q < n
    ensures q == 0 <==> n < base
  {
    QuotientBounds(n, base);
    n / base
  }

  lemma QuotientBounds(n: nat, base: nat)
    requires 2 <= base
    ensures n / base >= 0 && (n > 0 ==> n / base < n) && (n / base == 0 <==> n < base)
  {
    Division(n, base);
    Scale(n / base, 2, base);
    if n / base >= 1 {
      Scale(base, 1, n / base);
    }
  }

  /** `n & (base - 1)` */
  function Remainder(n: nat, base: nat): (r: nat)
    requires 2 <= base <= 16
    ensures r < base && (n < base ==> r == n)
  {
    n % base
  }

  /** The numeral in a base up to 16. */
  function InBase(n: nat, base: nat, upper: bool): (s: string)
    requires 2 <= base <= 16
    ensures |s| >= 1
  {
    if Quotient(n, base) == 0 then [BaseChar(n, upper)]
    else InBase(Quotient(n, base), base, upper) + [BaseChar(Remainder(n, base), upper)]
  }

  lemma InBaseStep(n: nat, base: nat, upper: bool)
    requires 2 <= base <= 16
    ensures InBase(n, base, upper) ==
      (if Quotient(n, base) == 0 then "" else InBase(Quotient(n, base), base, upper))
      + [BaseChar(Remainder(n, base), upper)]
  {
  }

  function CharValue(c: char): nat {
    if '0' <= c <= '9' then c as int - '0' as int
    else if 'a' <= c <= 'f' then c as int - 'a' as int + 10
    else if 'A' <= c <= 'F' then c as int - 'A' as int + 10
    else 0
  }

  function ValueIn(s: string, base: nat): nat {
    if s == "" then 0 else base * ValueIn(s[..|s| - 1], base) + CharValue(s[|s| - 1])
  }

  lemma QuotientRemainder(n: nat, base: nat)
    requires 2 <= base <= 16
    ensures n == base * Quotient(n, base) + Remainder(n, base)
  {
    assert n / base * base + n % base == n;
  }

  /** The numeral stands for the number. */
  lemma {:induction false} InBaseBack(n: nat, base: nat, upper: bool)
    requires 2 <= base <= 16
    ensures ValueIn(InBase(n, base, upper), base) == n
  {
    hide Quotient, Remainder;
    var s := InBase(n, base, upper);
    QuotientRemainder(n, base);
    if Quotient(n, base) == 0 {
      assert s[..0] == "" && ValueIn("", base) == 0;
    } else {
      InBaseBack(Quotient(n, base), base, upper);
      assert s[..|s| - 1] == InBase(Quotient(n, base), base, upper);
    }
  }

  function DigitsOf(n: nat, form: Form): string {
    match form
    case Dec => Numeral(n)
    case Hex(upper) => InBase(n, 16, upper)
    case Bin(upper) => InBase(n, 2, upper)
    case Oct => InBase(n, 8, false)
    case Grouping(sep) => Separated(n, 0, sep)
  }

  function PrefixOf(negative: bool, spec: Spec): string {
    (if negative then "-" else match spec.sign case NoSign => "" case Plus => "+" case Space => " ")
    + if !spec.hash then "" else
        match spec.form
        case Hex(upper) => if upper then "0X" else "0x"
        case Bin(upper) => if upper then "0B" else "0b"
        case Oct => "0"
        case _ => ""
  }

  function Magnitude(x: int): nat {
    if x < 0 then -x else x
  }
}
