/** What the characters that `write_int` appends mean to a reader. */
module FmtShown {
  import opened FmtDigits
  import opened FmtDecimal
  import opened FmtInt
  import opened FmtLayout

  // ---------- reading ----------

  /** The number that digits stand for, with any separators taken out. */
  function ReadDigits(s: string, form: Form): nat {
    match form
    case Dec => ValueIn(s, 10)
    case Hex(_) => ValueIn(s, 16)
    case Bin(_) => ValueIn(s, 2)
    case Oct => ValueIn(s, 8)
    case Grouping(sep) => ValueIn(Without(s, c => c in sep), 10)
  }

  /** The same behind `0x` or `0X`, or behind `0b` or `0B`. */
  function ReadUnsigned(s: string, form: Form): nat {
    if |s| >= 2 && s[0] == '0' && ((form.Hex? && s[1] in "xX") || (form.Bin? && s[1] in "bB"))
    then ReadDigits(s[2..], form)
    else ReadDigits(s, form)
  }

  function ReadInt(s: string, form: Form): int {
    if s == "" then 0
    else if s[0] == '-' then 0 - ReadUnsigned(s[1..], form)
    else if s[0] in "+ " then ReadUnsigned(s[1..], form)
    else ReadUnsigned(s, form)
  }

  predicate IsDecimalDigit(c: char) {
    '0' <= c <= '9'
  }

  /** The characters of digits: those from ten on are letters of one case. */
  predicate IsDigitOf(c: char, form: Form) {
    match form
    case Dec => '0' <= c <= '9'
    case Hex(upper) => '0' <= c <= '9' || if upper then 'A' <= c <= 'F' else 'a' <= c <= 'f'
    case Bin(_) => c == '0' || c == '1'
    case Oct => '0' <= c <= '7'
    case Grouping(sep) => '0' <= c <= '9' || c in sep
  }

  lemma {:induction false} NumeralReads(n: nat)
    ensures ValueIn(Numeral(n), 10) == n && |Numeral(n)| > 0
    ensures forall c :: c in Numeral(n) ==> IsDecimalDigit(c)
  {
    var s := Numeral(n);
    if n < 10 {
      assert s[..0] == "" && ValueIn("", 10) == 0;
    } else {
      NumeralReads(n / 10);
      assert s[..|s| - 1] == Numeral(n / 10);
      assert s == Numeral(n / 10) + [DigitChar(n % 10)];
    }
  }

  lemma {:induction false} InBaseChars(n: nat, base: nat, upper: bool)
    requires 2 <= base <= 16
    ensures forall c :: c in InBase(n, base, upper) ==> exists d: nat :: d < base && c == BaseChar(d, upper)
  {
    if Quotient(n, base) == 0 {
      assert InBase(n, base, upper) == [BaseChar(n, upper)];
    } else {
      InBaseChars(Quotient(n, base), base, upper);
    }
  }

  lemma {:induction false} NumeralFirst(n: nat)
    ensures |Numeral(n)| > 0 && (n > 0 ==> Numeral(n)[0] != '0') && (n == 0 ==> |Numeral(n)| == 1)
  {
    if n >= 10 {
      NumeralFirst(n / 10);
    }
  }

  lemma {:induction false} InBaseFirst(n: nat, base: nat, upper: bool)
    requires 2 <= base <= 16
    ensures n > 0 ==> InBase(n, base, upper)[0] != '0'
    ensures n == 0 ==> |InBase(n, base, upper)| == 1
  {
    if Quotient(n, base) > 0 {
      InBaseFirst(Quotient(n, base), base, upper);
    }
  }

  /** The digits of every form have the characters of that form and no zero in front, and read as the number. */
  lemma DigitsShown(n: nat, form: Form)
    requires form.Grouping? ==> forall c :: c in form.sep ==> !IsDecimalDigit(c)
    ensures var s := DigitsOf(n, form);
      && |s| > 0 && ReadDigits(s, form) == n && (|s| > 1 ==> s[0] != '0')
      && forall c :: c in s ==> IsDigitOf(c, form)
  {
    hide InBase, Separated, ValueIn, Without, Numeral;
    match form {
      case Dec => NumeralReads(n); NumeralFirst(n);
      case Hex(upper) => InBaseBack(n, 16, upper); InBaseChars(n, 16, upper); InBaseFirst(n, 16, upper);
      case Bin(upper) => InBaseBack(n, 2, upper); InBaseChars(n, 2, upper); InBaseFirst(n, 2, upper);
      case Oct => InBaseBack(n, 8, false); InBaseChars(n, 8, false); InBaseFirst(n, 8, false);
      case Grouping(sep) =>
        NumeralReads(n);
        NumeralFirst(n);
        SeparatedIsGrouped(n, sep);
        ShortGroup(Numeral(n), sep);
        SeparatorsOut(Numeral(n), sep, c => c in sep);
        GroupedChars(Numeral(n), sep);
    }
  }

  lemma {:induction false} GroupedChars(digits: string, sep: string)
    ensures forall c :: c in Grouped(digits, sep) ==> c in digits || c in sep
    ensures |digits| > 0 ==> |Grouped(digits, sep)| > 0 && Grouped(digits, sep)[0] == digits[0]
  {
    if |digits| > 3 {
      GroupedChars(digits[..|digits| - 3], sep);
    }
  }

  lemma ShortGroup(digits: string, sep: string)
    ensures |digits| <= 1 ==> Grouped(digits, sep) == digits
  {
  }

  lemma {:induction false} LeadingZeros(k: nat, s: string, base: nat)
    ensures ValueIn(Repeat('0', k) + s, base) == ValueIn(s, base)
  {
    var all := Repeat('0', k) + s;
    if s != "" {
      assert all[..|all| - 1] == Repeat('0', k) + s[..|s| - 1];
      LeadingZeros(k, s[..|s| - 1], base);
    } else if k > 0 {
      assert all[..|all| - 1] == Repeat('0', k - 1) + "";
      LeadingZeros(k - 1, "", base);
    }
  }

  /** Zeros in front of the digits change nothing for the reader. */
  lemma ZerosRead(k: nat, n: nat, form: Form)
    requires form.Grouping? ==> forall c :: c in form.sep ==> !IsDecimalDigit(c)
    ensures var body := Repeat('0', k) + DigitsOf(n, form);
      && ReadDigits(body, form) == n && |body| > 0 && (form.Grouping? ==> IsDecimalDigit(body[0]))
      && forall c :: c in body ==> IsDigitOf(c, form)
  {
    hide DigitsOf, ValueIn, Without;
    var digits := DigitsOf(n, form);
    DigitsShown(n, form);
    if form.Grouping? {
      var isSep := (c: char) => c in form.sep;
      WithoutConcat(Repeat('0', k), digits, isSep);
      WithoutAllOrNone(Repeat('0', k), isSep);
      LeadingZeros(k, Without(digits, isSep), 10);
      FirstIsDigit(n, form.sep);
    } else {
      LeadingZeros(k, digits, match form case Hex(_) => 16 case Bin(_) => 2 case Oct => 8 case _ => 10);
    }
  }

  lemma FirstIsDigit(n: nat, sep: string)
    ensures var s := DigitsOf(n, Grouping(sep)); |s| > 0 && IsDecimalDigit(s[0])
  {
    NumeralReads(n);
    SeparatedIsGrouped(n, sep);
    GroupedChars(Numeral(n), sep);
    hide Numeral, Separated, Grouped;
    assert Numeral(n)[0] in Numeral(n);
  }

  lemma SignReads(negative: bool, sign: string, u: string, form: Form)
    requires sign == "-" <==> negative
    requires sign == "" || sign == "-" || sign == "+" || sign == " "
    requires |u| > 0 && u[0] !in "-+ "
    ensures ReadInt(sign + u, form) == if negative then 0 - ReadUnsigned(u, form) else ReadUnsigned(u, form)
  {
    hide ReadUnsigned;
    assert sign == "" ==> sign + u == u;
    assert sign != "" ==> (sign + u)[1..] == u && (sign + u)[0] == sign[0];
  }

  lemma BaseReads(base: string, body: string, form: Form)
    requires |body| > 0 && (forall c :: c in body ==> IsDigitOf(c, form))
    requires base == "" || (form.Hex? && (base == "0x" || base == "0X"))
             || (form.Bin? && (base == "0b" || base == "0B"))
    ensures ReadUnsigned(base + body, form) == ReadDigits(body, form)
  {
    hide ReadDigits;
    if base == "" {
      assert base + body == body;
      assert |body| >= 2 ==> body[1] in body;
    } else {
      assert (base + body)[2..] == body;
    }
  }

  // ---------- what is appended ----------

  /** The sign that a value is to be shown with. */
  function SignOf(value: int, spec: Spec): string {
    if value < 0 then "-"
    else match spec.sign
      case NoSign => ""
      case Plus => "+"
      case Space => " "
  }

  /** The base that a number is to be marked with, apart from the zero in front of an octal one. */
  function MarkOf(spec: Spec): string {
    match spec.form
    case Hex(upper) => if !spec.hash then "" else if upper then "0X" else "0x"
    case Bin(upper) => if !spec.hash then "" else if upper then "0B" else "0b"
    case _ => ""
  }

  /** How many zeros stand in front of `k` digits: up to the precision, or one to mark an octal number. */
  function ZerosOf(k: nat, spec: Spec): nat {
    if spec.precision > k then spec.precision - k else if spec.form.Oct? && spec.hash then 1 else 0
  }

  lemma PrefixIs(value: int, spec: Spec)
    ensures var octal := if spec.form.Oct? && spec.hash then "0" else "";
      && PrefixOf(value < 0, spec) == SignOf(value, spec) + MarkOf(spec) + octal
      && Trimmed(PrefixOf(value < 0, spec)) == SignOf(value, spec) + MarkOf(spec)
  {
    var octal, head := if spec.form.Oct? && spec.hash then "0" else "", SignOf(value, spec) + MarkOf(spec);
    assert PrefixOf(value < 0, spec) == head + octal;
    assert head + "" == head && (head + "0")[..|head|] == head;
    assert head != "" ==> head[|head| - 1] in "-+ xXbB";
  }

  /** Without the fill: sign, base, zeros and digits. */
  lemma NumberIs(value: int, spec: Spec, digits: string)
    ensures var head := SignOf(value, spec) + MarkOf(spec) + Repeat('0', ZerosOf(|digits|, spec));
      && Number(PrefixOf(value < 0, spec), digits, spec) == head + digits
      && (spec.precision <= |digits| ==> PrefixOf(value < 0, spec) == head)
  {
    PrefixIs(value, spec);
    hide PrefixOf, SignOf, MarkOf, Trimmed;
    if spec.precision <= |digits| {
      assert Repeat('0', 1) == "0" && Repeat('0', 0) == "";
    }
  }

  lemma SignIs(value: int, spec: Spec)
    ensures var sign, mark := SignOf(value, spec), MarkOf(spec);
      && (sign == "-" <==> value < 0) && (sign == "" || sign == "-" || sign == "+" || sign == " ")
      && (mark == "" || (spec.form.Hex? && (mark == "0x" || mark == "0X"))
          || (spec.form.Bin? && (mark == "0b" || mark == "0B")))
  {
  }

  /** The number without its fill reads as the value, for every specification and every value. */
  lemma NumberReads(value: int, spec: Spec)
    requires spec.form.Grouping? ==> forall c :: c in spec.form.sep ==> !IsDecimalDigit(c)
    ensures ReadInt(Number(PrefixOf(value < 0, spec), DigitsOf(Magnitude(value), spec.form), spec), spec.form) == value
  {
    hide DigitsOf, Number, PrefixOf, ReadInt, ReadUnsigned, ReadDigits;
    var digits := DigitsOf(Magnitude(value), spec.form);
    var body := Repeat('0', ZerosOf(|digits|, spec)) + digits;
    NumberIs(value, spec, digits);
    hide ZerosOf, SignOf, MarkOf;
    assert SignOf(value, spec) + MarkOf(spec) + Repeat('0', ZerosOf(|digits|, spec)) + digits
      == SignOf(value, spec) + (MarkOf(spec) + body);
    SignIs(value, spec);
    ZerosRead(ZerosOf(|digits|, spec), Magnitude(value), spec.form);
    BaseReads(MarkOf(spec), body, spec.form);
    assert body[0] in body;
    SignReads(value < 0, SignOf(value, spec), MarkOf(spec) + body, spec.form);
  }

  /**
   * A number with its fill: as much as the width asks for, on the side that the alignment says, in the middle of it
   * or around it. Zeros that the precision asks for leave no other place than the two sides.
   */
  function Filled(head: string, digits: string, spec: Spec): string {
    var pad := if spec.width > |head| + |digits| then spec.width - |head| - |digits| else 0;
    var plain := spec.precision <= |digits|;
    match spec.align
    case Left => head + digits + Repeat(spec.fill, pad)
    case Center =>
      if plain then Repeat(spec.fill, pad / 2) + (head + digits) + Repeat(spec.fill, pad - pad / 2)
      else Repeat(spec.fill, pad) + (head + digits)
    case Numeric =>
      if plain then head + Repeat(spec.fill, pad) + digits else Repeat(spec.fill, pad) + (head + digits)
    case _ => Repeat(spec.fill, pad) + (head + digits)
  }

  /** `text` shows `value`: sign, base, zeros and digits, which read as the value, and the fill. */
  ghost predicate Shows(text: string, value: int, spec: Spec) {
    exists digits: string ::
      var head := SignOf(value, spec) + MarkOf(spec) + Repeat('0', ZerosOf(|digits|, spec));
      && text == Filled(head, digits, spec)
      && ReadInt(head + digits, spec.form) == value && (|digits| > 1 ==> digits[0] != '0')
      && forall c :: c in digits ==> IsDigitOf(c, spec.form)
  }

  /** Separators have no digits. */
  predicate SeparatorsOk(form: Form) {
    form.Grouping? ==> forall c :: c in form.sep ==> !IsDecimalDigit(c)
  }

  lemma FilledTight(head: string, digits: string, spec: Spec)
    requires spec.width <= |head| + |digits|
    ensures Filled(head, digits, spec) == head + digits
  {
    var none := Repeat(spec.fill, 0);
    hide Repeat;
    assert none == "";
    assert "" + (head + digits) == head + digits && head + digits + "" == head + digits && head + "" == head;
  }

  lemma FilledLoose(prefix: string, head: string, digits: string, spec: Spec)
    requires Number(prefix, digits, spec) == head + digits && |head| + |digits| < spec.width
    requires spec.precision <= |digits| ==> prefix == head
    ensures Layout(prefix, digits, spec) == Filled(head, digits, spec)
  {
    hide Layout, Number, Repeat;
    LayoutLoose(prefix, digits, spec);
  }

  lemma FillIs(prefix: string, head: string, digits: string, spec: Spec)
    requires Number(prefix, digits, spec) == head + digits
    requires spec.precision <= |digits| ==> prefix == head
    ensures Layout(prefix, digits, spec) == Filled(head, digits, spec)
  {
    hide Layout, Number, Filled;
    if spec.width <= |head| + |digits| {
      LayoutTight(prefix, digits, spec);
      FilledTight(head, digits, spec);
    } else {
      FilledLoose(prefix, head, digits, spec);
    }
  }

  lemma TextShows(value: int, spec: Spec)
    requires SeparatorsOk(spec.form)
    ensures Shows(Layout(PrefixOf(value < 0, spec), DigitsOf(Magnitude(value), spec.form), spec), value, spec)
  {
    hide DigitsOf, Layout, Filled, PrefixOf, ReadInt, Number, SignOf, MarkOf, ZerosOf;
    var digits := DigitsOf(Magnitude(value), spec.form);
    DigitsShown(Magnitude(value), spec.form);
    NumberReads(value, spec);
    NumberIs(value, spec, digits);
    FillIs(PrefixOf(value < 0, spec), SignOf(value, spec) + MarkOf(spec) + Repeat('0', ZerosOf(|digits|, spec)), digits,
           spec);
  }

  /** A decimal number without width, precision and sign flag is the plain decimal form. */
  lemma PlainText(value: int, spec: Spec)
    requires spec.form == Dec && spec.width == 0 && spec.precision < 0 && spec.sign == NoSign
    ensures Layout(PrefixOf(value < 0, spec), DigitsOf(Magnitude(value), spec.form), spec) == Decimal(value)
  {
    hide Numeral, Layout, PrefixOf, Number;
    NumberIs(value, spec, Numeral(Magnitude(value)));
    LayoutTight(PrefixOf(value < 0, spec), DigitsOf(Magnitude(value), spec.form), spec);
    assert "" + "" + "" + Numeral(Magnitude(value)) == Numeral(Magnitude(value));
    assert "-" + "" + "" + Numeral(Magnitude(value)) == ['-'] + Numeral(Magnitude(value));
  }

  /** The decimal form reads as the number, whatever its sign. */
  lemma DecimalReads(value: int)
    ensures ReadInt(Decimal(value), Dec) == value
    ensures forall c :: c in Decimal(value) ==> c == '-' || IsDecimalDigit(c)
  {
    hide Numeral, ReadInt, ReadDigits, ValueIn;
    var digits := Numeral(Magnitude(value));
    NumeralReads(Magnitude(value));
    assert digits[0] in digits && ReadUnsigned(digits, Dec) == ReadDigits(digits, Dec);
    SignReads(value < 0, if value < 0 then "-" else "", digits, Dec);
    assert Decimal(value) == (if value < 0 then "-" else "") + digits;
    assert ReadDigits(digits, Dec) == ValueIn(digits, 10) by { ReadsDecimal(digits); }
  }

  lemma ReadsDecimal(s: string)
    ensures ReadDigits(s, Dec) == ValueIn(s, 10)
  {
  }
}
